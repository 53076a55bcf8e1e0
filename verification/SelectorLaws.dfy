/** What a workspace selector means: a printed list of terms is matched by exactly the workspaces
    that satisfy every term, whatever blanks are put between the terms. */
module SelectorLaws {
  import opened Text
  import opened Selector

  // ----- selectors as data ---------------------------------------------------------------------

  datatype Flag = Tiled | Floating | Pinned | Grouped | OnlyVisible

  datatype Amount = Exactly(n: nat) | Between(from: nat, to: nat)

  datatype Term =
    | InRange(from: nat, to: nat)
    | IsSpecial(special: bool)
    | IsNamed(named: bool)
    | NamePrefix(text: string)
    | NameSuffix(text: string)
    | OnMonitor(selector: string)
    | Windows(flags: seq<Flag>, amount: Amount)
    | FullscreenState(state: int)

  predicate Distinct(flags: seq<Flag>) {
    forall i, j :: 0 <= i < j < |flags| ==> flags[i] != flags[j]
  }

  predicate FitsAmount(a: Amount) {
    match a
    case Exactly(n) => n <= INT64_MAX
    case Between(from, to) => from <= INT64_MAX && to <= INT64_MAX
  }

  /** Terms one can write down: numbers that fit, no closing bracket inside a text, each flag at
      most once and not both tiled and floating. */
  predicate WellFormed(t: Term) {
    match t
    case InRange(from, to) => FitsAmount(Between(from, to))
    case IsSpecial(_) => true
    case IsNamed(_) => true
    case NamePrefix(text) => ']' !in text
    case NameSuffix(text) => ']' !in text
    case OnMonitor(selector) => ']' !in selector
    case Windows(flags, amount) => Distinct(flags) && !(Tiled in flags && Floating in flags) && FitsAmount(amount)
    case FullscreenState(state) => -INT_MAX - 1 <= state <= INT_MAX
  }

  // ----- meaning ----------------------------------------------------------------------------------

  predicate TargetMeets(t: Target, flags: seq<Flag>) {
    && (Tiled in flags ==> !t.floating)
    && (Floating in flags ==> t.floating)
    && (Pinned in flags ==> t.window && t.pinned)
    && (OnlyVisible in flags ==> t.window && t.visible)
  }

  predicate GroupMeets(g: Group, id: int, flags: seq<Flag>) {
    && g.workspace == id && g.mapped
    && (Tiled in flags ==> !g.floating)
    && (Floating in flags ==> g.floating)
    && (Pinned in flags ==> g.pinned)
    && (OnlyVisible in flags ==> g.visible)
  }

  /** How many windows, or groups, of the workspace have all the flags. */
  ghost function HowMany(w: Workspace, flags: seq<Flag>): nat {
    if Grouped in flags then |set i | 0 <= i < |w.groups| && GroupMeets(w.groups[i], w.id, flags)|
    else |set i | 0 <= i < |w.targets| && TargetMeets(w.targets[i], flags)|
  }

  predicate Within(n: int, a: Amount) {
    match a
    case Exactly(m) => n == m
    case Between(from, to) => 1 <= from <= n <= to
  }

  ghost predicate Meaning(w: Workspace, mons: Monitors, t: Term) {
    match t
    case InRange(from, to) => Within(w.id, Between(from, to))
    case IsSpecial(special) => w.special == special
    case IsNamed(named) => named == (w.id <= -1337)
    case NamePrefix(text) => text <= w.name
    case NameSuffix(text) => EndsWith(w.name, text)
    case OnMonitor(selector) => selector in mons && mons[selector] == w.monitor
    case Windows(flags, amount) => Within(HowMany(w, flags), amount)
    case FullscreenState(state) =>
      if state == -1 then !w.hasFullscreen
      else if state == 0 then w.fullscreen.FullFullscreen?
      else if state == 1 then w.fullscreen.Maximized?
      else true
  }

  // ----- printing ----------------------------------------------------------------------------------

  function FlagChar(f: Flag): char {
    match f
    case Tiled => 't'
    case Floating => 'f'
    case Pinned => 'p'
    case Grouped => 'g'
    case OnlyVisible => 'v'
  }

  function FlagText(flags: seq<Flag>): (s: string)
    ensures |s| == |flags|
    ensures forall i :: 0 <= i < |flags| ==> s[i] == FlagChar(flags[i])
  {
    if flags == [] then [] else [FlagChar(flags[0])] + FlagText(flags[1..])
  }

  function AmountText(a: Amount): string {
    match a
    case Exactly(n) => Decimal(n)
    case Between(from, to) => Decimal(from) + "-" + Decimal(to)
  }

  function Bool(b: bool): string {
    if b then "true" else "false"
  }

  function Letter(t: Term): char {
    match t
    case InRange(_, _) => 'r'
    case IsSpecial(_) => 's'
    case IsNamed(_) => 'n'
    case NamePrefix(_) => 'n'
    case NameSuffix(_) => 'n'
    case OnMonitor(_) => 'm'
    case Windows(_, _) => 'w'
    case FullscreenState(_) => 'f'
  }

  function Argument(t: Term): string {
    match t
    case InRange(from, to) => AmountText(Between(from, to))
    case IsSpecial(special) => Bool(special)
    case IsNamed(named) => Bool(named)
    case NamePrefix(text) => "s:" + text
    case NameSuffix(text) => "e:" + text
    case OnMonitor(selector) => selector
    case Windows(flags, amount) => FlagText(flags) + AmountText(amount)
    case FullscreenState(state) => StateText(state)
  }

  function Print(t: Term): string {
    [Letter(t), '['] + Argument(t) + [']']
  }

  /** A list of terms, each behind some blanks, and blanks at the end. */
  function PrintAll(terms: seq<Term>, blanks: seq<string>): string
    requires |blanks| == |terms| + 1
  {
    if terms == [] then blanks[0]
    else blanks[0] + (Print(terms[0]) + PrintAll(terms[1..], blanks[1..]))
  }

  // ----- one term ------------------------------------------------------------------------------------

  lemma RangeParses(from: nat, to: nat)
    requires from <= INT64_MAX && to <= INT64_MAX
    ensures ParseRange(AmountText(Between(from, to))) == if 1 <= from <= to then Some((from as int, to as int)) else None
    ensures '-' in AmountText(Between(from, to)) && ']' !in AmountText(Between(from, to))
    ensures Digit(AmountText(Between(from, to))[0])
  {
    var l, r := Decimal(from), Decimal(to);
    DecimalIsNumber(from);
    DecimalIsNumber(to);
    FindFirst(l, '-', r);
    var s := l + ['-'] + r;
    assert s == AmountText(Between(from, to));
    assert s[..|l|] == l && s[|l| + 1..] == r;
    assert s[|l|] == '-';
  }

  /** The flag record after reading some flags. */
  function WithFlags(f: Flags, flags: seq<Flag>): Flags {
    Flags(if Tiled in flags then 1 else if Floating in flags then 0 else f.tiled,
          f.pinned || Pinned in flags, f.group || Grouped in flags, f.visible || OnlyVisible in flags)
  }

  /** None of the flags has been read before. */
  predicate Unread(f: Flags, flags: seq<Flag>) {
    && (Tiled in flags || Floating in flags ==> f.tiled == -1)
    && (Pinned in flags ==> !f.pinned) && (Grouped in flags ==> !f.group) && (OnlyVisible in flags ==> !f.visible)
  }

  lemma OneFlagRead(f: Flags, head: Flag, tail: seq<Flag>)
    requires head !in tail && !(Tiled in [head] + tail && Floating in [head] + tail) && Unread(f, [head] + tail)
    ensures var next := AddFlag(f, FlagChar(head));
            next.Some? && Unread(next.value, tail) && WithFlags(next.value, tail) == WithFlags(f, [head] + tail)
  {
    assert head in [head] + tail;
    assert forall g :: g in [head] + tail <==> g == head || g in tail;
  }

  /** The flags read off a text are the flags that were printed, in any order. */
  lemma {:induction false} FlagsRead(f: Flags, flags: seq<Flag>, rest: string)
    requires Distinct(flags) && !(Tiled in flags && Floating in flags) && Unread(f, flags)
    requires rest != [] && Digit(rest[0])
    ensures TakeFlags(f, FlagText(flags) + rest) == (WithFlags(f, flags), rest)
    decreases |flags|
  {
    var s := FlagText(flags) + rest;
    if flags == [] {
      assert s == rest;
    } else {
      var head, tail := flags[0], flags[1..];
      assert s[0] == FlagChar(head) && s[1..] == FlagText(tail) + rest;
      assert flags == [head] + tail;
      OneFlagRead(f, head, tail);
      FlagsRead(AddFlag(f, FlagChar(head)).value, tail, rest);
    }
  }

  lemma CountMeans(w: Workspace, flags: seq<Flag>)
    requires !(Tiled in flags && Floating in flags)
    ensures var f := Flags(if Tiled in flags then 1 else if Floating in flags then 0 else -1,
                           Pinned in flags, Grouped in flags, OnlyVisible in flags);
            Count(w, f) == HowMany(w, flags)
  {
    var f := Flags(if Tiled in flags then 1 else if Floating in flags then 0 else -1,
                   Pinned in flags, Grouped in flags, OnlyVisible in flags);
    if f.group {
      CountGroupsIs(w.groups, w.id, WantedBy(f));
      assert GroupIndices(w.groups, w.id, WantedBy(f)) ==
             set i | 0 <= i < |w.groups| && GroupMeets(w.groups[i], w.id, flags);
    } else {
      CountTargetsIs(w.targets, WantedBy(f));
      assert TargetIndices(w.targets, WantedBy(f)) ==
             set i | 0 <= i < |w.targets| && TargetMeets(w.targets[i], flags);
    }
  }

  lemma WindowsMean(w: Workspace, flags: seq<Flag>, amount: Amount)
    requires WellFormed(Windows(flags, amount))
    ensures EvalWindows(w, FlagText(flags) + AmountText(amount)) == Within(HowMany(w, flags), amount)
  {
    match amount {
      case Exactly(n) => DecimalIsNumber(n); assert Digit(Decimal(n)[0]);
      case Between(from, to) => RangeParses(from, to);
    }
    FlagsRead(NO_FLAGS, flags, AmountText(amount));
    CountMeans(w, flags);
  }

  function StateText(state: int): string {
    if state < 0 then "-" + Decimal(-state) else Decimal(state)
  }

  lemma StateParses(state: int)
    ensures LeadingNumber(StateText(state)) == Some(state)
  {
    var n := if state < 0 then -state else state;
    DecimalRoundTrip(n);
    LeadingOfDigits(Decimal(n));
  }

  lemma FullscreenMeans(w: Workspace, text: string, state: int)
    requires -INT_MAX - 1 <= state <= INT_MAX && LeadingNumber(text) == Some(state)
    ensures EvalFullscreen(w, text) == Meaning(w, map[], FullscreenState(state))
  {
    hide LeadingNumber;
  }

  lemma StateMeans(w: Workspace, state: int)
    requires -INT_MAX - 1 <= state <= INT_MAX
    ensures EvalFullscreen(w, StateText(state)) == Meaning(w, map[], FullscreenState(state))
  {
    StateParses(state);
    FullscreenMeans(w, StateText(state), state);
  }

  lemma NameMeans(w: Workspace, t: Term)
    requires t.IsNamed? || t.NamePrefix? || t.NameSuffix?
    ensures EvalNamed(w, Argument(t)) == Meaning(w, map[], t)
  {
    var s := Argument(t);
    match t {
      case IsNamed(named) => assert s[0] == if named then 't' else 'f';
      case NamePrefix(text) => assert s[0] == 's' && s[2..] == text;
      case NameSuffix(text) => assert s[0] == 'e' && s[2..] == text;
    }
  }

  lemma SpecialMeans(w: Workspace, special: bool)
    ensures EvalSpecial(w, Bool(special)) == (w.special == special)
  {
    var s := Bool(special);
    assert s[0] == if special then 't' else 'f';
  }

  lemma RangeMeans(w: Workspace, from: nat, to: nat)
    requires WellFormed(InRange(from, to))
    ensures EvalRange(w, AmountText(Between(from, to))) == Within(w.id, Between(from, to))
  {
    RangeParses(from, to);
  }

  lemma ArgumentMeans(w: Workspace, mons: Monitors, t: Term)
    requires WellFormed(t)
    ensures EvalArgument(w, mons, Letter(t), Argument(t)) == Meaning(w, mons, t)
  {
    match t {
      case InRange(from, to) => RangeMeans(w, from, to);
      case IsSpecial(special) => SpecialMeans(w, special);
      case IsNamed(_) => NameMeans(w, t);
      case NamePrefix(_) => NameMeans(w, t);
      case NameSuffix(_) => NameMeans(w, t);
      case OnMonitor(_) =>
      case Windows(flags, amount) => WindowsMean(w, flags, amount);
      case FullscreenState(state) => StateMeans(w, state);
    }
  }

  lemma TermMeans(w: Workspace, mons: Monitors, t: Term)
    requires WellFormed(t)
    ensures EvalProp(w, mons, Print(t)) == Meaning(w, mons, t)
  {
    var p := Print(t);
    assert p[2..|p| - 1] == Argument(t);
    ArgumentMeans(w, mons, t);
  }

  /** Only the last character of a printed term is a closing bracket. */
  lemma TermIsOneToken(t: Term)
    requires WellFormed(t)
    ensures ']' !in Argument(t)
  {
    match t {
      case InRange(from, to) => RangeParses(from, to);
      case IsSpecial(_) =>
      case IsNamed(_) =>
      case NamePrefix(_) =>
      case NameSuffix(_) =>
      case OnMonitor(_) =>
      case Windows(flags, amount) => WindowsIsOneToken(flags, amount);
      case FullscreenState(state) => DecimalIsNumber(if state < 0 then -state else state);
    }
  }

  lemma WindowsIsOneToken(flags: seq<Flag>, amount: Amount)
    requires WellFormed(Windows(flags, amount))
    ensures ']' !in FlagText(flags) + AmountText(amount)
  {
    match amount {
      case Exactly(n) => DecimalIsNumber(n);
      case Between(from, to) => RangeParses(from, to);
    }
  }

  // ----- concatenation is conjunction ----------------------------------------------------------------

  /** A text the scanner leaves at a token boundary. */
  predicate Closed(s: string)
    decreases |s|
  {
    if s == [] then true
    else if Blank(s[0]) then Closed(s[1..])
    else Find(s, ']') < |s| && Closed(s[Find(s, ']') + 1..])
  }

  /** The scanner is a homomorphism from concatenation to "and". */
  lemma {:induction false} ConcatIsAnd(read: string -> bool, s: string, t: string)
    requires Closed(s)
    ensures Scanned(read, s + t) == (Scanned(read, s) && Scanned(read, t))
    decreases |s|
  {
    if s == [] {
      assert s + t == t;
    } else if Blank(s[0]) {
      assert (s + t)[1..] == s[1..] + t;
      ConcatIsAnd(read, s[1..], t);
    } else {
      var close := Find(s, ']');
      assert s + t == s[..close] + [']'] + (s[close + 1..] + t);
      FindFirst(s[..close], ']', s[close + 1..] + t);
      assert (s + t)[..close + 1] == s[..close + 1];
      assert (s + t)[close + 1..] == s[close + 1..] + t;
      ConcatIsAnd(read, s[close + 1..], t);
    }
  }

  lemma {:induction false} BlanksMeanNothing(read: string -> bool, b: string)
    requires AllBlank(b)
    ensures Closed(b) && Scanned(read, b)
  {
    if b != [] {
      BlanksMeanNothing(read, b[1..]);
    }
  }

  lemma TermAlone(w: Workspace, mons: Monitors, t: Term)
    requires WellFormed(t)
    ensures Closed(Print(t)) && Eval(w, mons, Print(t)) == Meaning(w, mons, t)
  {
    var p, arg := Print(t), Argument(t);
    TermIsOneToken(t);
    FindFirst([Letter(t), '['] + arg, ']', []);
    assert p == [Letter(t), '['] + arg + [']'] + [];
    assert p[..|p|] == p && p[|p|..] == [];
    TermMeans(w, mons, t);
    assert Scanned(Reader(w, mons), []);
  }

  lemma {:induction false} PrintedEvaluates(w: Workspace, mons: Monitors, terms: seq<Term>, blanks: seq<string>)
    requires |blanks| == |terms| + 1
    requires forall t :: t in terms ==> WellFormed(t)
    requires forall b :: b in blanks ==> AllBlank(b)
    ensures Eval(w, mons, PrintAll(terms, blanks)) <==> forall t :: t in terms ==> Meaning(w, mons, t)
    decreases |terms|
  {
    BlanksMeanNothing(Reader(w, mons), blanks[0]);
    if terms != [] {
      var rest := PrintAll(terms[1..], blanks[1..]);
      ConcatIsAnd(Reader(w, mons), blanks[0], Print(terms[0]) + rest);
      TermAlone(w, mons, terms[0]);
      ConcatIsAnd(Reader(w, mons), Print(terms[0]), rest);
      PrintedEvaluates(w, mons, terms[1..], blanks[1..]);
      assert terms == [terms[0]] + terms[1..];
    }
  }

  // ----- the whole of matchesStaticSelector -------------------------------------------------------------

  /** Blanks at the start never change the verdict. */
  lemma {:induction false} LeftBlanksIgnored(read: string -> bool, s: string)
    ensures Scanned(read, TrimLeft(s)) == Scanned(read, s)
  {
    if s != [] && Blank(s[0]) {
      LeftBlanksIgnored(read, s[1..]);
    }
  }

  /** Blanks at the end never change the verdict, even on texts that are not closed. */
  lemma {:induction false} RightBlanksIgnored(read: string -> bool, s: string, b: string)
    requires AllBlank(b)
    ensures Scanned(read, s + b) == Scanned(read, s)
    decreases |s|
  {
    if s == [] {
      assert s + b == b;
      BlanksMeanNothing(read, b);
    } else if Blank(s[0]) {
      assert (s + b)[1..] == s[1..] + b;
      RightBlanksIgnored(read, s[1..], b);
    } else {
      var close := Find(s, ']');
      if close < |s| {
        assert s + b == s[..close] + [']'] + (s[close + 1..] + b);
        FindFirst(s[..close], ']', s[close + 1..] + b);
        assert (s + b)[..close + 1] == s[..close + 1];
        assert (s + b)[close + 1..] == s[close + 1..] + b;
        RightBlanksIgnored(read, s[close + 1..], b);
      } else {
        assert ']' !in s + b;
      }
    }
  }

  /** So trimming a selector keeps its verdict. */
  lemma TrimIgnored(read: string -> bool, text: string)
    ensures Scanned(read, Trim(text)) == Scanned(read, text)
  {
    LeftBlanksIgnored(read, text);
    RightTrimIgnored(read, TrimLeft(text));
  }

  lemma RightTrimIgnored(read: string -> bool, s: string)
    ensures Scanned(read, TrimRight(s)) == Scanned(read, s)
  {
    var t := TrimRight(s);
    var b := s[|t|..];
    assert t + b == s;
    RightBlanksIgnored(read, t, b);
  }

  lemma PrintedForm(terms: seq<Term>, blanks: seq<string>)
    requires |blanks| == |terms| + 1 && terms != [] && AllBlank(blanks[0])
    ensures var s := Trim(PrintAll(terms, blanks)); |s| >= 2 && s[1] == '['
  {
    var body := Print(terms[0]) + PrintAll(terms[1..], blanks[1..]);
    assert body[0] == Letter(terms[0]) && body[1] == '[';
    LeftBlanksOff(blanks[0], body);
    BracketSurvivesTrim(body);
  }

  /** A selector printed from a non-empty list of terms is matched exactly by the workspaces that
      satisfy all of them -- whatever the blanks. */
  lemma {:induction false} PrintedSelectorMatches(w: Workspace, mons: Monitors, active: Option<int>, terms: seq<Term>, blanks: seq<string>)
    requires |blanks| == |terms| + 1 && terms != []
    requires forall t :: t in terms ==> WellFormed(t)
    requires forall b :: b in blanks ==> AllBlank(b)
    ensures Match(w, mons, active, PrintAll(terms, blanks)) ==
            Decide(forall t :: t in terms ==> Meaning(w, mons, t))
  {
    var text := PrintAll(terms, blanks);
    PrintedForm(terms, blanks);
    BracketIsNoName(w, mons, active, text);
    TrimIgnored(Reader(w, mons), text);
    PrintedEvaluates(w, mons, terms, blanks);
  }

  lemma BracketSurvivesTrim(body: string)
    requires |body| >= 2 && body[1] == '['
    ensures var s := TrimRight(body); |s| >= 2 && s[0] == body[0] && s[1] == '['
  {
    assert !Blank(body[1]);
  }

  lemma BracketIsNoNumber(s: string)
    requires |s| >= 2 && s[1] == '['
    ensures !IsNumber(s) && !("name:" <= s) && !("special" <= s)
  {
    assert !Digit(s[1]);
    assert s[1..][0] == s[1];
    assert "name:"[1] == 'a' && "special"[1] == 'p';
  }

  /** A text whose second character is a bracket is a list of terms: no number, no name. */
  lemma BracketIsNoName(w: Workspace, mons: Monitors, active: Option<int>, text: string)
    requires var s := Trim(text); |s| >= 2 && s[1] == '['
    ensures Match(w, mons, active, text) == Decide(Eval(w, mons, Trim(text)))
  {
    BracketIsNoNumber(Trim(text));
  }

  // ----- other spellings, and what is no selector ------------------------------------------------------

  predicate YesText(s: string) {
    s == "true" || s == "on" || s == "yes"
  }

  predicate NoText(s: string) {
    s == "false" || s == "off" || s == "no"
  }

  lemma WordParses(s: string)
    requires YesText(s) || NoText(s)
    ensures ParseInt(s) == Some(if YesText(s) then 1 else 0) && !("s:" <= s) && !("e:" <= s)
  {
    assert s[0] != '0' && s[0] != 's' && s[0] != 'e';
    assert s[0] == 'o' || s[0] == 't' || s[0] == 'y' || s[0] == 'f' || s[0] == 'n';
    assert s == "off" ==> s[1] == 'f';
  }

  lemma NumberParses(n: nat)
    requires n <= INT64_MAX
    ensures ParseInt(Decimal(n)) == Some(n as int) && !("s:" <= Decimal(n)) && !("e:" <= Decimal(n))
  {
    var d := Decimal(n);
    DecimalIsNumber(n);
    assert Digit(d[0]) && forall i :: 0 <= i < |d| ==> Digit(d[i]);
    assert |d| > 1 ==> d[1] != 'x';
  }

  /** s[...] and n[...] take words and numbers as well; a number other than 0 and 1 is never n. */
  lemma SpellingsMean(w: Workspace, mons: Monitors, s: string, n: nat)
    requires (YesText(s) || NoText(s)) && n <= INT64_MAX
    ensures EvalArgument(w, mons, 's', s) <==> w.special == YesText(s)
    ensures EvalArgument(w, mons, 'n', s) <==> (w.id <= -1337) == YesText(s)
    ensures EvalArgument(w, mons, 's', Decimal(n)) <==> w.special == (n != 0)
    ensures EvalArgument(w, mons, 'n', Decimal(n)) <==> n == if w.id <= -1337 then 1 else 0
  {
    hide ParseInt;
    WordParses(s);
    NumberParses(n);
  }

  /** A text that matches at its start has a property there: one of the six letters, an argument in
      brackets, and on goes the scan. */
  lemma MatchedForm(w: Workspace, mons: Monitors, s: string) returns (arg: string, rest: string)
    requires s != [] && !Blank(s[0]) && Eval(w, mons, s)
    ensures ']' !in arg && s == [s[0]] + "[" + arg + "]" + rest
    ensures s[0] in "rsnmwf" && EvalArgument(w, mons, s[0], arg) && Eval(w, mons, rest)
  {
    hide EvalArgument;
    var close := Find(s, ']');
    var prop := s[..close + 1];
    assert Reader(w, mons)(prop) == EvalProp(w, mons, prop);
    rest := s[close + 1..];
    arg := prop[2..|prop| - 1];
    assert forall i :: 0 <= i < |arg| ==> arg[i] == s[i + 2];
    assert prop == [s[0]] + "[" + arg + "]";
    assert s == prop + rest;
    LetterKnown(w, mons, s[0], arg);
  }

  lemma LetterKnown(w: Workspace, mons: Monitors, letter: char, arg: string)
    requires EvalArgument(w, mons, letter, arg)
    ensures letter in "rsnmwf"
  {
    assert 'r' in "rsnmwf" && 's' in "rsnmwf" && 'n' in "rsnmwf" && 'm' in "rsnmwf" && 'w' in "rsnmwf" && 'f' in "rsnmwf";
  }

  /** r[...] matches only on two numbers around a dash that enclose the id. */
  lemma MatchedRange(w: Workspace, mons: Monitors, arg: string)
    requires EvalArgument(w, mons, 'r', arg)
    ensures exists lhs, rhs :: arg == lhs + "-" + rhs && IsNumber(lhs) && IsNumber(rhs) && 1 <= Signed(lhs) <= w.id <= Signed(rhs)
  {
    var dash := Find(arg, '-');
    assert arg == arg[..dash] + "-" + arg[dash + 1..];
  }
}
