/** CWorkspace::matchesStaticSelector: the scanner and interpreter of workspace selectors such as
    `r[1-5] w[tv2-4] m[DP-1]`, with the counting loops behind `w`. */
module Selector {
  import opened Text

  const INT64_MAX: int := 0x7FFF_FFFF_FFFF_FFFF
  const INT_MAX: int := 0x7FFF_FFFF

  // ----- the workspace a selector is matched against -----------------------------------------

  /** A layout target: `window` tells whether it has one, `visible` whether that window is shown. */
  datatype Target = Target(floating: bool, window: bool, pinned: bool, visible: bool)

  /** A window group, by what its head and its current window say. */
  datatype Group = Group(workspace: int, mapped: bool, floating: bool, pinned: bool, visible: bool)

  datatype Fullscreen = NoFullscreen | Maximized | FullFullscreen

  datatype Workspace = Workspace(id: int, name: string, special: bool, monitor: int,
                                 targets: seq<Target>, groups: seq<Group>,
                                 hasFullscreen: bool, fullscreen: Fullscreen)

  /** Monitor selectors resolved against the focused monitor. */
  type Monitors = map<string, int>

  // ----- counting windows ----------------------------------------------------------------------

  datatype Wanted = Wanted(tiled: Option<bool>, pinned: Option<bool>, visible: Option<bool>)

  predicate CountsTarget(t: Target, f: Wanted) {
    && (f.tiled.Some? ==> t.floating != f.tiled.value)
    && (f.pinned.Some? ==> t.window && t.pinned == f.pinned.value)
    && (f.visible.Some? ==> t.window && (t.window && t.visible) == f.visible.value)
  }

  predicate CountsGroup(g: Group, id: int, f: Wanted) {
    && g.workspace == id && g.mapped
    && (f.tiled.Some? ==> g.floating != f.tiled.value)
    && (f.pinned.Some? ==> g.pinned == f.pinned.value)
    && (f.visible.Some? ==> g.visible == f.visible.value)
  }

  ghost function TargetIndices(ts: seq<Target>, f: Wanted): set<int> {
    set i | 0 <= i < |ts| && CountsTarget(ts[i], f)
  }

  ghost function GroupIndices(gs: seq<Group>, id: int, f: Wanted): set<int> {
    set i | 0 <= i < |gs| && CountsGroup(gs[i], id, f)
  }

  function CountTargets(ts: seq<Target>, f: Wanted): nat {
    if ts == [] then 0
    else CountTargets(ts[..|ts| - 1], f) + if CountsTarget(ts[|ts| - 1], f) then 1 else 0
  }

  function CountGroups(gs: seq<Group>, id: int, f: Wanted): nat {
    if gs == [] then 0
    else CountGroups(gs[..|gs| - 1], id, f) + if CountsGroup(gs[|gs| - 1], id, f) then 1 else 0
  }

  lemma {:induction false} CountTargetsIs(ts: seq<Target>, f: Wanted)
    ensures CountTargets(ts, f) == |TargetIndices(ts, f)|
  {
    if ts != [] {
      var n := |ts| - 1;
      var before := TargetIndices(ts[..n], f);
      CountTargetsIs(ts[..n], f);
      if CountsTarget(ts[n], f) {
        assert TargetIndices(ts, f) == before + {n};
      } else {
        assert TargetIndices(ts, f) == before;
      }
    }
  }

  lemma {:induction false} CountGroupsIs(gs: seq<Group>, id: int, f: Wanted)
    ensures CountGroups(gs, id, f) == |GroupIndices(gs, id, f)|
  {
    if gs != [] {
      var n := |gs| - 1;
      var before := GroupIndices(gs[..n], id, f);
      CountGroupsIs(gs[..n], id, f);
      if CountsGroup(gs[n], id, f) {
        assert GroupIndices(gs, id, f) == before + {n};
      } else {
        assert GroupIndices(gs, id, f) == before;
      }
    }
  }

  method GetWindowCount(ts: seq<Target>, f: Wanted) returns (no: nat)
    ensures no == CountTargets(ts, f) == |TargetIndices(ts, f)|
  {
    no := 0;
    for i := 0 to |ts|
      invariant no == CountTargets(ts[..i], f)
    {
      var t := ts[i];
      assert ts[..i + 1][..i] == ts[..i];
      var visibilityFulfilled := t.window && t.visible;
      if f.tiled.Some? && t.floating == f.tiled.value {
        continue;
      }
      if f.pinned.Some? && (!t.window || t.pinned != f.pinned.value) {
        continue;
      }
      if f.visible.Some? && (!t.window || visibilityFulfilled != f.visible.value) {
        continue;
      }
      no := no + 1;
    }
    assert ts[..|ts|] == ts;
    CountTargetsIs(ts, f);
  }

  method GetGroups(gs: seq<Group>, id: int, f: Wanted) returns (no: nat)
    ensures no == CountGroups(gs, id, f) == |GroupIndices(gs, id, f)|
  {
    no := 0;
    for i := 0 to |gs|
      invariant no == CountGroups(gs[..i], id, f)
    {
      var g := gs[i];
      assert gs[..i + 1][..i] == gs[..i];
      if g.workspace != id || !g.mapped {
        continue;
      }
      if f.tiled.Some? && g.floating == f.tiled.value {
        continue;
      }
      if f.pinned.Some? && g.pinned != f.pinned.value {
        continue;
      }
      if f.visible.Some? && g.visible != f.visible.value {
        continue;
      }
      no := no + 1;
    }
    assert gs[..|gs|] == gs;
    CountGroupsIs(gs, id, f);
  }

  // ----- the interpreter, one property at a time ---------------------------------------------------

  function HexDigit(c: char): int {
    if '0' <= c <= '9' then c as int - '0' as int
    else if 'a' <= c <= 'f' then c as int - 'a' as int + 10
    else if 'A' <= c <= 'F' then c as int - 'A' as int + 10
    else -1
  }

  /** Number of a text of hexadecimal digits, -1 for any other text. */
  function Hex(s: string): int
  {
    if s == [] then -1
    else
      var d, n := HexDigit(s[|s| - 1]), if |s| == 1 then 0 else Hex(s[..|s| - 1]);
      if d < 0 || n < 0 then -1 else 16 * n + d
  }

  /** Config::ParserUtils::parseInt. */
  function ParseInt(s: string): Option<int> {
    if "0x" <= s then
      var n := Hex(s[2..]);
      if n < 0 || n > 2 * INT64_MAX + 1 then None else Some(n)
    else if "true" <= s || "on" <= s || "yes" <= s then Some(1)
    else if "false" <= s || "off" <= s || "no" <= s then Some(0)
    else if IsNumber(s) && -INT64_MAX - 1 <= Signed(s) <= INT64_MAX then Some(Signed(s))
    else None
  }

  /** a-b: both numbers that fit, 1 <= a <= b; None is an invalid selector. */
  function ParseRange(s: string): Option<(int, int)> {
    var dash := Find(s, '-');
    if dash == |s| then None
    else
      var lhs, rhs := s[..dash], s[dash + 1..];
      if !IsNumber(lhs) || !IsNumber(rhs) then None
      else
        var from, to := Signed(lhs), Signed(rhs);
        if from > INT64_MAX || to > INT64_MAX || to < -INT64_MAX - 1 then None
        else if to < from || to < 1 || from < 1 then None
        else Some((from, to))
  }

  /** The flags of w[...]: -1, 0, 1 for unset, floating, tiled. */
  datatype Flags = Flags(tiled: int, pinned: bool, group: bool, visible: bool)

  const NO_FLAGS := Flags(-1, false, false, false)

  /** One more flag character, or None where the flags end. */
  function AddFlag(f: Flags, c: char): Option<Flags> {
    if c == 't' && f.tiled == -1 then Some(f.(tiled := 1))
    else if c == 'f' && f.tiled == -1 then Some(f.(tiled := 0))
    else if c == 'p' && !f.pinned then Some(f.(pinned := true))
    else if c == 'g' && !f.group then Some(f.(group := true))
    else if c == 'v' && !f.visible then Some(f.(visible := true))
    else None
  }

  /** All leading flag characters, and the text after them. */
  function TakeFlags(f: Flags, s: string): (Flags, string)
    decreases |s|
  {
    if s == [] || AddFlag(f, s[0]).None? then (f, s) else TakeFlags(AddFlag(f, s[0]).value, s[1..])
  }

  method ReadFlags(s: string) returns (f: Flags, rest: string)
    ensures (f, rest) == TakeFlags(NO_FLAGS, s)
  {
    f := NO_FLAGS;
    var flagCount := 0;
    while flagCount < |s|
      invariant flagCount <= |s|
      invariant TakeFlags(f, s[flagCount..]) == TakeFlags(NO_FLAGS, s)
    {
      var next := AddFlag(f, s[flagCount]);
      if next.None? {
        break;
      }
      f := next.value;
      flagCount := flagCount + 1;
    }
    rest := s[flagCount..];
  }

  function WantedBy(f: Flags): Wanted {
    Wanted(if f.tiled == -1 then None else Some(f.tiled == 1),
           if f.pinned then Some(true) else None,
           if f.visible then Some(true) else None)
  }

  function Count(w: Workspace, f: Flags): nat {
    if f.group then CountGroups(w.groups, w.id, WantedBy(f)) else CountTargets(w.targets, WantedBy(f))
  }

  predicate EvalWindows(w: Workspace, s: string) {
    var (f, rest) := TakeFlags(NO_FLAGS, s);
    if '-' !in rest then
      IsNumber(rest) && Signed(rest) <= INT64_MAX && Count(w, f) == Signed(rest)
    else
      var r := ParseRange(rest);
      r.Some? && r.value.0 <= Count(w, f) <= r.value.1
  }

  predicate EvalFullscreen(w: Workspace, s: string) {
    var n := LeadingNumber(s);
    if n.None? || n.value > INT_MAX || n.value < -INT_MAX - 1 then false
    else if n.value == -1 then !w.hasFullscreen
    else if n.value == 0 then w.fullscreen.FullFullscreen?
    else if n.value == 1 then w.fullscreen.Maximized?
    else true
  }

  predicate EvalNamed(w: Workspace, s: string) {
    && ("s:" <= s ==> s[2..] <= w.name)
    && ("e:" <= s ==> EndsWith(w.name, s[2..]))
    && (var n := ParseInt(s); n.Some? ==> n.value == if w.id <= -1337 then 1 else 0)
  }

  predicate EvalRange(w: Workspace, s: string) {
    var r := ParseRange(s);
    r.Some? && r.value.0 <= w.id <= r.value.1
  }

  predicate EvalSpecial(w: Workspace, s: string) {
    var n := ParseInt(s);
    n.Some? ==> (n.value != 0) == w.special
  }

  /** A property by its letter and its argument. */
  predicate EvalArgument(w: Workspace, mons: Monitors, letter: char, arg: string) {
    match letter
    case 'r' => EvalRange(w, arg)
    case 's' => EvalSpecial(w, arg)
    case 'm' => arg in mons && mons[arg] == w.monitor
    case 'n' => EvalNamed(w, arg)
    case 'w' => EvalWindows(w, arg)
    case 'f' => EvalFullscreen(w, arg)
    case _ => false
  }

  /** One property `x[...]`, given whole. */
  predicate EvalProp(w: Workspace, mons: Monitors, prop: string) {
    |prop| >= 3 && prop[1] == '[' && prop[|prop| - 1] == ']' && EvalArgument(w, mons, prop[0], prop[2..|prop| - 1])
  }

  /** The scanner, for any reading of the properties: skip blanks, cut at the next closing bracket,
      read, go on behind it. */
  predicate Scanned(read: string -> bool, s: string)
    decreases |s|
  {
    if s == [] then true
    else if Blank(s[0]) then Scanned(read, s[1..])
    else
      var close := Find(s, ']');
      close < |s| && read(s[..close + 1]) && Scanned(read, s[close + 1..])
  }

  /** The reading of properties on a workspace. */
  function Reader(w: Workspace, mons: Monitors): string -> bool {
    (prop: string) => EvalProp(w, mons, prop)
  }

  predicate Eval(w: Workspace, mons: Monitors, s: string) {
    Scanned(Reader(w, mons), s)
  }

  method InterpretWindows(w: Workspace, arg: string) returns (ok: bool)
    ensures ok == EvalWindows(w, arg)
  {
    var f, rest := ReadFlags(arg);
    var count;
    if f.group {
      count := GetGroups(w.groups, w.id, WantedBy(f));
    } else {
      count := GetWindowCount(w.targets, WantedBy(f));
    }
    if '-' !in rest {
      return IsNumber(rest) && Signed(rest) <= INT64_MAX && count == Signed(rest);
    }
    var r := ParseRange(rest);
    return r.Some? && r.value.0 <= count <= r.value.1;
  }

  method InterpretProp(w: Workspace, mons: Monitors, prop: string, ghost read: string -> bool) returns (ok: bool)
    requires read == Reader(w, mons)
    ensures ok == read(prop)
  {
    if prop != [] && prop[0] == 'w' && "w[" <= prop && |prop| >= 3 && prop[|prop| - 1] == ']' {
      ok := InterpretWindows(w, prop[2..|prop| - 1]);
    } else {
      ok := EvalProp(w, mons, prop);
    }
  }

  /** find_first_of(c, i): the first c from index i on; |s| for npos. */
  function FindFrom(s: string, c: char, i: nat): (r: nat)
    requires i <= |s|
    ensures i <= r <= |s|
    decreases |s| - i
  {
    if i == |s| || s[i] == c then i else FindFrom(s, c, i + 1)
  }

  lemma {:induction false} FindFromIs(s: string, c: char, i: nat)
    requires i <= |s|
    ensures FindFrom(s, c, i) == i + Find(s[i..], c)
    decreases |s| - i
  {
    if i < |s| && s[i] != c {
      FindFromIs(s, c, i + 1);
      assert s[i..][1..] == s[i + 1..];
    }
  }

  /** The scanner by positions: what is left to read from index i on. */
  predicate ScannedFrom(read: string -> bool, s: string, i: nat)
    requires i <= |s|
    decreases |s| - i
  {
    if i == |s| then true
    else if Blank(s[i]) then ScannedFrom(read, s, i + 1)
    else
      var close := FindFrom(s, ']', i);
      close < |s| && read(s[i..close + 1]) && ScannedFrom(read, s, close + 1)
  }

  lemma {:induction false} FromIsScanned(read: string -> bool, s: string, i: nat)
    requires i <= |s|
    ensures ScannedFrom(read, s, i) == Scanned(read, s[i..])
    decreases |s| - i
  {
    if i < |s| {
      ScannedAt(read, s, i);
      if Blank(s[i]) {
        FromIsScanned(read, s, i + 1);
      } else {
        FindFromIs(s, ']', i);
        var close := FindFrom(s, ']', i);
        if close < |s| {
          FromIsScanned(read, s, close + 1);
        }
      }
    }
  }

  /** The loop over the selector: the index jumps behind each closing bracket. */
  method Scan(w: Workspace, mons: Monitors, s: string, ghost read: string -> bool) returns (ok: bool)
    requires read == Reader(w, mons)
    ensures ok == Scanned(read, s)
  {
    var i: nat := 0;
    ok := true;
    FromIsScanned(read, s, 0);
    assert s[0..] == s;
    ghost var goal := Scanned(read, s);
    while ok && i < |s|
      invariant i <= |s|
      invariant goal == (ok && ScannedFrom(read, s, i))
      decreases |s| - i, if ok then 1 else 0
    {
      ok, i := ScanOne(w, mons, s, i, read);
    }
  }

  /** What the scanner finds at an index: a blank, a property up to a bracket, or no bracket. */
  datatype Cut = Skip | Property(close: nat) | Unclosed

  method CutOne(s: string, i: nat, ghost read: string -> bool) returns (c: Cut)
    requires i < |s|
    ensures c.Skip? ==> ScannedFrom(read, s, i) == ScannedFrom(read, s, i + 1)
    ensures c.Unclosed? ==> !ScannedFrom(read, s, i)
    ensures c.Property? ==> i <= c.close < |s|
    ensures c.Property? ==>
              ScannedFrom(read, s, i) == (read(s[i..c.close + 1]) && ScannedFrom(read, s, c.close + 1))
  {
    if Blank(s[i]) {
      return Skip;
    }
    var close := FindFrom(s, ']', i);
    if close == |s| {
      return Unclosed;
    }
    return Property(close);
  }

  /** The body of the loop: a blank is skipped, a property read. */
  method ScanOne(w: Workspace, mons: Monitors, s: string, i: nat, ghost read: string -> bool) returns (ok: bool, next: nat)
    requires read == Reader(w, mons) && i < |s|
    ensures i <= next <= |s| && (ok ==> i < next)
    ensures ScannedFrom(read, s, i) == (ok && ScannedFrom(read, s, next))
  {
    hide Reader;
    var c := CutOne(s, i, read);
    match c {
      case Skip => return true, i + 1;
      case Unclosed => return false, i;
      case Property(close) =>
        ok := InterpretProp(w, mons, s[i..close + 1], read);
        next := close + 1;
    }
  }

  /** One step of the scanner, by positions in the selector. */
  lemma ScannedAt(read: string -> bool, s: string, i: nat)
    requires i < |s|
    ensures Blank(s[i]) ==> Scanned(read, s[i..]) == Scanned(read, s[i + 1..])
    ensures var close := i + Find(s[i..], ']');
            !Blank(s[i]) ==>
              if close == |s| then !Scanned(read, s[i..])
              else Scanned(read, s[i..]) == (read(s[i..close + 1]) && Scanned(read, s[close + 1..]))
  {
    var rest := s[i..];
    var n := Find(rest, ']');
    if Blank(s[i]) {
      assert rest[1..] == s[i + 1..];
    } else if n < |rest| {
      assert rest[..n + 1] == s[i..i + n + 1];
      assert rest[n + 1..] == s[i + n + 1..];
    }
  }

  // ----- matchesStaticSelector ------------------------------------------------------------------------

  /** The verdict on a selector; Throws when std::stoi overflows on a numeric one. */
  datatype Verdict = Matches | Fails | Throws

  function Decide(b: bool): Verdict {
    if b then Matches else Fails
  }

  /** A numeric selector names the workspace with that id (at least 1); a negative one is taken
      relative to the active workspace, and names nothing without a focused monitor. */
  function MatchNumber(w: Workspace, active: Option<int>, s: string): Verdict
    requires IsNumber(s)
  {
    if s[0] == '-' then
      if active.None? then Fails
      else
        var n := active.value + Signed(s);
        Decide((if n < 1 then 1 else n) == w.id)
    else if Signed(s) > INT_MAX then Throws
    else Decide((if Signed(s) < 1 then 1 else Signed(s)) == w.id)
  }

  function Match(w: Workspace, mons: Monitors, active: Option<int>, text: string): Verdict {
    var s := Trim(text);
    if s == [] then Matches
    else if IsNumber(s) then MatchNumber(w, active, s)
    else if "name:" <= s then Decide(w.name == s[5..])
    else if "special" <= s then Decide(w.name == s)
    else Decide(Eval(w, mons, s))
  }

  method MatchesStaticSelector(w: Workspace, mons: Monitors, active: Option<int>, text: string) returns (v: Verdict)
    ensures v == Match(w, mons, active, text)
  {
    var s := Trim(text);
    if s == [] {
      return Matches;
    } else if IsNumber(s) {
      return MatchNumber(w, active, s);
    } else if "name:" <= s {
      return Decide(w.name == s[5..]);
    } else if "special" <= s {
      return Decide(w.name == s);
    }
    var ok := Scan(w, mons, s, Reader(w, mons));
    return Decide(ok);
  }
}
