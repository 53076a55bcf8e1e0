/** hyprctl, the client: the argument loop that builds `<flags>/<request>`, the batch request, and
    what the server reads back from them. */
module Client {
  import opened Text
  import opened HyprCtl
  import opened HyprCtlLaws

  // ----- arguments as tokens -----------------------------------------------------------------

  /** isNumber with floats allowed. */
  predicate IsDecimal(s: string) {
    var t := if s != [] && s[0] == '-' then s[1..] else s;
    var dot := Find(t, '.');
    IsNumber(s) || (dot < |t| && 0 < dot && AllDigits(t[..dot]) && AllDigits(t[dot + 1..]))
  }

  /** An option, unless it is a number such as -2 or -2, */
  predicate LooksLikeOption(a: string) {
    a != [] && a[0] == '-' && !IsDecimal(a) && !IsDecimal(a[..|a| - 1])
  }

  datatype Token =
    | Opt(text: string)
    | Word(text: string)
    | Instance(text: string)
    | MissingInstance

  /** How an argument list is read; `options` turns false at the first `--`. */
  function Tokens(args: seq<string>, options: bool): seq<Token>
    decreases |args|
  {
    if args == [] then []
    else
      var a := args[0];
      if a == "--" then Tokens(args[1..], false)
      else if !(options && LooksLikeOption(a)) then [Word(a)] + Tokens(args[1..], options)
      else if a == "-i" || a == "--instance" then
        if |args| == 1 then [MissingInstance] else [Instance(args[1])] + Tokens(args[2..], options)
      else [Opt(a)] + Tokens(args[1..], options)
  }

  /** The flag letter an option stands for. */
  function Letter(o: string): Option<char> {
    if o == "-j" then Some('j')
    else if o == "-r" then Some('r')
    else if o == "-a" then Some('a')
    else if o == "-c" || o == "--config" then Some('c')
    else if o == "-f" || o == "--follow" then Some('f')
    else None
  }

  /** Some option of the list stands for the letter. */
  ghost predicate Given(ts: seq<Token>, c: char) {
    exists k :: 0 <= k < |ts| && ts[k].Opt? && Letter(ts[k].text) == Some(c)
  }

  /** Tokens that make the client print its usage: no instance after -i, an unknown option or
      --help, or a flag that was given before. */
  ghost predicate Refused(before: seq<Token>, t: Token) {
    match t
    case MissingInstance => true
    case Opt(o) =>
      if Letter(o).Some? then Given(before, Letter(o).value)
      else o != "--batch" && o != "-q" && o != "--quiet"
    case _ => false
  }

  ghost predicate AnyRefused(ts: seq<Token>) {
    exists k :: 0 <= k < |ts| && Refused(ts[..k], ts[k])
  }

  /** The words, each with a blank behind it; --batch drops the words before it. */
  function RequestText(ts: seq<Token>): string {
    if ts == [] then []
    else
      var t, init := ts[|ts| - 1], RequestText(ts[..|ts| - 1]);
      if t.Word? then init + t.text + " "
      else if t == Opt("--batch") then "--batch "
      else init
  }

  // ----- the argument loop --------------------------------------------------------------------

  /** fullArgs, fullRequest and the two switches while they are being built. */
  datatype Build = Build(flags: string, request: string, json: bool, follow: bool)

  datatype Parsed = Usage | Ready(flags: string, request: string, json: bool, follow: bool)

  /** The flags are the letters given, each once. */
  ghost predicate FlagsOf(done: seq<Token>, flags: string) {
    && (forall c :: c in flags <==> Given(done, c))
    && (forall c :: c in flags ==> c in "jracf")
    && (forall i, j :: 0 <= i < j < |flags| ==> flags[i] != flags[j])
  }

  /** What the loop has built from the tokens read so far. */
  ghost predicate Built(done: seq<Token>, b: Build) {
    && !AnyRefused(done) && FlagsOf(done, b.flags) && b.request == RequestText(done)
    && (b.json <==> 'j' in b.flags) && (b.follow <==> 'f' in b.flags)
  }

  /** One more token that is not refused. */
  function Extend(b: Build, t: Token): Build {
    match t
    case Word(a) => b.(request := b.request + a + " ")
    case Opt(o) =>
      var c := Letter(o);
      if c.Some? then
        b.(flags := b.flags + [c.value], json := b.json || c.value == 'j', follow := b.follow || c.value == 'f')
      else if o == "--batch" then b.(request := "--batch ")
      else b
    case _ => b
  }

  lemma FlagsMore(done: seq<Token>, flags: string, t: Token)
    requires FlagsOf(done, flags) && !Refused(done, t)
    ensures FlagsOf(done + [t], if t.Opt? && Letter(t.text).Some? then flags + [Letter(t.text).value] else flags)
  {
    forall c
      ensures Given(done + [t], c) <==> Given(done, c) || (t.Opt? && Letter(t.text) == Some(c))
    {
      GivenMore(done, t, c);
    }
  }

  lemma BuiltMore(done: seq<Token>, b: Build, t: Token)
    requires Built(done, b) && !Refused(done, t)
    ensures Built(done + [t], Extend(b, t))
  {
    RefusedMore(done, t);
    FlagsMore(done, b.flags, t);
    RequestMore(done, b, t);
  }

  lemma {:induction false} RequestMore(done: seq<Token>, b: Build, t: Token)
    requires b.request == RequestText(done)
    ensures Extend(b, t).request == RequestText(done + [t])
  {
    assert (done + [t])[..|done|] == done;
  }

  lemma RefusedMore(done: seq<Token>, t: Token)
    ensures AnyRefused(done + [t]) <==> AnyRefused(done) || Refused(done, t)
  {
    var ts := done + [t];
    assert ts[..|done|] == done && ts[|done|] == t;
    if AnyRefused(done) {
      var k :| 0 <= k < |done| && Refused(done[..k], done[k]);
      assert ts[..k] == done[..k] && ts[k] == done[k];
    }
    if AnyRefused(ts) {
      var k :| 0 <= k < |ts| && Refused(ts[..k], ts[k]);
      assert k < |done| ==> ts[..k] == done[..k] && ts[k] == done[k];
    }
  }

  lemma GivenMore(done: seq<Token>, t: Token, c: char)
    ensures Given(done + [t], c) <==> Given(done, c) || (t.Opt? && Letter(t.text) == Some(c))
  {
    var ts := done + [t];
    assert ts[|done|] == t;
    if Given(done, c) {
      var k :| 0 <= k < |done| && done[k].Opt? && Letter(done[k].text) == Some(c);
      assert ts[k] == done[k];
    }
  }

  lemma Refuses(done: seq<Token>, t: Token, rest: seq<Token>, all: seq<Token>)
    requires all == done + [t] + rest && Refused(done, t)
    ensures AnyRefused(all)
  {
    assert all[..|done|] == done && all[|done|] == t;
  }

  /** What the loop makes of an argument list. */
  ghost predicate Parses(args: seq<string>, r: Parsed) {
    var ts := Tokens(args, true);
    if AnyRefused(ts) || RequestText(ts) == [] then r == Usage
    else r.Ready? && Built(ts, Build(r.flags, RequestText(ts), r.json, r.follow)) &&
         RequestText(ts) == r.request + " "
  }

  method ParseArguments(args: seq<string>) returns (r: Parsed)
    ensures Parses(args, r)
  {
    var b, options := Build("", "", false, false), true;
    ghost var all, done := Tokens(args, true), [];
    assert args[0..] == args;
    var i := 0;
    while i < |args|
      invariant i <= |args|
      invariant all == done + Tokens(args[i..], options)
      invariant Built(done, b)
      decreases |args| - i
    {
      if args[i] == "--" {
        // stop parsing options
        StopOptions(args, i, options);
        options := false;
        i := i + 1;
      } else {
        var t;
        ghost var rest;
        t, i, rest := NextToken(args, i, options);
        assert done + ([t] + rest) == done + [t] + rest;
        var ok := TakeToken(t, b, done);
        if !ok {
          Refuses(done, t, rest, all);
          return Usage;
        }
        BuiltMore(done, b, t);
        b, done := Extend(b, t), done + [t];
      }
    }
    assert done + [] == done;
    r := FinishArguments(b, done);
  }

  /** Behind the loop: an empty request is refused, the trailing blank goes. */
  method FinishArguments(b: Build, ghost done: seq<Token>) returns (r: Parsed)
    requires b.request == RequestText(done)
    ensures if b.request == [] then r == Usage
            else r.Ready? && b == Build(r.flags, r.request + " ", r.json, r.follow)
  {
    if b.request == [] {
      return Usage;
    }
    EndsInBlank(done);
    return Ready(b.flags, b.request[..|b.request| - 1], b.json, b.follow);
  }

  lemma StopOptions(args: seq<string>, i: nat, options: bool)
    requires i < |args| && args[i] == "--"
    ensures Tokens(args[i..], options) == Tokens(args[i + 1..], false)
  {
    assert args[i..][1..] == args[i + 1..];
  }

  /** The argument at i as a token; -i takes the next argument along. */
  method NextToken(args: seq<string>, i: nat, options: bool) returns (t: Token, next: nat, ghost rest: seq<Token>)
    requires i < |args| && args[i] != "--"
    ensures i < next <= |args| && Tokens(args[i..], options) == [t] + rest
    ensures !t.MissingInstance? ==> rest == Tokens(args[next..], options)
  {
    var a := args[i];
    ghost var tail := args[i..];
    assert tail[0] == a && tail[1..] == args[i + 1..];
    next := i + 1;
    if !(options && LooksLikeOption(a)) {
      t := Word(a);
    } else if a == "-i" || a == "--instance" {
      if next < |args| {
        assert tail[1] == args[i + 1] && tail[2..] == args[i + 2..];
        t, next := Instance(args[next]), next + 1;
      } else {
        t := MissingInstance;
      }
    } else {
      t := Opt(a);
    }
    rest := if t.MissingInstance? then [] else Tokens(args[next..], options);
  }

  /** Whether the loop goes on after this token. */
  method TakeToken(t: Token, b: Build, ghost done: seq<Token>) returns (ok: bool)
    requires FlagsOf(done, b.flags)
    ensures ok <==> !Refused(done, t)
  {
    match t {
      case MissingInstance => ok := false;
      case Instance(_) => ok := true;
      case Word(_) => ok := true;
      case Opt(o) =>
        var c := Letter(o);
        ok := if c.Some? then c.value !in b.flags else o == "--batch" || o == "-q" || o == "--quiet";
    }
  }

  lemma {:induction false} EndsInBlank(ts: seq<Token>)
    ensures RequestText(ts) != [] ==> RequestText(ts)[|RequestText(ts)| - 1] == ' '
  {
    if ts != [] {
      EndsInBlank(ts[..|ts| - 1]);
    }
  }

  // ----- argument lists as one types them -----------------------------------------------------------

  predicate OptionText(a: string) {
    a in ["-j", "-r", "-a", "-c", "--config", "-f", "--follow", "-q", "--quiet", "--batch"]
  }

  /** Anything that does not begin with a dash, and numbers such as -2 and -2, */
  predicate WordText(a: string) {
    a == "" || a[0] != '-' || AllDigits(a[1..]) || (|a| >= 3 && AllDigits(a[1..|a| - 1]))
  }

  /** A typed item: an option, a word, or -i with the instance behind it. */
  predicate Item(item: seq<string>) {
    if |item| == 2 then item[0] == "-i" || item[0] == "--instance"
    else |item| == 1 && (OptionText(item[0]) || WordText(item[0]))
  }

  predicate Items(items: seq<seq<string>>) {
    forall i :: 0 <= i < |items| ==> Item(items[i])
  }

  function Flatten(items: seq<seq<string>>): seq<string> {
    if items == [] then [] else items[0] + Flatten(items[1..])
  }

  function WordsOf(items: seq<seq<string>>): seq<string> {
    if items == [] then []
    else
      var item := items[|items| - 1];
      WordsOf(items[..|items| - 1]) + if |item| == 1 && !OptionText(item[0]) then item else []
  }

  /** The letter is asked for by one of its options. */
  predicate AsksFor(items: seq<seq<string>>, c: char) {
    || (c == 'j' && ["-j"] in items) || (c == 'r' && ["-r"] in items) || (c == 'a' && ["-a"] in items)
    || (c == 'c' && (["-c"] in items || ["--config"] in items))
    || (c == 'f' && (["-f"] in items || ["--follow"] in items))
  }

  predicate SameFlag(a: seq<string>, b: seq<string>) {
    || (a == b && (a == ["-j"] || a == ["-r"] || a == ["-a"]))
    || ((a == ["-c"] || a == ["--config"]) && (b == ["-c"] || b == ["--config"]))
    || ((a == ["-f"] || a == ["--follow"]) && (b == ["-f"] || b == ["--follow"]))
  }

  /** Some flag is asked for twice. */
  predicate Repeated(items: seq<seq<string>>) {
    exists j, k :: 0 <= j < k < |items| && SameFlag(items[j], items[k])
  }

  // Such lists as tokens.

  function TokenOf(item: seq<string>): Token
    requires Item(item)
  {
    if |item| == 2 then Instance(item[1]) else if OptionText(item[0]) then Opt(item[0]) else Word(item[0])
  }

  function TokensOf(items: seq<seq<string>>): (ts: seq<Token>)
    requires Items(items)
    ensures |ts| == |items| && forall i :: 0 <= i < |ts| ==> ts[i] == TokenOf(items[i])
  {
    seq(|items|, i requires 0 <= i < |items| => TokenOf(items[i]))
  }

  function WordTokens(words: seq<string>): (ts: seq<Token>)
    ensures |ts| == |words| && forall i :: 0 <= i < |ts| ==> ts[i] == Word(words[i])
  {
    seq(|words|, i requires 0 <= i < |words| => Word(words[i]))
  }

  lemma NotDecimal(s: string)
    requires s != [] && s[0] == '-' && (|s| == 1 || !Digit(s[1]))
    ensures !IsDecimal(s)
  {
    var t := s[1..];
    var dot := Find(t, '.');
    assert t != [] ==> !Digit(t[0]);
    assert 0 < dot && dot < |t| ==> t[..dot][0] == t[0];
    assert !Digit(s[0]);
  }

  lemma {:induction false} OptionIsOption(a: string)
    requires OptionText(a) || a == "-i" || a == "--instance"
    ensures LooksLikeOption(a) && a != "--"
  {
    assert |a| >= 2 && a[0] == '-' && !Digit(a[1]);
    NotDecimal(a);
    NotDecimal(a[..|a| - 1]);
    assert |a| == 2 ==> a[1] != '-';
  }

  lemma WordIsWord(a: string)
    requires WordText(a)
    ensures !LooksLikeOption(a) && a != "--"
  {
    assert "--"[1..][0] == '-' && !Digit('-');
    if a != "" && a[0] == '-' && !AllDigits(a[1..]) {
      assert a[..|a| - 1][1..] == a[1..|a| - 1];
    }
  }

  lemma {:induction false} ItemRead(item: seq<string>, rest: seq<string>)
    requires Item(item)
    ensures Tokens(item + rest, true) == [TokenOf(item)] + Tokens(rest, true)
  {
    hide LooksLikeOption, WordText;
    var args := item + rest;
    if |item| == 2 {
      OptionIsOption(item[0]);
      assert args[0] == item[0] && args[1] == item[1] && args[2..] == rest;
    } else {
      assert args[0] == item[0] && args[1..] == rest;
      if OptionText(item[0]) {
        OptionIsOption(item[0]);
        assert item[0] != "-i" && item[0] != "--instance" by { NoInstance(item[0]); }
      } else {
        WordIsWord(item[0]);
      }
    }
  }

  lemma NoInstance(a: string)
    requires OptionText(a)
    ensures a != "-i" && a != "--instance"
  {
    assert "-i"[1] == 'i' && |"-i"| == 2;
    assert |"--instance"| == 10;
  }

  lemma {:induction false} ItemsRead(items: seq<seq<string>>, rest: seq<string>)
    requires Items(items)
    ensures Tokens(Flatten(items) + rest, true) == TokensOf(items) + Tokens(rest, true)
    decreases |items|
  {
    hide Tokens, TokenOf, Item;
    if items == [] {
      assert Flatten(items) + rest == rest;
    } else {
      var tail := items[1..];
      assert Item(items[0]);
      ItemRead(items[0], Flatten(tail) + rest);
      ItemsRead(tail, rest);
      assert Flatten(items) + rest == items[0] + (Flatten(tail) + rest);
      assert TokensOf(items) == [TokenOf(items[0])] + TokensOf(tail);
    }
  }

  lemma {:induction false} WordsRead(words: seq<string>)
    requires "--" !in words
    ensures Tokens(words, false) == WordTokens(words)
    decreases |words|
  {
    if words != [] {
      assert words[0] in words;
      assert forall i :: 0 <= i < |words| - 1 ==> words[1..][i] == words[i + 1];
      WordsRead(words[1..]);
      assert WordTokens(words) == [Word(words[0])] + WordTokens(words[1..]);
    }
  }

  /** Everything behind a lone -- is a word. */
  lemma BehindDashes(items: seq<seq<string>>, words: seq<string>)
    requires Items(items) && "--" !in words
    ensures Tokens(Flatten(items) + (["--"] + words), true) == TokensOf(items) + WordTokens(words)
  {
    ItemsRead(items, ["--"] + words);
    WordsRead(words);
    assert (["--"] + words)[1..] == words;
  }

  // What the tokens say.

  function Spaced(words: seq<string>): string {
    if words == [] then [] else Spaced(words[..|words| - 1]) + words[|words| - 1] + " "
  }

  lemma {:induction false} SpacedIsJoin(words: seq<string>)
    requires words != []
    ensures Spaced(words) == Join(words, " ") + " "
  {
    var init, last := words[..|words| - 1], words[|words| - 1];
    assert words == init + [last];
    if init == [] {
      assert Spaced(init) == [];
      assert [] + last + " " == last + " ";
    } else {
      SpacedIsJoin(init);
      JoinSnoc(init, last, " ");
    }
  }

  lemma {:induction false} SpacedAppend(a: seq<string>, b: seq<string>)
    ensures Spaced(a + b) == Spaced(a) + Spaced(b)
    decreases |b|
  {
    if b == [] {
      assert a + b == a;
    } else {
      assert (a + b)[..|a + b| - 1] == a + b[..|b| - 1];
      SpacedAppend(a, b[..|b| - 1]);
    }
  }

  lemma {:induction false} RequestAppend(ts: seq<Token>, us: seq<Token>)
    requires Opt("--batch") !in us
    ensures RequestText(ts + us) == RequestText(ts) + RequestText(us)
    decreases |us|
  {
    if us == [] {
      assert ts + us == ts;
    } else {
      var init, last := us[..|us| - 1], us[|us| - 1];
      assert last in us && forall t :: t in init ==> t in us;
      assert (ts + us)[..|ts + us| - 1] == ts + init;
      RequestAppend(ts, init);
    }
  }

  lemma {:induction false} RequestOfItems(items: seq<seq<string>>)
    requires Items(items) && ["--batch"] !in items
    ensures RequestText(TokensOf(items)) == Spaced(WordsOf(items)) && Opt("--batch") !in TokensOf(items)
    decreases |items|
  {
    if items != [] {
      var init, last := items[..|items| - 1], items[|items| - 1];
      assert Item(last) && last in items && forall i :: 0 <= i < |init| ==> init[i] == items[i];
      RequestOfItems(init);
      assert TokensOf(items) == TokensOf(init) + [TokenOf(last)];
      if |last| == 1 {
        assert last == [last[0]];
      }
      if TokenOf(last).Word? {
        SpacedMore(WordsOf(init), last[0]);
      } else {
        assert WordsOf(init) + [] == WordsOf(init);
      }
    }
  }

  lemma SpacedMore(words: seq<string>, w: string)
    ensures Spaced(words + [w]) == Spaced(words) + w + " "
  {
    assert (words + [w])[..|words|] == words;
  }

  lemma {:induction false} RequestOfWords(words: seq<string>)
    ensures RequestText(WordTokens(words)) == Spaced(words) && Opt("--batch") !in WordTokens(words)
    decreases |words|
  {
    if words != [] {
      var init := words[..|words| - 1];
      RequestOfWords(init);
      assert WordTokens(words)[..|words| - 1] == WordTokens(init);
    }
  }

  lemma LetterOfItem(item: seq<string>, c: char)
    requires Item(item)
    ensures TokenOf(item).Opt? && Letter(TokenOf(item).text) == Some(c) <==> AsksFor([item], c)
  {
    assert |item| == 1 ==> item == [item[0]];
  }

  lemma SameLetter(a: seq<string>, b: seq<string>)
    requires Item(a) && Item(b)
    ensures SameFlag(a, b) <==>
            TokenOf(a).Opt? && TokenOf(b).Opt? && Letter(TokenOf(a).text).Some? &&
            Letter(TokenOf(a).text) == Letter(TokenOf(b).text)
  {
    hide Item, TokenOf, Letter;
    ItemLetter(a);
    ItemLetter(b);
  }

  lemma ItemLetter(item: seq<string>)
    requires Item(item)
    ensures var t := TokenOf(item);
            var c := if t.Opt? then Letter(t.text) else None;
            && (c == Some('j') <==> item == ["-j"]) && (c == Some('r') <==> item == ["-r"])
            && (c == Some('a') <==> item == ["-a"]) && (c == Some('c') <==> item == ["-c"] || item == ["--config"])
            && (c == Some('f') <==> item == ["-f"] || item == ["--follow"])
            && (c.Some? ==> c.value in "jracf")
  {
    assert |item| == 1 ==> item == [item[0]];
  }

  /** Flags given, and flags refused, among the tokens of items and some words. */
  lemma FlagsOfItems(items: seq<seq<string>>, words: seq<string>)
    requires Items(items)
    ensures forall c :: Given(TokensOf(items) + WordTokens(words), c) <==> AsksFor(items, c)
    ensures AnyRefused(TokensOf(items) + WordTokens(words)) <==> Repeated(items)
  {
    hide TokenOf, Item, Letter, AsksFor, SameFlag, OptionText;
    forall c
      ensures Given(TokensOf(items) + WordTokens(words), c) <==> AsksFor(items, c)
    {
      GivenOfItems(items, words, c);
    }
    RefusedOfItems(items, words);
  }

  lemma GivenOfItems(items: seq<seq<string>>, words: seq<string>, c: char)
    requires Items(items)
    ensures Given(TokensOf(items) + WordTokens(words), c) <==> AsksFor(items, c)
  {
    hide TokenOf, Item, Letter, AsksFor;
    var ts := TokensOf(items) + WordTokens(words);
    if Given(ts, c) {
      var k :| 0 <= k < |ts| && ts[k].Opt? && Letter(ts[k].text) == Some(c);
      assert k < |items| && ts[k] == TokenOf(items[k]);
      LetterOfItem(items[k], c);
      AskedIn(items, c, k);
    }
    if AsksFor(items, c) {
      var k := WhoAsks(items, c);
      LetterOfItem(items[k], c);
      assert ts[k] == TokenOf(items[k]);
    }
  }

  lemma AskedIn(items: seq<seq<string>>, c: char, k: nat)
    requires k < |items| && AsksFor([items[k]], c)
    ensures AsksFor(items, c)
  {
    assert items[k] in items;
  }

  lemma WhoAsks(items: seq<seq<string>>, c: char) returns (k: nat)
    requires AsksFor(items, c)
    ensures k < |items| && AsksFor([items[k]], c)
  {
    k :| 0 <= k < |items| && AsksFor([items[k]], c);
  }

  lemma RefusedOfItems(items: seq<seq<string>>, words: seq<string>)
    requires Items(items)
    ensures AnyRefused(TokensOf(items) + WordTokens(words)) <==> Repeated(items)
  {
    hide TokenOf, Item, Letter, SameFlag, OptionText;
    var ts := TokensOf(items) + WordTokens(words);
    if Repeated(items) {
      var j, k :| 0 <= j < k < |items| && SameFlag(items[j], items[k]);
      SameLetter(items[j], items[k]);
      assert ts[..k][j] == ts[j] == TokenOf(items[j]) && ts[k] == TokenOf(items[k]);
      assert Given(ts[..k], Letter(ts[k].text).value);
      assert Refused(ts[..k], ts[k]);
    }
    if AnyRefused(ts) {
      var k :| 0 <= k < |ts| && Refused(ts[..k], ts[k]);
      assert k < |items| && ts[k] == TokenOf(items[k]);
      OnlyTwice(items[k]);
      var c := Letter(ts[k].text).value;
      var j :| 0 <= j < k && ts[..k][j].Opt? && Letter(ts[..k][j].text) == Some(c);
      assert ts[..k][j] == TokenOf(items[j]);
      SameLetter(items[j], items[k]);
    }
  }

  /** An item is refused only as a flag given before. */
  lemma OnlyTwice(item: seq<string>)
    requires Item(item)
    ensures !TokenOf(item).MissingInstance?
    ensures TokenOf(item).Opt? && Letter(TokenOf(item).text).None? ==>
              var o := TokenOf(item).text; o == "--batch" || o == "-q" || o == "--quiet"
  {
  }

  /** The arguments as typed: items, then --batch and more items if it is a batch, then -- and any
      words if there are dashes. */
  function Typed(items: seq<seq<string>>, batch: bool, more: seq<seq<string>>, dashes: bool, words: seq<string>): seq<string> {
    Flatten(items + (if batch then [["--batch"]] else []) + more) + if dashes then ["--"] + words else []
  }

  /** The client prints its usage exactly when a flag is repeated or there are no words (and no batch).
      Otherwise the request is the words joined by blanks -- in a batch, those behind --batch -- and
      the flags are the letters asked for. */
  lemma {:induction false} TypedArguments(items: seq<seq<string>>, batch: bool, more: seq<seq<string>>, dashes: bool,
                                          words: seq<string>, r: Parsed)
    requires Items(items) && Items(more) && ["--batch"] !in items + more
    requires "--" !in words && (!dashes ==> words == [])
    requires Parses(Typed(items, batch, more, dashes, words), r)
    ensures var said := (if batch then [] else WordsOf(items)) + WordsOf(more) + words;
            if Repeated(items + more) || (!batch && said == []) then r == Usage
            else
              && r.Ready?
              && r.request == (if !batch then Join(said, " ") else if said == [] then "--batch" else "--batch " + Join(said, " "))
              && (forall c :: c in r.flags <==> AsksFor(items + more, c))
              && (r.json <==> ["-j"] in items + more)
  {
    hide Parses, Tokens, Given, AsksFor, RequestText, AnyRefused, Refused, Item, TokenOf, Repeated;
    var mid := if batch then [["--batch"]] else [];
    var all := items + mid + more;
    BatchIsItem();
    assert Items(all);
    TypedTokens(all, dashes, words);
    var ts := TokensOf(all) + WordTokens(words);
    FlagsOfItems(all, words);
    BatchIsNoFlag(items, batch, more);
    TypedRequest(items, batch, more, words);
    TypedResult(Typed(items, batch, more, dashes, words), r, ts, items + more,
                (if batch then [] else WordsOf(items)) + WordsOf(more) + words, batch);
  }

  lemma BatchIsItem()
    ensures Item(["--batch"]) && TokenOf(["--batch"]) == Opt("--batch")
  {
  }

  lemma TypedTokens(all: seq<seq<string>>, dashes: bool, words: seq<string>)
    requires Items(all) && "--" !in words && (!dashes ==> words == [])
    ensures Tokens(Flatten(all) + (if dashes then ["--"] + words else []), true) == TokensOf(all) + WordTokens(words)
  {
    if dashes {
      BehindDashes(all, words);
    } else {
      ItemsRead(all, []);
      assert Tokens([], true) == [] == WordTokens(words);
    }
  }

  lemma BatchIsNoFlag(items: seq<seq<string>>, batch: bool, more: seq<seq<string>>)
    ensures var all := items + (if batch then [["--batch"]] else []) + more;
            && (Repeated(all) <==> Repeated(items + more))
            && (forall c :: AsksFor(all, c) <==> AsksFor(items + more, c))
  {
    hide AsksFor, SameFlag, Repeated;
    if batch {
      BatchAsksNothing(items, more);
      BatchRepeatsNothing(items, more);
    } else {
      assert items + [] + more == items + more;
    }
  }

  lemma BatchAsksNothing(items: seq<seq<string>>, more: seq<seq<string>>)
    ensures forall c :: AsksFor(items + [["--batch"]] + more, c) <==> AsksFor(items + more, c)
  {
    assert forall x :: x in items + [["--batch"]] + more <==> x in items + more || x == ["--batch"];
  }

  lemma BatchRepeatsNothing(items: seq<seq<string>>, more: seq<seq<string>>)
    ensures Repeated(items + [["--batch"]] + more) <==> Repeated(items + more)
  {
    hide SameFlag;
    var all, less, n := items + [["--batch"]] + more, items + more, |items|;
    BatchIsNoRepeat();
    if Repeated(all) {
      var j, k :| 0 <= j < k < |all| && SameFlag(all[j], all[k]);
      assert all[n] == ["--batch"];
      var j', k' := if j < n then j else j - 1, if k < n then k else k - 1;
      assert less[j'] == all[j] && less[k'] == all[k];
      assert SameFlag(less[j'], less[k']);
    }
    if Repeated(less) {
      var j, k :| 0 <= j < k < |less| && SameFlag(less[j], less[k]);
      var j', k' := if j < n then j else j + 1, if k < n then k else k + 1;
      assert all[j'] == less[j] && all[k'] == less[k];
      assert SameFlag(all[j'], all[k']);
    }
  }

  lemma BatchIsNoRepeat()
    ensures forall a :: !SameFlag(["--batch"], a) && !SameFlag(a, ["--batch"])
  {
  }

  lemma TypedRequest(items: seq<seq<string>>, batch: bool, more: seq<seq<string>>, words: seq<string>)
    requires Items(items) && Items(more) && ["--batch"] !in items + more
    requires Items(items + (if batch then [["--batch"]] else []) + more)
    ensures var all := items + (if batch then [["--batch"]] else []) + more;
            var said := (if batch then [] else WordsOf(items)) + WordsOf(more) + words;
            RequestText(TokensOf(all) + WordTokens(words)) == (if batch then "--batch " else "") + Spaced(said)
  {
    hide TokenOf, Item, WordsOf, Spaced, RequestText;
    var all := items + (if batch then [["--batch"]] else []) + more;
    var before := if batch then [] else WordsOf(items);
    assert forall x :: x in items || x in more ==> x in items + more;
    RequestOfItems(items);
    RequestOfItems(more);
    RequestOfWords(words);
    RequestAppend(TokensOf(all), WordTokens(words));
    SpacedAppend(before + WordsOf(more), words);
    SpacedAppend(before, WordsOf(more));
    if batch {
      BatchRequest(items, more);
      SpacedNothing();
    } else {
      assert all == items + more;
      assert TokensOf(all) == TokensOf(items) + TokensOf(more);
      RequestAppend(TokensOf(items), TokensOf(more));
    }
  }

  lemma SpacedNothing()
    ensures Spaced([]) == []
  {
  }

  /** --batch drops the words before it. */
  lemma BatchRequest(items: seq<seq<string>>, more: seq<seq<string>>)
    requires Items(items) && Items(more) && Items(items + [["--batch"]] + more) && Opt("--batch") !in TokensOf(more)
    ensures RequestText(TokensOf(items + [["--batch"]] + more)) == "--batch " + RequestText(TokensOf(more))
  {
    hide TokenOf, Item;
    BatchIsItem();
    var head := TokensOf(items) + [Opt("--batch")];
    assert TokensOf(items + [["--batch"]] + more) == head + TokensOf(more);
    RequestAppend(head, TokensOf(more));
    BatchStarts(TokensOf(items));
  }

  lemma BatchStarts(ts: seq<Token>)
    ensures RequestText(ts + [Opt("--batch")]) == "--batch "
  {
  }

  lemma {:induction false} TypedResult(args: seq<string>, r: Parsed, ts: seq<Token>, less: seq<seq<string>>, said: seq<string>, batch: bool)
    requires Parses(args, r) && ts == Tokens(args, true)
    requires AnyRefused(ts) <==> Repeated(less)
    requires forall c :: Given(ts, c) <==> AsksFor(less, c)
    requires RequestText(ts) == (if batch then "--batch " else "") + Spaced(said)
    ensures if Repeated(less) || (!batch && said == []) then r == Usage
            else
              && r.Ready?
              && r.request == (if !batch then Join(said, " ") else if said == [] then "--batch" else "--batch " + Join(said, " "))
              && (forall c :: c in r.flags <==> AsksFor(less, c))
              && (r.json <==> ["-j"] in less)
  {
    hide Tokens, Given, AnyRefused, Refused, Repeated, RequestText;
    if said != [] {
      SpacedIsJoin(said);
    }
    if r.Ready? {
      var request := if !batch then Join(said, " ") else if said == [] then "--batch" else "--batch " + Join(said, " ");
      assert said == [] ==> Spaced(said) == [];
      if said != [] || batch {
        assert r.request + " " == request + " ";
        assert r.request == (r.request + " ")[..|r.request|] && request == (request + " ")[..|request|];
      }
    }
  }

  /** Any other option makes the client print its usage, and so does -i with nothing behind it. */
  lemma {:induction false} UnknownOption(items: seq<seq<string>>, o: string, rest: seq<string>, r: Parsed)
    requires Items(items) && |o| >= 2 && o[0] == '-' && !Digit(o[1]) && !OptionText(o) && o != "--"
    requires o == "-i" || o == "--instance" ==> rest == []
    requires Parses(Flatten(items) + ([o] + rest), r)
    ensures r == Usage
  {
    hide Tokens, OptionText, Built;
    ItemsRead(items, [o] + rest);
    var t, more := UnknownToken(o, rest);
    var ts := TokensOf(items);
    assert ts + ([t] + more) == ts + [t] + more;
    Refuses(ts, t, more, Tokens(Flatten(items) + ([o] + rest), true));
  }

  lemma UnknownToken(o: string, rest: seq<string>) returns (t: Token, more: seq<Token>)
    requires |o| >= 2 && o[0] == '-' && !Digit(o[1]) && !OptionText(o) && o != "--"
    requires o == "-i" || o == "--instance" ==> rest == []
    ensures Tokens([o] + rest, true) == [t] + more && forall before :: Refused(before, t)
  {
    hide IsDecimal;
    NotDecimal(o);
    NotDecimal(o[..|o| - 1]);
    assert ([o] + rest)[0] == o && ([o] + rest)[1..] == rest;
    t := if o == "-i" || o == "--instance" then MissingInstance else Opt(o);
    more := if o == "-i" || o == "--instance" then [] else Tokens(rest, true);
  }

  // ----- the trip to the server --------------------------------------------------------------------

  /** What `request()` writes to the socket for anything but a batch. */
  function Message(flags: string, request: string): string {
    flags + "/" + request
  }

  /** The server sees every flag exactly when it was given, and the words unchanged -- even words
      with slashes in them. */
  lemma FlagsSurviveTheTrip(ts: seq<Token>, flags: string, request: string)
    requires FlagsOf(ts, flags)
    ensures ParseFlags(Message(flags, request)) ==
            (Params(Given(ts, 'j'), Given(ts, 'r'), Given(ts, 'a'), Given(ts, 'c')), request)
  {
    assert '/' !in "jracf" && ' ' !in "jracf" && '[' !in "jracf";
    assert flags != [] ==> flags[0] in flags;
    FlagsThenBody(flags, request);
  }

  /** What was typed is what the server reads: the words joined by blanks, and each flag exactly when
      one of its options stood among the items. */
  lemma {:induction false} TypedArrives(items: seq<seq<string>>, dashes: bool, words: seq<string>, r: Parsed)
    requires Items(items) && ["--batch"] !in items && "--" !in words && (!dashes ==> words == [])
    requires Parses(Typed(items, false, [], dashes, words), r) && r.Ready?
    ensures ParseFlags(Message(r.flags, r.request)) ==
            (Params(["-j"] in items, ["-r"] in items, ["-a"] in items, ["-c"] in items || ["--config"] in items),
             Join(WordsOf(items) + words, " "))
  {
    hide Tokens, AnyRefused, RequestText, ParseFlags, Repeated, Typed;
    TypedArguments(items, false, [], dashes, words, r);
    assert items + [] == items;
    assert WordsOf(items) + WordsOf([]) + words == WordsOf(items) + words;
    var ts := Tokens(Typed(items, false, [], dashes, words), true);
    assert FlagsOf(ts, r.flags);
    FlagsSurviveTheTrip(ts, r.flags, r.request);
    assert Given(ts, 'j') == AsksFor(items, 'j') && Given(ts, 'r') == AsksFor(items, 'r');
    assert Given(ts, 'a') == AsksFor(items, 'a') && Given(ts, 'c') == AsksFor(items, 'c');
  }

  // ----- batches ------------------------------------------------------------------------------------

  /** The white space of RE2's \s. */
  predicate Space(c: char) {
    c == ' ' || c == '\t' || c == '\n' || c == '\r' || c == '\U{000C}'
  }

  function SkipSpace(s: string): (t: string)
    ensures |t| <= |s|
  {
    if s != [] && Space(s[0]) then SkipSpace(s[1..]) else s
  }

  /** RE2::GlobalReplace(";\\s*", ";j/") */
  function MarkJson(s: string): string
    decreases |s|
  {
    if s == [] then []
    else if s[0] == ';' then ";j/" + MarkJson(SkipSpace(s[1..]))
    else [s[0]] + MarkJson(s[1..])
  }

  /** batchRequest: everything behind the first blank is the list of commands. */
  function BatchMessage(full: string, json: bool): string {
    var space := Find(full, ' ');
    var commands := if space < |full| then full[space + 1..] else full;
    BATCH + if json then "j/" + MarkJson(commands) else commands
  }

  /** Commands as one may type them: any white space behind each semicolon. */
  function JoinSpaced(cs: seq<string>, gaps: seq<string>): string
    requires |gaps| == |cs|
  {
    if cs == [] then ""
    else if |cs| == 1 then cs[0]
    else cs[0] + (";" + gaps[0] + JoinSpaced(cs[1..], gaps[1..]))
  }

  lemma {:induction false} MarkPlain(c: string, s: string)
    requires ';' !in c
    ensures MarkJson(c + s) == c + MarkJson(s)
  {
    if c == [] {
      assert c + s == s;
    } else {
      assert (c + s)[1..] == c[1..] + s;
      MarkPlain(c[1..], s);
      assert c == [c[0]] + c[1..];
    }
  }

  lemma {:induction false} SpaceSkipped(gap: string, s: string)
    requires (forall i :: 0 <= i < |gap| ==> Space(gap[i])) && (s != [] ==> !Space(s[0]))
    ensures SkipSpace(gap + s) == s
  {
    if gap == [] {
      assert gap + s == s;
    } else {
      assert (gap + s)[1..] == gap[1..] + s;
      SpaceSkipped(gap[1..], s);
    }
  }

  /** Commands for a JSON batch: no semicolon, balanced brackets, no leading blank. */
  predicate JsonCommand(c: string) {
    c != [] && ';' !in c && !Blank(c[0])
  }

  /** Marking one command, the semicolon behind it and the white space that follows. */
  lemma {:induction false} MarkOne(c: string, gap: string, rest: string)
    requires ';' !in c && (forall i :: 0 <= i < |gap| ==> Space(gap[i])) && rest != [] && !Space(rest[0])
    ensures MarkJson(c + (";" + gap + rest)) == c + (";j/" + MarkJson(rest))
  {
    var tail := ";" + gap + rest;
    MarkPlain(c, tail);
    assert tail[1..] == gap + rest;
    SpaceSkipped(gap, rest);
  }

  lemma JsonJoinStep(c: string, cs: seq<string>, rest: string)
    requires cs != [] && "j/" + rest == Join(Marked(cs), ";")
    ensures "j/" + (c + (";j/" + rest)) == Join(Marked([c] + cs), ";")
  {
    var ms := Marked([c] + cs);
    assert ([c] + cs)[1..] == cs;
    assert ms[1..] == Marked(cs);
    assert "j/" + (c + (";j/" + rest)) == ("j/" + c) + ";" + ("j/" + rest);
  }

  lemma {:induction false} JsonJoin(cs: seq<string>, gaps: seq<string>)
    requires |gaps| == |cs| > 0
    requires forall j :: 0 <= j < |cs| ==> JsonCommand(cs[j])
    requires forall j :: 0 <= j < |gaps| ==> AllSpace(gaps[j])
    ensures "j/" + MarkJson(JoinSpaced(cs, gaps)) == Join(Marked(cs), ";")
    decreases |cs|
  {
    var c := cs[0];
    assert JsonCommand(cs[0]) && AllSpace(gaps[0]);
    if |cs| == 1 {
      assert c + [] == c;
      MarkPlain(c, []);
      assert Marked(cs) == ["j/" + c];
    } else {
      var rest := JoinSpaced(cs[1..], gaps[1..]);
      assert JsonCommand(cs[1]);
      assert rest[0] == cs[1][0];
      MarkOne(c, gaps[0], rest);
      JsonJoin(cs[1..], gaps[1..]);
      JsonJoinStep(c, cs[1..], MarkJson(rest));
      assert [c] + cs[1..] == cs;
    }
  }

  predicate AllSpace(s: string) {
    forall i :: 0 <= i < |s| ==> Space(s[i])
  }

  function Marked(cs: seq<string>): (ms: seq<string>)
    ensures |ms| == |cs|
    ensures forall j :: 0 <= j < |cs| ==> ms[j] == "j/" + cs[j]
  {
    if cs == [] then [] else ["j/" + cs[0]] + Marked(cs[1..])
  }

  lemma {:induction false} DepthBehind(p: string, s: string)
    ensures Depth(p + s) == Depth(p) + Depth(s)
    decreases |s|
  {
    if s == [] {
      assert p + s == p;
    } else {
      assert (p + s)[..|p + s| - 1] == p + s[..|s| - 1];
      DepthBehind(p, s[..|s| - 1]);
    }
  }

  lemma MarkedIsCommand(c: string)
    requires JsonCommand(c) && Depth(c) == 0
    ensures BatchCommand("j/" + c)
  {
    DepthBehind("j/", c);
    assert "j/"[..1] == "j" && "j"[..0] == "";
    assert Depth("j") == 0;
    assert Depth("j/") == 0;
    assert ';' !in "j/" + c;
  }

  lemma JsonPrefixRead(t: string)
    ensures ParseFlags("j/" + t) == (Params(true, false, false, false), t)
  {
    var flags := "j";
    assert flags[0] == 'j';
    assert flags + "/" + t == "j/" + t;
    FlagsThenBody(flags, t);
  }

  lemma MarkedIsTrimmed(c: string)
    ensures Trim("j/" + c) == "j/" + TrimRight(c)
  {
    TrimBehind("j/", c);
  }

  /** The server splits a JSON batch into its commands, each marked as JSON, whatever flags and white
      space the batch was typed with. */
  lemma {:induction false} JsonBatchSplits(flags: string, cs: seq<string>, gaps: seq<string>)
    requires ' ' !in flags && |gaps| == |cs| > 0
    requires forall j :: 0 <= j < |cs| ==> JsonCommand(cs[j]) && Depth(cs[j]) == 0
    requires forall j :: 0 <= j < |gaps| ==> AllSpace(gaps[j])
    ensures BatchMessage(Message(flags, "--batch " + JoinSpaced(cs, gaps)), true) == BATCH + Join(Marked(cs), ";")
    ensures forall j :: 0 <= j < |cs| ==> BatchCommand(Marked(cs)[j])
    ensures Split(Join(Marked(cs), ";")) == Marked(cs)
  {
    JsonMessage(flags, JoinSpaced(cs, gaps));
    JsonJoin(cs, gaps);
    forall j | 0 <= j < |cs|
      ensures BatchCommand(Marked(cs)[j])
    {
      MarkedIsCommand(cs[j]);
    }
    SplitUndoesJoin(Marked(cs));
  }

  const JSON_ONLY := Params(true, false, false, false)

  /** The outcome is that of the command itself, without trailing blanks, in JSON mode and with no
      other flag; so each handler, but for those of a batch inside the batch, gets just that. */
  ghost predicate RunAsJson(cmds: seq<Command>, exec: Handlers, o: Outcome, c: string) {
    var body := TrimRight(c);
    && o == RunBody(cmds, exec, JSON_ONLY, body)
    && (BATCH <= body ||
        forall call :: call in o.calls ==> call.json && !call.all && !call.config && call.request == body)
  }

  /** A JSON batch runs every command as itself, in order, and the replies come back separated by the
      delimiter. */
  lemma {:induction false} JsonBatchArrives(cmds: seq<Command>, exec: Handlers, flags: string, cs: seq<string>, gaps: seq<string>)
    requires Registry(cmds) && ' ' !in flags && |gaps| == |cs| > 0
    requires forall j :: 0 <= j < |cs| ==> JsonCommand(cs[j]) && Depth(cs[j]) == 0
    requires forall j :: 0 <= j < |gaps| ==> AllSpace(gaps[j])
    ensures var o := Run(cmds, exec, BatchMessage(Message(flags, "--batch " + JoinSpaced(cs, gaps)), true));
            var os := Outcomes(cmds, exec, Marked(cs));
            && o.reply == Join(Replies(os), DELIMITER) && o.calls == AllCalls(os) && o.reloads == AllReloads(os)
            && forall j :: 0 <= j < |cs| ==> RunAsJson(cmds, exec, os[j], cs[j])
  {
    hide Run, Outcomes, RunAsJson, Join, Replies, AllCalls, AllReloads, BatchMessage, JoinSpaced, Split, Depth, BatchCommand;
    JsonBatchSplits(flags, cs, gaps);
    BatchRunsEach(cmds, exec, Marked(cs));
    forall j | 0 <= j < |cs|
      ensures RunAsJson(cmds, exec, Outcomes(cmds, exec, Marked(cs))[j], cs[j])
    {
      OutcomesAt(cmds, exec, Marked(cs), j);
      JsonRuns(cmds, exec, cs[j]);
    }
  }

  lemma {:induction false} JsonRuns(cmds: seq<Command>, exec: Handlers, c: string)
    ensures RunAsJson(cmds, exec, Run(cmds, exec, Trim("j/" + c)), c)
  {
    hide RunBody, ParseFlags, Trim, TrimRight;
    MarkedIsTrimmed(c);
    JsonPrefixRead(TrimRight(c));
    var o := RunBody(cmds, exec, JSON_ONLY, TrimRight(c));
    forall call | call in o.calls && !(BATCH <= TrimRight(c))
      ensures call.json && !call.all && !call.config && call.request == TrimRight(c)
    {
      BodyCalls(cmds, exec, JSON_ONLY, TrimRight(c), call);
    }
  }

  /** A batch that is not JSON is sent as it was typed. */
  lemma PlainBatch(flags: string, commands: string)
    requires ' ' !in flags
    ensures BatchMessage(Message(flags, "--batch " + commands), false) == "[[BATCH]]" + commands
  {
    BatchText(flags, commands);
  }

  lemma {:induction false} JsonMessage(flags: string, commands: string)
    requires ' ' !in flags
    ensures var message := BatchMessage(Message(flags, "--batch " + commands), true);
            message == BATCH + ("j/" + MarkJson(commands)) && message[9..] == "j/" + MarkJson(commands)
  {
    BatchText(flags, commands);
  }

  /** Behind the first blank of the argument text are the commands. */
  lemma BatchText(flags: string, commands: string)
    requires ' ' !in flags
    ensures var full := Message(flags, "--batch " + commands);
            Find(full, ' ') < |full| && full[Find(full, ' ') + 1..] == commands
  {
    var p := flags + "/--batch";
    var full := p + [' '] + commands;
    assert ' ' !in "/--batch";
    FindFirst(p, ' ', commands);
    assert full == Message(flags, "--batch " + commands);
    assert full[|p| + 1..] == commands;
  }
}
