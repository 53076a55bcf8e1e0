/** find_matching_brace of the Lua stub generator, against a grammar of blocks in C++ source: braces
    nest, and inside a string or character literal nothing counts but its closing quote. */
module BraceMatch {
  import opened Text

  // ----- the scanner ------------------------------------------------------------------------------

  /** The loop's variables; `quote` is None outside of literals. */
  datatype State = State(depth: int, quote: Option<char>, escaped: bool)

  const START := State(0, None, false)

  /** One character; None when it is the matching brace. */
  function Step(st: State, c: char): Option<State> {
    if st.quote.Some? then
      if st.escaped then Some(st.(escaped := false))
      else if c == '\\' then Some(st.(escaped := true))
      else if c == st.quote.value then Some(st.(quote := None))
      else Some(st)
    else if c == '"' || c == '\'' then Some(st.(quote := Some(c)))
    else if c == '{' then Some(st.(depth := st.depth + 1))
    else if c == '}' then
      if st.depth - 1 == 0 then None else Some(st.(depth := st.depth - 1))
    else Some(st)
  }

  /** The state behind a text; None when the matching brace is in it. */
  function Run(st: State, s: string): Option<State> {
    if s == [] then Some(st)
    else
      var before := Run(st, s[..|s| - 1]);
      if before.None? then None else Step(before.value, s[|s| - 1])
  }

  lemma {:induction false} RunAppend(st: State, s: string, t: string)
    ensures Run(st, s + t) == if Run(st, s).None? then None else Run(Run(st, s).value, t)
    decreases |t|
  {
    if t == [] {
      assert s + t == s;
    } else {
      assert (s + t)[..|s + t| - 1] == s + t[..|t| - 1];
      RunAppend(st, s, t[..|t| - 1]);
    }
  }

  lemma RunOne(st: State, c: char)
    ensures Run(st, [c]) == Step(st, c)
  {
    assert [c][..0] == [];
    assert Run(st, []) == Some(st);
  }

  lemma RunNext(st: State, s: string, c: char)
    ensures Run(st, s + [c]) == if Run(st, s).None? then None else Step(Run(st, s).value, c)
  {
    RunAppend(st, s, [c]);
    if Run(st, s).Some? {
      RunOne(Run(st, s).value, c);
    }
  }

  // ----- blocks -------------------------------------------------------------------------------------

  datatype LitChar = Raw(c: char) | Escaped(c: char)

  datatype Item =
    | Plain(c: char)
    | Literal(quote: char, body: seq<LitChar>)
    | Block(items: seq<Item>)

  predicate GoodBody(quote: char, body: seq<LitChar>) {
    (quote == '"' || quote == '\'') &&
    forall i :: 0 <= i < |body| ==> body[i].Raw? ==> body[i].c != quote && body[i].c != '\\'
  }

  predicate Good(item: Item) {
    match item
    case Plain(c) => c != '"' && c != '\'' && c != '{' && c != '}'
    case Literal(quote, body) => GoodBody(quote, body)
    case Block(items) => AllGood(items)
  }

  predicate AllGood(items: seq<Item>) {
    forall i :: 0 <= i < |items| ==> Good(items[i])
  }

  function PrintBody(body: seq<LitChar>): string {
    if body == [] then []
    else
      var last := body[|body| - 1];
      PrintBody(body[..|body| - 1]) + if last.Escaped? then ['\\', last.c] else [last.c]
  }

  function Print(item: Item): string {
    match item
    case Plain(c) => [c]
    case Literal(quote, body) => [quote] + PrintBody(body) + [quote]
    case Block(items) => "{" + PrintAll(items) + "}"
  }

  function PrintAll(items: seq<Item>): string {
    if items == [] then [] else PrintAll(items[..|items| - 1]) + Print(items[|items| - 1])
  }

  ghost predicate IsBlock(s: string) {
    exists items :: AllGood(items) && s == Print(Block(items))
  }

  /** The brace at j closes the block that begins at `open`. */
  ghost predicate Closes(text: string, open: nat, j: nat) {
    open <= j < |text| && IsBlock(text[open..j + 1])
  }

  lemma PrintAllNext(items: seq<Item>, item: Item)
    ensures PrintAll(items + [item]) == PrintAll(items) + Print(item)
  {
    assert (items + [item])[..|items|] == items;
  }

  lemma PrintBodyNext(body: seq<LitChar>, last: LitChar)
    ensures PrintBody(body + [last]) == PrintBody(body) + if last.Escaped? then ['\\', last.c] else [last.c]
  {
    assert (body + [last])[..|body|] == body;
  }

  // ----- a block is passed as a whole ------------------------------------------------------------------

  lemma {:induction false} BodyPasses(st: State, quote: char, body: seq<LitChar>)
    requires GoodBody(quote, body) && st.quote == Some(quote) && !st.escaped
    ensures Run(st, PrintBody(body)) == Some(st)
    decreases |body|
  {
    if body != [] {
      var init, last := body[..|body| - 1], body[|body| - 1];
      BodyPasses(st, quote, init);
      if last.Escaped? {
        assert PrintBody(body) == PrintBody(init) + ['\\'] + [last.c];
        RunNext(st, PrintBody(init), '\\');
        RunNext(st, PrintBody(init) + ['\\'], last.c);
      } else {
        RunNext(st, PrintBody(init), last.c);
      }
    }
  }

  lemma {:induction false} ItemPasses(st: State, item: Item)
    requires Good(item) && st.depth >= 1 && st.quote == None && !st.escaped
    ensures Run(st, Print(item)) == Some(st)
    decreases item
  {
    match item {
      case Plain(c) => RunOne(st, c);
      case Literal(quote, body) =>
        var inside := st.(quote := Some(quote));
        RunOne(st, quote);
        BodyPasses(inside, quote, body);
        RunAppend(st, [quote], PrintBody(body));
        RunNext(st, [quote] + PrintBody(body), quote);
      case Block(items) =>
        var inside := st.(depth := st.depth + 1);
        RunOne(st, '{');
        ItemsPass(inside, items);
        RunAppend(st, "{", PrintAll(items));
        RunNext(st, "{" + PrintAll(items), '}');
    }
  }

  lemma {:induction false} ItemsPass(st: State, items: seq<Item>)
    requires AllGood(items) && st.depth >= 1 && st.quote == None && !st.escaped
    ensures Run(st, PrintAll(items)) == Some(st)
    decreases items
  {
    if items != [] {
      var init, last := items[..|items| - 1], items[|items| - 1];
      ItemsPass(st, init);
      ItemPasses(st, last);
      RunAppend(st, PrintAll(init), Print(last));
    }
  }

  /** The scanner stops at the last brace of a block, and not before. */
  lemma BlockStops(items: seq<Item>)
    requires AllGood(items)
    ensures Run(START, "{" + PrintAll(items)) == Some(START.(depth := 1))
    ensures Run(START, Print(Block(items))) == None
  {
    RunOne(START, '{');
    ItemsPass(START.(depth := 1), items);
    RunAppend(START, "{", PrintAll(items));
    RunNext(START, "{" + PrintAll(items), '}');
  }

  // ----- whatever the scanner passes is the beginning of a block -----------------------------------------

  /** The blocks still open, outermost first, each with the items read so far. */
  function PrintOpen(open: seq<seq<Item>>): string {
    if open == [] then [] else PrintOpen(open[..|open| - 1]) + "{" + PrintAll(open[|open| - 1])
  }

  /** The literal being read. */
  function PrintTail(st: State, body: seq<LitChar>): string {
    if st.quote.None? then [] else [st.quote.value] + PrintBody(body) + if st.escaped then ['\\'] else []
  }

  ghost predicate Reads(st: State, open: seq<seq<Item>>, body: seq<LitChar>, s: string) {
    && st.depth == |open| >= 1
    && (st.quote.None? ==> !st.escaped)
    && (st.quote.Some? ==> GoodBody(st.quote.value, body))
    && (forall i :: 0 <= i < |open| ==> AllGood(open[i]))
    && s == PrintOpen(open) + PrintTail(st, body)
  }

  lemma {:induction false} AddItem(open: seq<seq<Item>>, item: Item) returns (more: seq<seq<Item>>)
    requires open != [] && Good(item) && forall i :: 0 <= i < |open| ==> AllGood(open[i])
    ensures |more| == |open| && forall i :: 0 <= i < |more| ==> AllGood(more[i])
    ensures PrintOpen(more) == PrintOpen(open) + Print(item)
  {
    var n := |open| - 1;
    more := open[..n] + [open[n] + [item]];
    assert more[..n] == open[..n];
    PrintAllNext(open[n], item);
  }

  lemma OpenBlock(open: seq<seq<Item>>)
    ensures PrintOpen(open + [[]]) == PrintOpen(open) + "{"
  {
    assert (open + [[]])[..|open|] == open;
    assert PrintAll([]) == [];
  }

  lemma {:induction false} CloseBlock(open: seq<seq<Item>>) returns (fewer: seq<seq<Item>>)
    requires |open| >= 2 && forall i :: 0 <= i < |open| ==> AllGood(open[i])
    ensures |fewer| == |open| - 1 && forall i :: 0 <= i < |fewer| ==> AllGood(fewer[i])
    ensures PrintOpen(fewer) == PrintOpen(open) + "}"
  {
    var n := |open| - 1;
    fewer := AddItem(open[..n], Block(open[n]));
    assert PrintOpen(open[..n]) + "{" + PrintAll(open[n]) + "}" == PrintOpen(open[..n]) + Print(Block(open[n]));
  }

  /** One more character inside a literal. */
  lemma ReadLiteral(st: State, open: seq<seq<Item>>, body: seq<LitChar>, s: string, c: char)
    returns (open': seq<seq<Item>>, body': seq<LitChar>)
    requires Reads(st, open, body, s) && st.quote.Some?
    ensures Reads(Step(st, c).value, open', body', s + [c])
  {
    open', body' := open, body;
    if st.escaped {
      body' := body + [Escaped(c)];
      PrintBodyNext(body, Escaped(c));
    } else if c == st.quote.value {
      open' := AddItem(open, Literal(c, body));
    } else if c != '\\' {
      body' := body + [Raw(c)];
      PrintBodyNext(body, Raw(c));
    }
  }

  /** One more character outside of literals. */
  lemma ReadCode(st: State, open: seq<seq<Item>>, body: seq<LitChar>, s: string, c: char)
    returns (open': seq<seq<Item>>, body': seq<LitChar>)
    requires Reads(st, open, body, s) && st.quote.None? && Step(st, c).Some?
    ensures Reads(Step(st, c).value, open', body', s + [c])
  {
    open', body' := open, [];
    if c == '{' {
      open' := open + [[]];
      OpenBlock(open);
    } else if c == '}' {
      open' := CloseBlock(open);
    } else if c != '"' && c != '\'' {
      open' := AddItem(open, Plain(c));
    }
  }

  lemma {:induction false} Understood(s: string) returns (open: seq<seq<Item>>, body: seq<LitChar>)
    requires s != [] && s[0] == '{' && Run(START, s).Some?
    ensures Reads(Run(START, s).value, open, body, s)
    decreases |s|
  {
    var init, c := s[..|s| - 1], s[|s| - 1];
    assert s == init + [c];
    if init == [] {
      open, body := [[]], [];
      RunOne(START, c);
      OpenBlock([]);
      assert [] + [[]] == open;
    } else {
      open, body := Understood(init);
      var st := Run(START, init).value;
      if st.quote.Some? {
        open, body := ReadLiteral(st, open, body, init, c);
      } else {
        open, body := ReadCode(st, open, body, init, c);
      }
    }
  }

  lemma OneOpen(open: seq<seq<Item>>)
    requires |open| == 1
    ensures PrintOpen(open) == "{" + PrintAll(open[0])
  {
    assert open[..0] == [];
    assert PrintOpen([]) + "{" == "{";
  }

  /** Where the scanner stops, a block ends. */
  lemma StopIsBlock(s: string, c: char)
    requires s != [] && s[0] == '{' && Run(START, s).Some? && Run(START, s + [c]).None?
    ensures IsBlock(s + [c])
  {
    var open, body := Understood(s);
    RunNext(START, s, c);
    OneOpen(open);
    assert s + [c] == Print(Block(open[0]));
  }

  /** No beginning of a passed text is a block, nor does anything behind a block change it. */
  lemma BlockIsNotPassed(s: string, t: string)
    requires s <= t && Run(START, t).Some?
    ensures !IsBlock(s)
  {
    assert t == s + t[|s|..];
    RunAppend(START, s, t[|s|..]);
    if IsBlock(s) {
      var items :| AllGood(items) && s == Print(Block(items));
      BlockStops(items);
    }
  }

  // ----- blocks as texts ---------------------------------------------------------------------------------

  /** Open minus closing braces. */
  function Balance(s: string): int {
    if s == [] then 0
    else Balance(s[..|s| - 1]) + if s[|s| - 1] == '{' then 1 else if s[|s| - 1] == '}' then -1 else 0
  }

  predicate NoQuotes(s: string) {
    forall i :: 0 <= i < |s| ==> s[i] != '"' && s[i] != '\''
  }

  /** The braces stay open up to the end. */
  predicate OpenThrough(s: string) {
    forall k :: 0 < k <= |s| ==> Balance(s[..k]) > 0
  }

  lemma {:induction false} BalanceIsDepth(s: string)
    requires s != [] && s[0] == '{' && NoQuotes(s)
    ensures Run(START, s) == if OpenThrough(s) then Some(State(Balance(s), None, false)) else None
    decreases |s|
  {
    var init, c := s[..|s| - 1], s[|s| - 1];
    assert s == init + [c];
    if init == [] {
      assert Balance(s[..0]) == 0 && s[..1] == s;
      RunOne(START, c);
    } else {
      BalanceIsDepth(init);
      RunNext(START, init, c);
      OpenNext(s);
      assert Run(START, init).Some? ==> Balance(init[..|init|]) > 0;
      assert init[..|init|] == init;
    }
  }

  lemma OpenNext(s: string)
    requires |s| > 1
    ensures OpenThrough(s) <==> OpenThrough(s[..|s| - 1]) && Balance(s) > 0
  {
    hide Balance;
    var init := s[..|s| - 1];
    forall k | 0 < k <= |init|
      ensures s[..k] == init[..k]
    {
    }
    assert s[..|s|] == s;
    if OpenThrough(s) {
      assert Balance(s[..|s|]) > 0;
      forall k | 0 < k <= |init|
        ensures Balance(init[..k]) > 0
      {
        assert Balance(s[..k]) > 0;
      }
    }
    if OpenThrough(init) && Balance(s) > 0 {
      forall k | 0 < k <= |s|
        ensures Balance(s[..k]) > 0
      {
        assert k <= |init| ==> Balance(init[..k]) > 0;
      }
    }
  }

  /** Without quotes a block is a text whose braces balance at its end and not before. */
  lemma PlainBlocks(s: string)
    requires s != [] && s[0] == '{' && NoQuotes(s)
    ensures IsBlock(s) <==> |s| > 1 && Balance(s) <= 0 && OpenThrough(s[..|s| - 1])
  {
    var init, c := s[..|s| - 1], s[|s| - 1];
    assert s == init + [c];
    BalanceIsDepth(s);
    if init != [] {
      BalanceIsDepth(init);
      OpenNext(s);
    } else {
      assert Balance(s[..0]) == 0 && s[..1] == s;
    }
    if IsBlock(s) {
      BlockIsStop(s);
    }
    if |s| > 1 && Balance(s) <= 0 && OpenThrough(init) {
      StopIsBlock(init, c);
    }
  }

  lemma BlockIsStop(s: string)
    requires IsBlock(s)
    ensures |s| > 1 && Run(START, s[..|s| - 1]).Some? && Run(START, s).None?
  {
    var items :| AllGood(items) && s == Print(Block(items));
    BlockStops(items);
    assert s[..|s| - 1] == "{" + PrintAll(items);
  }

  /** Between quotes of either kind nothing counts but that quote and the backslash, which hides the
      character behind it: a string of such pieces, in braces, is a block. */
  lemma QuotedBlock(quote: char, s: string, escaped: char, t: string)
    requires (quote == '"' || quote == '\'') && quote !in s + t && '\\' !in s + t
    ensures IsBlock("{" + [quote] + s + ['\\', escaped] + t + [quote] + "}")
  {
    hide PrintBody, GoodBody;
    var body, text := RawBody(s) + [Escaped(escaped)] + RawBody(t), s + ['\\', escaped] + t;
    QuotedBodyIsGood(quote, s, escaped, t);
    QuotedBodyText(s, escaped, t);
    LiteralBlock(quote, body);
    assert "{" + [quote] + s + ['\\', escaped] + t + [quote] + "}" == "{" + ([quote] + text + [quote]) + "}";
  }

  lemma QuotedBodyIsGood(quote: char, s: string, escaped: char, t: string)
    requires (quote == '"' || quote == '\'') && quote !in s + t && '\\' !in s + t
    ensures GoodBody(quote, RawBody(s) + [Escaped(escaped)] + RawBody(t))
  {
    var body := RawBody(s) + [Escaped(escaped)] + RawBody(t);
    forall i | 0 <= i < |body| && body[i].Raw?
      ensures body[i].c != quote && body[i].c != '\\'
    {
      var k := if i < |s| then i else i - 1;
      assert body[i].c == (s + t)[k];
    }
  }

  lemma QuotedBodyText(s: string, escaped: char, t: string)
    ensures PrintBody(RawBody(s) + [Escaped(escaped)] + RawBody(t)) == s + ['\\', escaped] + t
  {
    hide PrintBody;
    var a := RawBody(s);
    PrintRaw(s, []);
    assert [] + a == a;
    PrintNothing();
    PrintBodyNext(a, Escaped(escaped));
    PrintRaw(t, a + [Escaped(escaped)]);
  }

  lemma PrintNothing()
    ensures PrintBody([]) == []
  {
  }

  function RawBody(s: string): (body: seq<LitChar>)
    ensures |body| == |s| && forall i :: 0 <= i < |s| ==> body[i] == Raw(s[i])
  {
    seq(|s|, i requires 0 <= i < |s| => Raw(s[i]))
  }

  lemma LiteralBlock(quote: char, body: seq<LitChar>)
    requires GoodBody(quote, body)
    ensures IsBlock("{" + ([quote] + PrintBody(body) + [quote]) + "}")
  {
    hide PrintBody, GoodBody;
    var item := Literal(quote, body);
    assert [item][..0] == [];
    assert PrintAll([]) + Print(item) == Print(item);
    assert PrintAll([item]) == Print(item);
    assert AllGood([item]);
    assert "{" + ([quote] + PrintBody(body) + [quote]) + "}" == Print(Block([item]));
  }

  lemma {:induction false} PrintRaw(s: string, before: seq<LitChar>)
    ensures PrintBody(before + RawBody(s)) == PrintBody(before) + s
    decreases |s|
  {
    hide PrintBody;
    if s == [] {
      assert before + RawBody(s) == before;
    } else {
      var init, c := s[..|s| - 1], s[|s| - 1];
      PrintRaw(init, before);
      assert before + RawBody(s) == (before + RawBody(init)) + [Raw(c)];
      PrintBodyNext(before + RawBody(init), Raw(c));
      assert s == init + [c];
    }
  }

  // ----- find_matching_brace ----------------------------------------------------------------------------

  /** None stands for the ValueError.  Called on an open brace, the result is the one index that
      closes a block beginning there, if there is one. */
  method FindMatchingBrace(text: string, open: nat) returns (r: Option<nat>)
    ensures r.Some? ==> open <= r.value < |text|
    ensures open < |text| && text[open] == '{' ==>
              forall j: nat :: r == Some(j) <==> Closes(text, open, j)
  {
    hide Closes, Step;
    var st := START;
    var i := open;
    while i < |text|
      invariant open <= i && (open <= |text| ==> i <= |text|)
      invariant i <= |text| ==> Run(START, text[open..i]) == Some(st)
    {
      assert text[open..i + 1] == text[open..i] + [text[i]];
      RunNext(START, text[open..i], text[i]);
      var next := Step(st, text[i]);
      if next.None? {
        StopsOnlyHere(text, open, i);
        return Some(i);
      }
      st := next.value;
      i := i + 1;
    }
    if open < |text| {
      NothingCloses(text, open);
    }
    return None;
  }

  lemma NothingCloses(text: string, open: nat)
    requires open <= |text| && Run(START, text[open..|text|]).Some?
    ensures forall j: nat :: !Closes(text, open, j)
  {
    forall j: nat | open <= j < |text|
      ensures !Closes(text, open, j)
    {
      BlockIsNotPassed(text[open..j + 1], text[open..|text|]);
    }
  }

  lemma StopsOnlyHere(text: string, open: nat, i: nat)
    requires open <= i < |text| && Run(START, text[open..i]).Some? && Run(START, text[open..i + 1]).None?
    ensures text[open] == '{' ==> forall j: nat :: i == j <==> Closes(text, open, j)
  {
    if text[open] == '{' {
      assert text[open..i + 1] == text[open..i] + [text[i]];
      assert i == open ==> Run(START, []) == Some(START);
      StopIsBlock(text[open..i], text[i]);
      forall j: nat | open <= j < |text| && j != i
        ensures !Closes(text, open, j)
      {
        if j < i {
          BlockIsNotPassed(text[open..j + 1], text[open..i]);
        } else {
          BlockEndsOnce(text[open..i + 1], text[open..j + 1]);
        }
      }
    }
  }

  /** A text the scanner has stopped in is no beginning of a longer block. */
  lemma BlockEndsOnce(s: string, t: string)
    requires s < t && Run(START, s).None?
    ensures !IsBlock(t)
  {
    if IsBlock(t) {
      var items :| AllGood(items) && t == Print(Block(items));
      BlockStops(items);
      var head := "{" + PrintAll(items);
      assert head == s + head[|s|..];
      RunAppend(START, s, head[|s|..]);
    }
  }
}
