/** Splitting a batch undoes joining it, a batch runs its commands one by one, and when a request
    reaches its handler unchanged. */
module HyprCtlLaws {
  import opened Text
  import opened HyprCtl

  // ----- splitting and joining -----------------------------------------------------------------

  /** Opening minus closing brackets. */
  ghost function Depth(s: string): int {
    if s == [] then 0
    else
      var c := s[|s| - 1];
      Depth(s[..|s| - 1]) + if c == '[' then 1 else if c == ']' then -1 else 0
  }

  /** No semicolon of s lies outside of its brackets. */
  ghost predicate Whole(s: string) {
    forall k :: 0 <= k < |s| && s[k] == ';' ==> Depth(s[..k]) != 0
  }

  /** A text that survives in a batch: not empty, brackets summing to zero, no bare semicolon. */
  ghost predicate BatchCommand(c: string) {
    c != [] && Depth(c) == 0 && Whole(c)
  }

  lemma {:induction false} ScanThrough(s: string, i: nat, idx: nat, c: string)
    requires idx <= i <= idx + |c| <= |s| && s[idx..idx + |c|] == c && Whole(c)
    ensures Pieces(s, i, idx, Depth(c[..i - idx])) == Pieces(s, idx + |c|, idx, Depth(c))
    decreases idx + |c| - i
  {
    if i == idx + |c| {
      assert c[..i - idx] == c;
    } else {
      var k := i - idx;
      assert s[i] == c[k] && c[..k + 1][..k] == c[..k];
      var n := Next(s, i, idx, Depth(c[..k]));
      assert n == Scan(idx, Depth(c[..k + 1]), false);
      ScanThrough(s, i + 1, idx, c);
    }
  }

  /** One command in front of a semicolon, or of the end, comes off as the first piece. */
  lemma CommandComesOff(s: string, idx: nat, c: string)
    requires BatchCommand(c) && idx + |c| <= |s| && s[idx..idx + |c|] == c
    requires idx + |c| < |s| ==> s[idx + |c|] == ';'
    ensures Pieces(s, idx, idx, 0) == [c] + Pieces(s, idx + |c| + 1, idx + |c| + 1, 0)
  {
    assert c[..0] == [];
    ScanThrough(s, idx, idx, c);
    assert Next(s, idx + |c|, idx, 0) == Scan(idx + |c| + 1, 0, true);
  }

  /** The join, seen from a position. */
  lemma JoinAt(s: string, idx: nat, cs: seq<string>)
    requires |cs| > 1 && idx <= |s| && s[idx..] == Join(cs, ";")
    ensures var end := idx + |cs[0]|;
            end < |s| && s[idx..end] == cs[0] && s[end] == ';' && s[end + 1..] == Join(cs[1..], ";")
  {
    var c, rest := cs[0], Join(cs[1..], ";");
    var t := s[idx..];
    assert t == c + ";" + rest;
    assert t[..|c|] == c && t[|c|] == ';' && t[|c| + 1..] == rest;
  }

  /** Joined commands come apart again, in order. */
  lemma {:induction false} JoinedComesApart(s: string, idx: nat, cs: seq<string>)
    requires cs != [] && idx <= |s| && s[idx..] == Join(cs, ";")
    requires forall j :: 0 <= j < |cs| ==> BatchCommand(cs[j])
    ensures Pieces(s, idx, idx, 0) == cs
    decreases |cs|
  {
    var c := cs[0];
    assert BatchCommand(cs[0]);
    if |cs| == 1 {
      assert s[idx..] == c;
      assert s[idx..idx + |c|] == c;
      CommandComesOff(s, idx, c);
      assert Pieces(s, |s| + 1, |s| + 1, 0) == [];
    } else {
      JoinAt(s, idx, cs);
      CommandComesOff(s, idx, c);
      JoinedComesApart(s, idx + |c| + 1, cs[1..]);
    }
  }

  lemma {:induction false} SplitUndoesJoin(cs: seq<string>)
    requires cs != [] && forall j :: 0 <= j < |cs| ==> BatchCommand(cs[j])
    ensures Split(Join(cs, ";")) == cs
  {
    var s := Join(cs, ";");
    assert s[0..] == s;
    JoinedComesApart(s, 0, cs);
  }

  /** Whatever the text, the pieces are batch commands; `idx..i` is the command being read. */
  lemma {:induction false} PiecesAreCommands(s: string, i: nat, idx: nat, depth: int)
    requires idx <= i <= |s| + 1
    requires i <= |s| ==> Depth(s[idx..i]) == depth && Whole(s[idx..i])
    ensures forall j :: 0 <= j < |Pieces(s, i, idx, depth)| ==> BatchCommand(Pieces(s, i, idx, depth)[j])
    decreases |s| + 1 - i
  {
    if i <= |s| {
      var n := Next(s, i, idx, depth);
      if i < |s| {
        if n.idx == idx {
          WholeGrows(s, idx, i);
        } else {
          assert s[i + 1..i + 1] == [];
        }
      }
      PiecesAreCommands(s, i + 1, n.idx, n.depth);
    }
  }

  lemma WholeGrows(s: string, idx: nat, i: nat)
    requires idx <= i < |s| && Whole(s[idx..i]) && (s[i] == ';' ==> Depth(s[idx..i]) != 0)
    ensures Whole(s[idx..i + 1])
    ensures Depth(s[idx..i + 1]) == Depth(s[idx..i]) + if s[i] == '[' then 1 else if s[i] == ']' then -1 else 0
  {
    var a, b := s[idx..i], s[idx..i + 1];
    assert b[..|a|] == a;
    forall k | 0 <= k < |b| && b[k] == ';'
      ensures Depth(b[..k]) != 0
    {
      if k < |a| {
        assert b[..k] == a[..k];
      }
    }
  }

  /** Splitting is a normal form: joining the pieces and splitting again changes nothing. */
  lemma SplitIsStable(s: string)
    ensures Split(s) != [] ==> Split(Join(Split(s), ";")) == Split(s)
  {
    assert s[0..0] == [];
    PiecesAreCommands(s, 0, 0, 0);
    if Split(s) != [] {
      SplitUndoesJoin(Split(s));
    }
  }

  // ----- what a batch does ------------------------------------------------------------------------

  /** The batch command is registered, and no command before it, nor any exact one, begins with a
      bracket. */
  predicate Registry(cmds: seq<Command>) {
    exists b :: 0 <= b < |cmds| && cmds[b] == Command(BATCH, false) &&
      forall j :: 0 <= j < |cmds| && (cmds[j].exact || j < b) ==> cmds[j].name != [] && cmds[j].name[0] != '['
  }

  lemma {:induction false} NoExactBatch(cmds: seq<Command>, request: string)
    requires forall j :: 0 <= j < |cmds| && cmds[j].exact ==> cmds[j].name != [] && cmds[j].name[0] != '['
    requires request != [] && request[0] == '['
    ensures FindExact(cmds, request) == None
  {
    if cmds != [] {
      NoExactBatch(cmds[1..], request);
    }
  }

  lemma {:induction false} BatchIsFirst(cmds: seq<Command>, b: nat, request: string)
    requires b < |cmds| && cmds[b] == Command(BATCH, false) && BATCH <= request
    requires forall j :: 0 <= j < b ==> cmds[j].name != [] && cmds[j].name[0] != '['
    ensures FindPrefix(cmds, request) == Some(Command(BATCH, false))
    decreases b
  {
    assert request[0] == '[';
    if b > 0 {
      BatchIsFirst(cmds[1..], b - 1, request);
    }
  }

  function Outcomes(cmds: seq<Command>, exec: Handlers, cs: seq<string>): (os: seq<Outcome>)
    ensures |os| == |cs|
  {
    if cs == [] then [] else Outcomes(cmds, exec, cs[..|cs| - 1]) + [Run(cmds, exec, Trim(cs[|cs| - 1]))]
  }

  lemma {:induction false} OutcomesAt(cmds: seq<Command>, exec: Handlers, cs: seq<string>, j: nat)
    requires j < |cs|
    ensures Outcomes(cmds, exec, cs)[j] == Run(cmds, exec, Trim(cs[j]))
  {
    hide Run;
    if j < |cs| - 1 {
      OutcomesAt(cmds, exec, cs[..|cs| - 1], j);
    }
  }

  function Replies(os: seq<Outcome>): (rs: seq<string>)
    ensures |rs| == |os|
    ensures forall j :: 0 <= j < |os| ==> rs[j] == os[j].reply
  {
    if os == [] then [] else Replies(os[..|os| - 1]) + [os[|os| - 1].reply]
  }

  function AllCalls(os: seq<Outcome>): seq<Call> {
    if os == [] then [] else AllCalls(os[..|os| - 1]) + os[|os| - 1].calls
  }

  function AllReloads(os: seq<Outcome>): nat {
    if os == [] then 0 else AllReloads(os[..|os| - 1]) + os[|os| - 1].reloads
  }

  /** What an outcome must be to be the outcomes os in a row. */
  ghost predicate InARow(o: Outcome, os: seq<Outcome>)
    requires os != []
  {
    && o.reply == Join(Replies(os), DELIMITER) + DELIMITER
    && o.calls == AllCalls(os) && o.reloads == AllReloads(os)
    && o.all == os[|os| - 1].all && o.config == os[|os| - 1].config
  }

  lemma OneMoreInARow(o: Outcome, os: seq<Outcome>, last: Outcome)
    requires os != [] && InARow(o, os)
    ensures InARow(Append(o, last), os + [last])
  {
    assert (os + [last])[..|os|] == os;
    JoinSnoc(Replies(os), last.reply, DELIMITER);
  }

  lemma FirstInARow(p: Params, first: Outcome)
    ensures InARow(Append(Nothing(p), first), [first])
  {
    assert Replies([first]) == [first.reply];
    assert AllCalls([]) + first.calls == first.calls;
    assert [first][..0] == [];
  }

  /** The outcomes one after another. */
  function Chain(p: Params, os: seq<Outcome>): Outcome {
    if os == [] then Nothing(p) else Append(Chain(p, os[..|os| - 1]), os[|os| - 1])
  }

  lemma {:induction false} ChainInARow(p: Params, os: seq<Outcome>)
    requires os != []
    ensures InARow(Chain(p, os), os)
  {
    var init, last := os[..|os| - 1], os[|os| - 1];
    if init == [] {
      FirstInARow(p, last);
      assert os == [last];
    } else {
      ChainInARow(p, init);
      OneMoreInARow(Chain(p, init), init, last);
      assert os == init + [last];
    }
  }

  lemma {:induction false} RunAllIsChain(cmds: seq<Command>, exec: Handlers, cs: seq<string>, limit: nat, p: Params)
    requires forall j :: 0 <= j < |cs| ==> |cs[j]| <= limit
    ensures RunAll(cmds, exec, cs, limit, p) == Chain(p, Outcomes(cmds, exec, cs))
    decreases |cs|
  {
    hide Run;
    if cs != [] {
      var init, last := cs[..|cs| - 1], Run(cmds, exec, Trim(cs[|cs| - 1]));
      RunAllIsChain(cmds, exec, init, limit, p);
      assert (Outcomes(cmds, exec, init) + [last])[..|init|] == Outcomes(cmds, exec, init);
    }
  }

  /** A batch of joined commands runs exactly those commands, trimmed and in order, each with its
      own flags, and answers with their replies separated by the delimiter. */
  lemma {:induction false} BatchRunsEach(cmds: seq<Command>, exec: Handlers, cs: seq<string>)
    requires Registry(cmds) && cs != [] && forall j :: 0 <= j < |cs| ==> BatchCommand(cs[j])
    ensures var o, os := Run(cmds, exec, "[[BATCH]]" + Join(cs, ";")), Outcomes(cmds, exec, cs);
            && o.reply == Join(Replies(os), "\n\n\n")
            && o.calls == AllCalls(os) && o.reloads == AllReloads(os)
            && o.all == os[|os| - 1].all && o.config == os[|os| - 1].config
  {
    var request := BATCH + Join(cs, ";");
    var b :| 0 <= b < |cmds| && cmds[b] == Command(BATCH, false) &&
      forall j :: 0 <= j < |cmds| && (cmds[j].exact || j < b) ==> cmds[j].name != [] && cmds[j].name[0] != '[';
    NoExactBatch(cmds, request);
    BatchIsFirst(cmds, b, request);
    assert request[9..] == Join(cs, ";");
    SplitUndoesJoin(cs);
    BatchOutcome(cmds, exec, request);
    RunAllIsChain(cmds, exec, cs, |request[9..]|, NO_PARAMS);
    ChainInARow(NO_PARAMS, Outcomes(cmds, exec, cs));
    JoinNotEmpty(cmds, exec, cs);
  }

  lemma BatchOutcome(cmds: seq<Command>, exec: Handlers, request: string)
    requires BATCH <= request && FindExact(cmds, request) == None
    requires FindPrefix(cmds, request) == Some(Command(BATCH, false))
    ensures Run(cmds, exec, request) ==
            Finish(NO_PARAMS, Then(Nothing(NO_PARAMS), RunBatch(cmds, exec, NO_PARAMS, request)))
  {
    hide RunBatch, RunExact;
    assert ParseFlags(request) == (NO_PARAMS, request);
    assert Run(cmds, exec, request) == RunBody(cmds, exec, NO_PARAMS, request);
    NothingExact(cmds, exec, NO_PARAMS, request);
    assert RunInexact(cmds, exec, NO_PARAMS, request) == RunBatch(cmds, exec, NO_PARAMS, request);
  }

  lemma NothingExact(cmds: seq<Command>, exec: Handlers, p: Params, body: string)
    requires FindExact(cmds, body) == None
    ensures RunExact(cmds, exec, p, body) == Nothing(p)
  {
  }

  lemma {:induction false} OutcomesReply(cmds: seq<Command>, exec: Handlers, cs: seq<string>)
    ensures forall j :: 0 <= j < |cs| ==> Replies(Outcomes(cmds, exec, cs))[j] != []
  {
    if cs != [] {
      OutcomesReply(cmds, exec, cs[..|cs| - 1]);
    }
  }

  lemma JoinNotEmpty(cmds: seq<Command>, exec: Handlers, cs: seq<string>)
    requires cs != []
    ensures Join(Replies(Outcomes(cmds, exec, cs)), DELIMITER) != []
  {
    OutcomesReply(cmds, exec, cs);
    JoinOfTexts(Replies(Outcomes(cmds, exec, cs)), DELIMITER);
  }

  lemma JoinOfTexts(rs: seq<string>, sep: string)
    requires rs != [] && rs[0] != []
    ensures Join(rs, sep) != []
  {
  }

  /** Whatever is executed for a request other than a batch gets its text and its flags. */
  lemma BodyCalls(cmds: seq<Command>, exec: Handlers, p: Params, body: string, call: Call)
    requires !(BATCH <= body) && call in RunBody(cmds, exec, p, body).calls
    ensures call.request == body && call.json == p.json && call.all == p.all && call.config == p.config
  {
    hide RunBatch, FindPrefix, FindExact;
    var c := FindPrefix(cmds, body);
    assert c.Some? ==> c.value.name != BATCH;
  }

  // ----- when a request arrives as it was written ----------------------------------------------------

  /** The flags that stand in a text. */
  function FlagsIn(s: string): Params {
    Params('j' in s, 'r' in s, 'a' in s, 'c' in s)
  }

  lemma {:induction false} ReadsLetters(s: string)
    ensures WithChars(NO_PARAMS, s) == FlagsIn(s)
  {
    if s != [] {
      var init := s[..|s| - 1];
      ReadsLetters(init);
      assert s == init + [s[|s| - 1]];
    }
  }

  /** Flag letters, a slash, and any text at all: the server sees the flags and the text. */
  lemma FlagsThenBody(flags: string, body: string)
    requires '/' !in flags && ' ' !in flags && (flags != [] ==> flags[0] != '[')
    ensures ParseFlags(flags + "/" + body) == (FlagsIn(flags), body)
  {
    var request := flags + ['/'] + body;
    assert request == flags + "/" + body;
    FindFirst(flags, '/', body);
    assert request[|flags|] == '/';
    assert request[0] != '[';
    assert request[..|flags|] == flags && request[|flags| + 1..] == body;
    ReadsLetters(flags);
  }

  /** Without a flag prefix, letters of the first word are taken for flags as soon as a slash
      follows later on; the text itself is kept. */
  lemma FirstWordLeaks(word: string, rest: string)
    requires '/' !in word && ' ' !in word && '/' in rest && !(BATCH <= word + " " + rest)
    ensures ParseFlags(word + " " + rest) == (FlagsIn(word), word + " " + rest)
  {
    var request := word + [' '] + rest;
    assert request == word + " " + rest;
    FindFirst(word, ' ', rest);
    var j := Find(rest, '/');
    assert request[|word| + 1 + j] == '/';
    assert request[..|word|] == word;
    ReadsLetters(word);
  }

  // ----- who answers ----------------------------------------------------------------------------------

  /** Flag letters the client may put in front of a request. */
  predicate FlagText(flags: string) {
    '/' !in flags && ' ' !in flags && (flags != [] ==> flags[0] != '[')
  }

  /** A command's call for a request with these flags. */
  function CallFor(c: Command, flags: string, body: string): Call {
    Call(c, 'j' in flags, 'a' in flags, 'c' in flags, body)
  }

  /** Command k is the first inexact one whose name the text begins with. */
  predicate FirstPrefix(cmds: seq<Command>, body: string, k: nat) {
    && k < |cmds| && !cmds[k].exact && cmds[k].name <= body
    && forall j :: 0 <= j < k ==> cmds[j].exact || !(cmds[j].name <= body)
  }

  lemma {:induction false} FindExactIs(cmds: seq<Command>, body: string)
    ensures FindExact(cmds, body) == if Command(body, true) in cmds then Some(Command(body, true)) else None
  {
    if cmds != [] {
      FindExactIs(cmds[1..], body);
      assert cmds == [cmds[0]] + cmds[1..];
    }
  }

  lemma {:induction false} FindPrefixIs(cmds: seq<Command>, body: string)
    ensures forall k: nat :: FirstPrefix(cmds, body, k) ==> FindPrefix(cmds, body) == Some(cmds[k])
    ensures FindPrefix(cmds, body).Some? ==> exists k: nat :: FirstPrefix(cmds, body, k)
  {
    if cmds != [] && (cmds[0].exact || !(cmds[0].name <= body)) {
      FindPrefixIs(cmds[1..], body);
      forall k: nat | FirstPrefix(cmds, body, k)
        ensures FindPrefix(cmds, body) == Some(cmds[k])
      {
        assert forall j :: 0 <= j < k - 1 ==> cmds[1..][j] == cmds[j + 1];
        assert FirstPrefix(cmds[1..], body, k - 1);
      }
      if FindPrefix(cmds, body).Some? {
        var k: nat :| FirstPrefix(cmds[1..], body, k);
        assert forall j :: 1 <= j < k + 1 ==> cmds[j] == cmds[1..][j - 1];
        assert FirstPrefix(cmds, body, k + 1);
      }
    } else if cmds != [] {
      assert FirstPrefix(cmds, body, 0);
    }
  }

  /** An exact command of that name with something to say answers, alone: with the flags of the
      request, and with a full reload if `r` is one of them. */
  lemma {:induction false} ExactAnswers(cmds: seq<Command>, exec: Handlers, flags: string, body: string)
    requires FlagText(flags) && Command(body, true) in cmds && exec(CallFor(Command(body, true), flags, body)) != ""
    ensures var call := CallFor(Command(body, true), flags, body);
            Run(cmds, exec, flags + "/" + body) ==
            Outcome(exec(call), [call], if 'r' in flags then 1 else 0, 'a' in flags, 'c' in flags)
  {
    hide ParseFlags, RunInexact;
    FlagsThenBody(flags, body);
    FindExactIs(cmds, body);
    assert Run(cmds, exec, flags + "/" + body) == RunBody(cmds, exec, FlagsIn(flags), body);
  }

  /** A request without a slash is run as it is, as if a lone slash stood before it. */
  lemma PlainIsUnflagged(cmds: seq<Command>, exec: Handlers, body: string)
    requires '/' !in body
    ensures Run(cmds, exec, body) == Run(cmds, exec, "/" + body)
  {
    hide RunBody;
    FlagsThenBody("", body);
    assert "" + "/" + body == "/" + body;
  }

  /** Otherwise the first inexact command whose name begins the request answers, after the exact one if
      there is one. */
  lemma {:induction false} InexactAnswers(cmds: seq<Command>, exec: Handlers, flags: string, body: string, k: nat)
    requires FlagText(flags) && FirstPrefix(cmds, body, k) && cmds[k].name != BATCH
    requires Command(body, true) in cmds ==> exec(CallFor(Command(body, true), flags, body)) == ""
    requires exec(CallFor(cmds[k], flags, body)) != ""
    ensures var call := CallFor(cmds[k], flags, body);
            var before := if Command(body, true) in cmds then [CallFor(Command(body, true), flags, body)] else [];
            Run(cmds, exec, flags + "/" + body) ==
            Outcome(exec(call), before + [call], if 'r' in flags then 1 else 0, 'a' in flags, 'c' in flags)
  {
    hide ParseFlags, RunBatch, FindExact, FindPrefix;
    FlagsThenBody(flags, body);
    FindExactIs(cmds, body);
    FindPrefixIs(cmds, body);
    var p, call := FlagsIn(flags), CallFor(cmds[k], flags, body);
    var before := if Command(body, true) in cmds then [CallFor(Command(body, true), flags, body)] else [];
    var exact := RunExact(cmds, exec, p, body);
    assert exact.reply == "" && exact.calls == before && exact.reloads == 0;
    assert RunInexact(cmds, exec, p, body) == Outcome(exec(call), [call], 0, p.all, p.config);
    assert RunBody(cmds, exec, p, body) == Finish(p, Outcome(exec(call), before + [call], 0, p.all, p.config));
    assert Run(cmds, exec, flags + "/" + body) == RunBody(cmds, exec, p, body);
  }

  /** Someone answers a request that is no batch. */
  ghost predicate Answered(cmds: seq<Command>, exec: Handlers, flags: string, body: string) {
    || (Command(body, true) in cmds && exec(CallFor(Command(body, true), flags, body)) != "")
    || (exists k: nat :: FirstPrefix(cmds, body, k) && exec(CallFor(cmds[k], flags, body)) != "")
  }

  /** The request is unknown exactly when nobody answers, and then nothing is reloaded. */
  lemma {:induction false} UnknownExactly(cmds: seq<Command>, exec: Handlers, flags: string, body: string)
    requires FlagText(flags) && !(BATCH <= body)
    requires forall c :: c in cmds ==> exec(CallFor(c, flags, body)) != "unknown request"
    ensures var o := Run(cmds, exec, flags + "/" + body);
            && (o.reply == "unknown request" <==> !Answered(cmds, exec, flags, body))
            && (o.reply == "unknown request" ==> o.reloads == 0)
  {
    hide Run;
    if Command(body, true) in cmds && exec(CallFor(Command(body, true), flags, body)) != "" {
      ExactAnswers(cmds, exec, flags, body);
    } else if k: nat :| FirstPrefix(cmds, body, k) && exec(CallFor(cmds[k], flags, body)) != "" {
      InexactAnswers(cmds, exec, flags, body, k);
      assert cmds[k] in cmds;
    } else {
      NobodyAnswers(cmds, exec, flags, body);
    }
  }

  lemma {:induction false} NobodyAnswers(cmds: seq<Command>, exec: Handlers, flags: string, body: string)
    requires FlagText(flags) && !(BATCH <= body) && !Answered(cmds, exec, flags, body)
    ensures Run(cmds, exec, flags + "/" + body).reply == "unknown request"
    ensures Run(cmds, exec, flags + "/" + body).reloads == 0
  {
    hide ParseFlags, RunBatch, FindExact, FindPrefix;
    FlagsThenBody(flags, body);
    FindExactIs(cmds, body);
    FindPrefixIs(cmds, body);
    assert Run(cmds, exec, flags + "/" + body) == RunBody(cmds, exec, FlagsIn(flags), body);
    var c := FindPrefix(cmds, body);
    if c.Some? {
      var k: nat :| FirstPrefix(cmds, body, k);
      assert c.value == cmds[k] && c.value.name != BATCH;
    }
  }

  /** Setting a keyword triggers a full reload exactly when its value is a path: `keyword` contains
      an r. */
  lemma KeywordPathReloads(cmds: seq<Command>, exec: Handlers, value: string)
    requires FindExact(cmds, "keyword " + value) == None
    requires FindPrefix(cmds, "keyword " + value) == Some(Command("keyword", false))
    requires exec(Call(Command("keyword", false), false, false, false, "keyword " + value)) != ""
    ensures var request := "keyword " + value;
            var call := Call(Command("keyword", false), false, false, false, request);
            Run(cmds, exec, request) == Outcome(exec(call), [call], if '/' in value then 1 else 0, false, false)
  {
    hide ParseFlags;
    var request := "keyword " + value;
    KeywordFlags(value);
    var p := Params(false, '/' in value, false, false);
    assert Run(cmds, exec, request) == RunBody(cmds, exec, p, request);
    assert "keyword" != BATCH by { assert "keyword"[0] == 'k' && BATCH[0] == '['; }
    assert RunInexact(cmds, exec, p, request) == Leaf(exec, Command("keyword", false), p, request);
  }

  lemma KeywordFlags(value: string)
    ensures ParseFlags("keyword " + value) == (Params(false, '/' in value, false, false), "keyword " + value)
  {
    var word, request := "keyword", "keyword " + value;
    assert word + " " + value == request;
    assert request[0] == 'k';
    assert word[4] == 'o' && word[5] == 'r';
    if '/' in value {
      FirstWordLeaks(word, value);
    } else {
      assert '/' !in word && '/' !in " ";
      assert request == word + (" " + value);
    }
  }

  /** Exactly when a command is run as written and without flags. */
  lemma ArrivesPlain(c: string)
    requires !(BATCH <= c)
    ensures ParseFlags(c) == (NO_PARAMS, c) <==>
            ('/' !in c || (Find(c, ' ') < Find(c, '/') && FlagsIn(c[..Find(c, ' ')]) == NO_PARAMS))
  {
    if '/' in c {
      var slash, space := Find(c, '/'), Find(c, ' ');
      if space < slash {
        ReadsLetters(c[..space]);
      } else {
        assert |c[slash + 1..]| < |c|;
      }
    }
  }
}
