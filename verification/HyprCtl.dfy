/** The control socket's request layer: flag prefixes, command choice, and batches that are split
    at `;` outside of brackets and dispatched recursively. */
module HyprCtl {
  import opened Text

  const BATCH := "[[BATCH]]"
  const DELIMITER := "\n\n\n"
  const UNKNOWN := "unknown request"

  // ----- flags -------------------------------------------------------------------------------

  datatype Params = Params(json: bool, reloadAll: bool, all: bool, config: bool)

  const NO_PARAMS := Params(false, false, false, false)

  function WithChar(p: Params, c: char): Params {
    if c == 'j' then p.(json := true)
    else if c == 'r' then p.(reloadAll := true)
    else if c == 'a' then p.(all := true)
    else if c == 'c' then p.(config := true)
    else p
  }

  function WithChars(p: Params, s: string): Params
    decreases |s|
  {
    if s == [] then p else WithChar(WithChars(p, s[..|s| - 1]), s[|s| - 1])
  }

  /** The flags in front of a request and the request without them.  A request without a slash,
      or with a blank before the first slash, keeps its text -- but the characters up to that
      blank still count as flags. */
  function ParseFlags(request: string): (r: (Params, string))
    ensures |r.1| <= |request|
  {
    if BATCH <= request || '/' !in request then (NO_PARAMS, request)
    else
      var slash, space := Find(request, '/'), Find(request, ' ');
      if space < slash then (WithChars(NO_PARAMS, request[..space]), request)
      else (WithChars(NO_PARAMS, request[..slash]), request[slash + 1..])
  }

  method ReadFlags(request: string) returns (p: Params, rest: string)
    ensures (p, rest) == ParseFlags(request)
  {
    p, rest := NO_PARAMS, request;
    if !(BATCH <= request) && '/' in request {
      var sep := 0;
      while sep < |request| && request[sep] != '/' && request[sep] != ' '
        invariant sep <= |request|
        invariant p == WithChars(NO_PARAMS, request[..sep])
        invariant forall j :: 0 <= j < sep ==> request[j] != '/' && request[j] != ' '
      {
        assert request[..sep + 1][..sep] == request[..sep];
        p := WithChar(p, request[sep]);
        sep := sep + 1;
      }
      assert sep == if request[sep] == ' ' then Find(request, ' ') else Find(request, '/');
      if request[sep] == ' ' {
        sep := |request|;
      }
      if sep < |request| {
        rest := request[sep + 1..];
      }
    }
  }

  // ----- splitting a batch ---------------------------------------------------------------------

  /** Where the scan stands: the start of the current command and the bracket depth; `emit` tells
      that a command has just ended. */
  datatype Scan = Scan(idx: nat, depth: int, emit: bool)

  function Next(s: string, i: nat, idx: nat, depth: int): (r: Scan)
    requires idx <= i <= |s|
    ensures r.idx <= i + 1
  {
    var ch := if i < |s| then s[i] else ';';
    if ch == '[' then Scan(idx, depth + 1, false)
    else if ch == ']' then Scan(idx, depth - 1, false)
    else if ch == ';' && depth == 0 then Scan(i + 1, depth, idx < i)
    else Scan(idx, depth, false)
  }

  /** The commands of a batch: the non-empty texts between semicolons at bracket depth zero, with
      a semicolon added at the end.  `idx` is where the current command began. */
  function Pieces(s: string, i: nat, idx: nat, depth: int): seq<string>
    requires idx <= i <= |s| + 1
    decreases |s| + 1 - i
  {
    if i > |s| then []
    else
      var n := Next(s, i, idx, depth);
      var rest := Pieces(s, i + 1, n.idx, n.depth);
      if n.emit then [s[idx..i]] + rest else rest
  }

  /** One step of the scan, when the pieces still to come are pieces[k..]. */
  lemma Advance(s: string, i: nat, idx: nat, depth: int, pieces: seq<string>, k: nat)
    requires idx <= i <= |s| && k <= |pieces| && Pieces(s, i, idx, depth) == pieces[k..]
    ensures var n := Next(s, i, idx, depth);
            if n.emit then
              k < |pieces| && pieces[k] == s[idx..i] && Pieces(s, i + 1, n.idx, n.depth) == pieces[k + 1..]
            else Pieces(s, i + 1, n.idx, n.depth) == pieces[k..]
  {
    var n := Next(s, i, idx, depth);
    if n.emit {
      var rest := Pieces(s, i + 1, n.idx, n.depth);
      assert pieces[k..] == [s[idx..i]] + rest;
      assert pieces[k + 1..] == pieces[k..][1..] == rest;
    }
  }

  function Split(s: string): (ps: seq<string>)
    ensures forall j :: 0 <= j < |ps| ==> |ps[j]| <= |s|
  {
    PiecesAreShort(s, 0, 0, 0);
    Pieces(s, 0, 0, 0)
  }

  lemma {:induction false} PiecesAreShort(s: string, i: nat, idx: nat, depth: int)
    requires idx <= i <= |s| + 1
    ensures forall j :: 0 <= j < |Pieces(s, i, idx, depth)| ==> |Pieces(s, i, idx, depth)[j]| <= |s|
    decreases |s| + 1 - i
  {
    if i <= |s| {
      var n := Next(s, i, idx, depth);
      PiecesAreShort(s, i + 1, n.idx, n.depth);
    }
  }

  // ----- running requests -----------------------------------------------------------------------

  datatype Command = Command(name: string, exact: bool)

  /** One execution of a command's handler. */
  datatype Call = Call(command: Command, json: bool, all: bool, config: bool, request: string)

  /** What running a request does: its reply, the handlers executed in order, the number of full
      reloads, and the request parameters left behind. */
  datatype Outcome = Outcome(reply: string, calls: seq<Call>, reloads: nat, all: bool, config: bool)

  type Handlers = Call -> string

  function FindExact(cmds: seq<Command>, request: string): Option<Command> {
    if cmds == [] then None
    else if cmds[0].exact && cmds[0].name == request then Some(cmds[0])
    else FindExact(cmds[1..], request)
  }

  function FindPrefix(cmds: seq<Command>, request: string): (r: Option<Command>)
    ensures r.Some? ==> r.value.name <= request
  {
    if cmds == [] then None
    else if !cmds[0].exact && cmds[0].name <= request then Some(cmds[0])
    else FindPrefix(cmds[1..], request)
  }

  function Leaf(exec: Handlers, c: Command, p: Params, request: string): Outcome {
    var call := Call(c, p.json, p.all, p.config, request);
    Outcome(exec(call), [call], 0, p.all, p.config)
  }

  function Nothing(p: Params): Outcome {
    Outcome("", [], 0, p.all, p.config)
  }

  /** First a, then b; the reply is b's. */
  function Then(a: Outcome, b: Outcome): Outcome {
    Outcome(b.reply, a.calls + b.calls, a.reloads + b.reloads, b.all, b.config)
  }

  /** First a, then b, both replies kept and the delimiter behind them. */
  function Append(a: Outcome, b: Outcome): Outcome {
    Then(a, b).(reply := a.reply + b.reply + DELIMITER)
  }

  function Finish(p: Params, o: Outcome): (r: Outcome)
    ensures r.reply != ""
  {
    if o.reply == "" then o.(reply := UNKNOWN)
    else o.(reloads := o.reloads + if p.reloadAll then 1 else 0)
  }

  function RunExact(cmds: seq<Command>, exec: Handlers, p: Params, body: string): Outcome {
    var c := FindExact(cmds, body);
    if c.Some? then Leaf(exec, c.value, p, body) else Nothing(p)
  }

  /** getReply */
  function Run(cmds: seq<Command>, exec: Handlers, request: string): (o: Outcome)
    ensures o.reply != ""
    decreases |request|, 1, 2
  {
    var (p, body) := ParseFlags(request);
    RunBody(cmds, exec, p, body)
  }

  /** ... once the flags are read. */
  function RunBody(cmds: seq<Command>, exec: Handlers, p: Params, body: string): (o: Outcome)
    ensures o.reply != ""
    decreases |body|, 1, 1
  {
    var exact := RunExact(cmds, exec, p, body);
    Finish(p, if exact.reply != "" then exact else Then(exact, RunInexact(cmds, exec, p, body)))
  }

  /** The second half of getReply: the first command whose name the request starts with. */
  function RunInexact(cmds: seq<Command>, exec: Handlers, p: Params, body: string): Outcome
    decreases |body|, 1, 0
  {
    var c := FindPrefix(cmds, body);
    if c.None? then Nothing(p)
    else if c.value.name == BATCH then RunBatch(cmds, exec, p, body)
    else Leaf(exec, c.value, p, body)
  }

  /** dispatchBatch */
  function RunBatch(cmds: seq<Command>, exec: Handlers, p: Params, body: string): Outcome
    requires |body| >= 9
    decreases |body|, 0, 0
  {
    var commands := body[9..];
    var o := RunAll(cmds, exec, Split(commands), |commands|, p);
    o.(reply := DropDelimiter(o.reply))
  }

  function DropDelimiter(reply: string): string {
    if |reply| < |DELIMITER| then "" else reply[..|reply| - |DELIMITER|]
  }

  /** The commands of a batch one after another, each reply followed by the delimiter. */
  function RunAll(cmds: seq<Command>, exec: Handlers, pieces: seq<string>, limit: nat, p: Params): Outcome
    requires forall j :: 0 <= j < |pieces| ==> |pieces[j]| <= limit
    decreases limit, 2, |pieces|
  {
    if pieces == [] then Nothing(p)
    else
      var n := |pieces| - 1;
      Append(RunAll(cmds, exec, pieces[..n], limit, p), Run(cmds, exec, Trim(pieces[n])))
  }

  lemma RunAllNext(cmds: seq<Command>, exec: Handlers, pieces: seq<string>, k: nat, limit: nat, p: Params)
    requires k < |pieces| && forall j :: 0 <= j < |pieces| ==> |pieces[j]| <= limit
    ensures RunAll(cmds, exec, pieces[..k + 1], limit, p) ==
            Append(RunAll(cmds, exec, pieces[..k], limit, p), Run(cmds, exec, Trim(pieces[k])))
  {
    assert pieces[..k + 1][..k] == pieces[..k];
  }

  // ----- the object ------------------------------------------------------------------------------

  /** What the object holds: its commands, the calls and reloads made so far, the current request
      parameters. */
  datatype State = State(commands: seq<Command>, calls: seq<Call>, reloads: nat, all: bool, config: bool)

  function After(v: State, o: Outcome): State {
    State(v.commands, v.calls + o.calls, v.reloads + o.reloads, o.all, o.config)
  }

  lemma AfterThen(v: State, a: Outcome, b: Outcome)
    ensures After(After(v, a), b) == After(v, Then(a, b)) == After(v, Append(a, b))
  {
  }

  class CHyprCtl {
    const exec: Handlers
    var commands: seq<Command>
    var all: bool
    var config: bool
    ghost var calls: seq<Call>
    ghost var reloads: nat

    constructor (exec: Handlers, commands: seq<Command>)
      ensures this.exec == exec && View() == State(commands, [], 0, false, false)
    {
      this.exec := exec;
      this.commands := commands;
      all, config, calls, reloads := false, false, [], 0;
    }

    ghost function View(): State
      reads this
    {
      State(commands, calls, reloads, all, config)
    }

    method Execute(c: Command, p: Params, request: string) returns (reply: string)
      requires all == p.all && config == p.config
      modifies this
      ensures reply == Leaf(exec, c, p, request).reply && View() == After(old(View()), Leaf(exec, c, p, request))
    {
      var call := Call(c, p.json, all, config, request);
      calls := calls + [call];
      reply := exec(call);
    }

    method GetReply(request: string) returns (reply: string)
      modifies this
      ensures reply == Run(old(commands), exec, request).reply
      ensures View() == After(old(View()), Run(old(commands), exec, request))
      decreases |request|, 1, 1
    {
      hide ParseFlags, RunInexact;
      var p, body := ReadFlags(request);
      all, config := p.all, p.config;
      ghost var v := View();
      reply := TryExact(p, body);
      ghost var o := RunExact(old(commands), exec, p, body);
      if reply == "" {
        ghost var o' := RunInexact(old(commands), exec, p, body);
        reply := TryInexact(p, body);
        AfterThen(v, o, o');
        o := Then(o, o');
      }
      assert View() == After(v, o) && reply == o.reply;
      assert Run(old(commands), exec, request) == Finish(p, o);
      if reply == "" {
        return UNKNOWN;
      }
      if p.reloadAll {
        reloads := reloads + 1;
      }
    }

    method TryExact(p: Params, body: string) returns (reply: string)
      requires all == p.all && config == p.config
      modifies this
      ensures reply == RunExact(old(commands), exec, p, body).reply
      ensures View() == After(old(View()), RunExact(old(commands), exec, p, body))
    {
      reply := "";
      var c := FindExact(commands, body);
      if c.Some? {
        reply := Execute(c.value, p, body);
      }
    }

    method TryInexact(p: Params, body: string) returns (reply: string)
      requires all == p.all && config == p.config
      modifies this
      ensures reply == RunInexact(old(commands), exec, p, body).reply
      ensures View() == After(old(View()), RunInexact(old(commands), exec, p, body))
      decreases |body|, 1, 0
    {
      reply := "";
      var c := FindPrefix(commands, body);
      if c.Some? {
        if c.value.name == BATCH {
          reply := DispatchBatch(p, body);
        } else {
          reply := Execute(c.value, p, body);
        }
      }
    }

    method DispatchBatch(p: Params, request: string) returns (reply: string)
      requires |request| >= 9 && all == p.all && config == p.config
      modifies this
      ensures reply == RunBatch(old(commands), exec, p, request).reply
      ensures View() == After(old(View()), RunBatch(old(commands), exec, p, request))
      decreases |request|, 0, 0
    {
      ghost var o := RunAll(commands, exec, Split(request[9..]), |request[9..]|, p);
      assert RunBatch(commands, exec, p, request) == o.(reply := DropDelimiter(o.reply));
      reply := DispatchPieces(p, request[9..], Split(request[9..]));
      reply := DropDelimiter(reply);
    }

    /** The loop over the characters of a batch. */
    method DispatchPieces(p: Params, s: string, ghost pieces: seq<string>) returns (reply: string)
      requires all == p.all && config == p.config && pieces == Split(s)
      modifies this
      ensures var o := RunAll(old(commands), exec, pieces, |s|, p);
              reply == o.reply && View() == After(old(View()), o)
      decreases |s|, 4, 0
    {
      hide Run;
      reply := "";
      var depth, idx: nat := 0, 0;
      ghost var k: nat, v, cmds := 0, View(), commands;
      for i := 0 to |s| + 1
        invariant idx <= i && k <= |pieces|
        invariant Pieces(s, i, idx, depth) == pieces[k..]
        invariant Done(v, cmds, p, s, pieces, k, reply)
      {
        reply, idx, depth, k := ScanChar(p, s, i, idx, depth, reply, pieces, k, v, cmds);
      }
      assert pieces[..k] == pieces;
    }

    /** The first k pieces have been run, and nothing else. */
    ghost predicate Done(v: State, cmds: seq<Command>, p: Params, s: string, pieces: seq<string>, k: nat, reply: string)
      requires k <= |pieces| && forall j :: 0 <= j < |pieces| ==> |pieces[j]| <= |s|
      reads this
    {
      var o := RunAll(cmds, exec, pieces[..k], |s|, p);
      v.commands == cmds && reply == o.reply && View() == After(v, o)
    }

    method ScanChar(p: Params, s: string, i: nat, idx0: nat, depth0: int, reply0: string,
                    ghost pieces: seq<string>, ghost k0: nat, ghost v: State, ghost cmds: seq<Command>)
      returns (reply: string, idx: nat, depth: int, ghost k: nat)
      requires idx0 <= i <= |s| && k0 <= |pieces| && (forall j :: 0 <= j < |pieces| ==> |pieces[j]| <= |s|)
      requires Pieces(s, i, idx0, depth0) == pieces[k0..] && Done(v, cmds, p, s, pieces, k0, reply0)
      modifies this
      ensures idx <= i + 1 && k <= |pieces|
      ensures Pieces(s, i + 1, idx, depth) == pieces[k..] && Done(v, cmds, p, s, pieces, k, reply)
      decreases |s|, 3, 0
    {
      Advance(s, i, idx0, depth0, pieces, k0);
      reply, idx, depth, k := reply0, idx0, depth0, k0;
      var ch := if i < |s| then s[i] else ';';
      var emit := false;
      if ch == '[' {
        depth := depth + 1;
      } else if ch == ']' {
        depth := depth - 1;
      } else if ch == ';' && depth == 0 {
        emit := idx < i;
        idx := i + 1;
      }
      assert Scan(idx, depth, emit) == Next(s, i, idx0, depth0);
      if emit {
        var r := DispatchOne(p, s, s[idx0..i], reply0, pieces, k0, v, cmds);
        reply, k := reply + r + DELIMITER, k + 1;
      }
    }

    method DispatchOne(p: Params, s: string, piece: string, reply0: string,
                       ghost pieces: seq<string>, ghost k: nat, ghost v: State, ghost cmds: seq<Command>)
      returns (reply: string)
      requires k < |pieces| && piece == pieces[k] && (forall j :: 0 <= j < |pieces| ==> |pieces[j]| <= |s|)
      requires Done(v, cmds, p, s, pieces, k, reply0)
      modifies this
      ensures Done(v, cmds, p, s, pieces, k + 1, reply0 + reply + DELIMITER)
      decreases |s|, 2, 0
    {
      ghost var o, one := RunAll(cmds, exec, pieces[..k], |s|, p), Run(cmds, exec, Trim(piece));
      RunAllNext(cmds, exec, pieces, k, |s|, p);
      AfterThen(v, o, one);
      reply := GetReply(Trim(piece));
      assert View() == After(v, Append(o, one));
    }
  }
}
