/** The `r+k`, `r-k` and `r~n` branches of getWorkspaceIDNameFromString.

    `r~n` enumerates: first the named workspaces of the monitor (negative ids, ascending),
    then the valid positive ids.  `r+k` and `r-k` never enumerate: they guess active + k or
    active - k, count how many forbidden ids the guess jumped over and walk on by that many
    valid ids.  The methods below are that code; `Listing` is the enumeration it is
    measured against. */
module RelativeWorkspace {
  import opened Ids

  const INT32_MAX: int := 0x7FFF_FFFF
  const TWO_TO_64: int := 0x1_0000_0000_0000_0000

  /** Conversion of an int64_t to size_t, and back. */
  function ToSize(x: int): nat {
    x % TWO_TO_64
  }

  function FromSize(x: nat): int {
    var y := x % TWO_TO_64;
    if y < TWO_TO_64 / 2 then y else y - TWO_TO_64
  }

  /** Named workspaces of the focused monitor: ascending, all negative. */
  predicate NamedList(named: seq<int>) {
    Ascending(named) && (forall i :: 0 <= i < |named| ==> named[i] < 0) && |named| < INT32_MAX
  }

  // ----- gathering the state ---------------------------------------------------------------

  /** An open workspace: its id, whether it is special, the monitor it is on. */
  datatype Workspace = Workspace(id: int, special: bool, monitor: int)

  /** A workspace rule; `monitor` is the monitor its selector resolves to, -1 for none. */
  datatype Rule = Rule(id: int, enabled: bool, monitor: int)

  ghost predicate Unreachable(workspaces: seq<Workspace>, rules: seq<Rule>, focused: int, id: int) {
    || (exists ws | ws in workspaces :: ws.id == id && (ws.special || ws.monitor != focused))
    || (exists r | r in rules :: r.id == id && r.enabled && r.monitor != -1 && r.monitor != focused)
  }

  ghost predicate NamedHere(workspaces: seq<Workspace>, focused: int, id: int) {
    exists ws | ws in workspaces :: ws.id == id && !ws.special && ws.monitor == focused && id < 0
  }

  /** First index whose element exceeds the key (std::set::upper_bound). */
  method UpperBound(bad: IdSet, key: int) returns (i: nat)
    ensures i <= |bad|
    ensures forall j :: 0 <= j < i ==> bad[j] <= key
    ensures forall j :: i <= j < |bad| ==> key < bad[j]
  {
    i := 0;
    while i < |bad| && bad[i] <= key
      invariant i <= |bad|
      invariant forall j :: 0 <= j < i ==> bad[j] <= key
    {
      i := i + 1;
    }
  }

  method InsertOrdered(s: IdSet, id: int) returns (t: IdSet)
    ensures forall x :: x in t <==> x in s || x == id
    ensures |t| <= |s| + 1
  {
    if id in s {
      return s;
    }
    var i := UpperBound(s, id);
    t := s[..i] + [id] + s[i..];
    assert s == s[..i] + s[i..];
  }

  /** The forbidden ids and the sorted named workspaces of the focused monitor. */
  method Collect(workspaces: seq<Workspace>, rules: seq<Rule>, focused: int) returns (bad: IdSet, named: IdSet)
    requires |workspaces| < INT32_MAX
    ensures forall id :: id in bad <==> Unreachable(workspaces, rules, focused, id)
    ensures forall id :: id in named <==> NamedHere(workspaces, focused, id)
    ensures NamedList(named)
  {
    bad := [];
    named := [];
    for i := 0 to |workspaces|
      invariant forall id :: id in bad <==> Unreachable(workspaces[..i], [], focused, id)
      invariant forall id :: id in named <==> NamedHere(workspaces[..i], focused, id)
      invariant |named| <= i
    {
      var ws := workspaces[i];
      assert workspaces[..i + 1] == workspaces[..i] + [ws];
      if ws.special || ws.monitor != focused {
        bad := InsertOrdered(bad, ws.id);
      } else if ws.id < 0 {
        named := InsertOrdered(named, ws.id);
      }
    }
    assert workspaces[..|workspaces|] == workspaces;
    for i := 0 to |rules|
      invariant forall id :: id in bad <==> Unreachable(workspaces, rules[..i], focused, id)
    {
      var r := rules[i];
      assert rules[..i + 1] == rules[..i] + [r];
      if r.enabled && r.monitor != -1 && r.monitor != focused {
        bad := InsertOrdered(bad, r.id);
      }
    }
    assert rules[..|rules|] == rules;
    forall i | 0 <= i < |named|
      ensures named[i] < 0
    {
      assert named[i] in named;
    }
  }

  // ----- the enumeration -----------------------------------------------------------------

  /** The n-th place (counted from 1) in the order "named workspaces, then valid positive
      ids"; 0 when n is not a place. */
  ghost function Listing(bad: IdSet, named: seq<int>, n: int): int {
    if n < 1 then 0
    else if n <= |named| then named[n - 1]
    else NthAbove(bad, 0, n - |named|)
  }

  /** r~n */
  method ResolveAbsolute(bad: IdSet, named: seq<int>, n: int) returns (id: int)
    requires NamedList(named)
    requires -INT32_MAX - 1 <= n <= INT32_MAX
    ensures id == Listing(bad, named, n)
  {
    var remains := n - 1;
    if ToSize(remains) < |named| {
      id := named[remains];
    } else {
      remains := remains - |named|;
      id := 0;
      ghost var want := NthAbove(bad, 0, if remains < 0 then 0 else remains + 1);
      while remains >= 0
        invariant remains >= -1 ==> NthAbove(bad, id, remains + 1) == want
        invariant remains < -1 ==> id == 0 && n < 1
        decreases remains + 1, Max(0, Top(bad) - id)
      {
        id := id + 1;
        if id !in bad {
          remains := remains - 1;
        } else {
          TopBounds(bad, id);
        }
      }
    }
  }

  // ----- the pieces of r+k and r-k ---------------------------------------------------------

  /** How bad the prediction was: forbidden ids from begin to end, by iterating the set. */
  method CountForbidden(bad: IdSet, begin: int, end: int) returns (n: nat)
    ensures n == BadIn(bad, begin, end)
  {
    var it := UpperBound(bad, begin - 1);
    ghost var seen := begin - 1;
    BadNone(bad, begin, seen);
    n := 0;
    while it < |bad| && bad[it] <= end
      invariant it <= |bad|
      invariant begin - 1 <= seen && (seen <= end || seen == begin - 1)
      invariant n == BadIn(bad, begin, seen)
      invariant forall j :: 0 <= j < it ==> bad[j] <= seen
      invariant forall j :: it <= j < |bad| ==> seen < bad[j]
    {
      var id := bad[it];
      BadSplit(bad, begin, seen, id - 1);
      BadNone(bad, seen + 1, id - 1);
      assert BadIn(bad, begin, id) == BadIn(bad, begin, id - 1) + 1;
      seen := id;
      n := n + 1;
      it := it + 1;
    }
    if seen <= end {
      BadSplit(bad, begin, seen, end);
      BadNone(bad, seen + 1, end);
    }
  }

  /** What walking up by `need` valid ids from `start` reaches; the walk never visits
      INT32_MAX or anything above it. */
  ghost function UpFrom(bad: IdSet, start: int, need: nat): int {
    if need == 0 then start
    else
      var goal := NthAbove(bad, start, need);
      if goal < INT32_MAX then goal else Max(start, INT32_MAX - 1)
  }

  method WalkUp(bad: IdSet, start: int, need: nat) returns (final: int)
    ensures final == UpFrom(bad, start, need)
  {
    final := start;
    var rest: nat := need;
    var cur := start + 1;
    while cur < INT32_MAX && rest > 0
      invariant cur == final + 1 && rest <= need
      invariant final == start || start < final < INT32_MAX
      invariant NthAbove(bad, final, rest) == NthAbove(bad, start, need)
      decreases INT32_MAX - cur
    {
      if cur !in bad {
        rest := rest - 1;
      } else {
        TopBounds(bad, cur);
      }
      final := cur;
      cur := cur + 1;
    }
  }

  /** Walking down stops at id 1 even when fewer than `need` valid ids were met. */
  method WalkDown(bad: IdSet, start: int, need: nat) returns (final: int, rest: nat)
    ensures need <= ValidIn(bad, 1, start - 1) ==> rest == 0 && final == NthBelow(bad, start, need)
    ensures need > ValidIn(bad, 1, start - 1) ==>
              rest == need - ValidIn(bad, 1, start - 1) && final == if start > 1 then 1 else start
  {
    final, rest := start, need;
    var cur := start - 1;
    while cur > 0 && rest > 0
      invariant cur == final - 1
      invariant 0 < start ==> 0 < final
      invariant rest > ValidIn(bad, 1, cur) <==> need > ValidIn(bad, 1, start - 1)
      invariant rest > ValidIn(bad, 1, cur) ==>
                  rest - ValidIn(bad, 1, cur) == need - ValidIn(bad, 1, start - 1)
      invariant rest <= ValidIn(bad, 1, cur) ==>
                  NthBelow(bad, final, rest) == NthBelow(bad, start, need)
      invariant start <= 1 ==> final == start
      decreases cur
    {
      if cur !in bad {
        rest := rest - 1;
      }
      final := cur;
      cur := cur - 1;
    }
  }

  // ----- r+k and r-k ------------------------------------------------------------------------

  /** Index of an id in the list of named workspaces, -1 when it is not there. */
  function IndexOf(named: seq<int>, id: int): (i: int)
    ensures -1 <= i < |named|
    ensures i == -1 <==> id !in named
    ensures i >= 0 ==> named[i] == id
  {
    if named == [] then -1
    else if named[|named| - 1] == id then |named| - 1
    else IndexOf(named[..|named| - 1], id)
  }

  /** Where the fallback of the backward walk lands, `rest` steps short. */
  ghost function NamedFallback(named: seq<int>, rest: nat): int
    requires named != []
  {
    if 1 <= rest <= |named| then named[|named| - rest] else named[|named| - 1]
  }

  /** Where the backward walk of `need` valid ids from the prediction `guess` ends. */
  ghost function Back(bad: IdSet, named: seq<int>, guess: nat, need: nat): int {
    var below := ValidIn(bad, 1, guess - 1);
    var rest := if need <= below then 0 else need - below;
    var final := if need <= below then NthBelow(bad, guess, need) else if guess > 1 then 1 else guess;
    if 0 < final && final !in bad then final
    else if named != [] then NamedFallback(named, rest)
    else UpFrom(bad, guess, 1)
  }

  /** The signed offset written after the `r`. */
  function Offset(plus: bool, k: int): int {
    if plus then k else -k
  }

  /** The landing place of r+k (plus) and r-k (not plus), in terms of the plain walks. */
  ghost function Relative(bad: IdSet, named: seq<int>, active: int, plus: bool, k: nat): int {
    var offset := Offset(plus, k);
    var guess := Max(active + offset, 0);
    var missed := if plus then BadIn(bad, active + 1, guess) else BadIn(bad, guess, active);
    if active < 0 then
      var item := IndexOf(named, active) + offset;
      if 0 <= item < |named| then
        if plus then named[item] else named[|named| - 1]
      else
        var start := item - (|named| - 1);
        UpFrom(bad, start, missed + BadIn(bad, 1, start))
    else if plus then UpFrom(bad, guess, missed)
    else Back(bad, named, guess, missed)
  }

  method FindNamed(named: seq<int>, id: int) returns (i: nat)
    requires Ascending(named) && |named| < INT32_MAX
    ensures i == ToSize(IndexOf(named, id))
  {
    var j := 0;
    while j < |named|
      invariant j <= |named|
      invariant forall m :: 0 <= m < j ==> named[m] != id
    {
      if named[j] == id {
        assert IndexOf(named, id) == j;
        return j;
      }
      j := j + 1;
    }
    return TWO_TO_64 - 1;
  }

  /** size_t arithmetic on small numbers: negative values become huge, and come back. */
  lemma SizeWraps(x: int)
    requires -TWO_TO_64 / 4 <= x < TWO_TO_64 / 4
    ensures ToSize(x) == if x < 0 then x + TWO_TO_64 else x
    ensures FromSize(ToSize(x)) == x
  {
  }

  lemma SizeAdds(x: int, y: int)
    requires -TWO_TO_64 / 4 <= x < TWO_TO_64 / 4 && -TWO_TO_64 / 4 <= x + y < TWO_TO_64 / 4
    ensures ToSize(ToSize(x) + y) == ToSize(x + y)
  {
  }

  /** A named active workspace: either the offset stays inside the named list, or it crosses
      the seam and continues like r+diff at an imaginary workspace 0. */
  method LeaveNamed(bad: IdSet, named: seq<int>, active: int, remains: int, missed: nat)
    returns (inside: bool, predicted: int, remaining: nat)
    requires NamedList(named) && -INT32_MAX - 1 <= remains <= INT32_MAX + 1
    ensures var item := IndexOf(named, active) + remains;
            inside == (0 <= item < |named|) &&
            if inside then predicted == named[item] && remaining == 0
            else predicted == item - (|named| - 1) && remaining == missed + BadIn(bad, 1, predicted)
  {
    hide ToSize, FromSize;
    var found := FindNamed(named, active);
    var item := ToSize(found + remains);
    SizeAdds(IndexOf(named, active), remains);
    SizeWraps(IndexOf(named, active) + remains);
    if item >= |named| {
      var diff := ToSize(item - (|named| - 1));
      SizeAdds(IndexOf(named, active) + remains, 1 - |named|);
      SizeWraps(IndexOf(named, active) + remains - (|named| - 1));
      predicted := FromSize(diff);
      var more := CountForbidden(bad, 1, predicted);
      return false, predicted, missed + more;
    } else {
      return true, named[item], 0;
    }
  }

  /** The backward search, with its two fallbacks. */
  method SearchBack(bad: IdSet, named: seq<int>, guess: int, need: nat) returns (id: int)
    requires NamedList(named) && need <= INT32_MAX + 2
    ensures 0 <= guess ==> id == Back(bad, named, guess, need)
    ensures guess < 0 && need == 0 && named != [] ==> id == named[|named| - 1]
  {
    var rest;
    id, rest := WalkDown(bad, guess, need);
    if id <= 0 || id in bad {
      if named != [] {
        SizeWraps(|named| - rest);
        var place := ToSize(|named| - rest);
        place := if place > |named| - 1 then |named| - 1 else place;
        id := named[place];
      } else {
        id := WalkUp(bad, guess, 1);
      }
    }
  }

  /** r+k for plus, r-k otherwise. */
  method ResolveRelative(bad: IdSet, named: seq<int>, active: int, plus: bool, k: nat) returns (id: int)
    requires NamedList(named) && k <= INT32_MAX + 1
    ensures id == Relative(bad, named, active, plus, k)
  {
    var remains := Offset(plus, k);
    var predicted := Max(active + remains, 0);
    var begin := if plus then active + 1 else predicted;
    var end := if plus then predicted else active;
    var remaining := CountForbidden(bad, begin, end);
    var down := !plus;
    if active < 0 {
      var inside;
      inside, predicted, remaining := LeaveNamed(bad, named, active, remains, remaining);
      down := down && inside;
    }
    if down {
      id := SearchBack(bad, named, predicted, remaining);
    } else {
      id := WalkUp(bad, predicted, remaining);
    }
  }
}
