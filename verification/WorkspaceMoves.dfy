/** The cyclic `m`/`e` moves and the `empty` search of getWorkspaceIDNameFromString. */
module WorkspaceMoves {
  import opened Ids
  import opened RelativeWorkspace

  // ----- m+k, m-k, e+k, e-k ------------------------------------------------------------------

  // Remainders, through the one fact that a remainder is unique.

  lemma AtLeastOnce(a: int, b: nat)
    requires 1 <= a
    ensures b <= a * b
  {
    assert a * b == (a - 1) * b + b;
  }

  lemma {:induction false} RemainderUnique(x: int, q: int, r: nat, size: nat)
    requires r < size && x == q * size + r
    ensures x % size == r
  {
    var q', r' := x / size, x % size;
    assert x == q' * size + r';
    if q' < q {
      AtLeastOnce(q - q', size);
    } else if q < q' {
      AtLeastOnce(q' - q, size);
    }
  }

  lemma {:induction false} AddMultiple(x: int, q: int, size: nat)
    requires 0 < size
    ensures (x + q * size) % size == x % size
  {
    var q' := x / size;
    assert x + q * size == (q' + q) * size + x % size;
    RemainderUnique(x + q * size, q' + q, x % size, size);
  }

  /** Congruence: differing by a multiple of size. */
  ghost predicate Congruent(x: int, y: int, size: nat) {
    exists q: int :: x == y + Times(q, size)
  }

  function Times(q: int, size: nat): int {
    q * size
  }

  lemma {:induction false} CongruentMod(x: int, y: int, size: nat)
    requires 0 < size
    ensures Congruent(x, y, size) <==> x % size == y % size
  {
    if Congruent(x, y, size) {
      var q: int :| x == y + Times(q, size);
      AddMultiple(y, q, size);
    }
    if x % size == y % size {
      var q := x / size - y / size;
      assert q * size == (x / size) * size - (y / size) * size;
      assert x == y + Times(q, size);
    }
  }

  lemma CongruentToMod(x: int, size: nat)
    requires 0 < size
    ensures Congruent(x % size, x, size)
  {
    assert x % size == x + Times(-(x / size), size);
  }

  lemma CongruentAdd(x: int, y: int, size: nat, d: int)
    requires Congruent(x, y, size)
    ensures Congruent(x + d, y + d, size) && Congruent(d + x, d + y, size)
  {
    var q: int :| x == y + Times(q, size);
    assert x + d == y + d + Times(q, size);
  }

  lemma {:induction false} ModAdd(a: int, b: int, size: nat)
    requires 0 < size
    ensures (a + b % size) % size == (a + b) % size
    ensures (a % size + b) % size == (a + b) % size
  {
    CongruentToMod(b, size);
    CongruentAdd(b % size, b, size, a);
    CongruentMod(a + b % size, a + b, size);
    CongruentToMod(a, size);
    CongruentAdd(a % size, a, size, b);
    CongruentMod(a % size + b, a + b, size);
  }

  /** The remainder of a negative offset, taken on its absolute value and negated. */
  lemma NegatedRemainder(k: int, size: nat)
    requires 0 < size
    ensures Congruent(-((-k) % size), k, size)
  {
    assert -((-k) % size) == k + Times((-k) / size, size);
  }

  /** Conversion of a size_t to a 32-bit int. */
  function CutToInt(x: nat): int {
    var y := x % 0x1_0000_0000;
    if y < 0x8000_0000 then y else y - 0x1_0000_0000
  }

  /** Negating a small number in size_t and cutting the result to int negates it. */
  lemma NegatedInSize(m: nat)
    requires m < INT32_MAX
    ensures CutToInt(ToSize(0 - m)) == 0 - m && CutToInt(ToSize(m)) == m
  {
    SizeWraps(0 - m);
    SizeWraps(m);
  }

  /** The offset reduced by the number of workspaces: int arithmetic done in size_t, negated
      in size_t, and cut back to int. */
  method ReduceOffset(k: int, size: nat) returns (remains: int)
    requires 0 < size < INT32_MAX && -INT32_MAX <= k <= INT32_MAX
    ensures 0 - size < remains < size && Congruent(remains, k, size)
  {
    if k < 0 {
      SizeWraps(-k);
      var m := ToSize(-k) % size;
      remains := CutToInt(ToSize(0 - m));
      NegatedInSize(m);
      NegatedRemainder(k, size);
    } else {
      SizeWraps(k);
      var m := ToSize(k) % size;
      remains := CutToInt(m);
      NegatedInSize(m);
      CongruentToMod(k, size);
    }
  }

  /** The last correction, in mixed signed and unsigned arithmetic. */
  method Sanitize(item: int, size: nat) returns (i: int)
    requires 0 < size < INT32_MAX && -1 - size < item < 2 * size
    ensures i == item % size
  {
    i := item;
    SizeWraps(item);
    if item >= size {
      i := FromSize(ToSize(item) % size);
      SizeWraps(item % size);
      RemainderUnique(item, 1, item - size, size);
    } else if item < 0 {
      i := FromSize(ToSize(size + ToSize(item)));
      SizeWraps(size + item);
      RemainderUnique(item, -1, item + size, size);
    } else {
      RemainderUnique(item, 0, item, size);
    }
  }

  /** m+k and e+k (negative k for m-k, e-k) on the sorted list of the reachable workspaces. */
  method ResolveCyclic(list: seq<int>, active: int, k: int) returns (id: int)
    requires Ascending(list) && 0 < |list| < INT32_MAX && -INT32_MAX <= k <= INT32_MAX
    ensures id == list[CyclicIndex(list, IndexOf(list, active), k)]
    // in places: k further on, or around the end
    ensures forall i :: 0 <= i < |list| && list[i] == active ==> PlacesOn(list, i, k, id)
    // from a workspace that is not in the list, as if from before its first one
    ensures active !in list && 1 <= k <= |list| ==> id == list[k - 1]
  {
    hide PlacesOn;
    var size := |list|;
    var remains := ReduceOffset(k, size);
    var item := -1;
    for i := 0 to size
      invariant forall m :: 0 <= m < i ==> list[m] != active
    {
      if list[i] == active {
        item := i;
        break;
      }
    }
    assert item == IndexOf(list, active);
    CongruentAdd(remains, k, size, item);
    CongruentMod(item + remains, item + k, size);
    item := Sanitize(item + remains, size);
    id := list[item];
    Arrives(list, active, k, id);
  }

  /** id is k places on from place i, around the end if need be. */
  predicate PlacesOn(list: seq<int>, i: int, k: int, id: int) {
    && (0 <= i + k < |list| ==> id == list[i + k])
    && (|list| <= i + k < 2 * |list| ==> id == list[i + k - |list|])
    && (-|list| <= i + k < 0 ==> id == list[i + k + |list|])
  }

  lemma {:induction false} Arrives(list: seq<int>, active: int, k: int, id: int)
    requires Ascending(list) && list != [] && id == list[CyclicIndex(list, IndexOf(list, active), k)]
    ensures forall i :: 0 <= i < |list| && list[i] == active ==> PlacesOn(list, i, k, id)
    ensures active !in list && 1 <= k <= |list| ==> id == list[k - 1]
  {
    hide CyclicIndex, PlacesOn, IndexOf;
    var j := IndexOf(list, active);
    NearPlaces(list, j, k);
    Placed(list, j, k, id);
    forall i | 0 <= i < |list| && list[i] == active
      ensures i == j
    {
    }
  }

  lemma Placed(list: seq<int>, j: int, k: int, id: int)
    requires list != [] && id == list[CyclicIndex(list, j, k)]
    ensures PlacesOn(list, j, k, id)
  {
    hide CyclicIndex;
    NearPlaces(list, j, k);
  }

  /** k places on around the list. */
  function CyclicIndex(list: seq<int>, item: int, k: int): (j: nat)
    requires list != []
    ensures j < |list|
  {
    (item + k) % |list|
  }

  /** Offsets count places forwards, and those that differ by a multiple of the list's length agree. */
  lemma {:induction false} CyclicPlace(list: seq<int>, item: int, k: int, turns: int)
    requires 0 <= item + k - turns * |list| < |list|
    ensures CyclicIndex(list, item, k) == item + k - turns * |list|
  {
    RemainderUnique(item + k, turns, item + k - turns * |list|, |list|);
  }

  lemma NearPlaces(list: seq<int>, item: int, k: int)
    requires list != []
    ensures 0 <= item + k < |list| ==> CyclicIndex(list, item, k) == item + k
    ensures |list| <= item + k < 2 * |list| ==> CyclicIndex(list, item, k) == item + k - |list|
    ensures -|list| <= item + k < 0 ==> CyclicIndex(list, item, k) == item + k + |list|
  {
    if 0 <= item + k < |list| {
      CyclicPlace(list, item, k, 0);
    } else if |list| <= item + k < 2 * |list| {
      CyclicPlace(list, item, k, 1);
    } else if -|list| <= item + k < 0 {
      CyclicPlace(list, item, k, -1);
    }
  }

  /** The moves form the cyclic group: they add up, and opposite moves cancel. */
  lemma {:induction false} CyclicMovesCompose(list: seq<int>, item: nat, j: int, k: int)
    requires item < |list|
    ensures CyclicIndex(list, CyclicIndex(list, item, j), k) == CyclicIndex(list, item, j + k)
    ensures CyclicIndex(list, CyclicIndex(list, item, k), -k) == item
  {
    ModAdd(item + j, k, |list|);
    ModAdd(item + k, -k, |list|);
    RemainderUnique(item, 0, item, |list|);
  }

  /** |list| single steps visit every workspace, each exactly once. */
  lemma CyclicTour(list: seq<int>, item: nat, target: nat)
    requires item < |list| && target < |list|
    ensures exists j :: 0 <= j < |list| && CyclicIndex(list, item, j) == target
    ensures forall i, j :: 0 <= i < j < |list| ==> CyclicIndex(list, item, i) != CyclicIndex(list, item, j)
  {
    var size := |list|;
    var j := (target - item) % size;
    ModAdd(item, target - item, size);
    RemainderUnique(target, 0, target, size);
    assert CyclicIndex(list, item, j) == target;
    forall i, j | 0 <= i < j < size
      ensures CyclicIndex(list, item, i) != CyclicIndex(list, item, j)
    {
      CyclicMovesCompose(list, item, i, 0 - item);
      CyclicMovesCompose(list, item, j, 0 - item);
      RemainderUnique(i, 0, i, size);
      RemainderUnique(j, 0, j, size);
    }
  }

  /** m~n and e~n: the n-th workspace of the list, clamped to its ends. */
  method ResolveNth(list: seq<int>, n: int) returns (id: int)
    requires Ascending(list) && 0 < |list|
    ensures n <= 1 ==> id == list[0]
    ensures n >= |list| ==> id == list[|list| - 1]
    ensures 1 <= n <= |list| ==> |set x | x in list && x < id| == n - 1 && id in list
  {
    var item := n - 1;
    if item < 0 {
      item := 0;
    } else if item >= |list| {
      item := |list| - 1;
    }
    id := list[item];
    CountSmaller(list, item);
  }

  lemma {:induction false} CountSmaller(list: seq<int>, i: nat)
    requires Ascending(list) && i < |list|
    ensures |set x | x in list && x < list[i]| == i
  {
    if i > 0 {
      CountSmaller(list, i - 1);
      assert (set x | x in list && x < list[i]) == (set x | x in list && x < list[i - 1]) + {list[i - 1]};
    }
  }

  // ----- empty ---------------------------------------------------------------------------------

  const LONG_MAX: int := 0x7FFF_FFFF_FFFF_FFFF

  /** The least id above `start` that is not blocked. */
  ghost predicate LeastFree(blocked: set<int>, start: int, id: int) {
    start < id && id !in blocked && forall j :: start < j < id ==> j in blocked
  }

  /** `empty`: the search over blocked ids, those forbidden (`emptym`) or holding windows.  It
      starts at 0, or at the active workspace for `emptyn`. */
  method ResolveEmpty(forbidden: set<int>, occupied: set<int>, start: int) returns (id: int)
    requires start < LONG_MAX
    ensures var blocked := forbidden + occupied;
            if exists j :: start < j < LONG_MAX && j !in blocked
            then LeastFree(blocked, start, id) && id < LONG_MAX && id <= start + |blocked| + 1
            else id == -1
    ensures start + |forbidden + occupied| + 1 < LONG_MAX ==> LeastFree(forbidden + occupied, start, id)
    // from a named workspace the search starts below zero, and need not end above it
    ensures LeastFree(forbidden + occupied, start, id) ==>
              (0 < id <==> forall j :: start < j <= 0 ==> j in forbidden + occupied)
  {
    ghost var blocked := forbidden + occupied;
    ghost var passed: set<int> := {};
    id := start + 1;
    while id < LONG_MAX
      invariant start < id <= LONG_MAX
      invariant forall j :: j in passed ==> start < j < id
      invariant |passed| == id - start - 1
      invariant passed <= blocked
      invariant forall j :: start < j < id ==> j in blocked
      decreases LONG_MAX - id
    {
      SubsetSize(passed, blocked);
      if id !in forbidden && id !in occupied {
        return;
      }
      passed := passed + {id};
      id := id + 1;
    }
    SubsetSize(passed, blocked);
    return -1;
  }

  lemma {:induction false} SubsetSize<T>(a: set<T>, b: set<T>)
    requires a <= b
    ensures |a| <= |b|
  {
    if a != {} {
      var x :| x in a;
      SubsetSize(a - {x}, b - {x});
    }
  }
}
