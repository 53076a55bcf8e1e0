/** Counting and walking over workspace ids while skipping a finite set of forbidden ones.

    These are the plain, step-by-step notions ("the k-th valid id above a") against which
    the guess-and-correct arithmetic of the compositor is measured. */
module Ids {

  /** The in-order listing of a std::set of workspace ids. */
  type IdSet = s: seq<int> | Ascending(s)

  predicate Ascending(s: seq<int>) {
    forall i, j :: 0 <= i < j < |s| ==> s[i] < s[j]
  }

  function Max(a: int, b: int): int {
    if a < b then b else a
  }

  /** An upper bound for every id of the set; walks upwards stop skipping there. */
  ghost function Top(bad: IdSet): int {
    if bad == [] then 0 else bad[|bad| - 1]
  }

  lemma TopBounds(bad: IdSet, id: int)
    requires id in bad
    ensures id <= Top(bad)
  {
  }

  /** How many of the ids lo, lo+1, ..., hi are forbidden. */
  ghost function BadIn(bad: IdSet, lo: int, hi: int): (n: nat)
    ensures n <= Max(0, hi - lo + 1)
    decreases hi - lo + 1
  {
    if hi < lo then 0 else BadIn(bad, lo, hi - 1) + if hi in bad then 1 else 0
  }

  /** How many of the ids lo, lo+1, ..., hi are valid, that is not forbidden. */
  ghost function ValidIn(bad: IdSet, lo: int, hi: int): nat {
    Max(0, hi - lo + 1) - BadIn(bad, lo, hi)
  }

  /** The k-th valid id above a (a itself for k == 0), found by visiting every id. */
  ghost function NthAbove(bad: IdSet, a: int, k: nat): (x: int)
    ensures k == 0 ==> x == a
    ensures x >= a + k
    decreases k, Max(0, Top(bad) - a)
  {
    if k == 0 then a
    else if a + 1 in bad then TopBounds(bad, a + 1); NthAbove(bad, a + 1, k)
    else NthAbove(bad, a + 1, k - 1)
  }

  /** The k-th valid id below a (a itself for k == 0), found by visiting every positive id. */
  ghost function NthBelow(bad: IdSet, a: int, k: nat): (x: int)
    requires k <= ValidIn(bad, 1, a - 1)
    ensures k == 0 ==> x == a
    ensures k > 0 ==> 0 < x <= a - k
    decreases a
  {
    if k == 0 then a
    else if a - 1 in bad then NthBelow(bad, a - 1, k)
    else NthBelow(bad, a - 1, k - 1)
  }

  // ----- counting ----------------------------------------------------------------------

  lemma {:induction false} BadSplit(bad: IdSet, lo: int, mid: int, hi: int)
    requires lo - 1 <= mid <= hi
    ensures BadIn(bad, lo, hi) == BadIn(bad, lo, mid) + BadIn(bad, mid + 1, hi)
    decreases hi - mid
  {
    if mid < hi {
      BadSplit(bad, lo, mid, hi - 1);
    }
  }

  lemma BadFirst(bad: IdSet, lo: int, hi: int)
    requires lo <= hi
    ensures BadIn(bad, lo, hi) == BadIn(bad, lo + 1, hi) + if lo in bad then 1 else 0
  {
    BadSplit(bad, lo, lo, hi);
    assert BadIn(bad, lo, lo) == BadIn(bad, lo, lo - 1) + if lo in bad then 1 else 0;
  }

  lemma {:induction false} BadNone(bad: IdSet, lo: int, hi: int)
    requires forall id :: lo <= id <= hi ==> id !in bad
    ensures BadIn(bad, lo, hi) == 0
    decreases hi - lo + 1
  {
    if lo <= hi {
      BadNone(bad, lo, hi - 1);
    }
  }

  /** A count of zero really means that no id of the interval is forbidden. */
  lemma {:induction false} BadZero(bad: IdSet, lo: int, hi: int, id: int)
    requires BadIn(bad, lo, hi) == 0 && lo <= id <= hi
    ensures id !in bad
    decreases hi - lo + 1
  {
    if id < hi {
      BadZero(bad, lo, hi - 1, id);
    }
  }

  // ----- the k-th valid id, characterised by counting ------------------------------------

  /** NthAbove is what its name says: it is valid and exactly k valid ids lie in (a, x]. */
  lemma {:induction false} NthAboveCounts(bad: IdSet, a: int, k: nat)
    ensures var x := NthAbove(bad, a, k);
            ValidIn(bad, a + 1, x) == k && (k > 0 ==> x !in bad)
    decreases k, Max(0, Top(bad) - a)
  {
    var x := NthAbove(bad, a, k);
    if k > 0 {
      if a + 1 in bad {
        TopBounds(bad, a + 1);
        NthAboveCounts(bad, a + 1, k);
      } else {
        NthAboveCounts(bad, a + 1, k - 1);
      }
      BadSplit(bad, a + 1, a + 1, x);
      assert BadIn(bad, a + 1, a + 1) == BadIn(bad, a + 1, a) + if a + 1 in bad then 1 else 0;
    }
  }

  /** ... and it is the only such id. */
  lemma {:induction false} NthAboveUnique(bad: IdSet, a: int, k: nat, x: int)
    requires k > 0 && x > a && x !in bad && ValidIn(bad, a + 1, x) == k
    ensures x == NthAbove(bad, a, k)
  {
    var y := NthAbove(bad, a, k);
    NthAboveCounts(bad, a, k);
    if x < y {
      BadSplit(bad, a + 1, x, y - 1);
    } else if y < x {
      BadSplit(bad, a + 1, y, x - 1);
    }
  }

  /** Walking j and then k valid ids is walking j + k of them. */
  lemma {:induction false} NthAboveCompose(bad: IdSet, a: int, j: nat, k: nat)
    ensures NthAbove(bad, NthAbove(bad, a, j), k) == NthAbove(bad, a, j + k)
    decreases j, Max(0, Top(bad) - a)
  {
    if j > 0 {
      if a + 1 in bad {
        TopBounds(bad, a + 1);
        NthAboveCompose(bad, a + 1, j, k);
      } else {
        NthAboveCompose(bad, a + 1, j - 1, k);
      }
    }
  }

  lemma NthAboveStrict(bad: IdSet, a: int, j: nat, k: nat)
    requires j < k
    ensures NthAbove(bad, a, j) < NthAbove(bad, a, k)
  {
    NthAboveCompose(bad, a, j, k - j);
  }

  lemma {:induction false} NthBelowCounts(bad: IdSet, a: int, k: nat)
    requires k <= ValidIn(bad, 1, a - 1)
    ensures var x := NthBelow(bad, a, k);
            ValidIn(bad, x, a - 1) == k && (k > 0 ==> x !in bad)
    decreases a
  {
    var x := NthBelow(bad, a, k);
    if k > 0 {
      if a - 1 in bad {
        NthBelowCounts(bad, a - 1, k);
      } else {
        NthBelowCounts(bad, a - 1, k - 1);
      }
    }
  }

  lemma NthBelowUnique(bad: IdSet, a: int, k: nat, x: int)
    requires k > 0 && 0 < x < a && x !in bad && ValidIn(bad, x, a - 1) == k
    ensures k <= ValidIn(bad, 1, a - 1)
    ensures x == NthBelow(bad, a, k)
  {
    BadSplit(bad, 1, x - 1, a - 1);
    var y := NthBelow(bad, a, k);
    NthBelowCounts(bad, a, k);
    if x < y {
      MoreFurtherDown(bad, x, y, a);
    } else if y < x {
      MoreFurtherDown(bad, y, x, a);
    }
  }

  lemma MoreFurtherDown(bad: IdSet, x: int, y: int, a: int)
    requires x < y < a && x !in bad
    ensures ValidIn(bad, y, a - 1) < ValidIn(bad, x, a - 1)
  {
    BadSplit(bad, x, y - 1, a - 1);
    BadFirst(bad, x, y - 1);
  }

  /** Going up from a valid id and then down by the same count comes back. */
  lemma AboveThenBelow(bad: IdSet, a: int, k: nat)
    requires 0 < a && a !in bad
    ensures var b := NthAbove(bad, a, k);
            k <= ValidIn(bad, 1, b - 1) && NthBelow(bad, b, k) == a
  {
    var b := NthAbove(bad, a, k);
    NthAboveCounts(bad, a, k);
    if k > 0 {
      BadSplit(bad, a, a, b);
      assert BadIn(bad, a, a) == BadIn(bad, a, a - 1) == 0;
      BadSplit(bad, a, b - 1, b);
      NthBelowUnique(bad, b, k, a);
    }
  }

  /** The position of a valid positive id among the valid positive ids, and back. */
  lemma PositionOf(bad: IdSet, a: int)
    requires 0 < a && a !in bad
    ensures ValidIn(bad, 1, a) == ValidIn(bad, 1, a - 1) + 1
    ensures NthAbove(bad, 0, ValidIn(bad, 1, a)) == a
  {
    BadSplit(bad, 1, a - 1, a);
    NthAboveUnique(bad, 0, ValidIn(bad, 1, a), a);
  }

  /** The k-th valid id below the n-th one is the (n - k)-th one. */
  lemma BelowIsEarlier(bad: IdSet, n: nat, k: nat)
    requires k < n
    ensures var a := NthAbove(bad, 0, n);
            k <= ValidIn(bad, 1, a - 1) && NthBelow(bad, a, k) == NthAbove(bad, 0, n - k)
  {
    var b := NthAbove(bad, 0, n - k);
    NthAboveCounts(bad, 0, n - k);
    NthAboveCompose(bad, 0, n - k, k);
    AboveThenBelow(bad, b, k);
  }
}
