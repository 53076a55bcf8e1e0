/** What r+k and r-k mean: exactly when the guess-and-correct code lands where the
    enumeration of r~n says it should, for every active workspace that has a place in it. */
module RelativeLaws {
  import opened Ids
  import opened RelativeWorkspace

  lemma IndexOfPlace(named: seq<int>, i: nat)
    requires Ascending(named) && i < |named|
    ensures IndexOf(named, named[i]) == i
  {
  }

  /** Every named workspace and every valid positive id has exactly one place, in ascending order, and
      nothing else has one. */
  lemma EveryTargetHasOnePlace(bad: IdSet, named: seq<int>)
    requires NamedList(named)
    ensures forall id :: id in named || (0 < id && id !in bad) ==> exists n :: 1 <= n && Listing(bad, named, n) == id
    ensures forall n :: 1 <= n ==> var id := Listing(bad, named, n); id in named || (0 < id && id !in bad)
    ensures forall m, n :: 1 <= m < n ==> Listing(bad, named, m) < Listing(bad, named, n)
  {
    forall id | id in named || (0 < id && id !in bad)
      ensures exists n :: 1 <= n && Listing(bad, named, n) == id
    {
      if id in named {
        assert Listing(bad, named, IndexOf(named, id) + 1) == id;
      } else {
        PositionOf(bad, id);
        assert Listing(bad, named, |named| + ValidIn(bad, 1, id)) == id;
      }
    }
    forall n | 1 <= n
      ensures var id := Listing(bad, named, n); id in named || (0 < id && id !in bad)
    {
      if |named| < n {
        NthAboveCounts(bad, 0, n - |named|);
      }
    }
    forall m, n | 1 <= m < n
      ensures Listing(bad, named, m) < Listing(bad, named, n)
    {
      if m <= |named| {
        assert named[m - 1] in named;
      } else {
        NthAboveStrict(bad, 0, m - |named|, n - |named|);
      }
    }
  }

  // ----- forwards ---------------------------------------------------------------------------

  /** Guess and correct: going up to a + k and then on by the number of forbidden ids passed
      is going up by k valid ids. */
  lemma GuessAndCorrect(bad: IdSet, a: int, k: nat)
    ensures NthAbove(bad, a + k, BadIn(bad, a + 1, a + k)) == NthAbove(bad, a, k)
  {
    if k > 0 {
      var guess := a + k;
      var missed := BadIn(bad, a + 1, guess);
      var x := NthAbove(bad, guess, missed);
      NthAboveCounts(bad, guess, missed);
      BadSplit(bad, a + 1, guess, x);
      if missed == 0 {
        BadZero(bad, a + 1, guess, guess);
      }
      NthAboveUnique(bad, a, k, x);
    }
  }

  /** From a positive workspace r+k is the k-th valid id above it, unless that id does not
      fit below INT32_MAX (and the guess itself was wrong). */
  lemma ForwardFromPositive(bad: IdSet, named: seq<int>, active: int, k: nat)
    requires 0 <= active
    ensures Relative(bad, named, active, true, k) == NthAbove(bad, active, k) <==>
            BadIn(bad, active + 1, active + k) == 0 || NthAbove(bad, active, k) < 2147483647
  {
    GuessAndCorrect(bad, active, k);
  }

  /** If it does not fit, the walk stops just below, or stays on a guess beyond that. */
  lemma ForwardStopsBelowLimit(bad: IdSet, named: seq<int>, active: int, k: nat)
    requires 0 <= active && BadIn(bad, active + 1, active + k) > 0 && NthAbove(bad, active, k) >= 2147483647
    ensures Relative(bad, named, active, true, k) == if active + k <= 2147483646 then 2147483646 else active + k
  {
    GuessAndCorrect(bad, active, k);
  }

  /** Inside the named list r+k moves k places. */
  lemma ForwardInsideNamed(bad: IdSet, named: seq<int>, n: nat, k: nat)
    requires NamedList(named) && 1 <= n && n + k <= |named|
    ensures Relative(bad, named, Listing(bad, named, n), true, k) == Listing(bad, named, n + k)
  {
    IndexOfPlace(named, n - 1);
  }

  /** From a negative workspace that is not listed r+k moves as if from before the first named one. */
  lemma ForwardFromUnlisted(bad: IdSet, named: seq<int>, active: int, k: nat)
    requires active < 0 && active !in named && 1 <= k <= |named|
    ensures Relative(bad, named, active, true, k) == named[k - 1]
  {
  }

  /** Forbidden ids that the first count saw between a named workspace and its guess. */
  ghost function SeamMiscount(bad: IdSet, active: int, k: nat): nat {
    BadIn(bad, active + 1, Max(active + k, 0))
  }

  /** Across the seam the first count is kept and added to the second: r+k overshoots by
      exactly that many places. */
  lemma ForwardAcrossSeam(bad: IdSet, named: seq<int>, n: nat, k: nat)
    requires NamedList(named) && 1 <= n <= |named| < n + k
    requires Listing(bad, named, n + k + SeamMiscount(bad, named[n - 1], k)) < INT32_MAX
    ensures Relative(bad, named, Listing(bad, named, n), true, k)
         == Listing(bad, named, n + k + SeamMiscount(bad, named[n - 1], k))
  {
    IndexOfPlace(named, n - 1);
    CorrectedTwice(bad, n + k - |named|, SeamMiscount(bad, named[n - 1], k));
  }

  /** Walking on from imaginary workspace 0 with a count that is too high. */
  lemma CorrectedTwice(bad: IdSet, start: nat, wrong: nat)
    ensures NthAbove(bad, start, wrong + BadIn(bad, 1, start)) == NthAbove(bad, 0, start + wrong)
  {
    GuessAndCorrect(bad, 0, start);
    NthAboveCompose(bad, start, BadIn(bad, 1, start), wrong);
    NthAboveCompose(bad, 0, start, wrong);
  }

  /** r~n followed by r+k is r~(n+k) -- from a positive workspace and inside the named list
      always; across the seam exactly when no forbidden id lies between the named workspace
      and its guess.  (Places below INT32_MAX, as the walk requires.) */
  lemma ForwardAgreesWithListing(bad: IdSet, named: seq<int>, n: nat, k: nat)
    requires NamedList(named) && 1 <= n
    requires Listing(bad, named, n + k + if n <= |named| then SeamMiscount(bad, named[n - 1], k) else 0) < INT32_MAX
    ensures Relative(bad, named, Listing(bad, named, n), true, k) == Listing(bad, named, n + k) <==>
            (n <= |named| < n + k ==> SeamMiscount(bad, named[n - 1], k) == 0)
  {
    var a := Listing(bad, named, n);
    if |named| < n {
      NthAboveCompose(bad, 0, n - |named|, k);
      ForwardFromPositive(bad, named, a, k);
    } else if n + k <= |named| {
      ForwardInsideNamed(bad, named, n, k);
    } else {
      ForwardAcrossSeam(bad, named, n, k);
      var wrong := SeamMiscount(bad, a, k);
      if wrong > 0 {
        NthAboveStrict(bad, 0, n + k - |named|, n + k - |named| + wrong);
      }
    }
  }

  /** One open special workspace x (ids from -99 to -2, named ones lie below -1336) is enough
      to make r+1 from the only named workspace skip workspace 1. */
  lemma SeamOvershoots(named: seq<int>, x: int)
    requires NamedList(named) && |named| == 1 && named[0] <= -1337 && -99 <= x <= -2
    ensures Listing([x], named, 2) == 1
    ensures Relative([x], named, named[0], true, 1) == 2
  {
    var bad: IdSet := [x];
    BadSplit(bad, named[0] + 1, x - 1, 0);
    BadNone(bad, named[0] + 1, x - 1);
    BadSplit(bad, x, x, 0);
    BadNone(bad, x + 1, 0);
    assert BadIn(bad, x, x) == 1;
    AllValidAbove(bad, 0, 1);
    AllValidAbove(bad, 0, 2);
    ForwardAcrossSeam(bad, named, 1, 1);
  }

  lemma {:induction false} AllValidAbove(bad: IdSet, a: int, k: nat)
    requires forall id | id in bad :: id <= a
    ensures NthAbove(bad, a, k) == a + k
    decreases k
  {
    if k > 0 {
      AllValidAbove(bad, a + 1, k - 1);
    }
  }

  /** Two forward moves are one. */
  lemma ForwardMovesCompose(bad: IdSet, named: seq<int>, active: int, j: nat, k: nat)
    requires 0 <= active && NthAbove(bad, active, j + k) < INT32_MAX
    ensures Relative(bad, named, Relative(bad, named, active, true, j), true, k)
         == Relative(bad, named, active, true, j + k) == NthAbove(bad, active, j + k)
  {
    NthAboveCompose(bad, active, j, k);
    ForwardFromPositive(bad, named, active, j);
    ForwardFromPositive(bad, named, NthAbove(bad, active, j), k);
    ForwardFromPositive(bad, named, active, j + k);
  }

  // ----- backwards --------------------------------------------------------------------------

  /** Guess and correct downwards, when enough valid ids exist.  `extra` is 1 when the active
      workspace is itself forbidden: the count then includes it. */
  lemma GuessAndCorrectDown(bad: IdSet, a: int, k: nat, extra: nat)
    requires 0 < a && extra == (if a in bad then 1 else 0) && k + extra <= ValidIn(bad, 1, a - 1)
    ensures 1 <= a - k
    ensures BadIn(bad, a - k, a) <= ValidIn(bad, 1, a - k - 1)
    ensures NthBelow(bad, a - k, BadIn(bad, a - k, a)) == NthBelow(bad, a, k + extra)
  {
    var missed := BadIn(bad, a - k, a);
    assert missed == BadIn(bad, a - k, a - 1) + extra;
    BadSplit(bad, 1, a - k - 1, a - 1);
    if missed == 0 {
      RightGuess(bad, a, k);
    } else {
      CorrectedGuess(bad, a, k, missed, extra);
    }
  }

  lemma RightGuess(bad: IdSet, a: int, k: nat)
    requires 1 <= a - k && BadIn(bad, a - k, a) == 0 && k <= ValidIn(bad, 1, a - 1)
    ensures NthBelow(bad, a, k) == a - k
  {
    if k > 0 {
      BadZero(bad, a - k, a, a - k);
      assert BadIn(bad, a - k, a) == BadIn(bad, a - k, a - 1) + if a in bad then 1 else 0;
      NthBelowUnique(bad, a, k, a - k);
    }
  }

  lemma CorrectedGuess(bad: IdSet, a: int, k: nat, missed: nat, extra: nat)
    requires 1 <= a - k && 0 < missed <= ValidIn(bad, 1, a - k - 1) && k + extra <= ValidIn(bad, 1, a - 1)
    requires missed == BadIn(bad, a - k, a - 1) + extra
    ensures NthBelow(bad, a - k, missed) == NthBelow(bad, a, k + extra)
  {
    var x := NthBelow(bad, a - k, missed);
    NthBelowCounts(bad, a - k, missed);
    BadSplit(bad, x, a - k - 1, a - 1);
    NthBelowUnique(bad, a, k + extra, x);
  }

  /** From a valid positive workspace r-k is the k-th valid id below it, if there is one. */
  lemma BackwardFromPositive(bad: IdSet, named: seq<int>, active: int, k: nat)
    requires 0 < active && active !in bad && k <= ValidIn(bad, 1, active - 1)
    ensures Relative(bad, named, active, false, k) == NthBelow(bad, active, k)
  {
    GuessAndCorrectDown(bad, active, k, 0);
    NthBelowCounts(bad, active, k);
  }

  /** Where r-k from a positive workspace ends when the walk runs out `rest` steps early. */
  ghost function RunsOut(bad: IdSet, named: seq<int>, guess: int, rest: nat): int {
    if 1 <= guess && 1 !in bad then 1
    else if named != [] then NamedFallback(named, rest)
    else UpFrom(bad, guess, 1)
  }

  /** From a forbidden workspace (one a rule binds to another monitor) the count at the start
      includes the active workspace: r-k looks for the (k + 1)-th valid id below it, for every k. */
  lemma BackwardFromForbidden(bad: IdSet, named: seq<int>, active: int, k: nat)
    requires 0 < active && active in bad
    ensures var below, guess := ValidIn(bad, 1, active - 1), Max(active - k, 0);
            Relative(bad, named, active, false, k) ==
              if k < below then NthBelow(bad, active, k + 1)
              else RunsOut(bad, named, guess, if 1 <= active - k then k + 1 - below else BadIn(bad, 0, active))
  {
    if k < ValidIn(bad, 1, active - 1) {
      ForbiddenReaches(bad, named, active, k);
    } else if 1 <= active - k {
      ForbiddenFallsShort(bad, named, active, k);
    } else {
      CutOff(bad, named, active, k);
    }
  }

  lemma ForbiddenReaches(bad: IdSet, named: seq<int>, active: int, k: nat)
    requires 0 < active && active in bad && k + 1 <= ValidIn(bad, 1, active - 1)
    ensures Relative(bad, named, active, false, k) == NthBelow(bad, active, k + 1)
  {
    GuessAndCorrectDown(bad, active, k, 1);
    NthBelowCounts(bad, active, k + 1);
  }

  lemma ForbiddenFallsShort(bad: IdSet, named: seq<int>, active: int, k: nat)
    requires 0 < active && active in bad && ValidIn(bad, 1, active - 1) <= k < active
    ensures Relative(bad, named, active, false, k) ==
            RunsOut(bad, named, active - k, k + 1 - ValidIn(bad, 1, active - 1))
  {
    hide NamedFallback, UpFrom;
    BadSplit(bad, 1, active - k - 1, active - 1);
    assert BadIn(bad, active - k, active) == BadIn(bad, active - k, active - 1) + 1;
    assert Relative(bad, named, active, false, k) == Back(bad, named, active - k, BadIn(bad, active - k, active));
  }

  lemma CutOff(bad: IdSet, named: seq<int>, active: int, k: nat)
    requires 0 < active <= k
    ensures Relative(bad, named, active, false, k) == RunsOut(bad, named, 0, BadIn(bad, 0, active))
  {
    hide NamedFallback, UpFrom;
    assert ValidIn(bad, 1, -1) == 0;
    assert Relative(bad, named, active, false, k) == Back(bad, named, 0, BadIn(bad, 0, active));
  }

  /** When r-k from a forbidden workspace is right: for the last valid id below it, if that is 1 --
      and for standing still, if there is nowhere to go at all. */
  ghost predicate RightFromForbidden(bad: IdSet, named: seq<int>, active: int, k: nat) {
    var below := ValidIn(bad, 1, active - 1);
    if k == 0 then below == 0 && named == [] && active == INT32_MAX - 1
    else k == below && 1 !in bad
  }

  lemma ForbiddenIsRight(bad: IdSet, named: seq<int>, active: int, k: nat)
    requires NamedList(named) && 0 < active < INT32_MAX && active in bad && k <= ValidIn(bad, 1, active - 1)
    ensures Relative(bad, named, active, false, k) == NthBelow(bad, active, k) <==>
            RightFromForbidden(bad, named, active, k)
  {
    BackwardFromForbidden(bad, named, active, k);
    var below, x := ValidIn(bad, 1, active - 1), NthBelow(bad, active, k);
    NthBelowCounts(bad, active, k);
    if k < below {
      NthBelowCounts(bad, active, k + 1);
      assert NthBelow(bad, active, k + 1) != x;
    } else {
      assert 1 <= active - k;
      if 0 < k {
        BadSplit(bad, 1, x - 1, active - 1);
        LastBelow(bad, active, k);
      } else {
        AllForbiddenBelow(bad, active);
      }
      if named != [] {
        assert NamedFallback(named, 1) in named;
      }
    }
  }

  /** The last valid id below is 1 if that is valid, and never above the guess. */
  lemma LastBelow(bad: IdSet, active: int, k: nat)
    requires 0 < active && 0 < k == ValidIn(bad, 1, active - 1)
    ensures var x := NthBelow(bad, active, k);
            && 1 <= x <= active - k && x !in bad && (x == 1 <==> 1 !in bad)
            && (active < INT32_MAX ==> x < UpFrom(bad, active - k, 1))
  {
    var x := NthBelow(bad, active, k);
    NthBelowCounts(bad, active, k);
    if 1 !in bad && x != 1 {
      BadSplit(bad, 1, x - 1, active - 1);
      BadFirst(bad, 1, x - 1);
    }
  }

  lemma AllForbiddenBelow(bad: IdSet, active: int)
    requires 0 < active && active in bad && ValidIn(bad, 1, active - 1) == 0
    ensures 1 in bad
  {
    if 1 < active {
      BadFirst(bad, 1, active - 1);
    }
  }

  /** With every id up to the active one forbidden, and none named, r-k goes up. */
  lemma ForbiddenGoesUp(bad: IdSet, active: int, k: nat)
    requires 0 < active < INT32_MAX - 1 && active + 1 !in bad
    requires forall id :: 1 <= id <= active ==> id in bad
    ensures Relative(bad, [], active, false, k) == active + 1
  {
    BadAll(bad, 1, active - 1);
    BackwardFromForbidden(bad, [], active, k);
    FirstBehind(bad, Max(active - k, 0), active);
  }

  lemma {:induction false} BadAll(bad: IdSet, lo: int, hi: int)
    requires forall id :: lo <= id <= hi ==> id in bad
    ensures BadIn(bad, lo, hi) == Max(0, hi - lo + 1)
    decreases hi - lo + 1
  {
    if lo <= hi {
      BadAll(bad, lo, hi - 1);
    }
  }

  lemma {:induction false} FirstBehind(bad: IdSet, a: int, b: int)
    requires a <= b && b + 1 !in bad && forall id :: a < id <= b ==> id in bad
    ensures NthAbove(bad, a, 1) == b + 1
    decreases b - a
  {
    if a < b {
      FirstBehind(bad, a + 1, b);
    } else {
      assert NthAbove(bad, a + 1, 0) == a + 1;
    }
  }

  /** How many steps r-k lacks when fewer than k valid ids lie below, against the forbidden ids the
      guess passed: with a positive guess, what the walk below it could not make up for ... */
  lemma ShortOfPositive(bad: IdSet, a: int, k: nat)
    requires a !in bad && ValidIn(bad, 1, a - 1) < k && a - k >= 1
    ensures var below := ValidIn(bad, 1, a - k - 1);
            BadIn(bad, a - k, a) == below + (k - ValidIn(bad, 1, a - 1)) > below
  {
    assert BadIn(bad, a - k, a) == BadIn(bad, a - k, a - 1);
    BadSplit(bad, 1, a - k - 1, a - 1);
  }

  /** ... and with a guess cut off at 0, all of them. */
  lemma ShortOfZero(bad: IdSet, a: int)
    requires 0 < a && a !in bad
    ensures BadIn(bad, 0, a) == BadIn(bad, 1, a - 1) + if 0 in bad then 1 else 0
  {
    assert BadIn(bad, 0, a) == BadIn(bad, 0, a - 1);
    BadFirst(bad, 0, a - 1);
  }

  /** When r-k from a valid positive workspace steps back into the named list at the right
      place. */
  ghost predicate CrossesBackRight(bad: IdSet, active: int, k: nat) {
    if active - k >= 1 then 1 in bad
    else k == active && (0 in bad || BadIn(bad, 1, active - 1) == 0)
  }

  lemma BackwardAcrossSeam(bad: IdSet, named: seq<int>, active: int, k: nat)
    requires NamedList(named) && 0 < active && active !in bad
    requires ValidIn(bad, 1, active - 1) < k <= ValidIn(bad, 1, active - 1) + |named|
    ensures Relative(bad, named, active, false, k) == named[|named| - (k - ValidIn(bad, 1, active - 1))] <==>
            CrossesBackRight(bad, active, k)
  {
    if active - k >= 1 {
      ShortOfPositive(bad, active, k);
      if 1 !in bad {
        assert Relative(bad, named, active, false, k) == 1;
        assert named[|named| - (k - ValidIn(bad, 1, active - 1))] in named;
      }
    } else {
      ShortOfZero(bad, active);
      assert ValidIn(bad, 1, -1) == 0;
      assert Relative(bad, named, active, false, k) == NamedFallback(named, BadIn(bad, 0, active));
    }
  }

  /** Where r-k from a valid positive workspace ends when fewer than k valid ids lie below it, for every
      such k. */
  lemma {:induction false} BackwardRunsOut(bad: IdSet, named: seq<int>, active: int, k: nat)
    requires 0 < active && active !in bad && ValidIn(bad, 1, active - 1) < k
    ensures Relative(bad, named, active, false, k) ==
            if k < active then RunsOut(bad, named, active - k, k - ValidIn(bad, 1, active - 1))
            else RunsOut(bad, named, 0, BadIn(bad, 0, active))
  {
    if k < active {
      ValidFallsShort(bad, named, active, k);
    } else {
      CutOff(bad, named, active, k);
    }
  }

  lemma ValidFallsShort(bad: IdSet, named: seq<int>, active: int, k: nat)
    requires active !in bad && ValidIn(bad, 1, active - 1) < k < active
    ensures Relative(bad, named, active, false, k) ==
            RunsOut(bad, named, active - k, k - ValidIn(bad, 1, active - 1))
  {
    hide NamedFallback, UpFrom;
    ShortOfPositive(bad, active, k);
    assert Relative(bad, named, active, false, k) == Back(bad, named, active - k, BadIn(bad, active - k, active));
  }

  /** Farther back than the named list is long, the wrapped index is clamped to its last workspace. */
  lemma BackwardPastAll(bad: IdSet, named: seq<int>, active: int, k: nat)
    requires 1 in bad && active !in bad && k < active && named != []
    requires ValidIn(bad, 1, active - 1) + |named| < k
    ensures Relative(bad, named, active, false, k) == named[|named| - 1]
  {
    BackwardRunsOut(bad, named, active, k);
  }

  /** With 2 forbidden, r-2 from 3 should pass 1 and end on the named workspace, and ends on 1. */
  lemma StopsAtOne(name: int)
    requires name < 0
    ensures Relative([2], [name], 3, false, 2) == 1
    ensures Listing([2], [name], 3) == 3 && Listing([2], [name], 1) == name
  {
    var bad: IdSet := [2];
    assert BadIn(bad, 1, 0) == BadIn(bad, 1, 1) == 0 && BadIn(bad, 1, 2) == 1;
    BackwardAcrossSeam(bad, [name], 3, 2);
    ShortOfPositive(bad, 3, 2);
    assert NthAbove(bad, 0, 2) == NthAbove(bad, 1, 1) == NthAbove(bad, 2, 1) == 3;
  }

  /** r~n followed by r-k is r~(n-k) -- for valid positive places always; from a positive place
      into the named list exactly under CrossesBackRight; from a named place only when nothing
      moves and the place is the last one, since every such move ends on the last named
      workspace. */
  lemma BackwardAgreesWithListing(bad: IdSet, named: seq<int>, n: nat, k: nat)
    requires NamedList(named) && k < n
    ensures var a := Listing(bad, named, n);
            Relative(bad, named, a, false, k) == Listing(bad, named, n - k) <==>
            if n <= |named| then k == 0 && n == |named|
            else n - k <= |named| ==> CrossesBackRight(bad, a, k)
  {
    var a := Listing(bad, named, n);
    if n <= |named| {
      BackwardInsideNamed(bad, named, n, k);
    } else {
      var m := n - |named|;
      NthAboveCounts(bad, 0, m);
      PositionOf(bad, a);
      if n - k > |named| {
        BelowIsEarlier(bad, m, k);
        BackwardFromPositive(bad, named, a, k);
      } else {
        BackwardAcrossSeam(bad, named, a, k);
      }
    }
  }

  /** Inside the named list r-k ignores k: it ends on the last named workspace. */
  lemma BackwardInsideNamed(bad: IdSet, named: seq<int>, n: nat, k: nat)
    requires NamedList(named) && k < n <= |named|
    ensures Relative(bad, named, Listing(bad, named, n), false, k) == named[|named| - 1]
  {
    IndexOfPlace(named, n - 1);
  }

  /** Past the start of the named list size_t wraps around twice, and r-k returns a negative
      number that is computed from the list's length alone. */
  lemma BackwardPastNamed(bad: IdSet, named: seq<int>, n: nat, k: nat)
    requires NamedList(named) && 1 <= n <= |named| && n <= k
    ensures Relative(bad, named, Listing(bad, named, n), false, k) == n - k - |named| < 0
  {
    IndexOfPlace(named, n - 1);
    BadNone(bad, 0, named[n - 1]);
  }

  /** Whatever k is, r-k from a valid positive workspace ends on a named workspace of the
      monitor or on a valid positive id that is not above it. */
  lemma BackwardStaysValid(bad: IdSet, named: seq<int>, active: int, k: nat)
    requires NamedList(named) && 0 < active < INT32_MAX && active !in bad
    ensures var r := Relative(bad, named, active, false, k);
            r in named || (0 < r <= active && r !in bad)
  {
    var guess := Max(active - k, 0);
    var missed := BadIn(bad, guess, active);
    if missed <= ValidIn(bad, 1, guess - 1) {
      NthBelowCounts(bad, guess, missed);
      if missed == 0 {
        BadZero(bad, guess, active, guess);
      }
    }
    if guess < active {
      NthAboveCounts(bad, guess, 1);
      FirstAboveIsLeast(bad, guess, active);
    } else {
      BadNone(bad, active, active);
    }
  }

  lemma {:induction false} FirstAboveIsLeast(bad: IdSet, a: int, id: int)
    requires a < id && id !in bad
    ensures NthAbove(bad, a, 1) <= id
    decreases id - a
  {
    if a + 1 in bad {
      FirstAboveIsLeast(bad, a + 1, id);
    }
  }

  /** With no valid id left below and no named workspace, the fallback searches upwards from
      the guess.  The comment there says that everything below the guess is forbidden; the
      result is the least valid positive id exactly when that holds up to the guess itself. */
  lemma BackwardFallbackIsLeast(bad: IdSet, active: int, k: nat)
    requires 0 < active < INT32_MAX && active !in bad && ValidIn(bad, 1, active - 1) < k
    requires active - k >= 1 ==> 1 in bad
    ensures var guess := Max(active - k, 0);
            Relative(bad, [], active, false, k) == NthAbove(bad, guess, 1)
    ensures var guess := Max(active - k, 0);
            Relative(bad, [], active, false, k) == NthAbove(bad, 0, 1) <==> ValidIn(bad, 1, guess) == 0
  {
    var guess := Max(active - k, 0);
    if active - k >= 1 {
      ShortOfPositive(bad, active, k);
    } else {
      assert guess == 0 && ValidIn(bad, 1, guess - 1) == 0;
    }
    FirstAboveIsLeast(bad, guess, active);
    NthAboveCounts(bad, guess, 1);
    NthAboveCounts(bad, 0, 1);
    var x, y := NthAbove(bad, guess, 1), NthAbove(bad, 0, 1);
    BadSplit(bad, 1, guess, x);
    if ValidIn(bad, 1, guess) == 0 {
      NthAboveUnique(bad, 0, 1, x);
    }
  }

  /** With 1 and 3 forbidden, r-2 from 4 stays on 4 although 2 is valid. */
  lemma FallbackMissesLeast(bad: IdSet, active: int, k: nat)
    requires bad == [1, 3] && active == 4 && k == 2
    ensures Relative(bad, [], active, false, k) == 4 && NthAbove(bad, 0, 1) == 2
  {
    BadAll(bad, 1, 1);
    assert BadIn(bad, 1, active - 2) == BadIn(bad, 1, active - 3) + 0;
    assert BadIn(bad, 1, active - 1) == BadIn(bad, 1, active - 2) + 1;
    BackwardFallbackIsLeast(bad, active, k);
    FirstBehind(bad, active - 2, active - 1);
    FirstBehind(bad, active - 4, active - 3);
  }

  /** +k and then -k returns to where it started. */
  lemma ForwardThenBackward(bad: IdSet, named: seq<int>, active: int, k: nat)
    requires 0 < active && active !in bad && NthAbove(bad, active, k) < INT32_MAX
    ensures Relative(bad, named, Relative(bad, named, active, true, k), false, k) == active
  {
    ForwardFromPositive(bad, named, active, k);
    NthAboveCounts(bad, active, k);
    AboveThenBelow(bad, active, k);
    BackwardFromPositive(bad, named, NthAbove(bad, active, k), k);
  }

  /** -k and then +k, likewise, whenever k valid ids exist below. */
  lemma BackwardThenForward(bad: IdSet, named: seq<int>, active: int, k: nat)
    requires 0 < active < INT32_MAX && active !in bad && k <= ValidIn(bad, 1, active - 1)
    ensures Relative(bad, named, Relative(bad, named, active, false, k), true, k) == active
  {
    BackwardFromPositive(bad, named, active, k);
    NthBelowCounts(bad, active, k);
    var b := NthBelow(bad, active, k);
    if k > 0 {
      BadSplit(bad, b, b, active - 1);
      assert BadIn(bad, b, b) == BadIn(bad, b, b - 1) == 0;
      BadSplit(bad, b + 1, active - 1, active);
      assert BadIn(bad, active, active) == BadIn(bad, active, active - 1) == 0;
      NthAboveUnique(bad, b, k, active);
    }
    ForwardFromPositive(bad, named, b, k);
  }
}
