/** CLayoutManager::performSnap: snapping a dragged floating window to the other windows of its
    workspace and to the edges of its monitor.  Coordinates are reals.

    Both axes obey the same rules, so the pieces are written for one axis: `low` is the left or
    top edge, `high` the right or bottom one. */
module Snap {

  datatype Mode = Move | Resize | ResizeBlockRatio | ResizeForceRatio

  /** One axis of the dragged window: its range (borders included) and which of its two edges
      have snapped so far. */
  datatype Axis = Axis(start: real, end: real, low: bool, high: bool) {
    function Size(): real {
      end - start
    }

    predicate Snapped() {
      low || high
    }
  }

  datatype Range = Range(start: real, end: real) {
    function Grow(d: real): Range {
      Range(start - d, end + d)
    }
  }

  /** The edges of one axis that the drag may move. */
  datatype Edges = Edges(low: bool, high: bool)

  function Abs(r: real): real {
    if r < 0.0 then -r else r
  }

  predicate CanSnap(a: real, b: real, gap: real) {
    Abs(a - b) < gap
  }

  predicate Overlap(a: Axis, r: Range) {
    a.start <= r.end && r.start <= a.end
  }

  predicate Touch(a: Axis, r: Range) {
    a.start == r.end || r.start == a.end
  }

  /** snapMove carries the whole range along, snapResize moves one edge. */
  function SnapLow(mode: Mode, a: Axis, p: real): (b: Axis)
    ensures b.start == p && b.low && b.high == a.high
    ensures if mode.Move? then b.Size() == a.Size() else b.end == a.end
  {
    a.(start := p, end := if mode.Move? then p + (a.end - a.start) else a.end, low := true)
  }

  function SnapHigh(mode: Mode, a: Axis, p: real): (b: Axis)
    ensures b.end == p && b.high && b.low == a.low
    ensures if mode.Move? then b.Size() == a.Size() else b.start == a.start
  {
    a.(end := p, start := if mode.Move? then p + (a.start - a.end) else a.start, high := true)
  }

  /** Snap next to another window: low edge to its far edge, high edge to its near edge. */
  function Beside(mode: Mode, e: Edges, a: Axis, other: Range, gap: real): Axis {
    if e.low && CanSnap(a.start, other.end, gap) then SnapLow(mode, a, other.end)
    else if e.high && CanSnap(a.end, other.start, gap) then SnapHigh(mode, a, other.start)
    else a
  }

  /** Corner snapping: align with the same edge of a window that is already touched. */
  function Flush(mode: Mode, e: Edges, a: Axis, other: Range, gap: real): Axis {
    if e.low && !a.low && CanSnap(a.start, other.start, gap) then SnapLow(mode, a, other.start)
    else if e.high && !a.high && CanSnap(a.end, other.end, gap) then SnapHigh(mode, a, other.end)
    else a
  }

  // ----- the snap lines and what a run keeps ---------------------------------------------------

  /** The snap lines of one axis, for its low and for its high edge. */
  datatype Lines = Lines(low: set<real>, high: set<real>) {
    ghost function Plus(m: Lines): Lines {
      Lines(low + m.low, high + m.high)
    }

    ghost predicate Within(m: Lines) {
      low <= m.low && high <= m.high
    }
  }

  /** Another window's lines: beside it (moved out by the margin) and flush with it. */
  ghost function LinesOf(r: Range, margin: real): Lines {
    Lines({r.end + margin, r.start}, {r.start - margin, r.end})
  }

  /** A named edge is on one of its lines. */
  ghost predicate Landed(e: Edges, a: Axis, lines: Lines) {
    (e.low && a.start in lines.low) || (e.high && a.end in lines.high)
  }

  /** What every snap on one axis keeps: relative to the axis a0 at the start, having spent at
      most `budget`, with all snaps on the given lines. */
  ghost predicate Kept(mode: Mode, e: Edges, a0: Axis, a: Axis, lines: Lines, budget: real) {
    && (a.low ==> e.low) && (a.high ==> e.high)
    && (!a.Snapped() ==> a.start == a0.start && a.end == a0.end)
    && Abs(a.start - a0.start) <= budget && Abs(a.end - a0.end) <= budget
    && if mode.Move? then
         && a.Size() == a0.Size()
         && (a.Snapped() ==> Landed(e, a, lines))
       else
         && (if a.low then a.start in lines.low else a.start == a0.start)
         && (if a.high then a.end in lines.high else a.end == a0.end)
  }

  lemma KeptBySnap(mode: Mode, e: Edges, a0: Axis, a: Axis, b: Axis, p: real, lines: Lines, budget: real, gap: real)
    requires Kept(mode, e, a0, a, lines, budget)
    requires (e.low && p in lines.low && CanSnap(a.start, p, gap) && b == SnapLow(mode, a, p)) ||
             (e.high && p in lines.high && CanSnap(a.end, p, gap) && b == SnapHigh(mode, a, p))
    ensures Kept(mode, e, a0, b, lines, budget + gap)
  {
  }

  lemma KeptMore(mode: Mode, e: Edges, a0: Axis, a: Axis, lines: Lines, more: Lines, budget: real, larger: real)
    requires Kept(mode, e, a0, a, lines, budget) && lines.Within(more) && budget <= larger
    ensures Kept(mode, e, a0, a, more, larger)
  {
  }

  // ----- one other window ------------------------------------------------------------------------

  /** Another window as the loop sees it. */
  datatype Other = Other(x: Range, y: Range, dragged: bool, sameWorkspace: bool, mapped: bool,
                         overrideRedirect: bool, overFullscreen: bool)

  predicate Skipped(w: Other, hasFullscreen: bool) {
    (hasFullscreen && !w.overFullscreen) || w.dragged || !w.sameWorkspace || !w.mapped || w.overrideRedirect
  }

  /** A drag among other windows: its mode, the edges it names on either axis, the margins kept
      around the others, the snap gap, and whether the workspace has a fullscreen window. */
  datatype Drag = Drag(mode: Mode, ex: Edges, ey: Edges, mx: real, my: real, gap: real, hasFullscreen: bool)

  /** Some edge of the dragged window is within reach of the other window. */
  ghost predicate InReach(d: Drag, x: Axis, y: Axis, w: Other) {
    var ox, oy := w.x.Grow(d.mx), w.y.Grow(d.my);
    || (Overlap(y, oy) && ((d.ex.low && CanSnap(x.start, ox.end, d.gap)) || (d.ex.high && CanSnap(x.end, ox.start, d.gap))))
    || (Overlap(x, ox) && ((d.ey.low && CanSnap(y.start, oy.end, d.gap)) || (d.ey.high && CanSnap(y.end, oy.start, d.gap))))
    || (Touch(x, ox) && ((d.ey.low && CanSnap(y.start, w.y.start, d.gap)) || (d.ey.high && CanSnap(y.end, w.y.end, d.gap))))
    || (Touch(y, oy) && ((d.ex.low && CanSnap(x.start, w.x.start, d.gap)) || (d.ex.high && CanSnap(x.end, w.x.end, d.gap))))
  }

  /** What one axis may have spent after n windows: one gap a window, and one more a flag (corner
      snapping needs an unset flag). */
  ghost function Spent(n: nat, a: Axis, gap: real): real {
    Gaps(n + Flags(a), gap)
  }

  /** n gaps, added up one at a time. */
  ghost function Gaps(n: nat, gap: real): real {
    if n == 0 then 0.0 else Gaps(n - 1, gap) + gap
  }

  lemma {:induction false} GapsIsProduct(n: nat, gap: real)
    ensures Gaps(n, gap) == n as real * gap
  {
    if n > 0 {
      GapsIsProduct(n - 1, gap);
      OneMore((n - 1) as real, gap);
    }
  }

  lemma OneMore(r: real, gap: real)
    ensures (r + 1.0) * gap == r * gap + gap
  {
  }

  lemma {:induction false} GapsGrow(m: nat, n: nat, gap: real)
    requires m <= n && gap >= 0.0
    ensures Gaps(m, gap) <= Gaps(n, gap)
  {
    if m < n {
      GapsGrow(m, n - 1, gap);
    }
  }

  /** Number of snap flags set on an axis. */
  ghost function Flags(a: Axis): nat {
    (if a.low then 1 else 0) + (if a.high then 1 else 0)
  }

  /** The first two snaps a window may cause: beside it on x, then beside it on y. */
  function Besides(d: Drag, x0: Axis, y0: Axis, w: Other): (Axis, Axis) {
    var ox, oy := w.x.Grow(d.mx), w.y.Grow(d.my);
    var x1 := if Overlap(y0, oy) then Beside(d.mode, d.ex, x0, ox, d.gap) else x0;
    var y1 := if Overlap(x1, ox) then Beside(d.mode, d.ey, y0, oy, d.gap) else y0;
    (x1, y1)
  }

  /** Those, and then the two corner snaps. */
  function Step(d: Drag, x0: Axis, y0: Axis, w: Other): (Axis, Axis) {
    var (x1, y1) := Besides(d, x0, y0, w);
    var y := if Touch(x1, w.x.Grow(d.mx)) then Flush(d.mode, d.ey, y1, w.y, d.gap) else y1;
    var x := if Touch(y, w.y.Grow(d.my)) then Flush(d.mode, d.ex, x1, w.x, d.gap) else x1;
    (x, y)
  }

  lemma StepKeeps(mode: Mode, e: Edges, a0: Axis, a: Axis, b: Axis, c: Axis, r: Range, margin: real,
                  lines: Lines, n: nat, gap: real)
    requires Kept(mode, e, a0, a, lines, Spent(n, a, gap)) && gap > 0.0
    requires LinesOf(r, margin).Within(lines)
    requires b == Beside(mode, e, a, r.Grow(margin), gap) || b == a
    requires c == Flush(mode, e, b, r, gap) || c == b
    ensures Kept(mode, e, a0, c, lines, Spent(n + 1, c, gap))
  {
    KeptBeside(mode, e, a0, a, b, r.Grow(margin), lines, n, gap);
    KeptFlush(mode, e, a0, b, c, r, lines, n + 1, gap);
  }

  lemma KeptBeside(mode: Mode, e: Edges, a0: Axis, a: Axis, b: Axis, o: Range, lines: Lines, n: nat, gap: real)
    requires Kept(mode, e, a0, a, lines, Spent(n, a, gap)) && gap > 0.0
    requires o.end in lines.low && o.start in lines.high
    requires b == Beside(mode, e, a, o, gap) || b == a
    ensures Kept(mode, e, a0, b, lines, Spent(n + 1, b, gap))
  {
    if b != a {
      KeptBySnap(mode, e, a0, a, b, if e.low && CanSnap(a.start, o.end, gap) then o.end else o.start, lines,
                 Spent(n, a, gap), gap);
    }
    SpentGrows(n, a, n + 1, b, gap);
    KeptMore(mode, e, a0, b, lines, lines, if b != a then Spent(n, a, gap) + gap else Spent(n, a, gap), Spent(n + 1, b, gap));
  }

  lemma KeptFlush(mode: Mode, e: Edges, a0: Axis, a: Axis, b: Axis, o: Range, lines: Lines, n: nat, gap: real)
    requires Kept(mode, e, a0, a, lines, Spent(n, a, gap)) && gap > 0.0
    requires o.start in lines.low && o.end in lines.high
    requires b == Flush(mode, e, a, o, gap) || b == a
    ensures Kept(mode, e, a0, b, lines, Spent(n, b, gap))
  {
    if b != a {
      KeptBySnap(mode, e, a0, a, b, if e.low && !a.low && CanSnap(a.start, o.start, gap) then o.start else o.end,
                 lines, Spent(n, a, gap), gap);
      SpentGrows(n, a, n, b, gap);
    }
  }

  lemma SpentGrows(n: nat, a: Axis, m: nat, b: Axis, gap: real)
    requires n + Flags(a) < m + Flags(b) && gap > 0.0
    ensures Spent(n, a, gap) + gap <= Spent(m, b, gap)
  {
    GapsGrow(n + Flags(a) + 1, m + Flags(b), gap);
  }

  /** A window leaves an unsnapped dragged window alone exactly when it is out of reach. */
  lemma ReachExact(d: Drag, x0: Axis, y0: Axis, w: Other)
    ensures var (x, y) := Step(d, x0, y0, w);
            && (Untouched(x, y) <==> Untouched(x0, y0) && !InReach(d, x0, y0, w))
            && (Untouched(x, y) ==> x == x0 && y == y0)
  {
  }

  predicate Untouched(x: Axis, y: Axis) {
    !x.Snapped() && !y.Snapped()
  }

  // ----- all other windows -----------------------------------------------------------------------

  /** The lines the windows that take part offer on each axis: their edges, and their edges moved
      out by the configured gaps. */
  ghost function LinesX(others: seq<Other>, hasFullscreen: bool, mx: real): Lines {
    if others == [] then Lines({}, {})
    else
      var w, init := others[|others| - 1], LinesX(others[..|others| - 1], hasFullscreen, mx);
      if Skipped(w, hasFullscreen) then init else init.Plus(LinesOf(w.x, mx))
  }

  ghost function LinesY(others: seq<Other>, hasFullscreen: bool, my: real): Lines {
    if others == [] then Lines({}, {})
    else
      var w, init := others[|others| - 1], LinesY(others[..|others| - 1], hasFullscreen, my);
      if Skipped(w, hasFullscreen) then init else init.Plus(LinesOf(w.y, my))
  }

  /** No window of the list that takes part is within reach. */
  ghost predicate NoneInReach(d: Drag, x: Axis, y: Axis, others: seq<Other>) {
    forall i :: 0 <= i < |others| ==> Skipped(others[i], d.hasFullscreen) || !InReach(d, x, y, others[i])
  }

  /** The steps of all windows that take part, one after another. */
  function AllSteps(d: Drag, x: Axis, y: Axis, others: seq<Other>): (Axis, Axis) {
    if others == [] then (x, y)
    else
      var w, (x1, y1) := others[|others| - 1], AllSteps(d, x, y, others[..|others| - 1]);
      if Skipped(w, d.hasFullscreen) then (x1, y1) else Step(d, x1, y1, w)
  }

  /** The state of the loop after the windows `seen`. */
  ghost predicate Run(d: Drag, x0: Axis, y0: Axis, x: Axis, y: Axis, seen: seq<Other>) {
    && Kept(d.mode, d.ex, x0, x, LinesX(seen, d.hasFullscreen, d.mx), Spent(|seen|, x, d.gap))
    && Kept(d.mode, d.ey, y0, y, LinesY(seen, d.hasFullscreen, d.my), Spent(|seen|, y, d.gap))
    && (Untouched(x, y) ==> x == x0 && y == y0)
  }

  lemma LinesGrow(seen: seq<Other>, w: Other, hasFullscreen: bool, mx: real, my: real)
    ensures LinesX(seen, hasFullscreen, mx).Within(LinesX(seen + [w], hasFullscreen, mx))
    ensures LinesY(seen, hasFullscreen, my).Within(LinesY(seen + [w], hasFullscreen, my))
    ensures !Skipped(w, hasFullscreen) ==>
              && LinesOf(w.x, mx).Within(LinesX(seen + [w], hasFullscreen, mx))
              && LinesOf(w.y, my).Within(LinesY(seen + [w], hasFullscreen, my))
  {
    assert (seen + [w])[..|seen|] == seen;
  }

  lemma RunSkip(d: Drag, x0: Axis, y0: Axis, x: Axis, y: Axis, seen: seq<Other>, w: Other)
    requires Run(d, x0, y0, x, y, seen) && d.gap > 0.0
    ensures Run(d, x0, y0, x, y, seen + [w])
  {
    LinesGrow(seen, w, d.hasFullscreen, d.mx, d.my);
    SpentGrows(|seen|, x, |seen| + 1, x, d.gap);
    SpentGrows(|seen|, y, |seen| + 1, y, d.gap);
  }

  lemma RunStep(d: Drag, x0: Axis, y0: Axis, xb: Axis, yb: Axis, seen: seq<Other>, w: Other)
    requires Run(d, x0, y0, xb, yb, seen) && d.gap > 0.0 && !Skipped(w, d.hasFullscreen)
    ensures Run(d, x0, y0, Step(d, xb, yb, w).0, Step(d, xb, yb, w).1, seen + [w])
  {
    var n, lx, ly := |seen|, LinesX(seen + [w], d.hasFullscreen, d.mx), LinesY(seen + [w], d.hasFullscreen, d.my);
    LinesGrow(seen, w, d.hasFullscreen, d.mx, d.my);
    KeptMore(d.mode, d.ex, x0, xb, LinesX(seen, d.hasFullscreen, d.mx), lx, Spent(n, xb, d.gap), Spent(n, xb, d.gap));
    KeptMore(d.mode, d.ey, y0, yb, LinesY(seen, d.hasFullscreen, d.my), ly, Spent(n, yb, d.gap), Spent(n, yb, d.gap));
    var (x1, y1) := Besides(d, xb, yb, w);
    var (x, y) := Step(d, xb, yb, w);
    StepKeeps(d.mode, d.ex, x0, xb, x1, x, w.x, d.mx, lx, n, d.gap);
    StepKeeps(d.mode, d.ey, y0, yb, y1, y, w.y, d.my, ly, n, d.gap);
    ReachExact(d, xb, yb, w);
  }

  lemma RunEnd(d: Drag, x0: Axis, y0: Axis, x: Axis, y: Axis, seen: seq<Other>)
    requires Run(d, x0, y0, x, y, seen) && d.gap > 0.0
    ensures Kept(d.mode, d.ex, x0, x, LinesX(seen, d.hasFullscreen, d.mx), Gaps(|seen| + 2, d.gap))
    ensures Kept(d.mode, d.ey, y0, y, LinesY(seen, d.hasFullscreen, d.my), Gaps(|seen| + 2, d.gap))
  {
    SpentAll(|seen|, x, d.gap);
    SpentAll(|seen|, y, d.gap);
  }

  /** The body of the loop over the windows.  It spends at most one gap on an axis, and one more a
      newly set flag; snaps go onto the lines of the window; and an untouched dragged window stays
      untouched exactly when this one is out of reach. */
  method SnapToWindow(d: Drag, xb: Axis, yb: Axis, w: Other, ghost x0: Axis, ghost y0: Axis, ghost seen: seq<Other>)
    returns (x: Axis, y: Axis)
    requires d.gap > 0.0 && !Skipped(w, d.hasFullscreen) && Run(d, x0, y0, xb, yb, seen)
    ensures Run(d, x0, y0, x, y, seen + [w])
    ensures Untouched(x, y) <==> Untouched(xb, yb) && !InReach(d, x0, y0, w)
    ensures (x, y) == Step(d, xb, yb, w)
  {
    hide Run, InReach, Beside, Flush;
    RunStep(d, x0, y0, xb, yb, seen, w);
    ReachFromStart(d, x0, y0, xb, yb, seen, w);
    x, y := xb, yb;
    var ox, oy := w.x.Grow(d.mx), w.y.Grow(d.my);
    if Overlap(y, oy) {
      x := Beside(d.mode, d.ex, x, ox, d.gap);
    }
    if Overlap(x, ox) {
      y := Beside(d.mode, d.ey, y, oy, d.gap);
    }
    if Touch(x, ox) {
      var inner := Range(oy.start + d.my, oy.end - d.my);
      assert inner == w.y;
      y := Flush(d.mode, d.ey, y, inner, d.gap);
    }
    if Touch(y, oy) {
      var inner := Range(ox.start + d.mx, ox.end - d.mx);
      assert inner == w.x;
      x := Flush(d.mode, d.ex, x, inner, d.gap);
    }
  }

  lemma ReachFromStart(d: Drag, x0: Axis, y0: Axis, xb: Axis, yb: Axis, seen: seq<Other>, w: Other)
    requires Run(d, x0, y0, xb, yb, seen)
    ensures var (x, y) := Step(d, xb, yb, w);
            Untouched(x, y) <==> Untouched(xb, yb) && !InReach(d, x0, y0, w)
  {
    ReachExact(d, xb, yb, w);
  }

  method VisitWindow(d: Drag, xb: Axis, yb: Axis, w: Other, ghost x0: Axis, ghost y0: Axis, ghost seen: seq<Other>)
    returns (x: Axis, y: Axis)
    requires d.gap > 0.0 && Run(d, x0, y0, xb, yb, seen)
    ensures Run(d, x0, y0, x, y, seen + [w])
    ensures Untouched(x, y) <==> Untouched(xb, yb) && (Skipped(w, d.hasFullscreen) || !InReach(d, x0, y0, w))
    ensures (x, y) == if Skipped(w, d.hasFullscreen) then (xb, yb) else Step(d, xb, yb, w)
  {
    if Skipped(w, d.hasFullscreen) {
      x, y := xb, yb;
      RunSkip(d, x0, y0, x, y, seen, w);
    } else {
      x, y := SnapToWindow(d, xb, yb, w, x0, y0, seen);
    }
  }

  /** The loop over the windows. */
  method SnapToWindows(d: Drag, x0: Axis, y0: Axis, others: seq<Other>) returns (x: Axis, y: Axis)
    requires d.gap > 0.0 && Untouched(x0, y0)
    ensures (x, y) == AllSteps(d, x0, y0, others)
    ensures Kept(d.mode, d.ex, x0, x, LinesX(others, d.hasFullscreen, d.mx), Gaps(|others| + 2, d.gap))
    ensures Kept(d.mode, d.ey, y0, y, LinesY(others, d.hasFullscreen, d.my), Gaps(|others| + 2, d.gap))
    ensures Untouched(x, y) <==> NoneInReach(d, x0, y0, others)
    ensures Untouched(x, y) ==> x == x0 && y == y0
  {
    x, y := x0, y0;
    for i := 0 to |others|
      invariant Run(d, x0, y0, x, y, others[..i])
      invariant Untouched(x, y) <==> NoneInReach(d, x0, y0, others[..i])
      invariant (x, y) == AllSteps(d, x0, y0, others[..i])
    {
      x, y := VisitWindow(d, x, y, others[i], x0, y0, others[..i]);
      assert others[..i + 1] == others[..i] + [others[i]];
      NoneMore(d, x0, y0, others[..i], others[i]);
      StepsMore(d, x0, y0, others[..i], others[i]);
    }
    assert others[..|others|] == others;
    RunEnd(d, x0, y0, x, y, others);
  }

  lemma NoneMore(d: Drag, x: Axis, y: Axis, seen: seq<Other>, w: Other)
    ensures NoneInReach(d, x, y, seen + [w]) <==>
            NoneInReach(d, x, y, seen) && (Skipped(w, d.hasFullscreen) || !InReach(d, x, y, w))
  {
    hide InReach;
    var all := seen + [w];
    assert all[|seen|] == w;
    assert forall i :: 0 <= i < |seen| ==> all[i] == seen[i];
  }

  lemma StepsMore(d: Drag, x: Axis, y: Axis, seen: seq<Other>, w: Other)
    ensures AllSteps(d, x, y, seen + [w]) ==
            var (x1, y1) := AllSteps(d, x, y, seen);
            if Skipped(w, d.hasFullscreen) then (x1, y1) else Step(d, x1, y1, w)
  {
    assert (seen + [w])[..|seen|] == seen;
  }

  lemma SpentAll(n: nat, a: Axis, gap: real)
    requires gap > 0.0
    ensures Spent(n, a, gap) <= Gaps(n + 2, gap)
  {
    GapsGrow(n + Flags(a), n + 2, gap);
  }

  /** Windows act one after another, in the order of the list. */
  lemma {:induction false} StepsAppend(d: Drag, x: Axis, y: Axis, others: seq<Other>, more: seq<Other>)
    ensures AllSteps(d, x, y, others + more) ==
            AllSteps(d, AllSteps(d, x, y, others).0, AllSteps(d, x, y, others).1, more)
    decreases |more|
  {
    hide Step, Skipped;
    if more == [] {
      assert others + more == others;
    } else {
      var init, w := more[..|more| - 1], more[|more| - 1];
      assert others + more == (others + init) + [w];
      assert more == init + [w];
      StepsAppend(d, x, y, others, init);
      StepsMore(d, x, y, others + init, w);
      StepsMore(d, AllSteps(d, x, y, others).0, AllSteps(d, x, y, others).1, init, w);
    }
  }

  // ----- one window, in coordinates ----------------------------------------------------------------

  predicate Close(p: real, q: real, gap: real) {
    q - gap < p < q + gap
  }

  /** A named edge is close to its line. */
  predicate Hits(e: Edges, low: real, high: real, lowLine: real, highLine: real, gap: real) {
    (e.low && Close(low, lowLine, gap)) || (e.high && Close(high, highLine, gap))
  }

  /** ... and is on it afterwards; the low edge goes first. */
  predicate OnLine(e: Edges, low: real, high: real, lowLine: real, highLine: real, gap: real, low1: real, high1: real) {
    if e.low && Close(low, lowLine, gap) then low1 == lowLine else high1 == highLine
  }

  /** A drag of the ranges [l, r] and [t, b] that has not snapped, and the ranges [l1, r1] and [t1, b1]
      that one other window, with the ranges wx and wy, makes of them.  An axis snaps beside the window
      if the ranges overlap on the other axis -- as they are, or as they are after x has snapped -- and
      flush with the window if they touch on the other axis; else it stays. */
  predicate OneWindow(d: Drag, wx: Range, wy: Range, l: real, r: real, t: real, b: real, l1: real, r1: real, t1: real, b1: real) {
    var right, left, below, above := wx.end + d.mx, wx.start - d.mx, wy.end + d.my, wy.start - d.my;
    var besideX := above <= b && t <= below && Hits(d.ex, l, r, right, left, d.gap);
    var besideY := ((left <= r && l <= right) || besideX) && Hits(d.ey, t, b, below, above, d.gap);
    var flushY := !besideY && (besideX || l == right || r == left) && Hits(d.ey, t, b, wy.start, wy.end, d.gap);
    var flushX := !besideX && !flushY && (besideY || t == below || b == above) && Hits(d.ex, l, r, wx.start, wx.end, d.gap);
    && (if besideX then OnLine(d.ex, l, r, right, left, d.gap, l1, r1)
        else if flushX then OnLine(d.ex, l, r, wx.start, wx.end, d.gap, l1, r1)
        else l1 == l && r1 == r)
    && (if besideY then OnLine(d.ey, t, b, below, above, d.gap, t1, b1)
        else if flushY then OnLine(d.ey, t, b, wy.start, wy.end, d.gap, t1, b1)
        else t1 == t && b1 == b)
  }

  /** Margins are not negative, the other window has an extent, and the drag is not smaller than the
      reach of its two edges. */
  predicate Extended(d: Drag, wx: Range, wy: Range, l: real, r: real, t: real, b: real) {
    && d.gap > 0.0 && d.mx >= 0.0 && d.my >= 0.0 && wx.start < wx.end && wy.start < wy.end
    && r - l >= d.gap + d.gap && b - t >= d.gap + d.gap
  }

  /** One axis that has not snapped yet, big enough, and the range of the other window on it. */
  predicate Fresh(a: Axis, r: Range, margin: real, gap: real) {
    !a.Snapped() && gap > 0.0 && margin >= 0.0 && r.start < r.end && a.Size() >= gap + gap
  }

  /** Snapping beside the window: when, where to, and that the window is then touched and overlapped
      and corner snapping on this axis is over. */
  lemma BesideMeans(mode: Mode, e: Edges, a: Axis, r: Range, margin: real, gap: real)
    requires Fresh(a, r, margin, gap)
    ensures var o := r.Grow(margin);
            var b := Beside(mode, e, a, o, gap);
            if Hits(e, a.start, a.end, o.end, o.start, gap) then
              && OnLine(e, a.start, a.end, o.end, o.start, gap, b.start, b.end)
              && Touch(b, o) && Overlap(b, o) && Flush(mode, e, b, r, gap) == b
            else b == a
  {
  }

  lemma FlushMeans(mode: Mode, e: Edges, a: Axis, r: Range, margin: real, gap: real)
    requires Fresh(a, r, margin, gap)
    ensures var b := Flush(mode, e, a, r, gap);
            if Hits(e, a.start, a.end, r.start, r.end, gap) then
              OnLine(e, a.start, a.end, r.start, r.end, gap, b.start, b.end) && !Touch(b, r.Grow(margin))
            else b == a
  {
  }

  lemma {:induction false} StepInCoordinates(d: Drag, x0: Axis, y0: Axis, w: Other)
    requires Untouched(x0, y0) && Extended(d, w.x, w.y, x0.start, x0.end, y0.start, y0.end)
    ensures var (x, y) := Step(d, x0, y0, w);
            OneWindow(d, w.x, w.y, x0.start, x0.end, y0.start, y0.end, x.start, x.end, y.start, y.end)
  {
    hide Beside, Flush, Hits, OnLine;
    BesideMeans(d.mode, d.ex, x0, w.x, d.mx, d.gap);
    BesideMeans(d.mode, d.ey, y0, w.y, d.my, d.gap);
    FlushMeans(d.mode, d.ex, x0, w.x, d.mx, d.gap);
    FlushMeans(d.mode, d.ey, y0, w.y, d.my, d.gap);
  }

  // ----- the monitor -------------------------------------------------------------------------------

  /** One axis of the monitor: the work area, the reserved space at either end and the border
      that may overlap the physical edge. */
  datatype Screen = Screen(work: Range, reservedLow: real, reservedHigh: real, borderLow: real, borderHigh: real) {
    function OuterLow(): real {
      work.start - (reservedLow + borderLow)
    }

    function OuterHigh(): real {
      work.end + (reservedHigh + borderHigh)
    }

    ghost function Both(): Lines {
      Lines(LowLines(), HighLines())
    }

    /** The lines for the low edge: the work area counts only next to reserved space. */
    ghost function LowLines(): set<real> {
      {OuterLow()} + if reservedLow > 0.0 then {work.start} else {}
    }

    ghost function HighLines(): set<real> {
      {OuterHigh()} + if reservedHigh > 0.0 then {work.end} else {}
    }

    /** The line a low edge at p is held against: the work area's where there is reserved space next
        to it and it is within reach, otherwise the physical edge's. */
    function LowTarget(p: real, gap: real): real {
      if reservedLow > 0.0 && CanSnap(p, work.start, gap) then work.start else OuterLow()
    }

    function HighTarget(p: real, gap: real): real {
      if reservedHigh > 0.0 && CanSnap(p, work.end, gap) then work.end else OuterHigh()
    }
  }

  ghost predicate Near(a: real, lines: set<real>, gap: real) {
    exists p :: p in lines && CanSnap(a, p, gap)
  }

  lemma TargetIsNear(m: Screen, p: real, gap: real)
    ensures m.LowTarget(p, gap) in m.LowLines() && m.HighTarget(p, gap) in m.HighLines()
    ensures CanSnap(p, m.LowTarget(p, gap), gap) <==> Near(p, m.LowLines(), gap)
    ensures CanSnap(p, m.HighTarget(p, gap), gap) <==> Near(p, m.HighLines(), gap)
  {
    assert Near(p, m.LowLines(), gap) ==> CanSnap(p, m.LowTarget(p, gap), gap);
    assert Near(p, m.HighLines(), gap) ==> CanSnap(p, m.HighTarget(p, gap), gap);
  }

  /** One axis against the monitor: first the low edge, then the high one. */
  function PullLow(mode: Mode, e: Edges, a: Axis, m: Screen, gap: real): Axis {
    var p := m.LowTarget(a.start, gap);
    if e.low && CanSnap(a.start, p, gap) then SnapLow(mode, a, p) else a
  }

  function PullHigh(mode: Mode, e: Edges, a: Axis, m: Screen, gap: real): Axis {
    var p := m.HighTarget(a.end, gap);
    if e.high && CanSnap(a.end, p, gap) then SnapHigh(mode, a, p) else a
  }

  lemma KeptByPulls(mode: Mode, e: Edges, a: Axis, m: Screen, gap: real, s: Axis, lines: Lines, budget: real)
    requires gap > 0.0 && m.Both().Within(lines) && Kept(mode, e, s, a, lines, budget)
    ensures Kept(mode, e, s, PullLow(mode, e, a, m, gap), lines, budget + gap)
    ensures Kept(mode, e, s, PullHigh(mode, e, a, m, gap), lines, budget + gap)
  {
    hide Kept, Near;
    TargetIsNear(m, a.start, gap);
    TargetIsNear(m, a.end, gap);
    var p, q := m.LowTarget(a.start, gap), m.HighTarget(a.end, gap);
    if e.low && CanSnap(a.start, p, gap) {
      KeptBySnap(mode, e, s, a, SnapLow(mode, a, p), p, lines, budget, gap);
    }
    if e.high && CanSnap(a.end, q, gap) {
      KeptBySnap(mode, e, s, a, SnapHigh(mode, a, q), q, lines, budget, gap);
    }
    KeptMore(mode, e, s, a, lines, lines, budget, budget + gap);
  }

  /** What the two pulls achieve: they snap exactly when a line is near, and in the resize modes an
      edge that ends near a line of the monitor is on one. */
  lemma PullsReach(mode: Mode, e: Edges, a0: Axis, m: Screen, gap: real)
    requires gap > 0.0
    ensures var a := PullHigh(mode, e, PullLow(mode, e, a0, m, gap), m, gap);
            && (!a.Snapped() <==> !a0.Snapped() && !(e.low && Near(a0.start, m.LowLines(), gap)) &&
                                  !(e.high && Near(a0.end, m.HighLines(), gap)))
            && (!a.Snapped() ==> a == a0)
            && (mode != Move && e.low && Near(a.start, m.LowLines(), gap) ==> a.start in m.LowLines())
            && (mode != Move && e.high && Near(a.end, m.HighLines(), gap) ==> a.end in m.HighLines())
  {
    hide Near;
    var a1 := PullLow(mode, e, a0, m, gap);
    TargetIsNear(m, a0.start, gap);
    TargetIsNear(m, a0.end, gap);
    TargetIsNear(m, a1.end, gap);
  }

  /** The two conditions of one axis, whose second line is computed in the condition itself. */
  method SnapToScreen(mode: Mode, e: Edges, a0: Axis, m: Screen, gap: real,
                      ghost s: Axis, ghost lines: Lines, ghost budget: real)
    returns (a: Axis)
    requires gap > 0.0 && m.Both().Within(lines) && Kept(mode, e, s, a0, lines, budget)
    ensures a == PullHigh(mode, e, PullLow(mode, e, a0, m, gap), m, gap)
    ensures Kept(mode, e, s, a, lines, budget + gap + gap)
    ensures !a.Snapped() <==> !a0.Snapped() && !(e.low && Near(a0.start, m.LowLines(), gap)) &&
                              !(e.high && Near(a0.end, m.HighLines(), gap))
    ensures mode != Move && e.low && Near(a.start, m.LowLines(), gap) ==> a.start in m.LowLines()
    ensures mode != Move && e.high && Near(a.end, m.HighLines(), gap) ==> a.end in m.HighLines()
    ensures !a.Snapped() ==> a == a0
  {
    hide Kept, Near;
    KeptByPulls(mode, e, a0, m, gap, s, lines, budget);
    KeptByPulls(mode, e, PullLow(mode, e, a0, m, gap), m, gap, s, lines, budget + gap);
    PullsReach(mode, e, a0, m, gap);
    a := a0;
    var start, end := m.work.start, m.work.end;
    if e.low {
      var snaps := m.reservedLow > 0.0 && CanSnap(a.start, start, gap);
      if !snaps {
        start := start - (m.reservedLow + m.borderLow);
        snaps := CanSnap(a.start, start, gap);
      }
      if snaps {
        a := SnapLow(mode, a, start);
      }
    }
    assert a == PullLow(mode, e, a0, m, gap);
    if e.high {
      var snaps := m.reservedHigh > 0.0 && CanSnap(a.end, end, gap);
      if !snaps {
        end := end + (m.reservedHigh + m.borderHigh);
        snaps := CanSnap(a.end, end, gap);
      }
      if snaps {
        a := SnapHigh(mode, a, end);
      }
    }
  }

  // ----- the whole of performSnap --------------------------------------------------------------------

  datatype Vec = Vec(x: real, y: real)

  datatype Extents = Extents(left: real, top: real, right: real, bottom: real)

  datatype Box = Box(pos: Vec, size: Vec)

  /** The `general:snap` settings with the gaps they refer to (zero when gaps are not respected). */
  datatype Config = Config(windowGap: nat, monitorGap: nat, borderOverlap: bool, respectGaps: bool,
                           gapsIn: Extents, gapsOut: Extents) {
    function MarginX(): real {
      if respectGaps then gapsIn.left + gapsIn.right else 0.0
    }

    function MarginY(): real {
      if respectGaps then gapsIn.top + gapsIn.bottom else 0.0
    }
  }

  /** Everything performSnap reads besides the dragged box: the other windows, the monitor's box
      without its reserved areas, and those areas. */
  datatype Scene = Scene(others: seq<Other>, hasFullscreen: bool, area: Box, reserved: Extents)

  /** A call of performSnap but for the box: the mode, what it reads, the borders of the dragged
      window and the edges the drag names. */
  datatype Setup = Setup(mode: Mode, c: Config, s: Scene, ext: Extents, ex: Edges, ey: Edges) {
    function AmongWindows(): Drag {
      Drag(mode, ex, ey, c.MarginX(), c.MarginY(), c.windowGap as real, s.hasFullscreen)
    }

    function ScreenX(): Screen {
      var out := if c.respectGaps then c.gapsOut else Extents(0.0, 0.0, 0.0, 0.0);
      var x, w := s.area.pos.x + out.left, s.area.size.x - (out.left + out.right);
      Screen(Range(x, x + w), s.reserved.left, s.reserved.right,
             if c.borderOverlap then ext.left else 0.0, if c.borderOverlap then ext.right else 0.0)
    }

    function ScreenY(): Screen {
      var out := if c.respectGaps then c.gapsOut else Extents(0.0, 0.0, 0.0, 0.0);
      var y, h := s.area.pos.y + out.top, s.area.size.y - (out.top + out.bottom);
      Screen(Range(y, y + h), s.reserved.top, s.reserved.bottom,
             if c.borderOverlap then ext.top else 0.0, if c.borderOverlap then ext.bottom else 0.0)
    }

    /** All snap lines of one axis. */
    ghost function AllX(): Lines {
      LinesX(s.others, s.hasFullscreen, c.MarginX()).Plus(ScreenX().Both())
    }

    ghost function AllY(): Lines {
      LinesY(s.others, s.hasFullscreen, c.MarginY()).Plus(ScreenY().Both())
    }

    /** The farthest the windows alone, and windows and monitor together, can pull an axis. */
    ghost function WindowPull(): real {
      Gaps(|s.others| + 2, c.windowGap as real)
    }

    function MaxPull(): real {
      (|s.others| + 2) as real * c.windowGap as real + 2.0 * c.monitorGap as real
    }

    /** The ranges of the dragged window, borders included, and back. */
    function RangeX(b: Box): Axis {
      Axis(b.pos.x - ext.left, b.pos.x + b.size.x + ext.right, false, false)
    }

    function RangeY(b: Box): Axis {
      Axis(b.pos.y - ext.top, b.pos.y + b.size.y + ext.bottom, false, false)
    }

    function InnerX(a: Axis): Axis {
      a.(start := a.start + ext.left, end := a.end - ext.right)
    }

    function InnerY(a: Axis): Axis {
      a.(start := a.start + ext.top, end := a.end - ext.bottom)
    }
  }

  function BoxOf(x: Axis, y: Axis): Box {
    Box(Vec(x.start, y.start), Vec(x.end - x.start, y.end - y.start))
  }

  /** No window and no monitor edge is within reach of the box. */
  ghost predicate OutOfReach(u: Setup, b: Box) {
    var x, y := u.RangeX(b), u.RangeY(b);
    && (u.c.windowGap == 0 || NoneInReach(u.AmongWindows(), x, y, u.s.others))
    && ScreenOutOfReach(u.c, u.ex, x, u.ScreenX()) && ScreenOutOfReach(u.c, u.ey, y, u.ScreenY())
  }

  ghost predicate ScreenOutOfReach(c: Config, e: Edges, a: Axis, m: Screen) {
    c.monitorGap == 0 ||
    (var gap := c.monitorGap as real;
     !(e.low && Near(a.start, m.LowLines(), gap)) && !(e.high && Near(a.end, m.HighLines(), gap)))
  }

  /** The ranges after the windows, and after the monitor. */
  function WindowRanges(u: Setup, x: Axis, y: Axis): (Axis, Axis) {
    if u.c.windowGap == 0 then (x, y) else AllSteps(u.AmongWindows(), x, y, u.s.others)
  }

  function MonitorRange(mode: Mode, c: Config, e: Edges, a: Axis, m: Screen): Axis {
    var gap := c.monitorGap as real;
    if c.monitorGap == 0 then a else PullHigh(mode, e, PullLow(mode, e, a, m, gap), m, gap)
  }

  function FinalRanges(u: Setup, b: Box): (Axis, Axis) {
    var (x, y) := WindowRanges(u, u.RangeX(b), u.RangeY(b));
    (MonitorRange(u.mode, u.c, u.ex, x, u.ScreenX()), MonitorRange(u.mode, u.c, u.ey, y, u.ScreenY()))
  }

  method SnapToAllWindows(u: Setup, x0: Axis, y0: Axis) returns (x: Axis, y: Axis)
    requires Untouched(x0, y0)
    ensures (x, y) == WindowRanges(u, x0, y0)
    ensures Kept(u.mode, u.ex, x0, x, LinesX(u.s.others, u.s.hasFullscreen, u.c.MarginX()), u.WindowPull())
    ensures Kept(u.mode, u.ey, y0, y, LinesY(u.s.others, u.s.hasFullscreen, u.c.MarginY()), u.WindowPull())
    ensures Untouched(x, y) <==> u.c.windowGap == 0 || NoneInReach(u.AmongWindows(), x0, y0, u.s.others)
    ensures Untouched(x, y) ==> x == x0 && y == y0
  {
    if u.c.windowGap != 0 {
      x, y := SnapToWindows(u.AmongWindows(), x0, y0, u.s.others);
    } else {
      x, y := x0, y0;
      GapsGrow(0, |u.s.others| + 2, 0.0);
    }
  }

  /** One axis against the monitor, when monitor snapping is on. */
  method SnapToMonitorAxis(mode: Mode, c: Config, e: Edges, a0: Axis, m: Screen,
                           ghost s: Axis, ghost lines: Lines, ghost budget: real)
    returns (a: Axis)
    requires Kept(mode, e, s, a0, lines, budget)
    ensures a == MonitorRange(mode, c, e, a0, m)
    ensures Kept(mode, e, s, a, lines.Plus(m.Both()), budget + 2.0 * c.monitorGap as real)
    ensures !a.Snapped() <==> !a0.Snapped() && ScreenOutOfReach(c, e, a0, m)
    ensures mode != Move && c.monitorGap != 0 ==> OnScreenEdge(c, e, a, m)
    ensures !a.Snapped() ==> a == a0
  {
    hide Kept, Near, PullLow, PullHigh;
    ghost var all := lines.Plus(m.Both());
    KeptMore(mode, e, s, a0, lines, all, budget, budget);
    if c.monitorGap != 0 {
      a := SnapToScreen(mode, e, a0, m, c.monitorGap as real, s, all, budget);
      KeptMore(mode, e, s, a, all, all, budget + c.monitorGap as real + c.monitorGap as real,
               budget + 2.0 * c.monitorGap as real);
    } else {
      a := a0;
    }
  }

  /** Where a resized edge may end: where it was, or -- if the drag names it -- on a snap line not
      farther away than the pull. */
  ghost predicate EdgeRule(named: bool, was: real, now: real, lines: set<real>, pull: real) {
    now == was || (named && now in lines && Abs(now - was) <= pull)
  }

  ghost predicate AxisRule(e: Edges, was: Axis, now: Axis, lines: Lines, pull: real) {
    EdgeRule(e.low, was.start, now.start, lines.low, pull) && EdgeRule(e.high, was.end, now.end, lines.high, pull)
  }

  /** A diagonal corner names one edge of each axis. */
  predicate Diagonal(ex: Edges, ey: Edges) {
    ex.low != ex.high && ey.low != ey.high
  }

  predicate SameRange(a: Axis, b: Axis) {
    a.start == b.start && a.end == b.end
  }

  /** The ratio is back after a snap: the axis that snapped -- x, if both did -- is unchanged, and the
      other one has its size corrected at its low edge if the drag names that, else at its high edge. */
  ghost predicate Restored(ex: Edges, ey: Edges, x0: Axis, y0: Axis, x: Axis, y: Axis, begin: Vec) {
    if Untouched(x0, y0) then SameRange(x, x0) && SameRange(y, y0)
    else
      && x.Size() * begin.y == y.Size() * begin.x
      && if x0.Snapped() then SameRange(x, x0) && if ey.low then y.end == y0.end else y.start == y0.start
         else SameRange(y, y0) && if ex.low then x.end == x0.end else x.start == x0.start
  }

  /** Recomputes one side from the other so that the window keeps the ratio it began with. */
  method RestoreRatio(ex: Edges, ey: Edges, x0: Axis, y0: Axis, begin: Vec) returns (x: Axis, y: Axis)
    requires begin.x != 0.0 && begin.y != 0.0
    requires (x0.low ==> ex.low) && (x0.high ==> ex.high) && (y0.low ==> ey.low) && (y0.high ==> ey.high)
    ensures Restored(ex, ey, x0, y0, x, y, begin)
  {
    x, y := x0, y0;
    if (ex.low && x.low) || (ex.high && x.high) {
      var sizeY := (x.end - x.start) * (begin.y / begin.x);
      RatioKept(x.end - x.start, begin.x, begin.y);
      if ey.low {
        y := y.(start := y.end - sizeY);
      } else {
        y := y.(end := y.start + sizeY);
      }
      assert y.Size() == sizeY;
    } else if (ey.low && y.low) || (ey.high && y.high) {
      var sizeX := (y.end - y.start) * (begin.x / begin.y);
      RatioKept(y.end - y.start, begin.y, begin.x);
      if ex.low {
        x := x.(start := x.end - sizeX);
      } else {
        x := x.(end := x.start + sizeX);
      }
      assert x.Size() == sizeX;
    }
  }

  lemma RatioKept(w: real, bx: real, by_: real)
    requires bx != 0.0
    ensures (w * (by_ / bx)) * bx == w * by_
  {
    assert (by_ / bx) * bx == by_;
  }

  /** The monitor has the last word: a dragged edge near one of its lines is on one of them. */
  ghost predicate OnScreenEdge(c: Config, e: Edges, a: Axis, m: Screen) {
    && (e.low && Near(a.start, m.LowLines(), c.monitorGap as real) ==> a.start in m.LowLines())
    && (e.high && Near(a.end, m.HighLines(), c.monitorGap as real) ==> a.end in m.HighLines())
  }

  /** What the ranges x and y, got from the box b, have kept. */
  ghost predicate KeptBoth(u: Setup, b: Box, x: Axis, y: Axis) {
    && Kept(u.mode, u.ex, u.RangeX(b), x, u.AllX(), u.MaxPull())
    && Kept(u.mode, u.ey, u.RangeY(b), y, u.AllY(), u.MaxPull())
    && (u.mode != Move && u.c.monitorGap != 0 ==>
          OnScreenEdge(u.c, u.ex, x, u.ScreenX()) && OnScreenEdge(u.c, u.ey, y, u.ScreenY()))
  }

  /** The snapping phases, on the ranges with borders: first the windows, then the monitor. */
  method SnapRanges(u: Setup, b: Box) returns (x: Axis, y: Axis)
    ensures (x, y) == FinalRanges(u, b)
    ensures KeptBoth(u, b, x, y)
    ensures Untouched(x, y) <==> OutOfReach(u, b)
  {
    hide Kept, Near, NoneInReach, AllSteps, MonitorRange, OnScreenEdge, ScreenOutOfReach;
    ghost var lx := LinesX(u.s.others, u.s.hasFullscreen, u.c.MarginX());
    ghost var ly := LinesY(u.s.others, u.s.hasFullscreen, u.c.MarginY());
    x, y := SnapToAllWindows(u, u.RangeX(b), u.RangeY(b));
    x := SnapToMonitorAxis(u.mode, u.c, u.ex, x, u.ScreenX(), u.RangeX(b), lx, u.WindowPull());
    y := SnapToMonitorAxis(u.mode, u.c, u.ey, y, u.ScreenY(), u.RangeY(b), ly, u.WindowPull());
    PullIsProduct(u);
  }

  lemma PullIsProduct(u: Setup)
    ensures u.WindowPull() + 2.0 * u.c.monitorGap as real == u.MaxPull()
  {
    GapsIsProduct(|u.s.others| + 2, u.c.windowGap as real);
  }

  // ----- what it means for the box -------------------------------------------------------------------

  /** A named edge of the box is on a snap line. */
  ghost predicate BoxLanded(u: Setup, r: Box) {
    Landed(u.ex, u.RangeX(r), u.AllX()) || Landed(u.ey, u.RangeY(r), u.AllY())
  }

  /** Moving is a rigid translation by a bounded amount; an axis that moves gets a named edge onto a
      snap line. */
  ghost predicate MoveRule(u: Setup, b: Box, r: Box) {
    && r.size == b.size
    && Abs(r.pos.x - b.pos.x) <= u.MaxPull() && Abs(r.pos.y - b.pos.y) <= u.MaxPull()
    && (r.pos.x != b.pos.x ==> Landed(u.ex, u.RangeX(r), u.AllX()))
    && (r.pos.y != b.pos.y ==> Landed(u.ey, u.RangeY(r), u.AllY()))
  }

  /** Resizing moves only named edges, each onto a snap line; the monitor's lines win. */
  ghost predicate ResizeRule(u: Setup, b: Box, r: Box) {
    && AxisRule(u.ex, u.RangeX(b), u.RangeX(r), u.AllX(), u.MaxPull())
    && AxisRule(u.ey, u.RangeY(b), u.RangeY(r), u.AllY(), u.MaxPull())
    && (u.c.monitorGap != 0 ==> OnScreenEdge(u.c, u.ex, u.RangeX(r), u.ScreenX()) &&
                                OnScreenEdge(u.c, u.ey, u.RangeY(r), u.ScreenY()))
  }

  /** Forcing the ratio restores it after any snap while one axis keeps its snapped edges; when a
      diagonal corner is dragged, the other two edges stay. */
  ghost predicate RatioRule(u: Setup, begin: Vec, b: Box, r: Box, snapped: bool) {
    && (snapped ==> r.size.x * begin.y == r.size.y * begin.x)
    && (AxisRule(u.ex, u.RangeX(b), u.RangeX(r), u.AllX(), u.MaxPull()) ||
        AxisRule(u.ey, u.RangeY(b), u.RangeY(r), u.AllY(), u.MaxPull()))
    && (Diagonal(u.ex, u.ey) ==>
          && (!u.ex.low ==> r.pos.x == b.pos.x) && (!u.ex.high ==> r.pos.x + r.size.x == b.pos.x + b.size.x)
          && (!u.ey.low ==> r.pos.y == b.pos.y) && (!u.ey.high ==> r.pos.y + r.size.y == b.pos.y + b.size.y))
  }

  lemma SameEdges(c: Config, e: Edges, a: Axis, b: Axis, m: Screen)
    requires SameRange(a, b)
    ensures OnScreenEdge(c, e, a, m) == OnScreenEdge(c, e, b, m)
  {
  }

  /** A snapped axis has landed. */
  lemma KeptLands(mode: Mode, e: Edges, a0: Axis, a: Axis, lines: Lines, budget: real)
    requires Kept(mode, e, a0, a, lines, budget) && a.Snapped()
    ensures Landed(e, a, lines)
  {
  }

  lemma KeptAxis(mode: Mode, e: Edges, a0: Axis, a: Axis, lines: Lines, budget: real)
    requires mode != Move && Kept(mode, e, a0, a, lines, budget)
    ensures AxisRule(e, a0, a, lines, budget)
    ensures (!e.low ==> a.start == a0.start) && (!e.high ==> a.end == a0.end)
  {
  }

  lemma MovedAxis(e: Edges, a0: Axis, a: Axis, lines: Lines, budget: real)
    requires Kept(Move, e, a0, a, lines, budget)
    ensures a.Size() == a0.Size() && Abs(a.start - a0.start) <= budget
    ensures a.start != a0.start ==> Landed(e, a, lines)
  {
  }

  /** The ranges of the box are the ranges it was made of. */
  lemma BoxRanges(u: Setup, x: Axis, y: Axis)
    ensures var r := BoxOf(u.InnerX(x), u.InnerY(y)); SameRange(u.RangeX(r), x) && SameRange(u.RangeY(r), y)
  {
  }

  lemma MoveKept(u: Setup, b: Box, x: Axis, y: Axis)
    requires u.mode.Move? && KeptBoth(u, b, x, y)
    ensures var r := BoxOf(u.InnerX(x), u.InnerY(y)); MoveRule(u, b, r) && (!Untouched(x, y) ==> BoxLanded(u, r))
  {
    hide Kept;
    var lx, ly, pull := u.AllX(), u.AllY(), u.MaxPull();
    MovedAxis(u.ex, u.RangeX(b), x, lx, pull);
    MovedAxis(u.ey, u.RangeY(b), y, ly, pull);
    BoxRanges(u, x, y);
    if x.Snapped() {
      KeptLands(u.mode, u.ex, u.RangeX(b), x, lx, pull);
    }
    if y.Snapped() {
      KeptLands(u.mode, u.ey, u.RangeY(b), y, ly, pull);
    }
  }

  lemma ResizeKept(u: Setup, b: Box, x: Axis, y: Axis)
    requires u.mode != Move && KeptBoth(u, b, x, y)
    ensures var r := BoxOf(u.InnerX(x), u.InnerY(y)); ResizeRule(u, b, r) && (!Untouched(x, y) ==> BoxLanded(u, r))
  {
    hide Kept, OnScreenEdge;
    var r := BoxOf(u.InnerX(x), u.InnerY(y));
    var lx, ly, pull := u.AllX(), u.AllY(), u.MaxPull();
    BoxRanges(u, x, y);
    SameEdges(u.c, u.ex, x, u.RangeX(r), u.ScreenX());
    SameEdges(u.c, u.ey, y, u.RangeY(r), u.ScreenY());
    KeptAxis(u.mode, u.ex, u.RangeX(b), x, lx, pull);
    KeptAxis(u.mode, u.ey, u.RangeY(b), y, ly, pull);
    if x.Snapped() {
      KeptLands(u.mode, u.ex, u.RangeX(b), x, lx, pull);
    }
    if y.Snapped() {
      KeptLands(u.mode, u.ey, u.RangeY(b), y, ly, pull);
    }
  }

  lemma RatioKeeps(u: Setup, begin: Vec, b: Box, xo: Axis, yo: Axis, x: Axis, y: Axis)
    requires u.mode.ResizeForceRatio? && KeptBoth(u, b, xo, yo)
    requires Restored(u.ex, u.ey, u.InnerX(xo), u.InnerY(yo), x, y, begin)
    ensures RatioRule(u, begin, b, BoxOf(x, y), !Untouched(xo, yo)) && (!Untouched(xo, yo) ==> BoxLanded(u, BoxOf(x, y)))
  {
    hide Kept, OnScreenEdge, AxisRule, Landed, Restored;
    var lx, ly, pull := u.AllX(), u.AllY(), u.MaxPull();
    KeptAxis(u.mode, u.ex, u.RangeX(b), xo, lx, pull);
    KeptAxis(u.mode, u.ey, u.RangeY(b), yo, ly, pull);
    RatioSides(u, begin, b, xo, yo, x, y);
    if xo.Snapped() {
      KeptLands(u.mode, u.ex, u.RangeX(b), xo, lx, pull);
      SameLanding(u.ex, u.RangeX(b), xo, u.RangeX(BoxOf(x, y)), lx, pull);
    } else {
      SameLanding(u.ey, u.RangeY(b), yo, u.RangeY(BoxOf(x, y)), ly, pull);
      if yo.Snapped() {
        KeptLands(u.mode, u.ey, u.RangeY(b), yo, ly, pull);
      }
    }
  }

  lemma SameLanding(e: Edges, a0: Axis, a: Axis, b: Axis, lines: Lines, pull: real)
    requires SameRange(b, a)
    ensures Landed(e, a, lines) ==> Landed(e, b, lines)
    ensures AxisRule(e, a0, a, lines, pull) ==> AxisRule(e, a0, b, lines, pull)
  {
  }

  /** The sides of the restored box. */
  lemma RatioSides(u: Setup, begin: Vec, b: Box, xo: Axis, yo: Axis, x: Axis, y: Axis)
    requires Restored(u.ex, u.ey, u.InnerX(xo), u.InnerY(yo), x, y, begin)
    requires (!u.ex.low ==> xo.start == u.RangeX(b).start) && (!u.ex.high ==> xo.end == u.RangeX(b).end)
    requires (!u.ey.low ==> yo.start == u.RangeY(b).start) && (!u.ey.high ==> yo.end == u.RangeY(b).end)
    ensures var r := BoxOf(x, y);
            && (!Untouched(xo, yo) ==> r.size.x * begin.y == r.size.y * begin.x)
            && (if xo.Snapped() then SameRange(u.RangeX(r), xo) else SameRange(u.RangeY(r), yo))
            && (Diagonal(u.ex, u.ey) ==>
                  && (!u.ex.low ==> r.pos.x == b.pos.x) && (!u.ex.high ==> r.pos.x + r.size.x == b.pos.x + b.size.x)
                  && (!u.ey.low ==> r.pos.y == b.pos.y) && (!u.ey.high ==> r.pos.y + r.size.y == b.pos.y + b.size.y))
  {
    var r := BoxOf(x, y);
    assert r.size.x == x.Size() && r.size.y == y.Size();
  }

  lemma NothingKept(u: Setup, b: Box, x: Axis, y: Axis)
    requires KeptBoth(u, b, x, y) && Untouched(x, y)
    ensures BoxOf(u.InnerX(x), u.InnerY(y)) == b
  {
    var lx, ly, pull := u.AllX(), u.AllY(), u.MaxPull();
    assert SameRange(x, u.RangeX(b)) && SameRange(y, u.RangeY(b));
  }

  /** The axes of a box. */
  function BareX(r: Box): Axis {
    Axis(r.pos.x, r.pos.x + r.size.x, false, false)
  }

  function BareY(r: Box): Axis {
    Axis(r.pos.y, r.pos.y + r.size.y, false, false)
  }

  /** The box is the one the final ranges leave: without their borders, and in force-ratio mode with
      the ratio restored. */
  ghost predicate FinalBox(u: Setup, begin: Vec, x: Axis, y: Axis, r: Box) {
    if u.mode.ResizeForceRatio? then Restored(u.ex, u.ey, u.InnerX(x), u.InnerY(y), BareX(r), BareY(r), begin)
    else r == BoxOf(u.InnerX(x), u.InnerY(y))
  }

  // ----- the same in coordinates -----------------------------------------------------------------------

  /** Window snapping alone, with one other window. */
  ghost predicate WindowRule(u: Setup, b: Box, r: Box) {
    u.mode != ResizeForceRatio && u.c.windowGap > 0 && u.c.monitorGap == 0 && |u.s.others| == 1 ==>
      var w, c := u.s.others[0], u.c;
      var d := Drag(u.mode, u.ex, u.ey, if c.respectGaps then c.gapsIn.left + c.gapsIn.right else 0.0,
                    if c.respectGaps then c.gapsIn.top + c.gapsIn.bottom else 0.0, c.windowGap as real, u.s.hasFullscreen);
      var left, right := b.pos.x - u.ext.left, b.pos.x + b.size.x + u.ext.right;
      var top, bottom := b.pos.y - u.ext.top, b.pos.y + b.size.y + u.ext.bottom;
      if w.dragged || !w.sameWorkspace || !w.mapped || w.overrideRedirect || (u.s.hasFullscreen && !w.overFullscreen) then
        r == b
      else
        Extended(d, w.x, w.y, left, right, top, bottom) ==>
          OneWindow(d, w.x, w.y, left, right, top, bottom,
                    r.pos.x - u.ext.left, r.pos.x + r.size.x + u.ext.right,
                    r.pos.y - u.ext.top, r.pos.y + r.size.y + u.ext.bottom)
  }

  /** One axis against the monitor: the low edge l shifts the range first, then the high edge h.  Each
      is held against the work area if space is reserved there, else against the physical edge. */
  ghost predicate MonitorAxis(move: bool, e: Edges, gap: real, l: real, h: real, workLow: real, reservedLow: real, outerLow: real,
                              workHigh: real, reservedHigh: real, outerHigh: real, l1: real, h1: real) {
    var lowLine := if reservedLow > 0.0 && Close(l, workLow, gap) then workLow else outerLow;
    var low := if e.low && Close(l, lowLine, gap) then lowLine - l else 0.0;
    var h' := if move then h + low else h;
    var highLine := if reservedHigh > 0.0 && Close(h', workHigh, gap) then workHigh else outerHigh;
    var high := if e.high && Close(h', highLine, gap) then highLine - h' else 0.0;
    l1 == (if move then l + low + high else l + low) && h1 == h' + high
  }

  /** Monitor snapping alone. */
  ghost predicate MonitorRule(u: Setup, b: Box, r: Box) {
    u.mode != ResizeForceRatio && u.c.windowGap == 0 && u.c.monitorGap > 0 ==>
      var area, reserved, gap, move := u.s.area, u.s.reserved, u.c.monitorGap as real, u.mode.Move?;
      var out := if u.c.respectGaps then u.c.gapsOut else Extents(0.0, 0.0, 0.0, 0.0);
      var over := if u.c.borderOverlap then u.ext else Extents(0.0, 0.0, 0.0, 0.0);
      var left, right := area.pos.x + out.left, area.pos.x + area.size.x - out.right;
      var top, bottom := area.pos.y + out.top, area.pos.y + area.size.y - out.bottom;
      && MonitorAxis(move, u.ex, gap, b.pos.x - u.ext.left, b.pos.x + b.size.x + u.ext.right,
                     left, reserved.left, left - reserved.left - over.left,
                     right, reserved.right, right + reserved.right + over.right,
                     r.pos.x - u.ext.left, r.pos.x + r.size.x + u.ext.right)
      && MonitorAxis(move, u.ey, gap, b.pos.y - u.ext.top, b.pos.y + b.size.y + u.ext.bottom,
                     top, reserved.top, top - reserved.top - over.top,
                     bottom, reserved.bottom, bottom + reserved.bottom + over.bottom,
                     r.pos.y - u.ext.top, r.pos.y + r.size.y + u.ext.bottom)
  }

  /** The box without ratio forcing. */
  function Result(u: Setup, b: Box): Box {
    BoxOf(u.InnerX(FinalRanges(u, b).0), u.InnerY(FinalRanges(u, b).1))
  }

  lemma WindowRuleHolds(u: Setup, b: Box)
    ensures WindowRule(u, b, Result(u, b))
  {
    hide Step, OneWindow, Extended, OutOfReach;
    if u.mode != ResizeForceRatio && u.c.windowGap > 0 && u.c.monitorGap == 0 && |u.s.others| == 1 {
      var w, x0, y0 := u.s.others[0], u.RangeX(b), u.RangeY(b);
      assert u.s.others == [] + [w];
      StepsMore(u.AmongWindows(), x0, y0, [], w);
      if !Skipped(w, u.s.hasFullscreen) && Extended(u.AmongWindows(), w.x, w.y, x0.start, x0.end, y0.start, y0.end) {
        StepInCoordinates(u.AmongWindows(), x0, y0, w);
        BoxRanges(u, FinalRanges(u, b).0, FinalRanges(u, b).1);
      }
    }
  }

  lemma {:induction false} PullsInCoordinates(mode: Mode, e: Edges, a: Axis, m: Screen, gap: real)
    ensures var p := PullHigh(mode, e, PullLow(mode, e, a, m, gap), m, gap);
            MonitorAxis(mode.Move?, e, gap, a.start, a.end, m.work.start, m.reservedLow, m.work.start - m.reservedLow - m.borderLow,
                        m.work.end, m.reservedHigh, m.work.end + m.reservedHigh + m.borderHigh, p.start, p.end)
  {
    hide PullLow, PullHigh;
    LowInCoordinates(mode, e, a, m, gap);
    HighInCoordinates(mode, e, PullLow(mode, e, a, m, gap), m, gap);
  }

  lemma LowInCoordinates(mode: Mode, e: Edges, a: Axis, m: Screen, gap: real)
    ensures var line := if m.reservedLow > 0.0 && Close(a.start, m.work.start, gap) then m.work.start
                        else m.work.start - m.reservedLow - m.borderLow;
            var shift := if e.low && Close(a.start, line, gap) then line - a.start else 0.0;
            var p := PullLow(mode, e, a, m, gap);
            p.start == a.start + shift && p.end == if mode.Move? then a.end + shift else a.end
  {
  }

  lemma HighInCoordinates(mode: Mode, e: Edges, a: Axis, m: Screen, gap: real)
    ensures var line := if m.reservedHigh > 0.0 && Close(a.end, m.work.end, gap) then m.work.end
                        else m.work.end + m.reservedHigh + m.borderHigh;
            var shift := if e.high && Close(a.end, line, gap) then line - a.end else 0.0;
            var p := PullHigh(mode, e, a, m, gap);
            p.end == a.end + shift && p.start == if mode.Move? then a.start + shift else a.start
  {
  }

  lemma {:induction false} MonitorRuleHolds(u: Setup, b: Box)
    ensures MonitorRule(u, b, Result(u, b))
  {
    hide PullLow, PullHigh, MonitorAxis, AllSteps;
    PullsInCoordinates(u.mode, u.ex, u.RangeX(b), u.ScreenX(), u.c.monitorGap as real);
    PullsInCoordinates(u.mode, u.ey, u.RangeY(b), u.ScreenY(), u.c.monitorGap as real);
    BoxRanges(u, FinalRanges(u, b).0, FinalRanges(u, b).1);
    assert u.ScreenX().work.start - u.ScreenX().reservedLow - u.ScreenX().borderLow ==
           u.ScreenX().work.start - u.s.reserved.left - (if u.c.borderOverlap then u.ext.left else 0.0);
  }

  function OnlyWindows(u: Setup): Setup {
    u.(c := u.c.(monitorGap := 0))
  }

  function OnlyMonitor(u: Setup): Setup {
    u.(c := u.c.(windowGap := 0))
  }

  /** The monitor acts on what the windows have made of the box. */
  lemma {:induction false} WindowsThenMonitor(u: Setup, b: Box)
    ensures Result(u, b) == Result(OnlyMonitor(u), Result(OnlyWindows(u), b))
  {
    hide PullLow, PullHigh, AllSteps;
    var (x, y) := WindowRanges(u, u.RangeX(b), u.RangeY(b));
    assert WindowRanges(OnlyWindows(u), u.RangeX(b), u.RangeY(b)) == (x, y);
    var b' := Result(OnlyWindows(u), b);
    BoxRanges(u, x, y);
    PullsSame(u.mode, u.ex, x, u.RangeX(b'), u.ScreenX(), u.c.monitorGap as real);
    PullsSame(u.mode, u.ey, y, u.RangeY(b'), u.ScreenY(), u.c.monitorGap as real);
  }

  lemma PullsSame(mode: Mode, e: Edges, a: Axis, b: Axis, m: Screen, gap: real)
    requires SameRange(a, b)
    ensures SameRange(PullHigh(mode, e, PullLow(mode, e, a, m, gap), m, gap),
                      PullHigh(mode, e, PullLow(mode, e, b, m, gap), m, gap))
  {
  }

  /** A window that is dragged itself, elsewhere, unmapped, override-redirect or below a fullscreen one
      has no effect at all. */
  lemma OthersDoNotMatter(u: Setup, b: Box, before: seq<Other>, w: Other, after: seq<Other>)
    requires u.s.others == before + [w] + after
    requires w.dragged || !w.sameWorkspace || !w.mapped || w.overrideRedirect || (u.s.hasFullscreen && !w.overFullscreen)
    ensures Result(u, b) == Result(u.(s := u.s.(others := before + after)), b)
  {
    hide Step, MonitorRange;
    var d, x, y := u.AmongWindows(), u.RangeX(b), u.RangeY(b);
    StepsAppend(d, x, y, before + [w], after);
    StepsAppend(d, x, y, before, after);
    StepsMore(d, x, y, before, w);
    assert u.(s := u.s.(others := before + after)).AmongWindows() == d;
  }

  /** Of two windows whose far edges are close to each other and, the first one, to the low edge of
      the drag, the one that comes later in the list gets it. */
  lemma {:induction false} LastWindowWins(d: Drag, x: Axis, y: Axis, v: Other, w: Other)
    requires Untouched(x, y) && d.ex.low && d.ey == Edges(false, false) && !Skipped(v, d.hasFullscreen) && !Skipped(w, d.hasFullscreen)
    requires Extended(d, v.x, v.y, x.start, x.end, y.start, y.end) && x.Size() >= 4.0 * d.gap && w.x.start < w.x.end
    requires v.y.start - d.my <= y.end && y.start <= v.y.end + d.my && w.y.start - d.my <= y.end && y.start <= w.y.end + d.my
    requires Close(x.start, v.x.end + d.mx, d.gap) && Close(v.x.end + d.mx, w.x.end + d.mx, d.gap)
    ensures AllSteps(d, x, y, [v, w]).0.start == w.x.end + d.mx
  {
    assert [v, w] == [v] + [w] && [v] == [] + [v];
    StepsMore(d, x, y, [], v);
    StepsMore(d, x, y, [v], w);
    var x1, y1 := AllSteps(d, x, y, [v]).0, AllSteps(d, x, y, [v]).1;
    LowBeside(d, x, y, v);
    LowBeside(d, x1, y1, w);
  }

  lemma LowBeside(d: Drag, x: Axis, y: Axis, w: Other)
    requires d.gap > 0.0 && d.mx >= 0.0 && w.x.start < w.x.end && d.ex.low && d.ey == Edges(false, false)
    requires x.Size() >= d.gap + d.gap && Close(x.start, w.x.end + d.mx, d.gap)
    requires w.y.start - d.my <= y.end && y.start <= w.y.end + d.my
    ensures var (x1, y1) := Step(d, x, y, w);
            x1.start == w.x.end + d.mx && y1 == y && x1.Size() >= x.Size() - d.gap
  {
  }

  method PerformSnap(u: Setup, begin: Vec, b: Box) returns (r: Box, snapped: bool)
    requires u.mode.ResizeForceRatio? ==> begin.x != 0.0 && begin.y != 0.0
    ensures u.mode.Move? ==> MoveRule(u, b, r)
    ensures u.mode.Resize? || u.mode.ResizeBlockRatio? ==> ResizeRule(u, b, r)
    ensures u.mode.ResizeForceRatio? ==> RatioRule(u, begin, b, r, snapped)
    // it snaps exactly when something is within reach: then a named edge lands on a snap line,
    // otherwise nothing changes
    ensures snapped <==> !OutOfReach(u, b)
    ensures if snapped then BoxLanded(u, r) else r == b
    // and step by step
    ensures FinalBox(u, begin, FinalRanges(u, b).0, FinalRanges(u, b).1, r)
    // which means, in coordinates, for a single window and for the monitor
    ensures WindowRule(u, b, r) && MonitorRule(u, b, r)
  {
    hide FinalRanges, OutOfReach, KeptBoth, OneWindow, MonitorAxis;
    WindowRuleHolds(u, b);
    MonitorRuleHolds(u, b);
    var x, y := SnapRanges(u, b);
    snapped := !Untouched(x, y);
    r := RemoveBorders(u, begin, b, x, y);
  }

  /** The end of performSnap: borders off, then the ratio. */
  method RemoveBorders(u: Setup, begin: Vec, ghost b: Box, x0: Axis, y0: Axis) returns (r: Box)
    requires u.mode.ResizeForceRatio? ==> begin.x != 0.0 && begin.y != 0.0
    requires KeptBoth(u, b, x0, y0)
    ensures u.mode.Move? ==> MoveRule(u, b, r)
    ensures u.mode.Resize? || u.mode.ResizeBlockRatio? ==> ResizeRule(u, b, r)
    ensures u.mode.ResizeForceRatio? ==> RatioRule(u, begin, b, r, !Untouched(x0, y0))
    ensures if Untouched(x0, y0) then r == b else BoxLanded(u, r)
    ensures FinalBox(u, begin, x0, y0, r)
  {
    hide MoveRule, ResizeRule, RatioRule, BoxLanded, KeptBoth;
    var x, y := u.InnerX(x0), u.InnerY(y0);
    if Untouched(x0, y0) {
      NothingKept(u, b, x0, y0);
    }
    if u.mode.Move? {
      MoveKept(u, b, x0, y0);
    } else if u.mode.ResizeForceRatio? {
      FlagsAreNamed(u, b, x0, y0);
      x, y := RestoreRatio(u.ex, u.ey, x, y, begin);
      RatioKeeps(u, begin, b, x0, y0, x, y);
    } else {
      ResizeKept(u, b, x0, y0);
    }
    r := BoxOf(x, y);
  }

  lemma FlagsAreNamed(u: Setup, b: Box, x: Axis, y: Axis)
    requires KeptBoth(u, b, x, y)
    ensures (x.low ==> u.ex.low) && (x.high ==> u.ex.high) && (y.low ==> u.ey.low) && (y.high ==> u.ey.high)
  {
  }
}
