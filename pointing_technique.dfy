/**
 * The Bubble Cursor of Grossman and Balakrishnan (CHI 2005).
 *
 * On every pointer move the cursor scans its target list once, finding the
 * nearest and second-nearest target centre (strict `<`, so the first of
 * several equally near targets wins). The bubble radius is the smaller of
 * the containment distance (nearest distance plus the target radius) and
 * the intersecting distance (second-nearest distance minus the target
 * radius); when the containment distance is the larger, a highlight ring
 * around the nearest target is switched on.
 *
 * Distances are Euclidean. They are kept exactly: a distance is `Fin(sq)`,
 * standing for the square root of the integer `sq`, or `Inf`; a radius is
 * `Finite(a, k)`, standing for sqrt(a) + k, or `PosInf`. The comparisons
 * on these are decided in integers and proved to agree with the comparisons
 * of the real numbers they stand for.
 */
module PointingTechnique {
  import opened Wrappers
  import opened Geometry

  /** A target: its centre and its size (the size is carried but never read by the cursor). */
  datatype Target = Target(x: int, y: int, size: int)

  // ---------------------------------------------------------------- distances

  /** A Euclidean distance: sqrt(sq), or infinity (the reset value). */
  datatype Dist = Fin(sq: nat) | Inf

  predicate DistLess(d: Dist, e: Dist)
  {
    match (d, e)
    case (Fin(a), Fin(b)) => a < b
    case (Fin(_), Inf) => true
    case (Inf, _) => false
  }

  /** Comparing finite distances by their squares is comparing the distances. */
  lemma DistLessSound(a: nat, b: nat, x: real, y: real)
    requires 0.0 <= x && x * x == a as real
    requires 0.0 <= y && y * y == b as real
    ensures DistLess(Fin(a), Fin(b)) <==> x < y
  {
    SquareLessIff(x, y);
  }

  /** A radius: sqrt(root) + offset, or plus infinity. */
  datatype Ext = Finite(root: nat, offset: int) | PosInf

  /** Decides sqrt(a) + c < sqrt(b) without square roots. */
  predicate RootPlusLess(a: nat, c: int, b: nat)
  {
    if c >= 0 then
      var l := b - a - c * c;
      l > 0 && 4 * (c * c) * a < l * l
    else
      var m := a - b - c * c;
      m < 0 || m * m < 4 * (c * c) * b
  }

  lemma CastProduct(m: int, n: int)
    ensures (m * n) as real == (m as real) * (n as real)
  {
  }

  /** sqrt(a) + c < sqrt(b) for c >= 0, squared once: the real form of the first branch. */
  lemma RootPlusLessNonNegative(a: nat, c: int, b: nat, x: real, y: real)
    requires 0 <= c
    requires 0.0 <= x && x * x == a as real
    requires 0.0 <= y && y * y == b as real
    ensures x + c as real < y <==> 2.0 * (c as real) * x < (b - a - c * c) as real
  {
    var cr := c as real;
    SquareLessIff(x + cr, y);
    assert (x + cr) * (x + cr) == x * x + 2.0 * cr * x + cr * cr;
    CastProduct(c, c);
  }

  /** sqrt(a) + c < sqrt(b) for c < 0, squared once: the real form of the second branch. */
  lemma RootPlusLessNegative(a: nat, c: int, b: nat, x: real, y: real)
    requires c < 0
    requires 0.0 <= x && x * x == a as real
    requires 0.0 <= y && y * y == b as real
    ensures x + c as real < y <==> (a - b - c * c) as real < 2.0 * (-c as real) * y
  {
    var d := -c as real;
    SquareLessIff(x, y + d);
    assert (y + d) * (y + d) == y * y + 2.0 * d * y + d * d;
    CastProduct(c, c);
    assert d * d == (c as real) * (c as real);
  }

  /** Squaring a comparison between `2 * k * z` and `l`, both non-negative, with z * z == w. */
  lemma SquareSides(k: nat, w: nat, z: real, l: int)
    requires 0.0 <= z && z * z == w as real
    requires 0 <= l
    ensures 2.0 * (k as real) * z < l as real <==> 4 * (k * k) * w < l * l
    ensures l as real < 2.0 * (k as real) * z <==> l * l < 4 * (k * k) * w
  {
    var u := 2.0 * (k as real) * z;
    assert 0.0 <= u;
    SquareLessIff(u, l as real);
    SquareLessIff(l as real, u);
    assert u * u == 4.0 * ((k as real) * (k as real)) * (z * z);
    CastProduct(k, k);
    CastProduct(4 * (k * k), w);
    CastProduct(l, l);
  }

  lemma RootPlusLessSoundNonNegative(a: nat, c: int, b: nat, x: real, y: real)
    requires 0 <= c
    requires 0.0 <= x && x * x == a as real
    requires 0.0 <= y && y * y == b as real
    ensures RootPlusLess(a, c, b) <==> x + c as real < y
  {
    RootPlusLessNonNegative(a, c, b, x, y);
    var l := b - a - c * c;
    if l > 0 {
      SquareSides(c, a, x, l);
    } else {
      assert 0.0 <= 2.0 * (c as real) * x;
    }
  }

  lemma RootPlusLessSoundNegative(a: nat, c: int, b: nat, x: real, y: real)
    requires c < 0
    requires 0.0 <= x && x * x == a as real
    requires 0.0 <= y && y * y == b as real
    ensures RootPlusLess(a, c, b) <==> x + c as real < y
  {
    RootPlusLessNegative(a, c, b, x, y);
    var m := a - b - c * c;
    if m >= 0 {
      SquareSides(-c, b, y, m);
      assert (-c) * (-c) == c * c;
    } else {
      assert 0.0 <= 2.0 * (-c as real) * y;
    }
  }

  /** The integer decision agrees with the real comparison sqrt(a) + c < sqrt(b). */
  lemma RootPlusLessSound(a: nat, c: int, b: nat, x: real, y: real)
    requires 0.0 <= x && x * x == a as real
    requires 0.0 <= y && y * y == b as real
    ensures RootPlusLess(a, c, b) <==> x + c as real < y
  {
    if c >= 0 {
      RootPlusLessSoundNonNegative(a, c, b, x, y);
    } else {
      RootPlusLessSoundNegative(a, c, b, x, y);
    }
  }

  /** `e < f` on radii, with Python's rules for infinity. */
  predicate ExtLess(e: Ext, f: Ext)
  {
    match (e, f)
    case (Finite(a, p), Finite(b, q)) => RootPlusLess(a, p - q, b)
    case (Finite(_, _), PosInf) => true
    case (PosInf, _) => false
  }

  /** On finite radii ExtLess is the order of the real numbers they stand for. */
  lemma ExtLessSound(a: nat, p: int, b: nat, q: int, x: real, y: real)
    requires 0.0 <= x && x * x == a as real
    requires 0.0 <= y && y * y == b as real
    ensures ExtLess(Finite(a, p), Finite(b, q)) <==> x + p as real < y + q as real
  {
    RootPlusLessSound(a, p - q, b, x, y);
  }

  /** Python's `min(e, f)`: `f` only when it is strictly smaller. */
  function ExtMin(e: Ext, f: Ext): Ext
  {
    if ExtLess(f, e) then f else e
  }

  /** The minimum picks the radius whose real value is smaller, the first one on a tie. */
  lemma ExtMinSound(a: nat, p: int, b: nat, q: int, x: real, y: real)
    requires 0.0 <= x && x * x == a as real
    requires 0.0 <= y && y * y == b as real
    ensures ExtMin(Finite(a, p), Finite(b, q)) == if y + q as real < x + p as real then Finite(b, q) else Finite(a, p)
  {
    ExtLessSound(b, q, a, p, y, x);
  }

  /** `d + k` for a distance and an integer (infinity absorbs k). */
  function Plus(d: Dist, k: int): (e: Ext)
    ensures e.PosInf? <==> d.Inf?
    ensures d.Fin? ==> e == Finite(d.sq, k)
  {
    match d
    case Fin(s) => Finite(s, k)
    case Inf => PosInf
  }

  /** `e + k` for a radius and an integer. */
  function Shift(e: Ext, k: int): (f: Ext)
    ensures f.PosInf? <==> e.PosInf?
    ensures e.Finite? ==> f.root == e.root && f.offset == e.offset + k
  {
    match e
    case Finite(a, p) => Finite(a, p + k)
    case PosInf => PosInf
  }

  /** A distance plus an integer stands for the real sum: the order of such radii is the order of the sums. */
  lemma PlusSound(a: nat, k: int, b: nat, l: int, x: real, y: real)
    requires 0.0 <= x && x * x == a as real
    requires 0.0 <= y && y * y == b as real
    ensures ExtLess(Plus(Fin(a), k), Plus(Fin(b), l)) <==> x + k as real < y + l as real
    ensures ExtLess(Plus(Fin(a), k), Plus(Inf, l)) && !ExtLess(Plus(Inf, k), Plus(Fin(b), l))
  {
    ExtLessSound(a, k, b, l, x, y);
  }

  /** Shifting a radius by k adds k to the real number it stands for, on either side of a comparison. */
  lemma ShiftSound(a: nat, p: int, b: nat, q: int, k: int, x: real, y: real)
    requires 0.0 <= x && x * x == a as real
    requires 0.0 <= y && y * y == b as real
    ensures ExtLess(Shift(Finite(a, p), k), Finite(b, q)) <==> x + p as real + k as real < y + q as real
    ensures ExtLess(Finite(a, p), Shift(Finite(b, q), k)) <==> x + p as real < y + q as real + k as real
    ensures Shift(PosInf, k) == PosInf
  {
    ExtLessSound(a, p + k, b, q, x, y);
    ExtLessSound(a, p, b, q + k, x, y);
  }

  // ---------------------------------------------------------------- the scan

  /** Squared distance from a target centre to the pointer. */
  function SqTo(t: Target, px: int, py: int): nat
  {
    SqDist(t.x, t.y, px, py)
  }

  /** The fields `_find_nearest_targets` updates; targets are list indices. */
  datatype Scan = Scan(best: Option<nat>, second: Option<nat>, current: Dist, distBest: Dist, distSecond: Dist)

  /** What `_filter` resets them to before each scan. */
  const Reset: Scan := Scan(None, None, Inf, Inf, Inf)

  /** One iteration of the scan loop, for target number `i` at distance `d`. */
  function Step(s: Scan, i: nat, d: Dist): Scan
  {
    if DistLess(d, s.distBest) then
      var demoted := if s.best.Some? then s.(second := s.best, distSecond := s.distBest) else s;
      demoted.(best := Some(i), distBest := d, current := d)
    else if DistLess(d, s.distSecond) then
      s.(second := Some(i), distSecond := d, current := d)
    else
      s.(current := d)
  }

  /** The scan state after the first `n` targets, starting from `s0`. */
  function ScanFrom(s0: Scan, ts: seq<Target>, px: int, py: int, n: nat): Scan
    requires n <= |ts|
    decreases n
  {
    if n == 0 then s0
    else Step(ScanFrom(s0, ts, px, py, n - 1), n - 1, Fin(SqTo(ts[n - 1], px, py)))
  }

  /**
   * `j` is the first target among the first `n` (leaving out `excl`) whose
   * centre is nearest to the pointer: no target is nearer, and every target
   * before it is strictly farther.
   */
  ghost predicate FirstNearest(ts: seq<Target>, px: int, py: int, n: nat, j: nat, excl: Option<nat>)
    requires n <= |ts|
  {
    && j < n
    && excl != Some(j)
    && (forall k :: 0 <= k < n && excl != Some(k) ==> SqTo(ts[j], px, py) <= SqTo(ts[k], px, py))
    && (forall k :: 0 <= k < j && excl != Some(k) ==> SqTo(ts[j], px, py) < SqTo(ts[k], px, py))
  }

  /** There is at most one first-nearest target. */
  lemma FirstNearestUnique(ts: seq<Target>, px: int, py: int, n: nat, j1: nat, j2: nat, excl: Option<nat>)
    requires n <= |ts|
    requires FirstNearest(ts, px, py, n, j1, excl) && FirstNearest(ts, px, py, n, j2, excl)
    ensures j1 == j2
  {
  }

  /** What the scan loop keeps true after `n` targets. */
  ghost predicate ScanInv(ts: seq<Target>, px: int, py: int, n: nat, s: Scan)
    requires n <= |ts|
  {
    && (s.best.None? <==> n == 0)
    && (s.best.None? ==> s.distBest == Inf)
    && (s.best.Some? ==> FirstNearest(ts, px, py, n, s.best.value, None)
                         && s.distBest == Fin(SqTo(ts[s.best.value], px, py)))
    && (s.second.None? <==> n < 2)
    && (s.second.None? ==> s.distSecond == Inf)
    && (s.second.Some? ==> FirstNearest(ts, px, py, n, s.second.value, s.best)
                           && s.distSecond == Fin(SqTo(ts[s.second.value], px, py)))
    && s.current == (if n == 0 then Inf else Fin(SqTo(ts[n - 1], px, py)))
  }

  lemma StepKeepsInv(ts: seq<Target>, px: int, py: int, n: nat, s: Scan)
    requires n < |ts|
    requires ScanInv(ts, px, py, n, s)
    ensures ScanInv(ts, px, py, n + 1, Step(s, n, Fin(SqTo(ts[n], px, py))))
  {
    var d := Fin(SqTo(ts[n], px, py));
    var s' := Step(s, n, d);
    if DistLess(d, s.distBest) {
      assert FirstNearest(ts, px, py, n + 1, n, None);
      if s.best.Some? {
        assert FirstNearest(ts, px, py, n + 1, s.best.value, Some(n));
      }
    } else if DistLess(d, s.distSecond) {
      assert FirstNearest(ts, px, py, n + 1, s.best.value, None);
      assert FirstNearest(ts, px, py, n + 1, n, s.best);
    } else {
      assert FirstNearest(ts, px, py, n + 1, s.best.value, None);
      assert FirstNearest(ts, px, py, n + 1, s.second.value, s.best);
    }
  }

  /**
   * After the reset and the scan of the first `n` targets: the best target
   * is the first nearest one, the second best is the first nearest of the
   * others, the two differ, the best distance is at most the second one,
   * and both are the distances of those targets (infinity when absent).
   */
  lemma {:induction false} ScanCorrect(ts: seq<Target>, px: int, py: int, n: nat)
    requires n <= |ts|
    ensures ScanInv(ts, px, py, n, ScanFrom(Reset, ts, px, py, n))
    ensures var s := ScanFrom(Reset, ts, px, py, n);
      && !DistLess(s.distSecond, s.distBest)
      && (s.best.Some? && s.second.Some? ==> s.best != s.second)
    decreases n
  {
    if n > 0 {
      ScanCorrect(ts, px, py, n - 1);
      StepKeepsInv(ts, px, py, n - 1, ScanFrom(Reset, ts, px, py, n - 1));
    }
  }

  /** The scan reads only target centres, never their sizes. */
  lemma {:induction false} ScanIgnoresSize(s0: Scan, ts: seq<Target>, us: seq<Target>, px: int, py: int, n: nat)
    requires n <= |ts| == |us|
    requires forall i :: 0 <= i < |ts| ==> ts[i].x == us[i].x && ts[i].y == us[i].y
    ensures ScanFrom(s0, ts, px, py, n) == ScanFrom(s0, us, px, py, n)
    decreases n
  {
    if n > 0 {
      ScanIgnoresSize(s0, ts, us, px, py, n - 1);
    }
  }

  // ---------------------------------------------------------------- the cursor state

  /**
   * Everything a BubbleCursor holds besides its configuration: the highlight
   * flag, the last pointer position (None before the first move), the scan
   * fields and the bubble radius (None before the first move).
   */
  datatype CursorState = CursorState(showHighlight: bool, last: Option<Coord>, scan: Scan, bubbleRadius: Option<Ext>)

  const Initial: CursorState := CursorState(false, None, Reset, None)

  /** Every stored target index points into the target list. */
  ghost predicate WellFormed(ts: seq<Target>, st: CursorState)
  {
    && (st.scan.best.Some? ==> st.scan.best.value < |ts|)
    && (st.scan.second.Some? ==> st.scan.second.value < |ts|)
  }

  function Containment(s: Scan, r: int): Ext
  {
    Plus(s.distBest, r)
  }

  function Intersecting(s: Scan, r: int): Ext
  {
    Plus(s.distSecond, -r)
  }

  /** `_filter`: reset, scan, then the radius and the (never cleared) highlight flag. */
  function Filtered(ts: seq<Target>, r: int, st: CursorState, px: int, py: int): CursorState
  {
    var s := ScanFrom(Reset, ts, px, py, |ts|);
    var c, i := Containment(s, r), Intersecting(s, r);
    st.(scan := s, bubbleRadius := Some(ExtMin(c, i)), showHighlight := st.showHighlight || ExtLess(i, c))
  }

  /** `onMouseMoved`: remember the pointer, then filter. */
  function Moved(ts: seq<Target>, r: int, st: CursorState, px: int, py: int): CursorState
  {
    Filtered(ts, r, st.(last := Some(Coord(px, py))), px, py)
  }

  /**
   * After a move the selection is the first nearest target and the second
   * best the first nearest of the rest; the state is well formed.
   */
  lemma MovedSelectsNearest(ts: seq<Target>, r: int, st: CursorState, px: int, py: int)
    ensures var m := Moved(ts, r, st, px, py);
      && WellFormed(ts, m)
      && m.last == Some(Coord(px, py))
      && (m.scan.best.None? <==> |ts| == 0)
      && (m.scan.best.Some? ==> FirstNearest(ts, px, py, |ts|, m.scan.best.value, None))
      && (m.scan.second.None? <==> |ts| < 2)
      && (m.scan.second.Some? ==> FirstNearest(ts, px, py, |ts|, m.scan.second.value, m.scan.best))
      && (m.scan.best.Some? && m.scan.second.Some? ==> m.scan.best != m.scan.second)
      && !DistLess(m.scan.distSecond, m.scan.distBest)
  {
    ScanCorrect(ts, px, py, |ts|);
  }

  /**
   * The radius is min(containment, intersecting) and the flag is raised when
   * containment exceeds intersecting, read as real numbers: `x` and `y` are
   * the Euclidean distances to the best and second-best target.
   */
  lemma MovedRadiusAndHighlight(ts: seq<Target>, r: int, st: CursorState, px: int, py: int, x: real, y: real)
    requires |ts| >= 2
    requires var s := ScanFrom(Reset, ts, px, py, |ts|);
      s.distBest.Fin? && s.distSecond.Fin?
      && 0.0 <= x && x * x == s.distBest.sq as real
      && 0.0 <= y && y * y == s.distSecond.sq as real
    ensures var m := Moved(ts, r, st, px, py);
      var c, i := Containment(m.scan, r), Intersecting(m.scan, r);
      && m.bubbleRadius == Some(if y - r as real < x + r as real then i else c)
      && (m.showHighlight <==> st.showHighlight || x + r as real > y - r as real)
  {
    var s := ScanFrom(Reset, ts, px, py, |ts|);
    ExtMinSound(s.distBest.sq, r, s.distSecond.sq, -r, x, y);
    ExtLessSound(s.distSecond.sq, -r, s.distBest.sq, r, y, x);
  }

  /** One target: no second best, so the radius is the containment distance and the flag is left as it was. */
  lemma MovedSingleTarget(ts: seq<Target>, r: int, st: CursorState, px: int, py: int)
    requires |ts| == 1
    ensures var m := Moved(ts, r, st, px, py);
      && m.scan.best == Some(0)
      && m.scan.second.None? && m.scan.distSecond == Inf
      && m.bubbleRadius == Some(Finite(SqTo(ts[0], px, py), r))
      && m.showHighlight == st.showHighlight
  {
    ScanCorrect(ts, px, py, 1);
  }

  /** No targets: nothing selected, the radius is infinite, the flag is left as it was. */
  lemma MovedNoTargets(r: int, st: CursorState, px: int, py: int)
    ensures var m := Moved([], r, st, px, py);
      m.scan == Reset && m.bubbleRadius == Some(PosInf) && m.showHighlight == st.showHighlight
  {
  }

  /** Pointer on a target centre: some target at that very point (this one or an earlier one) is selected at distance 0. */
  lemma MovedOntoCentre(ts: seq<Target>, r: int, st: CursorState, i: nat)
    requires i < |ts|
    ensures var m := Moved(ts, r, st, ts[i].x, ts[i].y);
      && m.scan.best.Some? && m.scan.best.value <= i
      && m.scan.distBest == Fin(0)
      && ts[m.scan.best.value].x == ts[i].x && ts[m.scan.best.value].y == ts[i].y
  {
    var px, py := ts[i].x, ts[i].y;
    ScanCorrect(ts, px, py, |ts|);
    var s := ScanFrom(Reset, ts, px, py, |ts|);
    assert Moved(ts, r, st, px, py).scan == s;
    var j := s.best.value;
    assert SqTo(ts[i], px, py) == 0;
    ZeroDistance(ts[j], px, py);
  }

  /** Only a target centred on the pointer is at distance zero. */
  lemma ZeroDistance(t: Target, px: int, py: int)
    requires SqTo(t, px, py) <= 0
    ensures t.x == px && t.y == py
  {
    var dx, dy := t.x - px, t.y - py;
    assert dx * dx >= 0 && dy * dy >= 0;
    assert dx * dx == 0 && dy * dy == 0;
  }

  /** The new state depends on the old one only through the highlight flag. */
  lemma MovedForgetsPriorState(ts: seq<Target>, r: int, st1: CursorState, st2: CursorState, px: int, py: int)
    ensures Moved(ts, r, st1, px, py).(showHighlight := false) == Moved(ts, r, st2, px, py).(showHighlight := false)
  {
  }

  /** Repeating the same move changes nothing. */
  lemma MovedIdempotent(ts: seq<Target>, r: int, st: CursorState, px: int, py: int)
    ensures Moved(ts, r, Moved(ts, r, st, px, py), px, py) == Moved(ts, r, st, px, py)
  {
  }

  /** Once raised, the highlight flag stays raised. */
  lemma HighlightSticky(ts: seq<Target>, r: int, st: CursorState, px: int, py: int)
    requires st.showHighlight
    ensures Moved(ts, r, st, px, py).showHighlight
  {
  }

  /** Per-target sizes play no part: only centres and the uniform radius do. */
  lemma MovedIgnoresSize(ts: seq<Target>, us: seq<Target>, r: int, st: CursorState, px: int, py: int)
    requires |ts| == |us|
    requires forall i :: 0 <= i < |ts| ==> ts[i].x == us[i].x && ts[i].y == us[i].y
    ensures Moved(ts, r, st, px, py) == Moved(us, r, st, px, py)
  {
    ScanIgnoresSize(Reset, ts, us, px, py, |ts|);
  }

  // ---------------------------------------------------------------- painting

  /** A circle handed to the painter: centre and radius. */
  datatype Circle = Circle(cx: int, cy: int, radius: Ext)

  /** What one paint event draws: the bubble around the pointer and the highlight ring. */
  datatype Drawing = Drawing(bubble: Option<Circle>, highlight: Option<Circle>)

  /**
   * `onPaintEvent`: nothing before the first move; then the bubble, 2 units
   * smaller than the bubble radius, centred on the pointer; and, while the
   * flag is up and a target is selected, a ring of radius target radius plus
   * border centred on the selected target.
   */
  function Paint(ts: seq<Target>, r: int, border: int, st: CursorState): (d: Drawing)
    requires WellFormed(ts, st)
    ensures st.last.None? ==> d == Drawing(None, None)
    ensures d.bubble.Some? <==> st.last.Some? && st.bubbleRadius.Some?
    ensures d.bubble.Some? ==> d.bubble.value == Circle(st.last.value.x, st.last.value.y, Shift(st.bubbleRadius.value, -2))
    ensures d.highlight.Some? <==> st.last.Some? && st.showHighlight && st.scan.best.Some?
    ensures d.highlight.Some? ==> var t := ts[st.scan.best.value];
      d.highlight.value == Circle(t.x, t.y, Finite(0, r + border))
  {
    match st.last
    case None => Drawing(None, None)
    case Some(p) =>
      var bubble := match st.bubbleRadius
        case None => None
        case Some(b) => Some(Circle(p.x, p.y, Shift(b, -2)));
      var highlight := match st.scan.best
        case Some(j) => if st.showHighlight then Some(Circle(ts[j].x, ts[j].y, Finite(0, r + border))) else None
        case None => None;
      Drawing(bubble, highlight)
  }

  /** After any move the bubble is drawn around the pointer, 2 units inside min(containment, intersecting). */
  lemma PaintAfterMove(ts: seq<Target>, r: int, border: int, st: CursorState, px: int, py: int)
    ensures var m := Moved(ts, r, st, px, py);
      WellFormed(ts, m) &&
      Paint(ts, r, border, m).bubble
        == Some(Circle(px, py, Shift(ExtMin(Containment(m.scan, r), Intersecting(m.scan, r)), -2)))
  {
    MovedSelectsNearest(ts, r, st, px, py);
  }

  // ---------------------------------------------------------------- worked scenarios

  /** Two targets 200 apart, pointer at the midpoint: the first wins the tie, radius min(120, 80), flag raised. */
  lemma MidpointScenario()
    ensures var m := Moved([Target(100, 100, 20), Target(300, 100, 20)], 20, Initial, 200, 100);
      && m.scan.best == Some(0) && m.scan.second == Some(1)
      && m.scan.distBest == Fin(10000) && m.scan.distSecond == Fin(10000)
      && m.bubbleRadius == Some(Finite(10000, -20))
      && m.showHighlight
  {
    var ts := [Target(100, 100, 20), Target(300, 100, 20)];
    assert ScanFrom(Reset, ts, 200, 100, 1) == Scan(Some(0), None, Fin(10000), Fin(10000), Inf);
  }

  /**
   * The flag is never lowered: after the midpoint move, a move to (110, 100)
   * gives radius 30 < 170, so no highlight is needed, yet the ring is still drawn.
   */
  lemma HighlightNeverCleared()
    ensures var ts := [Target(100, 100, 20), Target(300, 100, 20)];
      var m1 := Moved(ts, 20, Initial, 200, 100);
      var m2 := Moved(ts, 20, m1, 110, 100);
      && m2.scan.best == Some(0) && m2.scan.distBest == Fin(100) && m2.scan.distSecond == Fin(36100)
      && m2.bubbleRadius == Some(Finite(100, 20))
      && !ExtLess(Intersecting(m2.scan, 20), Containment(m2.scan, 20))
      && m2.showHighlight
      && WellFormed(ts, m2)
      && Paint(ts, 20, 10, m2).highlight == Some(Circle(100, 100, Finite(0, 30)))
  {
    var ts := [Target(100, 100, 20), Target(300, 100, 20)];
    MidpointScenario();
    assert ScanFrom(Reset, ts, 110, 100, 1) == Scan(Some(0), None, Fin(100), Fin(100), Inf);
    assert ScanFrom(Reset, ts, 110, 100, 2) == Scan(Some(0), Some(1), Fin(36100), Fin(100), Fin(36100));
  }

  /** From a fresh cursor, pointer at (110, 100): radius min(30, 170), no highlight. */
  lemma NearFirstScenario()
    ensures var m := Moved([Target(100, 100, 20), Target(300, 100, 20)], 20, Initial, 110, 100);
      && m.scan.best == Some(0) && m.scan.second == Some(1)
      && m.scan.distBest == Fin(100) && m.scan.distSecond == Fin(36100)
      && m.bubbleRadius == Some(Finite(100, 20))
      && !m.showHighlight
  {
    var ts := [Target(100, 100, 20), Target(300, 100, 20)];
    assert ScanFrom(Reset, ts, 110, 100, 1) == Scan(Some(0), None, Fin(100), Fin(100), Inf);
  }

  /** One target at the origin, pointer at (5, 0): distance 5, radius 5 + 15, no second best, no highlight. */
  lemma SingleTargetScenario()
    ensures var m := Moved([Target(0, 0, 15)], 15, Initial, 5, 0);
      && m.scan.best == Some(0) && m.scan.second.None?
      && m.scan.distBest == Fin(25)
      && m.bubbleRadius == Some(Finite(25, 15))
      && !m.showHighlight
  {
    MovedSingleTarget([Target(0, 0, 15)], 15, Initial, 5, 0);
  }

  /** Three collinear targets, pointer on the middle one: it is best at distance 0; the outer two tie and the first is second. */
  lemma CollinearScenario()
    ensures var m := Moved([Target(0, 0, 10), Target(50, 0, 10), Target(100, 0, 10)], 10, Initial, 50, 0);
      && m.scan.best == Some(1) && m.scan.distBest == Fin(0)
      && m.scan.second == Some(0) && m.scan.distSecond == Fin(2500)
  {
    var ts := [Target(0, 0, 10), Target(50, 0, 10), Target(100, 0, 10)];
    assert ScanFrom(Reset, ts, 50, 0, 1) == Scan(Some(0), None, Fin(2500), Fin(2500), Inf);
    assert ScanFrom(Reset, ts, 50, 0, 2) == Scan(Some(1), Some(0), Fin(0), Fin(0), Fin(2500));
  }

  // ---------------------------------------------------------------- the class

  class BubbleCursor {
    const allTargets: seq<Target>
    const targetRadius: int
    const highlightBorderSize: int

    var showHighlight: bool
    var lastPos: Option<Coord>
    var bestTarget: Option<nat>
    var secondBestTarget: Option<nat>
    var distanceCurrent: Dist
    var distanceBest: Dist
    var distanceSecondBest: Dist
    var bubbleRadius: Option<Ext>

    function ScanFields(): Scan
      reads this
    {
      Scan(bestTarget, secondBestTarget, distanceCurrent, distanceBest, distanceSecondBest)
    }

    function State(): CursorState
      reads this
    {
      CursorState(showHighlight, lastPos, ScanFields(), bubbleRadius)
    }

    ghost predicate Valid()
      reads this
    {
      WellFormed(allTargets, State())
    }

    constructor (allTargets: seq<Target>, targetSize: int, borderSize: int := 10)
      ensures this.allTargets == allTargets
      ensures targetRadius == targetSize && highlightBorderSize == borderSize
      ensures State() == Initial && Valid()
    {
      this.allTargets := allTargets;
      targetRadius := targetSize;
      highlightBorderSize := borderSize;
      showHighlight := false;
      lastPos := None;
      bestTarget, secondBestTarget := None, None;
      distanceCurrent, distanceBest, distanceSecondBest := Inf, Inf, Inf;
      bubbleRadius := None;
    }

    /** `selectedTarget`: the best target, if any. */
    function SelectedTarget(): (t: Option<Target>)
      reads this
      requires Valid()
      ensures t.None? <==> bestTarget.None?
      ensures t.Some? ==> t.value == allTargets[bestTarget.value]
    {
      match bestTarget
      case None => None
      case Some(j) => Some(allTargets[j])
    }

    method OnMouseMoved(x: int, y: int)
      requires Valid()
      modifies this
      ensures Valid()
      ensures State() == Moved(allTargets, targetRadius, old(State()), x, y)
    {
      lastPos := Some(Coord(x, y));
      Filter(x, y);
      MovedSelectsNearest(allTargets, targetRadius, old(State()), x, y);
    }

    /** `_filter`. */
    method Filter(x: int, y: int)
      modifies this
      ensures State() == Filtered(allTargets, targetRadius, old(State()), x, y)
    {
      bestTarget, secondBestTarget := None, None;
      distanceCurrent, distanceBest, distanceSecondBest := Inf, Inf, Inf;
      FindNearestTargets(x, y);
      var containment := Plus(distanceBest, targetRadius);
      var intersecting := Plus(distanceSecondBest, -targetRadius);
      bubbleRadius := Some(ExtMin(containment, intersecting));
      if ExtLess(intersecting, containment) {
        showHighlight := true;
      }
    }

    /** `_find_nearest_targets`: the loop over all targets. */
    method FindNearestTargets(x: int, y: int)
      modifies this`bestTarget, this`secondBestTarget, this`distanceCurrent,
               this`distanceBest, this`distanceSecondBest
      ensures ScanFields() == ScanFrom(old(ScanFields()), allTargets, x, y, |allTargets|)
    {
      for i := 0 to |allTargets|
        invariant ScanFields() == ScanFrom(old(ScanFields()), allTargets, x, y, i)
      {
        var current := allTargets[i];
        distanceCurrent := Fin(SqDist(current.x, current.y, x, y));
        if DistLess(distanceCurrent, distanceBest) {
          if bestTarget.Some? {
            secondBestTarget := bestTarget;
            distanceSecondBest := distanceBest;
          }
          bestTarget := Some(i);
          distanceBest := distanceCurrent;
        } else if DistLess(distanceCurrent, distanceSecondBest) {
          secondBestTarget := Some(i);
          distanceSecondBest := distanceCurrent;
        }
      }
    }

    /** `onPaintEvent`, returning the circles it hands to the painter. */
    method OnPaintEvent() returns (d: Drawing)
      requires Valid()
      ensures d == Paint(allTargets, targetRadius, highlightBorderSize, State())
    {
      d := Drawing(None, None);
      if lastPos.None? {
        return;
      }
      var bubble := DrawBubbleArea();
      var highlight := None;
      if showHighlight {
        highlight := DrawHighlight();
      }
      d := Drawing(bubble, highlight);
    }

    /** `_draw_bubble_area`: the bubble, 2 units inside the bubble radius, around the pointer. */
    method DrawBubbleArea() returns (c: Option<Circle>)
      requires lastPos.Some?
      ensures c.None? <==> bubbleRadius.None?
      ensures c.Some? ==> c.value == Circle(lastPos.value.x, lastPos.value.y, Shift(bubbleRadius.value, -2))
    {
      if bubbleRadius.None? {
        return None;
      }
      var areaRadius := Shift(bubbleRadius.value, -2);
      c := Some(Circle(lastPos.value.x, lastPos.value.y, areaRadius));
    }

    /** `_draw_highlight`: the ring around the selected target. */
    method DrawHighlight() returns (c: Option<Circle>)
      requires Valid()
      ensures c.None? <==> bestTarget.None?
      ensures c.Some? ==> var t := allTargets[bestTarget.value];
        c.value == Circle(t.x, t.y, Finite(0, targetRadius + highlightBorderSize))
    {
      if bestTarget.None? {
        return None;
      }
      var highlightRadius := targetRadius + highlightBorderSize;
      var t := allTargets[bestTarget.value];
      c := Some(Circle(t.x, t.y, Finite(0, highlightRadius)));
    }
  }
}
