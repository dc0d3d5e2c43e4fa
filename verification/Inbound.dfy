/** The inbound cursor tracker of handler.go: absolute reports from the remote, followed with a constant gain. */
module Inbound {
  import opened Bytes
  import opened Motion

  const JUMP_THRESHOLD := 4096

  /** Injected position, last reported position, and whether a first report has been seen. */
  datatype Tracker = Tracker(x: int32, y: int32, lastX: int32, lastY: int32, seeded: bool)

  datatype Report = Report(x: int32, y: int32)

  /** The smallest 32-bit value is its own absolute value. */
  function Abs32(v: int): int32
    requires -0x8000_0000 <= v < 0x8000_0000
  {
    if v < 0 then Wrap32(-v) else v
  }

  function Times(d: int, f: real): real {
    d as real * f
  }

  /** The distance the injected cursor goes for a difference of two reports. */
  function Stretch(d: int, gain: real): int {
    Trunc(Times(d, gain))
  }

  function Gain(multiplier: real): real {
    if multiplier <= 0.0 then 1.0 else multiplier
  }

  predicate Jumps(t: Tracker, p: Report) {
    !t.seeded || Abs32(Wrap32(p.x - t.lastX)) > JUMP_THRESHOLD || Abs32(Wrap32(p.y - t.lastY)) > JUMP_THRESHOLD
  }

  function Gained(pos: int32, last: int32, next: int32, gain: real): (r: int32)
    ensures 0 <= r <= NORM_MAX
  {
    Clamp(Wrap32(pos + Wrap32(Stretch(Wrap32(next - last), gain))))
  }

  /** One report: a teleport, or no gain, snaps to it; anything else moves by the scaled difference. */
  function Follow(t: Tracker, multiplier: real, p: Report): Tracker {
    var gain := Gain(multiplier);
    if Jumps(t, p) || gain == 1.0 then Tracker(p.x, p.y, p.x, p.y, true)
    else Tracker(Gained(t.x, t.lastX, p.x, gain), Gained(t.y, t.lastY, p.y, gain), p.x, p.y, true)
  }

  function FollowAll(t: Tracker, multiplier: real, ps: seq<Report>): Tracker {
    if ps == [] then t else Follow(FollowAll(t, multiplier, ps[..|ps| - 1]), multiplier, ps[|ps| - 1])
  }

  predicate OnGrid(x: int, y: int) {
    0 <= x <= NORM_MAX && 0 <= y <= NORM_MAX
  }

  /** A report on the grid is injected on the grid, whatever came before and whatever the gain, and with no
      gain it is injected as it is. */
  lemma InjectedOnGrid(t: Tracker, multiplier: real, ps: seq<Report>)
    requires ps != [] && OnGrid(ps[|ps| - 1].x, ps[|ps| - 1].y)
    ensures var r := FollowAll(t, multiplier, ps);
            && OnGrid(r.x, r.y) && r.seeded && r.lastX == ps[|ps| - 1].x && r.lastY == ps[|ps| - 1].y
            && (Gain(multiplier) == 1.0 ==> r.x == r.lastX && r.y == r.lastY)
  {
  }

  // ---- Between jumps -----------------------------------------------------------------

  /** A report that is neither a jump nor pushed against the end of the grid. */
  predicate Smooth(t: Tracker, gain: real, p: Report) {
    && OnGrid(t.lastX, t.lastY) && OnGrid(p.x, p.y) && OnGrid(t.x, t.y) && !Jumps(t, p)
    && OnGrid(t.x + Stretch(p.x - t.lastX, gain), t.y + Stretch(p.y - t.lastY, gain))
  }

  predicate SmoothAll(t: Tracker, gain: real, ps: seq<Report>)
    requires gain > 0.0
  {
    ps == [] || (SmoothAll(t, gain, ps[..|ps| - 1]) && Smooth(FollowAll(t, gain, ps[..|ps| - 1]), gain, ps[|ps| - 1]))
  }

  lemma SmallWrap(v: int)
    requires -0x8000_0000 <= v < 0x8000_0000
    ensures Wrap32(v) == v
  {
  }

  /** A smooth report moves each axis by its stretch. */
  lemma SmoothFollow(t: Tracker, gain: real, p: Report)
    requires gain > 0.0 && gain != 1.0 && Smooth(t, gain, p)
    ensures Follow(t, gain, p)
         == Tracker(t.x + Stretch(p.x - t.lastX, gain), t.y + Stretch(p.y - t.lastY, gain), p.x, p.y, true)
  {
    hide Stretch;
    SmallWrap(p.x - t.lastX);
    SmallWrap(p.y - t.lastY);
    SmallWrap(Stretch(p.x - t.lastX, gain));
    SmallWrap(Stretch(p.y - t.lastY, gain));
    SmallWrap(t.x + Stretch(p.x - t.lastX, gain));
    SmallWrap(t.y + Stretch(p.y - t.lastY, gain));
  }

  lemma StretchBack(d: int, gain: real)
    ensures Stretch(-d, gain) == -Stretch(d, gain)
  {
    assert (-d) as real * gain == -(d as real * gain);
    TruncNegate(d as real * gain);
  }

  /** Stepping back to the previous report undoes a smooth step. */
  lemma StepBack(t: Tracker, gain: real, p: Report)
    requires gain > 0.0 && gain != 1.0 && Smooth(t, gain, p)
    ensures Follow(Follow(t, gain, p), gain, Report(t.lastX, t.lastY)) == t
  {
    hide Stretch, Follow;
    SmoothFollow(t, gain, p);
    var u := Follow(t, gain, p);
    var back := Report(t.lastX, t.lastY);
    StretchBack(p.x - t.lastX, gain);
    StretchBack(p.y - t.lastY, gain);
    SmallWrap(p.x - t.lastX);
    SmallWrap(p.y - t.lastY);
    SmallWrap(t.lastX - p.x);
    SmallWrap(t.lastY - p.y);
    assert !Jumps(u, back);
    SmoothFollow(u, gain, back);
  }

  /** The reports of a path walked backwards, ending where it began. */
  function Backwards(start: Report, ps: seq<Report>): seq<Report> {
    if ps == [] then []
    else [if |ps| == 1 then start else ps[|ps| - 2]] + Backwards(start, ps[..|ps| - 1])
  }

  lemma {:induction false} FollowAppend(t: Tracker, m: real, ps: seq<Report>, qs: seq<Report>)
    ensures FollowAll(t, m, ps + qs) == FollowAll(FollowAll(t, m, ps), m, qs)
    decreases |qs|
  {
    if qs == [] {
      assert ps + qs == ps;
    } else {
      FollowAppend(t, m, ps, qs[..|qs| - 1]);
      assert (ps + qs)[..|ps + qs| - 1] == ps + qs[..|qs| - 1];
    }
  }

  lemma {:induction false} LastReport(t: Tracker, gain: real, ps: seq<Report>)
    requires gain > 0.0 && ps != []
    ensures var r := FollowAll(t, gain, ps); r.lastX == ps[|ps| - 1].x && r.lastY == ps[|ps| - 1].y
  {
  }

  /** There is no carry, yet a path retraced report by report ends exactly where it started. */
  lemma {:induction false} Retrace(t: Tracker, gain: real, ps: seq<Report>)
    requires gain > 0.0 && gain != 1.0 && SmoothAll(t, gain, ps)
    ensures FollowAll(t, gain, ps + Backwards(Report(t.lastX, t.lastY), ps)) == t
    decreases |ps|
  {
    var start := Report(t.lastX, t.lastY);
    if ps == [] {
      assert ps + Backwards(start, ps) == [];
    } else {
      var n := |ps| - 1;
      var u := FollowAll(t, gain, ps[..n]);
      var back := Backwards(start, ps[..n]);
      var turn := Report(u.lastX, u.lastY);
      if n > 0 {
        LastReport(t, gain, ps[..n]);
      }
      assert Backwards(start, ps) == [turn] + back;
      StepBack(u, gain, ps[n]);
      FollowAppend(t, gain, ps, [turn] + back);
      FollowAppend(FollowAll(t, gain, ps), gain, [turn], back);
      FollowOne(FollowAll(t, gain, ps), gain, turn);
      FollowAppend(t, gain, ps[..n], back);
      Retrace(t, gain, ps[..n]);
    }
  }

  lemma FollowOne(t: Tracker, m: real, p: Report)
    ensures FollowAll(t, m, [p]) == Follow(t, m, p)
  {
    assert [p][..0] == [];
  }

  /** How far the injected position has strayed from the exact gain since the start. */
  function Drift(x0: int, x: int, p0: int, p: int, gain: real): real {
    (x - x0) as real - (p - p0) as real * gain
  }

  /** Each report loses less than one grid unit to truncation: after n of them the injected cursor is at most
      n units away from the exact gain. */
  lemma {:induction false} DriftBound(t: Tracker, gain: real, ps: seq<Report>)
    requires gain > 0.0 && gain != 1.0 && SmoothAll(t, gain, ps)
    ensures var r := FollowAll(t, gain, ps);
            && -(|ps| as real) <= Drift(t.x, r.x, t.lastX, r.lastX, gain) <= |ps| as real
            && -(|ps| as real) <= Drift(t.y, r.y, t.lastY, r.lastY, gain) <= |ps| as real
    decreases |ps|
  {
    hide Drift, Stretch, Follow, Smooth;
    if ps == [] {
      NoDriftYet(t.x, t.lastX, gain);
      NoDriftYet(t.y, t.lastY, gain);
    } else {
      var n := |ps| - 1;
      var u := FollowAll(t, gain, ps[..n]);
      DriftBound(t, gain, ps[..n]);
      SmoothFollow(u, gain, ps[n]);
      DriftStep(t.x, u.x, t.lastX, u.lastX, ps[n].x, gain);
      DriftStep(t.y, u.y, t.lastY, u.lastY, ps[n].y, gain);
    }
  }

  lemma NoDriftYet(x: int, p: int, gain: real)
    ensures Drift(x, x, p, p, gain) == 0.0
  {
  }

  lemma DriftStep(x0: int, x1: int, p0: int, p1: int, p2: int, gain: real)
    ensures var step := Stretch(p2 - p1, gain);
            -1.0 < Drift(x0, x1 + step, p0, p2, gain) - Drift(x0, x1, p0, p1, gain) < 1.0
  {
    var d := (p2 - p1) as real * gain;
    assert (p2 - p0) as real * gain == (p1 - p0) as real * gain + d;
    TruncError(d);
    hide Trunc;
  }

  lemma TruncError(r: real)
    ensures -1.0 < Trunc(r) as real - r < 1.0
  {
  }

  // ---- Closed paths ------------------------------------------------------------------

  /** The last report is where the tracker's last one was. */
  predicate Closed(t: Tracker, ps: seq<Report>) {
    ps == [] || ps[|ps| - 1] == Report(t.lastX, t.lastY)
  }

  ghost predicate ClosedPathsReturn(gain: real)
    requires gain > 0.0
  {
    forall t, ps :: SmoothAll(t, gain, ps) && Closed(t, ps) ==> FollowAll(t, gain, ps) == t
  }

  /** Is a step of n units one that the grid and the jump threshold leave room for? */
  predicate Fits(n: nat, gain: real) {
    n <= JUMP_THRESHOLD && Times(n, gain) < (NORM_MAX + 1) as real
  }

  /** The longest such step up to n units: all 4096 of them for a gain below 16. */
  function LongestStep(gain: real, n: nat): (m: nat)
    requires gain > 0.0 && n <= JUMP_THRESHOLD
    ensures m <= n && Fits(m, gain)
    ensures forall k: nat :: m < k <= n ==> !Fits(k, gain)
    decreases n
  {
    if n == 0 || Fits(n, gain) then n else LongestStep(gain, n - 1)
  }

  function Fraction(gain: real): (f: real)
    ensures 0.0 <= f < 1.0
  {
    gain - gain.Floor as real
  }

  /** The longest step that fits is scaled without loss. */
  predicate ScalesExactly(gain: real)
    requires gain > 0.0
  {
    Times(LongestStep(gain, JUMP_THRESHOLD), Fraction(gain)) < 1.0
  }

  lemma LowGain(gain: real)
    requires 0.0 < gain < 16.0
    ensures LongestStep(gain, JUMP_THRESHOLD) == JUMP_THRESHOLD
  {
    assert Times(JUMP_THRESHOLD, gain) < 65536.0;
    hide Times;
  }

  lemma TimesMonotone(a: int, b: int, f: real)
    requires a <= b && f >= 0.0
    ensures Times(a, f) <= Times(b, f) && Times(0, f) == 0.0
  {
    assert (b - a) as real * f >= 0.0;
    assert b as real * f == a as real * f + (b - a) as real * f;
  }

  lemma TimesNext(n: int, f: real)
    ensures Times(n, f) == Times(n - 1, f) + f
  {
  }

  lemma TimesSplit(d: int, gain: real)
    ensures Times(d, gain) == Times(d, Fraction(gain)) + (d * gain.Floor) as real
  {
    assert (d * gain.Floor) as real == d as real * gain.Floor as real;
    assert gain == Fraction(gain) + gain.Floor as real;
    assert d as real * gain == d as real * Fraction(gain) + d as real * gain.Floor as real;
  }

  /** A step is its whole multiple plus what its fraction adds up to. */
  lemma StretchSplit(d: nat, gain: real)
    requires gain > 0.0
    ensures Stretch(d, gain) == d * gain.Floor + Times(d, Fraction(gain)).Floor
  {
    TimesSplit(d, gain);
    TimesMonotone(0, d, Fraction(gain));
    TimesMonotone(0, d, gain);
    FloorShift(Times(d, Fraction(gain)), d * gain.Floor);
    hide Times, Fraction;
  }

  lemma TruncBelow(r: real, n: int)
    requires r >= 0.0
    ensures Trunc(r) <= n <==> r < (n + 1) as real
  {
  }

  /** When the longest step that fits scales exactly, so does every step of a smooth path. */
  lemma ExactStep(d: int, gain: real)
    requires gain > 0.0 && ScalesExactly(gain)
    requires -JUMP_THRESHOLD <= d <= JUMP_THRESHOLD && -NORM_MAX <= Stretch(d, gain) <= NORM_MAX
    ensures Stretch(d, gain) == d * gain.Floor
  {
    hide Stretch, ScalesExactly;
    if d < 0 {
      StretchBack(d, gain);
      ExactStepForward(-d, gain);
      assert -d * gain.Floor == -(d * gain.Floor);
    } else {
      ExactStepForward(d, gain);
    }
  }

  lemma ExactStepForward(d: nat, gain: real)
    requires gain > 0.0 && ScalesExactly(gain) && d <= JUMP_THRESHOLD && Stretch(d, gain) <= NORM_MAX
    ensures Stretch(d, gain) == d * gain.Floor
  {
    hide Times, Fraction;
    var longest := LongestStep(gain, JUMP_THRESHOLD);
    TimesMonotone(0, d, gain);
    TruncBelow(Times(d, gain), NORM_MAX);
    assert Fits(d, gain);
    assert d <= longest;
    StretchSplit(d, gain);
    TimesMonotone(d, longest, Fraction(gain));
    TimesMonotone(0, d, Fraction(gain));
  }

  lemma SmoothBounds(t: Tracker, gain: real, p: Report)
    requires Smooth(t, gain, p)
    ensures t.seeded
    ensures -JUMP_THRESHOLD <= p.x - t.lastX <= JUMP_THRESHOLD && -JUMP_THRESHOLD <= p.y - t.lastY <= JUMP_THRESHOLD
    ensures -NORM_MAX <= Stretch(p.x - t.lastX, gain) <= NORM_MAX
    ensures -NORM_MAX <= Stretch(p.y - t.lastY, gain) <= NORM_MAX
  {
    hide Stretch;
    SmallWrap(p.x - t.lastX);
    SmallWrap(p.y - t.lastY);
  }

  /** Under that condition a smooth path moves the injected cursor by a whole multiple of the reported move. */
  lemma {:induction false} ExactPath(t: Tracker, gain: real, ps: seq<Report>)
    requires gain > 0.0 && gain != 1.0 && ScalesExactly(gain) && SmoothAll(t, gain, ps)
    ensures var r := FollowAll(t, gain, ps);
            && r.x - t.x == (r.lastX - t.lastX) * gain.Floor
            && r.y - t.y == (r.lastY - t.lastY) * gain.Floor
            && (ps != [] ==> r.seeded && t.seeded && r.lastX == ps[|ps| - 1].x && r.lastY == ps[|ps| - 1].y)
    decreases |ps|
  {
    hide Stretch, ScalesExactly, Follow, Smooth;
    if ps != [] {
      var n := |ps| - 1;
      var u := FollowAll(t, gain, ps[..n]);
      ExactPath(t, gain, ps[..n]);
      SmoothBounds(u, gain, ps[n]);
      SmoothFollow(u, gain, ps[n]);
      ExactStep(ps[n].x - u.lastX, gain);
      ExactStep(ps[n].y - u.lastY, gain);
      Distributes(u.lastX - t.lastX, ps[n].x - u.lastX, gain.Floor);
      Distributes(u.lastY - t.lastY, ps[n].y - u.lastY, gain.Floor);
    }
  }

  lemma Distributes(a: int, b: int, c: int)
    ensures (a + b) * c == a * c + b * c
  {
  }

  /** The least number of units whose fractions add up to a whole one. */
  lemma LeastCarry(gain: real, n: nat) returns (m: nat)
    requires Times(n, Fraction(gain)) >= 1.0
    ensures 0 < m <= n && Times(m, Fraction(gain)).Floor == 1
    decreases n
  {
    m := n;
    TimesMonotone(0, n, Fraction(gain));
    TimesNext(n, Fraction(gain));
    hide Times;
    if Times(n - 1, Fraction(gain)) >= 1.0 {
      m := LeastCarry(gain, n - 1);
    }
  }

  /** The reports move away from there one unit at a time. */
  function Walk(n: nat): (ps: seq<Report>)
    requires n <= JUMP_THRESHOLD
    ensures |ps| == n && forall i :: 0 <= i < n ==> ps[i] == Report(i + 2, 0)
  {
    seq(n, i requires 0 <= i < n => Report(i + 2, 0))
  }

  /** A cursor that has just been snapped one unit inside the corner. */
  const ORIGIN := Tracker(1, 0, 1, 0, true)

  function Walked(n: nat, whole: nat): Tracker
    requires n <= JUMP_THRESHOLD && 1 + n * whole <= NORM_MAX
  {
    Tracker(1 + n * whole, 0, n + 1, 0, true)
  }

  lemma SmoothStep(u: Tracker, gain: real, p: Report)
    requires gain > 0.0 && gain != 1.0 && u.seeded
    requires OnGrid(u.x, u.y) && OnGrid(u.lastX, u.lastY) && OnGrid(p.x, p.y) && p.y == u.lastY
    requires -JUMP_THRESHOLD <= p.x - u.lastX <= JUMP_THRESHOLD
    requires 0 <= u.x + Stretch(p.x - u.lastX, gain) <= NORM_MAX
    ensures Smooth(u, gain, p)
    ensures Follow(u, gain, p) == Tracker(u.x + Stretch(p.x - u.lastX, gain), u.y, p.x, p.y, true)
  {
    UnitStep(gain);
    hide Stretch, Follow;
    SmallWrap(p.x - u.lastX);
    SmallWrap(p.y - u.lastY);
    SmoothFollow(u, gain, p);
  }

  /** Each single unit is scaled to the whole part of the gain. */
  lemma {:induction false} WalkOut(gain: real, n: nat)
    requires gain > 0.0 && gain != 1.0 && n <= JUMP_THRESHOLD && 1 + n * gain.Floor <= NORM_MAX
    ensures SmoothAll(ORIGIN, gain, Walk(n))
    ensures FollowAll(ORIGIN, gain, Walk(n)) == Walked(n, gain.Floor)
  {
    if n > 0 {
      var whole := gain.Floor;
      Distributes(n - 1, 1, whole);
      WalkOut(gain, n - 1);
      assert Walk(n)[..n - 1] == Walk(n - 1);
      UnitStep(gain);
      hide Stretch, Follow, Smooth;
      Grows(n - 1, whole);
      SmoothStep(Walked(n - 1, whole), gain, Report(n + 1, 0));
    }
  }

  lemma Grows(n: nat, whole: nat)
    ensures n * whole >= 0
  {
  }

  lemma UnitStep(gain: real)
    requires gain > 0.0
    ensures Stretch(1, gain) == gain.Floor && Stretch(0, gain) == 0
  {
  }

  /** When a step that fits does not scale exactly, walking out by single units and straight back ends one unit
      short of the start. */
  lemma WalkAndReturn(gain: real) returns (ps: seq<Report>)
    requires gain > 0.0 && gain != 1.0 && !ScalesExactly(gain)
    ensures SmoothAll(ORIGIN, gain, ps) && Closed(ORIGIN, ps)
    ensures FollowAll(ORIGIN, gain, ps) == Tracker(0, 0, 1, 0, true)
  {
    var n := LeastCarry(gain, LongestStep(gain, JUMP_THRESHOLD));
    CarryFits(gain, n);
    StretchBack(n, gain);
    WalkOut(gain, n);
    var home := Report(1, 0);
    ps := Walk(n) + [home];
    assert ps[..|ps| - 1] == Walk(n);
    hide Stretch, Follow, LongestStep, Fraction, Walk, Smooth, Times;
    Grows(n, gain.Floor);
    SmoothStep(Walked(n, gain.Floor), gain, home);
  }

  lemma CarryFits(gain: real, n: nat)
    requires gain > 0.0 && n <= LongestStep(gain, JUMP_THRESHOLD) && Times(n, Fraction(gain)).Floor == 1
    ensures Stretch(n, gain) == n * gain.Floor + 1 <= NORM_MAX
  {
    StretchSplit(n, gain);
    TimesMonotone(n, LongestStep(gain, JUMP_THRESHOLD), gain);
    TimesMonotone(0, n, gain);
    hide Times;
    TruncBelow(Times(n, gain), NORM_MAX);
  }

  lemma NoMove(whole: int)
    ensures 0 * whole == 0
  {
  }

  /** Every closed path without jumps and clamping ends where it started exactly when the longest step that fits
      scales without loss: for gains below 16, when 4096 times the fraction of the gain is below one. */
  lemma ClosedPathsReturnIff(gain: real)
    requires gain > 0.0 && gain != 1.0
    ensures ClosedPathsReturn(gain) <==> ScalesExactly(gain)
    ensures gain < 16.0 ==> (ScalesExactly(gain) <==> Times(JUMP_THRESHOLD, Fraction(gain)) < 1.0)
  {
    if gain < 16.0 {
      LowGain(gain);
    }
    hide Follow, Stretch, Fraction, LongestStep, Times, Smooth, ScalesExactly;
    if ScalesExactly(gain) {
      forall t, ps | SmoothAll(t, gain, ps) && Closed(t, ps) ensures FollowAll(t, gain, ps) == t {
        ExactPath(t, gain, ps);
        NoMove(gain.Floor);
      }
    } else {
      var ps := WalkAndReturn(gain);
      assert FollowAll(ORIGIN, gain, ps) != ORIGIN;
    }
  }

  lemma HalfAgain()
    ensures Stretch(1, 1.5) == 1 && Stretch(-2, 1.5) == -3 && Stretch(0, 1.5) == 0
  {
  }

  /** At gain 1.5 two steps out and one step back of the same length do not cancel. */
  lemma ClosedPathDrifts(x: int32)
    requires 10 <= x <= NORM_MAX - 10
    ensures var t := Tracker(x, x, x, x, true);
            var r := FollowAll(t, 1.5, [Report(x + 1, x), Report(x + 2, x), Report(x, x)]);
            r == Tracker(x - 1, x, x, x, true)
  {
    var t := Tracker(x, x, x, x, true);
    var ps := [Report(x + 1, x), Report(x + 2, x), Report(x, x)];
    assert ps[..2][..1] == ps[..1] == [ps[0]] && ps[..2][1] == ps[1];
    hide Follow, Stretch, Smooth;
    HalfAgain();
    FollowOne(t, 1.5, ps[0]);
    var t1 := Tracker(x + 1, x, x + 1, x, true);
    var t2 := Tracker(x + 2, x, x + 2, x, true);
    SmoothStep(t, 1.5, ps[0]);
    SmoothStep(t1, 1.5, ps[1]);
    SmoothStep(t2, 1.5, ps[2]);
    assert FollowAll(t, 1.5, ps[..2]) == t2;
  }

  // ---- Wheel -------------------------------------------------------------------------

  /** Whole notches of a wheel delta, at least one for any movement; the division truncates toward zero. */
  function WheelNotches(delta: int32): int {
    var d: int := delta;
    var n := if d >= 0 then d / WHEEL_DELTA else -(-d / WHEEL_DELTA);
    if n == 0 && delta > 0 then 1
    else if n == 0 && delta < 0 then -1
    else n
  }

  /** Whole notches arrive as sent, and no scroll is lost or changes direction. */
  lemma NotchesArrive(value: int, delta: int32)
    ensures -0x8000_0000 <= value * WHEEL_DELTA < 0x8000_0000 ==> WheelNotches(value * WHEEL_DELTA) == value
    ensures (delta > 0 <==> WheelNotches(delta) > 0) && (delta < 0 <==> WheelNotches(delta) < 0)
  {
  }
}
