/** The dead-reckoned remote cursor on one axis, and the touchpad scroll accumulator
    (capture_linux.go, portal_wayland.go). Floating point is modelled by real numbers. */
module Motion {
  const NORM_MAX := 65535
  const PX_PER_NOTCH := 30.0
  const WHEEL_DELTA := 120

  /** Truncation toward zero, as math.Trunc and the integer conversions do. */
  function Trunc(r: real): int {
    if r >= 0.0 then r.Floor else -((-r).Floor)
  }

  function Clamp(v: int): int {
    if v < 0 then 0 else if v > NORM_MAX then NORM_MAX else v
  }

  /** A position on the 0..65535 grid and the sub-unit carry. */
  datatype Axis = Axis(pos: int, acc: real)

  predicate AxisInv(a: Axis) {
    0 <= a.pos <= NORM_MAX && -1.0 < a.acc < 1.0
  }

  function Move(a: Axis, d: real): Axis {
    var sum := a.acc + d;
    var i := Trunc(sum);
    Axis(Clamp(a.pos + i), sum - i as real)
  }

  function MoveAll(a: Axis, ds: seq<real>): Axis {
    if ds == [] then a else Move(MoveAll(a, ds[..|ds| - 1]), ds[|ds| - 1])
  }

  function Sum(ds: seq<real>): real {
    if ds == [] then 0.0 else Sum(ds[..|ds| - 1]) + ds[|ds| - 1]
  }

  /** A delta added to the carry moves by its whole part toward zero, as far as 0 and 65535, and leaves the rest. */
  lemma MoveIs(a: Axis, d: real)
    ensures var v := a.acc + d;
            var b := Move(a, d);
            var i := Trunc(v);
            && (v >= 0.0 ==> i as real <= v < (i + 1) as real) && (v < 0.0 ==> (i - 1) as real < v <= i as real)
            && b.acc == v - i as real
            && b.pos == if a.pos + i < 0 then 0 else if a.pos + i > 65535 then 65535 else a.pos + i
  {
  }

  lemma MoveInv(a: Axis, d: real)
    ensures AxisInv(Move(a, d))
  {
  }

  lemma MoveNothing(a: Axis)
    requires AxisInv(a)
    ensures Move(a, 0.0) == a
  {
  }

  /** Truncation cuts both numbers the same way: they are on one side of zero, or whole. */
  predicate CutAlike(u: real, v: real) {
    (u >= 0.0 && v >= 0.0) || (u <= 0.0 && v <= 0.0) || u == u.Floor as real
  }

  /** A step from q is not disturbed by first bringing q back to the grid: q is on the grid, or the step goes on
      outwards, or it crosses the whole grid. */
  predicate ClampHarmless(q: int, step: int) {
    || 0 <= q <= NORM_MAX
    || (q > NORM_MAX && (step >= 0 || q + step <= 0))
    || (q < 0 && (step <= 0 || q + step >= NORM_MAX))
  }

  /** Exactly when two deltas of any signs act like their sum: what is left after the first delta and the
      total are cut alike, and the clamp between the two is harmless. */
  lemma MoveTwiceIff(a: Axis, x: real, y: real)
    ensures var i := Trunc(a.acc + x);
            var v := a.acc + x - i as real + y;
            var alike := Move(Move(a, x), y) == Move(a, x + y);
            alike <==> CutAlike(a.acc + x + y, v) && ClampHarmless(a.pos + i, Trunc(v))
  {
    hide Trunc, Clamp, CutAlike, ClampHarmless;
    var i := Trunc(a.acc + x);
    var v := a.acc + x - i as real + y;
    var u := v + i as real;
    assert a.acc + (x + y) == u && a.acc + x + y == u;
    CutsApart(v, i);
    ClampTwice(a.pos + i, Trunc(v));
    var once, twice := Move(a, x + y), Move(Move(a, x), y);
    assert once == Axis(Clamp(a.pos + Trunc(u)), u - Trunc(u) as real);
    assert twice == Axis(Clamp(Clamp(a.pos + i) + Trunc(v)), v - Trunc(v) as real);
    hide Move;
  }

  lemma CutsApart(v: real, i: int)
    ensures Trunc(v + i as real) == i + Trunc(v) <==> CutAlike(v + i as real, v)
  {
    FloorShift(v, i);
    FloorShift(-v, -i);
    assert -(v + i as real) == -v + (-i) as real;
  }

  lemma ClampTwice(q: int, step: int)
    ensures Clamp(Clamp(q) + step) == Clamp(q + step) <==> ClampHarmless(q, step)
  {
  }

  /** Two deltas of the same sign act like their sum, whichever sign the carry has and even when the first
      of them already hits the end of the grid. */
  lemma MoveTwice(a: Axis, x: real, y: real)
    requires AxisInv(a) && ((x >= 0.0 && y >= 0.0) || (x <= 0.0 && y <= 0.0))
    ensures Move(Move(a, x), y) == Move(a, x + y)
  {
    MoveTwiceIff(a, x, y);
    hide Move;
  }

  lemma TruncNegate(r: real)
    ensures Trunc(-r) == -Trunc(r)
  {
  }

  lemma FloorShift(r: real, n: int)
    ensures (r + n as real).Floor == r.Floor + n
  {
  }

  predicate SameSign(ds: seq<real>) {
    (forall i :: 0 <= i < |ds| ==> ds[i] >= 0.0) || (forall i :: 0 <= i < |ds| ==> ds[i] <= 0.0)
  }

  lemma {:induction false} SumSign(ds: seq<real>)
    ensures (forall i :: 0 <= i < |ds| ==> ds[i] >= 0.0) ==> Sum(ds) >= 0.0
    ensures (forall i :: 0 <= i < |ds| ==> ds[i] <= 0.0) ==> Sum(ds) <= 0.0
    decreases |ds|
  {
    if ds != [] {
      SumSign(ds[..|ds| - 1]);
    }
  }

  /** Coalescing is exact: any list of same-sign deltas leaves the position and the carry that one delta
      equal to their sum leaves. */
  lemma {:induction false} Coalesce(a: Axis, ds: seq<real>)
    requires AxisInv(a) && SameSign(ds)
    ensures MoveAll(a, ds) == Move(a, Sum(ds))
    decreases |ds|
  {
    hide Move;
    if ds == [] {
      MoveNothing(a);
    } else {
      var n := |ds| - 1;
      Coalesce(a, ds[..n]);
      SumSign(ds);
      SumSign(ds[..n]);
      assert (forall i :: 0 <= i < |ds| ==> ds[i] >= 0.0) ==> ds[n] >= 0.0 && Sum(ds[..n]) >= 0.0;
      assert (forall i :: 0 <= i < |ds| ==> ds[i] <= 0.0) ==> ds[n] <= 0.0 && Sum(ds[..n]) <= 0.0;
      MoveTwice(a, Sum(ds[..n]), ds[n]);
    }
  }

  /** Deltas of opposite signs keep the sum of position and carry, but not how it is divided. */
  lemma OppositeSignsSplitDifferently()
    ensures var a := Axis(10, 0.0);
            MoveAll(a, [1.5, -0.7]) == Axis(11, -0.2) && Move(a, Sum([1.5, -0.7])) == Axis(10, 0.8)
  {
    var ds := [1.5, -0.7];
    assert ds[..1] == [1.5] && [1.5][..0] == [];
    assert MoveAll(Axis(10, 0.0), [1.5]) == Move(Axis(10, 0.0), 1.5);
    assert Sum([1.5]) == 1.5;
  }

  /** No step of the run is cut short by the end of the grid. */
  predicate Unclamped(a: Axis, ds: seq<real>) {
    ds == [] ||
    var n := |ds| - 1;
    var b := MoveAll(a, ds[..n]);
    Unclamped(a, ds[..n]) && 0 <= b.pos + Trunc(b.acc + ds[n]) <= NORM_MAX
  }

  /** Motion is drift-free: position plus carry is the start plus every delta, and the carry stays below one. */
  lemma {:induction false} NoDrift(a: Axis, ds: seq<real>)
    requires AxisInv(a) && Unclamped(a, ds)
    ensures var b := MoveAll(a, ds);
            AxisInv(b) && b.pos as real + b.acc == a.pos as real + a.acc + Sum(ds)
    decreases |ds|
  {
    if ds != [] {
      var n := |ds| - 1;
      NoDrift(a, ds[..n]);
      MoveInv(MoveAll(a, ds[..n]), ds[n]);
    }
  }

  /** An unclamped run acts like its sum when the carry it ends with and the carry plus the sum it began with are
      cut alike. */
  lemma CoalesceByCarry(a: Axis, ds: seq<real>)
    requires AxisInv(a) && Unclamped(a, ds)
    ensures MoveAll(a, ds) == Move(a, Sum(ds)) <==> CutAlike(a.acc + Sum(ds), MoveAll(a, ds).acc)
  {
    NoDrift(a, ds);
    var b := MoveAll(a, ds);
    var u := a.acc + Sum(ds);
    assert Trunc(b.acc) == 0;
    assert u == b.acc + (b.pos - a.pos) as real;
    CutsApart(b.acc, b.pos - a.pos);
    hide Trunc, CutAlike;
  }

  /** Where the deltas lead when nothing is cut off. */
  function Total(a: Axis, ds: seq<real>): real {
    a.pos as real + a.acc + Sum(ds)
  }

  predicate Whole(r: real) {
    r == r.Floor as real
  }

  /** Did the running total come to the unit from m to m + 1 from below? The last total outside that unit
      decides, or the start when there is none. */
  predicate FromBelow(a: Axis, ds: seq<real>, m: int) {
    if |ds| <= 1 then a.pos <= m
    else
      var before := ds[..|ds| - 1];
      if Total(a, before) <= m as real then true
      else if Total(a, before) >= (m + 1) as real then false
      else FromBelow(a, before, m)
  }

  /** One delta stops at the last whole position on its way to a total between m and m + 1. */
  lemma StopsShort(pos: int, v: real, m: int)
    requires m as real < pos as real + v < (m + 1) as real
    ensures pos + Trunc(v) == if pos <= m then m else m + 1
  {
    if v >= 0.0 {
      FloorShift(v, pos);
    } else {
      FloorShift(-v, -pos);
    }
  }

  /** A run does so too, coming from where it last was outside that unit. */
  lemma {:induction false} RunStopsShort(a: Axis, ds: seq<real>, m: int)
    requires AxisInv(a) && Unclamped(a, ds) && m as real < Total(a, ds) < (m + 1) as real
    ensures MoveAll(a, ds).pos == if FromBelow(a, ds, m) then m else m + 1
    decreases |ds|
  {
    if ds != [] {
      var n := |ds| - 1;
      var before := ds[..n];
      var b := MoveAll(a, before);
      NoDrift(a, before);
      StopsShort(b.pos, b.acc + ds[n], m);
      hide Trunc, Unclamped;
      if n == 0 {
        assert b == a;
      } else if m as real < Total(a, before) < (m + 1) as real {
        RunStopsShort(a, before, m);
      }
    }
  }

  /** Exactly which unclamped runs of deltas of any signs act like their sum: those whose sum, the carry at the
      start included, is whole, and those that come to the last unit from the side on which they started. */
  lemma CoalesceIff(a: Axis, ds: seq<real>)
    requires AxisInv(a) && Unclamped(a, ds)
    ensures var u := a.acc + Sum(ds);
            var m := Total(a, ds).Floor;
            MoveAll(a, ds) == Move(a, Sum(ds)) <==> Whole(u) || (FromBelow(a, ds, m) <==> u >= 0.0)
  {
    hide Trunc, FromBelow, MoveAll, Sum, Unclamped, CutAlike, Whole, Move;
    var u := a.acc + Sum(ds);
    var m := Total(a, ds).Floor;
    var b := MoveAll(a, ds);
    NoDrift(a, ds);
    CoalesceByCarry(a, ds);
    CarrySide(u, b.acc, b.pos - a.pos);
    assert Total(a, ds) == u + a.pos as real;
    FloorShift(u, a.pos);
    if !Whole(u) {
      NotWhole(u, a.pos);
      RunStopsShort(a, ds, m);
    }
  }

  lemma NotWhole(u: real, n: int)
    requires !Whole(u)
    ensures (u + n as real).Floor as real < u + n as real < ((u + n as real).Floor + 1) as real
  {
    FloorShift(u, n);
  }

  /** A carry is cut like the total it completes when it is whole, or counts up to one that is not negative. */
  lemma CarrySide(u: real, acc: real, i: int)
    requires u == acc + i as real && -1.0 < acc < 1.0
    ensures CutAlike(u, acc) <==> Whole(u) || (i == u.Floor <==> u >= 0.0)
  {
    FloorShift(acc, i);
  }

  /** A closed path from a whole position returns to it exactly. */
  lemma ClosedPath(a: Axis, ds: seq<real>)
    requires AxisInv(a) && a.acc == 0.0 && Unclamped(a, ds) && Sum(ds) == 0.0
    ensures MoveAll(a, ds) == a
  {
    NoDrift(a, ds);
    var b := MoveAll(a, ds);
    assert b.acc == (a.pos - b.pos) as real;
  }

  // ---- Touchpad scrolling ---------------------------------------------------------

  /** The whole notches in an accumulated number of pixels, in wheel units, and the pixels left over. */
  function Notches(acc: real): (int, real) {
    var n := Trunc(acc / PX_PER_NOTCH);
    (n * WHEEL_DELTA, acc - n as real * PX_PER_NOTCH)
  }

  class Scroller {
    var acc: real
    ghost var total: real   // pixels fed since the accumulator was empty
    ghost var units: int    // wheel units drained since then

    /** No pixel is lost: 120 wheel units stand for 30 pixels, and less than a notch is outstanding. */
    ghost predicate Valid()
      reads this
    {
      && units % WHEEL_DELTA == 0
      && total == (units / WHEEL_DELTA) as real * PX_PER_NOTCH + acc
      && -PX_PER_NOTCH < acc < PX_PER_NOTCH
    }

    constructor ()
      ensures Valid() && total == 0.0 && units == 0 && acc == 0.0
    {
      acc, total, units := 0.0, 0.0, 0;
    }

    /** One touchpad event on this axis. */
    method Feed(pixels: real) returns (drained: int)
      requires Valid()
      modifies this
      ensures drained % 120 == 0 && -30.0 < acc < 30.0
      ensures old(acc) + pixels == (drained / 120) as real * 30.0 + acc
      ensures (old(acc) + pixels >= 0.0 ==> drained >= 0 && acc >= 0.0)
           && (old(acc) + pixels <= 0.0 ==> drained <= 0 && acc <= 0.0)
      ensures Valid() && total == old(total) + pixels && units == old(units) + drained
      ensures (drained, acc) == Notches(old(acc) + pixels)
    {
      Drained(acc + pixels);
      hide Trunc;
      acc := acc + pixels;
      var n := Trunc(acc / PX_PER_NOTCH);
      acc := acc - n as real * PX_PER_NOTCH;
      drained := n * WHEEL_DELTA;
      WholeNotches(units, n);
      WholeNotches(0, n);
      total, units := total + pixels, units + drained;
    }
  }

  lemma WholeNotches(units: int, n: int)
    requires units % WHEEL_DELTA == 0
    ensures (units + n * WHEEL_DELTA) % WHEEL_DELTA == 0
    ensures (units + n * WHEEL_DELTA) / WHEEL_DELTA == units / WHEEL_DELTA + n
  {
  }

  /** What draining leaves: whole notches and less than one notch of the same sign. */
  lemma Drained(acc: real)
    ensures var (d, rest) := Notches(acc);
            && d % 120 == 0 && -30.0 < rest < 30.0 && acc == (d / 120) as real * 30.0 + rest
            && (acc >= 0.0 ==> d >= 0 && rest >= 0.0) && (acc <= 0.0 ==> d <= 0 && rest <= 0.0)
  {
    NotchRemainder(acc);
    hide Trunc;
    WholeNotches(0, Trunc(acc / PX_PER_NOTCH));
  }

  lemma NotchRemainder(acc: real)
    ensures var n := Trunc(acc / PX_PER_NOTCH);
            var rest := acc - n as real * PX_PER_NOTCH;
            && -PX_PER_NOTCH < rest < PX_PER_NOTCH
            && (acc >= 0.0 ==> n >= 0 && rest >= 0.0) && (acc <= 0.0 ==> n <= 0 && rest <= 0.0)
  {
    var q := acc / PX_PER_NOTCH;
    assert acc == q * PX_PER_NOTCH;
    var n := Trunc(q);
    assert -1.0 < q - n as real < 1.0;
    assert acc - n as real * PX_PER_NOTCH == (q - n as real) * PX_PER_NOTCH;
  }

  /** One scroll event on both axes. A wheel event goes on as it is and a touchpad event through the accumulators;
      the vertical direction is turned round, and nothing is sent when nothing is due. */
  method FeedScroll(x: Scroller, y: Scroller, discrete: bool, dx: real, dy: real) returns (wheel: seq<(int, int)>)
    requires x != y && x.Valid() && y.Valid()
    modifies x, y
    ensures x.Valid() && y.Valid()
    ensures discrete ==> wheel == [(-Trunc(dy), Trunc(dx))] && x.acc == old(x.acc) && y.acc == old(y.acc)
    ensures !discrete ==>
              var (v, restY) := Notches(old(y.acc) + dy);
              var (h, restX) := Notches(old(x.acc) + dx);
              && x.acc == restX && y.acc == restY
              && wheel == if v == 0 && h == 0 then [] else [(-v, h)]
  {
    if discrete {
      return [(-Trunc(dy), Trunc(dx))];
    }
    var v := y.Feed(dy);
    var h := x.Feed(dx);
    wheel := if v != 0 || h != 0 then [(-v, h)] else [];
  }

  function ScrollAll(acc: real, pixels: seq<real>): (int, real) {
    if pixels == [] then (0, acc)
    else
      var (u, a) := ScrollAll(acc, pixels[..|pixels| - 1]);
      var (v, b) := Notches(a + pixels[|pixels| - 1]);
      (u + v, b)
  }

  /** Over any run of touchpad events the pixels fed are 30 per notch sent plus a remainder below a notch. */
  lemma {:induction false} ScrollConserves(acc: real, pixels: seq<real>)
    requires -PX_PER_NOTCH < acc < PX_PER_NOTCH
    ensures var (u, b) := ScrollAll(acc, pixels);
            && u % 120 == 0 && -30.0 < b < 30.0
            && acc + Sum(pixels) == (u / 120) as real * 30.0 + b
    decreases |pixels|
  {
    if pixels != [] {
      var last := |pixels| - 1;
      ScrollConserves(acc, pixels[..last]);
      var (u, a) := ScrollAll(acc, pixels[..last]);
      NotchRemainder(a + pixels[last]);
      var n := Trunc((a + pixels[last]) / PX_PER_NOTCH);
      assert (u + n * WHEEL_DELTA) / WHEEL_DELTA == u / WHEEL_DELTA + n;
    }
  }
}
