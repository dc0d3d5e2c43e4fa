/** Properties of the cursor-ownership machine over whole runs of events. */
module OwnershipRuns {
  import opened Bytes
  import opened Motion
  import opened Ownership

  /** A screen with rows. */
  predicate WellFormed(s: State) {
    s.height > 0
  }

  /** The state after the first k events. */
  function StateAt(s0: State, es: seq<Event>, k: nat): (s: State)
    requires WellFormed(s0) && k <= |es|
    ensures WellFormed(s) && s.height == s0.height && s.width == s0.width && s.edgeSide == s0.edgeSide
  {
    if k == 0 then s0 else Step(StateAt(s0, es, k - 1), es[k - 1]).0
  }

  /** What event k sends. */
  function OutputAt(s0: State, es: seq<Event>, k: nat): seq<Output>
    requires WellFormed(s0) && k < |es|
  {
    Step(StateAt(s0, es, k), es[k]).1
  }

  predicate MovesToRemote(s: State, e: Event)
    requires WellFormed(s)
  {
    e.EnterRemote? || (e.PollCursor? && s.active && !Step(s, e).0.active)
  }

  predicate Returns(s: State, e: Event)
    requires WellFormed(s)
  {
    !s.active && Step(s, e).0.active
  }

  /** A return the local machine decides on by itself, on a motion. */
  predicate SelfReturn(s: State, e: Event)
    requires WellFormed(s)
  {
    IsMotion(e) && Returns(s, e)
  }

  /** The event after the last crossing before event k; 0 when there was none. */
  function SinceCrossing(s0: State, es: seq<Event>, k: nat): (j: nat)
    requires WellFormed(s0) && k <= |es|
    ensures j <= k
  {
    if k == 0 then 0
    else if MovesToRemote(StateAt(s0, es, k - 1), es[k - 1]) then k
    else SinceCrossing(s0, es, k - 1)
  }

  function SinceReturn(s0: State, es: seq<Event>, k: nat): (j: nat)
    requires WellFormed(s0) && k <= |es|
    ensures j <= k
  {
    if k == 0 then 0
    else if Returns(StateAt(s0, es, k - 1), es[k - 1]) then k
    else SinceReturn(s0, es, k - 1)
  }

  // ---- Hysteresis -------------------------------------------------------------------

  /** Event m is a motion that took the cursor strictly past the margin from the return edge. */
  predicate Excursion(s0: State, es: seq<Event>, m: nat, edge: Edge)
    requires WellFormed(s0) && m < |es|
  {
    var t := StateAt(s0, es, m + 1);
    && IsMotion(es[m]) && !StateAt(s0, es, m).active && !t.active
    && t.activeEdge == edge && Depth(t) > SWITCH_MARGIN
  }

  ghost predicate HasExcursion(s0: State, es: seq<Event>, from: nat, k: nat, edge: Edge)
    requires WellFormed(s0) && k <= |es|
  {
    exists m :: from <= m < k && Excursion(s0, es, m, edge)
  }

  lemma MotionStep(s: State, e: Event)
    requires WellFormed(s) && !s.active && IsMotion(e)
    ensures var t := Step(s, e).0;
            && t.activeEdge == s.activeEdge
            && (t.canReturn && !s.canReturn ==> !t.active && Depth(t) > SWITCH_MARGIN)
            && (t.active ==> s.canReturn && AtReturnEdge(t))
  {
    hide Move, Deltas, Reentry;
  }

  lemma OtherStep(s: State, e: Event)
    requires WellFormed(s) && !(IsMotion(e) && !s.active)
    ensures var t := Step(s, e).0;
            && (t.canReturn ==> s.canReturn)
            && (!MovesToRemote(s, e) ==> t.activeEdge == s.activeEdge && t.x == s.x && t.y == s.y)
            && (MovesToRemote(s, e) ==> !t.canReturn && !t.active && Depth(t) == SWITCH_MARGIN)
  {
    hide ToGrid, Trunc, UnitFraction;
  }

  lemma {:induction false} ArmedByExcursion(s0: State, es: seq<Event>, k: nat)
    requires WellFormed(s0) && !s0.canReturn && k <= |es|
    ensures StateAt(s0, es, k).canReturn
        ==> HasExcursion(s0, es, SinceCrossing(s0, es, k), k, StateAt(s0, es, k).activeEdge)
  {
    if k > 0 {
      ArmedByExcursion(s0, es, k - 1);
      var s, e := StateAt(s0, es, k - 1), es[k - 1];
      var t := StateAt(s0, es, k);
      hide Step;
      if IsMotion(e) && !s.active {
        MotionStep(s, e);
        if t.canReturn && !s.canReturn {
          assert Excursion(s0, es, k - 1, t.activeEdge);
        }
      } else {
        OtherStep(s, e);
      }
      if t.canReturn && s.canReturn {
        var j := SinceCrossing(s0, es, k - 1);
        var m :| j <= m < k - 1 && Excursion(s0, es, m, s.activeEdge);
      }
    }
  }

  /** A return the machine decides on by itself happens only if, since the last crossing, an earlier motion
      took the virtual cursor strictly past the switch margin from that same edge. */
  lemma SelfReturnNeedsExcursion(s0: State, es: seq<Event>, k: nat)
    requires WellFormed(s0) && !s0.canReturn && k < |es|
    requires SelfReturn(StateAt(s0, es, k), es[k])
    ensures HasExcursion(s0, es, SinceCrossing(s0, es, k), k, StateAt(s0, es, k).activeEdge)
    ensures AtReturnEdge(StateAt(s0, es, k + 1)) && AcceptsActivation(StateAt(s0, es, k + 1).(active := false))
  {
    MotionStep(StateAt(s0, es, k), es[k]);
    ArmedByExcursion(s0, es, k);
  }

  /** Event m is a poll, with the cursor here, that saw it far enough inside the local screen. */
  predicate InsidePoll(s0: State, es: seq<Event>, m: nat)
    requires WellFormed(s0) && m < |es|
  {
    es[m].PollCursor? && StateAt(s0, es, m).active && Inside(StateAt(s0, es, m), es[m].px)
  }

  ghost predicate HasInsidePoll(s0: State, es: seq<Event>, from: nat, k: nat)
    requires WellFormed(s0) && k <= |es|
  {
    exists m :: from <= m < k && InsidePoll(s0, es, m)
  }

  lemma SwitchStep(s: State, e: Event)
    requires WellFormed(s)
    ensures var t := Step(s, e).0;
            && (Returns(s, e) ==> !t.canSwitch)
            && (t.canSwitch && !s.canSwitch ==> e.PollCursor? && s.active && Inside(s, e.px))
            && (e.PollCursor? && MovesToRemote(s, e) ==> s.canSwitch && AtLocalEdge(s, e.px) && !Inside(s, e.px))
  {
    hide Move, Deltas, Reentry, ToGrid, Trunc, UnitFraction;
  }

  lemma {:induction false} ArmedByPoll(s0: State, es: seq<Event>, k: nat)
    requires WellFormed(s0) && k <= |es|
    ensures SinceReturn(s0, es, k) > 0 && StateAt(s0, es, k).canSwitch
        ==> HasInsidePoll(s0, es, SinceReturn(s0, es, k), k)
  {
    if k > 0 {
      ArmedByPoll(s0, es, k - 1);
      var s, e := StateAt(s0, es, k - 1), es[k - 1];
      var t := StateAt(s0, es, k);
      SwitchStep(s, e);
      hide Step;
      if t.canSwitch && SinceReturn(s0, es, k) > 0 {
        if s.canSwitch {
          var j := SinceReturn(s0, es, k - 1);
          var m :| j <= m < k - 1 && InsidePoll(s0, es, m);
        } else {
          assert InsidePoll(s0, es, k - 1);
        }
      }
    }
  }

  /** After any return, the poller crosses again only if a poll since then saw the cursor more than 20 pixels
      inside the shared edge. */
  lemma CrossingNeedsInsidePoll(s0: State, es: seq<Event>, k: nat)
    requires WellFormed(s0) && k < |es|
    requires es[k].PollCursor? && MovesToRemote(StateAt(s0, es, k), es[k])
    requires SinceReturn(s0, es, k) > 0
    ensures HasInsidePoll(s0, es, SinceReturn(s0, es, k), k)
  {
    SwitchStep(StateAt(s0, es, k), es[k]);
    ArmedByPoll(s0, es, k);
  }

  // ---- Coordinates ----------------------------------------------------------------

  predicate InRange(s: State) {
    AxisInv(s.x) && AxisInv(s.y)
  }

  /** The poller only sees rows of the local screen. */
  predicate OnScreen(s0: State, e: Event) {
    e.PollCursor? ==> 0 <= e.py <= s0.height
  }

  predicate PacketInRange(o: Output) {
    o.MousePacket? ==> 0 <= o.px <= NORM_MAX && 0 <= o.py <= NORM_MAX
  }

  lemma GridBounds(v: int, size: int)
    requires size > 0
    ensures 0 <= v <= size ==> 0 <= ToGrid(v, size) <= NORM_MAX
    ensures size <= NORM_MAX && v < 0 ==> ToGrid(v, size) < 0
    ensures size <= NORM_MAX && v > size ==> ToGrid(v, size) > NORM_MAX
  {
    var q := v as real / size as real;
    var n := NORM_MAX as real;
    assert q * size as real == v as real;
    ProductSign(q, size as real);
    ProductSign(q - 1.0, size as real);
    assert (q - 1.0) * size as real == (v - size) as real;
    if 0 <= v <= size {
      assert 0.0 <= q <= 1.0;
    } else if size <= NORM_MAX && v < 0 {
      AtLeastOne(-q, size as real, n);
      assert q * n == -(-q * n);
    } else if size <= NORM_MAX {
      AtLeastOne(q - 1.0, size as real, n);
      assert q * n == (q - 1.0) * n + n;
    }
  }

  lemma AtLeastOne(f: real, size: real, n: real)
    requires 0.0 < size <= n && f * size >= 1.0
    ensures f * n >= 1.0
  {
    ProductSign(f, size);
    assert f * (n - size) >= 0.0;
  }

  lemma ProductSign(a: real, b: real)
    requires b > 0.0
    ensures a < 0.0 ==> a * b < 0.0
    ensures a <= 0.0 ==> a * b <= 0.0
    ensures a > 0.0 ==> a * b > 0.0
  {
  }

  lemma FractionBounds(f: real)
    ensures 0 <= Trunc(UnitFraction(f) * NORM_MAX as real) <= NORM_MAX
  {
  }

  lemma RangeStep(s: State, e: Event)
    requires WellFormed(s) && InRange(s) && OnScreen(s, e)
    ensures InRange(Step(s, e).0)
    ensures forall i :: 0 <= i < |Step(s, e).1| ==> PacketInRange(Step(s, e).1[i])
  {
    if e.PollCursor? {
      GridBounds(e.py, s.height);
    } else if e.EnterRemote? {
      FractionBounds(e.frac);
    } else if IsMotion(e) {
      MoveInv(s.x, Deltas(s, e).0);
      MoveInv(s.y, Deltas(s, e).1);
    }
    hide Move, Deltas, Reentry, ToGrid, Trunc, UnitFraction;
  }

  /** In every run with on-screen polls the virtual cursor stays on the grid with a carry below one, and every
      mouse packet sent, be it a move, a click or a scroll, carries coordinates in 0..65535. */
  lemma {:induction false} CoordinatesInRange(s0: State, es: seq<Event>, k: nat)
    requires WellFormed(s0) && InRange(s0) && k <= |es|
    requires forall i :: 0 <= i < |es| ==> OnScreen(s0, es[i])
    ensures InRange(StateAt(s0, es, k))
    ensures k < |es| ==> forall i :: 0 <= i < |OutputAt(s0, es, k)| ==> PacketInRange(OutputAt(s0, es, k)[i])
  {
    if k > 0 {
      CoordinatesInRange(s0, es, k - 1);
      RangeStep(StateAt(s0, es, k - 1), es[k - 1]);
    }
    if k < |es| {
      RangeStep(StateAt(s0, es, k), es[k]);
    }
  }

  /** Exactly which polled rows cross to a point of the grid: with several monitors the row may lie outside. */
  lemma CrossingInRangeIff(s: State, py: int, now: int, edge: Edge)
    requires 0 < s.height <= NORM_MAX && (edge == Left || edge == Right)
    ensures InRange(Crossed(s, edge, ToGrid(py, s.height), now)) <==> 0 <= py <= s.height
  {
    GridBounds(py, s.height);
    hide ToGrid;
  }

  // ---- Activation notices -------------------------------------------------------------

  /** Event m is a motion that left the remote cursor within the acceptance margin of the crossed edge. */
  predicate Approach(s0: State, es: seq<Event>, m: nat, edge: Edge)
    requires WellFormed(s0) && m < |es|
  {
    var t := StateAt(s0, es, m + 1);
    IsMotion(es[m]) && !StateAt(s0, es, m).active && t.activeEdge == edge && Depth(t) <= RETURN_EDGE_MARGIN
  }

  ghost predicate HasApproach(s0: State, es: seq<Event>, from: nat, k: nat, edge: Edge)
    requires WellFormed(s0) && k <= |es|
  {
    exists m :: from <= m < k && Approach(s0, es, m, edge)
  }

  lemma {:induction false} NearEdgeByApproach(s0: State, es: seq<Event>, k: nat)
    requires WellFormed(s0) && k <= |es|
    ensures SinceCrossing(s0, es, k) > 0 && Depth(StateAt(s0, es, k)) <= RETURN_EDGE_MARGIN
        ==> HasApproach(s0, es, SinceCrossing(s0, es, k), k, StateAt(s0, es, k).activeEdge)
  {
    if k > 0 {
      NearEdgeByApproach(s0, es, k - 1);
      var s, e := StateAt(s0, es, k - 1), es[k - 1];
      var t := StateAt(s0, es, k);
      hide Step;
      if SinceCrossing(s0, es, k) > 0 && Depth(t) <= RETURN_EDGE_MARGIN {
        if IsMotion(e) && !s.active {
          MotionStep(s, e);
          assert Approach(s0, es, k - 1, t.activeEdge);
        } else {
          OtherStep(s, e);
          var j := SinceCrossing(s0, es, k - 1);
          var m :| j <= m < k - 1 && Approach(s0, es, m, s.activeEdge);
        }
      }
    }
  }

  /** An activation notice is rejected right after a crossing, and while the remote keeps the cursor it is
      accepted only after a motion since that crossing came within the margin of the crossed edge. */
  lemma NoticeNeedsApproach(s0: State, es: seq<Event>, k: nat)
    requires WellFormed(s0) && k <= |es|
    requires SinceCrossing(s0, es, k) > 0 && !StateAt(s0, es, k).active && AcceptsActivation(StateAt(s0, es, k))
    ensures SinceCrossing(s0, es, k) < k
    ensures HasApproach(s0, es, SinceCrossing(s0, es, k), k, StateAt(s0, es, k).activeEdge)
  {
    NearEdgeByApproach(s0, es, k);
  }

  // ---- Re-entry ---------------------------------------------------------------------

  predicate IsHorizontal(edge: Edge) {
    edge == Top || edge == Bottom
  }

  /** The axis that runs along the edge the cursor left through, and the size of the screen along it. */
  function AlongAxis(s: State): Axis {
    if IsHorizontal(s.activeEdge) then s.x else s.y
  }

  function AlongSize(s: State, edge: Edge): int {
    if IsHorizontal(edge) then s.width else s.height
  }

  function AlongDelta(s: State, e: Event): real {
    if !IsMotion(e) || !Forwards(s, e.now) then 0.0
    else if IsHorizontal(s.activeEdge) then Deltas(s, e).0
    else Deltas(s, e).1
  }

  /** What the events move that axis by: nothing for an event that is not forwarded. */
  function Along(s0: State, es: seq<Event>, k: nat): (ds: seq<real>)
    requires WellFormed(s0) && k <= |es|
    ensures |ds| == k
  {
    if k == 0 then [] else Along(s0, es, k - 1) + [AlongDelta(StateAt(s0, es, k - 1), es[k - 1])]
  }

  predicate StaysRemote(s0: State, es: seq<Event>, k: nat)
    requires WellFormed(s0) && k <= |es|
  {
    forall i :: 0 <= i < k ==> !StateAt(s0, es, i).active && !es[i].EnterRemote?
  }

  /** During a remote session the axis along the edge is the fold of the forwarded deltas. */
  lemma {:induction false} AlongAxisFolds(s0: State, es: seq<Event>, k: nat)
    requires WellFormed(s0) && InRange(s0) && k <= |es| && StaysRemote(s0, es, k)
    ensures AlongAxis(StateAt(s0, es, k)) == MoveAll(AlongAxis(s0), Along(s0, es, k))
    ensures InRange(StateAt(s0, es, k)) && StateAt(s0, es, k).activeEdge == s0.activeEdge
  {
    hide Step, Deltas, Move, Forwards, Crossed, AlongDelta, AlongAxis, InRange;
    if k > 0 {
      AlongAxisFolds(s0, es, k - 1);
      var ds := Along(s0, es, k);
      assert ds[..k - 1] == Along(s0, es, k - 1);
      AlongStep(StateAt(s0, es, k - 1), es[k - 1]);
    }
  }

  lemma MotionMoves(s: State, e: Event)
    requires WellFormed(s) && !s.active && IsMotion(e)
    ensures var t := Step(s, e).0;
            && t.activeEdge == s.activeEdge
            && t.x == (if Forwards(s, e.now) then Move(s.x, Deltas(s, e).0) else s.x)
            && t.y == (if Forwards(s, e.now) then Move(s.y, Deltas(s, e).1) else s.y)
  {
    hide Move, Reentry, Scaled;
  }

  lemma AlongStep(s: State, e: Event)
    requires WellFormed(s) && !s.active && !e.EnterRemote? && InRange(s)
    ensures var t := Step(s, e).0;
            && AlongAxis(t) == Move(AlongAxis(s), AlongDelta(s, e))
            && t.activeEdge == s.activeEdge && InRange(t)
  {
    hide Move, Reentry, Scaled, AxisInv, Crossed, ToGrid;
    MoveNothing(s.x);
    MoveNothing(s.y);
    MoveInv(s.x, Deltas(s, e).0);
    MoveInv(s.y, Deltas(s, e).1);
    if IsMotion(e) {
      MotionMoves(s, e);
    }
  }

  /** Grid and back: the same row or the one above it, the same exactly when the height divides 65535 * row. */
  lemma RowRoundTrip(row: int, height: int)
    requires 0 < height <= NORM_MAX && 0 <= row <= height
    ensures var back := ToPixel(ToGrid(row, height), height);
            && (back == row || back == row - 1)
            && (back == row <==> (NORM_MAX * row) % height == 0)
  {
    var g := ToGrid(row, height);
    GridBounds(row, height);
    GridValue(row, height);
    PixelValue(g, height);
    var back := ToPixel(g, height);
    var r := NORM_MAX * row - height * g;
    assert NORM_MAX * row == height * g + r && 0 <= r < height;
    assert height * g == NORM_MAX * row - r;
    assert NORM_MAX * back <= NORM_MAX * row - r < NORM_MAX * (back + 1);
    DivisionRemainder(NORM_MAX * row, height, g, r);
  }

  lemma DivisionRemainder(n: int, d: int, q: int, r: int)
    requires d > 0 && n == d * q + r && 0 <= r < d
    ensures n % d == r
  {
    Multiples(d, n / d, q);
    Multiples(d, q, n / d);
  }

  lemma Multiples(d: int, a: int, b: int)
    requires d > 0
    ensures a < b ==> d * a + d <= d * b
  {
    if a < b {
      assert d * (a + 1) <= d * b;
    }
  }

  /** The grid line is the integer quotient. */
  lemma GridValue(row: int, height: int)
    requires 0 < height && 0 <= row
    ensures var g := ToGrid(row, height);
            0 <= NORM_MAX * row - height * g < height
  {
    var h := height as real;
    var q := row as real / h * NORM_MAX as real;
    var g := ToGrid(row, height);
    QuotientProduct(row as real, h, NORM_MAX as real);
    ProductSign(q, h);
    assert g as real <= q < (g + 1) as real;
    hide ToGrid;
    QuotientBounds(NORM_MAX * row, height, g, q);
  }

  lemma QuotientBounds(n: int, d: int, g: int, q: real)
    requires d > 0 && q * d as real == n as real && g as real <= q < (g + 1) as real
    ensures 0 <= n - d * g < d
  {
    Between(g as real, q, (g + 1) as real, d as real);
    ProductAsReal(g, d);
    ProductAsReal(g + 1, d);
    LessAsReal(n, (g + 1) * d);
    assert (g + 1) * d == d * g + d;
  }

  lemma QuotientProduct(a: real, b: real, c: real)
    requires b > 0.0
    ensures a / b * c * b == a * c
  {
    var f := a / b;
    assert f * b == a;
    assert f * c * b == f * b * c;
  }

  lemma ProductAsReal(a: int, b: int)
    ensures (a * b) as real == a as real * b as real
  {
  }

  lemma LessAsReal(a: int, b: int)
    requires a as real < b as real
    ensures a < b
  {
  }

  lemma Between(a: real, q: real, b: real, h: real)
    requires a <= q < b && h > 0.0
    ensures a * h <= q * h < b * h
  {
    assert (q - a) * h >= 0.0;
    assert (b - q) * h > 0.0;
  }

  lemma PixelValue(pos: int, height: int)
    requires 0 <= pos && 0 < height
    ensures var p := ToPixel(pos, height);
            NORM_MAX * p <= height * pos < NORM_MAX * (p + 1)
  {
    var q := pos as real / NORM_MAX as real * height as real;
    assert pos as real / NORM_MAX as real * NORM_MAX as real == pos as real;
    assert q * NORM_MAX as real == (height * pos) as real;
    var p := ToPixel(pos, height);
    assert p as real <= q < (p + 1) as real;
  }

  /** The poller crosses at the grid line of the row it saw ... */
  lemma PollCrosses(s: State, px: int, py: int, now: int)
    requires WellFormed(s) && MovesToRemote(s, PollCursor(px, py, now))
    ensures Step(s, PollCursor(px, py, now)).0
         == Crossed(s.(canSwitch := true, lastSwitch := Some(now)), s.edgeSide, ToGrid(py, s.height), now)
  {
    hide ToGrid;
  }

  /** ... and the portal's fraction for a pixel of an edge is the same grid line. */
  lemma PortalCrosses(s: State, edge: Edge, at: int, now: int)
    requires WellFormed(s) && 0 <= at <= AlongSize(s, edge) && AlongSize(s, edge) > 0
    ensures Step(s, EnterRemote(edge, at as real / AlongSize(s, edge) as real, now)).0
         == Crossed(s, edge, ToGrid(at, AlongSize(s, edge)), now)
  {
    var size := AlongSize(s, edge);
    FractionOf(at, size);
    hide Trunc, AlongSize, UnitFraction, Crossed;
  }

  lemma FractionOf(at: int, size: int)
    requires 0 <= at <= size && size > 0
    ensures var f := at as real / size as real;
            UnitFraction(f) == f
  {
    var f := at as real / size as real;
    assert f * size as real == at as real;
    ProductSign(f, size as real);
    ProductSign(f - 1.0, size as real);
    assert (f - 1.0) * size as real == (at - size) as real;
  }

  /** The pixel 100 inside the edge the cursor left through, at a place along it. */
  function Inset(s: State, edge: Edge, at: int): Output {
    match edge
    case Right => Warp(s.width - REENTRY_INSET, at)
    case Top => Warp(at, REENTRY_INSET)
    case Bottom => Warp(at, s.height - REENTRY_INSET)
    case _ => Warp(REENTRY_INSET, at)
  }

  /** A return the machine decides on by itself outputs exactly the warp to the inset pixel. */
  lemma ReturnWarps(s: State, e: Event)
    requires WellFormed(s) && SelfReturn(s, e)
    ensures var t := Step(s, e).0;
            Step(s, e).1 == [Inset(s, t.activeEdge, ToPixel(AlongAxis(t).pos, AlongSize(s, t.activeEdge)))]
  {
    hide ToPixel, Move, Scaled;
  }

  /** A remote session whose motion along the edge is unclamped and sums to zero ends in a warp to where it
      began along that edge. */
  lemma ReturnsToStart(c: State, es: seq<Event>, k: nat)
    requires WellFormed(c) && InRange(c) && AlongAxis(c).acc == 0.0 && k < |es| && StaysRemote(c, es, k)
    requires SelfReturn(StateAt(c, es, k), es[k])
    requires Unclamped(AlongAxis(c), Along(c, es, k + 1)) && Sum(Along(c, es, k + 1)) == 0.0
    ensures OutputAt(c, es, k) == [Inset(c, c.activeEdge, ToPixel(AlongAxis(c).pos, AlongSize(c, c.activeEdge)))]
  {
    hide *;
    StaysUntilReturn(c, es, k);
    AlongInv(c);
    AlongAxisFolds(c, es, k + 1);
    ClosedPath(AlongAxis(c), Along(c, es, k + 1));
    ReturnWarps(StateAt(c, es, k), es[k]);
    SameScreen(c, es, k);
    var t := StateAt(c, es, k + 1);
    SameInset(c, StateAt(c, es, k), t.activeEdge, ToPixel(AlongAxis(c).pos, AlongSize(c, c.activeEdge)));
  }

  lemma StaysUntilReturn(c: State, es: seq<Event>, k: nat)
    requires WellFormed(c) && k < |es| && StaysRemote(c, es, k) && SelfReturn(StateAt(c, es, k), es[k])
    ensures StaysRemote(c, es, k + 1)
    ensures OutputAt(c, es, k) == Step(StateAt(c, es, k), es[k]).1
    ensures StateAt(c, es, k + 1) == Step(StateAt(c, es, k), es[k]).0
  {
    hide Step;
  }

  lemma AlongInv(s: State)
    requires InRange(s)
    ensures AxisInv(AlongAxis(s))
  {
  }

  lemma CrossedAlong(s: State, edge: Edge, at: int, now: int)
    requires WellFormed(s) && 0 <= at <= AlongSize(s, edge) && 0 < AlongSize(s, edge) <= NORM_MAX
    ensures var c := Crossed(s, edge, ToGrid(at, AlongSize(s, edge)), now);
            && AlongAxis(c) == Axis(ToGrid(at, AlongSize(s, edge)), 0.0) && InRange(c)
            && c.activeEdge == edge && c.width == s.width && c.height == s.height
  {
    GridBounds(at, AlongSize(s, edge));
    hide ToGrid, AlongSize;
  }

  /** Crossing at a pixel of any edge, then a remote session whose motion along that edge is unclamped and sums to
      zero, then a return the machine decides on by itself: the pointer is warped to the same pixel along the
      edge or the one before it, the same exactly when the size divides 65535 times the pixel. */
  lemma ReentersWhereItLeft(s: State, edge: Edge, at: int, now: int, es: seq<Event>, k: nat)
    requires WellFormed(s) && 0 <= at <= AlongSize(s, edge) && 0 < AlongSize(s, edge) <= NORM_MAX
    requires var c := Crossed(s, edge, ToGrid(at, AlongSize(s, edge)), now);
             && k < |es| && StaysRemote(c, es, k) && SelfReturn(StateAt(c, es, k), es[k])
             && Unclamped(AlongAxis(c), Along(c, es, k + 1)) && Sum(Along(c, es, k + 1)) == 0.0
    ensures var c := Crossed(s, edge, ToGrid(at, AlongSize(s, edge)), now);
            var back := ToPixel(AlongAxis(c).pos, AlongSize(s, edge));
            && OutputAt(c, es, k) == [Inset(s, edge, back)]
            && (back == at || back == at - 1)
            && (back == at <==> (NORM_MAX * at) % AlongSize(s, edge) == 0)
  {
    var size := AlongSize(s, edge);
    var c := Crossed(s, edge, ToGrid(at, size), now);
    CrossedAlong(s, edge, at, now);
    SameInset(s, c, edge, ToPixel(AlongAxis(c).pos, size));
    assert WellFormed(c);
    RowRoundTrip(at, size);
    hide *;
    ReturnsToStart(c, es, k);
  }

  lemma SameScreen(s0: State, es: seq<Event>, k: nat)
    requires WellFormed(s0) && k <= |es|
    ensures StateAt(s0, es, k).width == s0.width && StateAt(s0, es, k).height == s0.height
  {
  }

  lemma SameInset(s: State, t: State, edge: Edge, at: int)
    requires t.width == s.width && t.height == s.height
    ensures Inset(t, edge, at) == Inset(s, edge, at) && AlongSize(t, edge) == AlongSize(s, edge)
  {
  }

  /** A poll 100 pixels inside the shared edge, where a self return or an accepted notice puts the pointer, re-arms
      the local gate without crossing again, whatever the width. */
  lemma InsetRearms(s: State, px: int, py: int, now: int)
    requires WellFormed(s) && s.active && (s.edgeSide == Left || s.edgeSide == Right)
    requires px == if s.edgeSide == Left then REENTRY_INSET else s.width - REENTRY_INSET
    ensures Step(s, PollCursor(px, py, now)) == (s.(canSwitch := true), [])
  {
  }

  /** Without portal crossings the edge the cursor left through is always the shared one. */
  lemma {:induction false} LeavesThroughSharedEdge(s0: State, es: seq<Event>, k: nat)
    requires WellFormed(s0) && s0.activeEdge == s0.edgeSide && k <= |es|
    requires forall i :: 0 <= i < |es| ==> !es[i].EnterRemote?
    ensures StateAt(s0, es, k).activeEdge == s0.edgeSide
  {
    if k > 0 {
      LeavesThroughSharedEdge(s0, es, k - 1);
      KeepsEdge(StateAt(s0, es, k - 1), es[k - 1]);
      hide Step;
    }
  }

  lemma KeepsEdge(s: State, e: Event)
    requires WellFormed(s) && s.activeEdge == s.edgeSide && !e.EnterRemote?
    ensures Step(s, e).0.activeEdge == s.edgeSide
  {
    hide Move, Reentry, ToGrid, Scaled;
  }

  /** In every run of the polling driver, the poll that sees the pointer where a return of its own has warped it
      re-arms the local gate and does not cross. */
  lemma ReentryRearms(s0: State, es: seq<Event>, k: nat)
    requires WellFormed(s0) && s0.activeEdge == s0.edgeSide && (s0.edgeSide == Left || s0.edgeSide == Right)
    requires forall i :: 0 <= i < |es| ==> !es[i].EnterRemote?
    requires k + 1 < |es| && SelfReturn(StateAt(s0, es, k), es[k]) && es[k + 1].PollCursor?
    requires OutputAt(s0, es, k) == [Warp(es[k + 1].px, es[k + 1].py)]
    ensures StateAt(s0, es, k + 2) == StateAt(s0, es, k + 1).(canSwitch := true)
    ensures OutputAt(s0, es, k + 1) == []
  {
    var s, t := StateAt(s0, es, k), StateAt(s0, es, k + 1);
    LeavesThroughSharedEdge(s0, es, k + 1);
    ReturnWarps(s, es[k]);
    hide ToPixel, Step;
    InsetRearms(t, es[k + 1].px, es[k + 1].py, es[k + 1].now);
  }

  const SCREEN := State(NORM_MAX, NORM_MAX, 1.0, Left, true, Left, Axis(0, 0.0), Axis(0, 0.0), true, false, None, None)
  const OUT := FeedMotion(-1000.0, 0.0, GRACE)
  const BACK := FeedMotion(10000.0, 0.0, GRACE)

  lemma UnitScale(d: real)
    ensures Scaled(d, 1.0, NORM_MAX) == d
  {
    assert NormPerPx(NORM_MAX) == 1.0;
  }

  lemma GoesOut(c: State)
    requires c == Crossed(SCREEN, Left, 0, 0)
    ensures Step(c, OUT).0 == c.(x := Axis(NORM_MAX - SWITCH_MARGIN - 1000, 0.0), canReturn := true)
    ensures AlongDelta(c, OUT) == 0.0
  {
    UnitScale(-1000.0);
    UnitScale(0.0);
    hide Scaled;
  }

  lemma ComesBack(c: State)
    requires c == Crossed(SCREEN, Left, 0, 0).(x := Axis(NORM_MAX - SWITCH_MARGIN - 1000, 0.0), canReturn := true)
    ensures SelfReturn(c, BACK) && AlongDelta(c, BACK) == 0.0
  {
    UnitScale(10000.0);
    UnitScale(0.0);
    hide Scaled;
  }

  lemma ZeroDeltas(a: Axis)
    requires AxisInv(a)
    ensures Unclamped(a, [0.0, 0.0]) && Sum([0.0, 0.0]) == 0.0
  {
    assert [0.0, 0.0][..1] == [0.0] && [0.0][..0] == [];
    assert Sum([0.0]) == 0.0;
    MoveNothing(a);
    assert MoveAll(a, [0.0]) == a;
  }

  /** Such sessions exist: out past the margin and back through the left edge of a screen as large as the grid. */
  lemma ReentryPossible()
    ensures var c := Crossed(SCREEN, Left, ToGrid(0, NORM_MAX), 0);
            && StaysRemote(c, [OUT, BACK], 1) && SelfReturn(StateAt(c, [OUT, BACK], 1), BACK)
            && Unclamped(AlongAxis(c), Along(c, [OUT, BACK], 2)) && Sum(Along(c, [OUT, BACK], 2)) == 0.0
  {
    assert ToGrid(0, NORM_MAX) == 0;
    var c := Crossed(SCREEN, Left, 0, 0);
    var es := [OUT, BACK];
    GoesOut(c);
    ComesBack(Step(c, OUT).0);
    ZeroDeltas(c.y);
    hide Step, ToGrid, Unclamped, Sum, SelfReturn, AlongDelta;
    assert StateAt(c, es, 0) == c && StateAt(c, es, 1) == Step(c, OUT).0;
    assert Along(c, es, 1) == [0.0] && Along(c, es, 2) == [0.0, 0.0];
  }
}
