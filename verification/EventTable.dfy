/** What every local event does to the cursor's owner, in pixels, grid units and message codes. */
module EventTable {
  import opened Bytes
  import opened Motion
  import opened Ownership
  import OwnershipRuns

  /** The grid position g that truncating pixel v of a screen of the given size to 0..65535 leads to. */
  predicate OnLine(g: int, v: int, size: int) {
    size * g <= 65535 * v < size * (g + 1)
  }

  // ---- Polls and crossings --------------------------------------------------------------

  /** A poll takes the cursor across exactly when the gate is armed, the last crossing is at least 100 ms old, and
      the pointer is on the last two columns of the left edge or the last of the right one. */
  lemma PollCrossesIff(s: State, px: int, py: int, now: int)
    requires Defined(s, PollCursor(px, py, now))
    ensures var t := Step(s, PollCursor(px, py, now)).0;
            !t.active <==>
              || !s.active
              || (&& s.canSwitch && !(s.lastSwitch.Some? && now - s.lastSwitch.value < 100)
                  && ((s.edgeSide == Left && px <= 1) || (s.edgeSide == Right && px >= s.width - 1)))
  {
  }

  /** A poll that crosses tells the remote and puts the cursor 6553 units inside, on the grid line of the row. */
  lemma PollCrossing(s: State, px: int, py: int, now: int)
    requires Defined(s, PollCursor(px, py, now))
    requires s.active && !Step(s, PollCursor(px, py, now)).0.active
    ensures var (t, out) := Step(s, PollCursor(px, py, now));
            && out == [MachineSwitchedPacket]
            && t == s.(active := false, activeEdge := s.edgeSide, canReturn := false, canSwitch := true,
                       switchSent := Some(now), lastSwitch := Some(now), y := t.y,
                       x := Axis(if s.edgeSide == Left then 58982 else 6553, 0.0))
            && t.y.acc == 0.0
            && (0 <= py && 0 < s.height ==> OnLine(t.y.pos, py, s.height))
  {
    if 0 <= py && 0 < s.height {
      OwnershipRuns.GridValue(py, s.height);
      LineOf(ToGrid(py, s.height), py, s.height);
    }
    hide ToGrid;
  }

  lemma LineOf(g: int, v: int, size: int)
    requires 0 <= 65535 * v - size * g < size
    ensures OnLine(g, v, size)
  {
    assert size * (g + 1) == size * g + size;
  }

  /** A poll that does not cross sends nothing, and re-arms the gate exactly when it sees the pointer more than 20
      pixels inside. */
  lemma PollStays(s: State, px: int, py: int, now: int)
    requires Defined(s, PollCursor(px, py, now))
    requires s.active == Step(s, PollCursor(px, py, now)).0.active
    ensures var inside := (s.edgeSide == Left && px > 20) || (s.edgeSide == Right && px < s.width - 20);
            Step(s, PollCursor(px, py, now)) == (s.(canSwitch := s.canSwitch || (s.active && inside)), [])
  {
  }

  /** A portal crossing, whoever owns the cursor: 6553 units inside the edge, at the fraction along it. */
  lemma PortalCrossing(s: State, edge: Edge, f: real, now: int)
    ensures var (t, out) := Step(s, EnterRemote(edge, f, now));
            var p := if IsVertical(edge) then t.y.pos else t.x.pos;
            var at := (if f < 0.0 then 0.0 else if f > 1.0 then 1.0 else f) * 65535.0;
            && out == [MachineSwitchedPacket]
            && t == s.(active := false, activeEdge := edge, canReturn := false, switchSent := Some(now),
                       x := Axis(match edge case Right => 6553 case Top => p case Bottom => p case _ => 58982, 0.0),
                       y := Axis(match edge case Top => 58982 case Bottom => 6553 case _ => p, 0.0))
            && p as real <= at < (p + 1) as real
  {
  }

  predicate IsVertical(edge: Edge) {
    edge != Top && edge != Bottom
  }

  // ---- Gates ------------------------------------------------------------------------------

  /** A switch notice is accepted here, or within 1638 units of the edge the cursor crossed; a request to take the
      cursor back, within 8192 units of the shared edge. */
  lemma GatesOpenIff(s: State, x: int)
    ensures AcceptsActivation(s) <==>
              || s.active
              || (s.activeEdge == Right && s.x.pos <= 1638) || (s.activeEdge == Top && s.y.pos >= 63897)
              || (s.activeEdge == Bottom && s.y.pos <= 1638)
              || (s.activeEdge !in {Right, Top, Bottom} && s.x.pos >= 63897)
    ensures AcceptsReclaim(s.edgeSide, x) <==>
              (s.edgeSide == Left ==> x <= 8192) && (s.edgeSide == Right ==> x >= 57343)
  {
  }

  /** Activation disarms both gates and ends the grace period, but only when the cursor was away. */
  lemma ActivationIs(s: State, on: bool, m: real)
    ensures Step(s, SetActive(on)).1 == [] && Step(s, SetAccel(m)).1 == []
    ensures Step(s, SetActive(on)).0
         == if !on then s.(active := false)
            else if s.active then s
            else s.(active := true, switchSent := None, canSwitch := false, canReturn := false)
    ensures Step(s, SetAccel(m)).0 == s.(accel := if m > 0.0 then m else s.accel)
  {
  }

  // ---- Motion ------------------------------------------------------------------------------

  /** Nothing is forwarded from here, nor in the first 100 ms after a crossing, except scrolling by the portal. */
  predicate Quiet(s: State, now: int) {
    s.active || (s.switchSent.Some? && now - s.switchSent.value < 100)
  }

  lemma QuietEvents(s: State, code: int, value: int, dx: real, dy: real, now: int)
    requires Quiet(s, now)
    ensures Step(s, Rel(code, value, now)) == (s, [])
    ensures Step(s, FeedMotion(dx, dy, now)) == (s, [])
    ensures Step(s, Button(code, value, now)) == (s, [])
  {
  }

  /** The grid units that a number of local pixels of a screen of the given size stand for. */
  function Units(pixels: real, accel: real, size: int): real {
    pixels * accel * (65535.0 / (if size <= 0 then 1.0 else size as real))
  }

  lemma ScaledIs(d: real, accel: real, size: int)
    ensures Scaled(d, accel, size) == Units(d, accel, size)
  {
    assert NormPerPx(size) == 65535.0 / (if size <= 0 then 1.0 else size as real);
  }

  /** Relative events 0 and 1 move the horizontal and the vertical axis, in proportion to the screen and the
      multiplier; a portal motion moves both. */
  lemma MotionMoves(s: State, value: int, dx: real, dy: real, now: int)
    requires !Quiet(s, now)
    ensures var right, down := Step(s, Rel(0, value, now)).0, Step(s, Rel(1, value, now)).0;
            var both := Step(s, FeedMotion(dx, dy, now)).0;
            && right.x == Move(s.x, Units(value as real, s.accel, s.width)) && right.y == Move(s.y, 0.0)
            && down.x == Move(s.x, 0.0) && down.y == Move(s.y, Units(value as real, s.accel, s.height))
            && both.x == Move(s.x, Units(dx, s.accel, s.width)) && both.y == Move(s.y, Units(dy, s.accel, s.height))
  {
    ScaledIs(value as real, s.accel, s.width);
    ScaledIs(value as real, s.accel, s.height);
    ScaledIs(dx, s.accel, s.width);
    ScaledIs(dy, s.accel, s.height);
    hide Scaled, Move, Units, Reentry;
  }

  /** The last unit of the right and bottom edges and the last two of the others are the way back. */
  predicate AtWayBack(edge: Edge, x: int, y: int) {
    match edge
    case Right => x <= 0
    case Top => y >= 65534
    case Bottom => y <= 0
    case _ => x >= 65534
  }

  /** More than 6553 units away from the edge. */
  predicate Clear(edge: Edge, x: int, y: int) {
    match edge
    case Right => x > 6553
    case Top => y < 58982
    case Bottom => y > 6553
    case _ => x < 58982
  }

  predicate Moves(e: Event) {
    e.FeedMotion? || (e.Rel? && (e.code == 0 || e.code == 1))
  }

  /** After a forwarded motion the way back is open if it was, or if the cursor is clear of the edge now; the
      cursor returns exactly when it is open and the cursor is there. A return warps the pointer 100 pixels inside,
      and any other motion is sent on. Nothing else changes. */
  lemma AfterMotionIs(s: State, e: Event)
    requires Moves(e) && !Quiet(s, e.now)
    ensures var (t, out) := Step(s, e);
            var open := s.canReturn || Clear(s.activeEdge, t.x.pos, t.y.pos);
            var back := open && AtWayBack(s.activeEdge, t.x.pos, t.y.pos);
            && t == s.(x := t.x, y := t.y, canReturn := open, active := back,
                       switchSent := if back then None else s.switchSent, canSwitch := s.canSwitch && !back)
            && (!back ==> out == [MousePacket(t.x.pos, t.y.pos, 0, 0x200)])
            && (back ==> |out| == 1 && out[0].Warp?)
            && (back ==> match s.activeEdge
                         case Right => out[0].toX == s.width - 100
                         case Top => out[0].toY == 100
                         case Bottom => out[0].toY == s.height - 100
                         case _ => out[0].toX == 100)
  {
    hide Move, Scaled, ToPixel;
  }

  /** Along the edge a return goes to the pixel the position truncates to. */
  lemma WarpAlong(s: State, e: Event)
    requires Moves(e) && !Quiet(s, e.now) && s.width > 0 && s.height > 0 && Step(s, e).0.active
    ensures var (t, out) := Step(s, e);
            && |out| == 1 && out[0].Warp?
            && if IsVertical(s.activeEdge)
               then OnPixel(out[0].toY, t.y.pos, s.height) else OnPixel(out[0].toX, t.x.pos, s.width)
  {
    var t := Step(s, e).0;
    assert 0 <= t.x.pos && 0 <= t.y.pos by {
      hide Reentry, Scaled, Trunc;
    }
    OwnershipRuns.PixelValue(t.x.pos, s.width);
    OwnershipRuns.PixelValue(t.y.pos, s.height);
    hide Move, Scaled, ToPixel;
  }

  predicate OnPixel(q: int, pos: int, size: int) {
    65535 * q <= size * pos < 65535 * (q + 1)
  }

  // ---- Wheel and buttons -----------------------------------------------------------------------

  /** Wheel events go out at the cursor, 120 for a notch; other relative events do nothing. */
  lemma WheelIs(s: State, code: int, value: int, v: int, h: int, now: int)
    requires code != 0 && code != 1
    ensures !Quiet(s, now) ==>
              Step(s, Rel(code, value, now))
              == (s, if code == 8 then [MousePacket(s.x.pos, s.y.pos, 120 * value, 0x20A)]
                     else if code == 6 then [MousePacket(s.x.pos, s.y.pos, 120 * value, 0x20E)]
                     else [])
    ensures Step(s, FeedWheel(v, h)).0 == s
    ensures !s.active && v != 0 ==> MousePacket(s.x.pos, s.y.pos, v, 0x20A) in Step(s, FeedWheel(v, h)).1
    ensures !s.active && h != 0 ==> MousePacket(s.x.pos, s.y.pos, h, 0x20E) in Step(s, FeedWheel(v, h)).1
    ensures |Step(s, FeedWheel(v, h)).1|
         == if s.active then 0 else (if v != 0 then 1 else 0) + (if h != 0 then 1 else 0)
    ensures !s.active && v != 0 && h != 0 ==> Step(s, FeedWheel(v, h)).1[0].flags == 0x20A
  {
  }

  /** Presses and releases of the five buttons go out at the cursor; repeats and other buttons do not. */
  lemma ButtonIs(s: State, code: int, value: int, now: int)
    requires !Quiet(s, now)
    ensures var out := Step(s, Button(code, value, now)).1;
            var at := (wheel, flags) => [MousePacket(s.x.pos, s.y.pos, wheel, flags)];
            && Step(s, Button(code, value, now)).0 == s
            && (value == 1 ==> out == match code
                                      case 272 => at(0, 0x201)
                                      case 273 => at(0, 0x204)
                                      case 274 => at(0, 0x207)
                                      case 275 => at(0x1_0000, 0x20B)
                                      case 276 => at(0x2_0000, 0x20B)
                                      case _ => [])
            && (value == 0 ==> out == match code
                                      case 272 => at(0, 0x202)
                                      case 273 => at(0, 0x205)
                                      case 274 => at(0, 0x208)
                                      case 275 => at(0x1_0000, 0x20C)
                                      case 276 => at(0x2_0000, 0x20C)
                                      case _ => [])
            && (value != 0 && value != 1 ==> out == [])
  {
  }
}
