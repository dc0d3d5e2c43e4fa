/** Who owns the cursor: the Capturer of capture_linux.go, with the crossings of portal_wayland.go as its
    Enter events. One event is one atomic step; time is an integer clock in milliseconds. */
module Ownership {
  import opened Bytes
  import opened PackageTypes
  import opened Motion

  const SWITCH_MARGIN := NORM_MAX / 10
  const RETURN_EDGE_MARGIN := NORM_MAX / 40
  const RECLAIM_EDGE_MARGIN := 8192
  const EDGE_ZONE := 20
  const REENTRY_INSET := 100
  const GRACE := 100

  const REL_X := 0
  const REL_Y := 1
  const REL_HWHEEL := 6
  const REL_WHEEL := 8

  /** Edge names; any other configured string is treated as left where a default applies. */
  datatype Edge = Left | Right | Top | Bottom | Unknown

  datatype State = State(
    width: int, height: int, accel: real, edgeSide: Edge,
    active: bool, activeEdge: Edge,
    x: Axis, y: Axis,
    canSwitch: bool, canReturn: bool,
    switchSent: Option<int>, lastSwitch: Option<int>)

  datatype Output =
    | MousePacket(px: int, py: int, wheel: int, flags: int32)
    | MachineSwitchedPacket
    | Warp(toX: int, toY: int)

  datatype Event =
    | PollCursor(px: int, py: int, now: int)
    | EnterRemote(edge: Edge, frac: real, now: int)
    | SetActive(on: bool)
    | SetAccel(multiplier: real)
    | Rel(code: int, value: int, now: int)
    | FeedMotion(dx: real, dy: real, now: int)
    | FeedWheel(vertical: int, horizontal: int)
    | Button(code: int, value: int, now: int)

  function New(width: int, height: int, edgeSide: Edge): State {
    State(width, height, 2.0, edgeSide, true, edgeSide, Axis(0, 0.0), Axis(0, 0.0), true, false, None, None)
  }

  // ---- What each event does --------------------------------------------------------

  /** How far inside the remote screen the virtual cursor is, measured from the edge it would return through. */
  function Depth(s: State): int {
    match s.activeEdge
    case Right => s.x.pos
    case Bottom => s.y.pos
    case Top => NORM_MAX - s.y.pos
    case _ => NORM_MAX - s.x.pos
  }

  /** The return edge is the last grid line for right and bottom, and the last two for left and top. */
  predicate AtReturnEdge(s: State) {
    match s.activeEdge
    case Right => Depth(s) <= 0
    case Bottom => Depth(s) <= 0
    case _ => Depth(s) <= 1
  }

  predicate AcceptsActivation(s: State) {
    s.active || Depth(s) <= RETURN_EDGE_MARGIN
  }

  /** A request to take the cursor back is accepted when it lands on the shared edge of this screen. */
  predicate AcceptsReclaim(edgeSide: Edge, requestX: int) {
    match edgeSide
    case Left => requestX <= RECLAIM_EDGE_MARGIN
    case Right => requestX >= NORM_MAX - RECLAIM_EDGE_MARGIN
    case _ => true
  }

  function Activated(s: State, on: bool): State {
    if on && !s.active then s.(active := true, switchSent := None, canSwitch := false, canReturn := false)
    else s.(active := on)
  }

  /** Control has crossed to the remote: the cursor starts a fixed margin inside, with no carry. */
  function Crossed(s: State, edge: Edge, perp: int, now: int): State {
    var (x, y) :=
      match edge
      case Right => (SWITCH_MARGIN, perp)
      case Top => (perp, NORM_MAX - SWITCH_MARGIN)
      case Bottom => (perp, SWITCH_MARGIN)
      case _ => (NORM_MAX - SWITCH_MARGIN, perp);
    s.(active := false, switchSent := Some(now), activeEdge := edge,
       x := Axis(x, 0.0), y := Axis(y, 0.0), canReturn := false)
  }

  function UnitFraction(f: real): real {
    if f < 0.0 then 0.0 else if f > 1.0 then 1.0 else f
  }

  /** A row or column of the local screen on the 0..65535 grid. */
  function ToGrid(v: int, size: int): int
    requires size != 0
  {
    Trunc(v as real / size as real * NORM_MAX as real)
  }

  function ToPixel(pos: int, size: int): int {
    Trunc(pos as real / NORM_MAX as real * size as real)
  }

  /** Has the local cursor been far enough inside to re-arm crossing? */
  predicate Inside(s: State, px: int) {
    match s.edgeSide
    case Left => px > EDGE_ZONE
    case Right => px < s.width - EDGE_ZONE
    case _ => false
  }

  predicate AtLocalEdge(s: State, px: int) {
    match s.edgeSide
    case Left => px <= 1
    case Right => px >= s.width - 1
    case _ => false
  }

  /** Does the poll take the cursor across? The gate may be armed by the same poll. */
  predicate Crosses(s: State, px: int, now: int) {
    && s.active && (s.canSwitch || Inside(s, px)) && AtLocalEdge(s, px)
    && !(s.lastSwitch.Some? && now - s.lastSwitch.value < GRACE)
  }

  function Polled(s: State, px: int, py: int, now: int): (State, seq<Output>)
    requires Crosses(s, px, now) ==> s.height != 0
  {
    if !s.active then (s, [])
    else
      var t := s.(canSwitch := s.canSwitch || Inside(s, px));
      if !Crosses(s, px, now) then (t, [])
      else (Crossed(t, t.edgeSide, ToGrid(py, t.height), now).(lastSwitch := Some(now)), [MachineSwitchedPacket])
  }

  predicate InGrace(s: State, now: int) {
    s.switchSent.Some? && now - s.switchSent.value < GRACE
  }

  /** Events are forwarded only while the remote owns the cursor, and not just after a crossing. */
  predicate Forwards(s: State, now: int) {
    !s.active && !InGrace(s, now)
  }

  function NormPerPx(size: int): real {
    NORM_MAX as real / (if size <= 0 then 1 else size) as real
  }

  /** A local delta on the grid: multiplier and screen proportion applied. */
  function Scaled(d: real, accel: real, size: int): real {
    d * accel * NormPerPx(size)
  }

  /** The local pixel just inside the edge we left through. */
  function Reentry(s: State): (int, int) {
    match s.activeEdge
    case Right => (s.width - REENTRY_INSET, ToPixel(s.y.pos, s.height))
    case Top => (ToPixel(s.x.pos, s.width), REENTRY_INSET)
    case Bottom => (ToPixel(s.x.pos, s.width), s.height - REENTRY_INSET)
    case _ => (REENTRY_INSET, ToPixel(s.y.pos, s.height))
  }

  /** After the cursor has moved: arm the return, return, or forward the new position. */
  function AfterMotion(s: State): (State, seq<Output>) {
    var t := s.(canReturn := s.canReturn || Depth(s) > SWITCH_MARGIN);
    if t.canReturn && AtReturnEdge(t) then
      (t.(active := true, switchSent := None, canSwitch := false), [Warp(Reentry(t).0, Reentry(t).1)])
    else (t, [MousePacket(t.x.pos, t.y.pos, 0, WM_MOUSEMOVE)])
  }

  function Moved(s: State, dx: real, dy: real): State {
    s.(x := Move(s.x, dx), y := Move(s.y, dy))
  }

  /** The scaled deltas an event moves the virtual cursor by. */
  function Deltas(s: State, e: Event): (real, real) {
    match e
    case Rel(code, value, _) =>
      if code == REL_X then (Scaled(value as real, s.accel, s.width), 0.0)
      else if code == REL_Y then (0.0, Scaled(value as real, s.accel, s.height))
      else (0.0, 0.0)
    case FeedMotion(dx, dy, _) => (Scaled(dx, s.accel, s.width), Scaled(dy, s.accel, s.height))
    case _ => (0.0, 0.0)
  }

  predicate IsMotion(e: Event) {
    e.FeedMotion? || (e.Rel? && (e.code == REL_X || e.code == REL_Y))
  }

  function WheelAt(s: State, delta: int, flags: int32): Output {
    MousePacket(s.x.pos, s.y.pos, delta, flags)
  }

  const BTN_LEFT := 0x110
  const BTN_RIGHT := 0x111
  const BTN_MIDDLE := 0x112
  const BTN_SIDE := 0x113
  const BTN_EXTRA := 0x114

  /** Wheel data and message code for a mouse button event; repeats and other buttons send nothing. */
  function ButtonMessage(code: int, value: int): Option<(int, int32)> {
    if value != 0 && value != 1 then None
    else if code == BTN_LEFT then Some((0, if value == 1 then WM_LBUTTONDOWN else WM_LBUTTONUP))
    else if code == BTN_RIGHT then Some((0, if value == 1 then WM_RBUTTONDOWN else WM_RBUTTONUP))
    else if code == BTN_MIDDLE then Some((0, if value == 1 then WM_MBUTTONDOWN else WM_MBUTTONUP))
    else if code == BTN_SIDE then Some((0x1_0000, if value == 1 then WM_XBUTTONDOWN else WM_XBUTTONUP))
    else if code == BTN_EXTRA then Some((0x2_0000, if value == 1 then WM_XBUTTONDOWN else WM_XBUTTONUP))
    else None
  }

  function Forwarded(s: State, code: int, value: int): (State, seq<Output>) {
    if code == REL_X || code == REL_Y then
      var d := Deltas(s, Rel(code, value, 0));
      AfterMotion(Moved(s, d.0, d.1))
    else if code == REL_WHEEL then (s, [WheelAt(s, value * 120, WM_MOUSEWHEEL)])
    else if code == REL_HWHEEL then (s, [WheelAt(s, value * 120, WM_MOUSEHWHEEL)])
    else (s, [])
  }

  /** A poll that crosses divides by the height of the screen; nothing else depends on it. */
  predicate Defined(s: State, e: Event) {
    e.PollCursor? && Crosses(s, e.px, e.now) ==> s.height != 0
  }

  function Step(s: State, e: Event): (State, seq<Output>)
    requires Defined(s, e)
  {
    match e
    case PollCursor(px, py, now) => Polled(s, px, py, now)
    case EnterRemote(edge, frac, now) =>
      (Crossed(s, edge, Trunc(UnitFraction(frac) * NORM_MAX as real), now), [MachineSwitchedPacket])
    case SetActive(on) => (Activated(s, on), [])
    case SetAccel(m) => (if m <= 0.0 then s else s.(accel := m), [])
    case Rel(code, value, now) =>
      if !Forwards(s, now) then (s, []) else Forwarded(s, code, value)
    case FeedMotion(_, _, now) =>
      if !Forwards(s, now) then (s, [])
      else AfterMotion(Moved(s, Deltas(s, e).0, Deltas(s, e).1))
    case FeedWheel(v, h) =>
      if s.active then (s, [])
      else (s, (if v != 0 then [WheelAt(s, v, WM_MOUSEWHEEL)] else [])
             + (if h != 0 then [WheelAt(s, h, WM_MOUSEHWHEEL)] else []))
    case Button(code, value, now) =>
      if !Forwards(s, now) then (s, [])
      else
        match ButtonMessage(code, value)
        case None => (s, [])
        case Some((wheel, flags)) => (s, [WheelAt(s, wheel, flags)])
  }

  // ---- The Capturer, field by field ----------------------------------------------------

  class Capturer {
    const width: int
    const height: int
    var accelMult: real
    const edgeSide: Edge
    var active: bool
    var activeEdge: Edge
    var remoteX: int
    var remoteY: int
    var accX: real
    var accY: real
    var canSwitch: bool
    var canReturn: bool
    var switchSent: Option<int>
    var lastSwitch: Option<int>
    var output: seq<Output>

    constructor (width: int, height: int, edgeSide: Edge)
      ensures View() == New(width, height, edgeSide) && output == []
      ensures active && activeEdge == edgeSide && accelMult == 2.0 && canSwitch && !canReturn
      ensures remoteX == 0 && remoteY == 0 && accX == 0.0 && accY == 0.0 && switchSent.None? && lastSwitch.None?
      ensures this.width == width && this.height == height && this.edgeSide == edgeSide
    {
      this.width, this.height, this.edgeSide := width, height, edgeSide;
      accelMult := 2.0;
      active, activeEdge := true, edgeSide;
      remoteX, remoteY, accX, accY := 0, 0, 0.0, 0.0;
      canSwitch, canReturn := true, false;
      switchSent, lastSwitch := None, None;
      output := [];
    }

    function View(): State
      reads this
    {
      State(width, height, accelMult, edgeSide, active, activeEdge, Axis(remoteX, accX), Axis(remoteY, accY),
            canSwitch, canReturn, switchSent, lastSwitch)
    }

    method SetActiveTo(on: bool)
      modifies this
      ensures View() == Activated(old(View()), on) && output == old(output)
    {
      var wasActive := active;
      active := on;
      if on && !wasActive {
        switchSent := None;
        canSwitch := false;
        canReturn := false;
      }
    }

    /** Multipliers that are not positive are ignored. */
    method SetAccelMultiplier(m: real)
      modifies this`accelMult
      ensures View() == Step(old(View()), SetAccel(m)).0
    {
      if m <= 0.0 {
        return;
      }
      accelMult := m;
    }

    method EnterRemoteEdge(edge: Edge, perpFrac: real, now: int)
      modifies this
      ensures View() == Crossed(old(View()), edge, Trunc(UnitFraction(perpFrac) * NORM_MAX as real), now)
      ensures output == old(output)
    {
      var f := perpFrac;
      if f < 0.0 {
        f := 0.0;
      } else if f > 1.0 {
        f := 1.0;
      }
      hide Trunc;
      var perp := Trunc(f * NORM_MAX as real);
      active := false;
      switchSent := Some(now);
      activeEdge := edge;
      match edge {
        case Right => remoteX, remoteY := SWITCH_MARGIN, perp;
        case Top => remoteX, remoteY := perp, NORM_MAX - SWITCH_MARGIN;
        case Bottom => remoteX, remoteY := perp, SWITCH_MARGIN;
        case _ => remoteX, remoteY := NORM_MAX - SWITCH_MARGIN, perp;
      }
      accX, accY := 0.0, 0.0;
      canReturn := false;
    }

    method Accepts() returns (ok: bool)
      ensures ok == AcceptsActivation(View())
    {
      if active {
        return true;
      }
      match activeEdge
      case Right => ok := remoteX <= RETURN_EDGE_MARGIN;
      case Top => ok := remoteY >= NORM_MAX - RETURN_EDGE_MARGIN;
      case Bottom => ok := remoteY <= RETURN_EDGE_MARGIN;
      case _ => ok := remoteX >= NORM_MAX - RETURN_EDGE_MARGIN;
    }

    /** One tick of the edge poller. */
    method PollCursorEdge(px: int, py: int, now: int)
      requires Crosses(View(), px, now) ==> height != 0
      modifies this
      ensures View() == Polled(old(View()), px, py, now).0
      ensures output == old(output) + Polled(old(View()), px, py, now).1
    {
      hide ToGrid;
      assert output + [] == output;
      if !active {
        return;
      }
      match edgeSide {
        case Left =>
          if px > EDGE_ZONE {
            canSwitch := true;
          }
        case Right =>
          if px < width - EDGE_ZONE {
            canSwitch := true;
          }
        case _ =>
      }
      var switched := false;
      if canSwitch {
        match edgeSide {
          case Left => switched := px <= 1;
          case Right => switched := px >= width - 1;
          case _ =>
        }
      }
      if !switched || (lastSwitch.Some? && now - lastSwitch.value < GRACE) {
        return;
      }
      CrossEdge(py, now);
    }

    /** The poller's crossing: hand control over at the row where the cursor left. */
    method CrossEdge(py: int, now: int)
      requires height != 0 && (edgeSide == Left || edgeSide == Right)
      modifies this
      ensures View() == Crossed(old(View()), edgeSide, ToGrid(py, height), now).(lastSwitch := Some(now))
      ensures output == old(output) + [MachineSwitchedPacket]
    {
      hide ToGrid;
      lastSwitch := Some(now);
      active := false;
      switchSent := Some(now);
      activeEdge := edgeSide;
      accX, accY := 0.0, 0.0;
      if edgeSide == Left {
        remoteX := NORM_MAX - SWITCH_MARGIN;
      } else {
        remoteX := SWITCH_MARGIN;
      }
      remoteY := ToGrid(py, height);
      canReturn := false;
      output := output + [MachineSwitchedPacket];
    }

    method AddMotion(dx: real, dy: real)
      modifies this`accX, this`accY, this`remoteX, this`remoteY
      ensures View() == Moved(old(View()), dx, dy)
    {
      accX := accX + dx;
      accY := accY + dy;
      var ix := Trunc(accX);
      var iy := Trunc(accY);
      accX := accX - ix as real;
      accY := accY - iy as real;
      remoteX := remoteX + ix;
      remoteY := remoteY + iy;
      ClampRemote();
    }

    method ClampRemote()
      modifies this`remoteX, this`remoteY
      ensures remoteX == Clamp(old(remoteX)) && remoteY == Clamp(old(remoteY))
    {
      if remoteX < 0 {
        remoteX := 0;
      }
      if remoteX > NORM_MAX {
        remoteX := NORM_MAX;
      }
      if remoteY < 0 {
        remoteY := 0;
      }
      if remoteY > NORM_MAX {
        remoteY := NORM_MAX;
      }
    }

    method ReclaimAccepted(requestX: int) returns (ok: bool)
      ensures ok == AcceptsReclaim(edgeSide, requestX)
    {
      match edgeSide
      case Left => ok := requestX <= RECLAIM_EDGE_MARGIN;
      case Right => ok := requestX >= NORM_MAX - RECLAIM_EDGE_MARGIN;
      case _ => ok := true;
    }

    method LocalReentry() returns (px: int, py: int)
      ensures (px, py) == Reentry(View())
    {
      var x := ToPixel(remoteX, width);
      var y := ToPixel(remoteY, height);
      match activeEdge
      case Right => px, py := width - REENTRY_INSET, y;
      case Top => px, py := x, REENTRY_INSET;
      case Bottom => px, py := x, height - REENTRY_INSET;
      case _ => px, py := REENTRY_INSET, y;
    }

    method AfterMotionLocked()
      modifies this
      ensures View() == AfterMotion(old(View())).0
      ensures output == old(output) + AfterMotion(old(View())).1
    {
      var switchBack := false;
      match activeEdge {
        case Right =>
          if remoteX > SWITCH_MARGIN {
            canReturn := true;
          }
          switchBack := canReturn && remoteX <= 0;
        case Top =>
          if remoteY < NORM_MAX - SWITCH_MARGIN {
            canReturn := true;
          }
          switchBack := canReturn && remoteY >= NORM_MAX - 1;
        case Bottom =>
          if remoteY > SWITCH_MARGIN {
            canReturn := true;
          }
          switchBack := canReturn && remoteY <= 0;
        case _ =>
          if remoteX < NORM_MAX - SWITCH_MARGIN {
            canReturn := true;
          }
          switchBack := canReturn && remoteX >= NORM_MAX - 1;
      }
      if switchBack {
        var px, py := LocalReentry();
        active := true;
        switchSent := None;
        canSwitch := false;
        output := output + [Warp(px, py)];
        return;
      }
      output := output + [MousePacket(remoteX, remoteY, 0, WM_MOUSEMOVE)];
    }

    method HandleRel(code: int, value: int)
      modifies this
      ensures View() == Forwarded(old(View()), code, value).0
      ensures output == old(output) + Forwarded(old(View()), code, value).1
    {
      hide Scaled, AfterMotion;
      if code == REL_X {
        AddMotion(Scaled(value as real, accelMult, width), 0.0);
      } else if code == REL_Y {
        AddMotion(0.0, Scaled(value as real, accelMult, height));
      } else if code == REL_WHEEL {
        output := output + [MousePacket(remoteX, remoteY, value * 120, WM_MOUSEWHEEL)];
        return;
      } else if code == REL_HWHEEL {
        output := output + [MousePacket(remoteX, remoteY, value * 120, WM_MOUSEHWHEEL)];
        return;
      } else {
        assert output + [] == output;
        return;
      }
      AfterMotionLocked();
    }

    method HandleRelEvent(code: int, value: int, now: int)
      modifies this
      ensures View() == Step(old(View()), Rel(code, value, now)).0
      ensures output == old(output) + Step(old(View()), Rel(code, value, now)).1
    {
      assert output + [] == output;
      if active {
        return;
      }
      if switchSent.Some? && now - switchSent.value < GRACE {
        return;
      }
      HandleRel(code, value);
    }

    method FeedMotionEvent(dx: real, dy: real, now: int)
      modifies this
      ensures View() == Step(old(View()), FeedMotion(dx, dy, now)).0
      ensures output == old(output) + Step(old(View()), FeedMotion(dx, dy, now)).1
    {
      assert output + [] == output;
      if active {
        return;
      }
      if switchSent.Some? && now - switchSent.value < GRACE {
        return;
      }
      hide Scaled, AfterMotion;
      AddMotion(Scaled(dx, accelMult, width), Scaled(dy, accelMult, height));
      AfterMotionLocked();
    }

    method FeedWheelEvent(vertical: int, horizontal: int)
      modifies this
      ensures View() == Step(old(View()), FeedWheel(vertical, horizontal)).0
      ensures output == old(output) + Step(old(View()), FeedWheel(vertical, horizontal)).1
    {
      if active {
        assert output + [] == output;
        return;
      }
      if vertical != 0 {
        output := output + [MousePacket(remoteX, remoteY, vertical, WM_MOUSEWHEEL)];
      }
      if horizontal != 0 {
        output := output + [MousePacket(remoteX, remoteY, horizontal, WM_MOUSEHWHEEL)];
      }
    }

    method HandleButtonEvent(code: int, value: int, now: int)
      modifies this
      ensures View() == Step(old(View()), Button(code, value, now)).0
      ensures output == old(output) + Step(old(View()), Button(code, value, now)).1
    {
      assert output + [] == output;
      if active {
        return;
      }
      if switchSent.Some? && now - switchSent.value < GRACE {
        return;
      }
      if value != 0 && value != 1 {
        return;
      }
      var down := value == 1;
      var flags, wheel := 0, 0;
      if code == BTN_LEFT {
        flags := if down then WM_LBUTTONDOWN else WM_LBUTTONUP;
      } else if code == BTN_RIGHT {
        flags := if down then WM_RBUTTONDOWN else WM_RBUTTONUP;
      } else if code == BTN_MIDDLE {
        flags := if down then WM_MBUTTONDOWN else WM_MBUTTONUP;
      } else if code == BTN_SIDE {
        flags, wheel := if down then WM_XBUTTONDOWN else WM_XBUTTONUP, 0x1_0000;
      } else if code == BTN_EXTRA {
        flags, wheel := if down then WM_XBUTTONDOWN else WM_XBUTTONUP, 0x2_0000;
      } else {
        return;
      }
      output := output + [MousePacket(remoteX, remoteY, wheel, flags)];
    }
  }
}
