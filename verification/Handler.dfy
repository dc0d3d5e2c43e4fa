/** The inbound injector of handler.go: packets in, device events out. */
module Handler {
  import opened Bytes
  import opened PackageTypes
  import opened Packets
  import opened Keyboard
  import opened Chords
  import opened Inbound
  import Ownership

  const KEY_LEFTCTRL: Code := 29
  const KEY_LEFTSHIFT: Code := 42
  const KEY_LEFTALT: Code := 56
  const KEY_RIGHTCTRL: Code := 97
  const KEY_RIGHTALT: Code := 100

  const VK_SHIFT := 0x10
  const VK_CONTROL := 0x11
  const VK_MENU := 0x12
  const VK_LCONTROL := 0xA2
  const VK_RCONTROL := 0xA3
  const VK_RMENU := 0xA5

  const BTN_LEFT: Code := 0x110
  const BTN_RIGHT: Code := 0x111
  const BTN_MIDDLE: Code := 0x112
  const BTN_SIDE: Code := 0x113
  const BTN_EXTRA: Code := 0x114

  /** The virtual-key table of a keyboard layout: some partial function. */
  type Lookup = int32 -> Option<Code>

  // ---- What a packet means ----------------------------------------------------------------

  predicate IsUp(flags: int32) {
    flags / 128 % 2 == 1
  }

  predicate IsExtended(flags: int32) {
    flags % 2 == 1
  }

  predicate IsCtrlVK(vk: int32) {
    vk == VK_CONTROL || vk == VK_LCONTROL || vk == VK_RCONTROL
  }

  predicate IsRightAltVK(vk: int32, flags: int32) {
    vk == VK_RMENU || (vk == VK_MENU && IsExtended(flags))
  }

  function KeyCodeFor(lookup: Lookup, k: KeyboardData): Option<Code> {
    if k.wVk == VK_SHIFT then Some(KEY_LEFTSHIFT)
    else if k.wVk == VK_CONTROL then Some(if IsExtended(k.dwFlags) then KEY_RIGHTCTRL else KEY_LEFTCTRL)
    else if k.wVk == VK_MENU then Some(if IsExtended(k.dwFlags) then KEY_RIGHTALT else KEY_LEFTALT)
    else lookup(k.wVk)
  }

  /** The key event of a keyboard packet; none when the layout has no such key. */
  function KeyInput(lookup: Lookup, k: KeyboardData): Option<Input> {
    match KeyCodeFor(lookup, k)
    case None => None
    case Some(c) =>
      Some(if IsCtrlVK(k.wVk) then if IsUp(k.dwFlags) then CtrlUp(c) else CtrlDown(c)
           else if IsUp(k.dwFlags) then Release(c)
           else if IsRightAltVK(k.wVk, k.dwFlags) then AltDown(c)
           else Press(c))
  }

  /** The button event of a mouse message: which X button rides in the wheel field. */
  function ButtonInput(flags: int32, wheel: int): Option<DeviceEvent> {
    var x := if wheel == 2 then BTN_EXTRA else BTN_SIDE;
    if flags == WM_LBUTTONDOWN then Some(ButtonDown(BTN_LEFT))
    else if flags == WM_LBUTTONUP then Some(ButtonUp(BTN_LEFT))
    else if flags == WM_RBUTTONDOWN then Some(ButtonDown(BTN_RIGHT))
    else if flags == WM_RBUTTONUP then Some(ButtonUp(BTN_RIGHT))
    else if flags == WM_MBUTTONDOWN then Some(ButtonDown(BTN_MIDDLE))
    else if flags == WM_MBUTTONUP then Some(ButtonUp(BTN_MIDDLE))
    else if flags == WM_XBUTTONDOWN then Some(ButtonDown(x))
    else if flags == WM_XBUTTONUP then Some(ButtonUp(x))
    else None
  }

  /** A mouse packet moves first, then clicks; a wheel packet does not move; other messages do nothing. */
  function MouseInput(t: Tracker, multiplier: real, m: MouseData): (Tracker, seq<DeviceEvent>) {
    var u := Follow(t, multiplier, Report(m.x, m.y));
    if m.dwFlags == WM_MOUSEMOVE then (u, [MoveTo(u.x, u.y)])
    else if m.dwFlags == WM_MOUSEWHEEL then (t, [Wheel(WheelNotches(m.wheelDelta))])
    else if m.dwFlags == WM_MOUSEHWHEEL then (t, [HWheel(WheelNotches(m.wheelDelta))])
    else
      match ButtonInput(m.dwFlags, m.wheelDelta)
      case Some(e) => (u, [MoveTo(u.x, u.y), e])
      case None => (t, [])
  }

  /** The Ctrl handling that runs before the key itself: was the event consumed, and what did it do? */
  datatype PendResult = PendResult(done: bool, chord: Chord, out: seq<DeviceEvent>)

  function Pend(st: Chord, vk: int32, flags: int32, c: Code, isUp: bool): PendResult {
    if IsCtrlVK(vk) then
      if !isUp then PendResult(true, st.(pending := Some(c)), [])
      else if st.pending.Some? then PendResult(true, st.(pending := None), [KeyPress(c), KeyRelease(c)])
      else PendResult(st.suppress, st.(suppress := false), [])
    else if !isUp && IsRightAltVK(vk, flags) && st.pending.Some? then PendResult(false, Chord(None, true), [])
    else PendResult(false, st, [])
  }

  /** Ctrl handling, then the flush, then the key itself make one step of the chord transducer. */
  lemma PendThenKey(lookup: Lookup, st: Chord, k: KeyboardData)
    requires KeyCodeFor(lookup, k).Some?
    ensures var c, isUp := KeyCodeFor(lookup, k).value, IsUp(k.dwFlags);
            var r := Pend(st, k.wVk, k.dwFlags, c, isUp);
            var step := ChordStep(st, KeyInput(lookup, k).value);
            && (r.done ==> step.0 == r.chord && step.1 == r.out)
            && (!r.done ==> step.0 == r.chord.(pending := None)
                            && step.1 == r.out + Flush(r.chord) + [if isUp then KeyRelease(c) else KeyPress(c)])
  {
    hide IsUp, IsExtended, KeyCodeFor;
  }

  datatype State = State(chord: Chord, tracker: Tracker, log: seq<DeviceEvent>)

  datatype Settings = Settings(lookup: Lookup, multiplier: real)

  function Inject(s: State, e: Input): State {
    var r := ChordStep(s.chord, e);
    s.(chord := r.0, log := s.log + r.1)
  }

  /** What the packet is to the chord transducer. */
  function InputOf(cfg: Settings, t: Tracker, p: Packet): Option<Input> {
    if p.kind == KEYBOARD then KeyInput(cfg.lookup, p.keyboard)
    else if p.kind == MOUSE then Some(Other(MouseInput(t, cfg.multiplier, p.mouse).1))
    else Some(Other([]))
  }

  function TrackerAfter(cfg: Settings, t: Tracker, p: Packet): Tracker {
    if p.kind == MOUSE then MouseInput(t, cfg.multiplier, p.mouse).0 else t
  }

  /** Does the packet end with every held key being lifted? */
  predicate Lifts(p: Packet, accepted: bool) {
    p.kind == HIDE_MOUSE || (p.kind == MACHINE_SWITCHED && accepted)
  }

  /** A packet that lifts no keys. */
  function Handled(cfg: Settings, s: State, p: Packet): State {
    match InputOf(cfg, s.tracker, p)
    case None => s
    case Some(e) => Inject(s, e).(tracker := TrackerAfter(cfg, s.tracker, p))
  }

  /** A packet that lifts every held key, in the given order, after the press held back has gone out. An
      activation also makes the tracker snap to the next report. */
  function Lifted(s: State, p: Packet, order: seq<Code>): State {
    State(IDLE, s.tracker.(seeded := p.kind == HIDE_MOUSE && s.tracker.seeded),
          s.log + Flush(s.chord) + Releases(order))
  }

  /** A dropped connection: the press held back is forgotten and every held key lifted. */
  function Dropped(s: State, order: seq<Code>): State {
    State(IDLE, s.tracker, s.log + Releases(order))
  }

  // ---- The Handler, field by field ---------------------------------------------------------

  /** Which callback the packet ran. */
  datatype Callback = NoCallback | OnActivated | OnReclaimed | ClipboardPacket

  class Injector {
    const lookup: Lookup
    const multiplier: real
    const log: EventLog
    const keyboard: VirtualKeyboard
    var pendingCtrl: bool
    var pendingCtrlCode: Code
    var suppressCtrlUp: bool
    var inX: int32
    var inY: int32
    var lastInX: int32
    var lastInY: int32
    var inSeeded: bool

    predicate Valid()
      reads this, keyboard, log
    {
      keyboard.log == log && keyboard.Valid()
    }

    constructor (lookup: Lookup, multiplier: real, keyboard: VirtualKeyboard)
      requires keyboard.Valid()
      ensures Valid() && this.keyboard == keyboard && CurrentChord() == IDLE && !inSeeded
      ensures Config() == Settings(lookup, multiplier)
    {
      this.lookup, this.multiplier := lookup, multiplier;
      this.keyboard, this.log := keyboard, keyboard.log;
      pendingCtrl, pendingCtrlCode, suppressCtrlUp := false, 0, false;
      inX, inY, lastInX, lastInY, inSeeded := 0, 0, 0, 0, false;
    }

    function Config(): Settings {
      Settings(lookup, multiplier)
    }

    function CurrentChord(): Chord
      reads this
    {
      Chord(if pendingCtrl then Some(pendingCtrlCode) else None, suppressCtrlUp)
    }

    function CurrentTracker(): Tracker
      reads this
    {
      Tracker(inX, inY, lastInX, lastInY, inSeeded)
    }

    function View(): State
      reads this, log
    {
      State(CurrentChord(), CurrentTracker(), log.events)
    }

    method FlushPendingCtrl()
      requires Valid()
      modifies this`pendingCtrl, keyboard, log
      ensures Valid() && log.events == old(log.events) + Flush(old(CurrentChord()))
      ensures CurrentChord() == old(CurrentChord()).(pending := None)
    {
      if !pendingCtrl {
        assert log.events + [] == log.events;
        return;
      }
      pendingCtrl := false;
      keyboard.KeyDown(pendingCtrlCode);
    }

    method HandlePendingCtrl(vk: int32, flags: int32, keyCode: Code, isUp: bool) returns (done: bool)
      requires Valid()
      modifies this, keyboard, log
      ensures Valid() && CurrentTracker() == old(CurrentTracker())
      ensures var r := Pend(old(CurrentChord()), vk, flags, keyCode, isUp);
              && done == r.done && CurrentChord() == r.chord
              && log.events == old(log.events) + r.out
    {
      assert log.events + [] == log.events;
      if IsCtrlVK(vk) {
        if isUp {
          if pendingCtrl {
            pendingCtrl := false;
            keyboard.KeyDown(keyCode);
            keyboard.KeyUp(keyCode);
            return true;
          }
          if suppressCtrlUp {
            suppressCtrlUp := false;
            return true;
          }
          return false;
        }
        pendingCtrl := true;
        pendingCtrlCode := keyCode;
        return true;
      }
      if !isUp && IsRightAltVK(vk, flags) && pendingCtrl {
        pendingCtrl := false;
        suppressCtrlUp := true;
      }
      return false;
    }

    method HandleKeyboard(kd: KeyboardData)
      requires Valid()
      modifies this, keyboard, log
      ensures Valid() && CurrentTracker() == old(CurrentTracker())
      ensures match KeyInput(lookup, kd)
              case None => View() == old(View())
              case Some(e) => View() == Inject(old(View()), e)
    {
      hide Pend, Held, IsUp, IsCtrlVK, IsRightAltVK, KeyCodeFor, ChordStep, Flush;
      var code := KeyCodeFor(lookup, kd);
      if code.None? {
        return;
      }
      PendThenKey(lookup, CurrentChord(), kd);
      var keyCode := code.value;
      var isUp := IsUp(kd.dwFlags);
      var done := HandlePendingCtrl(kd.wVk, kd.dwFlags, keyCode, isUp);
      if done {
        return;
      }
      FlushPendingCtrl();
      if isUp {
        keyboard.KeyUp(keyCode);
      } else {
        keyboard.KeyDown(keyCode);
      }
    }

    /** Follows a reported position and injects it. */
    method MoveInbound(mdX: int32, mdY: int32)
      requires Valid()
      modifies this`inX, this`inY, this`lastInX, this`lastInY, this`inSeeded, log
      ensures Valid()
      ensures CurrentTracker() == Follow(old(CurrentTracker()), multiplier, Report(mdX, mdY))
      ensures log.events == old(log.events) + [MoveTo(inX, inY)]
    {
      var mult := multiplier;
      if mult <= 0.0 {
        mult := 1.0;
      }
      hide Stretch, Gained, Held;
      var jump := !inSeeded || Abs32(Wrap32(mdX - lastInX)) > JUMP_THRESHOLD
                  || Abs32(Wrap32(mdY - lastInY)) > JUMP_THRESHOLD;
      if jump || mult == 1.0 {
        inX, inY := mdX, mdY;
      } else {
        inX := Gained(inX, lastInX, mdX, mult);
        inY := Gained(inY, lastInY, mdY, mult);
      }
      lastInX, lastInY := mdX, mdY;
      inSeeded := true;
      Write(MoveTo(inX, inY));
    }

    /** The mouse device writes to the same log and never touches a key. */
    method Write(e: DeviceEvent)
      requires Valid() && !e.KeyPress? && !e.KeyRelease?
      modifies log
      ensures Valid() && log.events == old(log.events) + [e]
    {
      HeldConcat(log.events, [e]);
      log.Write(e);
    }

    method HandleMouse(md: MouseData)
      requires Valid()
      modifies this`inX, this`inY, this`lastInX, this`lastInY, this`inSeeded, log
      ensures Valid()
      ensures CurrentTracker() == MouseInput(old(CurrentTracker()), multiplier, md).0
      ensures log.events == old(log.events) + MouseInput(old(CurrentTracker()), multiplier, md).1
    {
      hide Follow, Held;
      if md.dwFlags == WM_MOUSEMOVE {
        MoveInbound(md.x, md.y);
      } else if md.dwFlags == WM_MOUSEWHEEL {
        Write(Wheel(WheelNotches(md.wheelDelta)));
      } else if md.dwFlags == WM_MOUSEHWHEEL {
        Write(HWheel(WheelNotches(md.wheelDelta)));
      } else {
        var button := ButtonInput(md.dwFlags, md.wheelDelta);
        if button.Some? {
          MoveInbound(md.x, md.y);
          Write(button.value);
          Assoc(old(log.events), [MoveTo(inX, inY)], [button.value]);
        } else {
          assert log.events + [] == log.events;
        }
      }
    }

    /** Forgets any half-built chord and lifts every held key, also when the connection is lost. */
    method ReleaseAllKeys() returns (ghost order: seq<Code>)
      requires Valid()
      modifies this`pendingCtrl, this`suppressCtrlUp, keyboard, log
      ensures Valid() && keyboard.pressed == {}
      ensures Lists(order, Held(old(log.events))) && View() == Dropped(old(View()), order)
    {
      pendingCtrl := false;
      suppressCtrlUp := false;
      order := keyboard.ReleaseAll();
    }

    /** Dispatches one packet; accepted is what the activation or reclaim gate answers, true when there is
        none. */
    method HandlePacket(p: Packet, accepted: bool) returns (cb: Callback, ghost order: seq<Code>)
      requires Valid()
      modifies this, keyboard, log
      ensures Valid()
      ensures !Lifts(p, accepted) ==> View() == Handled(Config(), old(View()), p)
      ensures Lifts(p, accepted) ==>
                && Lists(order, Held(old(log.events) + Flush(old(CurrentChord()))))
                && View() == Lifted(old(View()), p, order) && keyboard.pressed == {}
      ensures cb == CallbackFor(p.kind, accepted)
    {
      cb, order := CallbackFor(p.kind, accepted), [];
      hide MouseInput, KeyInput, Held, CallbackFor, Releases;
      assert log.events + [] == log.events;
      if p.kind == KEYBOARD {
        HandleKeyboard(p.keyboard);
        return;
      }
      FlushPendingCtrl();
      if p.kind == MOUSE {
        HandleMouse(p.mouse);
        Assoc(old(log.events), Flush(old(CurrentChord())), MouseInput(old(CurrentTracker()), multiplier, p.mouse).1);
      } else if p.kind == MACHINE_SWITCHED {
        if !accepted {
          assert old(log.events) + (Flush(old(CurrentChord())) + []) == log.events;
          return;
        }
        inSeeded := false;
        order := ReleaseAllKeys();
      } else if p.kind == HIDE_MOUSE {
        order := ReleaseAllKeys();
      } else {
        assert old(log.events) + (Flush(old(CurrentChord())) + []) == log.events;
      }
    }
  }

  function CallbackFor(kind: byte, accepted: bool): Callback {
    if kind == MACHINE_SWITCHED && accepted then OnActivated
    else if kind == NEXT_MACHINE && accepted then OnReclaimed
    else if HasClipboard(kind) then ClipboardPacket
    else NoCallback
  }

  /** A button of the capturer, sent as a mouse packet and handled here, comes out as the same button, except
      the second X button: its sender shifts the number into the high word, where this side does not look. */
  lemma ButtonArrives(code: int, value: int)
    requires Ownership.ButtonMessage(code, value).Some?
    ensures var (wheel, flags) := Ownership.ButtonMessage(code, value).value;
            var e := ButtonInput(flags, wheel);
            && e.Some?
            && (code != BTN_EXTRA <==> 0 <= code && e == Some(if value == 1 then ButtonDown(code) else ButtonUp(code)))
  {
  }
}
