/** What every received packet does to the devices, in type numbers, virtual keys, flag bits and message codes. */
module PacketTable {
  import opened Bytes
  import opened PackageTypes
  import opened Packets
  import opened Motion
  import opened Keyboard
  import opened Chords
  import opened Inbound
  import opened Handler
  import opened Sessions

  // ---- Routing ------------------------------------------------------------------------------

  /** Greetings, goodbyes, heartbeats, late challenges and the matrix family stay in the receive loop; a hide and
      an accepted switch lift every key; every other packet is handled, keys and mouse among them. */
  lemma RoutedByType(cfg: Settings, s: State, a: Arrival)
    ensures var k := a.packet.kind;
            After(cfg, s, a)
            == if k in {2, 4, 20, 51, 52, 53, 126} || k >= 128 then s
               else if k == 50 || (k == 77 && a.accepted) then Lifted(s, a.packet, a.order)
               else Handled(cfg, s, a.packet)
  {
  }

  /** The press held back goes out first and the releases last; an accepted switch makes the tracker snap. */
  lemma LiftIs(s: State, p: Packet, order: seq<Code>)
    ensures var t := Lifted(s, p, order);
            && t.chord == Chord(None, false)
            && t.log == s.log + (if s.chord.pending.Some? then [KeyPress(s.chord.pending.value)] else [])
                      + seq(|order|, i requires 0 <= i < |order| => KeyRelease(order[i]))
            && t.tracker == (if p.kind == 50 then s.tracker else s.tracker.(seeded := false))
  {
    assert Releases(order) == seq(|order|, i requires 0 <= i < |order| => KeyRelease(order[i]));
  }

  /** A lost connection releases the held keys without sending the press held back, and ends a half-built chord. */
  lemma DropIs(s: State, order: seq<Code>)
    ensures var t := Dropped(s, order);
            && t.chord == Chord(None, false) && t.tracker == s.tracker
            && t.log == s.log + seq(|order|, i requires 0 <= i < |order| => KeyRelease(order[i]))
  {
    assert Releases(order) == seq(|order|, i requires 0 <= i < |order| => KeyRelease(order[i]));
  }

  /** A packet that is neither a key nor a mouse packet lets a press held back go and does nothing else. */
  lemma OtherIs(cfg: Settings, s: State, p: Packet)
    requires p.kind != 122 && p.kind != 123
    ensures Handled(cfg, s, p)
         == s.(chord := s.chord.(pending := None),
               log := s.log + if s.chord.pending.Some? then [KeyPress(s.chord.pending.value)] else [])
  {
    assert Flush(s.chord) + [] == Flush(s.chord);
  }

  /** An accepted switch or request runs its callback, and the six clipboard types go to the clipboard. */
  lemma CallbackIs(kind: byte, accepted: bool)
    ensures CallbackFor(kind, accepted)
         == if kind == 77 && accepted then OnActivated
            else if kind == 121 && accepted then OnReclaimed
            else if kind in {69, 76, 78, 79, 124, 125} then ClipboardPacket
            else NoCallback
  {
  }

  /** A greeting, plain or of the matrix family, is answered with type 3 and a heartbeat with its own type, to its
      sender and under this machine's name. */
  lemma ReplyIs(id: uint32, name: seq<byte>, p: Packet)
    ensures var r := Reply(id, name, p);
            && (r.Some? <==> p.kind in {2, 20, 51, 52, 53, 130})
            && (r.Some? ==> r.value.kind == (if p.kind in {2, 130} then 3 else p.kind))
            && (r.Some? ==> r.value.src == id && r.value.des == p.src && r.value.machineName == PaddedName(name))
  {
  }

  /** The answers of a session are those to its packets, in order. */
  lemma {:induction false} RepliesAre(id: uint32, name: seq<byte>, p: Packet, a: seq<Packet>, b: seq<Packet>)
    ensures Replies(id, name, []) == []
    ensures Replies(id, name, [p]) == if Reply(id, name, p).Some? then [Reply(id, name, p).value] else []
    ensures Replies(id, name, a + b) == Replies(id, name, a) + Replies(id, name, b)
    decreases |b|
  {
    hide Reply;
    assert [p][..0] == [];
    if b == [] {
      assert a + b == a;
    } else {
      var n := |b| - 1;
      assert (a + b)[..|a + b| - 1] == a + b[..n];
      RepliesAre(id, name, p, a, b[..n]);
      Assoc(Replies(id, name, a), Replies(id, name, b[..n]),
            if Reply(id, name, b[n]).Some? then [Reply(id, name, b[n]).value] else []);
    }
  }

  // ---- Keys ---------------------------------------------------------------------------------

  /** The key code, from the low byte of the flags: its lowest bit tells the right Ctrl and Alt from the left. */
  function KeyOf(lookup: Lookup, vk: int32, low: byte): Option<Code> {
    match vk
    case 0x10 => Some(42)
    case 0x11 => Some(if low % 2 == 1 then 97 else 29)
    case 0x12 => Some(if low % 2 == 1 then 100 else 56)
    case _ => lookup(vk)
  }

  /** Bit 7 of the flags makes a release. The Ctrl keys are 0x11, 0xA2 and 0xA3, and the right Alt is 0xA5, or 0x12
      with bit 0. */
  lemma KeyIs(lookup: Lookup, k: KeyboardData, high: int, low: byte)
    requires k.dwFlags == 256 * high + low
    ensures KeyInput(lookup, k)
         == match KeyOf(lookup, k.wVk, low)
            case None => None
            case Some(c) =>
              if k.wVk == 0x11 || k.wVk == 0xA2 || k.wVk == 0xA3 then
                Some(if low >= 128 then CtrlUp(c) else CtrlDown(c))
              else if low >= 128 then Some(Release(c))
              else if k.wVk == 0xA5 || (k.wVk == 0x12 && low % 2 == 1) then Some(AltDown(c))
              else Some(Press(c))
  {
    UpBit(k.dwFlags, high, low);
    ExtendedBit(k.dwFlags, high, low);
    hide IsUp, IsExtended;
  }

  lemma UpBit(flags: int32, high: int, low: byte)
    requires flags == 256 * high + low
    ensures IsUp(flags) <==> low >= 128
  {
    assert flags / 128 == 2 * high + low / 128;
  }

  lemma ExtendedBit(flags: int32, high: int, low: byte)
    requires flags == 256 * high + low
    ensures IsExtended(flags) <==> low % 2 == 1
  {
  }

  /** From rest a known key is pressed or released at once, except that a Ctrl press is held back. */
  lemma KeyFromRest(cfg: Settings, s: State, p: Packet, high: int, low: byte)
    requires p.kind == 122 && s.chord == IDLE && p.keyboard.dwFlags == 256 * high + low
    ensures var vk := p.keyboard.wVk;
            Handled(cfg, s, p)
            == match KeyOf(cfg.lookup, vk, low)
               case None => s
               case Some(c) =>
                 if low >= 128 then s.(log := s.log + [KeyRelease(c)])
                 else if vk == 0x11 || vk == 0xA2 || vk == 0xA3 then s.(chord := Chord(Some(c), false))
                 else s.(log := s.log + [KeyPress(c)])
  {
    KeyIs(cfg.lookup, p.keyboard, high, low);
    assert s.log + [] == s.log;
    assert forall x: DeviceEvent :: [] + [x] == [x];
    hide KeyInput, KeyOf;
  }

  // ---- Mouse ----------------------------------------------------------------------------------

  /** The button of a message code, and whether it is a press: 272 left, 273 right, 274 middle, 275 and 276 the X
      buttons, of which the wheel field 2 means the second. */
  function ButtonOf(flags: int32, wheel: int): Option<(Code, bool)> {
    match flags
    case 0x201 => Some((272, true))
    case 0x202 => Some((272, false))
    case 0x204 => Some((273, true))
    case 0x205 => Some((273, false))
    case 0x207 => Some((274, true))
    case 0x208 => Some((274, false))
    case 0x20B => Some((if wheel == 2 then 276 else 275, true))
    case 0x20C => Some((if wheel == 2 then 276 else 275, false))
    case _ => None
  }

  /** Moves and clicks follow the reported position, scrolls do not, and other messages do nothing; a press held
      back goes out first. */
  lemma MouseIs(cfg: Settings, s: State, p: Packet)
    requires p.kind == 123
    ensures var m := p.mouse;
            var t := Follow(s.tracker, cfg.multiplier, Report(m.x, m.y));
            var button := ButtonOf(m.dwFlags, m.wheelDelta);
            var moves := m.dwFlags == 0x200 || button.Some?;
            var events := if m.dwFlags == 0x20A then [Wheel(WheelNotches(m.wheelDelta))]
                          else if m.dwFlags == 0x20E then [HWheel(WheelNotches(m.wheelDelta))]
                          else if m.dwFlags == 0x200 then [MoveTo(t.x, t.y)]
                          else match button
                               case Some((b, true)) => [MoveTo(t.x, t.y), ButtonDown(b)]
                               case Some((b, false)) => [MoveTo(t.x, t.y), ButtonUp(b)]
                               case None => [];
            Handled(cfg, s, p)
            == State(s.chord.(pending := None), if moves then t else s.tracker, s.log + (Flush(s.chord) + events))
  {
    hide Follow, WheelNotches, Flush;
  }

  /** A wheel delta is divided by 120 toward zero; less than a notch still counts as one. */
  lemma NotchesAre(delta: int32)
    ensures var n := WheelNotches(delta);
            && (delta >= 120 ==> 120 * n <= delta < 120 * n + 120)
            && (delta <= -120 ==> 120 * n - 120 < delta <= 120 * n)
            && (0 < delta < 120 ==> n == 1) && (-120 < delta < 0 ==> n == -1) && (delta == 0 ==> n == 0)
  {
  }

  /** The first report, a difference of more than 4096 on either axis, and every report without a gain snap the
      cursor to the report; the difference is taken in 32 bits, where the smallest number counts as no jump. */
  lemma SnapsTo(t: Tracker, multiplier: real, p: Report)
    ensures var dx, dy := Wrap32(p.x - t.lastX), Wrap32(p.y - t.lastY);
            var jumps := || !t.seeded
                         || (dx != -0x8000_0000 && (dx > 4096 || dx < -4096))
                         || (dy != -0x8000_0000 && (dy > 4096 || dy < -4096));
            jumps || multiplier <= 0.0 || multiplier == 1.0 ==>
              Follow(t, multiplier, p) == Tracker(p.x, p.y, p.x, p.y, true)
  {
    hide Gained;
  }

  /** Any other report moves each axis by the truncated gain, between 0 and 65535. */
  lemma GainsBy(t: Tracker, multiplier: real, p: Report)
    requires t.seeded && multiplier > 0.0 && multiplier != 1.0
    requires -4096 <= p.x - t.lastX <= 4096 && -4096 <= p.y - t.lastY <= 4096
    requires Small(t.x, Stretch(p.x - t.lastX, multiplier)) && Small(t.y, Stretch(p.y - t.lastY, multiplier))
    ensures var ix, iy := Stretch(p.x - t.lastX, multiplier), Stretch(p.y - t.lastY, multiplier);
            && Follow(t, multiplier, p) == Tracker(Bounded(t.x + ix), Bounded(t.y + iy), p.x, p.y, true)
            && TowardZero(ix, Product(p.x - t.lastX, multiplier)) && TowardZero(iy, Product(p.y - t.lastY, multiplier))
  {
    Truncated(p.x - t.lastX, multiplier);
    Truncated(p.y - t.lastY, multiplier);
    hide Stretch, TowardZero, Product;
    SmallWrap(p.x - t.lastX);
    SmallWrap(p.y - t.lastY);
    SmallWrap(Stretch(p.x - t.lastX, multiplier));
    SmallWrap(Stretch(p.y - t.lastY, multiplier));
    SmallWrap(t.x + Stretch(p.x - t.lastX, multiplier));
    SmallWrap(t.y + Stretch(p.y - t.lastY, multiplier));
  }

  /** Neither the scaled difference nor the sum leaves 32 bits. */
  predicate Small(pos: int, i: int) {
    -0x8000_0000 <= i < 0x8000_0000 && -0x8000_0000 <= pos + i < 0x8000_0000
  }

  function Bounded(v: int): (r: int32)
    ensures 0 <= r <= 65535 && (0 <= v <= 65535 ==> r == v)
  {
    if v < 0 then 0 else if v > 65535 then 65535 else v
  }

  predicate TowardZero(i: int, r: real) {
    (r >= 0.0 ==> i as real <= r < (i + 1) as real) && (r < 0.0 ==> (i - 1) as real < r <= i as real)
  }

  function Product(d: int, gain: real): real {
    d as real * gain
  }

  lemma Truncated(d: int, gain: real)
    ensures TowardZero(Stretch(d, gain), Product(d, gain))
  {
    MoveIs(Axis(0, 0.0), Times(d, gain));
    assert Times(d, gain) == Product(d, gain);
    hide Trunc, Times, Product;
  }

  lemma WrapIs(x: int)
    ensures (Wrap32(x) - x) % 0x1_0000_0000 == 0
  {
  }
}
