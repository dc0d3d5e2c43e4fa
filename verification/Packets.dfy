/** Marshalling packets to their 32- or 64-byte wire form and back (packet.go). */
module Packets {
  import opened Bytes
  import opened PackageTypes

  datatype MouseData = MouseData(x: int32, y: int32, wheelDelta: int32, dwFlags: int32)
  datatype KeyboardData = KeyboardData(dateTime: int64, wVk: int32, dwFlags: int32)
  datatype HandshakeData = HandshakeData(machine1: uint32, machine2: uint32, machine3: uint32, machine4: uint32)

  const NO_MOUSE := MouseData(0, 0, 0, 0)
  const NO_KEYBOARD := KeyboardData(0, 0, 0)
  const NO_HANDSHAKE := HandshakeData(0, 0, 0, 0)
  const CLIP_DATA_SIZE := 48

  type Name = s: seq<byte> | |s| == 32 witness Zeros(32)

  datatype Packet = Packet(
    kind: byte, id: int32, src: uint32, des: uint32,
    mouse: MouseData, keyboard: KeyboardData, handshake: HandshakeData,
    clipboardData: Option<seq<byte>>, machineName: Name)

  /** A packet literal with every payload field at its zero value. */
  function Plain(kind: byte, id: int32, src: uint32, des: uint32): Packet {
    Packet(kind, id, src, des, NO_MOUSE, NO_KEYBOARD, NO_HANDSHAKE, None, Zeros(32))
  }

  // ---- Wire layout -------------------------------------------------------

  function Header(p: Packet): (b: seq<byte>)
    ensures |b| == 16
  {
    [p.kind, 0, 0, 0] + PutI32(p.id) + PutU32(p.src) + PutU32(p.des)
  }

  function ClipArea(p: Packet): (b: seq<byte>)
    ensures |b| == CLIP_DATA_SIZE
  {
    match p.clipboardData
    case Some(d) =>
      var n := Min(|d|, CLIP_DATA_SIZE);
      d[..n] + Zeros(CLIP_DATA_SIZE - n)
    case None => Zeros(16) + p.machineName
  }

  function Payload(p: Packet): (b: seq<byte>)
    requires !HasClipboard(p.kind)
    ensures |b| == 16
  {
    if HasMouse(p.kind) then
      PutI32(p.mouse.x) + PutI32(p.mouse.y) + PutI32(p.mouse.wheelDelta) + PutI32(p.mouse.dwFlags)
    else if p.kind == KEYBOARD then
      PutI64(p.keyboard.dateTime) + PutI32(p.keyboard.wVk) + PutI32(p.keyboard.dwFlags)
    else if HasHandshake(p.kind) then
      PutU32(p.handshake.machine1) + PutU32(p.handshake.machine2) +
      PutU32(p.handshake.machine3) + PutU32(p.handshake.machine4)
    else
      Zeros(16)
  }

  function Extension(p: Packet): (b: seq<byte>)
    requires !HasClipboard(p.kind)
  {
    if !IsBigPacket(p.kind) then []
    else if p.clipboardData.None? then p.machineName
    else Zeros(32)
  }

  /** The wire form of a packet before it is stamped. */
  function MarshalBytes(p: Packet): (b: seq<byte>)
    ensures |b| == WireSize(p.kind)
    ensures b[0] == p.kind && b[1..4] == [0, 0, 0]
  {
    var h := Header(p);
    assert h[0] == p.kind && h[1..4] == [0, 0, 0];
    if HasClipboard(p.kind) then h + ClipArea(p)
    else h + Payload(p) + Extension(p)
  }

  method Marshal(p: Packet) returns (buf: array<byte>)
    ensures fresh(buf) && buf[..] == MarshalBytes(p)
  {
    var big := IsBigPacket(p.kind);
    var size := if big then PACKET_SIZE_EX else PACKET_SIZE;
    buf := new byte[size](_ => 0);
    MarshalHeader(p, buf);
    MarshalPayload(p, buf);
    if big && p.clipboardData.None? {
      PutBytes(buf, 32, p.machineName);
    }
    assert buf[..] == MarshalBytes(p);
  }

  method MarshalHeader(p: Packet, buf: array<byte>)
    requires buf.Length >= PACKET_SIZE && buf[..] == Zeros(buf.Length)
    modifies buf
    ensures buf[..] == Header(p) + Zeros(buf.Length - 16)
  {
    ghost var size := buf.Length;
    buf[0] := p.kind;
    assert buf[..] == [p.kind, 0, 0, 0] + Zeros(size - 4);
    PutBytes(buf, 4, PutI32(p.id));
    assert buf[..] == [p.kind, 0, 0, 0] + PutI32(p.id) + Zeros(size - 8);
    PutBytes(buf, 8, PutU32(p.src));
    assert buf[..] == [p.kind, 0, 0, 0] + PutI32(p.id) + PutU32(p.src) + Zeros(size - 12);
    PutBytes(buf, 12, PutU32(p.des));
  }

  /** Writes four consecutive 32-bit fields at offset 16. */
  method PutQuad(buf: array<byte>, w: seq<byte>, x: seq<byte>, y: seq<byte>, z: seq<byte>)
    requires buf.Length >= PACKET_SIZE
    requires |w| == 4 && |x| == 4 && |y| == 4 && |z| == 4
    modifies buf
    ensures buf[..] == old(buf[..16]) + w + x + y + z + old(buf[32..])
  {
    ghost var head, tail := buf[..16], buf[32..];
    PutBytes(buf, 16, w);
    assert buf[..20] == head + w && buf[32..] == tail;
    PutBytes(buf, 20, x);
    assert buf[..24] == head + w + x && buf[32..] == tail;
    PutBytes(buf, 24, y);
    assert buf[..28] == head + w + x + y && buf[32..] == tail;
    PutBytes(buf, 28, z);
  }

  method MarshalPayload(p: Packet, buf: array<byte>)
    requires buf.Length == WireSize(p.kind) && buf[..] == Header(p) + Zeros(buf.Length - 16)
    modifies buf
    ensures HasClipboard(p.kind) && p.clipboardData.Some? ==> buf[..] == Header(p) + ClipArea(p)
    ensures HasClipboard(p.kind) && p.clipboardData.None? ==> buf[..] == Header(p) + Zeros(48)
    ensures !HasClipboard(p.kind) ==> buf[..] == Header(p) + Payload(p) + Zeros(buf.Length - 32)
  {
    hide Header, PutLE, GetLE, PutI32, PutU32, PutI64;
    assert buf[..16] == Header(p);
    if HasMouse(p.kind) {
      PutQuad(buf, PutI32(p.mouse.x), PutI32(p.mouse.y), PutI32(p.mouse.wheelDelta), PutI32(p.mouse.dwFlags));
    } else if p.kind == KEYBOARD {
      var t := PutI64(p.keyboard.dateTime);
      assert t[..4] + t[4..] == t;
      PutQuad(buf, t[..4], t[4..], PutI32(p.keyboard.wVk), PutI32(p.keyboard.dwFlags));
    } else if HasHandshake(p.kind) {
      var h := p.handshake;
      PutQuad(buf, PutU32(h.machine1), PutU32(h.machine2), PutU32(h.machine3), PutU32(h.machine4));
    } else if HasClipboard(p.kind) && p.clipboardData.Some? {
      var n := |p.clipboardData.value|;
      if n > CLIP_DATA_SIZE {
        n := CLIP_DATA_SIZE;
      }
      PutBytes(buf, 16, p.clipboardData.value[..n]);
    }
  }

  /** Decodes a raw buffer whose stamp bytes have been cleared. */
  function UnmarshalBytes(b: seq<byte>): (r: Result<Packet>)
    ensures r.Ok? <==> |b| >= PACKET_SIZE
  {
    if |b| < PACKET_SIZE then Err("packet too short")
    else
      var kind := b[0];
      var p := Plain(kind, GetI32(b[4..8]), GetU32(b[8..12]), GetU32(b[12..16]));
      if HasMouse(kind) then
        Ok(p.(mouse := MouseData(GetI32(b[16..20]), GetI32(b[20..24]), GetI32(b[24..28]), GetI32(b[28..32]))))
      else if kind == KEYBOARD then
        Ok(p.(keyboard := KeyboardData(GetI64(b[16..24]), GetI32(b[24..28]), GetI32(b[28..32]))))
      else if HasClipboard(kind) then
        Ok(p.(clipboardData := Some(b[16..Min(|b|, PACKET_SIZE_EX)])))
      else
        var q := if HasHandshake(kind)
                 then p.(handshake := HandshakeData(GetU32(b[16..20]), GetU32(b[20..24]),
                                                    GetU32(b[24..28]), GetU32(b[28..32])))
                 else p;
        if IsBigPacket(kind) && |b| >= PACKET_SIZE_EX then Ok(q.(machineName := b[32..64])) else Ok(q)
  }

  method UnmarshalPacket(buf: array<byte>) returns (r: Result<Packet>)
    ensures r == UnmarshalBytes(buf[..])
  {
    if buf.Length < PACKET_SIZE {
      return Err("packet too short");
    }
    var p := Plain(buf[0], GetI32(buf[4..8]), GetU32(buf[8..12]), GetU32(buf[12..16]));
    if HasMouse(p.kind) {
      p := p.(mouse := MouseData(GetI32(buf[16..20]), GetI32(buf[20..24]), GetI32(buf[24..28]), GetI32(buf[28..32])));
    } else if p.kind == KEYBOARD {
      p := p.(keyboard := KeyboardData(GetI64(buf[16..24]), GetI32(buf[24..28]), GetI32(buf[28..32])));
    } else if HasHandshake(p.kind) {
      p := p.(handshake := HandshakeData(GetU32(buf[16..20]), GetU32(buf[20..24]),
                                         GetU32(buf[24..28]), GetU32(buf[28..32])));
    } else if HasClipboard(p.kind) {
      var end := buf.Length;
      if end > 64 {
        end := 64;
      }
      if end > 16 {
        p := p.(clipboardData := Some(buf[16..end]));
      }
    }
    if IsBigPacket(p.kind) && buf.Length >= PACKET_SIZE_EX && p.clipboardData.None? {
      p := p.(machineName := buf[32..64]);
    }
    forall i, j | 0 <= i <= j <= buf.Length ensures buf[i..j] == buf[..][i..j] {}
    r := Ok(p);
  }

  // ---- What survives the wire ---------------------------------------------

  /** The packet the peer decodes: inactive payload fields and the name of a small packet are gone,
      clipboard data is padded or cut to 48 bytes, and a clipboard packet that carried no data
      delivers its machine name inside those 48 bytes instead of in the name field. */
  function Canonical(p: Packet): (c: Packet)
    ensures c.kind == p.kind && c.id == p.id && c.src == p.src && c.des == p.des
  {
    Packet(
      p.kind, p.id, p.src, p.des,
      if HasMouse(p.kind) then p.mouse else NO_MOUSE,
      if p.kind == KEYBOARD then p.keyboard else NO_KEYBOARD,
      if HasHandshake(p.kind) then p.handshake else NO_HANDSHAKE,
      if HasClipboard(p.kind) then Some(ClipArea(p)) else None,
      if IsBigPacket(p.kind) && !HasClipboard(p.kind) && p.clipboardData.None? then p.machineName else Zeros(32))
  }

  lemma HeaderSlices(p: Packet, rest: seq<byte>)
    ensures var b := Header(p) + rest;
            b[4..8] == PutI32(p.id) && b[8..12] == PutU32(p.src) && b[12..16] == PutU32(p.des) && b[16..] == rest
  {
  }

  lemma Quarters(b: seq<byte>, w: seq<byte>, x: seq<byte>, y: seq<byte>, z: seq<byte>, rest: seq<byte>)
    requires |b| >= 16 && b[16..] == w + x + y + z + rest
    requires |w| == 4 && |x| == 4 && |y| == 4 && |z| == 4
    ensures b[16..20] == w && b[20..24] == x && b[24..28] == y && b[28..32] == z
  {
    assert (w + x + y + z + rest)[0..4] == w;
    assert (w + x + y + z + rest)[4..8] == x;
    assert (w + x + y + z + rest)[8..12] == y;
    assert (w + x + y + z + rest)[12..16] == z;
    assert b[16..20] == b[16..][0..4];
    assert b[20..24] == b[16..][4..8];
    assert b[24..28] == b[16..][8..12];
    assert b[28..32] == b[16..][12..16];
  }

  /** Decoding what was marshalled yields exactly the canonical form, for every packet. */
  lemma MarshalRoundTrip(p: Packet)
    ensures UnmarshalBytes(MarshalBytes(p)) == Ok(Canonical(p))
  {
    var b := MarshalBytes(p);
    var rest := if HasClipboard(p.kind) then ClipArea(p) else Payload(p) + Extension(p);
    assert b == Header(p) + rest;
    HeaderSlices(p, rest);
    I32RoundTrip(p.id);
    U32RoundTrip(p.src);
    U32RoundTrip(p.des);
    if HasClipboard(p.kind) {
      assert b[16..64] == ClipArea(p);
    } else {
      PayloadRoundTrip(p, b);
      if IsBigPacket(p.kind) {
        assert b[32..64] == Extension(p);
      }
    }
  }

  lemma PayloadRoundTrip(p: Packet, b: seq<byte>)
    requires !HasClipboard(p.kind) && |b| >= 32 && b[16..] == Payload(p) + Extension(p)
    ensures HasMouse(p.kind) ==>
              p.mouse == MouseData(GetI32(b[16..20]), GetI32(b[20..24]), GetI32(b[24..28]), GetI32(b[28..32]))
    ensures p.kind == KEYBOARD ==>
              p.keyboard == KeyboardData(GetI64(b[16..24]), GetI32(b[24..28]), GetI32(b[28..32]))
    ensures HasHandshake(p.kind) ==>
              p.handshake == HandshakeData(GetU32(b[16..20]), GetU32(b[20..24]), GetU32(b[24..28]), GetU32(b[28..32]))
  {
    if HasMouse(p.kind) {
      var m := p.mouse;
      Quarters(b, PutI32(m.x), PutI32(m.y), PutI32(m.wheelDelta), PutI32(m.dwFlags), Extension(p));
      I32RoundTrip(m.x);
      I32RoundTrip(m.y);
      I32RoundTrip(m.wheelDelta);
      I32RoundTrip(m.dwFlags);
    } else if p.kind == KEYBOARD {
      var k := p.keyboard;
      var t := PutI64(k.dateTime);
      assert t == t[..4] + t[4..];
      assert b[16..] == t[..4] + t[4..] + PutI32(k.wVk) + PutI32(k.dwFlags) + Extension(p);
      Quarters(b, t[..4], t[4..], PutI32(k.wVk), PutI32(k.dwFlags), Extension(p));
      assert b[16..24] == b[16..20] + b[20..24];
      I64RoundTrip(k.dateTime);
      I32RoundTrip(k.wVk);
      I32RoundTrip(k.dwFlags);
    } else if HasHandshake(p.kind) {
      var h := p.handshake;
      Quarters(b, PutU32(h.machine1), PutU32(h.machine2), PutU32(h.machine3), PutU32(h.machine4), Extension(p));
      U32RoundTrip(h.machine1);
      U32RoundTrip(h.machine2);
      U32RoundTrip(h.machine3);
      U32RoundTrip(h.machine4);
    }
  }

  /** Canonicalising loses nothing the wire carries. */
  lemma CanonicalSameWire(p: Packet)
    ensures MarshalBytes(Canonical(p)) == MarshalBytes(p)
    ensures Canonical(Canonical(p)) == Canonical(p)
  {
    assert HasClipboard(p.kind) ==> ClipArea(Canonical(p)) == ClipArea(p);
  }

  lemma HeaderBytes(b: seq<byte>)
    requires |b| >= PACKET_SIZE
    ensures Header(UnmarshalBytes(b).value) == [b[0], 0, 0, 0] + b[4..16]
  {
    U32BytesRoundTrip(b[4..8]);
    U32BytesRoundTrip(b[8..12]);
    U32BytesRoundTrip(b[12..16]);
    assert b[4..16] == b[4..8] + b[8..12] + b[12..16];
  }

  /** Bytes 16 onwards of the re-marshalled buffer: only the payload of a payload-free type is lost. */
  lemma TailBytes(b: seq<byte>)
    requires |b| >= PACKET_SIZE && |b| == WireSize(b[0])
    ensures MarshalBytes(UnmarshalBytes(b).value)[16..]
         == (if HasPayload(b[0]) then b[16..32] else Zeros(16)) + b[32..]
  {
    var p := UnmarshalBytes(b).value;
    var h := Header(p);
    if HasClipboard(p.kind) {
      assert ClipArea(p) == b[16..64] == b[16..32] + b[32..];
      assert (h + ClipArea(p))[16..] == ClipArea(p);
    } else {
      assert Extension(p) == b[32..];
      assert (h + Payload(p) + Extension(p))[16..] == Payload(p) + Extension(p);
      if HasPayload(p.kind) {
        PayloadBytes(b);
      }
    }
  }

  /** Re-marshalling a decoded buffer of the right size gives the buffer back exactly when its stamp bytes
      are clear and, for a type with no payload field, bytes 16-31 are zero. */
  lemma UnmarshalRoundTrip(b: seq<byte>)
    requires |b| >= PACKET_SIZE && |b| == WireSize(b[0])
    ensures MarshalBytes(UnmarshalBytes(b).value) == b
       <==> b[1..4] == [0, 0, 0] && (HasPayload(b[0]) || b[16..32] == Zeros(16))
  {
    var m := MarshalBytes(UnmarshalBytes(b).value);
    HeaderBytes(b);
    TailBytes(b);
    var head, mid, tail := [b[0], 0, 0, 0] + b[4..16], if HasPayload(b[0]) then b[16..32] else Zeros(16), b[32..];
    assert m[..16] == head by {
      assert m[..16] == Header(UnmarshalBytes(b).value);
    }
    hide *;
    assert m == m[..16] + m[16..];
    assert b == [b[0]] + b[1..4] + b[4..16] + b[16..32] + b[32..];
    assert m[1..4] == head[1..4] == [0, 0, 0];
    assert m[16..32] == (mid + tail)[..16] == mid;
    if b[1..4] == [0, 0, 0] {
      assert head == b[..16];
    }
  }

  lemma PayloadBytes(b: seq<byte>)
    requires |b| >= PACKET_SIZE && HasPayload(b[0]) && !HasClipboard(b[0])
    ensures Payload(UnmarshalBytes(b).value) == b[16..32]
  {
    assert b[16..32] == b[16..20] + b[20..24] + b[24..28] + b[28..32];
    assert b[16..24] == b[16..20] + b[20..24];
    U32BytesRoundTrip(b[16..20]);
    U32BytesRoundTrip(b[20..24]);
    U32BytesRoundTrip(b[24..28]);
    U32BytesRoundTrip(b[28..32]);
    I64BytesRoundTrip(b[16..24]);
  }

  // ---- Machine names -------------------------------------------------------

  const SPACE: byte := 32

  function Spaces(n: nat): (s: seq<byte>)
    ensures |s| == n && forall i :: 0 <= i < n ==> s[i] == SPACE
  {
    seq(n, _ => SPACE)
  }

  /** The name field after SetMachineName: cut at 32 bytes, padded with spaces. */
  function PaddedName(name: seq<byte>): Name {
    if |name| >= 32 then name[..32] else name + Spaces(32 - |name|)
  }

  function TrimRight(s: seq<byte>): (t: seq<byte>)
    ensures t <= s && (t == [] || t[|t| - 1] != SPACE)
    ensures forall i :: |t| <= i < |s| ==> s[i] == SPACE
  {
    if s != [] && s[|s| - 1] == SPACE then TrimRight(s[..|s| - 1]) else s
  }

  function MachineName(p: Packet): seq<byte> {
    TrimRight(p.machineName)
  }

  /** Overwrites the 32-byte name array in place. */
  method SetMachineName(field: array<byte>, name: seq<byte>)
    requires field.Length == 32
    modifies field
    ensures field[..] == PaddedName(name)
  {
    for i := 0 to field.Length
      invariant forall j :: 0 <= j < i ==> field[j] == SPACE
    {
      field[i] := SPACE;
    }
    PutBytes(field, 0, name[..Min(|name|, 32)]);
  }

  lemma TrimIsUnique(s: seq<byte>, t: seq<byte>)
    requires t <= s && (t == [] || t[|t| - 1] != SPACE)
    requires forall i :: |t| <= i < |s| ==> s[i] == SPACE
    ensures TrimRight(s) == t
  {
    var u := TrimRight(s);
    assert t != [] ==> s[|t| - 1] == t[|t| - 1];
    assert u != [] ==> s[|u| - 1] == u[|u| - 1];
  }

  /** What a peer reads back is the name cut to 32 bytes and right-trimmed: the name itself exactly when it
      fits and does not end in a space. */
  lemma MachineNameRoundTrip(name: seq<byte>)
    ensures TrimRight(PaddedName(name)) == TrimRight(name[..Min(|name|, 32)])
    ensures TrimRight(PaddedName(name)) == name <==> |name| <= 32 && (name == [] || name[|name| - 1] != SPACE)
  {
    var cut := name[..Min(|name|, 32)];
    TrimIsUnique(PaddedName(name), TrimRight(cut));
    if |name| <= 32 && (name == [] || name[|name| - 1] != SPACE) {
      TrimIsUnique(name, name);
      assert cut == name;
    }
  }
}
