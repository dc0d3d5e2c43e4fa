/** Framed packets over the encrypted stream: SendPacket, SendPackets and RecvPacket as one goroutine
    runs them (client.go). Module Senders has the interleavings. */
module Connection {
  import opened Bytes
  import opened PackageTypes
  import opened Packets
  import opened Stamp
  import opened Stream

  const ID_WRAP: int32 := 0x7FFF_FF00

  /** The packet ID after n, when no other goroutine interferes. */
  function IdAfter(n: int32): int32 {
    Wrap32((if n >= ID_WRAP then 0 else n) + 1)
  }

  /** The bytes handed to the encrypting writer for one packet. */
  function WireBytes(p: Packet, magic: uint32): (b: seq<byte>)
    ensures |b| == WireSize(p.kind) && Aligned(b)
  {
    StampBytes(MarshalBytes(p), magic)
  }

  function WireStream(ps: seq<Packet>, magic: uint32): seq<byte> {
    if ps == [] then [] else WireBytes(ps[0], magic) + WireStream(ps[1..], magic)
  }

  lemma {:induction false} WireStreamAligned(ps: seq<Packet>, magic: uint32)
    ensures Aligned(WireStream(ps, magic))
  {
    hide WireBytes;
    if ps != [] {
      WireStreamAligned(ps[1..], magic);
    }
  }

  lemma WireStreamUnfold(ps: seq<Packet>, magic: uint32)
    requires ps != []
    ensures WireStream(ps, magic) == WireBytes(ps[0], magic) + WireStream(ps[1..], magic)
  {
    hide WireBytes;
  }

  lemma {:induction false} WireStreamConcat(a: seq<Packet>, b: seq<Packet>, magic: uint32)
    ensures WireStream(a + b, magic) == WireStream(a, magic) + WireStream(b, magic)
  {
    hide WireBytes;
    if a == [] {
      assert a + b == b;
      assert WireStream(a, magic) == [];
    } else {
      WireStreamUnfold(a, magic);
      WireStreamUnfold(a + b, magic);
      hide *;
      WireStreamConcat(a[1..], b, magic);
      assert (a + b)[1..] == a[1..] + b && (a + b)[0] == a[0];
      Assoc(WireBytes(a[0], magic), WireStream(a[1..], magic), WireStream(b, magic));
    }
  }

  /** The packets with the IDs a lone sender gives them. */
  function Numbered(ps: seq<Packet>, lastId: int32): (r: seq<Packet>)
    ensures |r| == |ps|
  {
    if ps == [] then []
    else [ps[0].(id := IdAfter(lastId))] + Numbered(ps[1..], IdAfter(lastId))
  }

  function LastId(n: nat, lastId: int32): int32 {
    if n == 0 then lastId else LastId(n - 1, IdAfter(lastId))
  }

  /** A decoded packet together with the cleared wire bytes kept for diagnostics. */
  datatype Received = Received(packet: Packet, raw: seq<byte>)

  /** One receive: 32 bytes, validation, and 32 more when the type is a big one. */
  function Recv(c: Cipher, magic: uint32, s: Reader): Result<(Received, Reader)> {
    match FullRead(c, s, PACKET_SIZE)
    case None => Err("read packet")
    case Some((b, t)) =>
      if Validate(b, magic) != Accepted then Err("invalid stamp")
      else if IsBigPacket(b[0]) then
        match FullRead(c, t, PACKET_SIZE)
        case None => Err("read extended")
        case Some((ext, u)) => Ok((Decoded(ClearBytes(b) + ext), u))
      else Ok((Decoded(ClearBytes(b)), t))
  }

  function Decoded(full: seq<byte>): Received
    requires |full| >= PACKET_SIZE
  {
    Received(UnmarshalBytes(full).value, full)
  }

  function RecvMany(c: Cipher, magic: uint32, s: Reader, n: nat): Result<(seq<Received>, Reader)>
    decreases n
  {
    if n == 0 then Ok(([], s))
    else
      match Recv(c, magic, s)
      case Err(e) => Err(e)
      case Ok((r, t)) =>
        match RecvMany(c, magic, t, n - 1)
        case Err(e) => Err(e)
        case Ok((rs, u)) => Ok(([r] + rs, u))
  }

  class Conn {
    const enc: EncryptWriter
    const dec: DecryptReader
    const magic: uint32
    var nextID: int32

    constructor (enc: EncryptWriter, dec: DecryptReader, magic: uint32)
      ensures this.enc == enc && this.dec == dec && this.magic == magic && nextID == 0
    {
      this.enc, this.dec, this.magic, nextID := enc, dec, magic, 0;
    }

    method AllocateId() returns (id: int32)
      modifies this`nextID
      ensures id == nextID == IdAfter(old(nextID))
    {
      if nextID >= ID_WRAP {
        nextID := 0;
      }
      nextID := Wrap32(nextID + 1);
      id := nextID;
    }

    method SendPacket(p: Packet) returns (r: Result<nat>)
      requires enc.Valid()
      modifies this`nextID, enc
      ensures enc.Valid() && nextID == IdAfter(old(nextID))
      ensures r == Ok(WireSize(p.kind))
      ensures enc.plain == old(enc.plain) + WireBytes(p.(id := nextID), magic)
    {
      hide MarshalBytes, StampBytes, IdAfter, Wrap32, EncryptWriter.Valid;
      var id := AllocateId();
      var buf := Marshal(p.(id := id));
      StampPacket(buf, magic);
      r := enc.Write(buf[..]);
    }

    method SendPackets(ps: seq<Packet>)
      requires enc.Valid()
      modifies this`nextID, enc
      ensures enc.Valid() && nextID == LastId(|ps|, old(nextID))
      ensures enc.plain == old(enc.plain) + WireStream(Numbered(ps, old(nextID)), magic)
    {
      hide WireBytes, IdAfter, EncryptWriter.Valid;
      for i := 0 to |ps|
        invariant enc.Valid()
        invariant LastId(|ps| - i, nextID) == LastId(|ps|, old(nextID))
        invariant enc.plain + WireStream(Numbered(ps[i..], nextID), magic)
               == old(enc.plain) + WireStream(Numbered(ps, old(nextID)), magic)
      {
        ghost var before, was := enc.plain, nextID;
        var r := SendPacket(ps[i]);
        ghost var rest := WireStream(Numbered(ps[i + 1..], nextID), magic);
        assert ps[i..][1..] == ps[i + 1..];
        assert Numbered(ps[i..], was)[1..] == Numbered(ps[i + 1..], nextID);
        assert before + (WireBytes(ps[i].(id := nextID), magic) + rest) == enc.plain + rest;
      }
    }

    method RecvPacket() returns (r: Result<Received>)
      modifies dec
      ensures match Recv(dec.cipher, magic, old(dec.State()))
              case Err(_) => r.Err?
              case Ok((rec, t)) => r == Ok(rec) && dec.State() == t
    {
      hide FullRead, Validate, UnmarshalBytes, Encrypt, Decrypt, Sum, GetLE, PutLE;
      var buf := new byte[PACKET_SIZE];
      var ok := dec.ReadFull(buf);
      if !ok {
        return Err("read packet");
      }
      ghost var b := buf[..];
      var v := ValidatePacket(buf, magic);
      if v != Accepted {
        return Err("invalid stamp");
      }
      ClearStamp(buf);
      assert buf[0] == b[0];
      if IsBigPacket(buf[0]) {
        var ext := new byte[PACKET_SIZE];
        ok := dec.ReadFull(ext);
        if !ok {
          return Err("read extended");
        }
        var full := new byte[PACKET_SIZE_EX](_ => 0);
        PutBytes(full, 0, buf[..]);
        PutBytes(full, PACKET_SIZE, ext[..]);
        assert full[..] == ClearBytes(b) + ext[..];
        var p := UnmarshalPacket(full);
        return Ok(Received(p.value, full[..]));
      }
      var p := UnmarshalPacket(buf);
      r := Ok(Received(p.value, buf[..]));
    }
  }

  /** The first 32 bytes of a stamped packet validate, clear and select the format like the whole. */
  lemma WireHead(p: Packet, magic: uint32)
    ensures var w := WireBytes(p, magic);
            var b := w[..PACKET_SIZE];
            && Validate(b, magic) == Accepted
            && IsBigPacket(b[0]) == IsBigPacket(p.kind)
            && ClearBytes(b) + w[PACKET_SIZE..] == MarshalBytes(p)
  {
    hide MarshalBytes, Sum, GetLE, PutLE;
    var m := MarshalBytes(p);
    var w := WireBytes(p, magic);
    StampRoundTrip(m, magic, magic);
    var b := w[..PACKET_SIZE];
    assert b[2..4] == w[2..4] && b[2..PACKET_SIZE] == w[2..PACKET_SIZE];
    assert ClearBytes(b) + w[PACKET_SIZE..] == ClearBytes(w);
  }

  lemma RecvOne(c: Cipher, magic: uint32, s: Reader, p: Packet, rest: seq<byte>)
    requires c.Lawful() && Encodes(c, s, WireBytes(p, magic) + rest)
    ensures Recv(c, magic, s).Ok?
    ensures var (r, t) := Recv(c, magic, s).value;
            r == Received(Canonical(p), MarshalBytes(p)) && Encodes(c, t, rest)
  {
    hide WireBytes, MarshalBytes, Canonical, UnmarshalBytes, Encodes;
    hide FullRead, Advance, ClearBytes, Validate, IsBigPacket;
    MarshalRoundTrip(p);
    WireHead(p, magic);
    var w := WireBytes(p, magic);
    var b, ext := w[..PACKET_SIZE], w[PACKET_SIZE..];
    assert w + rest == b + (ext + rest);
    ReadPrefix(c, s, b, ext + rest);
    if IsBigPacket(p.kind) {
      ReadPrefix(c, Advance(s, PACKET_SIZE), ext, rest);
    } else {
      assert ext + rest == rest;
      assert ClearBytes(b) + ext == ClearBytes(b);
    }
  }

  /** Receiving over the bytes of any list of packets, whatever mix of 32- and 64-byte ones, returns the
      canonical form of each in order and leaves the reader exactly at what follows. */
  lemma {:induction false} RecvStream(c: Cipher, magic: uint32, s: Reader, ps: seq<Packet>, rest: seq<byte>)
    requires c.Lawful() && Encodes(c, s, WireStream(ps, magic) + rest)
    ensures RecvMany(c, magic, s, |ps|).Ok?
    ensures var (rs, t) := RecvMany(c, magic, s, |ps|).value;
            && |rs| == |ps| && Encodes(c, t, rest)
            && forall i :: 0 <= i < |ps| ==> rs[i] == Received(Canonical(ps[i]), MarshalBytes(ps[i]))
    decreases |ps|
  {
    hide WireBytes, Recv, Encodes, Canonical, MarshalBytes;
    if ps == [] {
      assert WireStream(ps, magic) + rest == rest;
    } else {
      var tail := WireStream(ps[1..], magic) + rest;
      assert WireStream(ps, magic) + rest == WireBytes(ps[0], magic) + tail;
      RecvOne(c, magic, s, ps[0], tail);
      RecvStream(c, magic, Recv(c, magic, s).value.1, ps[1..], rest);
    }
  }
}
