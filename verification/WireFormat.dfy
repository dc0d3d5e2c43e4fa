/** The wire in numbers: which byte of a packet carries what, what the stamp is, and what a receiver refuses. */
module WireFormat {
  import opened Bytes
  import opened PackageTypes
  import opened Packets
  import opened Stamp
  import opened Stream
  import opened Connection
  import FileTransfer

  /** Four bytes at an offset, least significant first. */
  function WordAt(b: seq<byte>, i: nat): int
    requires i + 4 <= |b|
  {
    b[i] as int + 0x100 * b[i + 1] as int + 0x1_0000 * b[i + 2] as int + 0x100_0000 * b[i + 3] as int
  }

  /** The two's complement of a signed word. */
  function Bits(x: int): int {
    if x < 0 then x + 0x1_0000_0000 else x
  }

  lemma WordOf(b: seq<byte>)
    requires |b| == 4
    ensures GetLE(b) == WordAt(b, 0)
  {
    assert GetLE(b[1..]) == b[1] as int + 256 * GetLE(b[1..][1..]);
    assert b[1..][1..] == b[2..] && b[2..][1..] == b[3..] && b[3..][1..] == [];
    assert GetLE(b[2..]) == b[2] as int + 256 * GetLE(b[3..]);
    assert GetLE(b[3..]) == b[3] as int + 256 * GetLE([]);
  }

  lemma PutWord(v: uint32)
    ensures WordAt(PutU32(v), 0) == v
  {
    Pow256Values();
    GetPut(v, 4);
    WordOf(PutU32(v));
  }

  lemma WordIn(b: seq<byte>, i: nat, v: uint32)
    requires i + 4 <= |b| && b[i..i + 4] == PutU32(v)
    ensures WordAt(b, i) == v
  {
    PutWord(v);
    SameWord(b, i, PutU32(v), 0);
  }

  lemma PutLong(v: int64)
    ensures var b := PutI64(v);
            WordAt(b, 0) + 0x1_0000_0000 * WordAt(b, 4) == if v < 0 then v + 0x1_0000_0000_0000_0000 else v
  {
    var b := PutI64(v);
    Pow256Values();
    GetPut(ToUnsigned64(v), 8);
    LongOf(b);
  }

  lemma LongOf(b: seq<byte>)
    requires |b| == 8
    ensures GetLE(b) == WordAt(b, 0) + 0x1_0000_0000 * WordAt(b, 4)
  {
    Cons(b, 0);
    Cons(b, 1);
    Cons(b, 2);
    Cons(b, 3);
    WordOf(b[4..]);
  }

  lemma Cons(b: seq<byte>, i: nat)
    requires i < |b|
    ensures GetLE(b[i..]) == b[i] as int + 256 * GetLE(b[i + 1..])
    ensures b[0..] == b
  {
    assert b[i..][1..] == b[i + 1..];
  }

  // ---- Packets ----------------------------------------------------------------------

  /** Every packet is 32 bytes, except for these types, which are 64. */
  lemma PacketSizes(p: Packet)
    ensures |MarshalBytes(p)| == if p.kind in {3, 20, 21, 51, 69, 76, 78, 79, 124, 125, 126, 127} || p.kind >= 128
                                 then 64 else 32
  {
  }

  /** Type, cleared stamp, packet ID, source and destination, in every packet. */
  lemma HeaderLayout(p: Packet)
    ensures var b := MarshalBytes(p);
            && b[0] == p.kind && b[1] == 0 && b[2] == 0 && b[3] == 0
            && WordAt(b, 4) == Bits(p.id) && WordAt(b, 8) == p.src && WordAt(b, 12) == p.des
  {
    var b := MarshalBytes(p);
    var rest := if HasClipboard(p.kind) then ClipArea(p) else Payload(p) + Extension(p);
    assert b == Header(p) + rest;
    HeaderSlices(p, rest);
    hide MarshalBytes, Header, PutLE, GetLE, ClipArea, Payload, Extension;
    WordIn(b, 4, ToUnsigned32(p.id));
    WordIn(b, 8, p.src);
    WordIn(b, 12, p.des);
  }

  /** Mouse data of types 50, 121 and 123, keyboard data of type 122, the challenge of types 126 and 127, and
      nothing for any other type without clipboard data. */
  lemma PayloadLayout(p: Packet)
    ensures var b := MarshalBytes(p);
            && (p.kind in {50, 121, 123} ==>
                  && WordAt(b, 16) == Bits(p.mouse.x) && WordAt(b, 20) == Bits(p.mouse.y)
                  && WordAt(b, 24) == Bits(p.mouse.wheelDelta) && WordAt(b, 28) == Bits(p.mouse.dwFlags))
            && (p.kind == 122 ==>
                  && WordAt(b, 16) + 0x1_0000_0000 * WordAt(b, 20)
                     == p.keyboard.dateTime + (if p.keyboard.dateTime < 0 then 0x1_0000_0000_0000_0000 else 0)
                  && WordAt(b, 24) == Bits(p.keyboard.wVk) && WordAt(b, 28) == Bits(p.keyboard.dwFlags))
            && (p.kind in {126, 127} ==>
                  && WordAt(b, 16) == p.handshake.machine1 && WordAt(b, 20) == p.handshake.machine2
                  && WordAt(b, 24) == p.handshake.machine3 && WordAt(b, 28) == p.handshake.machine4)
            && (p.kind !in {50, 69, 76, 78, 79, 121, 122, 123, 124, 125, 126, 127} ==>
                  forall i :: 16 <= i < 32 ==> b[i] == 0)
  {
    if !HasClipboard(p.kind) {
      var b := MarshalBytes(p);
      assert b == Header(p) + (Payload(p) + Extension(p));
      assert b[16..] == Payload(p) + Extension(p);
      PayloadWords(p, b);
    }
  }

  lemma PayloadWords(p: Packet, b: seq<byte>)
    requires !HasClipboard(p.kind) && |b| >= 32 && b[16..] == Payload(p) + Extension(p)
    ensures HasMouse(p.kind) ==>
              && WordAt(b, 16) == Bits(p.mouse.x) && WordAt(b, 20) == Bits(p.mouse.y)
              && WordAt(b, 24) == Bits(p.mouse.wheelDelta) && WordAt(b, 28) == Bits(p.mouse.dwFlags)
    ensures p.kind == KEYBOARD ==>
              && WordAt(b, 16) + 0x1_0000_0000 * WordAt(b, 20)
                 == p.keyboard.dateTime + (if p.keyboard.dateTime < 0 then 0x1_0000_0000_0000_0000 else 0)
              && WordAt(b, 24) == Bits(p.keyboard.wVk) && WordAt(b, 28) == Bits(p.keyboard.dwFlags)
    ensures HasHandshake(p.kind) ==>
              && WordAt(b, 16) == p.handshake.machine1 && WordAt(b, 20) == p.handshake.machine2
              && WordAt(b, 24) == p.handshake.machine3 && WordAt(b, 28) == p.handshake.machine4
    ensures !HasPayload(p.kind) ==> forall i :: 16 <= i < 32 ==> b[i] == 0
  {
    hide PutLE, GetLE, Extension, WordAt, MarshalBytes;
    if HasMouse(p.kind) {
      var m := p.mouse;
      Quarters(b, PutI32(m.x), PutI32(m.y), PutI32(m.wheelDelta), PutI32(m.dwFlags), Extension(p));
      FourWords(b, Bits(m.x), Bits(m.y), Bits(m.wheelDelta), Bits(m.dwFlags));
    } else if p.kind == KEYBOARD {
      var k := p.keyboard;
      var t := PutI64(k.dateTime);
      assert t == t[..4] + t[4..];
      assert b[16..] == t[..4] + t[4..] + PutI32(k.wVk) + PutI32(k.dwFlags) + Extension(p);
      Quarters(b, t[..4], t[4..], PutI32(k.wVk), PutI32(k.dwFlags), Extension(p));
      PutLong(k.dateTime);
      SameWord(b, 16, t, 0);
      SameWord(b, 20, t, 4);
      WordIn(b, 24, Bits(k.wVk));
      WordIn(b, 28, Bits(k.dwFlags));
    } else if HasHandshake(p.kind) {
      var h := p.handshake;
      Quarters(b, PutU32(h.machine1), PutU32(h.machine2), PutU32(h.machine3), PutU32(h.machine4), Extension(p));
      FourWords(b, h.machine1, h.machine2, h.machine3, h.machine4);
    } else {
      assert forall i :: 16 <= i < 32 ==> b[i] == b[16..][i - 16];
    }
  }

  lemma FourWords(b: seq<byte>, w: uint32, x: uint32, y: uint32, z: uint32)
    requires |b| >= 32 && b[16..20] == PutU32(w) && b[20..24] == PutU32(x)
    requires b[24..28] == PutU32(y) && b[28..32] == PutU32(z)
    ensures WordAt(b, 16) == w && WordAt(b, 20) == x && WordAt(b, 24) == y && WordAt(b, 28) == z
  {
    hide PutU32, WordAt;
    WordIn(b, 16, w);
    WordIn(b, 20, x);
    WordIn(b, 24, y);
    WordIn(b, 28, z);
  }

  lemma SameWord(b: seq<byte>, i: nat, t: seq<byte>, j: nat)
    requires i + 4 <= |b| && j + 4 <= |t| && b[i..i + 4] == t[j..j + 4]
    ensures WordAt(b, i) == WordAt(t, j)
  {
    var x, y := b[i..i + 4], t[j..j + 4];
    assert x[0] == b[i] && x[1] == b[i + 1] && x[2] == b[i + 2] && x[3] == b[i + 3];
    assert y[0] == t[j] && y[1] == t[j + 1] && y[2] == t[j + 2] && y[3] == t[j + 3];
  }

  /** The clipboard types carry 48 bytes of data, or none and the name; the other 64-byte types carry the name. */
  lemma AreaLayout(p: Packet, i: nat)
    requires i < 48
    ensures var b := MarshalBytes(p);
            && (p.kind in {69, 76, 78, 79, 124, 125} ==>
                  b[16 + i] == match p.clipboardData
                               case Some(d) => if i < |d| then d[i] else 0
                               case None => if i < 16 then 0 else p.machineName[i - 16])
            && (p.kind in {3, 20, 21, 51, 126, 127} || p.kind >= 128 ==>
                  i < 32 ==> b[32 + i] == if p.clipboardData.None? then p.machineName[i] else 0)
  {
    var b := MarshalBytes(p);
    if HasClipboard(p.kind) {
      assert b[16 + i] == ClipArea(p)[i];
    } else if IsBigPacket(p.kind) && i < 32 {
      assert b[32 + i] == Extension(p)[i];
    }
  }

  /** A name is padded with the byte 32 up to 32 bytes. */
  lemma NameLayout(name: seq<byte>, i: nat)
    requires i < 32
    ensures PaddedName(name)[i] == if i < |name| then name[i] else 32
  {
  }

  // ---- Stamp ------------------------------------------------------------------------

  /** Byte 3 is the highest byte of the magic number, byte 2 the next one, byte 1 the sum of bytes 2-31. */
  lemma StampLayout(b: seq<byte>, magic: uint32)
    requires |b| >= 32
    ensures var s := StampBytes(b, magic);
            && |s| == |b| && s[0] == b[0] && s[4..] == b[4..]
            && s[3] == magic / 0x100_0000 && s[2] == magic / 0x1_0000 % 0x100 && s[1] == Sum(s[2..32]) % 0x100
  {
    var s := StampBytes(b, magic);
    assert s[2..32] == (b[..2] + MagicBytes(magic) + b[4..])[2..32];
  }

  /** What a validated packet looks like. */
  predicate Stamped(b: seq<byte>, magic: uint32)
    requires |b| >= 32
  {
    b[3] == magic / 0x100_0000 && b[2] == magic / 0x1_0000 % 0x100 && b[1] == Sum(b[2..32]) % 0x100
  }

  lemma ValidIffStamped(b: seq<byte>, magic: uint32)
    requires |b| >= 32
    ensures Validate(b, magic) == Accepted <==> Stamped(b, magic)
    ensures Validate(b, magic) == MagicMismatch
       <==> b[3] != magic / 0x100_0000 || b[2] != magic / 0x1_0000 % 0x100
  {
    hide Sum;
    assert b[2..4] == [b[2], b[3]];
  }

  // ---- Cipher -----------------------------------------------------------------------

  /** Each bit of the exclusive or is set exactly when the two bits differ. */
  lemma {:induction false} XorBit(a: nat, b: nat, bits: nat, k: nat)
    requires k < bits
    ensures XorBits(a, b, bits) / Pow2(k) % 2 == if a / Pow2(k) % 2 == b / Pow2(k) % 2 then 0 else 1
  {
    var x := XorBits(a, b, bits);
    var rest := XorBits(a / 2, b / 2, bits - 1);
    assert x / 2 == rest;
    if k > 0 {
      XorBit(a / 2, b / 2, bits - 1, k - 1);
      HalfFirst(x, k);
      HalfFirst(a, k);
      HalfFirst(b, k);
    }
  }

  lemma HalfFirst(a: nat, k: nat)
    requires k > 0
    ensures Pow2(k) == 2 * Pow2(k - 1) && a / Pow2(k) == a / 2 / Pow2(k - 1)
  {
    DivTwice(a, Pow2(k - 1));
  }

  lemma DivTwice(a: nat, m: nat)
    requires m > 0
    ensures a / (2 * m) == a / 2 / m
  {
    var q := a / 2 / m;
    assert m * q <= a / 2 < m * q + m;
    assert 2 * m * q == 2 * (m * q);
    assert 2 * m * q <= a < 2 * m * q + 2 * m;
    QuotientIs(a, 2 * m, q);
  }

  lemma QuotientIs(a: nat, d: nat, q: nat)
    requires d > 0 && d * q <= a < d * q + d
    ensures a / d == q
  {
    var p := a / d;
    assert d * p <= a < d * p + d;
    Multiple(d, p, q);
    Multiple(d, q, p);
  }

  lemma Multiple(d: nat, a: nat, b: nat)
    requires d > 0
    ensures a < b ==> d * a + d <= d * b
  {
    if a < b {
      assert d * (a + 1) <= d * b;
    }
  }

  /** The defining equation of decryption, block by block, for any ciphertext. */
  lemma {:induction false} DecryptBlock(c: Cipher, chain: Block, ct: seq<byte>, j: nat)
    requires Aligned(ct) && 16 * (j + 1) <= |ct|
    ensures Decrypt(c, chain, ct)[16 * j..16 * (j + 1)]
         == XorBlock(c.dec(ct[16 * j..16 * (j + 1)]), if j == 0 then chain else ct[16 * (j - 1)..16 * j])
    decreases j
  {
    hide Decrypt, XorBlock;
    DecryptUnfold(c, chain, ct);
    var p, rest := Decrypt(c, chain, ct), Decrypt(c, ct[..16], ct[16..]);
    assert p[16..] == rest;
    if j > 0 {
      DecryptBlock(c, ct[..16], ct[16..], j - 1);
      ShiftedSlice(p, 16, 16 * (j - 1), 16 * j);
      ShiftedSlice(ct, 16, 16 * (j - 1), 16 * j);
      if j > 1 {
        ShiftedSlice(ct, 16, 16 * (j - 2), 16 * (j - 1));
      }
    }
  }

  /** One read asks for the largest number of whole blocks that fits the buffer, or one block when none fits. */
  lemma ReadSizes(len: nat)
    ensures ReadSize(len) % 16 == 0
    ensures if len < 16 then ReadSize(len) == 16 else len - 16 < ReadSize(len) <= len
  {
  }

  /** One read of a stream that carries p and then more: it delivers the first bytes of p, and what the buffer cannot
      hold of its last block is lost. A stream that ends earlier gives an error, and what was left of it is lost. */
  lemma ReadIs(c: Cipher, s: Reader, p: seq<byte>, rest: seq<byte>, len: nat)
    requires c.Lawful() && Encodes(c, s, p + rest) && Aligned(p)
    requires if len < 16 then |p| == 16 else len - 16 < |p| <= len
    ensures ReadStep(c, s, len).0 == Ok(p[..Min(len, |p|)]) && Encodes(c, ReadStep(c, s, len).1, rest)
  {
    ReadSizes(len);
    assert ReadSize(len) == |p|;
    assert (p + rest)[..Min(len, |p|)] == p[..Min(len, |p|)] && (p + rest)[|p|..] == rest;
    hide Encodes, ReadStep, ReadSize, Advance;
    FileTransfer.ReadBody(c, s, p + rest, len);
  }

  lemma ReadsNothing(c: Cipher, s: Reader, len: nat)
    requires |s.input| < if len < 16 then 16 else len - len % 16
    ensures ReadStep(c, s, len).0.Err? && ReadStep(c, s, len).1.input == []
  {
  }

  // ---- Receiving --------------------------------------------------------------------

  /** After the counter has reached 0x7FFFFF00 the next ID is 1; before, it is the next number. */
  lemma NextIds(n: int32)
    ensures IdAfter(n) == if n >= 0x7FFF_FF00 then 1 else n + 1
  {
  }

  /** A batch goes out in its own order, each packet changed in its number only: the numbers are consecutive until
      they start again at 1. */
  lemma {:induction false} NumberedAre(ps: seq<Packet>, lastId: int32, i: nat)
    requires i < |ps| && 0 <= lastId <= 0x7FFF_FF00
    ensures var p := Numbered(ps, lastId)[i];
            && p == ps[i].(id := p.id)
            && p.id == (lastId + i) % 0x7FFF_FF00 + 1
    decreases i
  {
    NextIds(lastId);
    if i > 0 {
      NumberedAre(ps[1..], IdAfter(lastId), i - 1);
    }
  }

  /** A receiver accepts the next packet exactly when it is stamped with its magic number, and then has read 64
      bytes of a big type and 32 of any other. */
  lemma ReceivesIffStamped(c: Cipher, magic: uint32, s: Reader, b: seq<byte>, ext: seq<byte>, rest: seq<byte>)
    requires c.Lawful() && |b| == 32 && |ext| == (if IsBigPacket(b[0]) then 32 else 0)
    requires Encodes(c, s, b + ext + rest)
    ensures Recv(c, magic, s).Ok? <==> Stamped(b, magic)
    ensures Stamped(b, magic) ==>
              && Recv(c, magic, s).value.0 == Decoded(ClearBytes(b) + ext)
              && Encodes(c, Recv(c, magic, s).value.1, rest)
  {
    ValidIffStamped(b, magic);
    hide Encodes, FullRead, Advance, Validate, IsBigPacket, Stamped, ClearBytes, Decoded;
    Assoc(b, ext, rest);
    ReadPrefix(c, s, b, ext + rest);
    if IsBigPacket(b[0]) {
      ReadPrefix(c, Advance(s, 32), ext, rest);
    } else {
      assert ext + rest == rest;
      assert ClearBytes(b) + ext == ClearBytes(b);
    }
  }

  /** A packet whose stamp does not match is refused, whatever follows it. */
  lemma RefusesUnstamped(c: Cipher, magic: uint32, s: Reader, b: seq<byte>, rest: seq<byte>)
    requires c.Lawful() && |b| == 32 && Encodes(c, s, b + rest) && !Stamped(b, magic)
    ensures Recv(c, magic, s).Err?
  {
    ValidIffStamped(b, magic);
    hide Encodes, FullRead, Advance, Validate, Stamped;
    ReadPrefix(c, s, b, rest);
  }

  /** A connection that ends before the whole packet is there gives no packet. */
  lemma RefusesShort(c: Cipher, magic: uint32, s: Reader)
    requires Recv(c, magic, s).Ok?
    ensures 32 <= |s.input|
    ensures IsBigPacket(Recv(c, magic, s).value.0.raw[0]) ==> 64 <= |s.input|
    ensures |Recv(c, magic, s).value.0.raw| == if IsBigPacket(Recv(c, magic, s).value.0.raw[0]) then 64 else 32
  {
    hide Validate, Decrypt, IsBigPacket, UnmarshalBytes, Chained;
    assert RoundUp(32) == 32;
  }

  /** A sent packet with one byte changed on its way is refused exactly when that byte is one of 1-31. */
  lemma RefusesCorruption(c: Cipher, magic: uint32, s: Reader, p: Packet, i: nat, v: byte, rest: seq<byte>)
    requires c.Lawful() && 1 <= i < |WireBytes(p, magic)| && v != WireBytes(p, magic)[i]
    requires Encodes(c, s, WireBytes(p, magic)[i := v] + rest)
    ensures Recv(c, magic, s).Err? <==> i < 32
  {
    var w := WireBytes(p, magic);
    var x := w[i := v];
    var b, ext := x[..32], x[32..];
    CorruptHead(p, magic, i, v);
    assert x == b + ext;
    hide WireBytes, Encodes, Stamped, Recv, Sum;
    if i < 32 {
      Assoc(b, ext, rest);
      RefusesUnstamped(c, magic, s, b, ext + rest);
    } else {
      ReceivesIffStamped(c, magic, s, b, ext, rest);
    }
  }

  lemma CorruptHead(p: Packet, magic: uint32, i: nat, v: byte)
    requires 1 <= i < |WireBytes(p, magic)| && v != WireBytes(p, magic)[i]
    ensures var x := WireBytes(p, magic)[i := v];
            && (Stamped(x[..32], magic) <==> i >= 32)
            && |x[32..]| == if IsBigPacket(x[..32][0]) then 32 else 0
  {
    var w := WireBytes(p, magic);
    WireHead(p, magic);
    var b := w[..32];
    hide Sum, MarshalBytes, Stamped;
    ValidIffStamped(w[i := v][..32], magic);
    assert b[0] == p.kind by {
      hide ClearBytes;
      assert w[0] == MarshalBytes(p)[0];
    }
    if i < 32 {
      assert w[i := v][..32] == b[i := v];
      CorruptionDetected(b, magic, i, v);
    } else {
      assert w[i := v][..32] == b;
    }
  }
}
