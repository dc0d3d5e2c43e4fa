/** The magic number and checksum stamped into bytes 1-3 of every packet (crypto.go). */
module Stamp {
  import opened Bytes
  import opened PackageTypes

  function Sum(b: seq<byte>): nat {
    if b == [] then 0 else Sum(b[..|b| - 1]) + b[|b| - 1]
  }

  /** The 8-bit sum of bytes 2-31, whatever the size of the packet. */
  function Checksum(b: seq<byte>): byte
    requires |b| >= PACKET_SIZE
  {
    Sum(b[2..PACKET_SIZE]) % 256
  }

  /** The two high bytes of the magic number, as bytes 2 and 3 carry them. */
  function MagicBytes(magic: uint32): (b: seq<byte>)
    ensures |b| == 2
  {
    [magic / 0x1_0000 % 256, magic / 0x100_0000]
  }

  function StampBytes(b: seq<byte>, magic: uint32): (s: seq<byte>)
    requires |b| >= PACKET_SIZE
    ensures |s| == |b| && s[0] == b[0] && s[4..] == b[4..]
  {
    var m := b[..2] + MagicBytes(magic) + b[4..];
    m[1 := Checksum(m)]
  }

  function ClearBytes(b: seq<byte>): (s: seq<byte>)
    requires |b| >= 4
    ensures |s| == |b|
  {
    [b[0], 0, 0, 0] + b[4..]
  }

  datatype Verdict = Accepted | MagicMismatch | ChecksumMismatch

  function Validate(b: seq<byte>, magic: uint32): Verdict
    requires |b| >= PACKET_SIZE
  {
    if b[2..4] != MagicBytes(magic) then MagicMismatch
    else if b[1] != Checksum(b) then ChecksumMismatch
    else Accepted
  }

  lemma SumStep(b: seq<byte>, i: nat)
    requires 2 <= i < |b|
    ensures Sum(b[2..i + 1]) % 256 == (Sum(b[2..i]) % 256 + b[i]) % 256
  {
    assert b[2..i + 1][..i - 2] == b[2..i];
  }

  lemma MagicCompare(lo: byte, hi: byte, magic: uint32)
    ensures hi as int * 0x100_0000 + lo as int * 0x1_0000 == magic / 0x1_0000 * 0x1_0000
       <==> [lo, hi] == MagicBytes(magic)
  {
    var m := MagicBytes(magic);
    assert magic / 0x1_0000 == m[1] as int * 256 + m[0] as int;
    assert [lo, hi] == m <==> lo == m[0] && hi == m[1];
  }

  method StampPacket(buf: array<byte>, magic: uint32)
    requires buf.Length >= PACKET_SIZE
    modifies buf
    ensures buf[..] == StampBytes(old(buf[..]), magic)
  {
    buf[3] := magic / 0x100_0000;
    buf[2] := magic / 0x1_0000 % 256;
    ghost var m := old(buf[..2]) + MagicBytes(magic) + old(buf[4..]);
    buf[1] := 0;
    assert m[2..2] == [] && Sum(m[2..2]) == 0;
    for i := 2 to PACKET_SIZE
      invariant buf[1] == Sum(m[2..i]) % 256
      invariant buf[..] == m[1 := buf[1]]
    {
      hide Sum;
      SumStep(m, i);
      buf[1] := (buf[1] as int + buf[i] as int) % 256;
    }
  }

  method ValidatePacket(buf: array<byte>, magic: uint32) returns (v: Verdict)
    requires buf.Length >= PACKET_SIZE
    ensures v == Validate(buf[..], magic)
  {
    ghost var b := buf[..];
    MagicCompare(b[2], b[3], magic);
    assert b[2..4] == [b[2], b[3]];
    hide MagicBytes;
    var wireMagic := buf[3] as int * 0x100_0000 + buf[2] as int * 0x1_0000;
    var expectedMagic := magic / 0x1_0000 * 0x1_0000;
    if wireMagic != expectedMagic {
      return MagicMismatch;
    }
    var checksum: byte := 0;
    assert b[2..2] == [] && Sum(b[2..2]) == 0;
    for i := 2 to PACKET_SIZE
      invariant checksum == Sum(b[2..i]) % 256
    {
      hide Sum;
      SumStep(b, i);
      checksum := (checksum as int + buf[i] as int) % 256;
    }
    v := if buf[1] != checksum then ChecksumMismatch else Accepted;
  }

  method ClearStamp(buf: array<byte>)
    requires buf.Length >= 4
    modifies buf
    ensures buf[..] == ClearBytes(old(buf[..]))
  {
    buf[1] := 0;
    buf[2] := 0;
    buf[3] := 0;
  }

  /** A stamped packet is accepted under exactly the magic numbers that agree in their top 16 bits, and
      clearing the stamp restores the marshalled buffer. */
  lemma StampRoundTrip(b: seq<byte>, magic: uint32, other: uint32)
    requires |b| >= PACKET_SIZE
    ensures Validate(StampBytes(b, magic), other) == Accepted <==> magic / 0x1_0000 == other / 0x1_0000
    ensures Validate(StampBytes(b, magic), other) != ChecksumMismatch
    ensures ClearBytes(StampBytes(b, magic)) == b <==> b[1..4] == [0, 0, 0]
  {
    var s := StampBytes(b, magic);
    assert s[2..4] == MagicBytes(magic);
    assert s[2..PACKET_SIZE] == (b[..2] + MagicBytes(magic) + b[4..])[2..PACKET_SIZE];
    assert MagicBytes(magic) == MagicBytes(other) <==> magic / 0x1_0000 == other / 0x1_0000 by {
      assert magic / 0x1_0000 == MagicBytes(magic)[0] as int + 256 * MagicBytes(magic)[1] as int;
      assert other / 0x1_0000 == MagicBytes(other)[0] as int + 256 * MagicBytes(other)[1] as int;
    }
    assert b == [b[0]] + b[1..4] + b[4..];
    assert ClearBytes(s) == [b[0]] + [0, 0, 0] + b[4..];
    assert ClearBytes(s)[1..4] == [0, 0, 0];
  }

  lemma {:induction false} SumUpdate(b: seq<byte>, i: nat, v: byte)
    requires i < |b|
    ensures Sum(b[i := v]) == Sum(b) - b[i] + v
  {
    var n := |b| - 1;
    if i < n {
      SumUpdate(b[..n], i, v);
      assert b[i := v][..n] == b[..n][i := v];
    } else {
      assert b[i := v][..n] == b[..n];
    }
  }

  /** Changing one byte of an accepted packet is noticed exactly for bytes 1-31: the type byte and the
      extension are not protected. */
  lemma CorruptionDetected(b: seq<byte>, magic: uint32, i: nat, v: byte)
    requires |b| >= PACKET_SIZE && Validate(b, magic) == Accepted
    requires i < |b| && v != b[i]
    ensures Validate(b[i := v], magic) != Accepted <==> 1 <= i < PACKET_SIZE
  {
    var c := b[i := v];
    if i < 2 || i >= PACKET_SIZE {
      assert c[2..PACKET_SIZE] == b[2..PACKET_SIZE];
      assert c[2..4] == b[2..4];
    } else {
      assert c[2..PACKET_SIZE] == b[2..PACKET_SIZE][i - 2 := v];
      SumUpdate(b[2..PACKET_SIZE], i - 2, v);
    }
  }
}
