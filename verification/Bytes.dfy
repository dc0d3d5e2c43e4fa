/** Bytes, fixed-width integers and the little-endian packing the wire formats use. */
module Bytes {
  type byte = x: int | 0 <= x < 256
  type uint16 = x: int | 0 <= x < 0x1_0000
  type int32 = x: int | -0x8000_0000 <= x < 0x8000_0000
  type uint32 = x: int | 0 <= x < 0x1_0000_0000
  type int64 = x: int | -0x8000_0000_0000_0000 <= x < 0x8000_0000_0000_0000

  datatype Option<+T> = None | Some(value: T)

  datatype Result<+T> = Ok(value: T) | Err(error: string)

  function Min(a: int, b: int): int {
    if a < b then a else b
  }

  /** Two's-complement wrap-around of a 32-bit signed result. */
  function Wrap32(x: int): int32 {
    (x + 0x8000_0000) % 0x1_0000_0000 - 0x8000_0000
  }

  /** The same 32 bits read as unsigned, and back. */
  function ToUnsigned32(x: int32): uint32 {
    if x < 0 then x + 0x1_0000_0000 else x
  }

  function ToSigned32(x: uint32): int32 {
    if x < 0x8000_0000 then x else x - 0x1_0000_0000
  }

  function ToUnsigned64(x: int64): nat {
    if x < 0 then x + 0x1_0000_0000_0000_0000 else x
  }

  function ToSigned64(x: nat): int64
    requires x < 0x1_0000_0000_0000_0000
  {
    if x < 0x8000_0000_0000_0000 then x else x - 0x1_0000_0000_0000_0000
  }

  function Zeros(n: nat): (z: seq<byte>)
    ensures |z| == n && forall i :: 0 <= i < n ==> z[i] == 0
  {
    seq(n, _ => 0)
  }

  /** Copies src into buf at offset at, as copy and the PutUint functions do. */
  method PutBytes(buf: array<byte>, at: nat, src: seq<byte>)
    requires at + |src| <= buf.Length
    modifies buf
    ensures buf[..] == old(buf[..at]) + src + old(buf[at + |src|..])
  {
    for i := 0 to |src|
      invariant buf[..at] == old(buf[..at])
      invariant buf[at..at + i] == src[..i]
      invariant buf[at + i..] == old(buf[at + i..])
    {
      buf[at + i] := src[i];
    }
    assert buf[..] == buf[..at] + buf[at..at + |src|] + buf[at + |src|..];
  }

  lemma Assoc<T>(x: seq<T>, y: seq<T>, z: seq<T>)
    ensures x + y + z == x + (y + z)
  {
  }

  lemma TakePrefix<T>(x: seq<T>, y: seq<T>, z: seq<T>)
    ensures (x + y + z)[..|x| + |y|] == x + y
  {
  }

  function Concat<T>(parts: seq<seq<T>>): seq<T> {
    if parts == [] then [] else parts[0] + Concat(parts[1..])
  }

  lemma ConcatAppend<T>(a: seq<seq<T>>, b: seq<seq<T>>)
    ensures Concat(a + b) == Concat(a) + Concat(b)
  {
    if a == [] {
      assert a + b == b;
    } else {
      ConcatAppend(a[1..], b);
      assert (a + b)[1..] == a[1..] + b;
      Assoc(a[0], Concat(a[1..]), Concat(b));
    }
  }

  lemma ConcatSingle<T>(x: seq<T>)
    ensures Concat([x]) == x
  {
    assert Concat([x]) == x + Concat<T>([]);
  }

  lemma ConcatLast<T>(parts: seq<seq<T>>)
    requires parts != []
    ensures Concat(parts) == Concat(parts[..|parts| - 1]) + parts[|parts| - 1]
  {
    var n := |parts| - 1;
    ConcatAppend(parts[..n], [parts[n]]);
    ConcatSingle(parts[n]);
    assert parts == parts[..n] + [parts[n]];
  }

  /** 256 to the power n: the number of values n bytes can hold. */
  function Pow256(n: nat): (p: nat)
    ensures p > 0
  {
    if n == 0 then 1 else 256 * Pow256(n - 1)
  }

  /** The low n bytes of v, least significant first. */
  function PutLE(v: nat, n: nat): (b: seq<byte>)
    ensures |b| == n
  {
    if n == 0 then [] else [v % 256] + PutLE(v / 256, n - 1)
  }

  function GetLE(b: seq<byte>): (v: nat)
    ensures v < Pow256(|b|)
  {
    if b == [] then 0 else b[0] + 256 * GetLE(b[1..])
  }

  lemma {:induction false} GetPut(v: nat, n: nat)
    requires v < Pow256(n)
    ensures GetLE(PutLE(v, n)) == v
  {
    if n > 0 {
      GetPut(v / 256, n - 1);
      assert PutLE(v, n)[1..] == PutLE(v / 256, n - 1);
    }
  }

  lemma {:induction false} PutGet(b: seq<byte>)
    ensures PutLE(GetLE(b), |b|) == b
  {
    if b != [] {
      PutGet(b[1..]);
      assert b == [b[0]] + b[1..];
      assert GetLE(b) % 256 == b[0] && GetLE(b) / 256 == GetLE(b[1..]);
    }
  }

  lemma Pow256Values()
    ensures Pow256(4) == 0x1_0000_0000 && Pow256(8) == 0x1_0000_0000_0000_0000
  {
    assert Pow256(1) == 256;
    assert Pow256(2) == 0x1_0000;
    assert Pow256(3) == 0x100_0000;
    assert Pow256(4) == 0x1_0000_0000;
    assert Pow256(5) == 0x100_0000_0000;
    assert Pow256(6) == 0x1_0000_0000_0000;
    assert Pow256(7) == 0x100_0000_0000_0000;
  }

  function PutU32(v: uint32): (b: seq<byte>) ensures |b| == 4 {
    PutLE(v, 4)
  }

  function GetU32(b: seq<byte>): uint32 requires |b| == 4 {
    Pow256Values();
    GetLE(b)
  }

  function PutI32(v: int32): (b: seq<byte>) ensures |b| == 4 {
    PutLE(ToUnsigned32(v), 4)
  }

  function GetI32(b: seq<byte>): int32 requires |b| == 4 {
    ToSigned32(GetU32(b))
  }

  function PutI64(v: int64): (b: seq<byte>) ensures |b| == 8 {
    PutLE(ToUnsigned64(v), 8)
  }

  function GetI64(b: seq<byte>): int64 requires |b| == 8 {
    Pow256Values();
    ToSigned64(GetLE(b))
  }

  lemma U32RoundTrip(v: uint32)
    ensures GetU32(PutU32(v)) == v
  {
    Pow256Values();
    GetPut(v, 4);
  }

  lemma I32RoundTrip(v: int32)
    ensures GetI32(PutI32(v)) == v
  {
    U32RoundTrip(ToUnsigned32(v));
  }

  lemma I64RoundTrip(v: int64)
    ensures GetI64(PutI64(v)) == v
  {
    Pow256Values();
    GetPut(ToUnsigned64(v), 8);
  }

  lemma U32BytesRoundTrip(b: seq<byte>)
    requires |b| == 4
    ensures PutU32(GetU32(b)) == b && PutI32(GetI32(b)) == b
  {
    PutGet(b);
  }

  lemma I64BytesRoundTrip(b: seq<byte>)
    requires |b| == 8
    ensures PutI64(GetI64(b)) == b
  {
    Pow256Values();
    PutGet(b);
  }

  /** Bitwise exclusive or of two bytes, bit by bit from the least significant. */
  function XorBits(a: nat, b: nat, bits: nat): (r: nat)
  {
    if bits == 0 then 0
    else (if a % 2 == b % 2 then 0 else 1) + 2 * XorBits(a / 2, b / 2, bits - 1)
  }

  function Pow2(n: nat): (p: nat)
    ensures p > 0
  {
    if n == 0 then 1 else 2 * Pow2(n - 1)
  }

  lemma {:induction false} XorBitsBound(a: nat, b: nat, bits: nat)
    ensures XorBits(a, b, bits) < Pow2(bits)
  {
    if bits > 0 {
      XorBitsBound(a / 2, b / 2, bits - 1);
    }
  }

  lemma {:induction false} XorBitsCancel(a: nat, b: nat, bits: nat)
    requires a < Pow2(bits)
    ensures XorBits(XorBits(a, b, bits), b, bits) == a
  {
    if bits > 0 {
      XorBitsCancel(a / 2, b / 2, bits - 1);
      XorStep(a, b, bits);
      XorStep(XorBits(a, b, bits), b, bits);
      hide *;
    }
  }

  /** The lowest bit and the others. */
  lemma XorStep(a: nat, b: nat, bits: nat)
    requires bits > 0
    ensures var x := XorBits(a, b, bits);
            x % 2 == (if a % 2 == b % 2 then 0 else 1) && x / 2 == XorBits(a / 2, b / 2, bits - 1)
  {
    var bit, rest := if a % 2 == b % 2 then 0 else 1, XorBits(a / 2, b / 2, bits - 1);
    assert XorBits(a, b, bits) == bit + 2 * rest;
    hide *;
  }

  function Xor(a: byte, b: byte): byte {
    XorBitsBound(a, b, 8);
    assert Pow2(8) == 256 by { assert Pow2(4) == 16; assert Pow2(6) == 64; }
    XorBits(a, b, 8)
  }

  lemma XorCancel(a: byte, b: byte)
    ensures Xor(Xor(a, b), b) == a
  {
    assert Pow2(8) == 256 by { assert Pow2(4) == 16; assert Pow2(6) == 64; }
    XorBitsCancel(a, b, 8);
  }
}
