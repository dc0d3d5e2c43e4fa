/** UTF-16LE text as the clipboard code encodes and decodes it (clipboard_linux.go);
    sections 2.1 and 2.2 of RFC 2781. Characters are Unicode scalar values. */
module Utf16 {
  import opened Bytes

  const REPLACEMENT := 0xFFFD as char

  /** The 16-bit units of one character. */
  function Units(c: char): (u: seq<uint16>)
    ensures |u| == 1 || |u| == 2
  {
    var r := c as int;
    if r > 0xFFFF then
      [0xD800 + (r - 0x1_0000) / 0x400 % 0x400, 0xDC00 + (r - 0x1_0000) % 0x400]
    else [r]
  }

  function UnitBytes(u: uint16): (b: seq<byte>)
    ensures |b| == 2
  {
    [u % 256, u / 256]
  }

  function UnitsBytes(us: seq<uint16>): (b: seq<byte>)
    ensures |b| == 2 * |us|
  {
    if us == [] then [] else UnitBytes(us[0]) + UnitsBytes(us[1..])
  }

  function Encode(s: string): (b: seq<byte>)
    ensures |b| % 2 == 0
  {
    if s == [] then [] else UnitsBytes(Units(s[0])) + Encode(s[1..])
  }

  function UnitAt(b: seq<byte>, i: nat): uint16
    requires i + 1 < |b|
  {
    b[i] as int + 256 * b[i + 1] as int
  }

  predicate IsHigh(u: uint16) { 0xD800 <= u <= 0xDBFF }
  predicate IsLow(u: uint16) { 0xDC00 <= u <= 0xDFFF }

  function Combine(hi: uint16, lo: uint16): (c: char)
    requires IsHigh(hi) && IsLow(lo)
  {
    ((hi - 0xD800) as int * 0x400 + (lo - 0xDC00) as int + 0x1_0000) as char
  }

  /** A lone unit; a surrogate on its own becomes the replacement character. */
  function Single(u: uint16): char {
    if IsHigh(u) || IsLow(u) then REPLACEMENT else u as char
  }

  /** Decodes units up to a null unit or the end. */
  function DecodeUnits(b: seq<byte>): string
    requires |b| % 2 == 0
    decreases |b|
  {
    if b == [] then []
    else
      var u := UnitAt(b, 0);
      if u == 0 then []
      else if IsHigh(u) && 2 < |b| && IsLow(UnitAt(b, 2)) then [Combine(u, UnitAt(b, 2))] + DecodeUnits(b[4..])
      else [Single(u)] + DecodeUnits(b[2..])
  }

  function EvenPart(b: seq<byte>): (e: seq<byte>)
    ensures |e| % 2 == 0
  {
    if |b| % 2 != 0 then b[..|b| - 1] else b
  }

  function Decode(b: seq<byte>): string {
    DecodeUnits(EvenPart(b))
  }

  method EncodeUTF16LE(s: string) returns (b: seq<byte>)
    ensures b == Encode(s)
  {
    b := [];
    for k := 0 to |s|
      invariant b + Encode(s[k..]) == Encode(s)
    {
      var r := s[k] as int;
      ghost var before := b;
      if r > 0xFFFF {
        r := r - 0x1_0000;
        var hi: uint16 := 0xD800 + r / 0x400 % 0x400;
        var lo: uint16 := 0xDC00 + r % 0x400;
        b := b + UnitBytes(hi);
        b := b + UnitBytes(lo);
        assert UnitsBytes([hi, lo]) == UnitBytes(hi) + UnitBytes(lo) by {
          assert [hi, lo][1..] == [lo];
        }
      } else {
        b := b + UnitBytes(r);
        assert UnitsBytes([r]) == UnitBytes(r);
      }
      assert b == before + UnitsBytes(Units(s[k]));
      assert s[k..][1..] == s[k + 1..];
      Assoc(before, UnitsBytes(Units(s[k])), Encode(s[k + 1..]));
    }
  }

  /** The text still to be decoded at byte i. */
  function DecodeAt(b: seq<byte>, i: nat): string
    requires |b| % 2 == 0 && i % 2 == 0 && i <= |b|
  {
    DecodeUnits(b[i..])
  }

  lemma DecodeEnds(b: seq<byte>)
    requires |b| % 2 == 0
    ensures DecodeAt(b, 0) == DecodeUnits(b) && DecodeAt(b, |b|) == []
  {
    assert b[0..] == b && b[|b|..] == [];
  }

  lemma UnfoldAt(b: seq<byte>, i: nat)
    requires |b| % 2 == 0 && i % 2 == 0 && i < |b|
    ensures i + 2 <= |b| && (i + 2 < |b| ==> i + 4 <= |b|)
    ensures var u := UnitAt(b, i);
            DecodeAt(b, i) ==
              if u == 0 then []
              else if IsHigh(u) && i + 2 < |b| && IsLow(UnitAt(b, i + 2))
              then [Combine(u, UnitAt(b, i + 2))] + DecodeAt(b, i + 4)
              else [Single(u)] + DecodeAt(b, i + 2)
  {
    var rest := b[i..];
    assert UnitAt(rest, 0) == UnitAt(b, i) && rest[2..] == b[i + 2..];
    if i + 2 < |b| {
      assert UnitAt(rest, 2) == UnitAt(b, i + 2) && rest[4..] == b[i + 4..];
    }
  }

  method DecodeUTF16LE(raw: seq<byte>) returns (s: string)
    ensures s == Decode(raw)
  {
    var b := raw;
    if |b| % 2 != 0 {
      b := b[..|b| - 1];
    }
    s := [];
    var i := 0;
    ghost var all := Decode(raw);
    DecodeEnds(b);
    hide DecodeUnits, DecodeAt, Decode, UnitAt, Single, Combine;
    while i < |b|
      invariant 0 <= i <= |b| && i % 2 == 0
      invariant s + DecodeAt(b, i) == all
    {
      UnfoldAt(b, i);
      var u := UnitAt(b, i);
      if u == 0 {
        return;
      }
      ghost var before := s;
      if u >= 0xD800 && u <= 0xDBFF && i + 2 < |b| {
        var lo := UnitAt(b, i + 2);
        if lo >= 0xDC00 && lo <= 0xDFFF {
          s := s + [Combine(u, lo)];
          i := i + 4;
          Assoc(before, [Combine(u, lo)], DecodeAt(b, i));
          continue;
        }
      }
      s := s + [Single(u)];
      i := i + 2;
      Assoc(before, [Single(u)], DecodeAt(b, i));
    }
  }

  // ---- Round trip -------------------------------------------------------------

  lemma DecodeOneUnit(u: uint16, post: seq<byte>)
    requires |post| % 2 == 0 && u != 0 && !IsHigh(u)
    ensures DecodeUnits(UnitBytes(u) + post) == [Single(u)] + DecodeUnits(post)
  {
    var b := UnitBytes(u) + post;
    assert UnitAt(b, 0) == u && b[2..] == post;
  }

  lemma DecodeTwoUnits(hi: uint16, lo: uint16, post: seq<byte>)
    requires |post| % 2 == 0 && IsHigh(hi) && IsLow(lo)
    ensures DecodeUnits(UnitBytes(hi) + UnitBytes(lo) + post) == [Combine(hi, lo)] + DecodeUnits(post)
  {
    var b := UnitBytes(hi) + UnitBytes(lo) + post;
    assert UnitAt(b, 0) == hi && UnitAt(b, 2) == lo && b[4..] == post;
  }

  lemma CombineUnits(c: char)
    requires c as int > 0xFFFF
    ensures var u := Units(c);
            |u| == 2 && IsHigh(u[0]) && IsLow(u[1]) && Combine(u[0], u[1]) == c
  {
    var r := c as int - 0x1_0000;
    assert r / 0x400 < 0x400;
  }

  lemma PairBytes(hi: uint16, lo: uint16)
    ensures UnitsBytes([hi, lo]) == UnitBytes(hi) + UnitBytes(lo)
    ensures UnitsBytes([hi]) == UnitBytes(hi)
  {
    assert [hi, lo][1..] == [lo] && UnitsBytes([lo]) == UnitBytes(lo) + UnitsBytes([]);
  }

  /** Decoding starts with the first encoded character, surrogate pair or not. */
  lemma DecodeChar(c: char, post: seq<byte>)
    requires |post| % 2 == 0 && c as int != 0
    ensures DecodeUnits(UnitsBytes(Units(c)) + post) == [c] + DecodeUnits(post)
  {
    var us := Units(c);
    if c as int > 0xFFFF {
      CombineUnits(c);
      assert us == [us[0], us[1]];
      hide Units, UnitsBytes, DecodeUnits, UnitBytes;
      PairBytes(us[0], us[1]);
      DecodeTwoUnits(us[0], us[1], post);
    } else {
      assert us == [us[0]] && Single(us[0]) == c;
      hide Units, UnitsBytes, DecodeUnits, UnitBytes;
      PairBytes(us[0], us[0]);
      DecodeOneUnit(us[0], post);
    }
  }

  lemma {:induction false} DecodeEncoded(s: string, post: seq<byte>)
    requires |post| % 2 == 0
    requires forall i :: 0 <= i < |s| ==> s[i] as int != 0
    ensures DecodeUnits(Encode(s) + post) == s + DecodeUnits(post)
    decreases |s|
  {
    if s == [] {
      assert Encode(s) + post == post;
    } else {
      var first, rest := UnitsBytes(Units(s[0])), Encode(s[1..]);
      assert Encode(s) == first + rest;
      hide *;
      Assoc(first, rest, post);
      DecodeChar(s[0], rest + post);
      DecodeEncoded(s[1..], post);
      Assoc([s[0]], s[1..], DecodeUnits(post));
      assert s == [s[0]] + s[1..];
    }
  }

  function FirstNul(s: string): (k: nat)
    ensures k <= |s| && (forall i :: 0 <= i < k ==> s[i] as int != 0)
    ensures k < |s| ==> s[k] as int == 0
  {
    if s == [] || s[0] as int == 0 then 0 else 1 + FirstNul(s[1..])
  }

  lemma {:induction false} EncodeConcat(a: string, b: string)
    ensures Encode(a + b) == Encode(a) + Encode(b)
  {
    if a == [] {
      assert a + b == b;
    } else {
      EncodeConcat(a[1..], b);
      assert (a + b)[1..] == a[1..] + b;
      Assoc(UnitsBytes(Units(a[0])), Encode(a[1..]), Encode(b));
    }
  }

  /** From a NUL, or from the trailing zeros when there is none, nothing more is decoded. */
  lemma DecodeTail(tail: string, zeros: nat)
    requires zeros % 2 == 0 && (tail != [] ==> tail[0] as int == 0)
    ensures DecodeUnits(Encode(tail) + Zeros(zeros)) == []
  {
    if tail != [] {
      assert UnitsBytes([0]) == [0, 0] + UnitsBytes([]);
      assert Encode(tail) == UnitsBytes(Units(tail[0])) + Encode(tail[1..]);
      assert UnitAt(Encode(tail) + Zeros(zeros), 0) == 0;
    }
  }

  lemma EvenZeros(b: seq<byte>, zeros: nat)
    requires |b| % 2 == 0
    ensures EvenPart(b + Zeros(zeros)) == b + Zeros(zeros / 2 * 2)
  {
  }

  lemma DecodeSplit(head: string, tail: string, zeros: nat)
    requires zeros % 2 == 0 && (tail != [] ==> tail[0] as int == 0)
    requires forall i :: 0 <= i < |head| ==> head[i] as int != 0
    ensures DecodeUnits(Encode(head + tail) + Zeros(zeros)) == head
  {
    hide *;
    EncodeConcat(head, tail);
    DecodeTail(tail, zeros);
    DecodeEncoded(head, Encode(tail) + Zeros(zeros));
    Assoc(Encode(head), Encode(tail), Zeros(zeros));
  }

  lemma DecodePrefix(s: string, zeros: nat)
    requires zeros % 2 == 0
    ensures DecodeUnits(Encode(s) + Zeros(zeros)) == s[..FirstNul(s)]
  {
    var k := FirstNul(s);
    hide *;
    DecodeSplit(s[..k], s[k..], zeros);
    assert s == s[..k] + s[k..];
  }

  lemma NoNul(s: string)
    ensures s[..FirstNul(s)] == s <==> (forall i :: 0 <= i < |s| ==> s[i] as int != 0)
  {
    hide *;
    assert |s[..FirstNul(s)]| == FirstNul(s);
  }

  /** Decoding an encoded text followed by any number of zero bytes, even an odd one, gives the text up to
      its first NUL: the text itself exactly when it contains none. */
  lemma Utf16RoundTrip(s: string, zeros: nat)
    ensures Decode(Encode(s) + Zeros(zeros)) == s[..FirstNul(s)]
    ensures Decode(Encode(s) + Zeros(zeros)) == s <==> (forall i :: 0 <= i < |s| ==> s[i] as int != 0)
  {
    hide Encode, DecodeUnits, FirstNul, EvenPart;
    EvenZeros(Encode(s), zeros);
    DecodePrefix(s, zeros / 2 * 2);
    NoNul(s);
  }
}
