/** A file sent over the clipboard channel: a 1024-byte header, then the content padded to whole cipher
    blocks (filetransfer_linux.go). */
module FileTransfer {
  import opened Bytes
  import opened Stream
  import Utf16

  const HEADER_SIZE := 1024
  const MAX_FILE_SIZE := 100 * 1024 * 1024
  const BUF_SIZE := 64 * 1024
  const COPY_BUFFER := 32 * 1024

  // ---- The header -----------------------------------------------------------------

  predicate IsDigit(c: char) { '0' <= c <= '9' }

  function Decimal(n: nat): (s: string)
    ensures s != "" && forall i :: 0 <= i < |s| ==> IsDigit(s[i])
  {
    if n < 10 then [(n + 48) as char] else Decimal(n / 10) + [(n % 10 + 48) as char]
  }

  function Value(s: string): nat
    requires forall i :: 0 <= i < |s| ==> IsDigit(s[i])
  {
    if s == "" then 0
    else
      var last := s[|s| - 1];
      assert IsDigit(last);
      10 * Value(s[..|s| - 1]) + (last as int - '0' as int)
  }

  predicate AllDigits(s: string) {
    s != "" && forall i :: 0 <= i < |s| ==> IsDigit(s[i])
  }

  /** A 64-bit decimal integer with an optional sign. */
  function ParseInt(s: string): Option<int> {
    var digits := if s != "" && (s[0] == '+' || s[0] == '-') then s[1..] else s;
    if !AllDigits(digits) then None
    else
      var v: int := if s[0] == '-' then 0 - Value(digits) as int else Value(digits) as int;
      if -0x8000_0000_0000_0000 <= v < 0x8000_0000_0000_0000 then Some(v) else None
  }

  lemma {:induction false} DecimalValue(n: nat)
    ensures Value(Decimal(n)) == n
  {
    if n < 10 {
      assert Decimal(n)[..0] == "";
    } else {
      DecimalValue(n / 10);
      assert Decimal(n)[..|Decimal(n)| - 1] == Decimal(n / 10);
    }
  }

  lemma ParseDecimal(n: nat)
    ensures ParseInt(Decimal(n)) == if n < 0x8000_0000_0000_0000 then Some(n) else None
  {
    DecimalValue(n);
    assert IsDigit(Decimal(n)[0]);
  }

  function HeaderText(size: nat, path: string): string {
    Decimal(size) + "*" + path
  }

  /** The text in UTF-16LE, cut or zero-padded to 1024 bytes. */
  function HeaderBytes(size: nat, path: string): (b: seq<byte>)
    ensures |b| == HEADER_SIZE
  {
    var e := Utf16.Encode(HeaderText(size, path));
    e[..Min(|e|, HEADER_SIZE)] + Zeros(HEADER_SIZE - Min(|e|, HEADER_SIZE))
  }

  function IndexOf(s: string, c: char): (i: nat)
    ensures i <= |s| && (i < |s| ==> s[i] == c) && forall j :: 0 <= j < i ==> s[j] != c
  {
    if s == "" || s[0] == c then 0 else 1 + IndexOf(s[1..], c)
  }

  /** Lower case as far as it matters for the two prefixes: the dotted capital I also becomes an i. */
  function Lower(c: char): char {
    if 'A' <= c <= 'Z' then (c as int + 32) as char
    else if c as int == 0x130 then 'i'
    else c
  }

  predicate LowerPrefix(s: string, prefix: string) {
    |prefix| <= |s| && forall i :: 0 <= i < |prefix| ==> Lower(s[i]) == prefix[i]
  }

  /** Names by which the peer announces a text or an image instead of a file. */
  predicate NamesInBand(name: string) {
    LowerPrefix(name, "text") || LowerPrefix(name, "image")
  }

  datatype Header = FileHeader(size: nat, name: string) | InBand | BadHeader

  function TrimNuls(s: string): string {
    if s != "" && s[|s| - 1] as int == 0 then TrimNuls(s[..|s| - 1]) else s
  }

  function ParseHeader(b: seq<byte>): Header {
    var text := TrimNuls(Utf16.Decode(b));
    var star := IndexOf(text, '*');
    if star == |text| then BadHeader
    else
      match ParseInt(text[..star])
      case None => BadHeader
      case Some(size) =>
        var name := text[star + 1..];
        if NamesInBand(name) then InBand
        else if size <= 0 || size > MAX_FILE_SIZE then BadHeader
        else FileHeader(size, name)
  }

  lemma {:induction false} DecodeHasNoNul(b: seq<byte>)
    requires |b| % 2 == 0
    ensures forall i :: 0 <= i < |Utf16.DecodeUnits(b)| ==> Utf16.DecodeUnits(b)[i] as int != 0
    decreases |b|
  {
    if b != [] {
      DecodeHasNoNul(b[2..]);
      if |b| >= 4 {
        DecodeHasNoNul(b[4..]);
      }
    }
  }

  lemma {:induction false} DecodeIsNoLonger(b: seq<byte>)
    requires |b| % 2 == 0
    ensures |Utf16.Encode(Utf16.DecodeUnits(b))| <= |b|
    decreases |b|
  {
    hide Utf16.UnitsBytes, Utf16.Units, Utf16.Single, Utf16.Combine, Utf16.UnitAt;
    if b != [] {
      OneUnit(Utf16.UnitAt(b, 0));
      DecodeIsNoLonger(b[2..]);
      if |b| >= 4 {
        DecodeIsNoLonger(b[4..]);
      }
    }
  }

  lemma OneUnit(u: uint16)
    ensures |Utf16.Units(Utf16.Single(u))| == 1
  {
  }

  lemma DecodeEven(b: seq<byte>)
    requires |b| % 2 == 0
    ensures Utf16.Decode(b) == Utf16.DecodeUnits(b)
  {
  }

  /** What the receiver decodes after the star, and that it is the path only if the path fits. */
  lemma HeaderDecodes(size: nat, path: string) returns (rest: string)
    requires |Utf16.Encode(Decimal(size) + "*")| <= HEADER_SIZE
    ensures Utf16.Decode(HeaderBytes(size, path)) == Decimal(size) + "*" + rest
    ensures forall i :: 0 <= i < |rest| ==> rest[i] as int != 0
    ensures |Utf16.Encode(HeaderText(size, path))| <= HEADER_SIZE ==> rest == path[..Utf16.FirstNul(path)]
    ensures |Utf16.Encode(HeaderText(size, path))| > HEADER_SIZE ==> rest != path
  {
    hide Utf16.Decode, Utf16.DecodeUnits, Utf16.Encode, Decimal, Utf16.FirstNul;
    var first := Decimal(size) + "*";
    var a, b := Utf16.Encode(first), Utf16.Encode(path);
    Utf16.EncodeConcat(first, path);
    var post := if |a + b| <= HEADER_SIZE then b + Zeros(HEADER_SIZE - |a + b|) else b[..HEADER_SIZE - |a|];
    assert HeaderBytes(size, path) == a + post;
    rest := Utf16.DecodeUnits(post);
    Utf16.DecodeEncoded(first, post);
    DecodeEven(a + post);
    DecodeHasNoNul(post);
    DecodeIsNoLonger(post);
    if |a + b| <= HEADER_SIZE {
      Utf16.DecodePrefix(path, HEADER_SIZE - |a + b|);
    }
  }

  function Pow10(k: nat): nat {
    if k == 0 then 1 else 10 * Pow10(k - 1)
  }

  lemma {:induction false} DecimalDigits(n: nat, k: nat)
    requires 0 < k && n < Pow10(k)
    ensures |Decimal(n)| <= k
  {
    if n >= 10 {
      DecimalDigits(n / 10, k - 1);
    }
  }

  lemma {:induction false} EncodeAscii(s: string)
    requires forall i :: 0 <= i < |s| ==> s[i] < 128 as char
    ensures |Utf16.Encode(s)| == 2 * |s|
  {
    if s != "" {
      EncodeAscii(s[1..]);
    }
  }

  /** The part of the header before the path is short. */
  lemma SizeFits(size: nat)
    requires size <= MAX_FILE_SIZE
    ensures |Utf16.Encode(Decimal(size) + "*")| <= HEADER_SIZE
  {
    assert Pow10(3) == 1000 && Pow10(6) == 1000000 && Pow10(9) == 1000000000;
    DecimalDigits(size, 9);
    EncodeAscii(Decimal(size) + "*");
  }

  lemma FirstStar(digits: string, rest: string)
    requires AllDigits(digits)
    ensures IndexOf(digits + "*" + rest, '*') == |digits|
  {
    var s := digits + "*" + rest;
    assert s[|digits|] == '*';
    forall j | 0 <= j < |digits| ensures s[j] != '*' {
      assert s[j] == digits[j];
    }
  }

  /** What parsing makes of a decoded header text. */
  lemma ParseText(size: nat, rest: string, b: seq<byte>)
    requires size <= MAX_FILE_SIZE && Utf16.Decode(b) == Decimal(size) + "*" + rest
    requires forall i :: 0 <= i < |rest| ==> rest[i] as int != 0
    ensures ParseHeader(b)
         == if NamesInBand(rest) then InBand else if size == 0 then BadHeader else FileHeader(size, rest)
  {
    var d := Decimal(size);
    var text := d + "*" + rest;
    assert text[|text| - 1] as int != 0;
    assert TrimNuls(text) == text;
    FirstStar(d, rest);
    ParseDecimal(size);
    assert text[..|d|] == d && text[|d| + 1..] == rest;
  }

  predicate HeaderOk(size: nat, path: string) {
    && 1 <= size <= 104857600
    && |Utf16.Encode(HeaderText(size, path))| <= 1024
    && (forall i :: 0 <= i < |path| ==> path[i] as int != 0)
    && !NamesInBand(path)
  }

  /** The header parses back to the size and the path exactly when the size is in range, the text fits in
      1024 bytes, the path has no NUL and does not read as a text or image announcement. */
  lemma HeaderRoundTrip(size: nat, path: string)
    ensures ParseHeader(HeaderBytes(size, path)) == FileHeader(size, path) <==> HeaderOk(size, path)
  {
    hide Utf16.Encode, HeaderBytes, HeaderText, Decimal, NamesInBand, Utf16.FirstNul;
    var b := HeaderBytes(size, path);
    if 1 <= size <= MAX_FILE_SIZE {
      SizeFits(size);
      var rest := HeaderDecodes(size, path);
      ParseText(size, rest, b);
      Utf16.NoNul(path);
      hide ParseHeader;
    } else {
      ParsedSizeInRange(b);
    }
  }

  lemma ParsedSizeInRange(b: seq<byte>)
    ensures ParseHeader(b).FileHeader? ==> 1 <= ParseHeader(b).size <= MAX_FILE_SIZE
  {
  }

  // ---- Sending the content -----------------------------------------------------------

  /** The content, zero-padded to whole blocks. */
  function PaddedBody(body: seq<byte>): (b: seq<byte>)
    ensures Aligned(b)
  {
    body + Zeros(RoundUp(|body|) - |body|)
  }

  /** io.ReadFull on an opened file at position pos: fills buf[..len], as far as the content goes. */
  method ReadFile(content: seq<byte>, pos: nat, buf: array<byte>, len: nat) returns (n: nat, eof: bool)
    requires pos <= |content| && 0 < len <= buf.Length
    modifies buf
    ensures n == Min(len, |content| - pos) && (eof <==> n == 0)
    ensures buf[..n] == content[pos..pos + n]
  {
    n := Min(len, |content| - pos);
    PutBytes(buf, 0, content[pos..pos + n]);
    eof := n == 0;
  }

  method ZeroFill(buf: array<byte>, from: nat, count: nat)
    requires from + count <= buf.Length
    modifies buf
    ensures buf[..from] == old(buf[..from])
    ensures buf[..from + count] == old(buf[..from]) + Zeros(count)
  {
    for i := 0 to count
      invariant buf[..from + i] == old(buf[..from]) + Zeros(i)
    {
      buf[from + i] := 0;
      assert buf[..from + i + 1] == buf[..from + i] + [0];
    }
  }

  /** What has been written once the first pos of size bytes have been read. */
  function SentBody(content: seq<byte>, size: nat, pos: nat): seq<byte>
    requires pos <= size && pos <= |content|
  {
    if pos < size then content[..pos] else PaddedBody(content[..size])
  }

  function BodyBlock(content: seq<byte>, size: nat, pos: nat, n: nat): seq<byte>
    requires pos + n <= size && pos + n <= |content|
  {
    content[pos..pos + n] + Zeros(if pos + n == size then RoundUp(size) - size else 0)
  }

  lemma SendProgress(content: seq<byte>, size: nat, pos: nat, n: nat)
    requires 0 < n && pos + n <= size && pos + n <= |content|
    ensures SentBody(content, size, pos + n) == SentBody(content, size, pos) + BodyBlock(content, size, pos, n)
  {
    assert content[..pos + n] == content[..pos] + content[pos..pos + n];
  }

  /** Only a file that shrinks while it is read gives the writer a block it refuses. */
  lemma BlockSizes(content: seq<byte>, size: nat, pos: nat, n: nat, pad: nat)
    requires pos % BLOCK == 0 && 0 < n <= BUF_SIZE && pos + n <= size && pos + n <= |content|
    requires pad == if pos + n == size && n % BLOCK != 0 then BLOCK - n % BLOCK else 0
    ensures n + pad <= BUF_SIZE
    ensures (n + pad) % BLOCK == 0 <==> pos + n == size || n % BLOCK == 0
    ensures BodyBlock(content, size, pos, n) == content[pos..pos + n] + Zeros(pad)
    ensures pos + n < size && n % BLOCK == 0 ==> (pos + n) % BLOCK == 0
    ensures n % BLOCK != 0 ==> n < BUF_SIZE
  {
    PaddingOf(pos, n);
    hide RoundUp;
  }

  lemma PaddingOf(pos: nat, n: nat)
    requires pos % BLOCK == 0
    ensures RoundUp(pos + n) - (pos + n) == if n % BLOCK == 0 then 0 else BLOCK - n % BLOCK
    ensures (pos + n) % BLOCK == n % BLOCK
  {
  }

  /** Sends the header and the content of a file that stat reports to be size bytes long. It succeeds exactly
      when the path is not empty and the file still has that many bytes. */
  method SendFileStream(enc: EncryptWriter, path: string, size: nat, content: seq<byte>) returns (ok: bool)
    requires enc.Valid()
    modifies enc
    ensures enc.Valid()
    ensures ok <==> path != "" && size <= |content|
    ensures ok ==> enc.plain == old(enc.plain) + HeaderBytes(size, path) + PaddedBody(content[..size])
  {
    if path == "" {
      return false;
    }
    var header := new byte[HEADER_SIZE](_ => 0);
    var e := Utf16.EncodeUTF16LE(HeaderText(size, path));
    PutBytes(header, 0, e[..Min(|e|, HEADER_SIZE)]);
    assert header[..] == HeaderBytes(size, path);
    hide HeaderBytes, EncryptWriter.Valid, PaddedBody, Utf16.Encode;
    var w := enc.Write(header[..]);
    ok := SendBody(enc, size, content);
  }

  /** One turn of the block loop: reads the next block of the file and writes it, padded if it is the last. */
  method SendBlock(enc: EncryptWriter, size: nat, content: seq<byte>, pos: nat, buf: array<byte>)
    returns (n: nat, ok: bool)
    requires enc.Valid() && buf.Length == BUF_SIZE
    requires pos < size && pos <= |content| && pos % BLOCK == 0
    modifies enc, buf
    ensures enc.Valid()
    ensures ok ==> 0 < n && pos + n <= size && pos + n <= |content|
    ensures ok && pos + n < size ==> (pos + n) % BLOCK == 0
    ensures ok ==> enc.plain == old(enc.plain) + BodyBlock(content, size, pos, n)
    ensures !ok ==> |content| < size
  {
    hide EncryptWriter.Valid;
    var toRead := if BUF_SIZE > size - pos then size - pos else BUF_SIZE;
    var eof;
    n, eof := ReadFile(content, pos, buf, toRead);
    if eof {
      return n, false;
    }
    var w := n;
    if pos + n == size && w % 16 != 0 {
      var pad := 16 - w % 16;
      ZeroFill(buf, w, pad);
      w := w + pad;
    }
    BlockSizes(content, size, pos, n, w - n);
    assert buf[..w] == content[pos..pos + n] + Zeros(w - n);
    hide BodyBlock;
    var r := enc.Write(buf[..w]);
    ok := r.Ok?;
  }

  /** The block loop, which reuses one buffer and pads only the last block. */
  method SendBody(enc: EncryptWriter, size: nat, content: seq<byte>) returns (ok: bool)
    requires enc.Valid()
    modifies enc
    ensures enc.Valid()
    ensures ok <==> size <= |content|
    ensures ok ==> enc.plain == old(enc.plain) + PaddedBody(content[..size])
  {
    var buf := new byte[BUF_SIZE](_ => 0);
    var remaining := size;
    assert SentBody(content, size, 0) == [];
    ghost var base := enc.plain;
    while remaining > 0
      invariant 0 <= remaining <= size && size - remaining <= |content|
      invariant enc.Valid()
      invariant remaining > 0 ==> (size - remaining) % BLOCK == 0
      invariant enc.plain == base + SentBody(content, size, size - remaining)
      decreases remaining
    {
      hide EncryptWriter.Valid, SentBody, PaddedBody, BodyBlock;
      ghost var pos := size - remaining;
      var n, sent := SendBlock(enc, size, content, size - remaining, buf);
      if !sent {
        return false;
      }
      remaining := remaining - n;
      SendProgress(content, size, pos, n);
      Assoc(base, SentBody(content, size, pos), BodyBlock(content, size, pos, n));
    }
    ok := true;
  }

  // ---- Receiving the content ------------------------------------------------------------

  /** io.CopyN through a buffer of bufLen bytes, dst having been copied already: each read asks for at most
      the bytes still missing. */
  function CopyFrom(c: Cipher, s: Reader, size: nat, bufLen: nat, dst: seq<byte>): Option<(seq<byte>, Reader)>
    requires bufLen > 0 && |dst| <= size
    decreases size - |dst|
  {
    if |dst| == size then Some((dst, s))
    else
      match ReadStep(c, s, Min(bufLen, size - |dst|))
      case (Err(_), _) => None
      case (Ok(data), t) => if data == [] then None else CopyFrom(c, t, size, bufLen, dst + data)
  }

  function CopyN(c: Cipher, s: Reader, size: nat, bufLen: nat): Option<(seq<byte>, Reader)>
    requires bufLen > 0
  {
    CopyFrom(c, s, size, bufLen, [])
  }

  /** The buffer io.CopyN uses: 32 KB, or the size of the file if that is smaller. */
  function CopyBufferSize(size: nat): (b: nat)
    requires size > 0
    ensures 0 < b && (b >= BLOCK || size <= b)
  {
    Min(size, COPY_BUFFER)
  }

  /** One Read into the start of buf, returning the bytes it delivered. */
  method ReadInto(dec: DecryptReader, buf: array<byte>, len: nat) returns (data: seq<byte>, ok: bool)
    requires len <= buf.Length
    modifies dec, buf
    ensures dec.State() == ReadStep(dec.cipher, old(dec.State()), len).1
    ensures match ReadStep(dec.cipher, old(dec.State()), len).0
            case Err(_) => !ok
            case Ok(d) => ok && data == d && |data| <= len
  {
    hide ReadStep;
    var r := dec.Read(buf, 0, len);
    match r
    case Err(_) => data, ok := [], false;
    case Ok(n) => data, ok := buf[..n], true;
  }

  /** Receives a file body, as the loop of io.CopyN does. */
  method CopyBody(dec: DecryptReader, size: nat, bufLen: nat) returns (ok: bool, dst: seq<byte>)
    requires bufLen > 0
    modifies dec
    ensures var r := CopyN(dec.cipher, old(dec.State()), size, bufLen);
            && (ok <==> r.Some?)
            && (ok ==> r.value == (dst, dec.State()))
  {
    hide ReadStep;
    dst := [];
    var buf := new byte[bufLen];
    while |dst| < size
      invariant |dst| <= size
      invariant CopyFrom(dec.cipher, dec.State(), size, bufLen, dst)
             == CopyN(dec.cipher, old(dec.State()), size, bufLen)
      decreases size - |dst|
    {
      var data, readOk := ReadInto(dec, buf, Min(bufLen, size - |dst|));
      if !readOk || data == [] {
        return false, dst;
      }
      dst := dst + data;
    }
    ok := true;
  }

  /** Reading at most len bytes of an encrypted body takes whole blocks of it. */
  lemma ReadBody(c: Cipher, s: Reader, p: seq<byte>, len: nat)
    requires c.Lawful() && Encodes(c, s, p) && ReadSize(len) <= |p|
    ensures ReadStep(c, s, len) == (Ok(p[..Min(ReadSize(len), len)]), Advance(s, ReadSize(len)))
    ensures Encodes(c, Advance(s, ReadSize(len)), p[ReadSize(len)..])
  {
    hide Decrypt, ReadSize, Encodes;
    var n := ReadSize(len);
    EncodesSuffix(c, s, p, n);
    assert p[..n][..Min(n, len)] == p[..Min(n, len)];
    InputLength(c, s, p);
  }

  lemma InputLength(c: Cipher, s: Reader, p: seq<byte>)
    requires Encodes(c, s, p)
    ensures |s.input| == |p|
  {
  }

  /** A buffer that never cuts a block short, other than the last one, copies the body and swallows the padding. */
  lemma {:induction false} CopyExact(c: Cipher, s: Reader, body: seq<byte>, done: nat, rest: seq<byte>, bufLen: nat)
    requires c.Lawful() && done <= |body| && Encodes(c, s, PaddedBody(body[done..]) + rest)
    requires bufLen > 0 && (bufLen >= BLOCK || |body| <= bufLen)
    ensures var r := CopyFrom(c, s, |body|, bufLen, body[..done]);
            r.Some? && r.value.0 == body && Encodes(c, r.value.1, rest)
    decreases |body| - done
  {
    hide PaddedBody, Encodes, ReadStep;
    if done == |body| {
      NothingLeft(body, rest);
    } else {
      var k, t := CopyExactStep(c, s, body[done..], rest, bufLen);
      assert body[done..][..k] == body[done..done + k] && body[..done + k] == body[..done] + body[done..done + k];
      assert body[done..][k..] == body[done + k..];
      CopyExact(c, t, body, done + k, rest, bufLen);
    }
  }

  lemma NothingLeft(body: seq<byte>, rest: seq<byte>)
    ensures body[..|body|] == body && PaddedBody(body[|body|..]) + rest == rest
  {
    assert PaddedBody([]) == [];
  }

  lemma CopyExactStep(c: Cipher, s: Reader, todo: seq<byte>, rest: seq<byte>, bufLen: nat) returns (k: nat, t: Reader)
    requires c.Lawful() && Encodes(c, s, PaddedBody(todo) + rest)
    requires todo != [] && bufLen > 0 && (bufLen >= BLOCK || |todo| <= bufLen)
    ensures 0 < k <= |todo| && Encodes(c, t, PaddedBody(todo[k..]) + rest)
    ensures ReadStep(c, s, Min(bufLen, |todo|)) == (Ok(todo[..k]), t)
  {
    var p := PaddedBody(todo) + rest;
    var len := Min(bufLen, |todo|);
    var n := ReadSize(len);
    k, t := Min(n, len), Advance(s, n);
    CopyStep(|todo|, bufLen);
    PaddedTail(todo, k, n, rest);
    hide PaddedBody, ReadSize, RoundUp, Encodes, ReadStep, Advance;
    ReadBody(c, s, p, len);
  }

  lemma PaddedTail(body: seq<byte>, k: nat, n: nat, rest: seq<byte>)
    requires 0 < k <= |body| && n <= RoundUp(|body|) && (k == n || k == |body|)
    requires RoundUp(|body| - k) == RoundUp(|body|) - n && k <= n
    ensures var p := PaddedBody(body) + rest;
            n <= |p| && p[..k] == body[..k] && p[n..] == PaddedBody(body[k..]) + rest
  {
    hide RoundUp;
  }

  lemma CopyStep(size: nat, bufLen: nat)
    requires 0 < size && 0 < bufLen && (bufLen >= BLOCK || size <= bufLen)
    ensures var n := ReadSize(Min(bufLen, size));
            var k := Min(n, Min(bufLen, size));
            && 0 < k <= size && k <= n <= RoundUp(size) && RoundUp(size - k) == RoundUp(size) - n
            && (k == n || k == size)
  {
  }

  /** A body whose only non-zero byte is at position at. */
  function Probe(size: nat, at: nat): (b: seq<byte>)
    requires at < size
    ensures |b| == size
  {
    Zeros(size)[at := 1]
  }

  /** A buffer shorter than a block loses the rest of the first block. */
  lemma CopyLoses(c: Cipher, s: Reader, size: nat, bufLen: nat)
    requires c.Lawful() && 0 < bufLen < BLOCK && bufLen < size
    requires Encodes(c, s, PaddedBody(Probe(size, bufLen)))
    ensures var r := CopyN(c, s, size, bufLen);
            r.Some? ==> r.value.0 != Probe(size, bufLen)
  {
    hide ReadStep, Encodes, Advance, Encrypt, Decrypt, PaddedBody, Probe, ReadSize, CopyFrom;
    var p := PaddedBody(Probe(size, bufLen));
    ProbePadded(size, bufLen);
    InputLength(c, s, p);
    var t, q := Advance(s, BLOCK), p[BLOCK..];
    SmallRead(bufLen);
    ReadBody(c, s, p, bufLen);
    CopyUnfold(c, s, size, bufLen, []);
    assert [] + p[..bufLen] == p[..bufLen];
    CopyUnfold(c, t, size, bufLen, p[..bufLen]);
    var len := Min(bufLen, size - bufLen);
    SmallRead(len);
    if |q| >= BLOCK {
      ReadBody(c, t, q, len);
      var dst := p[..bufLen] + q[..len];
      assert dst[bufLen] == q[0];
      InputLength(c, t, q);
      CopyKeeps(c, Advance(t, BLOCK), size, bufLen, dst);
    } else {
      NoBlockLeft(c, t, q, len);
    }
  }

  lemma SmallRead(len: nat)
    requires len < BLOCK
    ensures ReadSize(len) == BLOCK && Min(ReadSize(len), len) == len
  {
  }

  lemma NoBlockLeft(c: Cipher, s: Reader, p: seq<byte>, len: nat)
    requires Encodes(c, s, p) && |p| < BLOCK
    ensures ReadStep(c, s, len).0.Err?
  {
  }

  lemma CopyUnfold(c: Cipher, s: Reader, size: nat, bufLen: nat, dst: seq<byte>)
    requires |dst| < size && 0 < bufLen
    ensures match ReadStep(c, s, Min(bufLen, size - |dst|))
            case (Err(_), _) => CopyFrom(c, s, size, bufLen, dst) == None
            case (Ok(data), t) =>
              |dst + data| <= size
              && (data != [] ==> CopyFrom(c, s, size, bufLen, dst) == CopyFrom(c, t, size, bufLen, dst + data))
  {
    hide Decrypt, Advance;
  }

  /** Bytes once copied stay. */
  lemma {:induction false} CopyKeeps(c: Cipher, s: Reader, size: nat, bufLen: nat, dst: seq<byte>)
    requires |dst| <= size && 0 < bufLen
    ensures var r := CopyFrom(c, s, size, bufLen, dst);
            r.Some? ==> dst <= r.value.0
    decreases size - |dst|
  {
    hide ReadStep;
    if |dst| < size {
      match ReadStep(c, s, Min(bufLen, size - |dst|))
      case (Err(_), _) =>
      case (Ok(data), t) =>
        CopyUnfold(c, s, size, bufLen, dst);
        if data != [] {
          CopyKeeps(c, t, size, bufLen, dst + data);
        }
    }
  }

  lemma ProbePadded(size: nat, at: nat)
    requires at < size && at < BLOCK
    ensures var p := PaddedBody(Probe(size, at));
            |p| >= BLOCK && Probe(size, at)[at] == 1 && (|p| > BLOCK ==> p[BLOCK..][0] == 0)
  {
  }

  /** Exactly which buffers copy every body of a given size faithfully. */
  lemma CopyExactIff(c: Cipher, iv: Block, size: nat, bufLen: nat)
    requires c.Lawful() && bufLen > 0
    ensures (forall body: seq<byte> :: |body| == size ==> CopiesExactly(c, iv, body, bufLen))
       <==> bufLen >= BLOCK || size <= bufLen
  {
    if bufLen >= BLOCK || size <= bufLen {
      forall body: seq<byte> | |body| == size ensures CopiesExactly(c, iv, body, bufLen) {
        var p := PaddedBody(body);
        assert p + [] == p;
        assert body[0..] == body && body[..0] == [];
        CopyExact(c, Reader(iv, Encrypt(c, iv, p)), body, 0, [], bufLen);
      }
    } else {
      CopyLoses(c, Reader(iv, Encrypt(c, iv, PaddedBody(Probe(size, bufLen)))), size, bufLen);
      assert !CopiesExactly(c, iv, Probe(size, bufLen), bufLen);
    }
  }

  predicate CopiesExactly(c: Cipher, iv: Block, body: seq<byte>, bufLen: nat)
    requires bufLen > 0
  {
    var r := CopyN(c, Reader(iv, Encrypt(c, iv, PaddedBody(body))), |body|, bufLen);
    r.Some? && r.value.0 == body
  }

  /** What pullFile makes of a stream: the header, then the body it announces. */
  function Pull(c: Cipher, s: Reader): Option<(seq<byte>, string, Reader)> {
    match FullRead(c, s, HEADER_SIZE)
    case None => None
    case Some((h, t)) =>
      match ParseHeader(h)
      case InBand => None
      case BadHeader => None
      case FileHeader(size, name) =>
        if size == 0 then None
        else
          match CopyN(c, t, size, CopyBufferSize(size))
          case None => None
          case Some((body, u)) => Some((body, name, u))
  }

  /** Reads a header and the file it announces. */
  method PullFile(dec: DecryptReader) returns (r: Option<(seq<byte>, string)>)
    modifies dec
    ensures match Pull(dec.cipher, old(dec.State()))
            case None => r.None?
            case Some((body, name, t)) => r == Some((body, name)) && dec.State() == t
  {
    hide ParseHeader, FullRead, CopyFrom;
    var hdr := new byte[HEADER_SIZE];
    var ok := dec.ReadFull(hdr);
    if !ok {
      return None;
    }
    var header := ParseHeader(hdr[..]);
    if !header.FileHeader? || header.size == 0 {
      return None;
    }
    var body;
    ok, body := CopyBody(dec, header.size, CopyBufferSize(header.size));
    r := if ok then Some((body, header.name)) else None;
  }

  /** What the copy loop returns is as long as it was asked for. */
  lemma {:induction false} CopyLength(c: Cipher, s: Reader, size: nat, bufLen: nat, dst: seq<byte>)
    requires |dst| <= size && 0 < bufLen
    ensures var r := CopyFrom(c, s, size, bufLen, dst);
            r.Some? ==> |r.value.0| == size
    decreases size - |dst|
  {
    hide ReadStep;
    if |dst| < size {
      match ReadStep(c, s, Min(bufLen, size - |dst|))
      case (Err(_), _) =>
      case (Ok(data), t) =>
        CopyUnfold(c, s, size, bufLen, dst);
        if data != [] {
          CopyLength(c, t, size, bufLen, dst + data);
        }
    }
  }

  /** What is received is no longer or shorter than the header says, and named as it says. */
  lemma PullMatchesHeader(c: Cipher, s: Reader, header: seq<byte>, rest: seq<byte>)
    requires c.Lawful() && |header| == HEADER_SIZE && Encodes(c, s, header + rest)
    ensures var r := Pull(c, s);
            r.Some? ==> ParseHeader(header) == FileHeader(|r.value.0|, r.value.1)
  {
    ReadPrefix(c, s, header, rest);
    hide ParseHeader, FullRead, CopyFrom, Advance, Encodes;
    match ParseHeader(header)
    case InBand =>
    case BadHeader =>
    case FileHeader(size, name) =>
      if size > 0 {
        CopyLength(c, Advance(s, HEADER_SIZE), size, CopyBufferSize(size), []);
      }
  }

  /** Whatever follows it on the stream, a file is received byte for byte under its path exactly when its header
      is acceptable, and then the stream is left just after the padding. */
  lemma FileRoundTrip(c: Cipher, s: Reader, path: string, body: seq<byte>, rest: seq<byte>)
    requires c.Lawful() && Aligned(rest)
    requires Encodes(c, s, HeaderBytes(|body|, path) + (PaddedBody(body) + rest))
    ensures var r := Pull(c, s);
            && (r.Some? && r.value.0 == body && r.value.1 == path <==> HeaderOk(|body|, path))
            && (HeaderOk(|body|, path) ==> Encodes(c, r.value.2, rest))
  {
    HeaderRoundTrip(|body|, path);
    PullMatchesHeader(c, s, HeaderBytes(|body|, path), PaddedBody(body) + rest);
    ReadPrefix(c, s, HeaderBytes(|body|, path), PaddedBody(body) + rest);
    hide ParseHeader, HeaderBytes, PaddedBody, FullRead, CopyFrom, Advance, Encodes, HeaderOk;
    if HeaderOk(|body|, path) {
      assert body[0..] == body && body[..0] == [];
      HeaderOkSize(|body|, path);
      CopyExact(c, Advance(s, HEADER_SIZE), body, 0, rest, CopyBufferSize(|body|));
    }
  }

  lemma HeaderOkSize(size: nat, path: string)
    ensures HeaderOk(size, path) ==> size > 0
  {
  }
}
