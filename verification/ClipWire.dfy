/** Clipboard messages as runs of 48-byte chunk packets and an end marker, and their reassembly
    (clipboard_linux.go). Deflate is a pair of functions: inflating a compressed text followed by zero
    bytes gives the text back, because the final block is marked (section 3.2.3 of RFC 1951). */
module ClipWire {
  import opened Bytes
  import opened PackageTypes
  import opened Packets
  import Utf16
  import ClipText

  const MAX_INLINE := 1048576
  const MAX_RECV := 2 * 1048576

  datatype Codec = Codec(
    compress: seq<byte> -> seq<byte>, inflate: seq<byte> -> Option<seq<byte>>,
    html: string -> string, rtf: string -> string)
  {
    ghost predicate Lawful() {
      && (forall x, n: nat :: inflate(compress(x) + Zeros(n)) == Some(x))
      && (forall x :: compress(x) != [])
    }
  }

  /** A toy format with a final marker: 1 before every byte and 2 at the end. */
  function Escape(x: seq<byte>): seq<byte> {
    if x == [] then [2] else [1, x[0]] + Escape(x[1..])
  }

  function Unescape(b: seq<byte>): Option<seq<byte>> {
    if b == [] then None
    else if b[0] == 2 then Some([])
    else if |b| == 1 then None
    else
      match Unescape(b[2..])
      case None => None
      case Some(x) => Some([b[1]] + x)
  }

  lemma {:induction false} UnescapeEscape(x: seq<byte>, rest: seq<byte>)
    ensures Unescape(Escape(x) + rest) == Some(x)
    decreases |x|
  {
    if x == [] {
      assert (Escape(x) + rest)[0] == 2;
    } else {
      UnescapeEscape(x[1..], rest);
      var b := Escape(x) + rest;
      assert b == [1, x[0]] + (Escape(x[1..]) + rest) by {
        Assoc([1, x[0]], Escape(x[1..]), rest);
      }
      assert b[2..] == Escape(x[1..]) + rest;
      assert x == [x[0]] + x[1..];
      hide Escape;
    }
  }

  /** The assumption about compression can be met. */
  lemma LawfulCodecExists()
    ensures exists c: Codec :: c.Lawful()
  {
    var c := Codec(Escape, Unescape, s => s, s => s);
    forall x, n: nat ensures c.inflate(c.compress(x) + Zeros(n)) == Some(x) {
      UnescapeEscape(x, Zeros(n));
    }
    assert c.Lawful();
  }

  // ---- Chunking ---------------------------------------------------------------

  function ClipPacket(kind: byte, src: uint32, data: seq<byte>): Packet {
    Plain(kind, 0, src, ID_ALL).(clipboardData := Some(data))
  }

  function Padding(n: nat): (p: nat)
    ensures p < CLIP_DATA_SIZE && (n + p) % CLIP_DATA_SIZE == 0
  {
    if n % CLIP_DATA_SIZE == 0 then 0 else CLIP_DATA_SIZE - n % CLIP_DATA_SIZE
  }

  function Padded(data: seq<byte>): (r: seq<byte>)
    ensures |r| < |data| + CLIP_DATA_SIZE && |r| % CLIP_DATA_SIZE == 0
  {
    data + Zeros(Padding(|data|))
  }

  /** One packet for each 48 bytes of data, whose length is a multiple of 48. */
  function DataPackets(data: seq<byte>, kind: byte, src: uint32): seq<Packet>
    requires |data| % CLIP_DATA_SIZE == 0
    decreases |data|
  {
    if data == [] then []
    else [ClipPacket(kind, src, data[..CLIP_DATA_SIZE])] + DataPackets(data[CLIP_DATA_SIZE..], kind, src)
  }

  function Chunked(data: seq<byte>, kind: byte, src: uint32): seq<Packet> {
    DataPackets(Padded(data), kind, src) + [ClipPacket(CLIPBOARD_DATA_END, src, Zeros(CLIP_DATA_SIZE))]
  }

  lemma {:induction false} DataPacketsConcat(a: seq<byte>, b: seq<byte>, kind: byte, src: uint32)
    requires |a| % CLIP_DATA_SIZE == 0 && |b| % CLIP_DATA_SIZE == 0
    ensures DataPackets(a + b, kind, src) == DataPackets(a, kind, src) + DataPackets(b, kind, src)
    decreases |a|
  {
    if a == [] {
      assert a + b == b;
    } else {
      assert (a + b)[..48] == a[..48] && (a + b)[48..] == a[48..] + b;
      DataPacketsConcat(a[48..], b, kind, src);
      Assoc([ClipPacket(kind, src, a[..48])], DataPackets(a[48..], kind, src), DataPackets(b, kind, src));
    }
  }

  lemma OneChunk(chunk: seq<byte>, kind: byte, src: uint32)
    requires |chunk| == CLIP_DATA_SIZE
    ensures DataPackets(chunk, kind, src) == [ClipPacket(kind, src, chunk)]
  {
    assert chunk[..48] == chunk && chunk[48..] == [];
    assert DataPackets([], kind, src) == [];
  }

  lemma DataPacketsEmpty(kind: byte, src: uint32)
    ensures DataPackets([], kind, src) == []
  {
  }

  lemma PaddedSteps(data: seq<byte>, offset: nat)
    requires offset < |data| && offset % CLIP_DATA_SIZE == 0
    ensures var end := Min(offset + CLIP_DATA_SIZE, |data|);
            var chunk := data[offset..end] + Zeros(CLIP_DATA_SIZE - (end - offset));
            && offset + CLIP_DATA_SIZE <= |Padded(data)|
            && (offset + CLIP_DATA_SIZE >= |data| ==> offset + CLIP_DATA_SIZE == |Padded(data)|)
            && Padded(data)[..offset + CLIP_DATA_SIZE] == Padded(data)[..offset] + chunk
  {
  }

  lemma PaddedNothing()
    ensures Padded([]) == []
  {
  }

  method ChunkPackets(data: seq<byte>, kind: byte, src: uint32) returns (pkts: seq<Packet>)
    ensures pkts == Chunked(data, kind, src)
  {
    pkts := [];
    var offset := 0;
    ghost var p := Padded(data);
    DataPacketsEmpty(kind, src);
    PaddedNothing();
    hide Padding, Padded, DataPackets;
    while offset < |data|
      invariant 0 <= offset <= |p| && offset % CLIP_DATA_SIZE == 0
      invariant offset >= |data| ==> p[..offset] == p
      invariant pkts == DataPackets(p[..offset], kind, src)
      decreases |data| - offset
    {
      var end := offset + CLIP_DATA_SIZE;
      if end > |data| {
        end := |data|;
      }
      var chunk := data[offset..end] + Zeros(CLIP_DATA_SIZE - (end - offset));
      PaddedSteps(data, offset);
      DataPacketsConcat(p[..offset], chunk, kind, src);
      OneChunk(chunk, kind, src);
      pkts := pkts + [ClipPacket(kind, src, chunk)];
      offset := offset + CLIP_DATA_SIZE;
    }
    pkts := pkts + [ClipPacket(CLIPBOARD_DATA_END, src, Zeros(CLIP_DATA_SIZE))];
  }

  // ---- Reassembly -----------------------------------------------------------------

  datatype Assembly = Assembly(buf: seq<byte>, receiving: bool, isImage: bool)

  datatype Delivery = Text(text: string) | Image(data: seq<byte>)

  predicate IsChunk(kind: byte) {
    kind == CLIPBOARD_TEXT || kind == CLIPBOARD_IMAGE
  }

  /** The packet types the reassembly reacts to. */
  predicate IsTransfer(kind: byte) {
    IsChunk(kind) || kind == CLIPBOARD_DATA_END
  }

  function AfterChunk(s: Assembly, p: Packet): Assembly {
    var t := if s.receiving then s else Assembly([], true, p.kind == CLIPBOARD_IMAGE);
    match p.clipboardData
    case None => t
    case Some(d) =>
      if |t.buf| + |d| > MAX_RECV then Assembly([], false, t.isImage) else t.(buf := t.buf + d)
  }

  function AfterEnd(s: Assembly): Assembly {
    Assembly([], false, s.isImage)
  }

  /** What the clipboard is set to when a message of these bytes is complete. */
  function Delivered(c: Codec, data: seq<byte>, isImage: bool): seq<Delivery> {
    if data == [] then []
    else if isImage then
      match c.inflate(data)
      case None => [Image(data)]
      case Some(x) => [Image(x)]
    else
      match c.inflate(data)
      case None => []
      case Some(x) => TextDelivery(c, x)
  }

  function TextDelivery(c: Codec, utf16: seq<byte>): seq<Delivery> {
    var text := ClipText.Extract(Utf16.Decode(utf16), c.html, c.rtf);
    if text == "" then [] else [Text(text)]
  }

  function Handle(c: Codec, s: Assembly, p: Packet): (Assembly, seq<Delivery>) {
    if IsChunk(p.kind) then (AfterChunk(s, p), [])
    else if p.kind == CLIPBOARD_DATA_END then (AfterEnd(s), Delivered(c, s.buf, s.isImage))
    else (s, [])
  }

  class Manager {
    const codec: Codec
    var recvBuf: seq<byte>
    var receiving: bool
    var recvIsImage: bool
    var delivered: seq<Delivery>

    constructor (codec: Codec)
      ensures this.codec == codec && State() == IDLE && delivered == []
    {
      this.codec := codec;
      recvBuf, receiving, recvIsImage, delivered := [], false, false, [];
    }

    function State(): Assembly
      reads this
    {
      Assembly(recvBuf, receiving, recvIsImage)
    }

    method HandleChunk(p: Packet)
      modifies this
      ensures State() == AfterChunk(old(State()), p) && delivered == old(delivered)
    {
      if !receiving {
        recvBuf := [];
        receiving := true;
        recvIsImage := p.kind == CLIPBOARD_IMAGE;
      }
      if p.clipboardData.Some? {
        if |recvBuf| + |p.clipboardData.value| > MAX_RECV {
          recvBuf := [];
          receiving := false;
          return;
        }
        recvBuf := recvBuf + p.clipboardData.value;
      }
    }

    method HandleEnd()
      modifies this
      ensures State() == AfterEnd(old(State()))
      ensures delivered == old(delivered) + Delivered(codec, old(recvBuf), old(recvIsImage))
    {
      var data, isImage := recvBuf, recvIsImage;
      recvBuf := [];
      receiving := false;
      if |data| == 0 {
        return;
      }
      var r := codec.inflate(data);
      if isImage {
        delivered := delivered + [Image(if r.None? then data else r.value)];
        return;
      }
      if r.None? {
        return;
      }
      var raw := Utf16.DecodeUTF16LE(r.value);
      var text := ClipText.ExtractClipboardText(raw, codec.html, codec.rtf);
      if text == "" {
        return;
      }
      delivered := delivered + [Text(text)];
    }

    method HandlePacket(p: Packet)
      modifies this
      ensures State() == Handle(codec, old(State()), p).0
      ensures delivered == old(delivered) + Handle(codec, old(State()), p).1
    {
      if p.kind == CLIPBOARD_TEXT || p.kind == CLIPBOARD_IMAGE {
        HandleChunk(p);
      } else if p.kind == CLIPBOARD_DATA_END {
        HandleEnd();
      }
    }
  }

  const IDLE := Assembly([], false, false)

  predicate AtRest(s: Assembly) {
    s.buf == [] && !s.receiving
  }

  /** The reassembly over a run of packets. */
  function Feed(c: Codec, s: Assembly, ps: seq<Packet>): (Assembly, seq<Delivery>)
    decreases |ps|
  {
    if ps == [] then (s, [])
    else
      var (t, d) := Handle(c, s, ps[0]);
      var (u, e) := Feed(c, t, ps[1..]);
      (u, d + e)
  }

  lemma {:induction false} FeedConcat(c: Codec, s: Assembly, a: seq<Packet>, b: seq<Packet>)
    ensures var (t, d) := Feed(c, s, a);
            var (u, e) := Feed(c, t, b);
            Feed(c, s, a + b) == (u, d + e)
    decreases |a|
  {
    if a == [] {
      assert a + b == b;
      assert [] + Feed(c, s, b).1 == Feed(c, s, b).1;
    } else {
      assert (a + b)[1..] == a[1..] + b;
      var (t, d) := Handle(c, s, a[0]);
      FeedConcat(c, t, a[1..], b);
      hide Handle;
      var (u, e) := Feed(c, t, a[1..]);
      Assoc(d, e, Feed(c, u, b).1);
    }
  }

  function Canonicals(ps: seq<Packet>): (r: seq<Packet>)
    ensures |r| == |ps| && forall i :: 0 <= i < |ps| ==> r[i] == Canonical(ps[i])
  {
    seq(|ps|, i requires 0 <= i < |ps| => Canonical(ps[i]))
  }

  lemma CanonicalClip(kind: byte, src: uint32, data: seq<byte>)
    requires |data| == CLIP_DATA_SIZE && HasClipboard(kind)
    ensures Canonical(ClipPacket(kind, src, data)) == ClipPacket(kind, src, data)
  {
    assert data[..48] + Zeros(0) == data;
  }

  /** Chunks fill the buffer in order; below the limit nothing is dropped. */
  lemma {:induction false} FeedChunks(c: Codec, s: Assembly, data: seq<byte>, kind: byte, src: uint32)
    requires |data| % CLIP_DATA_SIZE == 0 && IsChunk(kind) && data != []
    requires |s.buf| + |data| <= MAX_RECV && (s.receiving || s.buf == [])
    ensures Feed(c, s, Canonicals(DataPackets(data, kind, src)))
         == (Assembly(s.buf + data, true, if s.receiving then s.isImage else kind == CLIPBOARD_IMAGE), [])
    decreases |data|
  {
    var chunk, rest := data[..48], data[48..];
    var ps := DataPackets(data, kind, src);
    var first := ClipPacket(kind, src, chunk);
    CanonicalClip(kind, src, chunk);
    assert Canonicals(ps)[1..] == Canonicals(DataPackets(rest, kind, src)) && Canonicals(ps)[0] == first;
    var t := AfterChunk(s, first);
    assert s.buf + data == s.buf + chunk + rest;
    assert Handle(c, s, first) == (t, []) && t.buf == s.buf + chunk;
    if rest == [] {
      assert Canonicals(ps) == [first];
      FeedOne(c, s, first);
      assert data == chunk;
    } else {
      FeedChunks(c, t, rest, kind, src);
    }
  }

  /** A whole message leaves the reassembly idle and delivers what its padded bytes stand for. The sender's
      1 MB cap keeps it below the receiver's 2 MB limit, padding included. */
  lemma MessageDelivered(c: Codec, s: Assembly, data: seq<byte>, kind: byte, src: uint32)
    requires AtRest(s) && IsChunk(kind) && |data| <= MAX_INLINE
    ensures var (t, d) := Feed(c, s, Canonicals(Chunked(data, kind, src)));
            AtRest(t) && d == Delivered(c, Padded(data), kind == CLIPBOARD_IMAGE)
  {
    var p := Padded(data);
    var last := ClipPacket(CLIPBOARD_DATA_END, src, Zeros(CLIP_DATA_SIZE));
    CanonicalClip(CLIPBOARD_DATA_END, src, Zeros(CLIP_DATA_SIZE));
    assert Canonicals(Chunked(data, kind, src)) == Canonicals(DataPackets(p, kind, src)) + [last];
    FeedConcat(c, s, Canonicals(DataPackets(p, kind, src)), [last]);
    if p == [] {
      assert Canonicals(DataPackets(p, kind, src)) == [];
      FeedLast(c, s, last);
    } else {
      FeedChunks(c, s, p, kind, src);
      assert [] + p == p;
      FeedLast(c, Assembly(p, true, kind == CLIPBOARD_IMAGE), last);
    }
  }

  lemma FeedOne(c: Codec, s: Assembly, p: Packet)
    ensures Feed(c, s, [p]) == Handle(c, s, p)
  {
    hide Handle;
    var (t, d) := Handle(c, s, p);
    assert [p][1..] == [] && Feed(c, t, []) == (t, []);
    assert d + [] == d;
  }

  lemma FeedLast(c: Codec, s: Assembly, last: Packet)
    requires last.kind == CLIPBOARD_DATA_END
    ensures Feed(c, s, [last]) == (AfterEnd(s), Delivered(c, s.buf, s.isImage))
  {
    FeedOne(c, s, last);
  }

  // ---- Texts, end to end ----------------------------------------------------------

  /** The compressed form sendText puts on the wire. */
  function TextData(c: Codec, text: string): seq<byte> {
    c.compress(Utf16.Encode(ClipText.Payload(text)))
  }

  /** The packets of a text, or none when its compressed form is over the inline limit. */
  method SendText(c: Codec, text: string, src: uint32) returns (pkts: Option<seq<Packet>>)
    ensures pkts == if |TextData(c, text)| > 1048576 then None
                    else Some(Chunked(TextData(c, text), CLIPBOARD_TEXT, src))
  {
    hide Chunked, ClipText.Payload, Utf16.Encode;
    var encoded := Utf16.EncodeUTF16LE(ClipText.Payload(text));
    var compressed := c.compress(encoded);
    if |compressed| > MAX_INLINE {
      return None;
    }
    var ps := ChunkPackets(compressed, CLIPBOARD_TEXT, src);
    pkts := Some(ps);
  }

  /** Texts the pipeline carries unchanged. */
  ghost predicate Sendable(text: string) {
    text != "" && (forall i :: 0 <= i < |text| ==> text[i] as int != 0) && !ClipText.Contains(text)
  }

  /** What arrives when the text is sent: the payload up to its first NUL, with its plain section extracted. */
  function Arrives(c: Codec, text: string): seq<Delivery> {
    var p := ClipText.Payload(text);
    var plain := ClipText.Extract(p[..Utf16.FirstNul(p)], c.html, c.rtf);
    if plain == "" then [] else [Text(plain)]
  }

  lemma TextMessage(c: Codec, text: string)
    requires c.Lawful()
    ensures Delivered(c, Padded(TextData(c, text)), false) == Arrives(c, text)
  {
    hide Utf16.Encode, Utf16.Decode, Utf16.FirstNul, ClipText.Payload, ClipText.Extract;
    var x := Utf16.Encode(ClipText.Payload(text));
    assert c.inflate(c.compress(x) + Zeros(Padding(|c.compress(x)|))) == Some(x);
    assert Padded(c.compress(x)) != [];
    Utf16.Utf16RoundTrip(ClipText.Payload(text), 0);
    assert x + Zeros(0) == x;
  }

  lemma PayloadNuls(text: string)
    ensures (forall i :: 0 <= i < |ClipText.Payload(text)| ==> ClipText.Payload(text)[i] as int != 0)
       <==> (forall i :: 0 <= i < |text| ==> text[i] as int != 0)
    ensures 3 <= Utf16.FirstNul(ClipText.Payload(text))
    ensures forall i :: 0 <= i < |text| && text[i] as int == 0 ==> Utf16.FirstNul(ClipText.Payload(text)) <= 3 + i
  {
    hide Utf16.FirstNul;
    var p := ClipText.Payload(text);
    assert forall i :: 0 <= i < |text| ==> p[3 + i] == text[i];
    SepHasNoNul();
    assert forall i :: 0 <= i < |p| && p[i] as int == 0 ==> 3 <= i < 3 + |text| && text[i - 3] as int == 0;
  }

  lemma SepHasNoNul()
    ensures forall i :: 0 <= i < |ClipText.Sep()| ==> ClipText.Sep()[i] as int != 0
  {
  }

  /** With strippers that never lengthen their input by some measure, a text arrives as it was sent exactly when
      it is not empty, has no NUL and does not contain the separator. */
  lemma TextArrivesExactly(c: Codec, text: string)
    requires c.Lawful() && ClipText.Shrinks(c.html) && ClipText.Shrinks(c.rtf)
    ensures Delivered(c, Padded(TextData(c, text)), false) == [Text(text)] <==> Sendable(text)
  {
    TextMessage(c, text);
    PayloadNuls(text);
    Utf16.NoNul(ClipText.Payload(text));
    hide Utf16.FirstNul, ClipText.Payload, ClipText.Extract, Padded, TextData, Delivered;
    var p := ClipText.Payload(text);
    if forall i :: 0 <= i < |text| ==> text[i] as int != 0 {
      ClipText.PayloadRoundTripExactly(text, c.html, c.rtf);
      assert p[..Utf16.FirstNul(p)] == p;
    } else {
      var i :| 0 <= i < |text| && text[i] as int == 0;
      ClipText.CutIsNotTheText(text, Utf16.FirstNul(p), c.html, c.rtf);
    }
  }

  /** An image arrives as it was sent exactly when it is not empty and either inflates, padding included, to
      itself, or does not inflate and needs no padding. */
  lemma ImageArrivesExactly(c: Codec, data: seq<byte>)
    ensures Delivered(c, Padded(data), true) == [Image(data)]
       <==> data != [] && match c.inflate(Padded(data))
                          case Some(x) => x == data
                          case None => |data| % CLIP_DATA_SIZE == 0
  {
    assert Padded(data) == data <==> |data| % CLIP_DATA_SIZE == 0;
  }

  /** Whatever the strippers do, a sendable text arrives as it was sent. */
  lemma TextArrives(c: Codec, text: string)
    requires c.Lawful() && Sendable(text)
    ensures Delivered(c, Padded(TextData(c, text)), false) == [Text(text)]
  {
    TextMessage(c, text);
    PayloadNuls(text);
    Utf16.NoNul(ClipText.Payload(text));
    hide Utf16.FirstNul, ClipText.Payload, ClipText.Extract, Padded, TextData, Delivered;
    ClipText.PayloadRoundTrip(text, c.html, c.rtf);
  }
}
