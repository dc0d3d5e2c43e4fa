/** The clipboard formats in numbers: text units, chunk packets, what completes or drops a message, which section of
    a message is pasted, and how a file is announced. */
module ClipFormat {
  import opened Bytes
  import Packets
  import Utf16
  import opened ClipText
  import opened ClipWire
  import opened FileTransfer
  import Stream

  // ---- UTF-16LE -----------------------------------------------------------------------

  /** A character below 0x10000 is one little-endian unit, any other a high and a low surrogate. */
  lemma CharUnits(c: char)
    ensures var r := c as int;
            var hi, lo := 0xD800 + (r - 0x1_0000) / 0x400, 0xDC00 + (r - 0x1_0000) % 0x400;
            Utf16.Encode([c])
            == if r < 0x1_0000 then [r % 256, r / 256] else [hi % 256, hi / 256, lo % 256, lo / 256]
  {
    var r := c as int;
    var us := Utf16.Units(c);
    assert [c][1..] == [] && Utf16.Encode([]) == [];
    if r < 0x1_0000 {
      Utf16.PairBytes(us[0], us[0]);
    } else {
      assert (r - 0x1_0000) / 0x400 < 0x400;
      assert us == [us[0], us[1]];
      Utf16.PairBytes(us[0], us[1]);
    }
  }

  /** The first unit of a text that is being decoded: zero ends the text, a surrogate pair is one character, and a
      surrogate without its partner is replaced by U+FFFD. */
  lemma FirstUnit(b: seq<byte>)
    requires |b| % 2 == 0 && b != []
    ensures var u := b[0] as int + 256 * b[1] as int;
            var v := if |b| > 2 then b[2] as int + 256 * b[3] as int else 0;
            Utf16.Decode(b)
            == if u == 0 then []
               else if 0xD800 <= u < 0xDC00 && 0xDC00 <= v < 0xE000 then
                 [(0x1_0000 + 0x400 * (u - 0xD800) + (v - 0xDC00)) as char] + Utf16.Decode(b[4..])
               else if 0xD800 <= u < 0xE000 then [0xFFFD as char] + Utf16.Decode(b[2..])
               else [u as char] + Utf16.Decode(b[2..])
  {
    DecodeEven(b);
    DecodeEven(b[2..]);
    if |b| > 2 {
      DecodeEven(b[4..]);
    }
  }

  /** An odd byte at the end is dropped. */
  lemma OddByte(b: seq<byte>)
    requires |b| % 2 == 1
    ensures Utf16.Decode(b) == Utf16.Decode(b[..|b| - 1])
  {
  }

  // ---- Sections ------------------------------------------------------------------------

  lemma PayloadIs(text: string)
    ensures Payload(text) == "TXT" + text + "{4CFF57F7-BEDD-43d5-AE8F-27A61E886F2F}"
  {
  }

  /** Parts without a separator are what their joined text splits into. */
  lemma {:induction false} SplitOfJoin(parts: seq<string>)
    requires parts != [] && forall i :: 0 <= i < |parts| ==> !Contains(parts[i])
    ensures Split(Join(parts)) == parts
    decreases |parts|
  {
    if |parts| == 1 {
      FindsNothing(parts[0]);
      SplitNowhere(parts[0]);
    } else {
      var rest := parts[1..];
      SplitOfJoin(rest);
      JoinCons(parts);
      FindsFirst(parts[0], Join(rest));
      hide Sep, Split, Find, Join, Contains;
      var s := parts[0] + Sep() + Join(rest);
      SplitAt(s, |parts[0]|);
      assert s[..|parts[0]|] == parts[0] && s[|parts[0]| + SEP_SIZE..] == Join(rest);
      assert Split(s) == [Split(s)[0]] + Split(s)[1..];
    }
  }

  lemma FindsNothing(s: string)
    requires !Contains(s)
    ensures Find(s, 0).None?
  {
    hide OccursAt;
  }

  lemma FindsFirst(p: string, rest: string)
    requires !Contains(p)
    ensures Find(p + Sep() + rest, 0) == Some(|p|)
  {
    var s := p + Sep() + rest;
    assert s[|p|..|p| + SEP_SIZE] == Sep();
    hide Sep, Find;
    forall j: nat | j < |p| ensures !OccursAt(s, j) {
      EarlierIsInside(p, s, j);
    }
    FindIs(s, |p|);
  }

  /** What occurs before a separator that follows p lies inside p. */
  lemma EarlierIsInside(p: string, s: string, j: nat)
    requires j < |p| && p <= s && OccursAt(s, |p|)
    ensures OccursAt(s, j) ==> OccursAt(p, j)
  {
    hide Sep;
    if OccursAt(s, j) {
      NoOverlap(s, j, |p|);
      assert p[j..j + SEP_SIZE] == s[j..j + SEP_SIZE];
    }
  }

  predicate Marked(part: string, marker: string) {
    |part| >= 3 && part[..3] == marker
  }

  /** The body of the last part with the marker, or nothing when no part has it. */
  ghost predicate Carries(parts: seq<string>, marker: string, body: string) {
    || (body == "" && forall i :: 0 <= i < |parts| ==> !Marked(parts[i], marker))
    || exists i :: 0 <= i < |parts| && Marked(parts[i], marker) && body == parts[i][3..]
         && forall j :: i < j < |parts| ==> !Marked(parts[j], marker)
  }

  lemma {:induction false} SectionIs(parts: seq<string>, marker: string, body: string)
    requires |marker| == 3 && Carries(parts, marker, body)
    ensures LastSection(parts, marker) == body
    decreases |parts|
  {
    if parts != [] {
      var n := |parts| - 1;
      assert Marked(parts[n], marker) <==> HasPrefix(parts[n], marker);
      if !Marked(parts[n], marker) {
        assert Carries(parts[..n], marker, body) by {
          assert forall i :: 0 <= i < n ==> parts[..n][i] == parts[i];
        }
        SectionIs(parts[..n], marker, body);
      }
    }
  }

  /** Of the last plain, HTML and RTF sections of a message the first that is not empty is pasted, the latter two
      stripped; a message without any section is pasted as it is, and nothing otherwise. */
  lemma PastesFirstOf(parts: seq<string>, t: string, h: string, r: string,
                      html: string -> string, rtf: string -> string)
    requires parts != [] && forall i :: 0 <= i < |parts| ==> !Contains(parts[i])
    requires Carries(parts, "TXT", t) && Carries(parts, "HTM", h) && Carries(parts, "RTF", r)
    ensures var out := Extract(Join(parts), html, rtf);
            if t != "" then out == t
            else if h != "" && html(h) != "" then out == html(h)
            else if r != "" && rtf(r) != "" then out == rtf(r)
            else if forall i :: 0 <= i < |parts| ==>
                      !Marked(parts[i], "TXT") && !Marked(parts[i], "HTM") && !Marked(parts[i], "RTF") then
              out == Join(parts)
            else out == ""
  {
    SplitOfJoin(parts);
    SectionIs(parts, "TXT", t);
    SectionIs(parts, "HTM", h);
    SectionIs(parts, "RTF", r);
    AnyMarkerIs(parts);
    hide Split, Join, Contains, LastSection, Carries, AnyMarker, Marked;
  }

  lemma AnyMarkerIs(parts: seq<string>)
    ensures AnyMarker(parts)
       <==> !forall i :: 0 <= i < |parts| ==>
               !Marked(parts[i], "TXT") && !Marked(parts[i], "HTM") && !Marked(parts[i], "RTF")
  {
    hide Marked, HasMarker;
    forall i | 0 <= i < |parts|
      ensures HasMarker(parts[i])
         <==> Marked(parts[i], "TXT") || Marked(parts[i], "HTM") || Marked(parts[i], "RTF")
    {
      MarkersAre(parts[i]);
    }
  }

  lemma MarkersAre(part: string)
    ensures HasMarker(part) <==> Marked(part, "TXT") || Marked(part, "HTM") || Marked(part, "RTF")
  {
    assert Marked(part, "TXT") <==> HasPrefix(part, "TXT");
    assert Marked(part, "HTM") <==> HasPrefix(part, "HTM");
    assert Marked(part, "RTF") <==> HasPrefix(part, "RTF");
  }

  // ---- Chunks ---------------------------------------------------------------------------

  /** A message is one packet for every 48 bytes begun, each with the next 48 bytes and zeros after the last, and one
      packet of type 76 at the end; all are addressed to everybody. */
  lemma ChunkLayout(data: seq<byte>, kind: byte, src: uint32, i: nat)
    requires i < |Chunked(data, kind, src)|
    ensures var ps := Chunked(data, kind, src);
            && |ps| == (|data| + 47) / 48 + 1
            && ps[i].src == src && ps[i].des == 255 && ps[i].clipboardData.Some? && |ps[i].clipboardData.value| == 48
            && ps[i].kind == (if i == |ps| - 1 then 76 else kind)
            && forall j :: 0 <= j < 48 ==>
                 ps[i].clipboardData.value[j] == if 48 * i + j < |data| then data[48 * i + j] else 0
  {
    var p := Padded(data);
    DataLayout(p, kind, src);
    PaddedLength(data);
    hide DataPackets, Padding;
    if i == |p| / 48 {
      assert 48 * i >= |data|;
    }
  }

  lemma PaddedLength(data: seq<byte>)
    ensures |Padded(data)| == (|data| + 47) / 48 * 48
  {
  }

  lemma {:induction false} DataLayout(p: seq<byte>, kind: byte, src: uint32)
    requires |p| % 48 == 0
    ensures var ps := DataPackets(p, kind, src);
            && |ps| == |p| / 48
            && forall i :: 0 <= i < |ps| ==> ps[i] == ClipPacket(kind, src, p[48 * i..48 * i + 48])
    decreases |p|
  {
    if p != [] {
      var rest := DataPackets(p[48..], kind, src);
      DataLayout(p[48..], kind, src);
      forall i | 0 <= i < |rest| + 1
        ensures ([ClipPacket(kind, src, p[..48])] + rest)[i] == ClipPacket(kind, src, p[48 * i..48 * i + 48])
      {
        if i > 0 {
          assert p[48..][48 * (i - 1)..48 * (i - 1) + 48] == p[48 * i..48 * i + 48];
        }
      }
    }
  }

  /** A chunk of type 124 or 125 begins a message or is added to it, and past 2097152 bytes the whole message is
      dropped; type 76 completes it, and no other type touches it. */
  lemma ChunkIs(c: Codec, s: Assembly, p: Packets.Packet)
    ensures var (t, out) := Handle(c, s, p);
            var begun := if s.receiving then s.buf else [];
            var all := begun + match p.clipboardData case Some(d) => d case None => [];
            && (p.kind == 124 || p.kind == 125 ==>
                  && out == [] && t.isImage == (if s.receiving then s.isImage else p.kind == 125)
                  && t.receiving == (p.clipboardData.None? || |all| <= 2097152)
                  && t.buf == if t.receiving then all else [])
            && (p.kind == 76 ==> t == Assembly([], false, s.isImage) && out == Delivered(c, s.buf, s.isImage))
            && (p.kind !in {76, 124, 125} ==> t == s && out == [])
  {
    hide Delivered;
  }

  /** An empty message delivers nothing, an image that does not inflate is delivered as it is, a text that does not
      inflate or has nothing to paste is not delivered. */
  lemma DeliveredIs(c: Codec, data: seq<byte>)
    ensures Delivered(c, [], true) == [] && Delivered(c, [], false) == []
    ensures data != [] ==>
              Delivered(c, data, true) == match c.inflate(data) case Some(x) => [Image(x)] case None => [Image(data)]
    ensures data != [] && c.inflate(data).None? ==> Delivered(c, data, false) == []
    ensures data != [] && c.inflate(data).Some? ==>
              var text := Extract(Utf16.Decode(c.inflate(data).value), c.html, c.rtf);
              Delivered(c, data, false) == if text == "" then [] else [Text(text)]
  {
    hide Extract;
  }

  // ---- Files -------------------------------------------------------------------------------

  /** Size in decimal, a star, the path, in UTF-16LE and 1024 bytes; the content is padded with at most 15 zeros. */
  lemma AnnouncementIs(size: nat, path: string, body: seq<byte>)
    ensures HeaderText(104857600, path) == "104857600*" + path
    ensures |HeaderBytes(size, path)| == 1024
    ensures var e := Utf16.Encode(HeaderText(size, path));
            forall i :: 0 <= i < 1024 ==> HeaderBytes(size, path)[i] == if i < |e| then e[i] else 0
    ensures var p := PaddedBody(body);
            && |p| % 16 == 0 && |body| <= |p| < |body| + 16 && p[..|body|] == body
            && forall i :: |body| <= i < |p| ==> p[i] == 0
  {
    Digits(104857600);
    hide Utf16.Encode;
  }

  lemma Digits(n: nat)
    requires n == 104857600
    ensures Decimal(n) == "104857600"
  {
    assert Decimal(1) == "1";
    assert Decimal(10) == "10";
    assert Decimal(104) == "104";
    assert Decimal(1048) == "1048";
    assert Decimal(10485) == "10485";
    assert Decimal(104857) == "104857";
    assert Decimal(1048576) == "1048576";
    assert Decimal(10485760) == "10485760";
  }

  /** What the receiver makes of the text before the first star: a sign is allowed, nothing else that is not a digit,
      and no size outside 64 bits. */
  lemma SizeIs(s: string)
    ensures AllDigits(s) ==>
              && ParseInt("+" + s) == ParseInt(s)
              && ParseInt("-" + s) == (if Value(s) <= 0x8000_0000_0000_0000 then Some(-(Value(s) as int)) else None)
              && ParseInt(s) == (if Value(s) < 0x8000_0000_0000_0000 then Some(Value(s)) else None)
    ensures ParseInt(s).Some? ==> AllDigits(s) || (s != "" && (s[0] == '+' || s[0] == '-') && AllDigits(s[1..]))
  {
    hide Value;
    Signed("+", s);
    Signed("-", s);
    Unsigned(s);
  }

  lemma Signed(sign: string, s: string)
    requires sign == "+" || sign == "-"
    ensures AllDigits(s) ==>
              var v := if sign == "-" then -(Value(s) as int) else Value(s);
              ParseInt(sign + s) == if -0x8000_0000_0000_0000 <= v < 0x8000_0000_0000_0000 then Some(v) else None
  {
    assert (sign + s)[1..] == s && (sign + s)[0] == sign[0];
    hide Value;
  }

  lemma Unsigned(s: string)
    ensures AllDigits(s) ==>
              ParseInt(s) == if Value(s) < 0x8000_0000_0000_0000 then Some(Value(s)) else None
    ensures ParseInt(s).Some? ==> AllDigits(s) || (s != "" && (s[0] == '+' || s[0] == '-') && AllDigits(s[1..]))
  {
    assert AllDigits(s) ==> IsDigit(s[0]);
    hide Value;
  }

  /** A header is refused without a star, with a bad size, or with a size outside 1 .. 104857600; a name that begins
      with text or image, in any case, announces something else, whatever its size. */
  lemma HeaderIs(b: seq<byte>, digits: string, name: string)
    requires TrimNuls(Utf16.Decode(b)) == digits + "*" + name && '*' !in digits
    ensures ParseHeader(b)
         == match ParseInt(digits)
            case None => BadHeader
            case Some(size) =>
              if NamesInBand(name) then InBand
              else if 1 <= size <= 104857600 then FileHeader(size, name)
              else BadHeader
  {
    var text := digits + "*" + name;
    assert text[|digits|] == '*';
    forall j | 0 <= j < |digits| ensures text[j] != '*' {
      assert text[j] == digits[j];
    }
    assert IndexOf(text, '*') == |digits|;
    assert text[..|digits|] == digits && text[|digits| + 1..] == name;
  }

  /** The names that announce a text or an image; the dotted capital I counts as an i. */
  lemma InBandNames(name: string)
    ensures NamesInBand(name) <==>
              || (|name| >= 4 && name[0] in "tT" && name[1] in "eE" && name[2] in "xX" && name[3] in "tT")
              || (|name| >= 5 && (name[0] in "iI" || name[0] as int == 0x130) && name[1] in "mM" && name[2] in "aA"
                  && name[3] in "gG" && name[4] in "eE")
  {
    if |name| >= 4 {
      PrefixIs(name, "text");
    }
    if |name| >= 5 {
      PrefixIs(name, "image");
    }
  }

  lemma PrefixIs(name: string, prefix: string)
    requires |name| >= |prefix| >= 4
    ensures LowerPrefix(name, prefix) <==>
              && Lower(name[0]) == prefix[0] && Lower(name[1]) == prefix[1] && Lower(name[2]) == prefix[2]
              && Lower(name[3]) == prefix[3] && forall i :: 4 <= i < |prefix| ==> Lower(name[i]) == prefix[i]
  {
    hide Lower;
  }

  lemma NoStarIs(b: seq<byte>)
    requires '*' !in TrimNuls(Utf16.Decode(b))
    ensures ParseHeader(b) == BadHeader
  {
  }
}
