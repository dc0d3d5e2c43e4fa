/** The text payload of a clipboard message and its extraction from a multi-format one
    (clipboard_linux.go). The HTML and RTF strippers, with the whitespace trimming after them, are
    arbitrary functions. */
module ClipText {
  import opened Bytes

  const SEP_SIZE := 38

  function Sep(): (s: string)
    ensures |s| == SEP_SIZE
  {
    "{4CFF57F7-BEDD-43d5-AE8F-27A61E886F2F}"
  }

  function Payload(text: string): string {
    "TXT" + text + Sep()
  }

  predicate OccursAt(s: string, i: nat) {
    i + SEP_SIZE <= |s| && s[i..i + SEP_SIZE] == Sep()
  }

  ghost predicate Contains(s: string) {
    exists i: nat :: OccursAt(s, i)
  }

  /** The first occurrence of the separator at or after i. */
  function Find(s: string, i: nat): (r: Option<nat>)
    ensures r.Some? ==> i <= r.value && r.value + SEP_SIZE <= |s| && OccursAt(s, r.value)
    ensures forall j: nat :: i <= j && (r.Some? ==> j < r.value) ==> !OccursAt(s, j)
    decreases |s| - i
  {
    if i + SEP_SIZE > |s| then None
    else if OccursAt(s, i) then Some(i)
    else Find(s, i + 1)
  }

  function Split(s: string): (parts: seq<string>)
    ensures parts != []
    decreases |s|
  {
    match Find(s, 0)
    case None => [s]
    case Some(i) => [s[..i]] + Split(s[i + SEP_SIZE..])
  }

  function Join(parts: seq<string>): string
    requires parts != []
  {
    if |parts| == 1 then parts[0] else parts[0] + Sep() + Join(parts[1..])
  }

  predicate HasPrefix(s: string, prefix: string) {
    prefix <= s
  }

  /** The body of the last part that starts with a three-letter marker; empty when there is none. */
  function LastSection(parts: seq<string>, marker: string): string
    requires |marker| == 3
  {
    if parts == [] then ""
    else
      var last := |parts| - 1;
      if HasPrefix(parts[last], marker) then parts[last][3..] else LastSection(parts[..last], marker)
  }

  predicate HasMarker(part: string) {
    HasPrefix(part, "TXT") || HasPrefix(part, "RTF") || HasPrefix(part, "HTM")
  }

  predicate AnyMarker(parts: seq<string>) {
    exists i :: 0 <= i < |parts| && HasMarker(parts[i])
  }

  /** The text pasted for a decoded payload: the plain section, else stripped HTML, else stripped RTF, else
      the raw text when no section marker was seen. */
  function Extract(raw: string, html: string -> string, rtf: string -> string): string {
    var parts := Split(raw);
    var t, r, h := LastSection(parts, "TXT"), LastSection(parts, "RTF"), LastSection(parts, "HTM");
    if t != "" then t
    else if h != "" && html(h) != "" then html(h)
    else if r != "" && rtf(r) != "" then rtf(r)
    else if !AnyMarker(parts) then raw
    else ""
  }

  method ExtractClipboardText(raw: string, html: string -> string, rtf: string -> string) returns (text: string)
    ensures text == Extract(raw, html, rtf)
  {
    var t, r, h, seen := "", "", "", false;
    var parts := Split(raw);
    hide Split, LastSection, AnyMarker;
    NoSections();
    for i := 0 to |parts|
      invariant t == LastSection(parts[..i], "TXT")
      invariant r == LastSection(parts[..i], "RTF")
      invariant h == LastSection(parts[..i], "HTM")
      invariant seen == AnyMarker(parts[..i])
    {
      var part := parts[i];
      SectionStep(parts, i);
      if HasPrefix(part, "TXT") {
        t, seen := part[3..], true;
      } else if HasPrefix(part, "RTF") {
        r, seen := part[3..], true;
      } else if HasPrefix(part, "HTM") {
        h, seen := part[3..], true;
      }
    }
    assert parts[..|parts|] == parts;
    if t != "" {
      return t;
    }
    if h != "" {
      var s := html(h);
      if s != "" {
        return s;
      }
    }
    if r != "" {
      var s := rtf(r);
      if s != "" {
        return s;
      }
    }
    if !seen {
      return raw;
    }
    text := "";
  }

  lemma NoSections()
    ensures forall m | |m| == 3 :: LastSection([], m) == ""
    ensures !AnyMarker([])
  {
  }

  lemma SectionStep(parts: seq<string>, i: nat)
    requires i < |parts|
    ensures forall m | |m| == 3 :: LastSection(parts[..i + 1], m)
              == if HasPrefix(parts[i], m) then parts[i][3..] else LastSection(parts[..i], m)
    ensures AnyMarker(parts[..i + 1])
       <==> AnyMarker(parts[..i]) || HasMarker(parts[i])
    ensures HasPrefix(parts[i], "TXT") ==> !HasPrefix(parts[i], "RTF") && !HasPrefix(parts[i], "HTM")
    ensures HasPrefix(parts[i], "RTF") ==> !HasPrefix(parts[i], "HTM")
  {
    var p := parts[..i + 1];
    assert p[..i] == parts[..i];
    if AnyMarker(parts[..i]) {
      var j :| 0 <= j < i && HasMarker(parts[..i][j]);
      assert p[j] == parts[..i][j];
    }
    if AnyMarker(p) {
      var j :| 0 <= j < |p| && HasMarker(p[j]);
      assert j < i ==> parts[..i][j] == p[j];
    }
    assert p[i] == parts[i];
    MarkersDiffer(parts[i]);
  }

  // ---- Splitting ----------------------------------------------------------------

  /** Splitting loses nothing and leaves no separator inside a part. */
  lemma {:induction false} SplitJoin(s: string)
    ensures Join(Split(s)) == s
    ensures forall i :: 0 <= i < |Split(s)| ==> !Contains(Split(s)[i])
    decreases |s|
  {
    match Find(s, 0)
    case None =>
      SplitNowhere(s);
    case Some(i) =>
      hide Sep, Split, Find, Join, Contains;
      var rest := s[i + SEP_SIZE..];
      SplitAt(s, i);
      SplitJoin(rest);
      FirstPart(s, i);
      JoinCons(Split(s));
      assert forall k :: 0 < k < |Split(s)| ==> Split(s)[k] == Split(rest)[k - 1];
  }

  lemma SplitNowhere(s: string)
    requires Find(s, 0).None?
    ensures Split(s) == [s] && Join([s]) == s && !Contains(s)
  {
  }

  lemma FirstPart(s: string, i: nat)
    requires Find(s, 0) == Some(i)
    ensures i + SEP_SIZE <= |s| && s == s[..i] + Sep() + s[i + SEP_SIZE..] && !Contains(s[..i])
  {
    hide Sep, Find;
    ThreeParts(s, i, i + SEP_SIZE);
    forall j: nat ensures !OccursAt(s[..i], j) {
      OccursInPrefix(s, i, j);
    }
  }

  lemma ThreeParts<T>(s: seq<T>, i: nat, j: nat)
    requires i <= j <= |s|
    ensures s == s[..i] + s[i..j] + s[j..]
  {
  }

  lemma OccursInPrefix(s: string, i: nat, j: nat)
    requires i <= |s|
    ensures OccursAt(s[..i], j) ==> OccursAt(s, j) && j < i
  {
    hide Sep;
    if j + SEP_SIZE <= i {
      assert s[..i][j..j + SEP_SIZE] == s[j..j + SEP_SIZE];
    }
  }

  lemma JoinCons(parts: seq<string>)
    requires |parts| > 1
    ensures Join(parts) == parts[0] + Sep() + Join(parts[1..])
  {
    hide Sep;
  }

  /** The opening brace occurs in the separator only at its start, so no two occurrences overlap. */
  lemma SepHasNoBorder(k: nat)
    requires 0 < k < SEP_SIZE
    ensures Sep()[0] == '{' && Sep()[k] != '{'
  {
  }

  lemma NoOverlap(s: string, i: nat, j: nat)
    requires OccursAt(s, i) && OccursAt(s, j) && i < j
    ensures i + SEP_SIZE <= j
  {
    assert s[j..j + SEP_SIZE][0] == s[j];
    assert j < i + SEP_SIZE ==> s[i..i + SEP_SIZE][j - i] == s[j];
    if j < i + SEP_SIZE {
      SepHasNoBorder(j - i);
    }
  }

  /** Inside a payload the separators of the text keep their places, and the closing one follows. */
  lemma OccursInPayload(text: string, i: nat)
    requires i <= |text|
    ensures OccursAt(Payload(text), 3 + i) <==> OccursAt(text, i) || i == |text|
  {
    var p := Payload(text);
    if i == |text| {
      assert p[3 + i..3 + i + SEP_SIZE] == Sep();
    } else if i + SEP_SIZE <= |text| {
      assert text[i..i + SEP_SIZE] == p[3 + i..3 + i + SEP_SIZE];
    } else if OccursAt(p, 3 + i) {
      assert p[3 + |text|..3 + |text| + SEP_SIZE] == Sep();
      NoOverlap(p, 3 + i, 3 + |text|);
    }
  }

  lemma NotInMarker(text: string, i: nat)
    requires i < 3
    ensures !OccursAt(Payload(text), i)
  {
    SepHasNoBorder(1);
    var p := Payload(text);
    assert p[i] == "TXT"[i];
    assert p[i..i + SEP_SIZE][0] == p[i];
  }

  /** The first separator of a payload is the one in the text, or the closing one. */
  lemma FirstInPayload(text: string)
    ensures Find(Payload(text), 0)
         == Some(3 + match Find(text, 0) case Some(i) => i case None => |text|)
  {
    hide OccursAt, Find, Payload, Sep, Split;
    var p := Payload(text);
    var k := match Find(text, 0) case Some(i) => i case None => |text|;
    OccursInPayload(text, k);
    forall j: nat | j < 3 + k ensures !OccursAt(p, j) {
      if j < 3 {
        NotInMarker(text, j);
      } else {
        OccursInPayload(text, j - 3);
      }
    }
    FindIs(p, 3 + k);
  }

  lemma FindIs(s: string, k: nat)
    requires OccursAt(s, k) && forall j: nat :: j < k ==> !OccursAt(s, j)
    ensures Find(s, 0) == Some(k)
  {
    hide OccursAt;
  }

  lemma MarkersDiffer(s: string)
    ensures HasPrefix(s, "TXT") ==> !HasPrefix(s, "RTF") && !HasPrefix(s, "HTM")
    ensures HasPrefix(s, "RTF") ==> !HasPrefix(s, "HTM")
  {
    assert HasPrefix(s, "TXT") ==> s[0] == 'T';
    assert HasPrefix(s, "RTF") ==> s[0] == 'R';
    assert HasPrefix(s, "HTM") ==> s[0] == 'H';
  }

  /** Splitting a payload: the first part carries the marker and the text up to its first separator. */
  lemma PayloadParts(text: string)
    ensures var k := match Find(text, 0) case Some(i) => i case None => |text|;
            var parts := Split(Payload(text));
            && parts[0] == "TXT" + text[..k]
            && parts[1..] == Split(if k == |text| then "" else text[k + SEP_SIZE..] + Sep())
  {
    hide OccursAt, Find, Payload, Sep, Split;
    FirstInPayload(text);
    var k := match Find(text, 0) case Some(i) => i case None => |text|;
    PayloadCut(text, k);
    SplitAt(Payload(text), 3 + k);
  }

  lemma SplitAt(s: string, k: nat)
    requires Find(s, 0) == Some(k)
    ensures k + SEP_SIZE <= |s| && |Split(s)| > 1
    ensures Split(s)[0] == s[..k] && Split(s)[1..] == Split(s[k + SEP_SIZE..])
  {
  }

  lemma PayloadCut(text: string, k: nat)
    requires k == |text| || k + SEP_SIZE <= |text|
    ensures Payload(text)[..3 + k] == "TXT" + text[..k]
    ensures Payload(text)[3 + k + SEP_SIZE..] == if k == |text| then "" else text[k + SEP_SIZE..] + Sep()
  {
    hide Sep;
  }

  /** A text with no separator inside survives the payload format, the empty text included. */
  lemma PayloadRoundTrip(text: string, html: string -> string, rtf: string -> string)
    requires !Contains(text)
    ensures Extract(Payload(text), html, rtf) == text
  {
    PayloadParts(text);
    assert Find("", 0).None? && Split("") == [""];
    assert Find(text, 0).None?;
    var parts := Split(Payload(text));
    hide Split, Find, Payload, Sep;
    var first := "TXT" + text;
    assert text[..|text|] == text;
    assert parts == [first, ""];
    assert parts[..1] == [first];
    assert HasPrefix(first, "TXT") && first[3..] == text;
    MarkersDiffer(first);
    assert LastSection(parts, "TXT") == LastSection([first], "TXT") == text;
    assert LastSection(parts, "RTF") == LastSection([first], "RTF") == LastSection([], "RTF");
    assert LastSection(parts, "HTM") == LastSection([first], "HTM") == LastSection([], "HTM");
    assert HasPrefix(parts[0], "TXT");
  }

  // ---- Sizes ----------------------------------------------------------------------

  /** A text measured with some size for each character: 1 for all counts characters, the lengths of their UTF-8
      forms count bytes. */
  function Size(s: string, w: char -> nat): nat {
    if s == "" then 0 else w(s[0]) + Size(s[1..], w)
  }

  ghost predicate Positive(w: char -> nat) {
    forall c :: w(c) > 0
  }

  /** By some measure that gives every character a size, the output is never longer than the input. */
  ghost predicate Shrinks(f: string -> string) {
    exists w :: Positive(w) && NeverLonger(f, w)
  }

  ghost predicate NeverLonger(f: string -> string, w: char -> nat) {
    forall s :: Size(f(s), w) <= Size(s, w)
  }

  lemma {:induction false} SizeConcat(a: string, b: string, w: char -> nat)
    ensures Size(a + b, w) == Size(a, w) + Size(b, w)
  {
    if a == "" {
      assert a + b == b;
    } else {
      SizeConcat(a[1..], b, w);
      assert (a + b)[1..] == a[1..] + b;
    }
  }

  lemma SizeSplit(s: string, i: nat, w: char -> nat)
    requires i <= |s|
    ensures Size(s, w) == Size(s[..i], w) + Size(s[i..], w)
    ensures Positive(w) && 0 < i ==> Size(s[i..], w) < Size(s, w)
    ensures Positive(w) && i < |s| ==> Size(s[..i], w) < Size(s, w)
  {
    SizeConcat(s[..i], s[i..], w);
    assert s == s[..i] + s[i..];
  }

  lemma {:induction false} PartSize(s: string, i: nat, w: char -> nat)
    requires i < |Split(s)|
    ensures Size(Split(s)[i], w) <= Size(s, w)
    decreases |s|
  {
    match Find(s, 0)
    case None =>
    case Some(k) =>
      SplitAt(s, k);
      SizeSplit(s, k, w);
      SizeSplit(s[k..], SEP_SIZE, w);
      assert s[k..][SEP_SIZE..] == s[k + SEP_SIZE..];
      if i > 0 {
        PartSize(s[k + SEP_SIZE..], i - 1, w);
        hide Find, Sep, Split;
        assert Split(s)[i] == Split(s)[1..][i - 1];
      }
  }

  /** No part carries a section of size n or more. */
  predicate Below(parts: seq<string>, w: char -> nat, n: nat) {
    forall i :: 0 <= i < |parts| && |parts[i]| >= 3 ==> Size(parts[i][3..], w) < n
  }

  lemma {:induction false} SectionBelow(parts: seq<string>, marker: string, w: char -> nat, n: nat)
    requires |marker| == 3 && n > 0 && Below(parts, w, n)
    ensures Size(LastSection(parts, marker), w) < n
    decreases |parts|
  {
    if parts != [] {
      var last := |parts| - 1;
      assert Below(parts[..last], w, n);
      SectionBelow(parts[..last], marker, w, n);
    }
  }

  lemma PartsBelow(s: string, w: char -> nat, n: nat)
    requires Positive(w) && Size(s, w) <= n
    ensures Below(Split(s), w, n)
  {
    var parts := Split(s);
    forall i | 0 <= i < |parts| && |parts[i]| >= 3 ensures Size(parts[i][3..], w) < n {
      PartSize(s, i, w);
      SizeSplit(parts[i], 3, w);
    }
  }

  lemma BelowCons(parts: seq<string>, w: char -> nat, n: nat)
    requires parts != [] && Below(parts[1..], w, n) && (|parts[0]| >= 3 ==> Size(parts[0][3..], w) < n)
    ensures Below(parts, w, n)
  {
    forall i | 0 <= i < |parts| && |parts[i]| >= 3 ensures Size(parts[i][3..], w) < n {
      assert i > 0 ==> parts[i] == parts[1..][i - 1];
    }
  }

  lemma Around(s: string, k: nat, m: nat, w: char -> nat)
    requires Positive(w) && 0 < m && k + m <= |s|
    ensures Size(s[..k], w) < Size(s, w) && Size(s[k + m..], w) < Size(s, w)
    ensures Size(s[k + m..] + s[k..k + m], w) <= Size(s, w)
  {
    SizeSplit(s, k, w);
    SizeSplit(s[k..], m, w);
    SizeConcat(s[k + m..], s[k..k + m], w);
    hide Size, Positive;
    assert s[k..][m..] == s[k + m..] && s[k..][..m] == s[k..k + m];
  }

  /** When a payload splits inside its text, every section is shorter than the text. */
  lemma ContainedBelow(text: string, w: char -> nat)
    requires Contains(text) && Positive(w)
    ensures Below(Split(Payload(text)), w, Size(text, w))
    ensures HasPrefix(Split(Payload(text))[0], "TXT")
  {
    hide Sep, Payload, Split, Size, Below, Positive, Find;
    PayloadParts(text);
    var k := Find(text, 0).value;
    var parts := Split(Payload(text));
    var tail := text[k + SEP_SIZE..];
    Around(text, k, SEP_SIZE, w);
    assert text[k..k + SEP_SIZE] == Sep();
    assert parts[1..] == Split(if k == |text| then "" else tail + Sep()) && k != |text|;
    PartsBelow(tail + Sep(), w, Size(text, w));
    assert parts[0][3..] == text[..k];
    BelowCons(parts, w, Size(text, w));
  }

  /** A payload cut inside its text carries only sections shorter than the text. */
  lemma CutBelow(text: string, n: nat, w: char -> nat)
    requires 3 <= n < 3 + |text| && Positive(w)
    ensures Below(Split(Payload(text)[..n]), w, Size(text, w))
  {
    hide Sep, Split, Size, Below, Positive, Find;
    var raw, body := Payload(text)[..n], text[..n - 3];
    FirstPartKeepsMarker(text, n);
    PayloadPrefix(text, n);
    hide Payload;
    SizeSplit(text, n - 3, w);
    MarkedBelow(raw, body, w, Size(text, w));
  }

  lemma PayloadPrefix(text: string, n: nat)
    requires 3 <= n <= 3 + |text|
    ensures Payload(text)[..n] == "TXT" + text[..n - 3]
  {
    hide Sep;
  }

  lemma MarkedBelow(raw: string, body: string, w: char -> nat, n: nat)
    requires raw == "TXT" + body && Positive(w) && Size(body, w) < n && HasPrefix(Split(raw)[0], "TXT")
    ensures Below(Split(raw), w, n)
  {
    var parts := Split(raw);
    match Find(raw, 0)
    case None =>
      assert parts[0][3..] == body;
    case Some(k) =>
      SplitAt(raw, k);
      assert |parts[0]| >= 3;
      hide Find, Sep, Split, Size, Below, Positive;
      Around(body, k - 3, SEP_SIZE, w);
      assert parts[0][3..] == body[..k - 3];
      assert raw[k + SEP_SIZE..] == body[k - 3 + SEP_SIZE..];
      PartsBelow(raw[k + SEP_SIZE..], w, n);
      BelowCons(parts, w, n);
  }

  /** When every section is shorter than the text by every measure, nothing extracted is the text. */
  lemma NotTheText(raw: string, text: string, html: string -> string, rtf: string -> string)
    requires Shrinks(html) && Shrinks(rtf) && text != "" && AnyMarker(Split(raw))
    requires forall w :: Positive(w) ==> Below(Split(raw), w, Size(text, w))
    ensures Extract(raw, html, rtf) != text
  {
    var wh :| Positive(wh) && NeverLonger(html, wh);
    var wr :| Positive(wr) && NeverLonger(rtf, wr);
    var parts := Split(raw);
    SizeSplit(text, 0, wh);
    SizeSplit(text, 0, wr);
    assert Size(text, wh) > 0 && Size(text, wr) > 0;
    hide Split, Size, Below, Positive;
    SectionBelow(parts, "TXT", wh, Size(text, wh));
    SectionBelow(parts, "HTM", wh, Size(text, wh));
    SectionBelow(parts, "RTF", wr, Size(text, wr));
    var h, r := LastSection(parts, "HTM"), LastSection(parts, "RTF");
    assert Size(html(h), wh) <= Size(h, wh);
    assert Size(rtf(r), wr) <= Size(r, wr);
  }

  /** When each stripper never lengthens its input by some measure, a text survives exactly when it has no
      separator. */
  lemma PayloadRoundTripExactly(text: string, html: string -> string, rtf: string -> string)
    requires Shrinks(html) && Shrinks(rtf)
    ensures Extract(Payload(text), html, rtf) == text <==> !Contains(text)
  {
    if Contains(text) {
      hide Payload, Extract, Split, Shrinks, Size, OccursAt, Below;
      forall w | Positive(w)
        ensures Below(Split(Payload(text)), w, Size(text, w)) && HasPrefix(Split(Payload(text))[0], "TXT")
      {
        ContainedBelow(text, w);
      }
      var one := c => 1;
      assert Positive(one);
      NotTheText(Payload(text), text, html, rtf);
    } else {
      PayloadRoundTrip(text, html, rtf);
    }
  }

  /** A payload cut inside its text does not yield the text. */
  lemma CutIsNotTheText(text: string, n: nat, html: string -> string, rtf: string -> string)
    requires 3 <= n < 3 + |text| && Shrinks(html) && Shrinks(rtf)
    ensures Extract(Payload(text)[..n], html, rtf) != text
  {
    hide Extract, Split, Shrinks, Size, Below;
    forall w | Positive(w) ensures Below(Split(Payload(text)[..n]), w, Size(text, w)) {
      CutBelow(text, n, w);
    }
    FirstPartKeepsMarker(text, n);
    assert AnyMarker(Split(Payload(text)[..n]));
    NotTheText(Payload(text)[..n], text, html, rtf);
  }

  lemma FirstPartKeepsMarker(text: string, n: nat)
    requires 3 <= n <= |Payload(text)|
    ensures HasPrefix(Split(Payload(text)[..n])[0], "TXT")
  {
    var p := Payload(text);
    var raw := p[..n];
    match Find(raw, 0)
    case None =>
    case Some(k) =>
      assert raw[k..k + SEP_SIZE] == p[k..k + SEP_SIZE];
      assert OccursAt(p, k);
      if k < 3 {
        NotInMarker(text, k);
      }
  }
}
