/** The AltGr transducer of handler.go. Windows sends AltGr as a synthetic Ctrl press and release around the
    right Alt; the handler holds every Ctrl press back by one event and drops those pairs. */
module Chords {
  import opened Bytes
  import opened Keyboard

  /** One event of the inbound stream, after the key lookup. AltDown is the right Alt; Other is any packet that
      is not a key, with whatever it injects. */
  datatype Input =
    | CtrlDown(code: Code)
    | CtrlUp(code: Code)
    | AltDown(code: Code)
    | Press(code: Code)
    | Release(code: Code)
    | Other(out: seq<DeviceEvent>)

  predicate IsCtrl(e: Input) {
    e.CtrlDown? || e.CtrlUp?
  }

  datatype Chord = Chord(pending: Option<Code>, suppress: bool)

  const IDLE := Chord(None, false)

  /** The event itself, injected as it is. */
  function Echo(e: Input): seq<DeviceEvent> {
    match e
    case CtrlUp(c) => [KeyRelease(c)]
    case Release(c) => [KeyRelease(c)]
    case Other(out) => out
    case _ => [KeyPress(e.code)]
  }

  function Flush(st: Chord): seq<DeviceEvent> {
    if st.pending.Some? then [KeyPress(st.pending.value)] else []
  }

  /** One event: what is injected at once and what is kept for later. */
  function ChordStep(st: Chord, e: Input): (Chord, seq<DeviceEvent>) {
    match e
    case CtrlDown(c) => (st.(pending := Some(c)), [])
    case CtrlUp(c) =>
      if st.pending.Some? then (st.(pending := None), [KeyPress(c), KeyRelease(c)])
      else if st.suppress then (st.(suppress := false), [])
      else (st, [KeyRelease(c)])
    case AltDown(c) => (Chord(None, st.suppress || st.pending.Some?), [KeyPress(c)])
    case _ => (st.(pending := None), Flush(st) + Echo(e))
  }

  /** State and device log after a whole stream. */
  function Run(s: seq<Input>): (Chord, seq<DeviceEvent>) {
    if s == [] then (IDLE, [])
    else
      var before := Run(s[..|s| - 1]);
      var now := ChordStep(before.0, s[|s| - 1]);
      (now.0, before.1 + now.1)
  }

  /** The device log followed by the Ctrl press still held back, if any. */
  function Shown(s: seq<Input>): seq<DeviceEvent> {
    Run(s).1 + Flush(Run(s).0)
  }

  // ---- What the user meant --------------------------------------------------------------

  /** A Ctrl press directly followed by the right Alt. */
  predicate ChordAt(s: seq<Input>, j: nat) {
    j + 1 < |s| && s[j].CtrlDown? && s[j + 1].AltDown?
  }

  /** Event j is the most recent press or release, before event k, of the Ctrl key event k releases. */
  ghost predicate PairedAt(s: seq<Input>, j: nat, k: nat) {
    && j < k < |s| && s[k].CtrlUp? && s[j] == CtrlDown(s[k].code)
    && forall i :: j < i < k && IsCtrl(s[i]) ==> s[i].code != s[k].code
  }

  /** The release that belongs to the Ctrl press of a chord. */
  ghost predicate OwnRelease(s: seq<Input>, k: nat) {
    exists j: nat :: PairedAt(s, j, k) && ChordAt(s, j)
  }

  ghost predicate Synthetic(s: seq<Input>, k: nat) {
    ChordAt(s, k) || OwnRelease(s, k)
  }

  /** A held Ctrl repeating itself: the key is down already. */
  predicate Repeat(s: seq<Input>, k: nat) {
    0 < k < |s| && s[k].CtrlDown? && s[k - 1] == s[k]
  }

  /** The first k events of the stream, without repeats and with each synthetic Ctrl press and its release
      removed. */
  ghost function Meant(s: seq<Input>, k: nat): seq<DeviceEvent>
    requires k <= |s|
  {
    if k == 0 then []
    else Meant(s, k - 1) + (if Synthetic(s, k - 1) || Repeat(s, k - 1) then [] else Echo(s[k - 1]))
  }

  ghost function Ideal(s: seq<Input>): seq<DeviceEvent> {
    Meant(s, |s|)
  }

  // ---- When the transducer does what was meant --------------------------------------------------

  /** A Ctrl release right after a Ctrl press. */
  predicate Tap(s: seq<Input>, k: nat) {
    0 < k < |s| && s[k].CtrlUp? && s[k - 1].CtrlDown?
  }

  /** Some chord before event k has had no Ctrl release since, taps aside. */
  ghost predicate Unclosed(s: seq<Input>, k: nat)
    requires k <= |s|
  {
    exists j: nat :: j + 1 < k && ChordAt(s, j) && NoReleaseSince(s, j, k)
  }

  ghost predicate NoReleaseSince(s: seq<Input>, j: nat, k: nat)
    requires k <= |s|
  {
    forall i :: j < i < k ==> !(s[i].CtrlUp? && !Tap(s, i))
  }

  /** Adjacent Ctrl presses are of one key, a chord does not begin with a repeat, a tap releases the key it
      pressed, and any other Ctrl release comes after an unclosed chord exactly when it is the release of a
      chord's own key. */
  ghost predicate OrderlyAt(s: seq<Input>, k: nat)
    requires k < |s|
  {
    && (s[k].CtrlDown? && k > 0 && s[k - 1].CtrlDown? ==> s[k - 1] == s[k])
    && !(k > 0 && ChordAt(s, k - 1) && Repeat(s, k - 1))
    && (Tap(s, k) ==> s[k - 1].code == s[k].code)
    && (s[k].CtrlUp? && !Tap(s, k) ==> (Unclosed(s, k) <==> OwnRelease(s, k)))
  }

  ghost predicate Orderly(s: seq<Input>) {
    forall k :: 0 <= k < |s| ==> OrderlyAt(s, k)
  }

  /** What the transducer remembers is what can be read off the stream. */
  lemma {:induction false} RunState(s: seq<Input>)
    ensures Run(s).0.pending == if s != [] && s[|s| - 1].CtrlDown? then Some(s[|s| - 1].code) else None
    ensures Run(s).0.suppress <==> Unclosed(s, |s|)
    decreases |s|
  {
    if s != [] {
      var n := |s| - 1;
      var p := s[..n];
      RunState(p);
      UnclosedStep(s);
    }
  }

  lemma UnclosedStep(s: seq<Input>)
    requires s != []
    ensures var n := |s| - 1;
            Unclosed(s, |s|) <==>
              ((n > 0 && ChordAt(s, n - 1)) || (Unclosed(s[..n], n) && !(s[n].CtrlUp? && !Tap(s, n))))
  {
    var n := |s| - 1;
    var p := s[..n];
    if n > 0 && ChordAt(s, n - 1) {
      assert NoReleaseSince(s, n - 1, |s|);
    }
    if Unclosed(p, n) && !(s[n].CtrlUp? && !Tap(s, n)) {
      var j: nat :| j + 1 < n && ChordAt(p, j) && NoReleaseSince(p, j, n);
      assert ChordAt(s, j) && NoReleaseSince(s, j, |s|);
    }
    if Unclosed(s, |s|) {
      var j: nat :| j + 1 < |s| && ChordAt(s, j) && NoReleaseSince(s, j, |s|);
      if j < n - 1 {
        assert ChordAt(p, j) && NoReleaseSince(p, j, n);
      }
    }
  }

  /** Reading a longer stream changes nothing before its last two events. */
  lemma SameSynthetic(s: seq<Input>, k: nat)
    requires k + 1 < |s| && !(k + 2 == |s| && ChordAt(s, k))
    ensures Synthetic(s[..|s| - 1], k) <==> Synthetic(s, k)
  {
    var p := s[..|s| - 1];
    SameOwnRelease(s, |s| - 1, k);
  }

  lemma SameOwnRelease(s: seq<Input>, n: nat, k: nat)
    requires k < n <= |s|
    ensures OwnRelease(s[..n], k) <==> OwnRelease(s, k)
  {
    if OwnRelease(s[..n], k) {
      var j: nat :| PairedAt(s[..n], j, k) && ChordAt(s[..n], j);
      assert PairedAt(s, j, k) && ChordAt(s, j);
    }
    if OwnRelease(s, k) {
      var j: nat :| PairedAt(s, j, k) && ChordAt(s, j);
      assert PairedAt(s[..n], j, k) && ChordAt(s[..n], j);
    }
  }

  lemma {:induction false} MeantPrefix(s: seq<Input>, k: nat)
    requires k < |s| && !(k + 1 == |s| && k > 0 && ChordAt(s, k - 1))
    ensures Meant(s[..|s| - 1], k) == Meant(s, k)
  {
    if k > 0 {
      MeantPrefix(s, k - 1);
      SameSynthetic(s, k - 1);
    }
  }

  /** One more event: the outputs still agree exactly when that event is orderly. */
  lemma OneMore(s: seq<Input>)
    requires s != [] && Shown(s[..|s| - 1]) == Ideal(s[..|s| - 1])
    ensures Shown(s) == Ideal(s) <==> OrderlyAt(s, |s| - 1)
  {
    var n := |s| - 1;
    var p := s[..n];
    RunState(p);
    SameUnclosed(s, n);
    if n > 0 && ChordAt(s, n - 1) {
      MeantPrefix(s, n - 1);
      ChordCloses(s);
    } else {
      MeantPrefix(s, n);
      Appends(s);
    }
  }

  lemma SameUnclosed(s: seq<Input>, n: nat)
    requires n <= |s|
    ensures Unclosed(s[..n], n) <==> Unclosed(s, n)
  {
    if Unclosed(s[..n], n) {
      var j: nat :| j + 1 < n && ChordAt(s[..n], j) && NoReleaseSince(s[..n], j, n);
      assert ChordAt(s, j) && NoReleaseSince(s, j, n);
    }
    if Unclosed(s, n) {
      var j: nat :| j + 1 < n && ChordAt(s, j) && NoReleaseSince(s, j, n);
      assert ChordAt(s[..n], j) && NoReleaseSince(s[..n], j, n);
    }
  }

  /** The right Alt arrives with a Ctrl press held back: the transducer drops that press, which was meant only
      if it was the repeat of one meant. */
  lemma ChordCloses(s: seq<Input>)
    requires |s| >= 2 && ChordAt(s, |s| - 2)
    requires var p := s[..|s| - 1]; Shown(p) == Ideal(p) && Meant(p, |s| - 2) == Meant(s, |s| - 2)
    requires Run(s[..|s| - 1]).0.pending == Some(s[|s| - 2].code)
    ensures Shown(s) == Ideal(s) <==> OrderlyAt(s, |s| - 1)
  {
    var n := |s| - 1;
    var p := s[..n];
    var held := KeyPress(s[n - 1].code);
    assert !Synthetic(p, n - 1) && Synthetic(s, n - 1) && !Synthetic(s, n);
    assert Shown(p) == Run(p).1 + [held];
    assert Repeat(p, n - 1) <==> Repeat(s, n - 1);
    assert Ideal(p) == Meant(p, n - 1) + (if Repeat(s, n - 1) then [] else [held]);
    assert Meant(s, n) == Meant(s, n - 1);
    assert Ideal(s) == Meant(s, n - 1) + Echo(s[n]);
    assert Shown(s) == Run(p).1 + Echo(s[n]);
    if Repeat(s, n - 1) {
      assert |Ideal(s)| == |Shown(s)| + 1;
    } else {
      CancelLast(Run(p).1, Meant(p, n - 1), held);
    }
  }

  lemma CancelLast<T>(a: seq<T>, b: seq<T>, x: T)
    requires a + [x] == b + [x]
    ensures a == b
  {
    assert a == (a + [x])[..|a + [x]| - 1];
    assert b == (b + [x])[..|b + [x]| - 1];
  }

  lemma OnlyReleases(s: seq<Input>, k: nat)
    ensures OwnRelease(s, k) ==> k < |s| && s[k].CtrlUp?
  {
  }

  lemma TapIsReal(s: seq<Input>, k: nat)
    requires Tap(s, k) && s[k - 1].code == s[k].code
    ensures !OwnRelease(s, k)
  {
    if OwnRelease(s, k) {
      var j: nat :| PairedAt(s, j, k) && ChordAt(s, j);
      assert IsCtrl(s[k - 1]);
    }
  }

  /** Any other event adds to both outputs, or to neither, or they part. */
  lemma Appends(s: seq<Input>)
    requires s != [] && !(|s| > 1 && ChordAt(s, |s| - 2))
    requires var p := s[..|s| - 1]; Shown(p) == Ideal(p) && Meant(p, |s| - 1) == Meant(s, |s| - 1)
    requires var p := s[..|s| - 1];
             && Run(p).0.pending == (if p != [] && p[|p| - 1].CtrlDown? then Some(p[|p| - 1].code) else None)
             && (Run(p).0.suppress <==> Unclosed(s, |s| - 1))
    ensures Shown(s) == Ideal(s) <==> OrderlyAt(s, |s| - 1)
  {
    var n := |s| - 1;
    var e := s[n];
    var (st, log) := Run(s[..n]);
    OnlyReleases(s, n);
    assert Synthetic(s, n) <==> OwnRelease(s, n);
    hide OwnRelease, Unclosed, Synthetic;
    assert Ideal(s) == (log + Flush(st)) + (if OwnRelease(s, n) || Repeat(s, n) then [] else Echo(e));
    if st.pending.Some? {
      var c := st.pending.value;
      assert Flush(st) == [KeyPress(c)];
      if Tap(s, n) {
        assert Shown(s) == log + [KeyPress(e.code), KeyRelease(e.code)];
        assert Shown(s)[|log|] == KeyPress(e.code) && Ideal(s)[|log|] == KeyPress(c);
        if c == e.code {
          TapIsReal(s, n);
          assert Ideal(s) == Shown(s);
        }
      } else if e.CtrlDown? {
        assert Repeat(s, n) <==> c == e.code;
        assert |Shown(s)| == |log| + 1 && |Ideal(s)| == |log| + if c == e.code then 1 else 2;
      } else {
        assert Shown(s) == log + (Flush(st) + Echo(e));
      }
    } else {
      assert Flush(st) == [] && log + [] == log;
      assert Shown(s) == log + (if e.CtrlUp? && st.suppress then [] else Echo(e));
    }
  }

  ghost predicate AlwaysAgrees(s: seq<Input>) {
    forall k :: 0 <= k <= |s| ==> Shown(s[..k]) == Ideal(s[..k])
  }

  lemma OrderlyPrefix(s: seq<Input>, n: nat, k: nat)
    requires k < n <= |s|
    ensures OrderlyAt(s[..n], k) <==> OrderlyAt(s, k)
  {
    SameUnclosed(s, k);
    SameUnclosed(s[..n], k);
    assert s[..n][..k] == s[..k];
    SameOwnRelease(s, n, k);
  }

  lemma EmptyAgrees()
    ensures Shown([]) == Ideal([])
  {
  }

  /** The device log followed by the held-back press equals the stream without repeats and synthetic Ctrl pairs,
      at every moment of the stream, exactly when the stream is orderly. */
  lemma {:induction false} AgreesIff(s: seq<Input>)
    ensures AlwaysAgrees(s) <==> Orderly(s)
    decreases |s|
  {
    hide Shown, Ideal, OrderlyAt;
    if s == [] {
      assert s[..0] == [];
      EmptyAgrees();
    } else {
      var n := |s| - 1;
      var p := s[..n];
      AgreesIff(p);
      assert s[..n + 1] == s;
      forall k | 0 <= k <= n ensures s[..k] == p[..k] {
      }
      assert AlwaysAgrees(s) <==> AlwaysAgrees(p) && Shown(s) == Ideal(s);
      forall k | 0 <= k < n ensures OrderlyAt(p, k) <==> OrderlyAt(s, k) {
        OrderlyPrefix(s, n, k);
      }
      assert Orderly(s) <==> Orderly(p) && OrderlyAt(s, n);
      assert p[..n] == p;
      if AlwaysAgrees(p) {
        OneMore(s);
      }
    }
  }

  /** After an orderly stream, one more event keeps the agreement exactly when the stream stays orderly. */
  lemma OrderlyExtends(s: seq<Input>, e: Input)
    requires Orderly(s)
    ensures Shown(s) == Ideal(s)
    ensures Shown(s + [e]) == Ideal(s + [e]) <==> Orderly(s + [e])
  {
    hide Shown, Ideal, Orderly;
    var t := s + [e];
    AgreesIff(s);
    AgreesIff(t);
    assert s[..|s|] == s && t[..|t|] == t;
    forall k | 0 <= k <= |s| ensures t[..k] == s[..k] {
    }
  }

  // ---- A simple discipline that is enough ------------------------------------------------------

  /** No Ctrl event lies strictly between events j and k. */
  predicate NoCtrlBetween(s: seq<Input>, j: int, k: int)
    requires -1 <= j && k <= |s|
  {
    forall i :: j < i < k ==> !IsCtrl(s[i])
  }

  /** A Ctrl event directly after a Ctrl press releases that key or repeats the press; the first Ctrl event after
      a chord releases that key or begins the chord again; and no chord begins with a repeat. */
  predicate Tidy(s: seq<Input>) {
    && (forall k :: 0 < k < |s| && s[k - 1].CtrlDown? && IsCtrl(s[k]) ==> s[k].code == s[k - 1].code)
    && (forall j, k :: 0 <= j < k < |s| && ChordAt(s, j) && IsCtrl(s[k]) && NoCtrlBetween(s, j, k)
          ==> s[k].code == s[j].code && (s[k].CtrlDown? ==> ChordAt(s, k)))
    && (forall k :: 0 <= k < |s| && ChordAt(s, k) ==> !Repeat(s, k))
  }

  /** The last Ctrl event before event k, or -1. */
  function LastCtrl(s: seq<Input>, k: nat): (j: int)
    requires k <= |s|
    ensures -1 <= j < k && NoCtrlBetween(s, j, k) && (j >= 0 ==> IsCtrl(s[j]))
  {
    if k == 0 then -1 else if IsCtrl(s[k - 1]) then k - 1 else LastCtrl(s, k - 1)
  }

  /** In a tidy stream a release that is not a tap is a chord's exactly when the last Ctrl event before it is
      that chord's press. */
  lemma TidyRelease(s: seq<Input>, k: nat)
    requires Tidy(s) && k < |s| && s[k].CtrlUp? && !Tap(s, k)
    ensures var j := LastCtrl(s, k);
            && (OwnRelease(s, k) <==> j >= 0 && ChordAt(s, j))
            && (Unclosed(s, k) <==> j >= 0 && ChordAt(s, j))
  {
    var j := LastCtrl(s, k);
    if j >= 0 && ChordAt(s, j) {
      assert s[k] == CtrlUp(s[j].code);
      assert PairedAt(s, j, k);
      assert NoReleaseSince(s, j, k);
    }
    if OwnRelease(s, k) {
      var i: nat :| PairedAt(s, i, k) && ChordAt(s, i);
      ChordIsLast(s, i, k);
    }
    if Unclosed(s, k) {
      var i: nat :| i + 1 < k && ChordAt(s, i) && NoReleaseSince(s, i, k);
      ChordIsLast(s, i, k);
    }
  }

  /** With no release of its key in between, the last Ctrl event before a later release is the press of a
      chord: of the given one or of one it was repeated by. */
  lemma {:induction false} ChordIsLast(s: seq<Input>, i: nat, k: nat)
    requires Tidy(s) && i < k < |s| && ChordAt(s, i) && s[k].CtrlUp?
    requires NoReleaseSince(s, i, k) || PairedAt(s, i, k)
    ensures LastCtrl(s, k) >= i && ChordAt(s, LastCtrl(s, k))
    decreases k - i
  {
    var j := LastCtrl(s, k);
    if j != i {
      var r := FirstCtrl(s, i + 1, k);
      if s[r].CtrlDown? && NoReleaseSince(s, i, k) {
        ChordIsLast(s, r, k);
      }
    }
  }

  lemma FirstCtrl(s: seq<Input>, from: nat, k: nat) returns (r: nat)
    requires from <= k <= |s| && exists i :: from <= i < k && IsCtrl(s[i])
    ensures from <= r < k && IsCtrl(s[r]) && NoCtrlBetween(s, from - 1, r)
    decreases k - from
  {
    r := from;
    if !IsCtrl(s[from]) {
      r := FirstCtrl(s, from + 1, k);
    }
  }

  /** On every tidy stream, at every moment, the transducer does exactly what was meant. */
  lemma TidyAgrees(s: seq<Input>)
    requires Tidy(s)
    ensures AlwaysAgrees(s) && Shown(s) == Ideal(s)
  {
    forall k | 0 <= k < |s| ensures OrderlyAt(s, k) {
      if s[k].CtrlUp? && !Tap(s, k) {
        TidyRelease(s, k);
      }
    }
    AgreesIff(s);
    assert s[..|s|] == s;
  }

  // ---- Streams the transducer gets wrong ---------------------------------------------------------

  lemma RunNothing()
    ensures Run([]) == (IDLE, [])
  {
  }

  lemma RunNext(p: seq<Input>, e: Input)
    ensures Run(p + [e]) == (ChordStep(Run(p).0, e).0, Run(p).1 + ChordStep(Run(p).0, e).1)
  {
    assert (p + [e])[..|p|] == p;
  }

  lemma RunTwo(a: Input, b: Input)
    ensures var first := ChordStep(IDLE, a);
            var second := ChordStep(first.0, b);
            Run([a, b]) == (second.0, first.1 + second.1)
  {
    hide Run;
    RunNothing();
    RunNext([], a);
    RunNext([a], b);
    assert [] + [a] == [a] && [a] + [b] == [a, b];
    assert [] + ChordStep(IDLE, a).1 == ChordStep(IDLE, a).1;
  }

  /** Left and right Ctrl share one slot: pressing the second at once loses the first. */
  lemma SecondCtrlLosesFirst(left: Code, right: Code)
    requires left != right
    ensures var s := [CtrlDown(left), CtrlDown(right)];
            && Shown(s) == [KeyPress(right)] && Ideal(s) == [KeyPress(left), KeyPress(right)]
            && left in Held(Ideal(s)) && left !in Held(Shown(s))
  {
    var s := [CtrlDown(left), CtrlDown(right)];
    hide Run, Held;
    RunTwo(s[0], s[1]);
    assert s == [s[0], s[1]];
    assert Meant(s, 1) == [KeyPress(left)];
    HeldIff(Ideal(s), left);
    assert StillDown(Ideal(s), 0, left);
    HeldIff(Shown(s), left);
  }

  /** AltGr pressed right after a held Ctrl has repeated: the real Ctrl is lost with the synthetic one. */
  lemma AltGrLosesHeldCtrl(ctrl: Code, alt: Code)
    ensures var s := [CtrlDown(ctrl), CtrlDown(ctrl), AltDown(alt)];
            Shown(s) == [KeyPress(alt)] && Ideal(s) == [KeyPress(ctrl), KeyPress(alt)]
  {
    var s := [CtrlDown(ctrl), CtrlDown(ctrl), AltDown(alt)];
    hide Run;
    RunTwo(s[0], s[1]);
    RunNext([s[0], s[1]], s[2]);
    assert [s[0], s[1]] + [s[2]] == s;
    assert Meant(s, 1) == [KeyPress(ctrl)];
    assert Meant(s, 2) == [KeyPress(ctrl)];
  }

  /** A Ctrl pressed for real while AltGr is down. */
  function CtrlDuringAltGr(ctrl: Code, alt: Code, a: Code): seq<Input> {
    [CtrlDown(ctrl), AltDown(alt), CtrlDown(ctrl), Press(a), CtrlUp(ctrl)]
  }

  lemma ShownDuringAltGr(ctrl: Code, alt: Code, a: Code)
    ensures Shown(CtrlDuringAltGr(ctrl, alt, a)) == [KeyPress(alt), KeyPress(ctrl), KeyPress(a)]
  {
    var s := CtrlDuringAltGr(ctrl, alt, a);
    hide Run;
    forall i | 0 <= i < 5 ensures Run(s[..i + 1]) ==
      (ChordStep(Run(s[..i]).0, s[i]).0, Run(s[..i]).1 + ChordStep(Run(s[..i]).0, s[i]).1)
    {
      RunNext(s[..i], s[i]);
      assert s[..i + 1] == s[..i] + [s[i]];
    }
    RunNothing();
    assert s[..0] == [] && s[..5] == s;
    assert Run(s[..0 + 1]).0 == Chord(Some(ctrl), false) && Run(s[..0 + 1]).1 == [];
    assert Run(s[..1 + 1]).0 == Chord(None, true) && Run(s[..1 + 1]).1 == [KeyPress(alt)];
    assert Run(s[..2 + 1]).0 == Chord(Some(ctrl), true) && Run(s[..2 + 1]).1 == [KeyPress(alt)];
    assert Run(s[..3 + 1]).0 == Chord(None, true);
    assert Run(s[..3 + 1]).1 == [KeyPress(alt), KeyPress(ctrl), KeyPress(a)];
    assert Run(s[..4 + 1]).0 == Chord(None, false);
  }

  /** The release of that Ctrl is swallowed, so the device is left holding a key the user let go. */
  lemma SwallowsRealRelease(ctrl: Code, alt: Code, a: Code)
    requires a != ctrl
    ensures var s := CtrlDuringAltGr(ctrl, alt, a);
            && Ideal(s) == [KeyPress(alt), KeyPress(ctrl), KeyPress(a), KeyRelease(ctrl)]
            && ctrl in Held(Shown(s)) && ctrl !in Held(Ideal(s))
  {
    var s := CtrlDuringAltGr(ctrl, alt, a);
    hide Run, Held;
    assert IsCtrl(s[2]);
    assert !OwnRelease(s, 4);
    assert Meant(s, 1) == [];
    assert Meant(s, 2) == [KeyPress(alt)];
    assert Meant(s, 3) == [KeyPress(alt), KeyPress(ctrl)];
    assert Meant(s, 4) == [KeyPress(alt), KeyPress(ctrl), KeyPress(a)];
    ShownDuringAltGr(ctrl, alt, a);
    HeldIff(Shown(s), ctrl);
    assert StillDown(Shown(s), 1, ctrl);
    HeldIff(Ideal(s), ctrl);
    assert Ideal(s)[3] == KeyRelease(ctrl);
  }
}
