/** What one connection injects from its first packet to its last (receiver.go with handler.go). */
module Sessions {
  import opened Bytes
  import opened PackageTypes
  import opened Packets
  import opened Keyboard
  import opened Chords
  import opened Inbound
  import opened Handler

  /** One packet as the receive loop gets it: what the activation or reclaim gate answers to it, and the order
      in which the held keys are lifted if it lifts them. */
  datatype Arrival = Arrival(packet: Packet, accepted: bool, order: seq<Code>)

  /** The types the receive loop passes on; greetings, heartbeats, late handshakes and the matrix family are
      answered or dropped there. */
  predicate ReachesHandler(kind: byte) {
    kind !in {HI, HEARTBEAT, HEARTBEAT_EX, HEARTBEAT_EX_L2, HEARTBEAT_EX_L3, BYE_BYE, INVALID, HANDSHAKE}
    && kind < MATRIX
  }

  /** The answer the loop sends: Hello to a greeting, plain or of the matrix family, and a heartbeat to a
      heartbeat. */
  function Reply(id: uint32, name: seq<byte>, p: Packet): Option<Packet> {
    if p.kind == HI || p.kind == MATRIX + HI then Some(Plain(HELLO, 0, id, p.src).(machineName := PaddedName(name)))
    else if p.kind in {HEARTBEAT, HEARTBEAT_EX, HEARTBEAT_EX_L2, HEARTBEAT_EX_L3} then
      Some(Plain(p.kind, 0, id, p.src).(machineName := PaddedName(name)))
    else None
  }

  function Replies(id: uint32, name: seq<byte>, ps: seq<Packet>): seq<Packet> {
    if ps == [] then []
    else
      var r := Reply(id, name, ps[|ps| - 1]);
      Replies(id, name, ps[..|ps| - 1]) + if r.Some? then [r.value] else []
  }

  predicate LiftsKeys(a: Arrival) {
    Lifts(a.packet, a.accepted)
  }

  function After(cfg: Settings, s: State, a: Arrival): State {
    if !ReachesHandler(a.packet.kind) then s
    else if LiftsKeys(a) then Lifted(s, a.packet, a.order)
    else Handled(cfg, s, a.packet)
  }

  function Received(cfg: Settings, s: State, arrivals: seq<Arrival>): State {
    if arrivals == [] then s
    else After(cfg, Received(cfg, s, arrivals[..|arrivals| - 1]), arrivals[|arrivals| - 1])
  }

  /** Every lift releases each key held at that moment once. */
  ghost predicate Feasible(cfg: Settings, s: State, arrivals: seq<Arrival>) {
    forall k :: 0 <= k < |arrivals| && LiftsKeys(arrivals[k]) ==> FeasibleAt(cfg, s, arrivals, k)
  }

  ghost predicate FeasibleAt(cfg: Settings, s: State, arrivals: seq<Arrival>, k: nat)
    requires k < |arrivals|
  {
    var r := Received(cfg, s, arrivals[..k]);
    Lists(arrivals[k].order, Held(r.log + Flush(r.chord)))
  }

  /** Where the loop ends: at the first ByeBye, or when nothing more comes. */
  function ByeAt(ps: seq<Packet>): (n: nat)
    ensures n <= |ps| && (n < |ps| ==> ps[n].kind == BYE_BYE)
    ensures forall i :: 0 <= i < n ==> ps[i].kind != BYE_BYE
  {
    if ps == [] || ps[0].kind == BYE_BYE then 0 else 1 + ByeAt(ps[1..])
  }

  lemma ByeIsAt(ps: seq<Packet>, n: nat)
    requires n <= |ps| && (n < |ps| ==> ps[n].kind == BYE_BYE)
    requires forall i :: 0 <= i < n ==> ps[i].kind != BYE_BYE
    ensures ByeAt(ps) == n
  {
  }

  /** One turn of the receive loop, after the answer if any. */
  method Dispatch(h: Injector, p: Packet, accepted: bool) returns (ghost a: Arrival)
    requires h.Valid()
    modifies h, h.keyboard, h.log
    ensures h.Valid() && a.packet == p && a.accepted == accepted
    ensures h.View() == After(h.Config(), old(h.View()), a)
    ensures LiftsKeys(a) ==> Lists(a.order, Held(old(h.View()).log + Flush(old(h.View()).chord)))
  {
    LiftsReach(p, accepted);
    hide Handled, Lifted, Held, Lists, ReachesHandler, Lifts, Flush;
    ghost var order := [];
    if ReachesHandler(p.kind) {
      var cb;
      cb, order := h.HandlePacket(p, accepted);
    }
    a := Arrival(p, accepted, order);
  }

  /** Runs the packets of one connection through the handler and answers those that ask for it. */
  method ReceiveLoop(h: Injector, id: uint32, name: seq<byte>, ps: seq<Packet>, gates: seq<bool>)
    returns (replies: seq<Packet>, ghost session: seq<Arrival>)
    requires h.Valid() && |gates| == |ps|
    modifies h, h.keyboard, h.log
    ensures h.Valid()
    ensures Follows(session, ps, gates) && |session| == ByeAt(ps)
    ensures Feasible(h.Config(), old(h.View()), session)
    ensures h.View() == Received(h.Config(), old(h.View()), session)
    ensures replies == Replies(id, name, ps[..ByeAt(ps)])
  {
    replies, session := [], [];
    ghost var cfg, start := h.Config(), h.View();
    RepliesNext(id, name, ps);
    NothingReceived(cfg, start, ps, gates);
    hide *;
    var n := 0;
    assert ps[..0] == [];
    while n < |ps| && ps[n].kind != BYE_BYE
      invariant n <= |ps| && forall i :: 0 <= i < n ==> ps[i].kind != BYE_BYE
      invariant h.Valid() && h.Config() == cfg && |session| == n && Follows(session, ps, gates)
      invariant Feasible(cfg, start, session) && h.View() == Received(cfg, start, session)
      invariant replies == Replies(id, name, ps[..n])
    {
      var r := Reply(id, name, ps[n]);
      if r.Some? {
        replies := replies + [r.value];
      }
      ghost var a := Dispatch(h, ps[n], gates[n]);
      FeasibleNext(cfg, start, session, a);
      FollowsNext(session, ps, gates, a);
      session := session + [a];
      n := n + 1;
    }
    ByeIsAt(ps, n);
  }

  /** The session is the packets and gate answers seen so far. */
  predicate Follows(session: seq<Arrival>, ps: seq<Packet>, gates: seq<bool>) {
    && |session| <= |ps| && |session| <= |gates|
    && forall i :: 0 <= i < |session| ==> session[i].packet == ps[i] && session[i].accepted == gates[i]
  }

  lemma FollowsNext(session: seq<Arrival>, ps: seq<Packet>, gates: seq<bool>, a: Arrival)
    requires Follows(session, ps, gates) && |session| < |ps| && |session| < |gates|
    requires a.packet == ps[|session|] && a.accepted == gates[|session|]
    ensures Follows(session + [a], ps, gates)
  {
  }

  lemma NothingReceived(cfg: Settings, s: State, ps: seq<Packet>, gates: seq<bool>)
    ensures Follows([], ps, gates) && Feasible(cfg, s, []) && Received(cfg, s, []) == s
  {
  }

  lemma RepliesNext(id: uint32, name: seq<byte>, ps: seq<Packet>)
    ensures Replies(id, name, []) == []
    ensures forall n :: 0 <= n < |ps| ==>
              var r := Reply(id, name, ps[n]);
              Replies(id, name, ps[..n + 1]) == Replies(id, name, ps[..n]) + if r.Some? then [r.value] else []
  {
    hide Reply;
    forall n: nat | n < |ps| ensures ps[..n + 1][..n] == ps[..n] {
    }
  }

  lemma LiftsReach(p: Packet, accepted: bool)
    ensures Lifts(p, accepted) ==> ReachesHandler(p.kind)
  {
  }

  lemma FeasibleNext(cfg: Settings, s: State, arrivals: seq<Arrival>, a: Arrival)
    requires Feasible(cfg, s, arrivals)
    requires var r := Received(cfg, s, arrivals);
             LiftsKeys(a) ==> Lists(a.order, Held(r.log + Flush(r.chord)))
    ensures Feasible(cfg, s, arrivals + [a])
    ensures Received(cfg, s, arrivals + [a]) == After(cfg, Received(cfg, s, arrivals), a)
  {
    var n := |arrivals|;
    var longer := arrivals + [a];
    hide LiftsKeys, Lists, After;
    assert longer[..n] == arrivals;
    forall k | 0 <= k <= n && LiftsKeys(longer[k]) ensures FeasibleAt(cfg, s, longer, k) {
      if k < n {
        assert longer[..k] == arrivals[..k];
        assert FeasibleAt(cfg, s, arrivals, k);
      }
    }
  }

  // ---- Segments ------------------------------------------------------------------------------

  /** How many arrivals there are up to and including the last that lifts keys. */
  function LastLift(arrivals: seq<Arrival>): (k: nat)
    ensures k <= |arrivals| && (k > 0 ==> LiftsKeys(arrivals[k - 1]))
    ensures forall i :: k <= i < |arrivals| ==> !LiftsKeys(arrivals[i])
  {
    if arrivals == [] then 0
    else if LiftsKeys(arrivals[|arrivals| - 1]) then |arrivals|
    else LastLift(arrivals[..|arrivals| - 1])
  }

  /** The key and mouse stream since the last lift: keys the layout does not know are not part of it. */
  function Segment(cfg: Settings, t: Tracker, arrivals: seq<Arrival>): (Tracker, seq<Input>) {
    if arrivals == [] then (t, [])
    else
      var (u, inputs) := Segment(cfg, t, arrivals[..|arrivals| - 1]);
      var a := arrivals[|arrivals| - 1];
      var input := InputOf(cfg, u, a.packet);
      if LiftsKeys(a) then (u.(seeded := a.packet.kind == HIDE_MOUSE && u.seeded), [])
      else if ReachesHandler(a.packet.kind) && input.Some? then
        (TrackerAfter(cfg, u, a.packet), inputs + [input.value])
      else (u, inputs)
  }

  lemma LiftsReachBoth(a: Arrival)
    ensures LiftsKeys(a) ==> ReachesHandler(a.packet.kind)
  {
  }

  /** Since the last lift the handler has been the chord transducer on the current segment. */
  lemma {:induction false} ReceivedIsRun(cfg: Settings, s: State, arrivals: seq<Arrival>)
    requires s.chord == IDLE
    ensures var r := Received(cfg, s, arrivals);
            var (t, inputs) := Segment(cfg, s.tracker, arrivals);
            && r.tracker == t
            && r.chord == Run(inputs).0
            && r.log == Received(cfg, s, arrivals[..LastLift(arrivals)]).log + Run(inputs).1
    decreases |arrivals|
  {
    hide ChordStep, MouseInput, KeyInput, ReachesHandler, Run;
    RunNothing();
    if arrivals == [] {
      assert s.log + [] == s.log;
    } else {
      var n := |arrivals| - 1;
      var p, a := arrivals[..n], arrivals[n];
      ReceivedIsRun(cfg, s, p);
      LiftsReachBoth(a);
      if LiftsKeys(a) {
        assert arrivals[..n + 1] == arrivals;
        assert Received(cfg, s, arrivals).log + [] == Received(cfg, s, arrivals).log;
      } else {
        var k := LastLift(p);
        assert LastLift(arrivals) == k && arrivals[..k] == p[..k];
        var (t, inputs) := Segment(cfg, s.tracker, p);
        var input := InputOf(cfg, t, a.packet);
        if input.Some? {
          RunNext(inputs, input.value);
          Assoc(Received(cfg, s, p[..k]).log, Run(inputs).1, ChordStep(Run(inputs).0, input.value).1);
        }
      }
    }
  }

  /** What the arrivals should inject: segment by segment the stream that was meant, and after each closed
      segment the releases of the keys its lift found held. */
  ghost function Intended(cfg: Settings, s: State, arrivals: seq<Arrival>): seq<DeviceEvent>
    decreases |arrivals|
  {
    Base(cfg, s, arrivals) + Ideal(Segment(cfg, s.tracker, arrivals).1)
  }

  ghost function Base(cfg: Settings, s: State, arrivals: seq<Arrival>): seq<DeviceEvent>
    decreases |arrivals|, 0
  {
    var k := LastLift(arrivals);
    if k == 0 then s.log else Intended(cfg, s, arrivals[..k - 1]) + Releases(arrivals[k - 1].order)
  }

  ghost predicate InjectsIntendedAt(cfg: Settings, s: State, arrivals: seq<Arrival>, k: nat)
    requires k <= |arrivals|
  {
    var r := Received(cfg, s, arrivals[..k]);
    r.log + Flush(r.chord) == Intended(cfg, s, arrivals[..k])
  }

  /** At every moment the log followed by the press held back is what was intended. */
  ghost predicate InjectsIntended(cfg: Settings, s: State, arrivals: seq<Arrival>) {
    forall k :: 0 <= k <= |arrivals| ==> InjectsIntendedAt(cfg, s, arrivals, k)
  }

  ghost predicate OrderlyAtMoment(cfg: Settings, t: Tracker, arrivals: seq<Arrival>, k: nat)
    requires k <= |arrivals|
  {
    Orderly(Segment(cfg, t, arrivals[..k]).1)
  }

  /** Every segment of the session is an orderly stream. */
  ghost predicate OrderlySession(cfg: Settings, t: Tracker, arrivals: seq<Arrival>) {
    forall k :: 0 <= k <= |arrivals| ==> OrderlyAtMoment(cfg, t, arrivals, k)
  }

  lemma Prefixes(arrivals: seq<Arrival>, n: nat, k: nat)
    requires k <= n <= |arrivals|
    ensures arrivals[..n][..k] == arrivals[..k]
  {
  }

  /** Directly after a lift nothing is held back and the new segment is empty. */
  lemma AtLift(cfg: Settings, s: State, arrivals: seq<Arrival>)
    requires s.chord == IDLE && LastLift(arrivals) == |arrivals|
    ensures Segment(cfg, s.tracker, arrivals).1 == [] && Ideal([]) == []
    ensures var r := Received(cfg, s, arrivals);
            r.chord == IDLE && r.log + Flush(r.chord) == r.log
    ensures Intended(cfg, s, arrivals) == Base(cfg, s, arrivals)
  {
    if arrivals != [] {
      var a := arrivals[|arrivals| - 1];
      LiftsReach(a.packet, a.accepted);
    }
    hide Base;
    assert Base(cfg, s, arrivals) + [] == Base(cfg, s, arrivals);
    assert Received(cfg, s, arrivals).log + [] == Received(cfg, s, arrivals).log;
  }

  /** When the log was right at the last lift, it is right now exactly when the current segment is shown as
      meant. */
  lemma SinceLift(cfg: Settings, s: State, arrivals: seq<Arrival>)
    requires s.chord == IDLE
    requires InjectsIntendedAt(cfg, s, arrivals, LastLift(arrivals))
    ensures var inputs := Segment(cfg, s.tracker, arrivals).1;
            InjectsIntendedAt(cfg, s, arrivals, |arrivals|) <==> Shown(inputs) == Ideal(inputs)
  {
    var k := LastLift(arrivals);
    var base := arrivals[..k];
    var r := Received(cfg, s, arrivals);
    var inputs := Segment(cfg, s.tracker, arrivals).1;
    LastLiftOfPrefix(arrivals);
    AtLift(cfg, s, base);
    ReceivedIsRun(cfg, s, arrivals);
    assert arrivals[..|arrivals|] == arrivals;
    Assoc(Received(cfg, s, base).log, Run(inputs).1, Flush(r.chord));
    BaseAtLift(cfg, s, arrivals);
    hide Received, Segment, LastLift, Base, Run, Flush, Meant;
    SamePrefix(Received(cfg, s, base).log, Shown(inputs), Ideal(inputs));
  }

  lemma LastLiftOfPrefix(arrivals: seq<Arrival>)
    ensures LastLift(arrivals[..LastLift(arrivals)]) == LastLift(arrivals)
  {
    var k := LastLift(arrivals);
    var base := arrivals[..k];
    if k > 0 {
      assert base[k - 1] == arrivals[k - 1];
    }
  }

  lemma BaseAtLift(cfg: Settings, s: State, arrivals: seq<Arrival>)
    ensures Base(cfg, s, arrivals[..LastLift(arrivals)]) == Base(cfg, s, arrivals)
  {
    LastLiftOfPrefix(arrivals);
    var k := LastLift(arrivals);
    if k > 0 {
      Prefixes(arrivals, k, k - 1);
    }
    hide Intended, LastLift;
  }

  lemma SamePrefix<T>(x: seq<T>, y: seq<T>, z: seq<T>)
    ensures x + y == x + z <==> y == z
  {
    assert (x + y)[|x|..] == y && (x + z)[|x|..] == z;
  }

  /** A lift closes the segment with the releases of what it finds held. */
  lemma LiftCloses(cfg: Settings, s: State, arrivals: seq<Arrival>)
    requires arrivals != [] && LiftsKeys(arrivals[|arrivals| - 1]) && s.chord == IDLE
    requires InjectsIntendedAt(cfg, s, arrivals, |arrivals| - 1)
    ensures InjectsIntendedAt(cfg, s, arrivals, |arrivals|)
  {
    var n := |arrivals| - 1;
    LiftsReach(arrivals[n].packet, arrivals[n].accepted);
    assert arrivals[..n + 1] == arrivals;
    hide Ideal, Handled;
    AtLift(cfg, s, arrivals);
  }

  /** One more arrival: the log stays right exactly when the current segment is orderly. */
  lemma OneMoreArrival(cfg: Settings, s: State, arrivals: seq<Arrival>)
    requires s.chord == IDLE && arrivals != []
    requires var p := arrivals[..|arrivals| - 1];
             InjectsIntended(cfg, s, p) && Orderly(Segment(cfg, s.tracker, p).1)
    ensures InjectsIntendedAt(cfg, s, arrivals, |arrivals|) <==> Orderly(Segment(cfg, s.tracker, arrivals).1)
  {
    var n := |arrivals| - 1;
    var p, a := arrivals[..n], arrivals[n];
    var before := Segment(cfg, s.tracker, p);
    hide Intended, Orderly, Ideal, Shown, Run, InputOf, Received, TrackerAfter;
    if LiftsKeys(a) {
      Prefixes(arrivals, n, n);
      assert InjectsIntendedAt(cfg, s, p, n);
      LiftCloses(cfg, s, arrivals);
      EmptyOrderly();
    } else {
      var k := LastLift(arrivals);
      Prefixes(arrivals, n, k);
      assert InjectsIntendedAt(cfg, s, p, k);
      SinceLift(cfg, s, arrivals);
      var input := InputOf(cfg, before.0, a.packet);
      OrderlyExtends(before.1, if input.Some? then input.value else Other([]));
    }
  }

  lemma EmptyOrderly()
    ensures Orderly([])
  {
  }

  /** Being right at every moment means having been right until the last arrival, and being right now. */
  lemma RightUntilNow(cfg: Settings, s: State, arrivals: seq<Arrival>)
    requires arrivals != []
    ensures InjectsIntended(cfg, s, arrivals)
       <==> InjectsIntended(cfg, s, arrivals[..|arrivals| - 1]) && InjectsIntendedAt(cfg, s, arrivals, |arrivals|)
  {
    var n := |arrivals|;
    var p := arrivals[..n - 1];
    hide Received, Intended, Flush;
    forall k: nat | k < n ensures InjectsIntendedAt(cfg, s, arrivals, k) <==> InjectsIntendedAt(cfg, s, p, k) {
      Prefixes(arrivals, n - 1, k);
    }
  }

  lemma OrderlyUntilNow(cfg: Settings, t: Tracker, arrivals: seq<Arrival>)
    requires arrivals != []
    ensures OrderlySession(cfg, t, arrivals)
       <==> OrderlySession(cfg, t, arrivals[..|arrivals| - 1]) && Orderly(Segment(cfg, t, arrivals).1)
  {
    var n := |arrivals|;
    var p := arrivals[..n - 1];
    hide Segment, Orderly;
    assert arrivals[..n] == arrivals;
    assert OrderlyAtMoment(cfg, t, arrivals, n) <==> Orderly(Segment(cfg, t, arrivals).1);
    forall k: nat | k < n ensures OrderlyAtMoment(cfg, t, arrivals, k) <==> OrderlyAtMoment(cfg, t, p, k) {
      Prefixes(arrivals, n - 1, k);
    }
  }

  lemma OrderlyNow(cfg: Settings, t: Tracker, arrivals: seq<Arrival>)
    requires OrderlySession(cfg, t, arrivals)
    ensures Orderly(Segment(cfg, t, arrivals).1)
  {
    hide Segment, Orderly;
    assert arrivals[..|arrivals|] == arrivals;
    assert OrderlyAtMoment(cfg, t, arrivals, |arrivals|);
  }

  lemma NothingYet(cfg: Settings, s: State)
    requires s.chord == IDLE
    ensures InjectsIntended(cfg, s, []) && OrderlySession(cfg, s.tracker, [])
  {
    AtLift(cfg, s, []);
    EmptyOrderly();
    hide Received, Intended, Orderly;
    forall k: nat | k <= 0 ensures InjectsIntendedAt(cfg, s, [], k) && OrderlyAtMoment(cfg, s.tracker, [], k) {
      assert k == 0;
    }
  }

  /** From a clean start, whatever was logged before: at every moment of a session the log followed by the press
      held back is, segment by segment, the stream that was meant, mouse events in place, with the lifted keys'
      releases in between, exactly when every segment is orderly. */
  lemma {:induction false} SessionInjectsWhatWasMeant(cfg: Settings, s: State, arrivals: seq<Arrival>)
    requires s.chord == IDLE
    ensures InjectsIntended(cfg, s, arrivals) <==> OrderlySession(cfg, s.tracker, arrivals)
    decreases |arrivals|
  {
    hide InjectsIntended, InjectsIntendedAt, OrderlySession, Segment, Orderly;
    if arrivals == [] {
      NothingYet(cfg, s);
    } else {
      var p := arrivals[..|arrivals| - 1];
      SessionInjectsWhatWasMeant(cfg, s, p);
      RightUntilNow(cfg, s, arrivals);
      OrderlyUntilNow(cfg, s.tracker, arrivals);
      if InjectsIntended(cfg, s, p) {
        OrderlyNow(cfg, s.tracker, p);
        OneMoreArrival(cfg, s, arrivals);
      }
    }
  }

  /** A session of tidy segments injects what was meant. */
  lemma TidySession(cfg: Settings, s: State, arrivals: seq<Arrival>)
    requires s.chord == IDLE
    requires forall k :: 0 <= k <= |arrivals| ==> Tidy(Segment(cfg, s.tracker, arrivals[..k]).1)
    ensures InjectsIntended(cfg, s, arrivals)
  {
    hide InjectsIntended, Segment, Tidy, Orderly;
    forall k: nat | k <= |arrivals| ensures OrderlyAtMoment(cfg, s.tracker, arrivals, k) {
      TidyAgrees(Segment(cfg, s.tracker, arrivals[..k]).1);
      AgreesIff(Segment(cfg, s.tracker, arrivals[..k]).1);
    }
    SessionInjectsWhatWasMeant(cfg, s, arrivals);
  }

  /** Before the segment after a lift begins, every press logged so far has a later release, and nothing is held
      back or suppressed. */
  lemma LiftLeavesNothingDown(cfg: Settings, s: State, arrivals: seq<Arrival>, k: nat)
    requires Feasible(cfg, s, arrivals) && k < |arrivals| && LiftsKeys(arrivals[k])
    ensures var t := Received(cfg, s, arrivals[..k + 1]);
            && Held(t.log) == {} && t.chord == IDLE
            && forall i, c :: 0 <= i < |t.log| && t.log[i] == KeyPress(c)
                 ==> exists j :: i < j < |t.log| && t.log[j] == KeyRelease(c)
  {
    var r := Received(cfg, s, arrivals[..k]);
    assert FeasibleAt(cfg, s, arrivals, k);
    assert arrivals[..k + 1][..k] == arrivals[..k];
    LiftsReach(arrivals[k].packet, arrivals[k].accepted);
    AllReleased(r.log + Flush(r.chord), arrivals[k].order);
  }

  /** A dropped connection leaves nothing down either, and the next one starts clean. */
  lemma DropLeavesNothingDown(s: State, order: seq<Code>)
    requires Lists(order, Held(s.log))
    ensures var t := Dropped(s, order);
            && Held(t.log) == {} && t.chord == IDLE
            && forall i, c :: 0 <= i < |t.log| && t.log[i] == KeyPress(c)
                 ==> exists j :: i < j < |t.log| && t.log[j] == KeyRelease(c)
  {
    AllReleased(s.log, order);
  }
}
