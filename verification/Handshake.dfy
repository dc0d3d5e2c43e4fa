/** The challenge handshake two peers run over reliable FIFO channels (client.go, doHandshake). */
module Handshake {
  import opened Bytes
  import opened PackageTypes
  import opened Packets

  const HELLO_COUNT := 10
  const READ_BUDGET := 20

  /** Who a peer is and the challenge it drew. */
  datatype Identity = Identity(id: uint32, name: seq<byte>, challenge: HandshakeData)

  function BigEndian(b: seq<byte>): uint32
    requires |b| >= 4
  {
    b[0] as int * 0x100_0000 + b[1] as int * 0x1_0000 + b[2] as int * 0x100 + b[3] as int
  }

  /** The machine ID taken from the first four bytes of the random block; 0 and 255 are reserved. */
  function ChooseMachineId(ran: seq<byte>): (id: uint32)
    requires |ran| >= 4
    ensures id != 0 && id != ID_ALL
    ensures id == BigEndian(ran) <==> BigEndian(ran) != 0 && BigEndian(ran) != ID_ALL
    ensures id == BigEndian(ran) || id == 1
  {
    var v := BigEndian(ran);
    if v == 0 || v == 255 then 1 else v
  }

  /** The first random byte is the highest byte of the ID. */
  lemma MachineIdBytes(ran: seq<byte>)
    requires |ran| >= 4
    ensures var id := ChooseMachineId(ran);
            id == 1 || (&& id / 0x100_0000 == ran[0] && id / 0x1_0000 % 256 == ran[1]
                        && id / 0x100 % 256 == ran[2] && id % 256 == ran[3])
  {
    var a, b, c, d := ran[0] as int, ran[1] as int, ran[2] as int, ran[3] as int;
    var v := BigEndian(ran);
    Divide(v, 0x100_0000, a, 0x1_0000 * b + 0x100 * c + d);
    Divide(v, 0x1_0000, 0x100 * a + b, 0x100 * c + d);
    Divide(v, 0x100, 0x1_0000 * a + 0x100 * b + c, d);
    hide BigEndian;
  }

  lemma Divide(v: nat, m: nat, q: nat, r: nat)
    requires m in {0x100, 0x1_0000, 0x100_0000} && r < m && v == m * q + r
    ensures v / m == q && v % m == r
  {
  }

  function Complement(x: uint32): uint32 {
    0xFFFF_FFFF - x
  }

  function Inverse(h: HandshakeData): HandshakeData {
    HandshakeData(Complement(h.machine1), Complement(h.machine2), Complement(h.machine3), Complement(h.machine4))
  }

  /** The challenge packet; n packets have been sent before it. */
  function HelloPacket(me: Identity, n: nat): Packet
    requires n < 0x7FFF_FFFF
  {
    Plain(HANDSHAKE, n + 1, me.id, 0).(handshake := me.challenge, machineName := PaddedName(me.name))
  }

  function AckPacket(me: Identity, n: nat, hello: Packet): Packet
    requires n < 0x7FFF_FFFF
  {
    Plain(HANDSHAKE_ACK, n + 1, me.id, hello.src)
      .(handshake := Inverse(hello.handshake), machineName := PaddedName(me.name))
  }

  /** A challenge has type 126 and no addressee, its answer type 127 and the challenger as addressee; each word of
      the answer and of the challenge add up to all ones. Both carry the sender's padded name. */
  lemma ChallengeAndAnswer(me: Identity, n: nat, hello: Packet)
    requires n < 0x7FFF_FFFF
    ensures var c := HelloPacket(me, n);
            && c.kind == 126 && c.id == n + 1 && c.src == me.id && c.des == 0
            && c.handshake == me.challenge && c.machineName == PaddedName(me.name)
    ensures var a := AckPacket(me, n, hello);
            && a.kind == 127 && a.id == n + 1 && a.src == me.id && a.des == hello.src
            && a.machineName == PaddedName(me.name)
            && a.handshake.machine1 + hello.handshake.machine1 == 0xFFFF_FFFF
            && a.handshake.machine2 + hello.handshake.machine2 == 0xFFFF_FFFF
            && a.handshake.machine3 + hello.handshake.machine3 == 0xFFFF_FFFF
            && a.handshake.machine4 + hello.handshake.machine4 == 0xFFFF_FFFF
  {
  }

  // ---- One peer, against any sequence of incoming packets -----------------------------

  function FirstAck(inbox: seq<Packet>): (k: nat)
    ensures k <= |inbox| && (k < |inbox| ==> inbox[k].kind == HANDSHAKE_ACK)
    ensures forall i :: 0 <= i < k ==> inbox[i].kind != HANDSHAKE_ACK
  {
    if inbox == [] || inbox[0].kind == HANDSHAKE_ACK then 0 else 1 + FirstAck(inbox[1..])
  }

  function Hellos(me: Identity, n: nat): (r: seq<Packet>)
    requires n <= HELLO_COUNT
    ensures |r| == n && forall i :: 0 <= i < n ==> r[i] == HelloPacket(me, i)
  {
    seq(n, i requires 0 <= i < n => HelloPacket(me, i))
  }

  /** One answer for every challenge among the packets, in order; n packets were sent before. */
  function Answers(me: Identity, n: nat, inbox: seq<Packet>): (r: seq<Packet>)
    requires n + |inbox| < 0x7FFF_FFFF
    ensures |r| <= |inbox|
  {
    if inbox == [] then []
    else
      var last := |inbox| - 1;
      var before := Answers(me, n, inbox[..last]);
      if inbox[last].kind == HANDSHAKE then before + [AckPacket(me, n + |before|, inbox[last])] else before
  }

  /** Completes exactly when the first acknowledgement among the next 20 packets answers the challenge; it
      sends its 10 challenges and one answer per challenge read before that point. */
  method DoHandshake(me: Identity, inbox: seq<Packet>)
    returns (r: Result<(uint32, seq<byte>)>, outbox: seq<Packet>)
    ensures var k := FirstAck(inbox[..Min(|inbox|, 20)]);
            && (r.Ok? <==> k < Min(|inbox|, 20) && inbox[k].handshake == Inverse(me.challenge))
            && (r.Ok? ==> r.value == (inbox[k].src, MachineName(inbox[k])))
            && outbox == Hellos(me, 10) + Answers(me, 10, inbox[..k])
  {
    outbox := [];
    for i := 0 to HELLO_COUNT
      invariant outbox == Hellos(me, i)
    {
      outbox := outbox + [HelloPacket(me, i)];
    }
    ghost var hellos := outbox;
    ghost var seen := inbox[..Min(|inbox|, READ_BUDGET)];
    for i := 0 to READ_BUDGET
      invariant i <= |seen|
      invariant forall j :: 0 <= j < i ==> inbox[j].kind != HANDSHAKE_ACK
      invariant outbox == hellos + Answers(me, HELLO_COUNT, inbox[..i])
    {
      if i >= |inbox| {
        assert FirstAck(seen) == i;
        return Err("recv"), outbox;
      }
      var pkt := inbox[i];
      assert inbox[..i + 1][..i] == inbox[..i];
      if pkt.kind == HANDSHAKE {
        outbox := outbox + [AckPacket(me, |outbox|, pkt)];
        continue;
      }
      if pkt.kind == HANDSHAKE_ACK {
        assert FirstAck(seen) == i by { assert seen[i] == pkt; }
        if && pkt.handshake.machine1 == Complement(me.challenge.machine1)
           && pkt.handshake.machine2 == Complement(me.challenge.machine2)
           && pkt.handshake.machine3 == Complement(me.challenge.machine3)
           && pkt.handshake.machine4 == Complement(me.challenge.machine4) {
          return Ok((pkt.src, MachineName(pkt))), outbox;
        }
        return Err("handshake verification failed"), outbox;
      }
    }
    assert FirstAck(seen) == READ_BUDGET;
    r := Err("no HandshakeAck received");
  }

  /** The packets of type 126 among the packets, in order. */
  function Challenges(ps: seq<Packet>): (r: seq<Packet>)
    ensures |r| <= |ps|
  {
    if ps == [] then []
    else Challenges(ps[..|ps| - 1]) + if ps[|ps| - 1].kind == 126 then [ps[|ps| - 1]] else []
  }

  /** Against any incoming packets, each challenge is answered once, in order, and nothing else is. */
  lemma {:induction false} AnswersChallenges(me: Identity, n: nat, inbox: seq<Packet>)
    requires n + |inbox| < 0x7FFF_FFFF
    ensures var r, cs := Answers(me, n, inbox), Challenges(inbox);
            |r| == |cs| && forall i :: 0 <= i < |r| ==> r[i] == AckPacket(me, n + i, cs[i])
    decreases |inbox|
  {
    hide AckPacket;
    if inbox != [] {
      AnswersChallenges(me, n, inbox[..|inbox| - 1]);
    }
  }

  // ---- Two peers, every schedule ----------------------------------------------------

  datatype Pc =
    | Sending
    | Reading
    | Acking(ack: Packet)
    | Done(remoteId: uint32, remoteName: seq<byte>)
    | Failed

  datatype Peer = Peer(pc: Pc, sent: nat, received: nat)

  /** Peers 0 and 1; chan0 carries packets to peer 0. Packets arrive in canonical form. */
  datatype State = State(peer0: Peer, peer1: Peer, chan0: seq<Packet>, chan1: seq<Packet>) {
    function PeerOf(first: bool): Peer { if first then peer0 else peer1 }
    function Incoming(first: bool): seq<Packet> { if first then chan0 else chan1 }

    function With(first: bool, p: Peer, incoming: seq<Packet>, outgoing: seq<Packet>): State {
      if first then State(p, peer1, incoming, outgoing) else State(peer0, p, outgoing, incoming)
    }
  }

  datatype Pair = Pair(id0: Identity, id1: Identity) {
    function Of(first: bool): Identity { if first then id0 else id1 }
  }

  const INIT := State(Peer(Sending, 0, 0), Peer(Sending, 0, 0), [], [])

  predicate Enabled(s: State, first: bool) {
    var p := s.PeerOf(first);
    match p.pc
    case Reading => p.received >= READ_BUDGET || s.Incoming(first) != []
    case Done(_, _) => false
    case Failed => false
    case _ => p.sent < 0x7FFF_FFFF
  }

  function Read(me: Identity, p: Peer, pkt: Packet): Pc
    requires p.sent < 0x7FFF_FFFF
  {
    if pkt.kind == HANDSHAKE then Acking(AckPacket(me, p.sent, pkt))
    else if pkt.kind == HANDSHAKE_ACK then
      if pkt.handshake == Inverse(me.challenge) then Done(pkt.src, MachineName(pkt)) else Failed
    else Reading
  }

  function Next(ids: Pair, s: State, first: bool): State
    requires Enabled(s, first)
  {
    var me, p := ids.Of(first), s.PeerOf(first);
    var incoming, outgoing := s.Incoming(first), s.Incoming(!first);
    match p.pc
    case Sending =>
      s.With(first, Peer(if p.sent + 1 >= HELLO_COUNT then Reading else Sending, p.sent + 1, p.received),
             incoming, outgoing + [Canonical(HelloPacket(me, p.sent))])
    case Acking(ack) =>
      s.With(first, Peer(Reading, p.sent + 1, p.received), incoming, outgoing + [Canonical(ack)])
    case Reading =>
      if p.received >= READ_BUDGET || p.sent >= 0x7FFF_FFFF then s.With(first, p.(pc := Failed), incoming, outgoing)
      else s.With(first, Peer(Read(me, p, incoming[0]), p.sent, p.received + 1), incoming[1..], outgoing)
    case _ => s
  }

  /** A schedule says which peer moves at each step. */
  function Exec(ids: Pair, s: State, schedule: seq<bool>): Option<State>
    decreases |schedule|
  {
    if schedule == [] then Some(s)
    else if Enabled(s, schedule[0]) then Exec(ids, Next(ids, s, schedule[0]), schedule[1..])
    else None
  }

  /** The n-th packet a peer sends: 10 challenges, then one answer to each of the other's. */
  function Out(me: Identity, other: Identity, n: nat): Packet
    requires n < 2 * HELLO_COUNT
  {
    if n < HELLO_COUNT then HelloPacket(me, n)
    else AckPacket(me, n, Canonical(HelloPacket(other, n - HELLO_COUNT)))
  }

  predicate PeerInv(me: Identity, other: Identity, p: Peer) {
    match p.pc
    case Sending => p.sent < HELLO_COUNT && p.received == 0
    case Reading => p.sent == HELLO_COUNT + p.received && p.received <= HELLO_COUNT
    case Acking(ack) =>
      1 <= p.received <= HELLO_COUNT && p.sent == HELLO_COUNT + p.received - 1 && ack == Out(me, other, p.sent)
    case Done(id, name) =>
      p.sent == 2 * HELLO_COUNT && p.received == HELLO_COUNT + 1
      && id == other.id && name == TrimRight(PaddedName(other.name))
    case Failed => false
  }

  /** The channel to a reader holds exactly what the sender has sent and the reader has not read. */
  predicate ChannelInv(sender: Identity, reader: Identity, from: Peer, to: Peer, chan: seq<Packet>) {
    && to.received <= from.sent <= 2 * HELLO_COUNT
    && |chan| == from.sent - to.received
    && forall m :: 0 <= m < |chan| ==> chan[m] == Canonical(Out(sender, reader, to.received + m))
  }

  predicate Inv(ids: Pair, s: State) {
    && PeerInv(ids.id0, ids.id1, s.peer0)
    && PeerInv(ids.id1, ids.id0, s.peer1)
    && ChannelInv(ids.id1, ids.id0, s.peer1, s.peer0, s.chan0)
    && ChannelInv(ids.id0, ids.id1, s.peer0, s.peer1, s.chan1)
  }

  lemma CanonicalHandshake(p: Packet)
    requires HasHandshake(p.kind) && p.clipboardData.None?
    ensures var c := Canonical(p);
            c.kind == p.kind && c.src == p.src && c.handshake == p.handshake && c.machineName == p.machineName
  {
  }

  lemma OutCanonical(me: Identity, other: Identity, n: nat)
    requires n < 2 * HELLO_COUNT
    ensures var c := Canonical(Out(me, other, n));
            && c.src == me.id && c.machineName == PaddedName(me.name)
            && (n < HELLO_COUNT ==> c == Canonical(HelloPacket(me, n)) && c.kind == HANDSHAKE)
            && (n >= HELLO_COUNT ==> c.kind == HANDSHAKE_ACK && c.handshake == Inverse(other.challenge))
  {
    CanonicalHandshake(Out(me, other, n));
    if n >= HELLO_COUNT {
      CanonicalHandshake(HelloPacket(other, n - HELLO_COUNT));
    }
  }

  predicate SideInv(me: Identity, other: Identity, p: Peer, q: Peer, incoming: seq<Packet>, outgoing: seq<Packet>) {
    && PeerInv(me, other, p)
    && ChannelInv(other, me, q, p, incoming)
    && ChannelInv(me, other, p, q, outgoing)
  }

  function Assemble(first: bool, p: Peer, q: Peer, incoming: seq<Packet>, outgoing: seq<Packet>): State {
    if first then State(p, q, incoming, outgoing) else State(q, p, outgoing, incoming)
  }

  function Order(first: bool, me: Identity, other: Identity): Pair {
    if first then Pair(me, other) else Pair(other, me)
  }

  /** One step of one peer, seen from that peer: a sending step ... */
  lemma SendInv(me: Identity, other: Identity, p: Peer, q: Peer,
                incoming: seq<Packet>, outgoing: seq<Packet>, first: bool)
    requires SideInv(me, other, p, q, incoming, outgoing) && (p.pc.Sending? || p.pc.Acking?)
    requires Enabled(Assemble(first, p, q, incoming, outgoing), first)
    ensures var u := Next(Order(first, me, other), Assemble(first, p, q, incoming, outgoing), first);
            var p' := u.PeerOf(first);
            && u == Assemble(first, p', q, u.Incoming(first), u.Incoming(!first))
            && SideInv(me, other, p', q, u.Incoming(first), u.Incoming(!first))
            && p'.sent + p'.received == p.sent + p.received + 1
  {
    hide Canonical, HelloPacket, AckPacket;
  }

  lemma ReadResult(me: Identity, other: Identity, p: Peer, pkt: Packet)
    requires PeerInv(me, other, p) && p.pc.Reading? && pkt == Canonical(Out(other, me, p.received))
    ensures PeerInv(me, other, Peer(Read(me, p, pkt), p.sent, p.received + 1))
  {
    OutCanonical(other, me, p.received);
    NameOf(pkt);
    hide Canonical, HelloPacket, Inverse, MachineName, PaddedName, TrimRight;
    if p.received < HELLO_COUNT {
      assert AckPacket(me, p.sent, pkt) == Out(me, other, p.sent);
    }
  }

  lemma ChannelPop(sender: Identity, reader: Identity, from: Peer, to: Peer, chan: seq<Packet>, pc: Pc)
    requires ChannelInv(sender, reader, from, to, chan) && chan != []
    ensures ChannelInv(sender, reader, from, Peer(pc, to.sent, to.received + 1), chan[1..])
    ensures chan[0] == Canonical(Out(sender, reader, to.received))
  {
    hide Canonical, Out;
  }

  lemma ChannelSame(sender: Identity, reader: Identity, from: Peer, from': Peer, to: Peer, chan: seq<Packet>)
    requires ChannelInv(sender, reader, from, to, chan) && from'.sent == from.sent
    ensures ChannelInv(sender, reader, from', to, chan)
  {
    hide Canonical, Out;
  }

  /** ... and a reading one. */
  lemma ReadInv(me: Identity, other: Identity, p: Peer, q: Peer,
                incoming: seq<Packet>, outgoing: seq<Packet>, first: bool)
    requires SideInv(me, other, p, q, incoming, outgoing) && p.pc.Reading?
    requires Enabled(Assemble(first, p, q, incoming, outgoing), first)
    ensures var u := Next(Order(first, me, other), Assemble(first, p, q, incoming, outgoing), first);
            var p' := u.PeerOf(first);
            && u == Assemble(first, p', q, u.Incoming(first), u.Incoming(!first))
            && SideInv(me, other, p', q, u.Incoming(first), u.Incoming(!first))
            && p'.sent + p'.received == p.sent + p.received + 1
  {
    assert incoming != [] && p.received < READ_BUDGET && p.sent < 0x7FFF_FFFF;
    hide Canonical, Out, PeerInv, ChannelInv, Read;
    var pc := Read(me, p, incoming[0]);
    ChannelPop(other, me, q, p, incoming, pc);
    ReadResult(me, other, p, incoming[0]);
    ChannelSame(me, other, p, Peer(pc, p.sent, p.received + 1), q, outgoing);
  }

  lemma NameOf(p: Packet)
    ensures MachineName(p) == TrimRight(p.machineName)
  {
  }

  function Progress(s: State): nat {
    s.peer0.sent + s.peer0.received + s.peer1.sent + s.peer1.received
  }

  lemma {:induction false} InvAlways(ids: Pair, s: State, schedule: seq<bool>)
    requires Inv(ids, s) && Exec(ids, s, schedule).Some?
    ensures var u := Exec(ids, s, schedule).value;
            Inv(ids, u) && Progress(u) == Progress(s) + |schedule|
    decreases |schedule|
  {
    if schedule != [] {
      var first := schedule[0];
      var u := Next(ids, s, first);
      var me, other := ids.Of(first), ids.Of(!first);
      if s.PeerOf(first).pc.Reading? {
        ReadInv(me, other, s.PeerOf(first), s.PeerOf(!first), s.Incoming(first), s.Incoming(!first), first);
      } else {
        SendInv(me, other, s.PeerOf(first), s.PeerOf(!first), s.Incoming(first), s.Incoming(!first), first);
      }
      assert Inv(ids, u) && Progress(u) == Progress(s) + 1 by {
        hide Next, PeerInv, ChannelInv, Enabled;
      }
      hide Next, Inv, Enabled;
      InvAlways(ids, u, schedule[1..]);
    }
  }

  predicate BothDone(s: State) {
    s.peer0.pc.Done? && s.peer1.pc.Done?
  }

  const TOTAL_STEPS := 62

  /** A peer that is done with the given other: 10 challenges and 10 answers sent, 11 packets read, and the
      other's ID and trimmed name known. */
  function Finished(other: Identity): Peer {
    Peer(Done(other.id, TrimRight(PaddedName(other.name))), 2 * HELLO_COUNT, HELLO_COUNT + 1)
  }

  /** In every schedule neither peer ever fails or exceeds its read budget, some peer can always move until
      both are done, both are done after exactly 62 steps (each peer's 10 challenges, 10 answers, 10
      challenges read and 1 answer read), and a peer that is done, first or second, is finished as above. */
  lemma HandshakeCompletes(ids: Pair, schedule: seq<bool>)
    requires Exec(ids, INIT, schedule).Some?
    ensures var s := Exec(ids, INIT, schedule).value;
            && !s.peer0.pc.Failed? && !s.peer1.pc.Failed?
            && s.peer0.received <= HELLO_COUNT + 1 < READ_BUDGET && s.peer1.received <= HELLO_COUNT + 1
            && |s.chan0| <= 2 * HELLO_COUNT && |s.chan1| <= 2 * HELLO_COUNT
            && |schedule| <= TOTAL_STEPS
            && (BothDone(s) <==> |schedule| == TOTAL_STEPS)
            && (BothDone(s) <==> !Enabled(s, true) && !Enabled(s, false))
            && (s.peer0.pc.Done? ==> s.peer0 == Finished(ids.id1))
            && (s.peer1.pc.Done? ==> s.peer1 == Finished(ids.id0))
  {
    InvAlways(ids, INIT, schedule);
    hide Canonical, HelloPacket, AckPacket, PaddedName, TrimRight;
  }

  /** The answers of a peer to the other's challenges 2 to 10, as they arrive. */
  function Spare(me: Identity, other: Identity): (r: seq<Packet>)
    ensures |r| == HELLO_COUNT - 1
    ensures forall m :: 0 <= m < HELLO_COUNT - 1 ==>
              r[m] == Canonical(AckPacket(me, HELLO_COUNT + 1 + m, Canonical(HelloPacket(other, m + 1))))
  {
    seq(HELLO_COUNT - 1, m requires 0 <= m < HELLO_COUNT - 1 =>
      Canonical(AckPacket(me, HELLO_COUNT + 1 + m, Canonical(HelloPacket(other, m + 1)))))
  }

  /** After both are done each channel still holds exactly the answers to challenges 2 to 10, in order. */
  lemma SpareAnswers(ids: Pair, schedule: seq<bool>)
    requires Exec(ids, INIT, schedule).Some? && BothDone(Exec(ids, INIT, schedule).value)
    ensures var s := Exec(ids, INIT, schedule).value;
            && s.chan0 == Spare(ids.id1, ids.id0) && s.chan1 == Spare(ids.id0, ids.id1)
            && forall m :: 0 <= m < HELLO_COUNT - 1 ==>
                 && s.chan0[m].kind == HANDSHAKE_ACK && s.chan0[m].handshake == Inverse(ids.id0.challenge)
                 && s.chan1[m].kind == HANDSHAKE_ACK && s.chan1[m].handshake == Inverse(ids.id1.challenge)
  {
    InvAlways(ids, INIT, schedule);
    hide Canonical, HelloPacket, AckPacket, PaddedName, TrimRight, Inverse, Exec, Spare, ChannelInv, Out;
    var s := Exec(ids, INIT, schedule).value;
    SpareSide(ids.id1, ids.id0, s.peer1, s.peer0, s.chan0);
    SpareSide(ids.id0, ids.id1, s.peer0, s.peer1, s.chan1);
  }

  lemma SpareSide(sender: Identity, reader: Identity, from: Peer, to: Peer, chan: seq<Packet>)
    requires ChannelInv(sender, reader, from, to, chan)
    requires from.sent == 2 * HELLO_COUNT && to.received == HELLO_COUNT + 1
    ensures chan == Spare(sender, reader)
    ensures forall m :: 0 <= m < HELLO_COUNT - 1 ==>
              chan[m].kind == HANDSHAKE_ACK && chan[m].handshake == Inverse(reader.challenge)
  {
    hide Canonical, HelloPacket, AckPacket, PaddedName, Inverse;
    forall m | 0 <= m < HELLO_COUNT - 1
      ensures chan[m] == Spare(sender, reader)[m]
      ensures chan[m].kind == HANDSHAKE_ACK && chan[m].handshake == Inverse(reader.challenge)
    {
      OutCanonical(sender, reader, HELLO_COUNT + 1 + m);
    }
  }

  /** The first n packets a peer sends, as the other receives them. */
  function Outs(me: Identity, other: Identity, n: nat): (r: seq<Packet>)
    requires n <= 2 * HELLO_COUNT
    ensures |r| == n && forall i :: 0 <= i < n ==> r[i] == Canonical(Out(me, other, i))
  {
    seq(n, i requires 0 <= i < n => Canonical(Out(me, other, i)))
  }

  lemma {:induction false} AnswersAre(me: Identity, other: Identity, n: nat)
    requires n <= HELLO_COUNT
    ensures var r := Answers(me, HELLO_COUNT, Outs(other, me, n));
            |r| == n && forall i :: 0 <= i < n ==> r[i] == Out(me, other, HELLO_COUNT + i)
  {
    if n > 0 {
      AnswersAre(me, other, n - 1);
      OutCanonical(other, me, n - 1);
      hide Canonical, HelloPacket;
      assert Outs(other, me, n)[..n - 1] == Outs(other, me, n - 1);
    }
  }

  /** The schedules' peers and the method DoHandshake agree: on what the other peer sends, the first
      acknowledgement is the 11th packet, it answers the challenge, and the packets sent are the 20 of Out. */
  lemma MethodAgrees(me: Identity, other: Identity, n: nat)
    requires HELLO_COUNT < n <= 2 * HELLO_COUNT
    ensures var inbox := Outs(other, me, n);
            && FirstAck(inbox[..Min(n, READ_BUDGET)]) == HELLO_COUNT
            && inbox[HELLO_COUNT].handshake == Inverse(me.challenge)
            && inbox[HELLO_COUNT].src == other.id
            && MachineName(inbox[HELLO_COUNT]) == TrimRight(PaddedName(other.name))
            && var sent := Hellos(me, HELLO_COUNT) + Answers(me, HELLO_COUNT, inbox[..HELLO_COUNT]);
               |sent| == 2 * HELLO_COUNT && forall i :: 0 <= i < |sent| ==> sent[i] == Out(me, other, i)
  {
    hide Canonical, HelloPacket, AckPacket, MachineName, PaddedName, TrimRight, Inverse;
    var inbox := Outs(other, me, n);
    forall i | 0 <= i < n ensures (inbox[i].kind == HANDSHAKE_ACK) == (i >= HELLO_COUNT) {
      OutCanonical(other, me, i);
    }
    OutCanonical(other, me, HELLO_COUNT);
    NameOf(inbox[HELLO_COUNT]);
    AnswersAre(me, other, HELLO_COUNT);
    assert inbox[..Min(n, READ_BUDGET)] == inbox;
    FirstAckAt(inbox, HELLO_COUNT);
    assert inbox[..HELLO_COUNT] == Outs(other, me, HELLO_COUNT);
  }

  lemma FirstAckAt(inbox: seq<Packet>, k: nat)
    requires k < |inbox| && inbox[k].kind == HANDSHAKE_ACK
    requires forall i :: 0 <= i < k ==> inbox[i].kind != HANDSHAKE_ACK
    ensures FirstAck(inbox) == k
  {
  }
}
