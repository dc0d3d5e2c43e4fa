/** Any number of goroutines sharing one connection: the atomic packet-ID counter with its separate
    load, store and add, and the send lock around the encrypting writer (client.go). A lone packet is
    numbered before the lock is taken, the packets of a batch while it is held. */
module Senders {
  import opened Bytes
  import opened PackageTypes
  import opened Packets
  import opened Stamp
  import opened Stream
  import opened Connection

  /** What a goroutine is sending: SendPacket of one packet, or SendPackets at its k-th packet. */
  datatype Task = Lone(p: Packet) | Batch(ps: seq<Packet>, k: nat)

  /** Where a goroutine is. Each value names the atomic step it takes next. */
  datatype Pc =
    | Idle
    | AcquireBatch(ps: seq<Packet>)
    | Load(t: Task)
    | Store(t: Task)
    | Add(t: Task)
    | AcquireLone(numbered: Packet)
    | Write(t: Task, numbered: Packet)
    | Release

  datatype State = State(
    nextID: int32,
    lock: Option<nat>,
    pcs: seq<Pc>,
    history: seq<seq<Packet>>,  // the packets of each lock holder so far, in lock order, IDs erased
    log: seq<Packet>,           // every packet written to the encrypting writer
    issued: seq<int32>,      // every ID the counter handed out
    cipherText: seq<byte>,
    chain: Block)

  datatype Config = Config(threads: nat, cipher: Cipher, iv: Block, magic: uint32)

  datatype Action = SendOne(tid: nat, p: Packet) | SendMany(tid: nat, ps: seq<Packet>) | Step(tid: nat)

  function Init(cfg: Config): State {
    State(0, None, seq(cfg.threads, _ => Idle), [], [], [], [], cfg.iv)
  }

  predicate WellFormedTask(t: Task) {
    t.Batch? ==> t.k < |t.ps|
  }

  function CurrentPacket(t: Task): Packet
    requires WellFormedTask(t)
  {
    match t case Lone(p) => p case Batch(ps, k) => ps[k]
  }

  predicate WellFormed(pc: Pc) {
    pc.Load? || pc.Store? || pc.Add? || pc.Write? ==> WellFormedTask(pc.t)
  }

  predicate Enabled(s: State, a: Action) {
    && a.tid < |s.pcs|
    && WellFormed(s.pcs[a.tid])
    && (if a.Step? then
          var pc := s.pcs[a.tid];
          !pc.Idle? && (pc.AcquireBatch? || pc.AcquireLone? ==> s.lock.None?)
        else s.pcs[a.tid].Idle?)
  }

  function EraseId(p: Packet): Packet {
    p.(id := 0)
  }

  function EraseIds(ps: seq<Packet>): (r: seq<Packet>)
    ensures |r| == |ps| && forall i :: 0 <= i < |ps| ==> r[i] == EraseId(ps[i])
  {
    seq(|ps|, i requires 0 <= i < |ps| => EraseId(ps[i]))
  }

  function GoTo(s: State, tid: nat, pc: Pc): State
    requires tid < |s.pcs|
  {
    s.(pcs := s.pcs[tid := pc])
  }

  /** The loop of SendPackets: on to the next packet, or out. */
  function NextInBatch(ps: seq<Packet>, k: nat): Pc {
    if k < |ps| then Load(Batch(ps, k)) else Release
  }

  function Next(cfg: Config, s: State, a: Action): State
    requires Enabled(s, a)
  {
    var tid := a.tid;
    match a
    case SendOne(_, p) => GoTo(s, tid, Load(Lone(p)))
    case SendMany(_, ps) => GoTo(s, tid, AcquireBatch(ps))
    case Step(_) =>
      match s.pcs[tid]
      case AcquireBatch(ps) =>
        GoTo(s, tid, NextInBatch(ps, 0)).(lock := Some(tid), history := s.history + [EraseIds(ps)])
      case Load(t) => GoTo(s, tid, if s.nextID >= ID_WRAP then Store(t) else Add(t))
      case Store(t) => GoTo(s, tid, Add(t)).(nextID := 0)
      case Add(t) =>
        var id := Wrap32(s.nextID + 1);
        var p := CurrentPacket(t).(id := id);
        GoTo(s, tid, if t.Lone? then AcquireLone(p) else Write(t, p)).(nextID := id, issued := s.issued + [id])
      case AcquireLone(p) =>
        GoTo(s, tid, Write(Lone(p), p)).(lock := Some(tid), history := s.history + [[EraseId(p)]])
      case Write(t, p) =>
        WireBytesAligned(p, cfg.magic);
        var ct := Encrypt(cfg.cipher, s.chain, WireBytes(p, cfg.magic));
        GoTo(s, tid, if t.Lone? then Release else NextInBatch(t.ps, t.k + 1))
          .(log := s.log + [p], cipherText := s.cipherText + ct, chain := Chained(s.chain, ct))
      case Release => GoTo(s, tid, Idle).(lock := None)
  }

  lemma WireBytesAligned(p: Packet, magic: uint32)
    ensures Aligned(WireBytes(p, magic))
  {
  }

  function Exec(cfg: Config, s: State, acts: seq<Action>): Option<State>
    decreases |acts|
  {
    if acts == [] then Some(s)
    else if Enabled(s, acts[0]) then Exec(cfg, Next(cfg, s, acts[0]), acts[1..])
    else None
  }

  lemma {:induction false} ExecConcat(cfg: Config, s: State, a: seq<Action>, b: seq<Action>)
    requires Exec(cfg, s, a).Some?
    ensures Exec(cfg, s, a + b) == Exec(cfg, Exec(cfg, s, a).value, b)
    decreases |a|
  {
    hide Next;
    if a == [] {
      assert a + b == b;
    } else {
      assert (a + b)[1..] == a[1..] + b;
      ExecConcat(cfg, Next(cfg, s, a[0]), a[1..], b);
    }
  }

  // ---- The lock and the order on the wire ----------------------------------------

  /** Is the goroutine inside the critical section? */
  predicate Holds(pc: Pc) {
    pc.Write? || pc.Release? || ((pc.Load? || pc.Store? || pc.Add?) && pc.t.Batch?)
  }

  /** What a goroutine inside the critical section has still to write. */
  function Remaining(pc: Pc): seq<Packet>
    requires Holds(pc) && WellFormed(pc)
  {
    if pc.Release? then []
    else if pc.t.Lone? then [EraseId(pc.t.p)]
    else EraseIds(pc.t.ps[pc.t.k..])
  }

  predicate Exclusive(s: State) {
    && (forall t :: 0 <= t < |s.pcs| ==> WellFormed(s.pcs[t]) && (Holds(s.pcs[t]) <==> s.lock == Some(t)))
    && (s.lock.Some? ==> s.lock.value < |s.pcs|)
    && (forall t :: 0 <= t < |s.pcs| && s.pcs[t].Write? ==>
          EraseId(s.pcs[t].numbered) == EraseId(CurrentPacket(s.pcs[t].t)))
  }

  /** Up to IDs, the packets written plus what the lock holder still owes are the batches in lock order. */
  predicate Ordered(s: State)
    requires Exclusive(s)
  {
    Concat(s.history) == EraseIds(s.log) + (if s.lock.None? then [] else Remaining(s.pcs[s.lock.value]))
  }

  lemma ExclusiveStep(cfg: Config, s: State, a: Action)
    requires Exclusive(s) && Enabled(s, a)
    ensures Exclusive(Next(cfg, s, a))
  {
    hide WireBytes, Encrypt, EraseIds, Wrap32;
    var u := Next(cfg, s, a);
    var pc := u.pcs[a.tid];
    assert s.lock == Some(a.tid) <==> Holds(s.pcs[a.tid]);
    assert WellFormed(pc) && (Holds(pc) <==> u.lock == Some(a.tid));
  }

  lemma AcquireOrdered(cfg: Config, s: State, tid: nat)
    requires Exclusive(s) && Ordered(s) && Enabled(s, Step(tid))
    requires s.pcs[tid].AcquireBatch? || s.pcs[tid].AcquireLone?
    ensures Exclusive(Next(cfg, s, Step(tid))) && Ordered(Next(cfg, s, Step(tid)))
  {
    ExclusiveStep(cfg, s, Step(tid));
    hide WireBytes, Encrypt, Exclusive;
    var pc := s.pcs[tid];
    var job := if pc.AcquireBatch? then EraseIds(pc.ps) else [EraseId(pc.numbered)];
    ConcatAppend(s.history, [job]);
    ConcatSingle(job);
    assert pc.AcquireBatch? ==> pc.ps[0..] == pc.ps;
  }

  lemma WriteOrdered(cfg: Config, s: State, tid: nat)
    requires Exclusive(s) && Ordered(s) && Enabled(s, Step(tid)) && s.pcs[tid].Write?
    ensures Exclusive(Next(cfg, s, Step(tid))) && Ordered(Next(cfg, s, Step(tid)))
  {
    ExclusiveStep(cfg, s, Step(tid));
    var p := EraseId(s.pcs[tid].numbered);
    assert s.lock == Some(tid) && p == EraseId(CurrentPacket(s.pcs[tid].t));
    hide WireBytes, Encrypt, Exclusive, Concat;
    var u := Next(cfg, s, Step(tid));
    var rest := Remaining(u.pcs[tid]);
    assert Remaining(s.pcs[tid]) == [p] + rest;
    assert EraseIds(u.log) == EraseIds(s.log) + [p];
    Assoc(EraseIds(s.log), [p], rest);
  }

  lemma OtherOrdered(cfg: Config, s: State, a: Action)
    requires Exclusive(s) && Ordered(s) && Enabled(s, a)
    requires a.Step? ==> !s.pcs[a.tid].AcquireBatch? && !s.pcs[a.tid].AcquireLone? && !s.pcs[a.tid].Write?
    ensures Exclusive(Next(cfg, s, a)) && Ordered(Next(cfg, s, a))
  {
    ExclusiveStep(cfg, s, a);
    var u := Next(cfg, s, a);
    var tid := a.tid;
    assert s.lock == Some(tid) <==> Holds(s.pcs[tid]);
    assert u.lock.Some? ==> u.lock == s.lock && Holds(s.pcs[s.lock.value]) && Holds(u.pcs[s.lock.value]);
    hide WireBytes, Encrypt, EraseIds, EraseId, Concat, Exclusive;
    if a.Step? && s.pcs[tid].Release? {
      assert Remaining(s.pcs[tid]) == [];
    } else if s.lock == Some(tid) {
      assert Remaining(u.pcs[tid]) == Remaining(s.pcs[tid]);
    }
  }

  lemma OrderedStep(cfg: Config, s: State, a: Action)
    requires Exclusive(s) && Ordered(s) && Enabled(s, a)
    ensures Exclusive(Next(cfg, s, a)) && Ordered(Next(cfg, s, a))
  {
    hide Next, Ordered, Exclusive;
    if a.Step? && (s.pcs[a.tid].AcquireBatch? || s.pcs[a.tid].AcquireLone?) {
      AcquireOrdered(cfg, s, a.tid);
    } else if a.Step? && s.pcs[a.tid].Write? {
      WriteOrdered(cfg, s, a.tid);
    } else {
      OtherOrdered(cfg, s, a);
    }
  }

  /** The ciphertext is one CBC stream over whole stamped packets. */
  predicate OneStream(cfg: Config, s: State) {
    WireStreamAligned(s.log, cfg.magic);
    && s.cipherText == Encrypt(cfg.cipher, cfg.iv, WireStream(s.log, cfg.magic))
    && s.chain == Chained(cfg.iv, s.cipherText)
  }

  lemma OneStreamStep(cfg: Config, s: State, a: Action)
    requires OneStream(cfg, s) && Enabled(s, a)
    ensures OneStream(cfg, Next(cfg, s, a))
  {
    hide WireBytes, Encrypt, Chained, EraseIds;
    if a.Step? && s.pcs[a.tid].Write? {
      var p := s.pcs[a.tid].numbered;
      var w := WireBytes(p, cfg.magic);
      WireBytesAligned(p, cfg.magic);
      WireStreamAligned(s.log, cfg.magic);
      WireStreamConcat(s.log, [p], cfg.magic);
      assert WireStream([p], cfg.magic) == w + WireStream([], cfg.magic) == w;
      EncryptConcat(cfg.cipher, cfg.iv, WireStream(s.log, cfg.magic), w);
      ChainedConcat(cfg.iv, s.cipherText, Encrypt(cfg.cipher, s.chain, w));
    }
  }

  ghost predicate Inv(cfg: Config, s: State) {
    |s.pcs| == cfg.threads && Exclusive(s) && Ordered(s) && OneStream(cfg, s)
  }

  lemma InitInv(cfg: Config)
    ensures Inv(cfg, Init(cfg))
  {
    assert EraseIds([]) == [];
  }

  lemma SamePcs(cfg: Config, s: State, a: Action)
    requires Enabled(s, a)
    ensures a.tid < |s.pcs| == |Next(cfg, s, a).pcs|
  {
    hide WireBytes, Encrypt, Wrap32, EraseId, EraseIds, Chained;
  }

  lemma {:induction false} InvAlways(cfg: Config, s: State, acts: seq<Action>)
    requires Inv(cfg, s) && Exec(cfg, s, acts).Some?
    ensures Inv(cfg, Exec(cfg, s, acts).value)
    decreases |acts|
  {
    if acts != [] {
      var u := Next(cfg, s, acts[0]);
      hide Next, OneStream, Ordered, Exclusive, Enabled;
      SamePcs(cfg, s, acts[0]);
      OrderedStep(cfg, s, acts[0]);
      OneStreamStep(cfg, s, acts[0]);
      InvAlways(cfg, u, acts[1..]);
    }
  }

  /** In every schedule and at every moment the receiver decodes exactly the canonical packets written so far,
      which are, IDs apart, the whole batches in lock order cut short inside the last one: not cut at all
      when the lock is free. */
  lemma WholeBatchesOnTheWire(cfg: Config, acts: seq<Action>)
    requires cfg.cipher.Lawful() && Exec(cfg, Init(cfg), acts).Some?
    ensures var s := Exec(cfg, Init(cfg), acts).value;
            var r := RecvMany(cfg.cipher, cfg.magic, Reader(cfg.iv, s.cipherText), |s.log|);
            && r.Ok? && r.value.1 == Reader(s.chain, [])
            && |r.value.0| == |s.log|
            && (forall i :: 0 <= i < |s.log| ==> r.value.0[i].packet == Canonical(s.log[i]))
    ensures var s := Exec(cfg, Init(cfg), acts).value;
            var n := |s.history|;
            && EraseIds(s.log) <= Concat(s.history)
            && (s.lock.None? ==> EraseIds(s.log) == Concat(s.history))
            && (s.lock.Some? ==> n > 0 && Concat(s.history[..n - 1]) <= EraseIds(s.log))
  {
    InitInv(cfg);
    InvAlways(cfg, Init(cfg), acts);
    OwesAlways(cfg, Init(cfg), acts);
    var s := Exec(cfg, Init(cfg), acts).value;
    Decodable(cfg, s);
    hide EraseIds, OneStream, Exec, Init, Concat, Next, Remaining;
    if s.lock.Some? {
      ConcatLast(s.history);
      CutInside(EraseIds(s.log), Remaining(s.pcs[s.lock.value]), Concat(s.history[..|s.history| - 1]),
                s.history[|s.history| - 1]);
    }
  }

  /** The lock holder owes no more than the batch it took the lock for. */
  predicate Owes(s: State)
    requires Exclusive(s)
  {
    s.lock.Some? ==>
      s.history != [] && |Remaining(s.pcs[s.lock.value])| <= |s.history[|s.history| - 1]|
  }

  lemma HolderIs(s: State, t: nat)
    requires Exclusive(s) && t < |s.pcs|
    ensures s.lock == Some(t) <==> Holds(s.pcs[t])
    ensures WellFormed(s.pcs[t])
    ensures s.lock.Some? ==> s.lock.value < |s.pcs| && Holds(s.pcs[s.lock.value]) && WellFormed(s.pcs[s.lock.value])
  {
  }

  /** A step of the holder, or one that takes the lock, leaves no more to write than its batch. */
  lemma OwnStepOwes(cfg: Config, s: State, a: Action)
    requires Enabled(s, a) && WellFormed(Next(cfg, s, a).pcs[a.tid]) && Holds(Next(cfg, s, a).pcs[a.tid])
    ensures var u := Next(cfg, s, a);
            var after := |Remaining(u.pcs[a.tid])|;
            if Holds(s.pcs[a.tid]) then after <= |Remaining(s.pcs[a.tid])| && u.history == s.history
            else u.history != [] && after <= |u.history[|u.history| - 1]|
  {
    hide WireBytes, Encrypt, Wrap32, EraseId, EraseIds, Chained;
  }

  lemma OtherPc(cfg: Config, s: State, a: Action, t: nat)
    requires Enabled(s, a) && t < |s.pcs| && t != a.tid
    ensures var u := Next(cfg, s, a);
            |u.pcs| == |s.pcs| && u.pcs[t] == s.pcs[t]
  {
    hide WireBytes, Encrypt, Wrap32, EraseId, EraseIds, Chained;
  }

  lemma LockKept(cfg: Config, s: State, a: Action)
    requires Enabled(s, a) && Next(cfg, s, a).lock.Some? && Next(cfg, s, a).lock != Some(a.tid)
    ensures Next(cfg, s, a).lock == s.lock && Next(cfg, s, a).history == s.history
  {
    hide WireBytes, Encrypt, Wrap32, EraseId, EraseIds, Chained;
  }

  lemma OwesStep(cfg: Config, s: State, a: Action)
    requires Exclusive(s) && Owes(s) && Enabled(s, a)
    ensures Exclusive(Next(cfg, s, a)) && Owes(Next(cfg, s, a))
  {
    ExclusiveStep(cfg, s, a);
    SamePcs(cfg, s, a);
    hide Next, Exclusive, Remaining, Enabled, Holds;
    var u := Next(cfg, s, a);
    HolderIs(s, a.tid);
    HolderIs(u, a.tid);
    if u.lock == Some(a.tid) {
      OwnStepOwes(cfg, s, a);
    } else if u.lock.Some? {
      LockKept(cfg, s, a);
      OtherPc(cfg, s, a, u.lock.value);
    }
  }

  lemma {:induction false} OwesAlways(cfg: Config, s: State, acts: seq<Action>)
    requires Exclusive(s) && Owes(s) && Exec(cfg, s, acts).Some?
    ensures Exclusive(Exec(cfg, s, acts).value) && Owes(Exec(cfg, s, acts).value)
    decreases |acts|
  {
    if acts != [] {
      OwesStep(cfg, s, acts[0]);
      hide Next, Exclusive, Owes;
      OwesAlways(cfg, Next(cfg, s, acts[0]), acts[1..]);
    }
  }

  lemma CutInside<T>(log: seq<T>, owed: seq<T>, before: seq<T>, last: seq<T>)
    requires log + owed == before + last && |owed| <= |last|
    ensures before <= log <= before + last
  {
    assert (log + owed)[..|before|] == before && (log + owed)[..|log|] == log;
    assert log[..|before|] == (log + owed)[..|before|];
  }

  lemma Decodable(cfg: Config, s: State)
    requires cfg.cipher.Lawful() && OneStream(cfg, s)
    ensures var r := RecvMany(cfg.cipher, cfg.magic, Reader(cfg.iv, s.cipherText), |s.log|);
            && r.Ok? && r.value.1 == Reader(s.chain, []) && |r.value.0| == |s.log|
            && forall i :: 0 <= i < |s.log| ==> r.value.0[i].packet == Canonical(s.log[i])
  {
    hide WireBytes, Canonical, MarshalBytes, Recv;
    var w := WireStream(s.log, cfg.magic);
    WireStreamAligned(s.log, cfg.magic);
    assert w + [] == w;
    RecvStream(cfg.cipher, cfg.magic, Reader(cfg.iv, s.cipherText), s.log, []);
    RecvManyChain(cfg.cipher, cfg.magic, Reader(cfg.iv, s.cipherText), |s.log|);
  }

  lemma RecvChain(c: Cipher, magic: uint32, s: Reader)
    requires Aligned(s.input) && Recv(c, magic, s).Ok?
    ensures var t := Recv(c, magic, s).value.1;
            Aligned(t.input) && Chained(t.chain, t.input) == Chained(s.chain, s.input)
  {
    hide Validate, Decrypt, Decoded, Chained, IsBigPacket;
    assert RoundUp(PACKET_SIZE) == PACKET_SIZE;
    AdvanceChain(s, PACKET_SIZE);
    if |s.input| >= PACKET_SIZE_EX {
      AdvanceChain(Advance(s, PACKET_SIZE), PACKET_SIZE);
    }
  }

  lemma AdvanceChain(s: Reader, n: nat)
    requires Aligned(s.input) && n <= |s.input| && n % BLOCK == 0
    ensures var t := Advance(s, n);
            Aligned(t.input) && Chained(t.chain, t.input) == Chained(s.chain, s.input)
  {
    ChainedConcat(s.chain, s.input[..n], s.input[n..]);
    assert s.input == s.input[..n] + s.input[n..];
  }

  lemma {:induction false} RecvManyChain(c: Cipher, magic: uint32, s: Reader, n: nat)
    requires Aligned(s.input) && RecvMany(c, magic, s, n).Ok?
    ensures var t := RecvMany(c, magic, s, n).value.1;
            Aligned(t.input) && Chained(t.chain, t.input) == Chained(s.chain, s.input)
    decreases n
  {
    hide Recv, Chained;
    if n > 0 {
      RecvChain(c, magic, s);
      RecvManyChain(c, magic, Recv(c, magic, s).value.1, n - 1);
    }
  }

  /** No schedule gets stuck: while some goroutine is sending, some goroutine can step. */
  lemma NoDeadlock(cfg: Config, acts: seq<Action>, t: nat) returns (tid: nat)
    requires Exec(cfg, Init(cfg), acts).Some?
    requires t < |Exec(cfg, Init(cfg), acts).value.pcs| && !Exec(cfg, Init(cfg), acts).value.pcs[t].Idle?
    ensures Enabled(Exec(cfg, Init(cfg), acts).value, Step(tid))
  {
    InitInv(cfg);
    InvAlways(cfg, Init(cfg), acts);
    hide Next, Exec, OneStream, Ordered;
    var s := Exec(cfg, Init(cfg), acts).value;
    tid := if s.lock.Some? then s.lock.value else t;
  }
}
