/** Which packet IDs concurrent senders can be given (client.go). The wrap test, the reset and the
    increment of the counter are three separate atomic operations. */
module PacketIds {
  import opened Bytes
  import opened PackageTypes
  import opened Packets
  import opened Stream
  import opened Connection
  import opened Senders

  /** How many goroutines have passed the wrap test and are about to add. */
  function Adders(pcs: seq<Pc>): nat {
    if pcs == [] then 0
    else Adders(pcs[..|pcs| - 1]) + if pcs[|pcs| - 1].Add? then 1 else 0
  }

  lemma {:induction false} AddersUpdate(pcs: seq<Pc>, i: nat, pc: Pc)
    requires i < |pcs|
    ensures Adders(pcs[i := pc]) == Adders(pcs) - (if pcs[i].Add? then 1 else 0) + (if pc.Add? then 1 else 0)
    ensures Adders(pcs) <= |pcs|
    decreases |pcs|
  {
    var n := |pcs| - 1;
    if i < n {
      AddersUpdate(pcs[..n], i, pc);
      assert pcs[i := pc][..n] == pcs[..n][i := pc];
    } else {
      assert pcs[i := pc][..n] == pcs[..n];
      AddersBound(pcs);
    }
  }

  lemma AddersBound(pcs: seq<Pc>)
    ensures Adders(pcs) <= |pcs|
  {
  }

  /** Largest ID that cfg.threads senders can be given. */
  function MaxId(threads: nat): int {
    ID_WRAP - 1 + threads
  }

  predicate IdOk(threads: nat, id: int32) {
    1 <= id <= MaxId(threads)
  }

  /** The counter can only pass the wrap point by the senders that tested it before it got there. */
  predicate CounterInv(threads: nat, s: State) {
    && |s.pcs| == threads
    && 0 <= s.nextID && s.nextID + Adders(s.pcs) <= MaxId(threads)
    && (forall i :: 0 <= i < |s.issued| ==> IdOk(threads, s.issued[i]))
    && (forall i :: 0 <= i < |s.log| ==> IdOk(threads, s.log[i].id))
    && (forall t :: 0 <= t < |s.pcs| && (s.pcs[t].AcquireLone? || s.pcs[t].Write?) ==>
          IdOk(threads, s.pcs[t].numbered.id))
  }

  lemma CounterStep(cfg: Config, s: State, a: Action)
    requires cfg.threads <= 256 && CounterInv(cfg.threads, s) && Enabled(s, a)
    ensures CounterInv(cfg.threads, Next(cfg, s, a))
  {
    hide WireBytes, Encrypt, EraseIds, Adders;
    var u := Next(cfg, s, a);
    AddersUpdate(s.pcs, a.tid, u.pcs[a.tid]);
    AddersBound(s.pcs);
    AddersBound(u.pcs);
    assert u.pcs == s.pcs[a.tid := u.pcs[a.tid]];
  }

  lemma {:induction false} CounterAlways(cfg: Config, s: State, acts: seq<Action>)
    requires cfg.threads <= 256 && CounterInv(cfg.threads, s) && Exec(cfg, s, acts).Some?
    ensures CounterInv(cfg.threads, Exec(cfg, s, acts).value)
    decreases |acts|
  {
    if acts != [] {
      CounterStep(cfg, s, acts[0]);
      hide Next, CounterInv;
      CounterAlways(cfg, Next(cfg, s, acts[0]), acts[1..]);
    }
  }

  lemma {:induction false} NoAdders(n: nat)
    ensures Adders(seq(n, _ => Idle)) == 0
  {
    if n > 0 {
      NoAdders(n - 1);
      assert seq(n, _ => Idle)[..n - 1] == seq(n - 1, _ => Idle);
    }
  }

  /** With at most 256 senders every ID issued and every ID on the wire, over runs of any length, lies in
      1 .. 0x7FFFFF00 + threads - 1; in particular none is zero or negative. */
  lemma IdsInRange(cfg: Config, acts: seq<Action>)
    requires cfg.threads <= 256 && Exec(cfg, Init(cfg), acts).Some?
    ensures var s := Exec(cfg, Init(cfg), acts).value;
            && (forall i :: 0 <= i < |s.issued| ==> IdOk(cfg.threads, s.issued[i]))
            && (forall i :: 0 <= i < |s.log| ==> IdOk(cfg.threads, s.log[i].id))
  {
    NoAdders(cfg.threads);
    CounterAlways(cfg, Init(cfg), acts);
  }

  // ---- The bound is attained, and 257 senders are one too many -----------------------

  const PROBE := Plain(MOUSE, 0, 0, 0)

  predicate Quiet(cfg: Config, s: State, n: int32) {
    && |s.pcs| == cfg.threads && s.nextID == n && s.lock.None?
    && forall t :: 0 <= t < |s.pcs| ==> s.pcs[t] == Idle
  }

  lemma OneStep(cfg: Config, s: State, a: Action, rest: seq<Action>)
    requires Enabled(s, a)
    ensures Exec(cfg, s, [a] + rest) == Exec(cfg, Next(cfg, s, a), rest)
  {
    hide Next;
    assert ([a] + rest)[1..] == rest;
  }

  /** One goroutine sends one packet, undisturbed. */
  lemma LoneSend(cfg: Config, s: State, n: int32) returns (acts: seq<Action>)
    requires cfg.threads > 0 && Quiet(cfg, s, n) && 0 <= n < ID_WRAP
    ensures Exec(cfg, s, acts).Some? && Quiet(cfg, Exec(cfg, s, acts).value, n + 1)
  {
    hide WireBytes, Encrypt, EraseIds, Exec;
    var s1 := Next(cfg, s, SendOne(0, PROBE));
    var s2 := Next(cfg, s1, Step(0));
    var s3 := Next(cfg, s2, Step(0));
    var s4 := Next(cfg, s3, Step(0));
    var s5 := Next(cfg, s4, Step(0));
    var s6 := Next(cfg, s5, Step(0));
    var a5 := [Step(0)];
    var a4 := [Step(0)] + a5;
    var a3 := [Step(0)] + a4;
    var a2 := [Step(0)] + a3;
    var a1 := [Step(0)] + a2;
    acts := [SendOne(0, PROBE)] + a1;
    OneStep(cfg, s, SendOne(0, PROBE), a1);
    OneStep(cfg, s1, Step(0), a2);
    OneStep(cfg, s2, Step(0), a3);
    OneStep(cfg, s3, Step(0), a4);
    OneStep(cfg, s4, Step(0), a5);
    assert a5 == [Step(0)] + [];
    OneStep(cfg, s5, Step(0), []);
    ExecNothing(cfg, s6);
  }

  lemma ExecNothing(cfg: Config, s: State)
    ensures Exec(cfg, s, []) == Some(s)
  {
  }

  lemma {:induction false} CountTo(cfg: Config, n: int32) returns (acts: seq<Action>)
    requires cfg.threads > 0 && 0 <= n <= ID_WRAP
    ensures Exec(cfg, Init(cfg), acts).Some? && Quiet(cfg, Exec(cfg, Init(cfg), acts).value, n)
    decreases n
  {
    if n == 0 {
      acts := [];
    } else {
      var before := CountTo(cfg, n - 1);
      hide Next, Exec, Init, Quiet;
      var after := LoneSend(cfg, Exec(cfg, Init(cfg), before).value, n - 1);
      ExecConcat(cfg, Init(cfg), before, after);
      acts := before + after;
    }
  }

  /** k goroutines have passed the wrap test with the counter one short of the wrap point, and j of them
      have gone on to add. */
  predicate Piled(cfg: Config, s: State, j: nat, k: nat) {
    && |s.pcs| == cfg.threads && j <= k <= cfg.threads && s.lock.None?
    && s.nextID == Wrap32(ID_WRAP - 1 + j)
    && (forall t :: 0 <= t < j ==> s.pcs[t].AcquireLone?)
    && (forall t :: j <= t < k ==> s.pcs[t] == Add(Lone(PROBE)))
    && (forall t :: k <= t < |s.pcs| ==> s.pcs[t] == Idle)
    && (j > 0 ==> s.nextID in s.issued)
  }

  lemma {:induction false} PileUp(cfg: Config, k: nat) returns (acts: seq<Action>)
    requires 0 < k <= cfg.threads
    ensures Exec(cfg, Init(cfg), acts).Some? && Piled(cfg, Exec(cfg, Init(cfg), acts).value, 0, k)
    decreases k
  {
    var before: seq<Action>;
    if k == 1 {
      before := CountTo(cfg, ID_WRAP - 1);
    } else {
      before := PileUp(cfg, k - 1);
    }
    hide WireBytes, Encrypt, EraseIds, Exec, Init;
    var s := Exec(cfg, Init(cfg), before).value;
    var s1 := Next(cfg, s, SendOne(k - 1, PROBE));
    var s2 := Next(cfg, s1, Step(k - 1));
    OneStep(cfg, s, SendOne(k - 1, PROBE), [Step(k - 1)]);
    assert [Step(k - 1)] == [Step(k - 1)] + [];
    OneStep(cfg, s1, Step(k - 1), []);
    ExecNothing(cfg, s2);
    acts := before + ([SendOne(k - 1, PROBE)] + [Step(k - 1)]);
    ExecConcat(cfg, Init(cfg), before, [SendOne(k - 1, PROBE)] + [Step(k - 1)]);
  }

  lemma WrapSucc(x: int)
    ensures Wrap32(Wrap32(x) + 1) == Wrap32(x + 1)
  {
  }

  lemma {:induction false} Drain(cfg: Config, j: nat, k: nat) returns (acts: seq<Action>)
    requires 0 < k <= cfg.threads && j <= k
    ensures Exec(cfg, Init(cfg), acts).Some? && Piled(cfg, Exec(cfg, Init(cfg), acts).value, j, k)
    decreases j
  {
    if j == 0 {
      acts := PileUp(cfg, k);
    } else {
      var before := Drain(cfg, j - 1, k);
      hide WireBytes, Encrypt, EraseIds, Exec, Init, Wrap32;
      var s := Exec(cfg, Init(cfg), before).value;
      WrapSucc(ID_WRAP - 1 + (j - 1));
      var s1 := Next(cfg, s, Step(j - 1));
      assert [Step(j - 1)] == [Step(j - 1)] + [];
      OneStep(cfg, s, Step(j - 1), []);
      ExecNothing(cfg, s1);
      acts := before + [Step(j - 1)];
      ExecConcat(cfg, Init(cfg), before, [Step(j - 1)]);
    }
  }

  /** The bound is tight: if every one of the senders loads the counter just below the wrap point, the
      last of them is issued 0x7FFFFF00 + threads - 1, wrapped to 32 bits. */
  lemma MaxIdAttained(cfg: Config, threads: nat) returns (acts: seq<Action>)
    requires 0 < threads <= cfg.threads
    ensures Exec(cfg, Init(cfg), acts).Some?
    ensures Wrap32(MaxId(threads)) in Exec(cfg, Init(cfg), acts).value.issued
  {
    acts := Drain(cfg, threads, threads);
  }

  ghost predicate AllIdsPositive(cfg: Config) {
    forall acts :: Exec(cfg, Init(cfg), acts).Some? ==>
      forall id :: id in Exec(cfg, Init(cfg), acts).value.issued ==> id > 0
  }

  /** Packet IDs stay positive in every schedule exactly when there are at most 256 senders. */
  lemma PositiveIffAtMost256(cfg: Config)
    ensures AllIdsPositive(cfg) <==> cfg.threads <= 256
  {
    hide Init, Exec;
    if cfg.threads <= 256 {
      forall acts | Exec(cfg, Init(cfg), acts).Some?
        ensures forall id :: id in Exec(cfg, Init(cfg), acts).value.issued ==> id > 0
      {
        IdsInRange(cfg, acts);
      }
    } else {
      var acts := MaxIdAttained(cfg, 257);
      assert Wrap32(MaxId(257)) == -0x8000_0000;
    }
  }
}
