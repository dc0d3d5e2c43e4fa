/** The send-stall tracker of receiver.go. Times are milliseconds. */
module Stall {
  const LIVENESS_TIMEOUT := 15_000

  datatype State = State(lastProgress: int, lastOutQ: nat)

  /** One look at the send queue: its depth and the time. */
  datatype Sample = Sample(depth: nat, now: int)

  /** The queue is empty or shorter than at the last look. */
  predicate Drains(s: State, depth: nat) {
    depth == 0 || depth < s.lastOutQ
  }

  function Next(s: State, x: Sample): State {
    State(if Drains(s, x.depth) then x.now else s.lastProgress, x.depth)
  }

  class SendStallTracker {
    var lastProgress: int
    var lastOutQ: nat

    constructor (now: int)
      ensures View() == State(now, 0)
    {
      lastProgress, lastOutQ := now, 0;
    }

    function View(): State
      reads this
    {
      State(lastProgress, lastOutQ)
    }

    method Stalled(n: nat, now: int) returns (verdict: bool)
      modifies this
      ensures View() == Next(old(View()), Sample(n, now))
      ensures verdict == Verdict(old(View()), Sample(n, now))
    {
      if n == 0 || n < lastOutQ {
        lastProgress := now;
      }
      lastOutQ := n;
      verdict := n > 0 && now - lastProgress > LIVENESS_TIMEOUT;
    }
  }

  /** What one look answers. */
  predicate Verdict(s: State, x: Sample) {
    x.depth > 0 && x.now - Next(s, x).lastProgress > LIVENESS_TIMEOUT
  }

  function After(start: int, xs: seq<Sample>): State {
    if xs == [] then State(start, 0) else Next(After(start, xs[..|xs| - 1]), xs[|xs| - 1])
  }

  /** What a tracker started at the given time answers at sample k. */
  predicate StalledAt(start: int, xs: seq<Sample>, k: nat)
    requires k < |xs|
  {
    Verdict(After(start, xs[..k]), xs[k])
  }

  // ---- The whole history ----------------------------------------------------------------

  /** When and how deep the queue was before the first p samples: the start counts as an empty queue. */
  function TimeOf(start: int, xs: seq<Sample>, p: nat): int
    requires p <= |xs|
  {
    if p == 0 then start else xs[p - 1].now
  }

  function DepthOf(xs: seq<Sample>, p: nat): nat
    requires p <= |xs|
  {
    if p == 0 then 0 else xs[p - 1].depth
  }

  predicate Ordered(start: int, xs: seq<Sample>) {
    forall i :: 0 <= i < |xs| ==> TimeOf(start, xs, i) <= xs[i].now
  }

  /** The queue was never empty and never shrank at the samples from p to k. */
  predicate BackedUp(xs: seq<Sample>, p: nat, k: nat)
    requires k < |xs|
  {
    forall i :: p <= i <= k ==> xs[i].depth > 0 && DepthOf(xs, i) <= xs[i].depth
  }

  /** The last sample up to the first k that drained, counted from one; 0 when none did. */
  function LastDrain(xs: seq<Sample>, k: nat): (p: nat)
    requires k <= |xs|
    ensures p <= k
    ensures p > 0 ==> xs[p - 1].depth == 0 || xs[p - 1].depth < DepthOf(xs, p - 1)
    ensures forall i :: p <= i < k ==> xs[i].depth > 0 && DepthOf(xs, i) <= xs[i].depth
  {
    if k == 0 then 0
    else if xs[k - 1].depth == 0 || xs[k - 1].depth < DepthOf(xs, k - 1) then k
    else LastDrain(xs, k - 1)
  }

  lemma {:induction false} AfterIs(start: int, xs: seq<Sample>, k: nat)
    requires k <= |xs|
    ensures After(start, xs[..k]) == State(TimeOf(start, xs, LastDrain(xs, k)), DepthOf(xs, k))
  {
    if k > 0 {
      AfterIs(start, xs, k - 1);
      assert xs[..k][..k - 1] == xs[..k - 1];
    }
  }

  lemma {:induction false} TimesOrdered(start: int, xs: seq<Sample>, p: nat, q: nat)
    requires Ordered(start, xs) && p <= q <= |xs|
    ensures TimeOf(start, xs, p) <= TimeOf(start, xs, q)
  {
    if p < q {
      TimesOrdered(start, xs, p, q - 1);
    }
  }

  /** The answer is yes exactly when, over some stretch of samples longer than the timeout and ending here, the
      queue was never empty and never shrank; the stretch may begin at any sample or at the start. */
  lemma StalledIff(start: int, xs: seq<Sample>, k: nat)
    requires k < |xs| && Ordered(start, xs)
    ensures StalledAt(start, xs, k)
       <==> exists p: nat :: p <= k && BackedUp(xs, p, k) && xs[k].now - TimeOf(start, xs, p) > 15_000
  {
    AfterIs(start, xs, k);
    AfterIs(start, xs, k + 1);
    assert xs[..k + 1][..k] == xs[..k];
    var d := LastDrain(xs, k + 1);
    if StalledAt(start, xs, k) {
      assert d <= k && BackedUp(xs, d, k);
    }
    if p: nat :| p <= k && BackedUp(xs, p, k) && xs[k].now - TimeOf(start, xs, p) > 15_000 {
      assert d <= p;
      TimesOrdered(start, xs, d, p);
    }
  }

  /** A peer that keeps reading while the queue is refilled to the same depth is flagged as well: the depth alone
      cannot tell it from a peer that stopped. */
  lemma SteadyTrafficIsFlagged(depth: nat, start: int)
    requires depth > 0
    ensures var xs := seq(4, i => Sample(depth, start + 5000 * (i + 1)));
            StalledAt(start, xs, 3) && !StalledAt(start, xs, 2)
  {
    var xs := seq(4, i => Sample(depth, start + 5000 * (i + 1)));
    assert Ordered(start, xs);
    StalledIff(start, xs, 3);
    StalledIff(start, xs, 2);
    assert BackedUp(xs, 0, 3);
  }
}
