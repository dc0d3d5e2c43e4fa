/** Both directions on one machine: the capturer and the injector, wired as the X11 driver wires them (main.go).
    A packet from the remote is gated by the capturer, and hands it the cursor when it is accepted. */
module Desktop {
  import opened Bytes
  import opened PackageTypes
  import opened Packets
  import opened Keyboard
  import opened Chords
  import opened Handler
  import opened Sessions
  import opened OwnershipRuns
  import Ownership

  /** A local input event, or a packet from the remote with the order in which it lifts keys, if it does. */
  datatype Input = Local(e: Ownership.Event) | Remote(p: Packet, order: seq<Code>)

  datatype Machine = Machine(cap: Ownership.State, inj: Handler.State)

  /** What the gate of the packet's type answers; other types have none. */
  predicate Gate(c: Ownership.State, p: Packet) {
    if p.kind == MACHINE_SWITCHED then Ownership.AcceptsActivation(c)
    else if p.kind == NEXT_MACHINE then Ownership.AcceptsReclaim(c.edgeSide, p.mouse.x)
    else true
  }

  function Gated(c: Ownership.State, p: Packet, order: seq<Code>): Arrival {
    Arrival(p, Gate(c, p), order)
  }

  /** Does the packet give this machine the cursor? */
  predicate Takes(c: Ownership.State, p: Packet) {
    (p.kind == MACHINE_SWITCHED || p.kind == NEXT_MACHINE) && Gate(c, p)
  }

  /** Which packets hand over the cursor: a notice here or within 1638 units of the edge it crossed, and a request
      with its column within 8192 units of the shared edge. */
  lemma TakesIff(c: Ownership.State, p: Packet)
    ensures Takes(c, p) <==>
              || (p.kind == 77
                  && (|| c.active
                      || match c.activeEdge
                         case Right => c.x.pos <= 1638
                         case Top => c.y.pos >= 63897
                         case Bottom => c.y.pos <= 1638
                         case _ => c.x.pos >= 63897))
              || (p.kind == 121
                  && match c.edgeSide
                     case Left => p.mouse.x <= 8192
                     case Right => p.mouse.x >= 57343
                     case _ => true)
  {
  }

  /** An event without effect: multipliers that are not positive are ignored. */
  const NOTHING := Ownership.SetAccel(0.0)

  /** What an input is to the capturer: an accepted packet activates it, any other is nothing to it. */
  function CapEvent(c: Ownership.State, i: Input): Ownership.Event {
    match i
    case Local(e) => e
    case Remote(p, _) => if Takes(c, p) then Ownership.SetActive(true) else NOTHING
  }

  function Next(cfg: Settings, m: Machine, i: Input): Machine
    requires WellFormed(m.cap)
  {
    var cap := Ownership.Step(m.cap, CapEvent(m.cap, i)).0;
    match i
    case Local(_) => Machine(cap, m.inj)
    case Remote(p, order) => Machine(cap, After(cfg, m.inj, Gated(m.cap, p, order)))
  }

  /** Both halves after the first k inputs. */
  function MachineAt(cfg: Settings, m0: Machine, inputs: seq<Input>, k: nat): (m: Machine)
    requires WellFormed(m0.cap) && k <= |inputs|
    ensures WellFormed(m.cap)
  {
    if k == 0 then m0
    else
      var m := MachineAt(cfg, m0, inputs, k - 1);
      KeepsHeight(m.cap, CapEvent(m.cap, inputs[k - 1]));
      Next(cfg, m, inputs[k - 1])
  }

  lemma KeepsHeight(s: Ownership.State, e: Ownership.Event)
    requires WellFormed(s)
    ensures WellFormed(Ownership.Step(s, e).0)
  {
    hide Ownership.ToGrid, Ownership.Scaled, Ownership.Reentry;
  }

  /** The wiring: the gate is asked, the packet handled, and the cursor taken by the callback. */
  method Arrive(cap: Ownership.Capturer, h: Injector, p: Packet) returns (ghost order: seq<Code>)
    requires h.Valid()
    modifies cap, h, h.keyboard, h.log
    ensures h.Valid()
    ensures h.View() == After(h.Config(), old(h.View()), Gated(old(cap.View()), p, order))
    ensures LiftsKeys(Gated(old(cap.View()), p, order)) ==>
              Lists(order, Held(old(h.View()).log + Flush(old(h.View()).chord)))
    ensures var c := old(cap.View());
            cap.View() == if Takes(c, p) then Ownership.Activated(c, true) else c
  {
    var accepted := true;
    if p.kind == MACHINE_SWITCHED {
      accepted := cap.Accepts();
    } else if p.kind == NEXT_MACHINE {
      accepted := cap.ReclaimAccepted(p.mouse.x);
    }
    assert accepted == Gate(cap.View(), p);
    hide Handled, Lifted, Held, Lists, Injector.Valid, Gate;
    LiftsReach(p, accepted);
    order := [];
    if ReachesHandler(p.kind) {
      var cb;
      cb, order := h.HandlePacket(p, accepted);
      if cb.OnActivated? || cb.OnReclaimed? {
        cap.SetActiveTo(true);
      }
    }
  }

  /** All the events of the capturer in a run; which packets are accepted depends on where it is then. */
  function CapEvents(cfg: Settings, m0: Machine, inputs: seq<Input>): (es: seq<Ownership.Event>)
    requires WellFormed(m0.cap)
    ensures |es| == |inputs|
    ensures forall k :: 0 <= k < |es| ==> es[k] == CapEvent(MachineAt(cfg, m0, inputs, k).cap, inputs[k])
  {
    seq(|inputs|, k requires 0 <= k < |inputs| => CapEvent(MachineAt(cfg, m0, inputs, k).cap, inputs[k]))
  }

  lemma CapNext(cfg: Settings, m0: Machine, inputs: seq<Input>, k: nat)
    requires WellFormed(m0.cap) && 0 < k <= |inputs|
    ensures var cap := MachineAt(cfg, m0, inputs, k - 1).cap;
            && WellFormed(cap)
            && MachineAt(cfg, m0, inputs, k).cap == Ownership.Step(cap, CapEvent(cap, inputs[k - 1])).0
  {
    hide Ownership.Step, CapEvent, After;
  }

  /** The capturer of the machine goes through a run of the ownership machine. */
  lemma {:induction false} CapIsRun(cfg: Settings, m0: Machine, inputs: seq<Input>, k: nat)
    requires WellFormed(m0.cap) && k <= |inputs|
    ensures MachineAt(cfg, m0, inputs, k).cap == StateAt(m0.cap, CapEvents(cfg, m0, inputs), k)
  {
    hide *;
    var es := CapEvents(cfg, m0, inputs);
    Start(cfg, m0, inputs, es);
    if k > 0 {
      CapIsRun(cfg, m0, inputs, k - 1);
      CapNext(cfg, m0, inputs, k);
      StateNext(m0.cap, es, k);
    }
  }

  lemma Start(cfg: Settings, m0: Machine, inputs: seq<Input>, es: seq<Ownership.Event>)
    requires WellFormed(m0.cap)
    ensures MachineAt(cfg, m0, inputs, 0) == m0 && StateAt(m0.cap, es, 0) == m0.cap
  {
    hide Next, Ownership.Step;
  }

  lemma StateNext(s0: Ownership.State, es: seq<Ownership.Event>, k: nat)
    requires WellFormed(s0) && 0 < k <= |es|
    ensures StateAt(s0, es, k) == Ownership.Step(StateAt(s0, es, k - 1), es[k - 1]).0
  {
    hide Ownership.Step;
  }

  /** While the remote owns the cursor, a switch notice that lifts keys or changes the capturer comes only after a
      motion since the last crossing brought the cursor within the margin of the crossed edge; every earlier
      one does no more than let a held-back press go. */
  lemma LiftNeedsApproach(cfg: Settings, m0: Machine, inputs: seq<Input>, k: nat)
    requires WellFormed(m0.cap) && k < |inputs|
    requires inputs[k].Remote? && inputs[k].p.kind == MACHINE_SWITCHED
    requires !MachineAt(cfg, m0, inputs, k).cap.active
    requires SinceCrossing(m0.cap, CapEvents(cfg, m0, inputs), k) > 0
    ensures var m, es := MachineAt(cfg, m0, inputs, k), CapEvents(cfg, m0, inputs);
            var j := SinceCrossing(m0.cap, es, k);
            var t := Next(cfg, m, inputs[k]);
            || (j < k && HasApproach(m0.cap, es, j, k, m.cap.activeEdge)
                && LiftsKeys(Gated(m.cap, inputs[k].p, inputs[k].order)) && t.cap.active)
            || (!LiftsKeys(Gated(m.cap, inputs[k].p, inputs[k].order)) && t.cap == m.cap
                && t.inj == m.inj.(chord := m.inj.chord.(pending := None), log := m.inj.log + Flush(m.inj.chord)))
  {
    var m, es := MachineAt(cfg, m0, inputs, k), CapEvents(cfg, m0, inputs);
    CapIsRun(cfg, m0, inputs, k);
    NoticeStep(cfg, m, inputs[k]);
    hide Next, MachineAt, CapEvents, Gated, StateAt, LiftsKeys, SinceCrossing, HasApproach;
    if Ownership.AcceptsActivation(m.cap) {
      NoticeNeedsApproach(m0.cap, es, k);
    }
  }

  /** A switch notice is either accepted, and then takes the cursor and lifts the keys, or does nothing. */
  lemma NoticeStep(cfg: Settings, m: Machine, i: Input)
    requires WellFormed(m.cap) && i.Remote? && i.p.kind == MACHINE_SWITCHED
    ensures var t := Next(cfg, m, i);
            var a := Gated(m.cap, i.p, i.order);
            if Ownership.AcceptsActivation(m.cap) then LiftsKeys(a) && t.cap == Ownership.Activated(m.cap, true)
            else
              && !LiftsKeys(a) && t.cap == m.cap
              && t.inj == m.inj.(chord := m.inj.chord.(pending := None), log := m.inj.log + Flush(m.inj.chord))
  {
    assert Flush(m.inj.chord) + [] == Flush(m.inj.chord);
    hide Flush, Ownership.AcceptsActivation;
  }

  /** A request to take the cursor back is accepted within 8192 units of the shared edge, whatever the cursor is
      doing; it lifts nothing. */
  lemma RequestStep(cfg: Settings, m: Machine, i: Input)
    requires WellFormed(m.cap) && i.Remote? && i.p.kind == 121
    ensures var t := Next(cfg, m, i);
            var x, edge := i.p.mouse.x, m.cap.edgeSide;
            && (!m.cap.active && (edge == Ownership.Left ==> x <= 8192) && (edge == Ownership.Right ==> x >= 57343) ==>
                  t.cap == m.cap.(active := true, switchSent := None, canSwitch := false, canReturn := false))
            && ((edge == Ownership.Left && x > 8192) || (edge == Ownership.Right && x < 57343) ==> t.cap == m.cap)
            && t.inj == m.inj.(chord := m.inj.chord.(pending := None), log := m.inj.log + Flush(m.inj.chord))
  {
    assert Flush(m.inj.chord) + [] == Flush(m.inj.chord);
    hide Flush;
  }

  /** Only an accepted switch notice or request reaches the capturer. */
  lemma OtherPackets(cfg: Settings, m: Machine, i: Input)
    requires WellFormed(m.cap) && i.Remote? && i.p.kind != 77 && i.p.kind != 121
    ensures Next(cfg, m, i) == Machine(m.cap, After(cfg, m.inj, Arrival(i.p, true, i.order)))
  {
    hide After;
  }

  lemma {:induction false} SinceReturnBound(s0: Ownership.State, es: seq<Ownership.Event>, j: nat, k: nat)
    requires WellFormed(s0) && j < k <= |es| && Returns(StateAt(s0, es, j), es[j])
    ensures SinceReturn(s0, es, k) > j
  {
    hide Returns;
    if j + 1 < k {
      SinceReturnBound(s0, es, j, k - 1);
    }
  }

  /** After a packet has given this machine the cursor back, the local poller crosses again only if a poll since
      then saw the cursor more than 20 pixels inside. */
  lemma CrossingAfterTaking(cfg: Settings, m0: Machine, inputs: seq<Input>, j: nat, k: nat)
    requires WellFormed(m0.cap) && j < k < |inputs|
    requires var m := MachineAt(cfg, m0, inputs, j); inputs[j].Remote? && Takes(m.cap, inputs[j].p) && !m.cap.active
    requires inputs[k].Local? && inputs[k].e.PollCursor?
    requires MovesToRemote(MachineAt(cfg, m0, inputs, k).cap, inputs[k].e)
    ensures exists i :: j < i < k && InsidePoll(m0.cap, CapEvents(cfg, m0, inputs), i)
  {
    var es := CapEvents(cfg, m0, inputs);
    CapIsRun(cfg, m0, inputs, j);
    CapIsRun(cfg, m0, inputs, k);
    hide MachineAt, StateAt, CapEvents, InsidePoll, MovesToRemote, Takes;
    assert Returns(StateAt(m0.cap, es, j), es[j]);
    SinceReturnBound(m0.cap, es, j, k);
    CrossingNeedsInsidePoll(m0.cap, es, k);
  }
}
