/** The injection devices: what they log and which keys the virtual keyboard believes are down (uinput.go). */
module Keyboard {
  import opened Bytes

  type Code = uint16

  datatype DeviceEvent =
    | KeyPress(code: Code)
    | KeyRelease(code: Code)
    | MoveTo(x: int32, y: int32)
    | ButtonDown(button: Code)
    | ButtonUp(button: Code)
    | Wheel(delta: int)
    | HWheel(delta: int)

  /** The codes a reader of the log would say are down. */
  function Held(log: seq<DeviceEvent>): set<Code> {
    if log == [] then {}
    else
      var before := Held(log[..|log| - 1]);
      match log[|log| - 1]
      case KeyPress(c) => before + {c}
      case KeyRelease(c) => before - {c}
      case _ => before
  }

  /** Press i has no release after it. */
  ghost predicate StillDown(log: seq<DeviceEvent>, i: nat, c: Code) {
    i < |log| && log[i] == KeyPress(c) && forall j :: i < j < |log| ==> log[j] != KeyRelease(c)
  }

  /** A code is held exactly when some press of it is never released. */
  lemma {:induction false} HeldIff(log: seq<DeviceEvent>, c: Code)
    ensures c in Held(log) <==> exists i: nat :: StillDown(log, i, c)
    decreases |log|
  {
    if log != [] {
      var n := |log| - 1;
      HeldIff(log[..n], c);
      if c in Held(log) {
        if log[n] == KeyPress(c) {
          assert StillDown(log, n, c);
        } else {
          var i: nat :| StillDown(log[..n], i, c);
          assert StillDown(log, i, c);
        }
      }
      if i: nat :| StillDown(log, i, c) {
        if i < n {
          assert StillDown(log[..n], i, c);
        }
      }
    }
  }

  lemma {:induction false} HeldConcat(log: seq<DeviceEvent>, more: seq<DeviceEvent>)
    requires forall i :: 0 <= i < |more| ==> !more[i].KeyPress? && !more[i].KeyRelease?
    ensures Held(log + more) == Held(log)
    decreases |more|
  {
    if more == [] {
      assert log + more == log;
    } else {
      var n := |more| - 1;
      HeldConcat(log, more[..n]);
      assert (log + more)[..|log + more| - 1] == log + more[..n];
    }
  }

  /** Releases of the given codes, in the given order. */
  function Releases(codes: seq<Code>): (r: seq<DeviceEvent>)
    ensures |r| == |codes| && forall i :: 0 <= i < |r| ==> r[i] == KeyRelease(codes[i])
  {
    if codes == [] then [] else Releases(codes[..|codes| - 1]) + [KeyRelease(codes[|codes| - 1])]
  }

  lemma NextRelease(codes: seq<Code>, i: nat)
    requires i < |codes|
    ensures Releases(codes[..i + 1]) == Releases(codes[..i]) + [KeyRelease(codes[i])]
  {
    assert codes[..i + 1][..i] == codes[..i];
  }

  /** Every element of the set, once, in some order: how a map is ranged over. */
  ghost predicate Lists(codes: seq<Code>, s: set<Code>) {
    && (forall c :: c in s <==> c in codes)
    && forall i, j :: 0 <= i < j < |codes| ==> codes[i] != codes[j]
  }

  lemma {:induction false} HeldAfterReleases(log: seq<DeviceEvent>, codes: seq<Code>)
    ensures Held(log + Releases(codes)) == Held(log) - (set c | c in codes)
    decreases |codes|
  {
    if codes == [] {
      assert log + Releases(codes) == log;
    } else {
      var n := |codes| - 1;
      HeldAfterReleases(log, codes[..n]);
      assert (log + Releases(codes))[..|log| + n] == log + Releases(codes[..n]);
      assert codes == codes[..n] + [codes[n]];
    }
  }

  /** Lifting every held key, in whatever order, leaves each press in the log with a later release. */
  lemma AllReleased(log: seq<DeviceEvent>, codes: seq<Code>)
    requires Lists(codes, Held(log))
    ensures var after := log + Releases(codes);
            && Held(after) == {}
            && forall i, c :: 0 <= i < |after| && after[i] == KeyPress(c)
                 ==> exists j :: i < j < |after| && after[j] == KeyRelease(c)
  {
    var after := log + Releases(codes);
    HeldAfterReleases(log, codes);
    forall i, c | 0 <= i < |after| && after[i] == KeyPress(c)
      ensures exists j :: i < j < |after| && after[j] == KeyRelease(c)
    {
      HeldIff(after, c);
      assert !StillDown(after, i, c);
    }
  }

  /** What the devices were told, in order. */
  class EventLog {
    var events: seq<DeviceEvent>

    constructor ()
      ensures events == []
    {
      events := [];
    }

    method Write(e: DeviceEvent)
      modifies this
      ensures events == old(events) + [e]
    {
      events := events + [e];
    }
  }

  class VirtualKeyboard {
    const log: EventLog
    var pressed: set<Code>

    /** The set of pressed keys agrees with the log. */
    predicate Valid()
      reads this, log
    {
      pressed == Held(log.events)
    }

    constructor (log: EventLog)
      requires Held(log.events) == {}
      ensures Valid() && this.log == log
    {
      this.log := log;
      pressed := {};
    }

    method KeyDown(code: Code)
      requires Valid()
      modifies this, log
      ensures Valid() && log.events == old(log.events) + [KeyPress(code)]
    {
      log.Write(KeyPress(code));
      pressed := pressed + {code};
    }

    method KeyUp(code: Code)
      requires Valid()
      modifies this, log
      ensures Valid() && log.events == old(log.events) + [KeyRelease(code)]
    {
      log.Write(KeyRelease(code));
      pressed := pressed - {code};
    }

    /** Lifts every held key; the order is the map's and unspecified. */
    method ReleaseAll() returns (ghost codes: seq<Code>)
      requires Valid()
      modifies this, log
      ensures Valid() && pressed == {}
      ensures Lists(codes, old(pressed)) && log.events == old(log.events) + Releases(codes)
    {
      var order := ListCodes(pressed);
      codes := order;
      AllReleased(log.events, codes);
      hide Held, Releases;
      pressed := {};
      for i := 0 to |order|
        invariant pressed == {} && log.events == old(log.events) + Releases(order[..i])
      {
        NextRelease(order, i);
        log.Write(KeyRelease(order[i]));
      }
      assert order[..|order|] == order;
    }
  }

  method ListCodes(s: set<Code>) returns (codes: seq<Code>)
    ensures Lists(codes, s)
  {
    codes := [];
    var rest := s;
    while rest != {}
      invariant rest <= s && Lists(codes, s - rest)
      decreases |rest|
    {
      var c :| c in rest;
      rest := rest - {c};
      codes := codes + [c];
    }
  }
}
