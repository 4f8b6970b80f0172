/** The debounced write-back of refunds on one App object: `Affected`, `Unaffected` and any number of
    `debounce` goroutines of internal/app/agent/service/tenant_service.go, interleaved step by step. */
module Refunds {

  /** A debounce: before its timer fires, after reading Offset, after an acknowledged Exec, over. */
  datatype Phase = Waiting | Loaded(offset: int) | Executed(offset: int) | Over

  /** `credited` is what Redis received; `unacked` the part of it whose Exec then reported an error,
      so that it is never subtracted. */
  datatype State = State(offset: int, calls: nat, credited: int, unacked: int, workers: seq<Phase>)

  /** How a pipeline ends: written, not written with an error, or written with an error. */
  datatype Exec = Acked | Lost | Unacked

  /** A settlement spawns a debounce or finds a timer of its tenant. */
  datatype Event =
    | Affected(spawns: bool)
    | Unaffected(spawns: bool)
    | Load(w: nat)
    | Flush(w: nat, exec: Exec)
    | Subtract(w: nat)

  /** Only a positive offset is written and subtracted. */
  function Positive(x: int): nat {
    if x > 0 then x else 0
  }

  predicate Enabled(s: State, e: Event) {
    match e
    case Affected(_) => true
    case Unaffected(_) => true
    case Load(w) => w < |s.workers| && s.workers[w].Waiting?
    case Flush(w, _) => w < |s.workers| && s.workers[w].Loaded?
    case Subtract(w) => w < |s.workers| && s.workers[w].Executed?
  }

  function Spawned(spawns: bool): seq<Phase> {
    if spawns then [Waiting] else []
  }

  /** One atomic step; an event that is not enabled does not happen. */
  function Step(s: State, e: Event): State {
    if !Enabled(s, e) then s
    else match e
      case Affected(spawns) => s.(workers := s.workers + Spawned(spawns))
      case Unaffected(spawns) =>
        s.(offset := s.offset + 1, calls := s.calls + 1, workers := s.workers + Spawned(spawns))
      case Load(w) => s.(workers := s.workers[w := Loaded(s.offset)])
      case Flush(w, exec) =>
        var amount := Positive(s.workers[w].offset);
        (match exec
         case Acked => s.(credited := s.credited + amount, workers := s.workers[w := Executed(s.workers[w].offset)])
         case Lost => s.(workers := s.workers[w := Over])
         case Unacked => s.(credited := s.credited + amount, unacked := s.unacked + amount, workers := s.workers[w := Over]))
      case Subtract(w) =>
        s.(offset := s.offset - Positive(s.workers[w].offset), workers := s.workers[w := Over])
  }

  function Start(offset: int): State {
    State(offset, 0, 0, 0, [])
  }

  function Run(offset: int, events: seq<Event>): State {
    if events == [] then Start(offset)
    else Step(Run(offset, events[..|events| - 1]), events[|events| - 1])
  }

  lemma RunSnoc(offset: int, events: seq<Event>, e: Event)
    ensures Run(offset, events + [e]) == Step(Run(offset, events), e)
  {
    assert (events + [e])[..|events|] == events;
  }

  // ---- conservation ----

  function Due(p: Phase): nat {
    if p.Executed? then Positive(p.offset) else 0
  }

  /** Executed but not yet subtracted. */
  function Pending(workers: seq<Phase>): nat {
    if workers == [] then 0
    else Pending(workers[..|workers| - 1]) + Due(workers[|workers| - 1])
  }

  lemma {:induction false} PendingUpdate(workers: seq<Phase>, w: nat, p: Phase)
    requires w < |workers|
    ensures Pending(workers[w := p]) == Pending(workers) - Due(workers[w]) + Due(p)
  {
    var front := workers[..|workers| - 1];
    if w < |front| {
      PendingUpdate(front, w, p);
      assert workers[w := p][..|workers| - 1] == front[w := p];
    } else {
      assert workers[w := p][..|workers| - 1] == front;
    }
  }

  lemma PendingSpawned(workers: seq<Phase>, spawns: bool)
    ensures Pending(workers + Spawned(spawns)) == Pending(workers)
  {
    if spawns {
      assert (workers + [Waiting])[..|workers|] == workers;
    } else {
      assert workers + [] == workers;
    }
  }

  lemma StepConserves(s: State, e: Event)
    ensures var t := Step(s, e);
      t.offset + t.credited - t.calls - Pending(t.workers) - t.unacked
      == s.offset + s.credited - s.calls - Pending(s.workers) - s.unacked
  {
    if Enabled(s, e) {
      match e
      case Affected(spawns) => PendingSpawned(s.workers, spawns);
      case Unaffected(spawns) => PendingSpawned(s.workers, spawns);
      case Load(w) => PendingUpdate(s.workers, w, Loaded(s.offset));
      case Flush(w, exec) => PendingUpdate(s.workers, w, if exec.Acked? then Executed(s.workers[w].offset) else Over);
      case Subtract(w) => PendingUpdate(s.workers, w, Over);
    }
  }

  /** Over every interleaving of calls and debounces, no refund appears or vanishes. */
  lemma {:induction false} RefundConservation(offset: int, events: seq<Event>)
    ensures var s := Run(offset, events);
      s.offset + s.credited == offset + s.calls + Pending(s.workers) + s.unacked
  {
    if events != [] {
      var before := events[..|events| - 1];
      RefundConservation(offset, before);
      StepConserves(Run(offset, before), events[|events| - 1]);
    }
  }

  // ---- one debounce at a time ----

  predicate Busy(p: Phase) {
    p.Loaded? || p.Executed?
  }

  /** No two debounces are between reading Offset and being over. */
  predicate OneBusy(workers: seq<Phase>) {
    forall i, j :: 0 <= i < j < |workers| ==> !(Busy(workers[i]) && Busy(workers[j]))
  }

  ghost predicate Serial(offset: int, events: seq<Event>) {
    forall k :: 0 <= k <= |events| ==> OneBusy(Run(offset, events[..k]).workers)
  }

  /** What the busy debounce read is still there. */
  predicate Covered(s: State) {
    && s.offset >= 0
    && forall i :: 0 <= i < |s.workers| && Busy(s.workers[i]) ==> s.workers[i].offset <= s.offset
  }

  lemma {:induction false} PendingIsCovered(workers: seq<Phase>, bound: nat)
    requires OneBusy(workers)
    requires forall i :: 0 <= i < |workers| && Busy(workers[i]) ==> workers[i].offset <= bound
    ensures Pending(workers) <= bound
    ensures (forall i :: 0 <= i < |workers| ==> !Busy(workers[i])) ==> Pending(workers) == 0
  {
    if workers != [] {
      PendingIsCovered(workers[..|workers| - 1], bound);
    }
  }

  lemma {:induction false} SerialIsCovered(offset: nat, events: seq<Event>)
    requires Serial(offset, events)
    ensures Covered(Run(offset, events)) && OneBusy(Run(offset, events).workers)
  {
    assert events[..|events|] == events;
    if events != [] {
      var before := events[..|events| - 1];
      forall k | 0 <= k <= |before|
        ensures OneBusy(Run(offset, before[..k]).workers)
      {
        assert before[..k] == events[..k];
      }
      SerialIsCovered(offset, before);
    }
  }

  /** With one debounce at a time, Offset never goes negative and Redis is never credited more than the
      refunds owed, but for executions whose acknowledgement was lost. */
  lemma SerialRefundsAreBounded(offset: nat, events: seq<Event>)
    requires Serial(offset, events)
    ensures var s := Run(offset, events);
      0 <= s.offset && s.credited <= offset + s.calls + s.unacked
  {
    SerialIsCovered(offset, events);
    RefundConservation(offset, events);
    PendingIsCovered(Run(offset, events).workers, Run(offset, events).offset);
  }

  function Settlements(events: seq<Event>): nat {
    if events == [] then 0
    else
      var e := events[|events| - 1];
      Settlements(events[..|events| - 1]) + if e.Affected? || e.Unaffected? then 1 else 0
  }

  lemma {:induction false} SettlementsBoundWorkers(offset: int, events: seq<Event>)
    ensures |Run(offset, events).workers| <= Settlements(events)
  {
    if events != [] {
      SettlementsBoundWorkers(offset, events[..|events| - 1]);
    }
  }

  lemma {:induction false} SettlementsOfPrefix(events: seq<Event>, k: nat)
    requires k <= |events|
    ensures Settlements(events[..k]) <= Settlements(events)
  {
    if k < |events| {
      SettlementsOfPrefix(events[..|events| - 1], k);
      assert events[..|events| - 1][..k] == events[..k];
    } else {
      assert events[..k] == events;
    }
  }

  /** The program settles an App object once, so no two debounces of it ever overlap. */
  lemma OneSettlementIsSerial(offset: nat, events: seq<Event>)
    requires Settlements(events) <= 1
    ensures Serial(offset, events)
    ensures var s := Run(offset, events);
      0 <= s.offset && s.credited <= offset + s.calls + s.unacked
  {
    forall k | 0 <= k <= |events|
      ensures OneBusy(Run(offset, events[..k]).workers)
    {
      SettlementsOfPrefix(events, k);
      SettlementsBoundWorkers(offset, events[..k]);
    }
    SerialRefundsAreBounded(offset, events);
  }

  // ---- when Redis is credited too much ----

  /** Redis has received more than the refunds there were. */
  predicate Overcredited(offset: nat, s: State) {
    s.credited > offset + s.calls
  }

  /** What Redis has received already and Offset still holds. */
  function Leftover(s: State): int {
    Pending(s.workers) + s.unacked
  }

  /** What a debounce has read and is about to write is more than Offset holds beyond the left-over. */
  predicate WritesTooMuch(s: State, e: Event) {
    && e.Flush? && !e.exec.Lost? && Enabled(s, e)
    && s.workers[e.w].offset > 0 && s.offset < s.workers[e.w].offset + Leftover(s)
  }

  /** The write of a positive offset leaves Redis overcredited exactly when Offset is by then less than
      what was read and the left-over together. */
  lemma FlushOvercredits(offset: nat, events: seq<Event>, e: Event)
    requires e.Flush? && !e.exec.Lost? && Enabled(Run(offset, events), e)
    requires Run(offset, events).workers[e.w].offset > 0
    ensures Overcredited(offset, Step(Run(offset, events), e)) <==> WritesTooMuch(Run(offset, events), e)
  {
    RefundConservation(offset, events);
  }

  /** Event n is such a write. */
  predicate Doubles(offset: nat, events: seq<Event>, n: nat) {
    n < |events| && WritesTooMuch(Run(offset, events[..n]), events[n])
  }

  ghost predicate EverOvercredited(offset: nat, events: seq<Event>) {
    exists n :: 0 <= n <= |events| && Overcredited(offset, Run(offset, events[..n]))
  }

  lemma DoublesOvercredits(offset: nat, events: seq<Event>, n: nat)
    requires Doubles(offset, events, n)
    ensures Overcredited(offset, Run(offset, events[..n + 1]))
  {
    assert events[..n + 1][..n] == events[..n];
    FlushOvercredits(offset, events[..n], events[n]);
  }

  lemma EarlierMoments(offset: nat, events: seq<Event>)
    requires events != []
    ensures EverOvercredited(offset, events) <==>
      EverOvercredited(offset, events[..|events| - 1]) || Overcredited(offset, Run(offset, events))
  {
    var before := events[..|events| - 1];
    assert events[..|events|] == events;
    assert forall n :: 0 <= n <= |before| ==> before[..n] == events[..n];
    if EverOvercredited(offset, events) {
      var n :| 0 <= n <= |events| && Overcredited(offset, Run(offset, events[..n]));
      assert n < |events| ==> before[..n] == events[..n];
    }
    if EverOvercredited(offset, before) {
      var n :| 0 <= n <= |before| && Overcredited(offset, Run(offset, before[..n]));
      assert Overcredited(offset, Run(offset, events[..n]));
    }
  }

  /** Only the write of a positive offset can bring overcredit about. */
  lemma LastStepDoubles(offset: nat, before: seq<Event>, e: Event)
    requires Overcredited(offset, Run(offset, before + [e])) && !EverOvercredited(offset, before)
    ensures Doubles(offset, before + [e], |before|)
  {
    assert before[..|before|] == before && (before + [e])[..|before|] == before;
    RunSnoc(offset, before, e);
    FlushOvercredits(offset, before, e);
  }

  lemma {:induction false} OvercreditIsDoubled(offset: nat, events: seq<Event>) returns (n: nat)
    requires EverOvercredited(offset, events)
    ensures Doubles(offset, events, n)
  {
    assert events != [];
    var before, e := events[..|events| - 1], events[|events| - 1];
    assert before + [e] == events;
    EarlierMoments(offset, events);
    if EverOvercredited(offset, before) {
      n := OvercreditIsDoubled(offset, before);
      assert before[..n] == events[..n];
    } else {
      LastStepDoubles(offset, before, e);
      n := |before|;
    }
  }

  /** Main result: Redis is credited too much at some moment of a run exactly when some debounce, about to
      write what it has read, meets an Offset less than that and the left-over together. */
  lemma OvercreditedExactly(offset: nat, events: seq<Event>)
    ensures EverOvercredited(offset, events) <==> exists n: nat :: Doubles(offset, events, n)
  {
    if EverOvercredited(offset, events) {
      var n := OvercreditIsDoubled(offset, events);
    }
    if exists n: nat :: Doubles(offset, events, n) {
      var n: nat :| Doubles(offset, events, n);
      DoublesOvercredits(offset, events, n);
    }
  }

  lemma RunTwo(offset: int, events: seq<Event>, e: Event, f: Event)
    ensures Run(offset, events + [e, f]) == Step(Step(Run(offset, events), e), f)
  {
    assert events + [e, f] == events + [e] + [f];
    RunSnoc(offset, events + [e], f);
    RunSnoc(offset, events, e);
  }

  /** Two refunds of one App object whose debounces both read before either subtracts are credited as
      four: the timer check of `Unaffected` and the timer store of `debounce` are two steps, so the service
      does not forbid it. */
  lemma OverlapCreditsTwice()
    ensures Run(0, [] + [Unaffected(true), Unaffected(true)] + [Load(0), Load(1)] + [Flush(0, Acked), Flush(1, Acked)] + [Subtract(0), Subtract(1)])
      == State(-2, 2, 4, 0, [Over, Over])
  {
    var spawned := [] + [Unaffected(true), Unaffected(true)];
    var loaded := spawned + [Load(0), Load(1)];
    var flushed := loaded + [Flush(0, Acked), Flush(1, Acked)];
    RunTwo(0, [], Unaffected(true), Unaffected(true));
    assert Run(0, spawned) == State(2, 2, 0, 0, [Waiting, Waiting]);
    RunTwo(0, spawned, Load(0), Load(1));
    assert Run(0, loaded) == State(2, 2, 0, 0, [Loaded(2), Loaded(2)]);
    RunTwo(0, loaded, Flush(0, Acked), Flush(1, Acked));
    assert Run(0, flushed) == State(2, 2, 4, 0, [Executed(2), Executed(2)]);
    RunTwo(0, flushed, Subtract(0), Subtract(1));
  }
}
