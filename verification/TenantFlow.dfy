/** One tenant bucket shared by a cluster of proxies: every request passes the gate, is settled once,
    and its App object is written back by its own debounce (internal/app/agent/service/
    tenant_service.go, internal/app/agent/controller/agent_controller.go). */
module TenantFlow {
  import opened Wrappers
  import opened TokenBucket

  datatype QueryStatus = Success | Fail | Timeout | Intercept | Reject | Error

  /** `HandleCall` charges a request that upstream answered, even with an error. */
  predicate Consumed(status: QueryStatus) {
    status.Success? || status.Fail?
  }

  /** What an App object and its JSON copy in a proxy's cache carry. */
  datatype App = App(offset: int, lastTime: int)

  const NEW_APP := App(0, 0)

  /** Which commands of a pipeline reached Redis, and whether Exec reported success. */
  datatype Pipeline = Pipeline(setsLast: bool, credits: bool, acked: bool) {
    predicate Possible() {
      acked ==> setsLast && credits
    }
  }

  /** The pipeline of `debounce`: a positive time is set, a positive offset is credited. */
  function Flushed(h: Hash, app: App, p: Pipeline): Hash {
    var h1 := if app.lastTime > 0 && p.setsLast then h.(last := Some(app.lastTime)) else h;
    if app.offset > 0 && p.credits then AddCredit(h1, app.offset) else h1
  }

  /** What `debounce` does to the object after an acknowledged Exec. */
  function Subtracted(app: App, offset: int): App {
    if offset > 0 then App(app.offset - offset, 0) else app
  }

  function Charged(app: App, time: int): App {
    app.(lastTime := time)
  }

  function Refunded(app: App): App {
    app.(offset := app.offset + 1)
  }

  // ---- the service, run without interference ----

  class AppObject {
    var offset: int
    var lastTime: int
    var balance: int

    function Value(): App
      reads this
    {
      App(offset, lastTime)
    }

    constructor (app: App)
      ensures Value() == app
    {
      offset, lastTime, balance := app.offset, app.lastTime, 0;
    }
  }

  class TenantService {
    const redis: RedisHash
    /** This proxy's cached JSON of the tenant's App. */
    var cached: Option<App>
    /** Whether `timers` holds the tenant's key. */
    var timer: bool

    constructor (redis: RedisHash)
      ensures this.redis == redis && cached == None && !timer
    {
      this.redis := redis;
      cached, timer := None, false;
    }

    method Access(capacity: int, rate: int, now: int) returns (app: AppObject)
      modifies this`cached, redis
      ensures fresh(app) && app.Value() == (if old(cached).Some? then old(cached).value else NEW_APP)
      ensures cached == Some(app.Value())
      ensures (redis.Value(), app.balance) == Script(old(redis.Value()), capacity, rate, now)
    {
      if cached == None {
        app := new AppObject(NEW_APP);
        cached := Some(NEW_APP);
      } else {
        app := new AppObject(cached.value);
      }
      var balance := redis.Balance(capacity, rate, now);
      app.balance := balance;
    }

    /** The gate; null stands for the refusal. */
    method GetTenantApp(capacity: int, rate: int, now: int) returns (app: AppObject?)
      modifies this`cached, redis
      ensures app != null <==> Passes(Script(old(redis.Value()), capacity, rate, now).1)
      ensures redis.Value() == Script(old(redis.Value()), capacity, rate, now).0
      ensures app != null ==> fresh(app) && app.Value() == (if old(cached).Some? then old(cached).value else NEW_APP)
    {
      app := Access(capacity, rate, now);
      if app.balance <= -1 {
        app := null;
      }
    }

    /** `Affected` or `Unaffected`; a debounce is spawned exactly when no timer is found. */
    method Settle(app: AppObject, status: QueryStatus, time: int) returns (spawns: bool)
      modifies app
      ensures spawns <==> !timer
      ensures app.Value() == if Consumed(status) then Charged(old(app.Value()), time) else Refunded(old(app.Value()))
    {
      if status == Success || status == Fail {
        app.lastTime := time;
      } else {
        app.offset := app.offset + 1;
      }
      spawns := !timer;
    }

    /** `debounce` with nothing interleaved: one Start, Load, Flush, Finish and Delete below. */
    method Debounce(app: AppObject, p: Pipeline)
      requires p.Possible()
      modifies this, app, redis
      ensures !timer
      ensures redis.Value() == Flushed(old(redis.Value()), old(app.Value()), p)
      ensures app.Value() == if p.acked then Subtracted(old(app.Value()), old(app.offset)) else old(app.Value())
      ensures cached == if p.acked then Some(app.Value()) else old(cached)
    {
      timer := true;
      if app.lastTime > 0 && p.setsLast {
        redis.last := Some(app.lastTime);
      }
      var offset := app.offset;
      if offset > 0 && p.credits {
        var _ := redis.HIncrByBalance(offset);
      }
      if !p.acked {
        timer := false;
        return;
      }
      if offset > 0 {
        app.offset := app.offset - offset;
        app.lastTime := 0;
      }
      cached := Some(app.Value());
      timer := false;
    }
  }

  // ---- all interleavings ----

  /** A settlement: the App object is updated; then either a timer of the tenant was found and nothing
      follows, or a debounce stores its timer, reads the object, executes its pipeline, subtracts, and
      deletes the timer. `written` tells whether the pipeline's credit reached Redis. */
  datatype Phase =
    | Settling
    | Skipped
    | Starting
    | Waiting
    | Loaded(read: App)
    | Executed(offset: int)
    | Ending(written: bool)
    | Over(written: bool)

  /** A request: refused at the gate, being served, or settled; `paid` is what its debounce credited. */
  datatype Req =
    | Refused
    | Running(proxy: nat, app: App)
    | Settled(proxy: nat, charged: bool, app: App, phase: Phase, paid: nat)

  /** `timers` holds the proxies that have the tenant's key in their timer map. */
  datatype State = State(hash: Hash, cached: map<nat, App>, timers: set<nat>, reqs: seq<Req>, recovered: int)

  /** The answer of an access may be lost after the script ran. */
  datatype Event =
    | Access(proxy: nat, now: int, answered: bool)
    | Settle(i: nat, status: QueryStatus, time: int)
    | Check(i: nat)
    | Start(i: nat)
    | Load(i: nat)
    | Flush(i: nat, pipeline: Pipeline)
    | Finish(i: nat)
    | Delete(i: nat)
    | Evict(proxy: nat)

  const START := State(FRESH, map[], {}, [], 0)

  predicate IsSettled(s: State, i: nat) {
    i < |s.reqs| && s.reqs[i].Settled?
  }

  predicate Enabled(s: State, e: Event) {
    match e
    case Access(_, _, _) => true
    case Settle(i, _, _) => i < |s.reqs| && s.reqs[i].Running?
    case Check(i) => IsSettled(s, i) && s.reqs[i].phase.Settling?
    case Start(i) => IsSettled(s, i) && s.reqs[i].phase.Starting?
    case Load(i) => IsSettled(s, i) && s.reqs[i].phase.Waiting?
    case Flush(i, p) => IsSettled(s, i) && s.reqs[i].phase.Loaded? && p.Possible()
    case Finish(i) => IsSettled(s, i) && s.reqs[i].phase.Executed?
    case Delete(i) => IsSettled(s, i) && s.reqs[i].phase.Ending?
    case Evict(_) => true
  }

  /** The request after an event of its own. */
  function Moved(s: State, e: Event): Req
    requires Enabled(s, e) && !e.Access? && !e.Evict?
  {
    var r := s.reqs[e.i];
    match e
    case Settle(i, status, time) =>
      Settled(r.proxy, Consumed(status), if Consumed(status) then Charged(r.app, time) else Refunded(r.app), Settling, 0)
    case Check(i) => r.(phase := if r.proxy in s.timers then Skipped else Starting)
    case Start(i) => r.(phase := Waiting)
    case Load(i) => r.(phase := Loaded(r.app))
    case Flush(i, p) =>
      var offset := r.phase.read.offset;
      r.(phase := if p.acked then Executed(offset) else Ending(p.credits),
         paid := r.paid + if offset > 0 && p.credits then offset else 0)
    case Finish(i) => r.(app := Subtracted(r.app, r.phase.offset), phase := Ending(true))
    case Delete(i) => r.(phase := Over(r.phase.written))
  }

  function Step(capacity: int, rate: int, s: State, e: Event): State {
    if !Enabled(s, e) then s
    else match e
      case Access(proxy, now, answered) =>
        var app := if proxy in s.cached then s.cached[proxy] else NEW_APP;
        var (hash, balance) := Script(s.hash, capacity, rate, now);
        s.(hash := hash, cached := s.cached[proxy := app],
           reqs := s.reqs + [if answered && Passes(balance) then Running(proxy, app) else Refused],
           recovered := s.recovered + Recovery(s.hash, rate, now))
      case Evict(proxy) => s.(cached := s.cached - {proxy})
      case Settle(i, _, _) => s.(reqs := s.reqs[i := Moved(s, e)])
      case Check(i) => s.(reqs := s.reqs[i := Moved(s, e)])
      case Start(i) => s.(reqs := s.reqs[i := Moved(s, e)], timers := s.timers + {s.reqs[i].proxy})
      case Load(i) => s.(reqs := s.reqs[i := Moved(s, e)])
      case Flush(i, p) => s.(reqs := s.reqs[i := Moved(s, e)], hash := Flushed(s.hash, s.reqs[i].phase.read, p))
      case Finish(i) => s.(reqs := s.reqs[i := Moved(s, e)], cached := s.cached[s.reqs[i].proxy := Moved(s, e).app])
      case Delete(i) => s.(reqs := s.reqs[i := Moved(s, e)], timers := s.timers - {s.reqs[i].proxy})
  }

  function Run(capacity: int, rate: int, events: seq<Event>): State {
    if events == [] then START
    else Step(capacity, rate, Run(capacity, rate, events[..|events| - 1]), events[|events| - 1])
  }

  // ---- what every run keeps ----

  function Weight(f: Req -> nat, reqs: seq<Req>): nat {
    if reqs == [] then 0 else Weight(f, reqs[..|reqs| - 1]) + f(reqs[|reqs| - 1])
  }

  lemma {:induction false} WeightUpdate(f: Req -> nat, reqs: seq<Req>, i: nat, r: Req)
    requires i < |reqs|
    ensures Weight(f, reqs[i := r]) == Weight(f, reqs) - f(reqs[i]) + f(r)
  {
    var front := reqs[..|reqs| - 1];
    if i < |front| {
      WeightUpdate(f, front, i, r);
      assert reqs[i := r][..|reqs| - 1] == front[i := r];
    } else {
      assert reqs[i := r][..|reqs| - 1] == front;
    }
  }

  lemma WeightSnoc(f: Req -> nat, reqs: seq<Req>, r: Req)
    ensures Weight(f, reqs + [r]) == Weight(f, reqs) + f(r)
  {
    assert (reqs + [r])[..|reqs|] == reqs;
  }

  function ConsumesOf(r: Req): nat {
    if r.Running? || (r.Settled? && r.charged) then 1 else 0
  }

  function PaidOf(r: Req): nat {
    if r.Settled? then r.paid else 0
  }

  function RefundedOf(r: Req): nat {
    if r.Settled? && !r.charged then 1 else 0
  }

  /** The requests let through that were charged or are still being served. */
  function Consuming(s: State): nat {
    Weight(ConsumesOf, s.reqs)
  }

  function CreditPaid(s: State): nat {
    Weight(PaidOf, s.reqs)
  }

  function Refunds(s: State): nat {
    Weight(RefundedOf, s.reqs)
  }

  /** A refunded request owes one credit until its debounce executed; no other owes any. */
  predicate Sound(r: Req) {
    match r
    case Refused => true
    case Running(_, app) => app.offset == 0
    case Settled(_, charged, app, phase, paid) =>
      var owed := if charged then 0 else 1;
      match phase
      case Settling => app.offset == owed && paid == 0
      case Skipped => app.offset == owed && paid == 0
      case Starting => app.offset == owed && paid == 0
      case Waiting => app.offset == owed && paid == 0
      case Loaded(read) => app.offset == owed && read.offset == owed && paid == 0
      case Executed(offset) => app.offset == owed && offset == owed && paid == owed
      case Ending(written) => 0 <= app.offset <= owed && paid == if written then owed else 0
      case Over(written) => 0 <= app.offset <= owed && paid == if written then owed else 0
  }

  ghost predicate Inv(capacity: int, s: State) {
    && (forall i :: 0 <= i < |s.reqs| ==> Sound(s.reqs[i]))
    && (forall proxy :: proxy in s.cached ==> s.cached[proxy].offset == 0)
    && Consuming(s) + Refunds(s) + Spendable(s.hash, capacity) <= capacity + s.recovered + CreditPaid(s)
    && CreditPaid(s) <= Refunds(s)
  }

  lemma ReplaceReq(s: State, i: nat, r: Req)
    requires i < |s.reqs|
    ensures Weight(ConsumesOf, s.reqs[i := r]) == Consuming(s) - ConsumesOf(s.reqs[i]) + ConsumesOf(r)
    ensures Weight(PaidOf, s.reqs[i := r]) == CreditPaid(s) - PaidOf(s.reqs[i]) + PaidOf(r)
    ensures Weight(RefundedOf, s.reqs[i := r]) == Refunds(s) - RefundedOf(s.reqs[i]) + RefundedOf(r)
  {
    WeightUpdate(ConsumesOf, s.reqs, i, r);
    WeightUpdate(PaidOf, s.reqs, i, r);
    WeightUpdate(RefundedOf, s.reqs, i, r);
  }

  /** Each request is credited no more than its refund owes. */
  lemma {:induction false} PaidWithinRefunds(reqs: seq<Req>)
    requires forall i :: 0 <= i < |reqs| ==> Sound(reqs[i])
    ensures Weight(PaidOf, reqs) <= Weight(RefundedOf, reqs)
  {
    if reqs != [] {
      PaidWithinRefunds(reqs[..|reqs| - 1]);
      assert Sound(reqs[|reqs| - 1]);
    }
  }

  lemma AccessKeepsInv(capacity: int, rate: int, s: State, e: Event)
    requires capacity > 0 && rate > 0 && Inv(capacity, s) && e.Access?
    ensures Inv(capacity, Step(capacity, rate, s, e))
  {
    var t := Step(capacity, rate, s, e);
    RecoveryIsNonNegative(s.hash, rate, e.now);
    var r := t.reqs[|s.reqs|];
    WeightSnoc(ConsumesOf, s.reqs, r);
    WeightSnoc(PaidOf, s.reqs, r);
    WeightSnoc(RefundedOf, s.reqs, r);
  }

  /** A step on one request changes the hash by at most what it is then paid, and keeps it sound. */
  lemma RequestStep(capacity: int, rate: int, s: State, e: Event)
    requires Enabled(s, e) && !e.Access? && !e.Evict? && Sound(s.reqs[e.i])
    ensures var t := Step(capacity, rate, s, e);
      && |t.reqs| == |s.reqs| && t.reqs == s.reqs[e.i := t.reqs[e.i]] && Sound(t.reqs[e.i])
      && Spendable(t.hash, capacity) + PaidOf(s.reqs[e.i]) <= Spendable(s.hash, capacity) + PaidOf(t.reqs[e.i])
      && ConsumesOf(t.reqs[e.i]) + RefundedOf(t.reqs[e.i]) == ConsumesOf(s.reqs[e.i]) + RefundedOf(s.reqs[e.i])
      && t.recovered == s.recovered
  {
  }

  lemma CachedStaysClear(capacity: int, rate: int, s: State, e: Event)
    requires (forall i :: 0 <= i < |s.reqs| ==> Sound(s.reqs[i])) && forall proxy :: proxy in s.cached ==> s.cached[proxy].offset == 0
    ensures forall proxy :: proxy in Step(capacity, rate, s, e).cached ==> Step(capacity, rate, s, e).cached[proxy].offset == 0
  {
    if e.Finish? && Enabled(s, e) {
      assert Sound(s.reqs[e.i]);
    }
  }

  lemma StepKeepsInv(capacity: int, rate: int, s: State, e: Event)
    requires capacity > 0 && rate > 0 && Inv(capacity, s)
    ensures Inv(capacity, Step(capacity, rate, s, e))
  {
    var t := Step(capacity, rate, s, e);
    CachedStaysClear(capacity, rate, s, e);
    if e.Access? {
      AccessKeepsInv(capacity, rate, s, e);
    } else if Enabled(s, e) && !e.Evict? {
      RequestStep(capacity, rate, s, e);
      ReplaceReq(s, e.i, t.reqs[e.i]);
      PaidWithinRefunds(t.reqs);
    }
  }

  lemma {:induction false} RunKeepsInv(capacity: int, rate: int, events: seq<Event>)
    requires capacity > 0 && rate > 0
    ensures Inv(capacity, Run(capacity, rate, events))
  {
    if events != [] {
      var before := events[..|events| - 1];
      RunKeepsInv(capacity, rate, before);
      StepKeepsInv(capacity, rate, Run(capacity, rate, before), events[|events| - 1]);
    }
  }

  /** Main result: in every interleaving of requests, settlements and debounces over any number of
      proxies, with pipelines failing in any way, the requests charged or still running never exceed
      the capacity plus what the bucket recovered. */
  lemma NetAdmission(capacity: int, rate: int, events: seq<Event>)
    requires capacity > 0 && rate > 0
    ensures Consuming(Run(capacity, rate, events)) <= capacity + Run(capacity, rate, events).recovered
  {
    RunKeepsInv(capacity, rate, events);
  }

  // ---- what becomes of a refund ----

  predicate Owing(r: Req) {
    r.Settled? && !r.charged
  }

  function PendingOf(r: Req): nat {
    if Owing(r) && (r.phase.Settling? || r.phase.Starting? || r.phase.Waiting? || r.phase.Loaded?) then 1 else 0
  }

  /** Its pipeline ended without writing the credit. */
  function LostOf(r: Req): nat {
    if Owing(r) && (r.phase.Ending? || r.phase.Over?) && !r.phase.written then 1 else 0
  }

  function SkippedOf(r: Req): nat {
    if Owing(r) && r.phase.Skipped? then 1 else 0
  }

  lemma {:induction false} FatesAddUp(reqs: seq<Req>)
    requires forall i :: 0 <= i < |reqs| ==> Sound(reqs[i])
    ensures Weight(RefundedOf, reqs) ==
      Weight(PaidOf, reqs) + Weight(PendingOf, reqs) + Weight(LostOf, reqs) + Weight(SkippedOf, reqs)
  {
    if reqs != [] {
      FatesAddUp(reqs[..|reqs| - 1]);
      assert Sound(reqs[|reqs| - 1]);
    }
  }

  /** Main result: in every run the refunds are what was credited, what is pending, what failed pipelines
      lost, and what was lost because the settlement found a timer of the tenant. */
  lemma RefundLedger(capacity: int, rate: int, events: seq<Event>)
    requires capacity > 0 && rate > 0
    ensures var s := Run(capacity, rate, events);
      Refunds(s) == CreditPaid(s) + Weight(PendingOf, s.reqs) + Weight(LostOf, s.reqs) + Weight(SkippedOf, s.reqs)
  {
    RunKeepsInv(capacity, rate, events);
    FatesAddUp(Run(capacity, rate, events).reqs);
  }

  /** At event n the settlement of request i finds a timer. */
  predicate FindsTimer(capacity: int, rate: int, events: seq<Event>, i: nat, n: nat) {
    n < |events| && events[n] == Check(i)
    && var s := Run(capacity, rate, events[..n]); Enabled(s, events[n]) && s.reqs[i].proxy in s.timers
  }

  /** At event n the pipeline of request i writes its credit. */
  predicate WritesCredit(capacity: int, rate: int, events: seq<Event>, i: nat, n: nat) {
    n < |events| && events[n].Flush? && events[n].i == i && events[n].pipeline.credits
    && Enabled(Run(capacity, rate, events[..n]), events[n])
  }

  predicate WasSkipped(s: State, i: nat) {
    IsSettled(s, i) && s.reqs[i].phase.Skipped?
  }

  predicate WasWritten(s: State, i: nat) {
    IsSettled(s, i) && match s.reqs[i].phase
      case Executed(_) => true
      case Ending(written) => written
      case Over(written) => written
      case _ => false
  }

  lemma StepFates(capacity: int, rate: int, s: State, e: Event, i: nat)
    ensures WasSkipped(Step(capacity, rate, s, e), i) <==>
      WasSkipped(s, i) || (e == Check(i) && Enabled(s, e) && s.reqs[i].proxy in s.timers)
    ensures WasWritten(Step(capacity, rate, s, e), i) <==>
      WasWritten(s, i) || (e.Flush? && e.i == i && e.pipeline.credits && Enabled(s, e))
  {
  }

  lemma FatesAtLast(capacity: int, rate: int, events: seq<Event>, i: nat)
    requires events != []
    ensures var s, e, n := Run(capacity, rate, events[..|events| - 1]), events[|events| - 1], |events| - 1;
      && (FindsTimer(capacity, rate, events, i, n) <==> e == Check(i) && Enabled(s, e) && s.reqs[i].proxy in s.timers)
      && (WritesCredit(capacity, rate, events, i, n) <==> e.Flush? && e.i == i && e.pipeline.credits && Enabled(s, e))
  {
  }

  lemma {:induction false} SkippedExactly(capacity: int, rate: int, events: seq<Event>, i: nat)
    ensures WasSkipped(Run(capacity, rate, events), i) <==> exists n: nat :: FindsTimer(capacity, rate, events, i, n)
  {
    if events != [] {
      var before, last := events[..|events| - 1], |events| - 1;
      SkippedExactly(capacity, rate, before, i);
      StepFates(capacity, rate, Run(capacity, rate, before), events[last], i);
      forall n: nat | n < last
        ensures FindsTimer(capacity, rate, events, i, n) <==> FindsTimer(capacity, rate, before, i, n)
      {
        assert before[..n] == events[..n];
      }
      FatesAtLast(capacity, rate, events, i);
    }
  }

  lemma {:induction false} WrittenExactly(capacity: int, rate: int, events: seq<Event>, i: nat)
    ensures WasWritten(Run(capacity, rate, events), i) <==> exists n: nat :: WritesCredit(capacity, rate, events, i, n)
  {
    if events != [] {
      var before, last := events[..|events| - 1], |events| - 1;
      WrittenExactly(capacity, rate, before, i);
      StepFates(capacity, rate, Run(capacity, rate, before), events[last], i);
      forall n: nat | n < last
        ensures WritesCredit(capacity, rate, events, i, n) <==> WritesCredit(capacity, rate, before, i, n)
      {
        assert before[..n] == events[..n];
      }
      FatesAtLast(capacity, rate, events, i);
    }
  }

  /** A refund is credited exactly when a pipeline of its own debounce wrote it, and then once; it is lost
      without a debounce exactly when its settlement found a timer. A charged or refused request is never
      credited. */
  lemma RefundCreditedExactly(capacity: int, rate: int, events: seq<Event>, i: nat)
    requires capacity > 0 && rate > 0 && i < |Run(capacity, rate, events).reqs|
    ensures var r := Run(capacity, rate, events).reqs[i];
      && PaidOf(r) == (if Owing(r) && exists n: nat :: WritesCredit(capacity, rate, events, i, n) then 1 else 0)
      && SkippedOf(r) == (if Owing(r) && exists n: nat :: FindsTimer(capacity, rate, events, i, n) then 1 else 0)
  {
    RunKeepsInv(capacity, rate, events);
    SkippedExactly(capacity, rate, events, i);
    WrittenExactly(capacity, rate, events, i);
    assert Sound(Run(capacity, rate, events).reqs[i]);
  }

  // ---- why a settlement finds a timer ----

  /** Between storing its timer and deleting it. */
  predicate Debouncing(r: Req, proxy: nat) {
    r.Settled? && r.proxy == proxy && (r.phase.Waiting? || r.phase.Loaded? || r.phase.Executed? || r.phase.Ending?)
  }

  ghost predicate TimersOwned(s: State) {
    forall proxy :: proxy in s.timers ==> exists j :: 0 <= j < |s.reqs| && Debouncing(s.reqs[j], proxy)
  }

  lemma StepKeepsOwned(capacity: int, rate: int, s: State, e: Event)
    requires TimersOwned(s)
    ensures TimersOwned(Step(capacity, rate, s, e))
  {
    var t := Step(capacity, rate, s, e);
    forall proxy | proxy in t.timers
      ensures exists j :: 0 <= j < |t.reqs| && Debouncing(t.reqs[j], proxy)
    {
      if e.Start? && Enabled(s, e) && s.reqs[e.i].proxy == proxy {
        assert Debouncing(t.reqs[e.i], proxy);
      } else {
        var j :| 0 <= j < |s.reqs| && Debouncing(s.reqs[j], proxy);
        assert Debouncing(t.reqs[j], proxy);
      }
    }
  }

  lemma {:induction false} RunKeepsOwned(capacity: int, rate: int, events: seq<Event>)
    ensures TimersOwned(Run(capacity, rate, events))
  {
    if events != [] {
      RunKeepsOwned(capacity, rate, events[..|events| - 1]);
      StepKeepsOwned(capacity, rate, Run(capacity, rate, events[..|events| - 1]), events[|events| - 1]);
    }
  }

  ghost predicate BehindAnother(s: State, i: nat) {
    i < |s.reqs| && s.reqs[i].Settled? && exists j :: 0 <= j < |s.reqs| && j != i && Debouncing(s.reqs[j], s.reqs[i].proxy)
  }

  /** A refund is lost to a timer only while another request of the tenant is being debounced on the same
      proxy; that one writes back its own App object, so the refund is never made up for. */
  lemma SkippedBehindAnother(capacity: int, rate: int, events: seq<Event>, i: nat, n: nat)
    requires FindsTimer(capacity, rate, events, i, n)
    ensures BehindAnother(Run(capacity, rate, events[..n]), i)
    ensures WasSkipped(Run(capacity, rate, events), i)
  {
    RunKeepsOwned(capacity, rate, events[..n]);
    SkippedExactly(capacity, rate, events, i);
    var s := Run(capacity, rate, events[..n]);
    var j :| 0 <= j < |s.reqs| && Debouncing(s.reqs[j], s.reqs[i].proxy);
    assert j != i && Debouncing(s.reqs[j], s.reqs[i].proxy);
  }

  lemma RunSnoc(capacity: int, rate: int, events: seq<Event>, e: Event)
    ensures Run(capacity, rate, events + [e]) == Step(capacity, rate, Run(capacity, rate, events), e)
  {
    assert (events + [e])[..|events|] == events;
  }

  /** Two requests admitted by one proxy. */
  function Admitted(now: int): seq<Event> {
    [] + [Access(0, now, true)] + [Access(0, now, true)]
  }

  lemma AdmittedRun(capacity: int, rate: int, now: int)
    requires capacity > 1 && rate > 0
    ensures var s := Run(capacity, rate, Admitted(now));
      s.reqs == [Running(0, NEW_APP), Running(0, NEW_APP)] && s.timers == {}
  {
    RunSnoc(capacity, rate, [], Access(0, now, true));
    RunSnoc(capacity, rate, [] + [Access(0, now, true)], Access(0, now, true));
    assert Run(capacity, rate, []) == START;
    var s := Run(capacity, rate, [] + [Access(0, now, true)]);
    assert Recovery(FRESH, rate, now) == 0 && Recovery(s.hash, rate, now) == 0;
    assert s.reqs == [Running(0, NEW_APP)];
  }

  /** It happens to any tenant of two tokens: of two requests that fail at the proxy within one debounce,
      the second loses its refund. */
  lemma TimerLosesRefund(capacity: int, rate: int, now: int)
    requires capacity > 1 && rate > 0
    ensures FindsTimer(capacity, rate,
      Admitted(now) + [Settle(0, Error, now)] + [Check(0)] + [Start(0)] + [Settle(1, Error, now)] + [Check(1)], 1, 6)
  {
    var e2 := Admitted(now);
    var e3 := e2 + [Settle(0, Error, now)];
    var e4 := e3 + [Check(0)];
    var e5 := e4 + [Start(0)];
    var e6 := e5 + [Settle(1, Error, now)];
    AdmittedRun(capacity, rate, now);
    RunSnoc(capacity, rate, e2, Settle(0, Error, now));
    RunSnoc(capacity, rate, e3, Check(0));
    RunSnoc(capacity, rate, e4, Start(0));
    RunSnoc(capacity, rate, e5, Settle(1, Error, now));
    assert (e6 + [Check(1)])[..6] == e6;
    assert Run(capacity, rate, e5).reqs[1] == Running(0, NEW_APP) && Run(capacity, rate, e5).timers == {0};
  }

  // ---- the gate, the settlement and the time that reaches Redis ----

  /** A request is let through exactly when its answer arrives and there is a token for it; it starts from
      this proxy's cached App or a new one. */
  lemma AdmitsExactly(capacity: int, rate: int, s: State, proxy: nat, now: int, answered: bool)
    requires capacity > 0 && rate > 0
    ensures var t := Step(capacity, rate, s, Access(proxy, now, answered));
      var app := if proxy in s.cached then s.cached[proxy] else App(0, 0);
      && t.reqs == s.reqs + [if answered && Held(s.hash, capacity) + Recovery(s.hash, rate, now) >= 1 then Running(proxy, app) else Refused]
      && proxy in t.cached && t.cached[proxy] == app
      && t.hash == Script(s.hash, capacity, rate, now).0
  {
    PassesExactly(s.hash, capacity, rate, now);
  }

  /** Event m settles request i. */
  predicate SettledBy(capacity: int, rate: int, events: seq<Event>, i: nat, m: nat, status: QueryStatus, time: int) {
    m < |events| && events[m] == Settle(i, status, time) && Enabled(Run(capacity, rate, events[..m]), events[m])
  }

  /** What a settled request keeps for ever: it is charged when upstream answered, even with an error, and
      then carries the time of its settlement; otherwise it is refunded. */
  predicate SettledAs(s: State, i: nat, status: QueryStatus, time: int) {
    && IsSettled(s, i)
    && (s.reqs[i].charged <==> status == Success || status == Fail)
    && (s.reqs[i].charged ==> s.reqs[i].app.lastTime == time)
    && (s.reqs[i].charged && s.reqs[i].phase.Loaded? ==> s.reqs[i].phase.read.lastTime == time)
  }

  lemma StepKeepsSettled(capacity: int, rate: int, s: State, e: Event, i: nat, status: QueryStatus, time: int)
    requires forall j :: 0 <= j < |s.reqs| ==> Sound(s.reqs[j])
    requires SettledAs(s, i, status, time) || (e == Settle(i, status, time) && Enabled(s, e))
    ensures SettledAs(Step(capacity, rate, s, e), i, status, time)
  {
    assert i < |s.reqs| && Sound(s.reqs[i]);
  }

  lemma {:induction false} SettledForEver(capacity: int, rate: int, events: seq<Event>, i: nat, m: nat, status: QueryStatus, time: int)
    requires capacity > 0 && rate > 0 && SettledBy(capacity, rate, events, i, m, status, time)
    ensures SettledAs(Run(capacity, rate, events), i, status, time)
  {
    var before := events[..|events| - 1];
    RunKeepsInv(capacity, rate, before);
    if m < |before| {
      assert before[..m] == events[..m];
      SettledForEver(capacity, rate, before, i, m, status, time);
    } else {
      assert before == events[..m];
    }
    StepKeepsSettled(capacity, rate, Run(capacity, rate, before), events[|events| - 1], i, status, time);
  }

  lemma {:induction false} SettledOnce(capacity: int, rate: int, events: seq<Event>, i: nat) returns (m: nat, status: QueryStatus, time: int)
    requires IsSettled(Run(capacity, rate, events), i)
    ensures SettledBy(capacity, rate, events, i, m, status, time)
  {
    var before, e := events[..|events| - 1], events[|events| - 1];
    if IsSettled(Run(capacity, rate, before), i) {
      m, status, time := SettledOnce(capacity, rate, before, i);
      assert before[..m] == events[..m];
    } else {
      assert e.Settle? && e.i == i;
      m, status, time := |before|, e.status, e.time;
      assert events[..m] == before;
    }
  }

  /** After any run a request is refunded exactly when some settlement of it found a status other than
      Success and Fail. */
  lemma RefundedExactly(capacity: int, rate: int, events: seq<Event>, i: nat)
    requires capacity > 0 && rate > 0 && i < |Run(capacity, rate, events).reqs|
    ensures Owing(Run(capacity, rate, events).reqs[i]) <==>
      exists m: nat, status, time: int :: SettledBy(capacity, rate, events, i, m, status, time) && status != Success && status != Fail
  {
    forall m: nat, status, time: int | SettledBy(capacity, rate, events, i, m, status, time)
      ensures SettledAs(Run(capacity, rate, events), i, status, time)
    {
      SettledForEver(capacity, rate, events, i, m, status, time);
    }
    if Run(capacity, rate, events).reqs[i].Settled? {
      var m, status, time := SettledOnce(capacity, rate, events, i);
    }
  }

  predicate TimeWritten(s: State, e: Event, t: int) {
    e.Flush? && Enabled(s, e) && e.pipeline.setsLast && s.reqs[e.i].phase.read.lastTime == t && t > 0
  }

  /** At event n a pipeline writes the time t. */
  predicate WritesTime(capacity: int, rate: int, events: seq<Event>, n: nat, t: int) {
    n < |events| && TimeWritten(Run(capacity, rate, events[..n]), events[n], t)
  }

  predicate NoTimeWritten(s: State, e: Event) {
    e.Flush? && Enabled(s, e) && e.pipeline.setsLast ==> s.reqs[e.i].phase.read.lastTime <= 0
  }

  /** Event n is the last one that wrote a time. */
  predicate LastTime(capacity: int, rate: int, events: seq<Event>, n: nat, t: int) {
    && WritesTime(capacity, rate, events, n, t)
    && forall m :: n < m < |events| ==> NoTimeWritten(Run(capacity, rate, events[..m]), events[m])
  }

  lemma StepTime(capacity: int, rate: int, s: State, e: Event)
    ensures var t := Step(capacity, rate, s, e);
      && (NoTimeWritten(s, e) ==> t.hash.last == s.hash.last)
      && forall time :: TimeWritten(s, e, time) ==> t.hash.last == Some(time)
  {
  }

  lemma LastTimeSnoc(capacity: int, rate: int, events: seq<Event>, e: Event, n: nat, t: int)
    ensures var s := Run(capacity, rate, events);
      LastTime(capacity, rate, events + [e], n, t) <==>
        if NoTimeWritten(s, e) then LastTime(capacity, rate, events, n, t) else n == |events| && TimeWritten(s, e, t)
  {
    var more := events + [e];
    assert more[..|events|] == events && more[|events|] == e;
    assert forall m :: 0 <= m < |events| ==> more[..m] == events[..m] && more[m] == events[m];
  }

  /** Main result: after any run the hash holds the time that was written last, and none exactly when none
      was written. */
  lemma {:induction false} LastExactly(capacity: int, rate: int, events: seq<Event>)
    ensures var last := Run(capacity, rate, events).hash.last;
      && (forall n: nat, t: int :: LastTime(capacity, rate, events, n, t) ==> last == Some(t))
      && (last.Some? ==> exists n: nat :: LastTime(capacity, rate, events, n, last.value))
  {
    if events != [] {
      var before, e := events[..|events| - 1], events[|events| - 1];
      var s := Run(capacity, rate, before);
      assert before + [e] == events;
      LastExactly(capacity, rate, before);
      StepTime(capacity, rate, s, e);
      forall n: nat, t: int
        ensures LastTime(capacity, rate, events, n, t) <==>
          if NoTimeWritten(s, e) then LastTime(capacity, rate, before, n, t) else n == |before| && TimeWritten(s, e, t)
      {
        LastTimeSnoc(capacity, rate, before, e, n, t);
      }
      if !NoTimeWritten(s, e) {
        assert TimeWritten(s, e, s.reqs[e.i].phase.read.lastTime);
        assert LastTime(capacity, rate, events, |before|, s.reqs[e.i].phase.read.lastTime);
      } else if s.hash.last.Some? {
        var n: nat :| LastTime(capacity, rate, before, n, s.hash.last.value);
        assert LastTime(capacity, rate, events, n, s.hash.last.value);
      }
    }
  }

  /** The pipeline of a charged request writes the time of its settlement. */
  lemma ChargedTimeIsWritten(capacity: int, rate: int, events: seq<Event>, i: nat, m: nat, status: QueryStatus, time: int, p: Pipeline)
    requires capacity > 0 && rate > 0 && SettledBy(capacity, rate, events, i, m, status, time)
    requires (status == Success || status == Fail) && time > 0 && p.setsLast
    requires Enabled(Run(capacity, rate, events), Flush(i, p))
    ensures Run(capacity, rate, events + [Flush(i, p)]).hash.last == Some(time)
  {
    SettledForEver(capacity, rate, events, i, m, status, time);
    RunSnoc(capacity, rate, events, Flush(i, p));
    assert TimeWritten(Run(capacity, rate, events), Flush(i, p), time);
    StepTime(capacity, rate, Run(capacity, rate, events), Flush(i, p));
  }

  lemma {:induction false} BalanceIsSet(capacity: int, rate: int, events: seq<Event>)
    requires capacity > 0 && rate > 0
    ensures Run(capacity, rate, events).reqs != [] ==> Run(capacity, rate, events).hash.balance.Some?
  {
    if events != [] {
      BalanceIsSet(capacity, rate, events[..|events| - 1]);
    }
  }

  /** What a request is paid is what its pipeline adds to the balance in Redis: one token for a refund whose
      credit is written, nothing otherwise. */
  lemma PaymentReachesRedis(capacity: int, rate: int, events: seq<Event>, i: nat, p: Pipeline)
    requires capacity > 0 && rate > 0 && Enabled(Run(capacity, rate, events), Flush(i, p))
    ensures var s, t := Run(capacity, rate, events), Run(capacity, rate, events + [Flush(i, p)]);
      && s.hash.balance.Some?
      && t.hash.balance == Some(s.hash.balance.value + if !s.reqs[i].charged && p.credits then 1 else 0)
      && PaidOf(t.reqs[i]) == if !s.reqs[i].charged && p.credits then 1 else 0
  {
    BalanceIsSet(capacity, rate, events);
    RunKeepsInv(capacity, rate, events);
    RunSnoc(capacity, rate, events, Flush(i, p));
    assert Sound(Run(capacity, rate, events).reqs[i]);
  }

  /** What a proxy caches after a debounce: for a charged request the time of its settlement, for a refunded
      one nothing; so no refund is ever paid twice. */
  lemma CachesExactly(capacity: int, rate: int, s: State, i: nat)
    requires Enabled(s, Finish(i)) && Sound(s.reqs[i])
    ensures var t, proxy := Step(capacity, rate, s, Finish(i)), s.reqs[i].proxy;
      proxy in t.cached && t.cached[proxy] == if s.reqs[i].charged then s.reqs[i].app else App(0, 0)
  {
  }
}
