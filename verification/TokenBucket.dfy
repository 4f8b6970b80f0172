/** The Redis token bucket of internal/app/shared/redis_scripts/balance.go and the admission gate. */
module TokenBucket {
  import opened Wrappers

  /** The two fields the script uses of a tenant's Redis hash. */
  datatype Hash = Hash(balance: Option<int>, last: Option<int>)

  const FRESH := Hash(None, None)

  /** `hsetnx`: what the balance counts from when the field is absent. */
  function Held(h: Hash, capacity: int): int {
    if h.balance.Some? then h.balance.value else capacity
  }

  /** Milliseconds since `last`, times the rate; a `last` in the future counts as now. */
  function Recovery(h: Hash, rate: int, now: int): int {
    var last := if h.last.Some? && h.last.value <= now then h.last.value else now;
    (now - last) * rate
  }

  /** The script: the new hash and the returned balance. */
  function Script(h: Hash, capacity: int, rate: int, now: int): (Hash, int) {
    if capacity <= 0 || rate <= 0 then (h, 0)
    else
      var full := Held(h, capacity) - 1 + Recovery(h, rate, now);
      var current := if full < capacity - 1 then full else capacity - 1;
      (h.(balance := Some(current)), current)
  }

  /** The gate of `getTenantApp`. */
  predicate Passes(balance: int) {
    !(balance <= -1)
  }

  /** A tenant's key in Redis, field by field. */
  class RedisHash {
    var balance: Option<int>
    var last: Option<int>

    function Value(): Hash
      reads this
    {
      Hash(balance, last)
    }

    constructor ()
      ensures Value() == FRESH
    {
      balance, last := None, None;
    }

    method HSetNxBalance(v: int)
      modifies this`balance
      ensures balance == Some(if old(balance).Some? then old(balance).value else v)
    {
      if balance == None {
        balance := Some(v);
      }
    }

    method HIncrByBalance(delta: int) returns (v: int)
      modifies this`balance
      ensures v == delta + (if old(balance).Some? then old(balance).value else 0)
      ensures balance == Some(v)
    {
      v := (if balance.Some? then balance.value else 0) + delta;
      balance := Some(v);
    }

    method Balance(capacity: int, rate: int, now: int) returns (current: int)
      modifies this
      ensures (Value(), current) == Script(old(Value()), capacity, rate, now)
    {
      if capacity <= 0 {
        return 0;
      }
      if rate <= 0 {
        return 0;
      }
      HSetNxBalance(capacity);
      var from := if last.Some? then last.value else now;
      if from > now {
        from := now;
      }
      var recovery := (now - from) * rate;
      var residual := HIncrByBalance(-1);
      current := if capacity - 1 < residual + recovery then capacity - 1 else residual + recovery;
      balance := Some(current);
    }
  }

  // ---- one call, exactly ----

  /** Nothing is recovered without a `last` or with one in the future; otherwise the time since, times the
      rate. */
  lemma RecoveryExactly(h: Hash, rate: int, now: int)
    ensures h.last == None ==> Recovery(h, rate, now) == 0
    ensures forall t :: h.last == Some(t) && t >= now ==> Recovery(h, rate, now) == 0
    ensures forall t :: h.last == Some(t) && t <= now ==> Recovery(h, rate, now) == (now - t) * rate
  {
  }

  /** A call passes exactly when there is a token, held or recovered by then. */
  lemma PassesExactly(h: Hash, capacity: int, rate: int, now: int)
    requires capacity > 0 && rate > 0
    ensures Passes(Script(h, capacity, rate, now).1) <==> Held(h, capacity) + Recovery(h, rate, now) >= 1
  {
  }

  /** A call takes one token of those held and recovered, and leaves what the bucket holds of the rest; it
      does not touch `last`. */
  lemma LeavesExactly(h: Hash, capacity: int, rate: int, now: int)
    requires capacity > 0 && rate > 0
    ensures var (after, current) := Script(h, capacity, rate, now);
      && after.balance == Some(current) && after.last == h.last
      && (Held(h, capacity) + Recovery(h, rate, now) <= capacity ==> current == Held(h, capacity) + Recovery(h, rate, now) - 1)
      && (Held(h, capacity) + Recovery(h, rate, now) >= capacity ==> current == capacity - 1)
  {
  }

  // ---- runs ----

  /** What reaches the hash: script calls, `HIncrBy` of a positive refund, `HSet` of a positive time. */
  datatype Event = Call(now: int) | Credit(amount: nat) | SetLast(time: nat)

  /** The hash with running totals of calls, calls let through, recovery, credit and clipping. */
  datatype Ledger = Ledger(hash: Hash, calls: nat, passed: nat, recovered: int, credited: nat, clipped: int)

  const OPENING := Ledger(FRESH, 0, 0, 0, 0, 0)

  function AddCredit(h: Hash, amount: int): Hash {
    h.(balance := Some((if h.balance.Some? then h.balance.value else 0) + amount))
  }

  function Step(capacity: int, rate: int, s: Ledger, e: Event): Ledger {
    match e
    case Call(now) =>
      var (hash, current) := Script(s.hash, capacity, rate, now);
      var recovery := Recovery(s.hash, rate, now);
      s.(hash := hash, calls := s.calls + 1,
         passed := s.passed + (if Passes(current) then 1 else 0),
         recovered := s.recovered + recovery,
         clipped := s.clipped + (Held(s.hash, capacity) - 1 + recovery - current))
    case Credit(amount) =>
      // A credit before any call creates the field, and the opening capacity is never granted.
      s.(hash := AddCredit(s.hash, amount), credited := s.credited + amount,
         clipped := s.clipped + (if s.hash.balance.None? then capacity else 0))
    case SetLast(time) => s.(hash := s.hash.(last := Some(time)))
  }

  function Run(capacity: int, rate: int, events: seq<Event>): Ledger {
    if events == [] then OPENING
    else Step(capacity, rate, Run(capacity, rate, events[..|events| - 1]), events[|events| - 1])
  }

  lemma RecoveryIsNonNegative(h: Hash, rate: int, now: int)
    requires rate > 0
    ensures Recovery(h, rate, now) >= 0
  {
    var last := if h.last.Some? && h.last.value <= now then h.last.value else now;
    assert now - last >= 0;
    assert (now - last) * rate >= 0;
  }

  /** The books balance in every run, and nothing is ever recovered or clipped negatively. */
  lemma {:induction false} BucketLedger(capacity: int, rate: int, events: seq<Event>)
    requires capacity > 0 && rate > 0
    ensures var s := Run(capacity, rate, events);
      && Held(s.hash, capacity) == capacity - s.calls + s.recovered + s.credited - s.clipped
      && s.recovered >= 0 && s.clipped >= 0
    ensures events != [] && events[|events| - 1].Call? ==>
      Held(Run(capacity, rate, events).hash, capacity) <= capacity - 1
  {
    if events != [] {
      var before := events[..|events| - 1];
      BucketLedger(capacity, rate, before);
      if events[|events| - 1].Call? {
        RecoveryIsNonNegative(Run(capacity, rate, before).hash, rate, events[|events| - 1].now);
      }
    }
  }

  lemma RunSnoc(capacity: int, rate: int, events: seq<Event>, e: Event)
    ensures Run(capacity, rate, events + [e]) == Step(capacity, rate, Run(capacity, rate, events), e)
  {
    assert (events + [e])[..|events|] == events;
  }

  /** After any run a call loses tokens to the capacity exactly when more are held and recovered than it
      holds, and then leaves capacity - 1; otherwise it loses none. */
  lemma ClipsExactly(capacity: int, rate: int, events: seq<Event>, now: int)
    requires capacity > 0 && rate > 0
    ensures var s, t := Run(capacity, rate, events), Run(capacity, rate, events + [Call(now)]);
      if Held(s.hash, capacity) + Recovery(s.hash, rate, now) > capacity
      then t.clipped > s.clipped && t.hash.balance == Some(capacity - 1)
      else t.clipped == s.clipped && t.hash.balance == Some(Held(s.hash, capacity) + Recovery(s.hash, rate, now) - 1)
  {
    RunSnoc(capacity, rate, events, Call(now));
  }

  /** Main result: after any run the next call passes exactly when capacity, recoveries and credits, with
      its own recovery, come to more than the calls made and the tokens lost. */
  lemma GateExactly(capacity: int, rate: int, events: seq<Event>, now: int)
    requires capacity > 0 && rate > 0
    ensures var s, t := Run(capacity, rate, events), Run(capacity, rate, events + [Call(now)]);
      && (t.passed == s.passed + 1 <==> capacity + s.recovered + Recovery(s.hash, rate, now) + s.credited > s.calls + s.clipped)
      && t.passed <= s.passed + 1
      && t.recovered == s.recovered + Recovery(s.hash, rate, now) && t.calls == s.calls + 1 && t.credited == s.credited
  {
    RunSnoc(capacity, rate, events, Call(now));
    BucketLedger(capacity, rate, events);
    PassesExactly(Run(capacity, rate, events).hash, capacity, rate, now);
  }

  function Spendable(h: Hash, capacity: int): nat {
    if Held(h, capacity) > 0 then Held(h, capacity) else 0
  }

  lemma StepKeepsBound(capacity: int, rate: int, s: Ledger, e: Event)
    requires capacity > 0 && rate > 0
    requires s.passed + Spendable(s.hash, capacity) <= capacity + s.recovered + s.credited
    ensures var t := Step(capacity, rate, s, e);
      t.passed + Spendable(t.hash, capacity) <= capacity + t.recovered + t.credited
  {
    if e.Call? {
      RecoveryIsNonNegative(s.hash, rate, e.now);
    }
  }

  /** In every run, the calls let through and the tokens still spendable never exceed the capacity
      plus what was recovered and credited. */
  lemma {:induction false} AdmissionBound(capacity: int, rate: int, events: seq<Event>)
    requires capacity > 0 && rate > 0
    ensures var s := Run(capacity, rate, events);
      s.passed + Spendable(s.hash, capacity) <= capacity + s.recovered + s.credited
  {
    if events != [] {
      var before := events[..|events| - 1];
      AdmissionBound(capacity, rate, before);
      StepKeepsBound(capacity, rate, Run(capacity, rate, before), events[|events| - 1]);
    }
  }

  /** With neither recovery nor credit, the k-th call returns capacity - k: exactly the first
      `capacity` calls pass. */
  lemma {:induction false} FirstCallsPass(capacity: int, rate: int, events: seq<Event>)
    requires capacity > 0 && rate > 0
    requires forall i :: 0 <= i < |events| ==> !events[i].Credit?
    requires Run(capacity, rate, events).recovered == 0
    ensures var s := Run(capacity, rate, events);
      && Held(s.hash, capacity) == capacity - s.calls
      && s.passed == if s.calls < capacity then s.calls else capacity
  {
    if events != [] {
      var before, e := events[..|events| - 1], events[|events| - 1];
      BucketLedger(capacity, rate, before);
      if e.Call? {
        RecoveryIsNonNegative(Run(capacity, rate, before).hash, rate, e.now);
      }
      FirstCallsPass(capacity, rate, before);
    }
  }

  function Repeat(now: int, n: nat): seq<Event> {
    seq(n, _ => Call(now))
  }

  /** The script never moves `last`: calls at one moment recover the same elapsed time once each, so the
      recovery of a run is not bounded by its duration. */
  lemma {:induction false} SameTimeIsRecoveredByEachCall(capacity: int, rate: int, time: nat, now: int, n: nat)
    requires capacity > 0 && rate > 0 && time <= now
    ensures var s := Run(capacity, rate, [SetLast(time)] + Repeat(now, n));
      s.recovered == n * ((now - time) * rate) && s.hash.last == Some(time) && s.calls == n
  {
    var es := [SetLast(time)] + Repeat(now, n);
    if n > 0 {
      SameTimeIsRecoveredByEachCall(capacity, rate, time, now, n - 1);
      assert es[..|es| - 1] == [SetLast(time)] + Repeat(now, n - 1);
      assert es[|es| - 1] == Call(now);
      var each := (now - time) * rate;
      assert n * each == (n - 1) * each + each;
    } else {
      assert es == [SetLast(time)] && es[..0] == [];
    }
  }

  // ---- capacities and rates below one ----

  /** Go's conversion of a float to int64, toward zero. */
  function Truncate(x: real): int {
    if x >= 0.0 then x.Floor else -((-x).Floor)
  }

  /** The whole part, with the sign. */
  lemma TruncateExactly(x: real)
    ensures x >= 0.0 ==> Truncate(x) as real <= x < Truncate(x) as real + 1.0 && Truncate(x) >= 0
    ensures Truncate(-x) == -Truncate(x)
  {
  }

  /** `getBalanceValue` on the tenant's configured capacity and rate. */
  function BalanceValue(h: Hash, capacity: real, rate: real, now: int): (Hash, int) {
    Script(h, Truncate(capacity), Truncate(rate), now)
  }

  /** The gate limits a tenant at all exactly when capacity and rate are at least one: otherwise the
      script answers 0, which passes, and touches nothing. */
  lemma LimitedExactly(capacity: real, rate: real)
    ensures (forall h: Hash, now: int :: Passes(BalanceValue(h, capacity, rate, now).1))
      <==> capacity < 1.0 || rate < 1.0
    ensures capacity < 1.0 || rate < 1.0 ==> forall h: Hash, now: int :: BalanceValue(h, capacity, rate, now) == (h, 0)
  {
    assert capacity >= 1.0 ==> Truncate(capacity) >= 1;
    assert rate >= 1.0 ==> Truncate(rate) >= 1;
    assert capacity < 1.0 ==> Truncate(capacity) <= 0;
    assert rate < 1.0 ==> Truncate(rate) <= 0;
    var drained := Hash(Some(0), None);
    assert Recovery(drained, Truncate(rate), 0) == 0;
    assert capacity >= 1.0 && rate >= 1.0 ==> BalanceValue(drained, capacity, rate, 0).1 == -1;
  }
}
