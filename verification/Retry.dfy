/** The retry loop of internal/core/client.go. */
module Retry {
  import opened Wrappers
  import opened JsonRpc
  import opened Lists
  import opened RequestOptions

  // ---- the time slice of an unhealthy endpoint ----

  function Slice(timeout: int, l: nat): int
    requires l > 0
  {
    var share := if Quotient(timeout, l) > 500 then Quotient(timeout, l) else 500;
    if share > timeout then timeout else share
  }

  lemma NonNegativeProduct(x: nat, y: nat)
    ensures x * y >= 0
  {
  }

  lemma Monotone(x: nat, y: nat, l: nat)
    requires x <= y
    ensures x * l <= y * l
  {
    NonNegativeProduct(y - x, l);
    assert y * l == x * l + (y - x) * l;
  }

  lemma ShareBounds(timeout: nat, l: nat)
    requires l > 0
    ensures timeout / l * l <= timeout
    ensures timeout / l >= 500 <==> timeout >= 500 * l
  {
    var q := timeout / l;
    assert q * l <= timeout < (q + 1) * l by {
      assert timeout == q * l + timeout % l;
    }
    if q >= 500 {
      Monotone(500, q, l);
    } else {
      Monotone(q + 1, 500, l);
    }
  }

  lemma QuotientBounds(timeout: int, l: nat)
    requires l > 0
    ensures timeout >= 0 ==> (Quotient(timeout, l) >= 500 <==> timeout >= 500 * l)
    ensures timeout < 0 ==> Quotient(timeout, l) <= 0
  {
    if timeout >= 0 {
      ShareBounds(timeout, l);
    } else {
      var share: nat := (-timeout) / l;
    }
  }

  lemma SliceCases(timeout: int, l: nat)
    requires l > 0
    ensures timeout >= 500 * l ==> Slice(timeout, l) == if timeout / l < timeout then timeout / l else timeout
    ensures 500 <= timeout < 500 * l ==> Slice(timeout, l) == 500
    ensures timeout < 500 ==> Slice(timeout, l) == timeout
  {
    QuotientBounds(timeout, l);
  }

  /** No slice exceeds the timeout, and a full rotation fits in it exactly when each share is at least
      500 ms, there is one endpoint only, or the timeout is not positive. */
  lemma RotationFitsExactly(timeout: int, l: nat)
    requires l > 0
    ensures Slice(timeout, l) <= timeout
    ensures Slice(timeout, l) * l <= timeout <==> timeout >= 500 * l || l == 1 || timeout <= 0
  {
    SliceCases(timeout, l);
    if timeout >= 500 * l {
      ShareBounds(timeout, l);
      Monotone(1, l, timeout / l);
    } else if 0 <= timeout < 500 && l > 1 {
      Monotone(2, l, timeout);
    } else if timeout < 0 {
      Monotone(1, l, -timeout);
      assert (-timeout) * l == -(timeout * l);
    }
  }

  // ---- one run of the loop ----

  datatype Failure = Failure(message: string, timeout: bool)

  /** What an attempt meets: no client for the endpoint, or the two values `Call` returned (a nil
      slice of results is `None`). */
  datatype Turn = NoClient | Called(results: Option<seq<Reply>>, err: Option<Failure>)

  type Url = string

  /** The health of the endpoint at attempt i, its answer given its time limit, and the request id. */
  datatype World = World(health: nat -> bool, turn: (nat, Url, Option<int>) -> Turn, reqId: nat -> string)

  datatype RequestProfile = RequestProfile(reqId: string, url: string)
  datatype ResponseProfile = ResponseProfile(reqId: string, respond: bool)

  class QueryProfile {
    var requests: seq<RequestProfile>
    var responses: seq<ResponseProfile>
  }

  predicate IsError(r: Reply) {
    r.error != Null
  }

  /** "Got a result": no error, results, and no error among them. */
  predicate Clean(t: Turn) {
    t.Called? && t.err == None && t.results.Some? && forall r :: r in t.results.value ==> !IsError(r)
  }

  predicate TimedOut(t: Turn) {
    t.Called? && t.err.Some? && t.err.value.timeout
  }

  /** Attempts are counted from 1. */
  type Index = i: nat | i > 0 witness 1

  function UrlAt(es: seq<Url>, i: Index): Url
    requires es != []
  {
    es[(i - 1) % |es|]
  }

  function TurnAt(es: seq<Url>, timeout: int, w: World, i: Index): Turn
    requires es != []
  {
    w.turn(i, UrlAt(es, i), if w.health(i) then None else Some(Slice(timeout, |es|)))
  }

  /** The attempts that made a call, the last values returned, and whether the loop was left. */
  datatype Trace = Trace(calls: seq<Index>, results: Option<seq<Reply>>, err: Option<Failure>, left: bool)

  function TraceStep(es: seq<Url>, t: Trace, turn: Turn, i: Index): Trace {
    if t.left then t
    else match turn
      case NoClient => t.(left := |es| <= 1)
      case Called(results, err) => Trace(t.calls + [i], results, err, Clean(turn) || TimedOut(turn))
  }

  function TraceTo(es: seq<Url>, timeout: int, w: World, k: nat): Trace
    requires es != []
  {
    if k == 0 then Trace([], None, None, false)
    else TraceStep(es, TraceTo(es, timeout, w, k - 1), TurnAt(es, timeout, w, k), k)
  }

  datatype Verdict = Results(results: seq<Reply>) | Failed(failure: Failure) | Unavailable

  function VerdictOf(t: Trace): Verdict {
    if t.err.Some? then Failed(t.err.value)
    else if t.results == None || t.results == Some([]) then Unavailable
    else Results(t.results.value)
  }

  function RequestsOf(es: seq<Url>, w: World, calls: seq<Index>): (ps: seq<RequestProfile>)
    requires es != []
    ensures |ps| == |calls|
  {
    seq(|calls|, k requires 0 <= k < |calls| => RequestProfile(w.reqId(calls[k]), UrlAt(es, calls[k])))
  }

  function ResponsesOf(w: World, calls: seq<Index>): (ps: seq<ResponseProfile>)
    ensures |ps| == |calls|
  {
    seq(|calls|, k requires 0 <= k < |calls| => ResponseProfile(w.reqId(calls[k]), true))
  }

  lemma {:induction false} LeftStays(es: seq<Url>, timeout: int, w: World, i: nat, k: nat)
    requires es != [] && i <= k && TraceTo(es, timeout, w, i).left
    ensures TraceTo(es, timeout, w, k) == TraceTo(es, timeout, w, i)
  {
    if i < k {
      LeftStays(es, timeout, w, i, k - 1);
    }
  }

  /** The strategy `same` keeps the first endpoint only. */
  function Used(es: seq<Url>, same: bool): (used: seq<Url>)
    requires es != []
    ensures used != []
  {
    if same then es[..1] else es
  }

  lemma ProfilesSnoc(es: seq<Url>, w: World, calls: seq<Index>, i: Index)
    requires es != []
    ensures RequestsOf(es, w, calls + [i]) == RequestsOf(es, w, calls) + [RequestProfile(w.reqId(i), UrlAt(es, i))]
    ensures ResponsesOf(w, calls + [i]) == ResponsesOf(w, calls) + [ResponseProfile(w.reqId(i), true)]
  {
  }

  /** One turn: the call, and its entries in the profile. */
  method Attempt(es: seq<Url>, slice: int, w: World, i: Index, p: QueryProfile) returns (turn: Turn)
    requires es != []
    modifies p
    ensures turn == w.turn(i, UrlAt(es, i), if w.health(i) then None else Some(slice))
    ensures p.requests == old(p.requests) +
      if turn.Called? then [RequestProfile(w.reqId(i), UrlAt(es, i))] else []
    ensures p.responses == old(p.responses) +
      if turn.Called? then [ResponseProfile(w.reqId(i), true)] else []
  {
    var endpoint := es[(i - 1) % |es|];
    turn := w.turn(i, endpoint, if w.health(i) then None else Some(slice));
    if turn.NoClient? {
      return;
    }
    p.requests := p.requests + [RequestProfile(w.reqId(i), endpoint)];
    p.responses := p.responses + [ResponseProfile(w.reqId(i), true)];
  }

  method Request(endpoints: seq<Url>, same: bool, attempts: nat, timeout: int, w: World, p: QueryProfile) returns (out: Verdict)
    requires endpoints != []
    modifies p
    ensures var es := Used(endpoints, same); var t := TraceTo(es, timeout, w, attempts);
      && out == VerdictOf(t)
      && p.requests == old(p.requests) + RequestsOf(es, w, t.calls)
      && p.responses == old(p.responses) + ResponsesOf(w, t.calls)
  {
    var es := if same then endpoints[..1] else endpoints;
    var slice := Slice(timeout, |es|);
    var results: Option<seq<Reply>>, err: Option<Failure> := None, None;
    var i: Index := 1;
    ghost var calls: seq<Index>, left := [], false;
    while i <= attempts
      invariant i <= attempts + 1
      invariant TraceTo(es, timeout, w, i - 1) == Trace(calls, results, err, false)
      invariant p.requests == old(p.requests) + RequestsOf(es, w, calls)
      invariant p.responses == old(p.responses) + ResponsesOf(w, calls)
    {
      var turn := Attempt(es, slice, w, i, p);
      if turn.NoClient? {
        if |es| <= 1 {
          left := true;
          break;
        }
        i := i + 1;
        continue;
      }
      results, err := turn.results, turn.err;
      ProfilesSnoc(es, w, calls, i);
      calls := calls + [i];
      if err == None && results != None && !exists r :: r in results.value && IsError(r) {
        left := true;
        break;
      }
      if err.Some? && err.value.timeout {
        left := true;
        break;
      }
      i := i + 1;
    }
    if left {
      LeftStays(es, timeout, w, i, attempts);
    }
    assert TraceTo(es, timeout, w, attempts) == Trace(calls, results, err, left);
    if err.Some? {
      return Failed(err.value);
    }
    if results == None || |results.value| <= 0 {
      return Unavailable;
    }
    return Results(results.value);
  }

  // ---- what every trace satisfies ----

  predicate InTurn(calls: seq<Index>, k: nat) {
    Increasing(calls) && forall j :: 0 <= j < |calls| ==> calls[j] <= k
  }

  predicate GoesOn(t: Turn) {
    t.Called? && !Clean(t) && !TimedOut(t)
  }

  /** The calls made, and the last values returned. */
  ghost predicate GoodTrace(es: seq<Url>, timeout: int, w: World, k: nat, t: Trace)
    requires es != []
  {
    && InTurn(t.calls, k)
    && (forall j :: 0 <= j < |t.calls| - 1 ==> GoesOn(TurnAt(es, timeout, w, t.calls[j])))
    && (if t.calls == [] then t.results == None && t.err == None
        else
          var last := TurnAt(es, timeout, w, t.calls[|t.calls| - 1]);
          Called(t.results, t.err) == last && (!t.left ==> GoesOn(last)))
  }

  lemma OneMore(es: seq<Url>, timeout: int, w: World, k: nat, t: Trace)
    requires es != [] && k > 0 && GoodTrace(es, timeout, w, k - 1, t)
    ensures GoodTrace(es, timeout, w, k, TraceStep(es, t, TurnAt(es, timeout, w, k), k))
  {
    var t' := TraceStep(es, t, TurnAt(es, timeout, w, k), k);
    if t'.calls != t.calls {
      assert t'.calls == t.calls + [k];
      assert forall j :: 0 <= j < |t.calls| ==> t'.calls[j] == t.calls[j];
    }
  }

  lemma {:induction false} TraceIsGood(es: seq<Url>, timeout: int, w: World, k: nat)
    requires es != []
    ensures GoodTrace(es, timeout, w, k, TraceTo(es, timeout, w, k))
  {
    if k > 0 {
      TraceIsGood(es, timeout, w, k - 1);
      OneMore(es, timeout, w, k, TraceTo(es, timeout, w, k - 1));
    }
  }

  lemma {:induction false} CallsFit(calls: seq<Index>, k: nat)
    requires InTurn(calls, k)
    ensures |calls| <= k
  {
    if calls != [] {
      var last: int := calls[|calls| - 1];
      CallsFit(calls[..|calls| - 1], last - 1);
    }
  }

  /** Main result: at most `attempts` calls are made, none before the last one was clean or timed out,
      and the verdict is that of the last call, or "unavailable" when there was none. */
  lemma RetryTrace(es: seq<Url>, timeout: int, w: World, attempts: nat)
    requires es != []
    ensures var t := TraceTo(es, timeout, w, attempts);
      && |t.calls| <= attempts
      && InTurn(t.calls, attempts)
      && (forall j :: 0 <= j < |t.calls| - 1 ==> GoesOn(TurnAt(es, timeout, w, t.calls[j])))
      && (t.calls == [] ==> VerdictOf(t) == Unavailable)
      && (t.calls != [] ==>
           var last := TurnAt(es, timeout, w, t.calls[|t.calls| - 1]);
           && last.Called?
           && (last.err.Some? ==> VerdictOf(t) == Failed(last.err.value))
           && (last.err == None && last.results.Some? && last.results.value != [] ==> VerdictOf(t) == Results(last.results.value))
           && (last.err == None && (last.results == None || last.results.value == []) ==> VerdictOf(t) == Unavailable))
  {
    TraceIsGood(es, timeout, w, attempts);
    CallsFit(TraceTo(es, timeout, w, attempts).calls, attempts);
  }

  /** The attempts are used up exactly when no turn so far lacked a client, was clean or timed out. */
  lemma {:induction false} ExhaustedExactly(es: seq<Url>, timeout: int, w: World, attempts: nat)
    requires es != []
    ensures var t := TraceTo(es, timeout, w, attempts);
      |t.calls| == attempts && !t.left <==> forall i :: 1 <= i <= attempts ==> GoesOn(TurnAt(es, timeout, w, i))
  {
    if attempts > 0 {
      ExhaustedExactly(es, timeout, w, attempts - 1);
      TraceIsGood(es, timeout, w, attempts - 1);
      CallsFit(TraceTo(es, timeout, w, attempts - 1).calls, attempts - 1);
    }
  }

  /** What ends the loop: a lone endpoint without a client, results none of which bears an error, or a
      timeout. Several endpoints may lack a client without ending it. */
  predicate Stops(es: seq<Url>, turn: Turn) {
    match turn
    case NoClient => |es| <= 1
    case Called(results, err) =>
      if err.Some? then err.value.timeout
      else results.Some? && forall r :: r in results.value ==> r.error == Null
  }

  ghost predicate NoneStops(es: seq<Url>, timeout: int, w: World, k: nat)
    requires es != []
  {
    forall m: Index :: m <= k ==> !Stops(es, TurnAt(es, timeout, w, m))
  }

  lemma StopsExactly(es: seq<Url>, turn: Turn)
    ensures turn.Called? ==> (Stops(es, turn) <==> Clean(turn) || TimedOut(turn))
  {
  }

  /** The loop is left exactly when some turn ends it. */
  lemma {:induction false} LeftExactly(es: seq<Url>, timeout: int, w: World, k: nat)
    requires es != []
    ensures TraceTo(es, timeout, w, k).left <==> !NoneStops(es, timeout, w, k)
  {
    if k > 0 {
      LeftExactly(es, timeout, w, k - 1);
      StopsExactly(es, TurnAt(es, timeout, w, k));
      assert NoneStops(es, timeout, w, k) <==> NoneStops(es, timeout, w, k - 1) && !Stops(es, TurnAt(es, timeout, w, k));
    }
  }

  /** Main result: attempt i makes a call exactly when its endpoint has a client and no turn before ended
      the loop. */
  lemma {:induction false} CalledExactly(es: seq<Url>, timeout: int, w: World, k: nat, i: Index)
    requires es != []
    ensures i in TraceTo(es, timeout, w, k).calls <==>
      i <= k && TurnAt(es, timeout, w, i).Called? && NoneStops(es, timeout, w, i - 1)
  {
    if k > 0 {
      CalledExactly(es, timeout, w, k - 1, i);
      LeftExactly(es, timeout, w, k - 1);
      TraceIsGood(es, timeout, w, k - 1);
      if i < k && NoneStops(es, timeout, w, k - 1) {
        assert NoneStops(es, timeout, w, i - 1);
      }
    }
  }

  /** A healthy endpoint is called with no limit of its own, an unhealthy one with the slice; attempt i goes
      to the endpoint that is next in turn. */
  lemma TurnsExactly(es: seq<Url>, timeout: int, w: World, i: Index)
    requires es != []
    ensures var url := es[(i - 1) % |es|];
      && (w.health(i) ==> TurnAt(es, timeout, w, i) == w.turn(i, url, None))
      && (!w.health(i) ==> TurnAt(es, timeout, w, i) == w.turn(i, url, Some(Slice(timeout, |es|))))
  {
  }

  /** With the strategy `same` every attempt goes to the first endpoint. */
  lemma SameStaysWithFirst(es: seq<Url>, i: Index)
    requires es != []
    ensures UrlAt(Used(es, true), i) == es[0]
    ensures Used(es, false) == es
  {
  }

  /** The requests and responses a run adds pair up by request id. */
  lemma ProfilesPairUp(es: seq<Url>, w: World, calls: seq<Index>)
    requires es != []
    ensures |RequestsOf(es, w, calls)| == |ResponsesOf(w, calls)| == |calls|
    ensures forall k :: 0 <= k < |calls| ==>
      RequestsOf(es, w, calls)[k].reqId == ResponsesOf(w, calls)[k].reqId && ResponsesOf(w, calls)[k].respond
  {
  }

  // ---- rotation ----

  lemma ProductIsFar(d: int, l: nat)
    ensures d > 0 ==> d * l >= l
    ensures d < 0 ==> d * l <= 0 - l
  {
    if d > 0 {
      NonNegativeProduct(d - 1, l);
      assert d * l == (d - 1) * l + l;
    } else if d < 0 {
      NonNegativeProduct(-d - 1, l);
      assert d * l == -((-d - 1) * l) - l;
    }
  }

  lemma DivModUnique(a: nat, l: nat, q: nat, r: nat)
    requires l > 0 && a == q * l + r && r < l
    ensures a / l == q && a % l == r
  {
    var d: int := a / l - q;
    assert a == (a / l) * l + a % l;
    assert d * l == r - a % l;
    ProductIsFar(d, l);
  }

  lemma NextTurn(l: nat, k: nat)
    requires l > 0
    ensures if k % l == l - 1 then (k + 1) / l == k / l + 1 && (k + 1) % l == 0
            else (k + 1) / l == k / l && (k + 1) % l == k % l + 1
  {
    var q, r := k / l, k % l;
    assert k == q * l + r;
    if r == l - 1 {
      assert k + 1 == (q + 1) * l;
      DivModUnique(k + 1, l, q + 1, 0);
    } else {
      DivModUnique(k + 1, l, q, r + 1);
    }
  }

  /** How many of the first k turns go to the endpoint. */
  function Visits(es: seq<Url>, url: Url, k: nat): nat
    requires es != []
  {
    if k == 0 then 0 else Visits(es, url, k - 1) + if UrlAt(es, k) == url then 1 else 0
  }

  /** After k turns of the loop each of l endpoints was met k / l times, the first k % l of them once more:
      visit counts never differ by more than one. */
  lemma {:induction false} RotationIsFair(es: seq<Url>, j: nat, k: nat)
    requires j < |es| && Distinct(es)
    ensures Visits(es, es[j], k) == k / |es| + if j < k % |es| then 1 else 0
  {
    if k > 0 {
      RotationIsFair(es, j, k - 1);
      NextTurn(|es|, k - 1);
    } else {
      DivModUnique(0, |es|, 0, 0);
    }
  }

  lemma RoundLater(l: nat, k: nat)
    requires l > 0
    ensures (k + l) / l == k / l + 1 && (k + l) % l == k % l
  {
    var q, r := k / l, k % l;
    assert k == q * l + r;
    assert (q + 1) * l == q * l + l;
    DivModUnique(k + l, l, q + 1, r);
  }

  /** Any l turns in a row meet every endpoint exactly once. */
  lemma EveryRoundMeetsAll(es: seq<Url>, j: nat, k: nat)
    requires j < |es| && Distinct(es)
    ensures Visits(es, es[j], k + |es|) == Visits(es, es[j], k) + 1
  {
    RotationIsFair(es, j, k);
    RotationIsFair(es, j, k + |es|);
    RoundLater(|es|, k);
  }

  lemma {:induction false} CallsInTurn(es: seq<Url>, timeout: int, w: World, k: nat)
    requires es != [] && forall i: Index :: i <= k ==> GoesOn(TurnAt(es, timeout, w, i))
    ensures var t := TraceTo(es, timeout, w, k);
      !t.left && |t.calls| == k && forall m :: 0 <= m < k ==> t.calls[m] == m + 1
  {
    if k > 0 {
      CallsInTurn(es, timeout, w, k - 1);
      assert GoesOn(TurnAt(es, timeout, w, k));
    }
  }

  /** While no turn lacks a client, is clean or times out, the urls in the profile go round the endpoints in
      their order. */
  lemma ProfileGoesRound(es: seq<Url>, timeout: int, w: World, k: nat)
    requires es != [] && forall i: Index :: i <= k ==> GoesOn(TurnAt(es, timeout, w, i))
    ensures var ps := RequestsOf(es, w, TraceTo(es, timeout, w, k).calls);
      |ps| == k && forall m :: 0 <= m < k ==> ps[m] == RequestProfile(w.reqId(m + 1), es[m % |es|])
  {
    CallsInTurn(es, timeout, w, k);
    forall m: nat | m < k
      ensures RequestsOf(es, w, TraceTo(es, timeout, w, k).calls)[m] == RequestProfile(w.reqId(m + 1), es[m % |es|])
    {
      assert UrlAt(es, m + 1) == es[m % |es|];
    }
  }
}
