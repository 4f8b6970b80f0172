/** Ordering and selecting endpoints: `best`, `arrange` and `Select` of
    internal/core/endpoint/selector.go. */
module Selector {
  import opened Lists
  import opened RequestOptions
  import opened Scoring

  type Scores = map<Snapshot, real>

  function ScoreOf(scores: Scores, e: Snapshot): real {
    if e in scores then scores[e] else 0.0
  }

  /** `best`: a may stand before b. */
  predicate Best(scores: Scores, a: Snapshot, b: Snapshot) {
    if a.health != b.health then a.health
    else if a.p95Health != b.p95Health then a.p95Health
    else if ScoreOf(scores, a) != ScoreOf(scores, b) then ScoreOf(scores, a) > ScoreOf(scores, b)
    else a.updated <= b.updated
  }

  /** `Best` is a reflexive, total and transitive preorder; two endpoints stand level exactly when they
      agree in all four respects. */
  lemma BestIsPreorder(scores: Scores, a: Snapshot, b: Snapshot, c: Snapshot)
    ensures Best(scores, a, a)
    ensures Best(scores, a, b) || Best(scores, b, a)
    ensures Best(scores, a, b) && Best(scores, b, c) ==> Best(scores, a, c)
    ensures Best(scores, a, b) && Best(scores, b, a) <==>
      a.health == b.health && a.p95Health == b.p95Health && ScoreOf(scores, a) == ScoreOf(scores, b) && a.updated == b.updated
  {
  }

  predicate Sorted(scores: Scores, es: seq<Snapshot>) {
    forall i, j :: 0 <= i < j < |es| ==> Best(scores, es[i], es[j])
  }

  predicate Permutation(a: seq<Snapshot>, b: seq<Snapshot>) {
    multiset(a) == multiset(b)
  }

  /** In a sorted list the healthy endpoints come first, within one class of health and P95 health the
      scores never rise, and among equal scores the update times never fall. */
  lemma SortedShape(scores: Scores, es: seq<Snapshot>, i: nat, j: nat)
    requires Sorted(scores, es) && i < j < |es|
    ensures es[j].health ==> es[i].health
    ensures es[i].health == es[j].health && es[j].p95Health ==> es[i].p95Health
    ensures es[i].health == es[j].health && es[i].p95Health == es[j].p95Health ==>
      ScoreOf(scores, es[i]) >= ScoreOf(scores, es[j])
    ensures (es[i].health == es[j].health && es[i].p95Health == es[j].p95Health
      && ScoreOf(scores, es[i]) == ScoreOf(scores, es[j])) ==> es[i].updated <= es[j].updated
  {
    assert Best(scores, es[i], es[j]);
  }

  // ---- the sort ----

  lemma SwapPermutes(s: seq<Snapshot>, i: nat, j: nat)
    requires i < |s| && j < |s|
    ensures Permutation(s[i := s[j]][j := s[i]], s)
  {
  }

  method Swap(a: array<Snapshot>, i: nat, j: nat)
    requires i < a.Length && j < a.Length
    modifies a
    ensures a[..] == old(a[..])[i := old(a[j])][j := old(a[i])]
    ensures Permutation(a[..], old(a[..]))
  {
    SwapPermutes(a[..], i, j);
    a[i], a[j] := a[j], a[i];
  }

  /** All pairs but those of the element at j that come before it are in order. */
  predicate SortedBut(scores: Scores, s: seq<Snapshot>, n: nat, j: nat)
    requires n <= |s|
  {
    forall x, y :: 0 <= x < y < n && y != j ==> Best(scores, s[x], s[y])
  }

  method Insert(a: array<Snapshot>, scores: Scores, n: nat)
    requires n < a.Length && Sorted(scores, a[..n])
    modifies a
    ensures Sorted(scores, a[..n + 1]) && Permutation(a[..], old(a[..]))
  {
    var j: nat := n;
    assert forall x, y :: 0 <= x < y < n ==> a[..n][x] == a[x] && a[..n][y] == a[y];
    while j > 0 && !Best(scores, a[j - 1], a[j])
      invariant j <= n
      invariant Permutation(a[..], old(a[..]))
      invariant SortedBut(scores, a[..], n + 1, j)
      invariant forall y :: j < y <= n ==> Best(scores, a[j], a[y])
    {
      Swap(a, j - 1, j);
      j := j - 1;
    }
    forall x | 0 <= x < j
      ensures Best(scores, a[x], a[j])
    {
      BestIsPreorder(scores, a[x], a[j - 1], a[j]);
    }
  }

  /** Stands in for the library's `SortBy`: any in-place sort by `Best` does. */
  method SortBy(a: array<Snapshot>, scores: Scores)
    modifies a
    ensures Sorted(scores, a[..]) && Permutation(a[..], old(a[..]))
  {
    for n := 0 to a.Length
      invariant Permutation(a[..], old(a[..]))
      invariant Sorted(scores, a[..n])
    {
      Insert(a, scores, n);
    }
    assert a[..a.Length] == a[..];
  }

  // ---- arrange ----

  method Arrange(a: array<Snapshot>) returns (ok: bool, ghost scores: Scores)
    modifies a
    ensures ok <==> CanArrange(old(a[..]))
    ensures !ok ==> a[..] == old(a[..])
    ensures ok ==> Sorted(scores, a[..]) && Permutation(a[..], old(a[..]))
    ensures ok && a.Length > 1 ==> forall e :: e in old(a[..]) ==> ScoreOf(scores, e) == ScoreIn(old(a[..]), e)
  {
    scores := map[];
    if a.Length <= 1 {
      return true, map[];
    }
    ghost var es := a[..];
    var values := NormalizeEndpointValues(a[..]);
    var total, computed, order := CalculateEndpointScores(values);
    forall e | e in es
      ensures e in computed && computed[e] == ScoreIn(es, e)
    {
      assert e in values;
    }
    TotalIsPositive(order, computed);
    assert forall e :: e in order <==> e in es;
    if total <= 0.0 {
      return false, map[];
    }
    scores := computed;
    SortBy(a, computed);
    return true, computed;
  }

  // ---- select ----

  const FULLNODE := "fullnode"

  const FULLNODE_METHODS := {
    "eth_getBlockByNumber", "eth_getBlockByHash", "eth_getTransactionByHash",
    "eth_getTransactionByBlockHashAndIndex", "eth_getTransactionByBlockNumberAndIndex",
    "eth_getTransactionReceipt", "eth_getTransactionCount", "eth_getUncleByBlockHashAndIndex",
    "eth_getUncleByBlockNumberAndIndex", "eth_getBlockTransactionCountByHash",
    "eth_getBlockTransactionCountByNumber", "eth_getUncleCountByBlockHash",
    "eth_getUncleCountByBlockNumber", "eth_blockNumber", "eth_accounts", "eth_gasPrice",
    "eth_chainId", "net_version"}

  /** The options `Select` reads; the timeout is in milliseconds and may be negative. */
  datatype Options = Options(types: seq<string>, attempts: nat, rotation: bool, timeout: int)

  /** `slice.Filter` by type. */
  function Filter(es: seq<Snapshot>, kinds: set<string>): (r: seq<Snapshot>)
    ensures forall e :: e in r <==> e in es && e.kind in kinds
  {
    if es == [] then []
    else
      var front, last := es[..|es| - 1], es[|es| - 1];
      if last.kind in kinds then Filter(front, kinds) + [last] else Filter(front, kinds)
  }

  lemma FilterSnoc(es: seq<Snapshot>, e: Snapshot, kinds: set<string>)
    ensures Filter(es + [e], kinds) == Filter(es, kinds) + if e.kind in kinds then [e] else []
  {
    assert (es + [e])[..|es|] == es;
    assert Filter(es, kinds) + [] == Filter(es, kinds);
  }

  /** Each endpoint of the kinds is kept as often as it was there. */
  lemma {:induction false} FilterCounts(es: seq<Snapshot>, kinds: set<string>, e: Snapshot)
    ensures multiset(Filter(es, kinds))[e] == if e.kind in kinds then multiset(es)[e] else 0
  {
    if es != [] {
      var front, last := es[..|es| - 1], es[|es| - 1];
      FilterCounts(front, kinds, e);
      assert es == front + [last];
      FilterSnoc(front, last, kinds);
    }
  }

  lemma Associate(a: seq<Snapshot>, b: seq<Snapshot>, c: seq<Snapshot>)
    ensures a + b + c == a + (b + c)
  {
  }

  /** The order stays: what is kept of a list comes before what is kept of a later one. */
  lemma {:induction false} FilterInOrder(a: seq<Snapshot>, b: seq<Snapshot>, kinds: set<string>)
    ensures Filter(a + b, kinds) == Filter(a, kinds) + Filter(b, kinds)
  {
    if b == [] {
      assert a + b == a;
    } else {
      var front, last := b[..|b| - 1], b[|b| - 1];
      FilterInOrder(a, front, kinds);
      Associate(a, front, [last]);
      assert front + [last] == b;
      FilterSnoc(a + front, last, kinds);
      FilterSnoc(front, last, kinds);
      Associate(Filter(a, kinds), Filter(front, kinds), if last.kind in kinds then [last] else []);
    }
  }

  function OfKinds(types: seq<string>): set<string> {
    set t | t in types
  }

  /** No filter finds anything: the caller's own list is ordered, in place. */
  predicate TakesAll(es: seq<Snapshot>, o: Options, methods: seq<string>) {
    && Filter(es, OfKinds(o.types)) == []
    && ((exists m :: m in methods && m !in FULLNODE_METHODS) || Filter(es, {FULLNODE}) == [])
  }

  /** The endpoints that are ordered: those of the wanted types, else full nodes for the cheap methods,
      else all. A lone endpoint is never filtered. */
  function Candidates(es: seq<Snapshot>, o: Options, methods: seq<string>): seq<Snapshot> {
    var typed, full := Filter(es, OfKinds(o.types)), Filter(es, {FULLNODE});
    if |es| <= 1 then es
    else if typed != [] then typed
    else if (forall m :: m in methods ==> m in FULLNODE_METHODS) && full != [] then full
    else es
  }

  predicate SomeOf(es: seq<Snapshot>, kinds: set<string>) {
    exists e :: e in es && e.kind in kinds
  }

  /** What is left of a list when exactly the endpoints of some kinds are kept, each as often as given. */
  ghost predicate KeepsExactly(es: seq<Snapshot>, kinds: set<string>, r: seq<Snapshot>) {
    forall e :: multiset(r)[e] == if e.kind in kinds then multiset(es)[e] else 0
  }

  lemma SomeFiltered(es: seq<Snapshot>, kinds: set<string>)
    ensures Filter(es, kinds) != [] <==> SomeOf(es, kinds)
  {
    if Filter(es, kinds) != [] {
      assert Filter(es, kinds)[0] in Filter(es, kinds);
    }
    if SomeOf(es, kinds) {
      var e :| e in es && e.kind in kinds;
      assert e in Filter(es, kinds);
    }
  }

  /** If some endpoint is of a wanted type, exactly those are candidates; otherwise, if every method is one
      of the cheap ones and there is a full node, exactly the full nodes; otherwise all. */
  lemma CandidatesExactly(es: seq<Snapshot>, o: Options, methods: seq<string>)
    ensures |es| <= 1 ==> Candidates(es, o, methods) == es
    ensures |es| > 1 && SomeOf(es, OfKinds(o.types)) ==> KeepsExactly(es, OfKinds(o.types), Candidates(es, o, methods))
    ensures (|es| > 1 && !SomeOf(es, OfKinds(o.types)) && (forall m :: m in methods ==> m in FULLNODE_METHODS)
      && SomeOf(es, {"fullnode"})) ==> KeepsExactly(es, {"fullnode"}, Candidates(es, o, methods))
    ensures !SomeOf(es, OfKinds(o.types)) && ((exists m :: m in methods && m !in FULLNODE_METHODS) || !SomeOf(es, {"fullnode"})) ==>
      Candidates(es, o, methods) == es
  {
    forall kinds
      ensures KeepsExactly(es, kinds, Filter(es, kinds))
    {
      forall e
        ensures multiset(Filter(es, kinds))[e] == if e.kind in kinds then multiset(es)[e] else 0
      {
        FilterCounts(es, kinds, e);
      }
    }
    SomeFiltered(es, OfKinds(o.types));
    SomeFiltered(es, {FULLNODE});
  }

  /** `arranged` holds es sorted by the scores they have among themselves. */
  ghost predicate Ordered(es: seq<Snapshot>, scores: Scores, arranged: seq<Snapshot>) {
    && Sorted(scores, arranged) && Permutation(arranged, es)
    && (|es| > 1 ==> forall e :: e in es ==> ScoreOf(scores, e) == ScoreIn(es, e))
  }

  predicate FirstUnhealthy(es: seq<Snapshot>, i: nat) {
    i < |es| && !es[i].health && forall k :: 0 <= k < i ==> es[k].health
  }

  /** The timeout as a percentage of the greatest one, truncated toward zero. */
  function Chance(timeout: int): int {
    Quotient(timeout * 100, MAX_TIMEOUT)
  }

  lemma ChanceExactly(timeout: int, draw: nat)
    ensures draw < Chance(timeout) <==> (draw + 1) * MAX_TIMEOUT <= timeout * 100
  {
  }

  /** Whether the draw (out of 100) asks for an unhealthy endpoint to be probed first. */
  predicate Probes(es: seq<Snapshot>, o: Options, draw: nat) {
    es != [] && es[0].health && o.attempts > 1 && o.rotation && (draw + 1) * MAX_TIMEOUT <= o.timeout * 100
  }

  /** A probe is due when the first endpoint is healthy, several attempts may rotate, and the draw is below
      one for every three whole seconds of timeout: never below three seconds, always at five minutes. */
  lemma ProbesExactly(es: seq<Snapshot>, o: Options, draw: nat)
    ensures Probes(es, o, draw) <==> es != [] && es[0].health && o.attempts > 1 && o.rotation && draw < o.timeout / 3000
    ensures o.timeout < 3000 ==> !Probes(es, o, draw)
    ensures o.timeout >= 300_000 && draw < 100 ==> (Probes(es, o, draw) <==> es != [] && es[0].health && o.attempts > 1 && o.rotation)
  {
  }

  ghost predicate Promoted(es: seq<Snapshot>, r: seq<Snapshot>, o: Options, draw: nat) {
    if Probes(es, o, draw) && exists i: nat :: FirstUnhealthy(es, i)
    then exists i: nat :: FirstUnhealthy(es, i) && r == [es[i]] + es[..i] + es[i + 1..]
    else r == es
  }

  /** What the array that held the arranged order holds afterwards. */
  ghost predicate Spliced(es: seq<Snapshot>, after: seq<Snapshot>, o: Options, draw: nat) {
    if Probes(es, o, draw) && exists i: nat :: FirstUnhealthy(es, i)
    then exists i: nat :: FirstUnhealthy(es, i) && after == es[..i] + es[i + 1..] + [es[|es| - 1]]
    else after == es
  }

  lemma ShiftedLeft(s: seq<Snapshot>, i: nat, after: seq<Snapshot>)
    requires i < |s| == |after| && after[|s| - 1] == s[|s| - 1]
    requires forall x :: 0 <= x < i ==> after[x] == s[x]
    requires forall x :: i <= x < |s| - 1 ==> after[x] == s[x + 1]
    ensures after[..|s| - 1] == s[..i] + s[i + 1..]
    ensures after == s[..i] + s[i + 1..] + [s[|s| - 1]]
  {
    assert after == after[..|s| - 1] + [after[|s| - 1]];
  }

  /** `append([]*Endpoint{e}, append(arranged[:i], arranged[i+1:]...)...)`: the inner append shifts the
      shared array left before the outer one copies it. */
  method PromoteAt(a: array<Snapshot>, i: nat) returns (r: seq<Snapshot>)
    requires i < a.Length
    modifies a
    ensures r == [old(a[i])] + old(a[..i]) + old(a[i + 1..])
    ensures a[..] == old(a[..i]) + old(a[i + 1..]) + [old(a[a.Length - 1])]
  {
    var e := a[i];
    ghost var s := a[..];
    assert s[..i] == a[..i] && s[i + 1..] == a[i + 1..];
    for k := i to a.Length - 1
      invariant forall x :: 0 <= x < i || k <= x < a.Length ==> a[x] == s[x]
      invariant forall x :: i <= x < k ==> a[x] == s[x + 1]
    {
      a[k] := a[k + 1];
    }
    ShiftedLeft(s, i, a[..]);
    assert a[..][..|s| - 1] == a[..a.Length - 1];
    r := [e] + a[..a.Length - 1];
    assert r == [e] + (s[..i] + s[i + 1..]) == [e] + s[..i] + s[i + 1..];
  }

  method Promote(a: array<Snapshot>, o: Options, draw: nat) returns (r: seq<Snapshot>)
    requires a.Length > 0
    modifies a
    ensures Promoted(old(a[..]), r, o, draw) && Spliced(old(a[..]), a[..], o, draw)
  {
    ChanceExactly(o.timeout, draw);
    if a[0].health && o.attempts > 1 && o.rotation && draw < Chance(o.timeout) {
      for i := 0 to a.Length
        invariant a[..] == old(a[..])
        invariant forall k :: 0 <= k < i ==> a[k].health
      {
        if !a[i].health {
          assert FirstUnhealthy(a[..], i);
          r := PromoteAt(a, i);
          return;
        }
      }
      assert forall i: nat :: !FirstUnhealthy(a[..], i);
    }
    r := a[..];
  }

  /** Stands in for the library's shuffle: arbitrary swaps. */
  method Shuffle(a: array<Snapshot>)
    modifies a
    ensures Permutation(a[..], old(a[..]))
  {
    for i := 0 to a.Length
      invariant Permutation(a[..], old(a[..]))
    {
      var j: nat :| j <= i;
      Swap(a, i, j);
    }
  }

  lemma SameSize(a: seq<Snapshot>, b: seq<Snapshot>)
    requires Permutation(a, b)
    ensures |a| == |b|
  {
    assert |multiset(a)| == |multiset(b)|;
  }

  lemma NoKindNoSnapshot(es: seq<Snapshot>)
    ensures Filter(es, {}) == []
  {
    if es != [] {
      NoKindNoSnapshot(es[..|es| - 1]);
    }
  }

  /** A filtered list is a fresh slice; the whole list is the caller's own. */
  method Narrow(endpoints: array<Snapshot>, o: Options, methods: seq<string>) returns (a: array<Snapshot>)
    requires endpoints.Length > 1
    ensures a[..] == Candidates(endpoints[..], o, methods) && a.Length > 0
    ensures if TakesAll(endpoints[..], o, methods) then a == endpoints else fresh(a)
  {
    var es := endpoints[..];
    var picked: seq<Snapshot> := [];
    if |o.types| > 0 {
      picked := Filter(es, OfKinds(o.types));
    }
    if o.types == [] {
      assert OfKinds(o.types) == {};
      NoKindNoSnapshot(es);
    }
    if |picked| <= 0 {
      if forall m :: m in methods ==> m in FULLNODE_METHODS {
        picked := Filter(es, {FULLNODE});
      }
      if |picked| <= 0 {
        return endpoints;
      }
    }
    a := new Snapshot[|picked|](i requires 0 <= i < |picked| => picked[i]);
    assert a[..] == picked;
  }

  lemma FrontingPermutes(es: seq<Snapshot>, i: nat)
    requires i < |es|
    ensures Permutation([es[i]] + es[..i] + es[i + 1..], es)
  {
    assert es == es[..i] + ([es[i]] + es[i + 1..]);
    assert multiset(es) == multiset(es[..i]) + multiset([es[i]] + es[i + 1..]);
  }

  lemma PromotedPermutes(es: seq<Snapshot>, r: seq<Snapshot>, o: Options, draw: nat)
    requires Promoted(es, r, o, draw)
    ensures Permutation(r, es)
  {
    if r != es {
      var i: nat :| FirstUnhealthy(es, i) && r == [es[i]] + es[..i] + es[i + 1..];
      FrontingPermutes(es, i);
    }
  }

  /** The ordering of the candidates, in place. */
  method Order(a: array<Snapshot>, o: Options, draw: nat)
    returns (r: seq<Snapshot>, ghost scores: Scores, ghost arranged: seq<Snapshot>)
    requires a.Length > 0
    modifies a
    ensures r != [] && Permutation(r, old(a[..]))
    ensures if CanArrange(old(a[..]))
            then Ordered(old(a[..]), scores, arranged) && Promoted(arranged, r, o, draw) && Spliced(arranged, a[..], o, draw)
            else r == a[..]
  {
    ghost var es := a[..];
    var ok: bool;
    ok, scores := Arrange(a);
    arranged := a[..];
    if ok {
      assert forall e :: e in arranged ==> e in multiset(arranged) && e in es;
      SameSize(arranged, es);
      r := Promote(a, o, draw);
      PromotedPermutes(arranged, r, o, draw);
    } else {
      Shuffle(a);
      r := a[..];
    }
    SameSize(r, es);
  }

  method Select(endpoints: array<Snapshot>, o: Options, methods: seq<string>, draw: nat)
    returns (r: seq<Snapshot>, ok: bool, ghost scores: Scores, ghost arranged: seq<Snapshot>)
    modifies endpoints
    ensures var es := old(endpoints[..]); var all := Candidates(es, o, methods);
      && (ok <==> es != [])
      && (ok ==> r != [] && Permutation(r, all))
      && (|es| > 1 && CanArrange(all) ==> Ordered(all, scores, arranged) && Promoted(arranged, r, o, draw))
      && (|es| <= 1 || !TakesAll(es, o, methods) ==> endpoints[..] == es)
      && (|es| > 1 && TakesAll(es, o, methods) ==>
           if CanArrange(es) then Spliced(arranged, endpoints[..], o, draw) else r == endpoints[..])
  {
    scores, arranged := map[], [];
    if endpoints.Length <= 0 {
      return [], false, map[], [];
    }
    if endpoints.Length <= 1 {
      return endpoints[..], true, map[], endpoints[..];
    }
    var a := Narrow(endpoints, o, methods);
    r, scores, arranged := Order(a, o, draw);
    ok := true;
  }

  lemma FrontedShape(scores: Scores, es: seq<Snapshot>, i: nat)
    requires Sorted(scores, es) && FirstUnhealthy(es, i)
    ensures var r := [es[i]] + es[..i] + es[i + 1..];
      && r[1..] == es[..i] + es[i + 1..]
      && forall j, k :: 0 < j < k < |r| && r[k].health ==> r[j].health
  {
    forall j: nat, k: nat | j < k < |es|
      ensures es[k].health ==> es[j].health
    {
      SortedShape(scores, es, j, k);
    }
  }

  /** What a selection made from an arranged list looks like: at most one unhealthy endpoint stands
      before a healthy one, it is the first unhealthy one of the arranged order, it stands at 0, and
      every other endpoint keeps its relative order. */
  lemma PromotedShape(scores: Scores, es: seq<Snapshot>, r: seq<Snapshot>, o: Options, draw: nat)
    requires Sorted(scores, es) && Promoted(es, r, o, draw)
    ensures forall i, j :: 0 <= i < j < |r| && !r[i].health && r[j].health ==> i == 0 && r != es
    ensures r != es ==> exists i: nat :: FirstUnhealthy(es, i) && r[0] == es[i] && r[1..] == es[..i] + es[i + 1..]
  {
    if r != es {
      var i: nat :| FirstUnhealthy(es, i) && r == [es[i]] + es[..i] + es[i + 1..];
      FrontedShape(scores, es, i);
    } else {
      forall i: nat, j: nat | i < j < |es|
        ensures es[j].health ==> es[i].health
      {
        SortedShape(scores, es, i, j);
      }
    }
  }

  /** The splice leaves the shared array without the promoted endpoint and with its last one twice,
      unless the promoted one was the last. */
  lemma SharedArrayLosesPromoted(es: seq<Snapshot>, i: nat)
    requires i < |es| && Distinct(es)
    ensures Permutation(es[..i] + es[i + 1..] + [es[|es| - 1]], es) <==> i == |es| - 1
  {
    var after := es[..i] + es[i + 1..] + [es[|es| - 1]];
    if i < |es| - 1 {
      assert es[i] !in after;
      assert es[i] in es;
      assert es[i] in multiset(es) && es[i] !in multiset(after);
    } else {
      assert after == es;
    }
  }

  predicate HasUnhealthy(es: seq<Snapshot>) {
    exists i :: 0 <= i < |es| && !es[i].health
  }

  lemma {:induction false} FirstUnhealthyExists(es: seq<Snapshot>) returns (i: nat)
    requires HasUnhealthy(es)
    ensures FirstUnhealthy(es, i)
  {
    if HasUnhealthy(es[..|es| - 1]) {
      i := FirstUnhealthyExists(es[..|es| - 1]);
      forall k | 0 <= k < i ensures es[k].health {
        assert es[..|es| - 1][k] == es[k];
      }
    } else {
      i := |es| - 1;
      forall k | 0 <= k < i ensures es[k].health {
        assert es[..|es| - 1][k] == es[k];
      }
    }
  }

  /** An unhealthy endpoint comes first exactly when there is one and a probe is due, or the arranged order
      begins with one. */
  lemma PromotesExactly(es: seq<Snapshot>, r: seq<Snapshot>, o: Options, draw: nat)
    requires es != [] && Promoted(es, r, o, draw)
    ensures r != [] && (!r[0].health <==> !es[0].health || (Probes(es, o, draw) && HasUnhealthy(es)))
    ensures r == es <==> !(Probes(es, o, draw) && HasUnhealthy(es))
  {
    if Probes(es, o, draw) && HasUnhealthy(es) {
      var i := FirstUnhealthyExists(es);
      assert FirstUnhealthy(es, i);
    }
  }

  /** The array that held the arranged order still holds the same endpoints exactly when no endpoint was
      promoted, or only the last one could be. */
  lemma SplicedExactly(es: seq<Snapshot>, after: seq<Snapshot>, o: Options, draw: nat)
    requires es != [] && Distinct(es) && Spliced(es, after, o, draw)
    ensures Permutation(after, es) <==>
      !(Probes(es, o, draw) && HasUnhealthy(es)) || FirstUnhealthy(es, |es| - 1)
  {
    if Probes(es, o, draw) && HasUnhealthy(es) {
      var first := FirstUnhealthyExists(es);
      assert FirstUnhealthy(es, first);
      var i: nat :| FirstUnhealthy(es, i) && after == es[..i] + es[i + 1..] + [es[|es| - 1]];
      SharedArrayLosesPromoted(es, i);
    }
  }
}
