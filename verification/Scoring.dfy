/** Normalising endpoint attributes and scoring endpoints: internal/core/endpoint/selector.go. */
module Scoring {
  import opened Lists

  datatype Attr = BlockNumber | Duration | P95Duration | Count | Weight

  const ATTRS := [BlockNumber, Duration, P95Duration, Count, Weight]

  const SCALE := 100.0

  function At(m: map<Attr, real>, a: Attr): real {
    if a in m then m[a] else 0.0
  }

  /** A snapshot of an endpoint; `id` stands for its address and `attrs` holds its numeric attributes. */
  datatype Snapshot = Snapshot(id: nat, kind: string, health: bool, p95Health: bool, updated: int, attrs: map<Attr, real>) {
    /** A missing or non-numeric attribute reads as 0. */
    function Read(a: Attr): real {
      At(attrs, a)
    }
  }

  function Values(es: seq<Snapshot>, a: Attr): (vs: seq<real>)
    ensures |vs| == |es|
  {
    seq(|es|, i requires 0 <= i < |es| => es[i].Read(a))
  }

  // ---- running minimum and maximum: an accumulator of 0 counts as unset ----

  function StepMax(m: real, v: real): real {
    var m' := if m == 0.0 then v else m;
    if v > m' then v else m'
  }

  function StepMin(m: real, v: real): real {
    var m' := if m == 0.0 then v else m;
    if v < m' then v else m'
  }

  function RunMax(vs: seq<real>): real {
    if vs == [] then 0.0 else StepMax(RunMax(vs[..|vs| - 1]), vs[|vs| - 1])
  }

  function RunMin(vs: seq<real>): real {
    if vs == [] then 0.0 else StepMin(RunMin(vs[..|vs| - 1]), vs[|vs| - 1])
  }

  function Normalized(es: seq<Snapshot>, a: Attr, e: Snapshot): real {
    var lo, hi := RunMin(Values(es, a)), RunMax(Values(es, a));
    if hi - lo > 0.0 then (e.Read(a) - lo) / (hi - lo) * SCALE else 0.0
  }

  lemma ValuesSnoc(es: seq<Snapshot>, i: nat, a: Attr)
    requires i < |es|
    ensures RunMax(Values(es[..i + 1], a)) == StepMax(RunMax(Values(es[..i], a)), es[i].Read(a))
    ensures RunMin(Values(es[..i + 1], a)) == StepMin(RunMin(Values(es[..i], a)), es[i].Read(a))
  {
    var vs := Values(es[..i + 1], a);
    assert vs[..i] == Values(es[..i], a);
  }

  lemma AllAttrs(a: Attr)
    ensures a in ATTRS
  {
    match a
    case BlockNumber => assert a == ATTRS[0];
    case Duration => assert a == ATTRS[1];
    case P95Duration => assert a == ATTRS[2];
    case Count => assert a == ATTRS[3];
    case Weight => assert a == ATTRS[4];
  }

  /** The five attributes of one endpoint. */
  method Widen(e: Snapshot, mins0: map<Attr, real>, maxs0: map<Attr, real>) returns (mins: map<Attr, real>, maxs: map<Attr, real>)
    ensures forall a :: At(mins, a) == StepMin(At(mins0, a), e.Read(a)) && At(maxs, a) == StepMax(At(maxs0, a), e.Read(a))
  {
    mins, maxs := mins0, maxs0;
    for j := 0 to |ATTRS|
      invariant forall a :: At(mins, a) == if a in ATTRS[..j] then StepMin(At(mins0, a), e.Read(a)) else At(mins0, a)
      invariant forall a :: At(maxs, a) == if a in ATTRS[..j] then StepMax(At(maxs0, a), e.Read(a)) else At(maxs0, a)
    {
      var attr := ATTRS[j];
      var v := e.Read(attr);
      assert attr !in ATTRS[..j] && ATTRS[..j + 1] == ATTRS[..j] + [attr];
      if At(maxs, attr) == 0.0 {
        maxs := maxs[attr := v];
      }
      if At(mins, attr) == 0.0 {
        mins := mins[attr := v];
      }
      if v < At(mins, attr) {
        mins := mins[attr := v];
      }
      if v > At(maxs, attr) {
        maxs := maxs[attr := v];
      }
    }
    forall a ensures a in ATTRS[..|ATTRS|] { AllAttrs(a); }
  }

  method Bounds(es: seq<Snapshot>) returns (mins: map<Attr, real>, maxs: map<Attr, real>)
    ensures forall a :: At(mins, a) == RunMin(Values(es, a)) && At(maxs, a) == RunMax(Values(es, a))
  {
    mins, maxs := map[], map[];
    for i := 0 to |es|
      invariant forall a :: At(mins, a) == RunMin(Values(es[..i], a)) && At(maxs, a) == RunMax(Values(es[..i], a))
    {
      forall a
        ensures RunMax(Values(es[..i + 1], a)) == StepMax(RunMax(Values(es[..i], a)), es[i].Read(a))
        ensures RunMin(Values(es[..i + 1], a)) == StepMin(RunMin(Values(es[..i], a)), es[i].Read(a))
      {
        ValuesSnoc(es, i, a);
      }
      mins, maxs := Widen(es[i], mins, maxs);
    }
    assert es[..|es|] == es;
  }

  type Table = map<Snapshot, map<Attr, real>>

  method NormalizeEndpointValues(es: seq<Snapshot>) returns (normalized: Table)
    ensures normalized.Keys == set e | e in es
    ensures forall e, a :: e in es ==> At(normalized[e], a) == Normalized(es, a, e)
  {
    normalized := map[];
    if |es| == 0 {
      return;
    }
    var mins, maxs := Bounds(es);
    for i := 0 to |es|
      invariant normalized.Keys == set e | e in es[..i]
      invariant forall e, a :: e in es[..i] ==> At(normalized[e], a) == Normalized(es, a, e)
    {
      var row: map<Attr, real> := map[];
      for j := 0 to |ATTRS|
        invariant forall a :: a in ATTRS[..j] ==> At(row, a) == Normalized(es, a, es[i])
      {
        var attr := ATTRS[j];
        var hi, lo := At(maxs, attr), At(mins, attr);
        row := row[attr := if hi - lo > 0.0 then (es[i].Read(attr) - lo) / (hi - lo) * SCALE else 0.0];
        assert ATTRS[..j + 1] == ATTRS[..j] + [attr];
      }
      forall a ensures At(row, a) == Normalized(es, a, es[i]) { AllAttrs(a); assert ATTRS[..|ATTRS|] == ATTRS; }
      normalized := normalized[es[i] := row];
      assert es[..i + 1] == es[..i] + [es[i]];
    }
    assert es[..|es|] == es;
  }

  // ---- scores ----

  function Least(x: real, y: real): real {
    if x < y then x else y
  }

  function RowScore(row: map<Attr, real>): real {
    var score := At(row, BlockNumber) * 2.0
      + (100.0 - Least(At(row, Duration), At(row, P95Duration)))
      + (100.0 - At(row, Count) * 1.1)
      + At(row, Weight);
    if score < 0.0 then 0.0 else score
  }

  function Total(order: seq<Snapshot>, scores: map<Snapshot, real>): real
    requires forall e :: e in order ==> e in scores
  {
    if order == [] then 0.0 else Total(order[..|order| - 1], scores) + scores[order[|order| - 1]]
  }

  lemma {:induction false} TotalFrame(order: seq<Snapshot>, scores: map<Snapshot, real>, e: Snapshot, v: real)
    requires e !in order && forall x :: x in order ==> x in scores
    ensures Total(order, scores[e := v]) == Total(order, scores)
  {
    if order != [] {
      assert order[|order| - 1] in order;
      TotalFrame(order[..|order| - 1], scores, e, v);
    }
  }

  lemma {:induction false} TotalSnoc(order: seq<Snapshot>, scores: map<Snapshot, real>, e: Snapshot, v: real)
    requires e !in order && forall x :: x in order ==> x in scores
    ensures Total(order + [e], scores[e := v]) == Total(order, scores) + v
  {
    assert (order + [e])[..|order|] == order;
    TotalFrame(order, scores, e, v);
  }

  method Score(value: map<Attr, real>) returns (score: real)
    ensures score == RowScore(value)
  {
    score := 0.0;
    score := score + At(value, BlockNumber) * 2.0;
    score := score + (100.0 - Least(At(value, Duration), At(value, P95Duration)));
    score := score + (100.0 - At(value, Count) * 1.1);
    score := score + At(value, Weight);
    if score < 0.0 {
      score := 0.0;
    }
  }

  /** The map is visited in some order; each endpoint counts once in the total. */
  method CalculateEndpointScores(values: Table) returns (total: real, scores: map<Snapshot, real>, ghost order: seq<Snapshot>)
    ensures scores.Keys == values.Keys
    ensures forall e :: e in values ==> scores[e] == RowScore(values[e])
    ensures Distinct(order) && (forall e :: e in order <==> e in values)
    ensures total == Total(order, scores)
  {
    total, scores, order := 0.0, map[], [];
    var left := values.Keys;
    while left != {}
      invariant left <= values.Keys && scores.Keys == values.Keys - left
      invariant forall e :: e in scores ==> scores[e] == RowScore(values[e])
      invariant Distinct(order) && forall e :: e in order <==> e in scores
      invariant total == Total(order, scores)
    {
      var e :| e in left;
      var score := Score(values[e]);
      TotalSnoc(order, scores, e, score);
      total := total + score;
      scores := scores[e := score];
      order := order + [e];
      left := left - {e};
    }
  }

  /** The score of e among es. */
  function ScoreIn(es: seq<Snapshot>, e: Snapshot): real {
    var score := Normalized(es, BlockNumber, e) * 2.0
      + (100.0 - Least(Normalized(es, Duration, e), Normalized(es, P95Duration, e)))
      + (100.0 - Normalized(es, Count, e) * 1.1)
      + Normalized(es, Weight, e);
    if score < 0.0 then 0.0 else score
  }

  /** A is nowhere behind b: not in block number, durations, count or weight. */
  predicate NowhereBehind(a: Snapshot, b: Snapshot) {
    && a.Read(BlockNumber) >= b.Read(BlockNumber) && a.Read(Weight) >= b.Read(Weight)
    && a.Read(Duration) <= b.Read(Duration) && a.Read(P95Duration) <= b.Read(P95Duration)
    && a.Read(Count) <= b.Read(Count)
  }

  lemma ScaleKeepsOrder(x: real, y: real, d: real)
    requires x <= y && d > 0.0
    ensures x / d * SCALE <= y / d * SCALE
  {
    assert y / d - x / d == (y - x) / d >= 0.0;
  }

  lemma NormalizedKeepsOrder(es: seq<Snapshot>, attr: Attr, a: Snapshot, b: Snapshot)
    requires a.Read(attr) <= b.Read(attr)
    ensures Normalized(es, attr, a) <= Normalized(es, attr, b)
  {
    var lo, hi := RunMin(Values(es, attr)), RunMax(Values(es, attr));
    if hi - lo > 0.0 {
      ScaleKeepsOrder(a.Read(attr) - lo, b.Read(attr) - lo, hi - lo);
    }
  }

  /** Whatever the other endpoints are, and even if the running minima are wrong, an endpoint that is
      nowhere behind another one scores no less. */
  lemma ScoreFavours(es: seq<Snapshot>, a: Snapshot, b: Snapshot)
    requires NowhereBehind(a, b)
    ensures ScoreIn(es, a) >= ScoreIn(es, b)
  {
    NormalizedKeepsOrder(es, BlockNumber, b, a);
    NormalizedKeepsOrder(es, Weight, b, a);
    NormalizedKeepsOrder(es, Duration, a, b);
    NormalizedKeepsOrder(es, P95Duration, a, b);
    NormalizedKeepsOrder(es, Count, a, b);
  }

  function Spread(es: seq<Snapshot>, attr: Attr): real {
    RunMax(Values(es, attr)) - RunMin(Values(es, attr))
  }

  lemma DivisionOfDifference(x: real, y: real, lo: real, d: real)
    requires d > 0.0
    ensures (x - lo) / d * SCALE - (y - lo) / d * SCALE == (x - y) / d * SCALE
    ensures (lo - lo) / d * SCALE == 0.0 && (lo + d - lo) / d * SCALE == 100.0
  {
    assert (x - lo) / d - (y - lo) / d == (x - y) / d;
    assert (lo + d - lo) / d == 1.0;
  }

  /** Where the running bounds differ, an endpoint at the lower one is given 0, one at the upper one 100,
      and the rest in proportion; where they do not, all are given 0. */
  lemma NormalizedExactly(es: seq<Snapshot>, attr: Attr, a: Snapshot, b: Snapshot)
    ensures Spread(es, attr) <= 0.0 ==> Normalized(es, attr, a) == 0.0
    ensures Spread(es, attr) > 0.0 ==>
      && (a.Read(attr) == RunMin(Values(es, attr)) ==> Normalized(es, attr, a) == 0.0)
      && (a.Read(attr) == RunMax(Values(es, attr)) ==> Normalized(es, attr, a) == 100.0)
      && Normalized(es, attr, a) - Normalized(es, attr, b) == (a.Read(attr) - b.Read(attr)) / Spread(es, attr) * 100.0
  {
    if Spread(es, attr) > 0.0 {
      DivisionOfDifference(a.Read(attr), b.Read(attr), RunMin(Values(es, attr)), Spread(es, attr));
    }
  }

  predicate AlikeBut(a: Snapshot, b: Snapshot, attrs: set<Attr>) {
    forall x :: x !in attrs ==> a.Read(x) == b.Read(x)
  }

  predicate BothScore(es: seq<Snapshot>, a: Snapshot, b: Snapshot) {
    ScoreIn(es, a) > 0.0 && ScoreIn(es, b) > 0.0
  }

  /** What one point of a normalised attribute does to the score, all else alike and the cut at 0 aside. */
  lemma ScoreEffects(es: seq<Snapshot>, a: Snapshot, b: Snapshot)
    ensures BothScore(es, a, b) && AlikeBut(a, b, {BlockNumber}) ==>
      ScoreIn(es, a) - ScoreIn(es, b) == 2.0 * (Normalized(es, BlockNumber, a) - Normalized(es, BlockNumber, b))
    ensures BothScore(es, a, b) && AlikeBut(a, b, {Weight}) ==>
      ScoreIn(es, a) - ScoreIn(es, b) == Normalized(es, Weight, a) - Normalized(es, Weight, b)
    ensures BothScore(es, a, b) && AlikeBut(a, b, {Count}) ==>
      ScoreIn(es, a) - ScoreIn(es, b) == 1.1 * (Normalized(es, Count, b) - Normalized(es, Count, a))
  {
    assert AlikeBut(a, b, {BlockNumber}) ==> forall x :: x != BlockNumber ==> Normalized(es, x, a) == Normalized(es, x, b);
    assert AlikeBut(a, b, {Weight}) ==> forall x :: x != Weight ==> Normalized(es, x, a) == Normalized(es, x, b);
    assert AlikeBut(a, b, {Count}) ==> forall x :: x != Count ==> Normalized(es, x, a) == Normalized(es, x, b);
  }

  /** Of the two durations the lesser one counts, and the greater one does not, whatever it is. */
  lemma DurationEffects(es: seq<Snapshot>, a: Snapshot, b: Snapshot)
    ensures (BothScore(es, a, b) && AlikeBut(a, b, {Duration, P95Duration})
      && Normalized(es, Duration, a) <= Normalized(es, P95Duration, a) && Normalized(es, Duration, b) <= Normalized(es, P95Duration, b)) ==>
      ScoreIn(es, a) - ScoreIn(es, b) == Normalized(es, Duration, b) - Normalized(es, Duration, a)
    ensures (BothScore(es, a, b) && AlikeBut(a, b, {Duration, P95Duration})
      && Normalized(es, P95Duration, a) <= Normalized(es, Duration, a) && Normalized(es, P95Duration, b) <= Normalized(es, Duration, b)) ==>
      ScoreIn(es, a) - ScoreIn(es, b) == Normalized(es, P95Duration, b) - Normalized(es, P95Duration, a)
  {
    assert AlikeBut(a, b, {Duration, P95Duration}) ==>
      forall x :: x == BlockNumber || x == Weight || x == Count ==> Normalized(es, x, a) == Normalized(es, x, b);
  }

  /** An endpoint at all the running minima, or in a list where nothing differs, scores 200; no score is
      negative. */
  lemma ScoreBaseline(es: seq<Snapshot>, a: Snapshot)
    ensures ScoreIn(es, a) >= 0.0
    ensures (forall x :: Spread(es, x) <= 0.0 || a.Read(x) == RunMin(Values(es, x))) ==> ScoreIn(es, a) == 200.0
  {
    forall x
      ensures Spread(es, x) <= 0.0 || a.Read(x) == RunMin(Values(es, x)) ==> Normalized(es, x, a) == 0.0
    {
      NormalizedExactly(es, x, a, a);
    }
  }

  lemma {:induction false} TotalIsPositive(order: seq<Snapshot>, scores: map<Snapshot, real>)
    requires forall e :: e in order ==> e in scores && scores[e] >= 0.0
    ensures Total(order, scores) >= 0.0
    ensures forall e :: e in order ==> Total(order, scores) >= scores[e]
    ensures Total(order, scores) > 0.0 <==> exists e :: e in order && scores[e] > 0.0
  {
    if order != [] {
      var front, last := order[..|order| - 1], order[|order| - 1];
      assert order == front + [last];
      TotalIsPositive(front, scores);
    }
  }

  // ---- the running bounds are exact ----

  predicate NonNegative(vs: seq<real>) {
    forall i :: 0 <= i < |vs| ==> vs[i] >= 0.0
  }

  lemma {:induction false} RunMaxIsMaximum(vs: seq<real>)
    requires NonNegative(vs) && vs != []
    ensures RunMax(vs) in vs && forall i :: 0 <= i < |vs| ==> vs[i] <= RunMax(vs)
  {
    if |vs| > 1 {
      RunMaxIsMaximum(vs[..|vs| - 1]);
    }
  }

  /** z starts the stretch after the last zero. */
  predicate AfterLastZero(vs: seq<real>, z: nat) {
    && z < |vs| && (z == 0 || vs[z - 1] == 0.0)
    && forall i :: z <= i < |vs| ==> vs[i] != 0.0
  }

  /** The running minimum is 0 when the last value is 0, and otherwise the least value after the last
      zero: a zero before it is forgotten. */
  lemma {:induction false} RunMinExact(vs: seq<real>)
    requires NonNegative(vs) && vs != []
    ensures vs[|vs| - 1] == 0.0 ==> RunMin(vs) == 0.0
    ensures forall z: nat :: AfterLastZero(vs, z) ==>
      RunMin(vs) in vs[z..] && forall i :: z <= i < |vs| ==> RunMin(vs) <= vs[i]
    ensures RunMin(vs) in vs
    ensures RunMin(vs) == 0.0 ==> vs[|vs| - 1] == 0.0
  {
    var front := vs[..|vs| - 1];
    if front == [] {
      assert vs == [vs[0]];
    } else {
      RunMinExact(front);
      forall z: nat | AfterLastZero(vs, z)
        ensures RunMin(vs) in vs[z..] && forall i :: z <= i < |vs| ==> RunMin(vs) <= vs[i]
      {
        if z < |front| {
          assert AfterLastZero(front, z);
          assert vs[z..] == front[z..] + [vs[|vs| - 1]];
        }
      }
    }
  }

  lemma {:induction false} StretchExists(vs: seq<real>) returns (z: nat)
    requires vs != [] && vs[|vs| - 1] != 0.0
    ensures AfterLastZero(vs, z)
  {
    z := |vs| - 1;
    while z > 0 && vs[z - 1] != 0.0
      invariant z < |vs| && forall i :: z <= i < |vs| ==> vs[i] != 0.0
    {
      z := z - 1;
    }
  }

  /** No value is 0, or the last one is. */
  predicate Tame(vs: seq<real>) {
    vs == [] || vs[|vs| - 1] == 0.0 || forall i :: 0 <= i < |vs| ==> vs[i] != 0.0
  }

  /** The loop finds the true minimum exactly on tame lists. */
  lemma MinimumExactly(vs: seq<real>)
    requires NonNegative(vs)
    ensures Tame(vs) <==> forall i :: 0 <= i < |vs| ==> RunMin(vs) <= vs[i]
  {
    if vs != [] {
      RunMinExact(vs);
      if vs[|vs| - 1] != 0.0 {
        var z := StretchExists(vs);
        assert Tame(vs) ==> AfterLastZero(vs, 0);
      }
    }
  }

  // ---- normalised values and scores stay in range ----

  predicate Sane(es: seq<Snapshot>) {
    forall a :: NonNegative(Values(es, a))
  }

  lemma ScaleUp(x: real, d: real)
    requires d > 0.0
    ensures x <= d ==> x / d * SCALE <= 100.0
    ensures x >= 0.0 <==> x / d * SCALE >= 0.0
    ensures x <= 0.0 <==> x / d * SCALE <= 0.0
  {
    assert x / d * d == x;
    if x <= d {
      assert x / d <= 1.0;
    }
  }

  /** No normalised value is above 100, and one is negative exactly when the endpoint is below the
      running minimum and the running bounds differ. */
  lemma NormalizedRange(es: seq<Snapshot>, a: Attr, i: nat)
    requires Sane(es) && i < |es|
    ensures Normalized(es, a, es[i]) <= 100.0
    ensures Normalized(es, a, es[i]) >= 0.0 <==>
      RunMin(Values(es, a)) <= es[i].Read(a) || RunMax(Values(es, a)) <= RunMin(Values(es, a))
    ensures es[i].Read(a) <= RunMin(Values(es, a)) ==> Normalized(es, a, es[i]) <= 0.0
  {
    var vs := Values(es, a);
    assert vs[i] == es[i].Read(a);
    RunMaxIsMaximum(vs);
    var lo, hi := RunMin(vs), RunMax(vs);
    if hi - lo > 0.0 {
      ScaleUp(vs[i] - lo, hi - lo);
    }
  }

  lemma TameIsNonNegative(es: seq<Snapshot>, a: Attr, i: nat)
    requires Sane(es) && i < |es| && Tame(Values(es, a))
    ensures 0.0 <= Normalized(es, a, es[i]) <= 100.0
  {
    MinimumExactly(Values(es, a));
    assert Values(es, a)[i] == es[i].Read(a);
    NormalizedRange(es, a, i);
  }

  /** With all five attributes tame, every score is within [0, 500]. */
  lemma ScoreRange(es: seq<Snapshot>, i: nat)
    requires Sane(es) && i < |es| && forall a :: Tame(Values(es, a))
    ensures 0.0 <= ScoreIn(es, es[i]) <= 500.0
  {
    forall a ensures 0.0 <= Normalized(es, a, es[i]) <= 100.0 {
      TameIsNonNegative(es, a, i);
    }
  }

  predicate CanArrange(es: seq<Snapshot>) {
    |es| <= 1 || exists i :: 0 <= i < |es| && ScoreIn(es, es[i]) > 0.0
  }

  /** An endpoint at the running minimum of Count scores at least 100 once BlockNumber and Weight are
      tame, whatever the other attributes are; so arranging such a list never fails. */
  lemma ArrangingNeverFails(es: seq<Snapshot>)
    requires Sane(es) && Tame(Values(es, BlockNumber)) && Tame(Values(es, Weight))
    ensures forall i :: 0 <= i < |es| && es[i].Read(Count) <= RunMin(Values(es, Count)) ==> ScoreIn(es, es[i]) >= 100.0
    ensures CanArrange(es)
  {
    forall i | 0 <= i < |es| && es[i].Read(Count) <= RunMin(Values(es, Count))
      ensures ScoreIn(es, es[i]) >= 100.0
    {
      TameIsNonNegative(es, BlockNumber, i);
      TameIsNonNegative(es, Weight, i);
      NormalizedRange(es, Duration, i);
      NormalizedRange(es, P95Duration, i);
      NormalizedRange(es, Count, i);
    }
    if es != [] {
      var counts := Values(es, Count);
      RunMinExact(counts);
      var i :| 0 <= i < |counts| && counts[i] == RunMin(counts);
      assert es[i].Read(Count) == RunMin(counts);
    }
  }

  function Sample(id: nat, block: real, duration: real, count: real, weight: real): Snapshot {
    Snapshot(id, "default", true, true, 0,
      map[BlockNumber := block, Duration := duration, P95Duration := duration, Count := count, Weight := weight])
  }

  /** Zeros among positive block numbers and weights: the running minima are 99, not 0. */
  const UNTAME := [
    Sample(0, 0.0, 1.0, 1.0, 100.0), Sample(1, 100.0, 1.0, 1.0, 0.0), Sample(2, 99.0, 2.0, 2.0, 99.0)]

  lemma Bounds3(es: seq<Snapshot>, a: Attr)
    requires |es| == 3
    ensures RunMax(Values(es, a)) == StepMax(StepMax(StepMax(0.0, es[0].Read(a)), es[1].Read(a)), es[2].Read(a))
    ensures RunMin(Values(es, a)) == StepMin(StepMin(StepMin(0.0, es[0].Read(a)), es[1].Read(a)), es[2].Read(a))
  {
    assert es[..0] == [] && es[..3] == es;
    ValuesSnoc(es, 0, a);
    ValuesSnoc(es, 1, a);
    ValuesSnoc(es, 2, a);
  }

  lemma UntameBounds()
    ensures RunMin(Values(UNTAME, BlockNumber)) == 99.0 && RunMax(Values(UNTAME, BlockNumber)) == 100.0
    ensures RunMin(Values(UNTAME, Weight)) == 99.0 && RunMax(Values(UNTAME, Weight)) == 100.0
    ensures forall a :: a == Duration || a == P95Duration || a == Count ==>
      RunMin(Values(UNTAME, a)) == 1.0 && RunMax(Values(UNTAME, a)) == 2.0
  {
    Bounds3(UNTAME, BlockNumber);
    Bounds3(UNTAME, Duration);
    Bounds3(UNTAME, P95Duration);
    Bounds3(UNTAME, Count);
    Bounds3(UNTAME, Weight);
  }

  lemma UntameScore(i: nat)
    requires i < 3
    ensures ScoreIn(UNTAME, UNTAME[i]) == 0.0
  {
    UntameBounds();
    var e := UNTAME[i];
    if i == 0 {
      assert e.Read(BlockNumber) == 0.0;
      assert Normalized(UNTAME, BlockNumber, e) == -9900.0;
    } else if i == 1 {
      assert e.Read(Weight) == 0.0;
      assert Normalized(UNTAME, Weight, e) == -9900.0;
    } else {
      assert e.Read(BlockNumber) == 99.0 && e.Read(Count) == 2.0;
      assert Normalized(UNTAME, Count, e) == 100.0;
    }
  }

  /** A list that cannot be arranged: every score is 0. */
  lemma UntameListFails()
    ensures Sane(UNTAME) && !CanArrange(UNTAME)
  {
    UntameScore(0);
    UntameScore(1);
    UntameScore(2);
  }
}
