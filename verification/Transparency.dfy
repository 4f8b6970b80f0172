/** When the cached path of `Call` answers as the direct path does. */
module Transparency {
  import opened Wrappers
  import opened JsonRpc
  import opened ResultCache
  import opened Lists
  import JsonText
  import Texts

  // ---- the merge loops, place by place ----

  lemma {:induction false} AssignAllAt(slots: seq<Slot>, at: seq<nat>, slot: Slot, i: nat)
    requires forall k :: 0 <= k < |at| ==> at[k] < |slots|
    requires i < |slots|
    ensures AssignAll(slots, at, slot)[i] == if i in at then slot else slots[i]
  {
    if at != [] {
      var front, last := at[..|at| - 1], at[|at| - 1];
      AssignAllAt(slots, front, slot, i);
      assert at == front + [last];
    }
  }

  predicate Holds(mapping: Mapping, id: string, i: nat) {
    id in mapping && i in mapping[id]
  }

  /** Among the first k answers, the j-th is the last one copied to place i. */
  predicate LastCopied(mapping: Mapping, answers: seq<Slot>, k: nat, j: nat, i: nat)
    requires k <= |answers| && AllAnswers(answers)
  {
    && j < k && Holds(mapping, Sprint(answers[j].id), i)
    && forall l :: j < l < k ==> !Holds(mapping, Sprint(answers[l].id), i)
  }

  predicate NoneCopied(mapping: Mapping, answers: seq<Slot>, k: nat, i: nat)
    requires k <= |answers| && AllAnswers(answers)
  {
    forall j :: 0 <= j < k ==> !Holds(mapping, Sprint(answers[j].id), i)
  }

  lemma MergeOneAt(slots: seq<Slot>, mapping: Mapping, answer: Slot, i: nat)
    requires answer.Answer? && InRange(mapping, |slots|) && i < |slots|
    ensures MergeOne(slots, mapping, answer)[i] ==
      if Holds(mapping, Sprint(answer.id), i) then answer.(cached := false) else slots[i]
  {
    if Sprint(answer.id) in mapping {
      AssignAllAt(slots, mapping[Sprint(answer.id)], Fresh(answer), i);
    }
  }

  /** A place that no answer was copied to holds what was kept for it. */
  lemma {:induction false} MergeKeeps(slots: seq<Slot>, mapping: Mapping, answers: seq<Slot>, k: nat, i: nat)
    requires k <= |answers| && AllAnswers(answers) && InRange(mapping, |slots|) && i < |slots|
    requires NoneCopied(mapping, answers, k, i)
    ensures MergeAll(slots, mapping, answers, k)[i] == slots[i]
  {
    if k > 0 {
      MergeKeeps(slots, mapping, answers, k - 1, i);
      MergeOneAt(MergeAll(slots, mapping, answers, k - 1), mapping, answers[k - 1], i);
    }
  }

  /** A place holds the last answer copied to it. */
  lemma {:induction false} MergeCopies(slots: seq<Slot>, mapping: Mapping, answers: seq<Slot>, k: nat, j: nat, i: nat)
    requires k <= |answers| && AllAnswers(answers) && InRange(mapping, |slots|) && i < |slots|
    requires LastCopied(mapping, answers, k, j, i)
    ensures MergeAll(slots, mapping, answers, k)[i] == answers[j].(cached := false)
  {
    MergeOneAt(MergeAll(slots, mapping, answers, k - 1), mapping, answers[k - 1], i);
    if j < k - 1 {
      MergeCopies(slots, mapping, answers, k - 1, j, i);
    }
  }

  lemma AddIndexExact(m: Mapping, id0: string, x: nat)
    ensures forall id, i: nat :: Holds(AddIndex(m, id0, x), id, i) <==> Holds(m, id, i) || (id == id0 && i == x)
  {
  }

  /** `mapping` holds every cacheable miss once, under its own `ID`, and nothing else. */
  lemma {:induction false} MappingPartitions(requests: seq<Request>, fs: seq<Found>, k: nat)
    requires k <= |requests| == |fs|
    ensures forall id, i: nat :: Holds(MappingOf(requests, fs, k), id, i) <==>
      i < k && fs[i].Miss? && id == requests[i].ID()
    ensures forall id :: id in MappingOf(requests, fs, k) ==>
      MappingOf(requests, fs, k)[id] != [] && Increasing(MappingOf(requests, fs, k)[id])
  {
    if k > 0 {
      MappingPartitions(requests, fs, k - 1);
      MappingInRange(requests, fs, k - 1);
      AddIndexExact(MappingOf(requests, fs, k - 1), requests[k - 1].ID(), k - 1);
    }
  }

  /** The items sent are exactly those that were no hit, in request order. */
  lemma {:induction false} SentAtExact(fs: seq<Found>, k: nat)
    requires k <= |fs|
    ensures Increasing(SentAt(fs, k))
    ensures forall i: nat :: i in SentAt(fs, k) <==> i < k && !fs[i].Hit?
  {
    if k > 0 {
      SentAtExact(fs, k - 1);
    }
  }

  /** The labelled results of a call for `sent`. */
  function Labelled(sent: seq<Request>, w: World): seq<Reply>
    requires w.upstream(SealAll(sent)).Answered?
  {
    Relabel(sent, w.upstream(SealAll(sent)).replies)
  }

  function AnswerOf(r: Reply): Slot {
    Answer(r.id, r.result, r.error, false)
  }

  predicate NoneNamed(rs: seq<Reply>, r: Request) {
    forall j :: 0 <= j < |rs| ==> Sprint(rs[j].id) != r.ID()
  }

  /** The j-th result is the last one that prints as the `ID` of `r`. */
  predicate LastNamed(rs: seq<Reply>, r: Request, j: nat) {
    && j < |rs| && Sprint(rs[j].id) == r.ID()
    && forall l :: j < l < |rs| ==> Sprint(rs[l].id) != r.ID()
  }

  /** What place i of a merged batch holds when `rs` are the labelled results: an uncacheable item is
      always lost, a hit is kept unless its value is nil, a miss gets the last result of its name. */
  ghost predicate SlotExact(requests: seq<Request>, fs: seq<Found>, rs: seq<Reply>, i: nat, slot: Slot)
    requires i < |requests| == |fs|
  {
    match fs[i]
    case Skip => slot == Missing
    case Hit(v) => slot == if v == Null then Missing else Answer(requests[i].id, v, Null, true)
    case Miss =>
      && (NoneNamed(rs, requests[i]) ==> slot == Missing)
      && (forall j: nat :: LastNamed(rs, requests[i], j) ==> slot == AnswerOf(rs[j]))
  }

  lemma MergedSlot(requests: seq<Request>, fs: seq<Found>, rs: seq<Reply>, hits: seq<bool>, i: nat)
    requires i < |requests| == |fs| && |rs| <= |hits|
    requires InRange(MappingOf(requests, fs, |fs|), |requests|)
    ensures SlotExact(requests, fs, rs, i,
      MergeAll(KeptAll(ResultsOf(requests, fs)), MappingOf(requests, fs, |fs|), Render(rs, hits), |rs|)[i])
  {
    var answers, m := Render(rs, hits), MappingOf(requests, fs, |fs|);
    var kept := KeptAll(ResultsOf(requests, fs));
    var slot := MergeAll(kept, m, answers, |rs|)[i];
    MappingPartitions(requests, fs, |fs|);
    forall j | 0 <= j < |rs|
      ensures Holds(m, Sprint(answers[j].id), i) <==> fs[i].Miss? && Sprint(rs[j].id) == requests[i].ID()
    {
    }
    if !fs[i].Miss? || NoneNamed(rs, requests[i]) {
      MergeKeeps(kept, m, answers, |rs|, i);
    }
    forall j: nat | fs[i].Miss? && LastNamed(rs, requests[i], j)
      ensures slot == AnswerOf(rs[j])
    {
      MergeCopies(kept, m, answers, |rs|, j, i);
    }
  }

  /** The response of a batch with something to send, place by place, whatever upstream answered. */
  lemma BatchExact(requests: seq<Request>, fs: seq<Found>, w: World)
    requires |requests| == |fs| && SentAt(fs, |fs|) != []
    requires w.upstream(SealAll(Pick(requests, SentAt(fs, |fs|)))).Answered?
    ensures var rs := Labelled(Pick(requests, SentAt(fs, |fs|)), w);
      var out := Cached(true, requests, fs, w);
      if |rs| > |requests| then out == Panic
      else
        && out.Body? && out.response.Array? && |out.response.slots| == |requests|
        && forall i :: 0 <= i < |requests| ==> SlotExact(requests, fs, rs, i, out.response.slots[i])
  {
    var sent := Pick(requests, SentAt(fs, |fs|));
    var rs := Labelled(sent, w);
    MappingInRange(requests, fs, |fs|);
    if |rs| <= |requests| {
      var answers := Render(rs, HitFlags(fs));
      assert Dispatched(true, sent, HitFlags(fs), w) == Body(Array(answers));
      var slots := MergeAll(KeptAll(ResultsOf(requests, fs)), MappingOf(requests, fs, |fs|), answers, |answers|);
      assert Cached(true, requests, fs, w) == Body(Array(slots));
      forall i | 0 <= i < |requests|
        ensures SlotExact(requests, fs, rs, i, slots[i])
      {
        MergedSlot(requests, fs, rs, HitFlags(fs), i);
      }
    }
  }

  // ---- what upstream is sent ----

  /** An endpoint is sent the request's own method and version under its printed id, and its own params: an
      array as it is, any other value as the one item of an array, missing ones as the empty array. */
  lemma SealExactly(r: Request)
    ensures var sent := SealForUpstream(r);
      && sent.methodName == r.methodName && sent.version == r.version && sent.id == Sprint(r.id)
      && (r.params == None ==> sent.params == JsonText.NoItem && JsonText.Print(JsonText.Array(sent.params)) == "[]")
      && (forall items :: r.params == Some(JsonText.Array(items)) ==>
           sent.params == items && JsonText.Print(JsonText.Array(sent.params)) == r.ParamsText())
      && (forall v :: r.params == Some(v) && !v.Array? ==>
           sent.params == JsonText.Item(v, JsonText.NoItem)
           && JsonText.Print(JsonText.Array(sent.params)) == "[" + r.ParamsText() + "]")
  {
  }

  // ---- upstream as a function of method and params ----

  datatype Truth = Truth(result: Json, error: Json)

  /** The true answer for a chain, a method and a list of params. */
  type Oracle = (nat, string, JsonText.Items) -> Truth

  function TruthOf(o: Oracle, chain: nat, r: Request): Truth {
    o(chain, r.methodName, r.Params())
  }

  predicate Truthful(o: Oracle, chain: nat, sent: seq<Sealed>, u: Upstream) {
    && u.Answered? && |u.replies| == |sent|
    && forall j :: 0 <= j < |sent| ==>
      Truth(u.replies[j].result, u.replies[j].error) == o(chain, sent[j].methodName, sent[j].params)
  }

  /** Upstream answers one for one, in order, with true answers; its ids may be anything. */
  ghost predicate WellBehaved(o: Oracle, chain: nat, w: World) {
    forall sent: seq<Sealed> :: Truthful(o, chain, sent, w.upstream(sent))
  }

  ghost predicate NoNullAnswers(o: Oracle) {
    forall chain: nat, m: string, p: JsonText.Items :: o(chain, m, p).error == Null ==> o(chain, m, p).result != Null
  }

  /** Every stored value is the true answer, and not an error, for every request stored there. */
  ghost predicate TrueStore(cfg: Config, o: Oracle, store: Store) {
    forall chain: nat, r: Request :: CanCache(cfg, r.methodName) && CacheKey(chain, r) in store ==>
      TruthOf(o, chain, r) == Truth(store[CacheKey(chain, r)].value, Null)
  }

  ghost predicate AllTrue(cfg: Config, o: Oracle, stores: Snapshots) {
    forall i: nat :: TrueStore(cfg, o, stores(i))
  }

  lemma LabelledTruth(o: Oracle, chain: nat, sent: seq<Request>, w: World)
    requires WellBehaved(o, chain, w)
    ensures w.upstream(SealAll(sent)).Answered? && |Labelled(sent, w)| == |sent|
    ensures forall j :: 0 <= j < |sent| ==>
      && Sprint(Labelled(sent, w)[j].id) == Sprint(sent[j].id)
      && Truth(Labelled(sent, w)[j].result, Labelled(sent, w)[j].error) == TruthOf(o, chain, sent[j])
  {
    assert Truthful(o, chain, SealAll(sent), w.upstream(SealAll(sent)));
    var replies := w.upstream(SealAll(sent)).replies;
    forall j | 0 <= j < |sent|
      ensures && Sprint(Labelled(sent, w)[j].id) == Sprint(sent[j].id)
        && Truth(Labelled(sent, w)[j].result, Labelled(sent, w)[j].error) == TruthOf(o, chain, sent[j])
    {
      assert SealAll(sent)[j] == SealForUpstream(sent[j]);
      assert Labelled(sent, w)[j] == RelabelOne(sent, replies, j);
    }
  }

  // ---- agreement ----

  predicate SameAnswer(x: Slot, y: Slot) {
    x.Answer? && y.Answer? && Sprint(x.id) == Sprint(y.id) && x.result == y.result && x.error == y.error
  }

  /** The same places with the same printed ids, results and errors. */
  predicate Agree(a: Outcome, b: Outcome) {
    a.Body? && b.Body? &&
    match (a.response, b.response)
    case (Array(s), Array(t)) => |s| == |t| && forall i :: 0 <= i < |s| ==> SameAnswer(s[i], t[i])
    case (Object(s), Object(t)) => SameAnswer(s, t)
    case _ => false
  }

  /** Item l is the last one sent whose id prints like that of item i. */
  predicate LastSent(requests: seq<Request>, fs: seq<Found>, i: nat, l: nat)
    requires i < |requests| == |fs|
  {
    && l < |requests| && !fs[l].Hit? && Sprint(requests[l].id) == Sprint(requests[i].id)
    && forall k :: l < k < |requests| && !fs[k].Hit? ==> Sprint(requests[k].id) != Sprint(requests[i].id)
  }

  predicate Stale(cfg: Config, chain: nat, store: Store, w: World, r: Request, i: nat) {
    var key := CacheKey(chain, r);
    CanCache(cfg, r.methodName) && key in store && key !in w.readFails
    && ShouldInvalidate(cfg, r.methodName, store[key], w.readAt(i))
  }

  ghost predicate NameServed(o: Oracle, chain: nat, requests: seq<Request>, fs: seq<Found>, i: nat)
    requires i < |requests| == |fs|
  {
    && requests[i].id != Null
    && exists l: nat :: LastSent(requests, fs, i, l) && TruthOf(o, chain, requests[l]) == TruthOf(o, chain, requests[i])
  }

  /** What item i of a request must be for its place to be right. A hit must be fresh; when another item
      is sent its answer must not be null either, and when none is, a stale one does if its answer is
      null. In a batch the rest must be cacheable, with a non-null id whose last bearer among the items
      sent has the same true answer. */
  ghost predicate ItemServed(cfg: Config, o: Oracle, chain: nat, stores: Snapshots, batch: bool, requests: seq<Request>, w: World, i: nat)
    requires i < |requests|
  {
    var fs := FindAll(cfg, chain, stores, w, requests);
    var nil, stale := TruthOf(o, chain, requests[i]).result == Null, Stale(cfg, chain, stores(i), w, requests[i], i);
    match fs[i]
    case Hit(_) => if SentAt(fs, |fs|) == [] then !stale || nil else !stale && !nil
    case Miss => batch ==> NameServed(o, chain, requests, fs, i)
    case Skip => !batch
  }

  lemma {:induction false} LastNamedExists(rs: seq<Reply>, r: Request) returns (j: nat)
    ensures NoneNamed(rs, r) || LastNamed(rs, r, j)
  {
    j := 0;
    if rs != [] {
      var last := |rs| - 1;
      if Sprint(rs[last].id) == r.ID() {
        j := last;
      } else {
        j := LastNamedExists(rs[..last], r);
        assert NoneNamed(rs[..last], r) ==> NoneNamed(rs, r);
      }
    }
  }

  /** Where in the sending order an item that was no hit stands. */
  lemma SentPlace(fs: seq<Found>, i: nat) returns (j: nat)
    requires i < |fs| && !fs[i].Hit?
    ensures j < |SentAt(fs, |fs|)| && SentAt(fs, |fs|)[j] == i
  {
    SentAtExact(fs, |fs|);
    assert i in SentAt(fs, |fs|);
    j :| j < |SentAt(fs, |fs|)| && SentAt(fs, |fs|)[j] == i;
  }

  /** The last result of a name belongs to the last item sent under that name. */
  lemma LastNamedIsLastSent(requests: seq<Request>, fs: seq<Found>, rs: seq<Reply>, i: nat, j: nat)
    requires i < |requests| == |fs| && requests[i].id != Null
    requires |rs| == |SentAt(fs, |fs|)|
    requires forall k :: 0 <= k < |rs| ==> Sprint(rs[k].id) == Sprint(requests[SentAt(fs, |fs|)[k]].id)
    requires LastNamed(rs, requests[i], j)
    ensures LastSent(requests, fs, i, SentAt(fs, |fs|)[j])
  {
    var at := SentAt(fs, |fs|);
    SentAtExact(fs, |fs|);
    forall k | at[j] < k < |requests| && !fs[k].Hit?
      ensures Sprint(requests[k].id) != Sprint(requests[i].id)
    {
      var jk := SentPlace(fs, k);
      assert j < jk;
    }
  }

  /** Result k is the true answer to the k-th item sent, under its printed id. */
  predicate TrueReplies(o: Oracle, chain: nat, requests: seq<Request>, at: seq<nat>, rs: seq<Reply>) {
    && |rs| == |at| && (forall k :: 0 <= k < |at| ==> at[k] < |requests|)
    && forall k :: 0 <= k < |at| ==>
      && Sprint(rs[k].id) == Sprint(requests[at[k]].id)
      && Truth(rs[k].result, rs[k].error) == TruthOf(o, chain, requests[at[k]])
  }

  lemma NamedMissServed(o: Oracle, chain: nat, requests: seq<Request>, fs: seq<Found>, rs: seq<Reply>, i: nat, slot: Slot, direct: Slot)
    requires i < |requests| == |fs| && fs[i].Miss? && requests[i].id != Null
    requires TrueReplies(o, chain, requests, SentAt(fs, |fs|), rs)
    requires SlotExact(requests, fs, rs, i, slot)
    requires direct.Answer? && Sprint(direct.id) == Sprint(requests[i].id)
    requires Truth(direct.result, direct.error) == TruthOf(o, chain, requests[i])
    ensures SameAnswer(slot, direct) <==> NameServed(o, chain, requests, fs, i)
  {
    var at := SentAt(fs, |fs|);
    var j := LastNamedExists(rs, requests[i]);
    var own := SentPlace(fs, i);
    assert Sprint(rs[own].id) == requests[i].ID();
    assert LastNamed(rs, requests[i], j);
    LastNamedIsLastSent(requests, fs, rs, i, j);
    assert slot == AnswerOf(rs[j]);
    assert SameAnswer(slot, direct) <==> TruthOf(o, chain, requests[at[j]]) == TruthOf(o, chain, requests[i]);
    assert forall l: nat :: LastSent(requests, fs, i, l) ==> l == at[j];
  }

  /** A missed item of a batch is answered truly exactly when its id is not null and the last item
      sent under that name has the same answer. */
  lemma MissServed(o: Oracle, chain: nat, requests: seq<Request>, fs: seq<Found>, rs: seq<Reply>, i: nat, slot: Slot, direct: Slot)
    requires i < |requests| == |fs| && fs[i].Miss?
    requires TrueReplies(o, chain, requests, SentAt(fs, |fs|), rs)
    requires SlotExact(requests, fs, rs, i, slot)
    requires direct.Answer? && Sprint(direct.id) == Sprint(requests[i].id)
    requires Truth(direct.result, direct.error) == TruthOf(o, chain, requests[i])
    ensures SameAnswer(slot, direct) <==> NameServed(o, chain, requests, fs, i)
  {
    if requests[i].id == Null {
      assert "null"[0] != "<nil>"[0];
      var _ := LastNamedExists(rs, requests[i]);
    } else {
      NamedMissServed(o, chain, requests, fs, rs, i, slot, direct);
    }
  }

  /** A hit is nil when its entry is stale and the true answer otherwise; in both cases the true answer
      is no error. */
  lemma HitIsTrueOrStale(cfg: Config, o: Oracle, chain: nat, stores: Snapshots, w: World, requests: seq<Request>, i: nat)
    requires i < |requests| && AllTrue(cfg, o, stores)
    ensures var f, stale := FindAll(cfg, chain, stores, w, requests)[i], Stale(cfg, chain, stores(i), w, requests[i], i);
      && (stale ==> f == Hit(Null))
      && (f.Hit? ==> TruthOf(o, chain, requests[i]).error == Null)
      && (f.Hit? && !stale ==> TruthOf(o, chain, requests[i]) == Truth(f.value, Null))
  {
    var r := requests[i];
    var f := FindAll(cfg, chain, stores, w, requests)[i];
    assert f == Find(cfg, chain, stores(i), w, r, i);
    if f.Hit? {
      assert CacheKey(chain, r) in stores(i);
      assert TruthOf(o, chain, r) == Truth(stores(i)[CacheKey(chain, r)].value, Null);
    }
  }

  /** The direct path gives every item its true answer under its printed id. */
  lemma DirectTruth(o: Oracle, chain: nat, batch: bool, requests: seq<Request>, w: World)
    requires requests != [] && (batch || |requests| == 1) && WellBehaved(o, chain, w)
    ensures var out := Direct(batch, requests, w);
      && out.Body?
      && var slots := if out.response.Array? then out.response.slots else [out.response.slot];
      && out.response.Array? == batch && |slots| == |requests|
      && forall i :: 0 <= i < |requests| ==>
        && slots[i].Answer? && Sprint(slots[i].id) == Sprint(requests[i].id)
        && Truth(slots[i].result, slots[i].error) == TruthOf(o, chain, requests[i])
  {
    LabelledTruth(o, chain, requests, w);
    var rs := Labelled(requests, w);
    if !batch {
      assert rs[..1] == rs;
    }
  }

  lemma PlaceServed(cfg: Config, o: Oracle, chain: nat, stores: Snapshots, requests: seq<Request>, w: World, i: nat, slot: Slot, direct: Slot)
    requires i < |requests| && WellBehaved(o, chain, w) && AllTrue(cfg, o, stores)
    requires var fs := FindAll(cfg, chain, stores, w, requests);
      && SentAt(fs, |fs|) != [] && w.upstream(SealAll(Pick(requests, SentAt(fs, |fs|)))).Answered?
      && SlotExact(requests, fs, Labelled(Pick(requests, SentAt(fs, |fs|)), w), i, slot)
    requires direct.Answer? && Sprint(direct.id) == Sprint(requests[i].id)
    requires Truth(direct.result, direct.error) == TruthOf(o, chain, requests[i])
    ensures SameAnswer(slot, direct) <==> ItemServed(cfg, o, chain, stores, true, requests, w, i)
  {
    var fs := FindAll(cfg, chain, stores, w, requests);
    var at := SentAt(fs, |fs|);
    var sent := Pick(requests, at);
    HitIsTrueOrStale(cfg, o, chain, stores, w, requests, i);
    if fs[i].Miss? {
      LabelledTruth(o, chain, sent, w);
      assert forall k :: 0 <= k < |at| ==> sent[k] == requests[at[k]];
      MissServed(o, chain, requests, fs, Labelled(sent, w), i, slot, direct);
    }
  }

  /** A single request that has to be sent takes the direct path. */
  lemma SingleServed(cfg: Config, o: Oracle, chain: nat, requests: seq<Request>, w: World, stores: Snapshots)
    requires |requests| == 1 && WellBehaved(o, chain, w)
    requires var fs := FindAll(cfg, chain, stores, w, requests); SentAt(fs, |fs|) != []
    ensures var fs := FindAll(cfg, chain, stores, w, requests);
      Agree(Cached(false, requests, fs, w), Direct(false, requests, w))
    ensures ItemServed(cfg, o, chain, stores, false, requests, w, 0)
  {
    var fs := FindAll(cfg, chain, stores, w, requests);
    assert SentAt(fs, 0) == [] && SentAt(fs, 1) == if fs[0].Hit? then [] else [0];
    var sent := Pick(requests, SentAt(fs, |fs|));
    assert sent == requests;
    LabelledTruth(o, chain, requests, w);
    assert fs[0] == Find(cfg, chain, stores(0), w, requests[0], 0);
    var rs := Labelled(requests, w);
    assert rs[..1] == rs;
    assert Cached(false, requests, fs, w) == Direct(false, requests, w);
  }

  ghost predicate AllServed(cfg: Config, o: Oracle, chain: nat, stores: Snapshots, batch: bool, requests: seq<Request>, w: World) {
    forall i :: 0 <= i < |requests| ==> ItemServed(cfg, o, chain, stores, batch, requests, w, i)
  }

  /** When nothing has to be sent, only stale entries whose answer is not null make the answers differ. */
  lemma AllHitsServed(cfg: Config, o: Oracle, chain: nat, batch: bool, requests: seq<Request>, w: World, stores: Snapshots)
    requires requests != [] && (batch || |requests| == 1)
    requires WellBehaved(o, chain, w) && AllTrue(cfg, o, stores)
    requires var fs := FindAll(cfg, chain, stores, w, requests); SentAt(fs, |fs|) == []
    ensures Agree(Cached(batch, requests, FindAll(cfg, chain, stores, w, requests), w), Direct(batch, requests, w))
      <==> AllServed(cfg, o, chain, stores, batch, requests, w)
  {
    var fs := FindAll(cfg, chain, stores, w, requests);
    var direct := Direct(batch, requests, w);
    DirectTruth(o, chain, batch, requests, w);
    var truths := if batch then direct.response.slots else [direct.response.slot];
    SentAtExact(fs, |fs|);
    var slots := ResultsOf(requests, fs);
    forall i | 0 <= i < |requests|
      ensures SameAnswer(slots[i], truths[i]) <==> ItemServed(cfg, o, chain, stores, batch, requests, w, i)
    {
      assert fs[i] == Find(cfg, chain, stores(i), w, requests[i], i);
      assert i !in SentAt(fs, |fs|);
      HitIsTrueOrStale(cfg, o, chain, stores, w, requests, i);
    }
  }

  lemma BatchServed(cfg: Config, o: Oracle, chain: nat, requests: seq<Request>, w: World, stores: Snapshots)
    requires requests != [] && WellBehaved(o, chain, w) && AllTrue(cfg, o, stores)
    requires var fs := FindAll(cfg, chain, stores, w, requests); SentAt(fs, |fs|) != []
    ensures Agree(Cached(true, requests, FindAll(cfg, chain, stores, w, requests), w), Direct(true, requests, w))
      <==> AllServed(cfg, o, chain, stores, true, requests, w)
  {
    var fs := FindAll(cfg, chain, stores, w, requests);
    var at := SentAt(fs, |fs|);
    var direct := Direct(true, requests, w);
    DirectTruth(o, chain, true, requests, w);
    SentAtExact(fs, |fs|);
    IncreasingIsShort(at, |requests|);
    LabelledTruth(o, chain, Pick(requests, at), w);
    BatchExact(requests, fs, w);
    var slots, truths := Cached(true, requests, fs, w).response.slots, direct.response.slots;
    forall i | 0 <= i < |requests|
      ensures SameAnswer(slots[i], truths[i]) <==> ItemServed(cfg, o, chain, stores, true, requests, w, i)
    {
      PlaceServed(cfg, o, chain, stores, requests, w, i, slots[i], truths[i]);
    }
  }

  /** Main result: with true upstream answers and a true stores, the cached and the direct path agree,
      place by place, exactly when every item is served. */
  lemma TransparentExactly(cfg: Config, o: Oracle, chain: nat, batch: bool, requests: seq<Request>, w: World, stores: Snapshots)
    requires !cfg.disable && requests != [] && (batch || |requests| == 1)
    requires WellBehaved(o, chain, w) && AllTrue(cfg, o, stores)
    ensures Agree(CallResult(cfg, chain, true, batch, requests, w, stores), CallResult(cfg, chain, false, batch, requests, w, stores))
      <==> AllServed(cfg, o, chain, stores, batch, requests, w)
  {
    var fs := FindAll(cfg, chain, stores, w, requests);
    if SentAt(fs, |fs|) == [] {
      AllHitsServed(cfg, o, chain, batch, requests, w, stores);
    } else if batch {
      BatchServed(cfg, o, chain, requests, w, stores);
    } else {
      SingleServed(cfg, o, chain, requests, w, stores);
    }
  }

  /** A batch of cacheable methods with distinct non-null printed ids, no null answer and no stale entry
      agrees with the direct path. */
  lemma DistinctIdsAreTransparent(cfg: Config, o: Oracle, chain: nat, requests: seq<Request>, w: World, stores: Snapshots)
    requires !cfg.disable && requests != []
    requires WellBehaved(o, chain, w) && NoNullAnswers(o) && AllTrue(cfg, o, stores)
    requires forall i :: 0 <= i < |requests| ==> requests[i].id != Null && CanCache(cfg, requests[i].methodName)
    requires forall i, j :: 0 <= i < j < |requests| ==> Sprint(requests[i].id) != Sprint(requests[j].id)
    requires forall i :: 0 <= i < |requests| ==> !Stale(cfg, chain, stores(i), w, requests[i], i)
    ensures Agree(CallResult(cfg, chain, true, true, requests, w, stores), CallResult(cfg, chain, false, true, requests, w, stores))
  {
    var fs := FindAll(cfg, chain, stores, w, requests);
    TransparentExactly(cfg, o, chain, true, requests, w, stores);
    forall i | 0 <= i < |requests|
      ensures ItemServed(cfg, o, chain, stores, true, requests, w, i)
    {
      HitIsTrueOrStale(cfg, o, chain, stores, w, requests, i);
      if fs[i].Miss? {
        assert LastSent(requests, fs, i, i);
      }
    }
  }

  /** A single request agrees with the direct path exactly when its entry is not stale or its answer is
      null: its method, its id and a null answer do not matter. */
  lemma SingleIsTransparentExactly(cfg: Config, o: Oracle, chain: nat, r: Request, w: World, stores: Snapshots)
    requires !cfg.disable && WellBehaved(o, chain, w) && AllTrue(cfg, o, stores)
    ensures Agree(CallResult(cfg, chain, true, false, [r], w, stores), CallResult(cfg, chain, false, false, [r], w, stores))
      <==> !Stale(cfg, chain, stores(0), w, r, 0) || TruthOf(o, chain, r).result == Null
  {
    var fs := FindAll(cfg, chain, stores, w, [r]);
    TransparentExactly(cfg, o, chain, false, [r], w, stores);
    HitIsTrueOrStale(cfg, o, chain, stores, w, [r], 0);
    assert SentAt(fs, 0) == [] && SentAt(fs, 1) == if fs[0].Hit? then [] else [0];
    assert AllServed(cfg, o, chain, stores, false, [r], w) <==> ItemServed(cfg, o, chain, stores, false, [r], w, 0);
  }

  // ---- the store stays true ----

  lemma KeyParts(chain: nat, r: Request)
    ensures CacheKey(chain, r) == Texts.Decimal(chain) + (":" + (r.methodName + (":" + r.ParamsText())))
  {
  }

  /** The text of the params tells them. */
  lemma SameParams(r: Request, r': Request)
    requires r.ParamsText() == r'.ParamsText()
    ensures r.params == r'.params
  {
    if r.params.Some? && r'.params.Some? {
      JsonText.PrintIsInjective(r.params.value, r'.params.value);
    }
  }

  /** Two requests share a key exactly when chain, method and params are the same, whatever the method:
      no JSON text can be mistaken for the end of a longer method and other params. */
  lemma KeysAreExact(chain: nat, r: Request, chain': nat, r': Request)
    ensures CacheKey(chain, r) == CacheKey(chain', r') <==>
      chain == chain' && r.methodName == r'.methodName && r.params == r'.params
  {
    if CacheKey(chain, r) == CacheKey(chain', r') {
      var y, y' := r.methodName + (":" + r.ParamsText()), r'.methodName + (":" + r'.ParamsText());
      KeyParts(chain, r);
      KeyParts(chain', r');
      Texts.FrontIsUnique(Texts.Decimal(chain), ":" + y, Texts.Decimal(chain'), ":" + y', (c: char) => c == ':');
      Texts.ValueOfDecimal(chain);
      Texts.ValueOfDecimal(chain');
      assert (":" + y)[1..] == y && (":" + y')[1..] == y';
      JsonText.CutExactly(r.methodName, r.ParamsText(), r'.methodName, r'.ParamsText());
      SameParams(r, r');
    }
  }

  lemma StoreOneKeepsTruth(cfg: Config, o: Oracle, chain: nat, store: Store, w: World, sent: seq<Request>, reply: Reply, j: nat)
    requires TrueStore(cfg, o, store)
    requires j < |sent| && Truth(reply.result, reply.error) == TruthOf(o, chain, sent[j])
    ensures TrueStore(cfg, o, StoreOne(cfg, chain, store, w, sent, reply, j))
  {
    var store' := StoreOne(cfg, chain, store, w, sent, reply, j);
    forall c: nat, r: Request | CanCache(cfg, r.methodName) && CacheKey(c, r) in store'
      ensures TruthOf(o, c, r) == Truth(store'[CacheKey(c, r)].value, Null)
    {
      if CanCache(cfg, sent[j].methodName) && CacheKey(c, r) == CacheKey(chain, sent[j]) {
        KeysAreExact(c, r, chain, sent[j]);
      }
    }
  }

  lemma {:induction false} StoreAllKeepsTruth(cfg: Config, o: Oracle, chain: nat, store: Store, w: World, sent: seq<Request>, rs: seq<Reply>, k: nat)
    requires TrueStore(cfg, o, store) && k <= |rs| == |sent|
    requires forall j :: 0 <= j < k ==> Truth(rs[j].result, rs[j].error) == TruthOf(o, chain, sent[j])
    ensures TrueStore(cfg, o, StoreAll(cfg, chain, store, w, sent, rs, k))
  {
    if k > 0 {
      StoreAllKeepsTruth(cfg, o, chain, store, w, sent, rs, k - 1);
      StoreOneKeepsTruth(cfg, o, chain, StoreAll(cfg, chain, store, w, sent, rs, k - 1), w, sent, rs[k - 1], k - 1);
    }
  }

  /** Every call, on either path and whatever Redis writes fail, leaves only true answers stored. */
  lemma CallKeepsTrueStore(cfg: Config, o: Oracle, chain: nat, caches: bool, requests: seq<Request>, w: World, stores: Snapshots, store: Store)
    requires WellBehaved(o, chain, w) && TrueStore(cfg, o, store)
    ensures TrueStore(cfg, o, CallStore(cfg, chain, caches, requests, w, stores, store))
  {
    var fs := FindAll(cfg, chain, stores, w, requests);
    var sent := if UsesCache(cfg, caches) then Pick(requests, SentAt(fs, |fs|)) else requests;
    LabelledTruth(o, chain, sent, w);
    var rs := w.upstream(SealAll(sent)).replies;
    assert forall j :: 0 <= j < |rs| ==> Labelled(sent, w)[j] == RelabelOne(sent, rs, j);
    StoreAllKeepsTruth(cfg, o, chain, store, w, sent, rs, |rs|);
  }

  // ---- whole runs ----

  /** What happens to the store, one Redis command at a time: the j-th write of some call that sent
      `sent`, or keys lost. The writes of any number of calls may come in any order. */
  datatype Event = Wrote(chain: nat, sent: seq<Request>, w: World, j: nat) | Dropped(keys: set<string>)

  function Written(cfg: Config, store: Store, chain: nat, sent: seq<Request>, w: World, j: nat): Store {
    match w.upstream(SealAll(sent))
    case Failed(_) => store
    case Answered(replies) => if j < |replies| then StoreOne(cfg, chain, store, w, sent, replies[j], j) else store
  }

  function StoreAfter(cfg: Config, events: seq<Event>): Store {
    if events == [] then map[]
    else
      var store := StoreAfter(cfg, events[..|events| - 1]);
      match events[|events| - 1]
      case Wrote(chain, sent, w, j) => Written(cfg, store, chain, sent, w, j)
      case Dropped(keys) => store - keys
  }

  function Writes(chain: nat, sent: seq<Request>, w: World, k: nat): seq<Event> {
    if k == 0 then [] else Writes(chain, sent, w, k - 1) + [Wrote(chain, sent, w, k - 1)]
  }

  lemma AfterWrite(cfg: Config, events: seq<Event>, chain: nat, sent: seq<Request>, w: World, j: nat)
    ensures StoreAfter(cfg, events + [Wrote(chain, sent, w, j)]) == Written(cfg, StoreAfter(cfg, events), chain, sent, w, j)
  {
    assert (events + [Wrote(chain, sent, w, j)])[..|events|] == events;
  }

  function AllWritten(cfg: Config, store: Store, chain: nat, sent: seq<Request>, w: World, k: nat): Store {
    if k == 0 then store else Written(cfg, AllWritten(cfg, store, chain, sent, w, k - 1), chain, sent, w, k - 1)
  }

  lemma {:induction false} AfterWrites(cfg: Config, events: seq<Event>, chain: nat, sent: seq<Request>, w: World, k: nat)
    ensures StoreAfter(cfg, events + Writes(chain, sent, w, k)) == AllWritten(cfg, StoreAfter(cfg, events), chain, sent, w, k)
  {
    if k == 0 {
      assert events + [] == events;
    } else {
      var before := events + Writes(chain, sent, w, k - 1);
      AfterWrites(cfg, events, chain, sent, w, k - 1);
      AfterWrite(cfg, before, chain, sent, w, k - 1);
      assert events + Writes(chain, sent, w, k) == before + [Wrote(chain, sent, w, k - 1)];
    }
  }

  lemma {:induction false} WrittenInTurn(cfg: Config, store: Store, chain: nat, sent: seq<Request>, w: World, replies: seq<Reply>, k: nat)
    requires w.upstream(SealAll(sent)) == Answered(replies) && k <= |replies|
    ensures AllWritten(cfg, store, chain, sent, w, k) == StoreAll(cfg, chain, store, w, sent, replies, k)
  {
    if k > 0 {
      WrittenInTurn(cfg, store, chain, sent, w, replies, k - 1);
    }
  }

  /** A call left alone makes its writes one after the other. */
  lemma CallWritesInTurn(cfg: Config, events: seq<Event>, chain: nat, sent: seq<Request>, w: World, replies: seq<Reply>)
    requires w.upstream(SealAll(sent)) == Answered(replies) && sent != []
    ensures StoreAfter(cfg, events + Writes(chain, sent, w, |replies|)) ==
      DispatchedStore(cfg, chain, StoreAfter(cfg, events), sent, w)
  {
    AfterWrites(cfg, events, chain, sent, w, |replies|);
    WrittenInTurn(cfg, StoreAfter(cfg, events), chain, sent, w, replies, |replies|);
  }

  ghost predicate AllTruthful(o: Oracle, events: seq<Event>) {
    forall i :: 0 <= i < |events| && events[i].Wrote? ==> WellBehaved(o, events[i].chain, events[i].w)
  }

  lemma WrittenKeepsTruth(cfg: Config, o: Oracle, store: Store, chain: nat, sent: seq<Request>, w: World, j: nat)
    requires WellBehaved(o, chain, w) && TrueStore(cfg, o, store)
    ensures TrueStore(cfg, o, Written(cfg, store, chain, sent, w, j))
  {
    LabelledTruth(o, chain, sent, w);
    var rs := w.upstream(SealAll(sent)).replies;
    if j < |rs| {
      assert Labelled(sent, w)[j] == RelabelOne(sent, rs, j);
      StoreOneKeepsTruth(cfg, o, chain, store, w, sent, rs[j], j);
    }
  }

  lemma {:induction false} RunsKeepTrueStore(cfg: Config, o: Oracle, events: seq<Event>)
    requires AllTruthful(o, events)
    ensures TrueStore(cfg, o, StoreAfter(cfg, events))
  {
    if events != [] {
      var before, e := events[..|events| - 1], events[|events| - 1];
      RunsKeepTrueStore(cfg, o, before);
      if e.Wrote? {
        WrittenKeepsTruth(cfg, o, StoreAfter(cfg, before), e.chain, e.sent, e.w, e.j);
      }
    }
  }

  function Prefix(events: seq<Event>, n: nat): seq<Event> {
    if n <= |events| then events[..n] else events
  }

  /** The stores that lookups see when the i-th is made after the first at(i) events. */
  function Seen(cfg: Config, events: seq<Event>, at: nat -> nat): Snapshots {
    (i: nat) => StoreAfter(cfg, Prefix(events, at(i)))
  }

  /** Main result over runs: from an empty store, with the writes of any calls and the loss of any keys
      falling anywhere between the lookups of a call, it agrees with the direct path exactly when every
      one of its items is served. */
  lemma EveryRunIsTransparentExactly(cfg: Config, o: Oracle, events: seq<Event>, at: nat -> nat, chain: nat, batch: bool, requests: seq<Request>, w: World)
    requires !cfg.disable && AllTruthful(o, events) && WellBehaved(o, chain, w)
    requires requests != [] && (batch || |requests| == 1)
    ensures var stores := Seen(cfg, events, at);
      Agree(CallResult(cfg, chain, true, batch, requests, w, stores), CallResult(cfg, chain, false, batch, requests, w, stores))
      <==> AllServed(cfg, o, chain, stores, batch, requests, w)
  {
    forall i: nat
      ensures TrueStore(cfg, o, Seen(cfg, events, at)(i))
    {
      RunsKeepTrueStore(cfg, o, Prefix(events, at(i)));
    }
    TransparentExactly(cfg, o, chain, batch, requests, w, Seen(cfg, events, at));
  }

  // ---- one id for two requests ----

  /** An upstream that knows the two requests apart. */
  function Telling(r: Request): Oracle {
    (chain: nat, m: string, p: JsonText.Items) =>
      if m == r.methodName && p == r.Params() then Truth(Text("first"), Null) else Truth(Text("other"), Null)
  }

  function Faithful(o: Oracle, chain: nat): World {
    World({}, {}, _ => 0, _ => 0, (sent: seq<Sealed>) =>
      Answered(seq(|sent|, j requires 0 <= j < |sent| =>
        var t := o(chain, sent[j].methodName, sent[j].params);
        Reply(Text(sent[j].id), t.result, t.error))))
  }

  lemma FaithfulIsWellBehaved(o: Oracle, chain: nat)
    ensures WellBehaved(o, chain, Faithful(o, chain))
  {
    forall sent: seq<Sealed> ensures Truthful(o, chain, sent, Faithful(o, chain).upstream(sent)) {
    }
  }

  lemma {:induction false} LastSentExists(requests: seq<Request>, fs: seq<Found>, i: nat, k: nat) returns (l: nat)
    requires i < |requests| == |fs| && k <= |requests| && i < k && !fs[i].Hit?
    requires forall m :: k <= m < |requests| && !fs[m].Hit? ==> Sprint(requests[m].id) != Sprint(requests[i].id)
    ensures LastSent(requests, fs, i, l)
  {
    if !fs[k - 1].Hit? && Sprint(requests[k - 1].id) == Sprint(requests[i].id) {
      l := k - 1;
    } else {
      l := LastSentExists(requests, fs, i, k - 1);
    }
  }

  /** A missed item is not served when the last one sent under its id has another answer. */
  lemma LaterNameTakesOver(o: Oracle, chain: nat, requests: seq<Request>, fs: seq<Found>, i: nat, l: nat)
    requires i < |requests| == |fs| && LastSent(requests, fs, i, l)
    requires TruthOf(o, chain, requests[l]) != TruthOf(o, chain, requests[i])
    ensures !NameServed(o, chain, requests, fs, i)
  {
  }

  /** Whatever the store, a batch in which a miss and a later item to send share a printed id but not
      the true answer differs from the direct path. */
  lemma SharedIdFails(cfg: Config, o: Oracle, chain: nat, requests: seq<Request>, w: World, stores: Snapshots, i: nat, l: nat)
    requires !cfg.disable && WellBehaved(o, chain, w) && AllTrue(cfg, o, stores)
    requires var fs := FindAll(cfg, chain, stores, w, requests);
      i < l < |requests| && fs[i].Miss? && !fs[l].Hit?
    requires Sprint(requests[i].id) == Sprint(requests[l].id)
    requires TruthOf(o, chain, requests[i]) != TruthOf(o, chain, requests[l])
    ensures !Agree(CallResult(cfg, chain, true, true, requests, w, stores), CallResult(cfg, chain, false, true, requests, w, stores))
  {
    var fs := FindAll(cfg, chain, stores, w, requests);
    TransparentExactly(cfg, o, chain, true, requests, w, stores);
    var m := LastSentExists(requests, fs, i, |requests|);
    if TruthOf(o, chain, requests[m]) != TruthOf(o, chain, requests[i]) {
      LaterNameTakesOver(o, chain, requests, fs, i, m);
      assert !ItemServed(cfg, o, chain, stores, true, requests, w, i);
    } else {
      assert LastSent(requests, fs, l, m);
      LaterNameTakesOver(o, chain, requests, fs, l, m);
      assert !ItemServed(cfg, o, chain, stores, true, requests, w, l);
    }
  }

  /** Distinct ids are needed: for any batch in which two different requests, the first of them
      cacheable, share a printed id there is a truthful upstream for which the paths disagree. */
  lemma OneIdForTwoFails(cfg: Config, chain: nat, requests: seq<Request>, i: nat, l: nat)
    requires !cfg.disable && i < l < |requests| && CanCache(cfg, requests[i].methodName)
    requires Sprint(requests[i].id) == Sprint(requests[l].id)
    requires requests[i].methodName != requests[l].methodName || requests[i].Params() != requests[l].Params()
    ensures var o := Telling(requests[i]); var w := Faithful(o, chain); var none := Always(map[]);
      && WellBehaved(o, chain, w) && NoNullAnswers(o)
      && !Agree(CallResult(cfg, chain, true, true, requests, w, none), CallResult(cfg, chain, false, true, requests, w, none))
  {
    var o := Telling(requests[i]);
    var w, none := Faithful(o, chain), Always(map[]);
    FaithfulIsWellBehaved(o, chain);
    assert FindAll(cfg, chain, none, w, requests)[i] == Find(cfg, chain, map[], w, requests[i], i);
    assert FindAll(cfg, chain, none, w, requests)[l] == Find(cfg, chain, map[], w, requests[l], l);
    SharedIdFails(cfg, o, chain, requests, w, none, i, l);
  }

  // ---- how stale entries come about ----

  /** Whether Redis still has an entry set with this TTL at time t: one that is not positive never
      expires. */
  predicate Alive(ttl: int, t: nat, now: nat) {
    ttl <= 0 || now < t + ttl
  }

  /** The age of an entry is counted from the whole second before it was written, its life in Redis from
      the moment itself. So with a positive TTL it is alive and stale only at the end of its life, for up
      to one second; with any other it never dies and is stale, from the next moment on, for ever. */
  lemma StaleWindow(cfg: Config, name: string, value: Json, t: nat, now: nat)
    requires name in cfg.methods && t <= now
    ensures var ttl := cfg.methods[name];
      Alive(ttl, t, now) && ShouldInvalidate(cfg, name, CacheEntry(value, t / SECOND), now)
      <==> ttl - t % SECOND < now - t && (ttl > 0 ==> now - t < ttl)
    ensures cfg.methods[name] <= 0 && t < now ==>
      Alive(cfg.methods[name], t, now) && ShouldInvalidate(cfg, name, CacheEntry(value, t / SECOND), now)
  {
  }
}
