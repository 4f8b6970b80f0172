/** What a response is made of, whatever upstream answers. */
module Responses {
  import opened JsonRpc
  import opened ResultCache
  import opened Transparency

  /** The items of a call that go upstream. */
  function SentBy(cfg: Config, chain: nat, caches: bool, requests: seq<Request>, w: World, stores: Snapshots): seq<Request> {
    if cfg.disable || !caches then requests
    else
      var fs := FindAll(cfg, chain, stores, w, requests);
      Pick(requests, SentAt(fs, |fs|))
  }

  /** A call fails exactly when something is sent and upstream fails on it, and with that failure. */
  lemma FailsExactly(cfg: Config, chain: nat, caches: bool, batch: bool, requests: seq<Request>, w: World, stores: Snapshots, message: string)
    ensures CallResult(cfg, chain, caches, batch, requests, w, stores) == Error(message) <==>
      var sent := SentBy(cfg, chain, caches, requests, w, stores);
      sent != [] && w.upstream(SealAll(sent)) == Failed(message)
  {
    if requests == [] {
      assert SentBy(cfg, chain, caches, requests, w, stores) == [];
    }
  }

  /** An empty batch is answered with an empty one, a request that is none with nulls; neither reaches
      upstream or the store. */
  lemma EmptyExactly(cfg: Config, chain: nat, caches: bool, w: World, stores: Snapshots, store: Store)
    ensures CallResult(cfg, chain, caches, true, [], w, stores) == Body(Array([]))
    ensures CallResult(cfg, chain, caches, false, [], w, stores) == Body(Object(Answer(Null, Null, Null, false)))
    ensures CallStore(cfg, chain, caches, [], w, stores, store) == store
  {
  }

  /** With the cache off, by configuration or by option, the store plays no part. */
  lemma OffIgnoresStore(cfg: Config, chain: nat, caches: bool, batch: bool, requests: seq<Request>, w: World, stores: Snapshots, stores': Snapshots)
    requires cfg.disable || !caches
    ensures CallResult(cfg, chain, caches, batch, requests, w, stores) == CallResult(cfg, chain, caches, batch, requests, w, stores')
    ensures SentBy(cfg, chain, caches, requests, w, stores) == requests
  {
  }

  /** The id of the j-th answer: upstream's own when that prints as the request's, else the request's. */
  function AnsweredId(sent: seq<Request>, replies: seq<Reply>, j: nat): Json
    requires j < |sent| && j < |replies|
  {
    if Sprint(sent[j].id) == Sprint(replies[j].id) then replies[j].id else sent[j].id
  }

  /** The direct path hands on what upstream answered, place by place, under the ids of the requests, and
      says that nothing is from the cache. */
  lemma DirectExactly(requests: seq<Request>, w: World, replies: seq<Reply>)
    requires requests != [] && w.upstream(SealAll(requests)) == Answered(replies)
    ensures |replies| > |requests| ==> Direct(true, requests, w) == Panic
    ensures |replies| <= |requests| ==>
      var out := Direct(true, requests, w);
      && out.Body? && out.response.Array? && |out.response.slots| == |replies|
      && forall j :: 0 <= j < |replies| ==>
        out.response.slots[j] == Answer(AnsweredId(requests, replies, j), replies[j].result, replies[j].error, false)
    ensures Direct(false, requests, w) == Body(Object(
      if replies == [] then Answer(Null, Null, Null, false) else Answer(AnsweredId(requests, replies, 0), replies[0].result, replies[0].error, false)))
  {
    var rs := Relabel(requests, replies);
    forall j | 0 <= j < |replies| && j < |requests|
      ensures rs[j] == Reply(AnsweredId(requests, replies, j), replies[j].result, replies[j].error)
    {
      assert rs[j] == RelabelOne(requests, replies, j);
    }
    if replies != [] {
      assert rs[..1] == [rs[0]];
    }
  }

  /** When every item is found, upstream plays no part: the answers are the values found, under the ids of
      the requests, and are said to be from the cache. */
  lemma AllHitsExactly(cfg: Config, chain: nat, requests: seq<Request>, w: World, stores: Snapshots)
    requires !cfg.disable && requests != []
    requires var fs := FindAll(cfg, chain, stores, w, requests); forall i :: 0 <= i < |fs| ==> fs[i].Hit?
    ensures var fs, out := FindAll(cfg, chain, stores, w, requests), CallResult(cfg, chain, true, true, requests, w, stores);
      && out.Body? && out.response.Array? && |out.response.slots| == |requests|
      && forall i :: 0 <= i < |requests| ==> out.response.slots[i] == Answer(requests[i].id, fs[i].value, Null, true)
    ensures var fs, out := FindAll(cfg, chain, stores, w, requests), CallResult(cfg, chain, true, false, requests, w, stores);
      out == Body(Object(Answer(requests[0].id, fs[0].value, Null, true)))
  {
    var fs := FindAll(cfg, chain, stores, w, requests);
    SentAtExact(fs, |fs|);
    assert SentAt(fs, |fs|) == [] by {
      if SentAt(fs, |fs|) != [] {
        assert SentAt(fs, |fs|)[0] in SentAt(fs, |fs|);
      }
    }
    var results := ResultsOf(requests, fs);
    assert forall i :: 0 <= i < |requests| ==> results[i] == ResultOf(requests[i], fs[i]);
  }

  /** Whether item i was found in the cache. */
  predicate WasHit(cfg: Config, chain: nat, caches: bool, requests: seq<Request>, w: World, stores: Snapshots, i: nat)
    requires i < |requests|
  {
    !cfg.disable && caches && FindAll(cfg, chain, stores, w, requests)[i].Hit?
  }

  function PlacesOf(out: Outcome): seq<Slot>
    requires out.Body?
  {
    match out.response
    case Array(slots) => slots
    case Object(slot) => [slot]
  }

  lemma DirectFlags(batch: bool, requests: seq<Request>, w: World)
    requires requests != [] && (batch || |requests| == 1)
    ensures var out := Direct(batch, requests, w);
      out.Body? ==> |PlacesOf(out)| <= |requests| && forall i :: 0 <= i < |PlacesOf(out)| ==>
        PlacesOf(out)[i].Answer? && !PlacesOf(out)[i].cached
  {
    if w.upstream(SealAll(requests)).Answered? {
      DirectExactly(requests, w, w.upstream(SealAll(requests)).replies);
    }
  }

  lemma MixedFlags(requests: seq<Request>, fs: seq<Found>, rs: seq<Reply>, slots: seq<Slot>)
    requires |requests| == |fs| == |slots|
    requires forall i :: 0 <= i < |requests| ==> SlotExact(requests, fs, rs, i, slots[i])
    ensures forall i :: 0 <= i < |slots| && slots[i].Answer? ==> (slots[i].cached <==> fs[i].Hit?)
  {
    forall i | 0 <= i < |slots| && slots[i].Answer?
      ensures slots[i].cached <==> fs[i].Hit?
    {
      assert SlotExact(requests, fs, rs, i, slots[i]);
      if fs[i].Miss? {
        var j := LastNamedExists(rs, requests[i]);
      }
    }
  }

  lemma CachedFlags(cfg: Config, chain: nat, batch: bool, requests: seq<Request>, w: World, stores: Snapshots)
    requires !cfg.disable && requests != [] && (batch || |requests| == 1)
    ensures var out, fs := CallResult(cfg, chain, true, batch, requests, w, stores), FindAll(cfg, chain, stores, w, requests);
      out.Body? ==> |PlacesOf(out)| <= |requests| && forall i :: 0 <= i < |PlacesOf(out)| && PlacesOf(out)[i].Answer? ==>
        (PlacesOf(out)[i].cached <==> fs[i].Hit?)
  {
    var fs := FindAll(cfg, chain, stores, w, requests);
    var at := SentAt(fs, |fs|);
    SentAtExact(fs, |fs|);
    if at == [] {
      forall i | 0 <= i < |fs| ensures fs[i].Hit? {
        assert i !in at;
      }
      AllHitsExactly(cfg, chain, requests, w, stores);
    } else if batch && w.upstream(SealAll(Pick(requests, at))).Answered? {
      BatchExact(requests, fs, w);
      var out := Cached(true, requests, fs, w);
      if out.Body? {
        MixedFlags(requests, fs, Labelled(Pick(requests, at), w), out.response.slots);
      }
    } else if !batch {
      assert at[0] in at;
      assert at[0] == 0;
      assert !fs[0].Hit?;
    }
  }

  /** Every answer in a response tells truly whether it comes from the cache. */
  lemma FromCacheExactly(cfg: Config, chain: nat, caches: bool, batch: bool, requests: seq<Request>, w: World, stores: Snapshots)
    requires requests != [] && (batch || |requests| == 1)
    ensures var out := CallResult(cfg, chain, caches, batch, requests, w, stores);
      out.Body? ==> |PlacesOf(out)| <= |requests| && forall i :: 0 <= i < |PlacesOf(out)| && PlacesOf(out)[i].Answer? ==>
        (PlacesOf(out)[i].cached <==> WasHit(cfg, chain, caches, requests, w, stores, i))
  {
    if cfg.disable || !caches {
      DirectFlags(batch, requests, w);
    } else {
      CachedFlags(cfg, chain, batch, requests, w, stores);
    }
  }

}
