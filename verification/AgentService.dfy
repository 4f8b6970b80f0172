/** The loops of `Call` and `call`, run on the service's own store and proved against the functions
    of `ResultCache`. */
module AgentService {
  import opened Wrappers
  import opened JsonRpc
  import opened ResultCache

  lemma FoundAt(cfg: Config, chain: nat, store: Store, w: World, requests: seq<Request>, i: nat)
    requires i < |requests|
    ensures FindAll(cfg, chain, Always(store), w, requests)[i] == Find(cfg, chain, store, w, requests[i], i)
  {
  }

  /** What the lookup loop has built after k items. */
  ghost predicate LookedUp(requests: seq<Request>, fs: seq<Found>, k: nat, results: seq<Slot>, hits: seq<bool>, at: seq<nat>, mapping: Mapping)
  {
    && k <= |requests| == |fs| && |results| == |hits| == k
    && (forall j :: 0 <= j < k ==> results[j] == ResultOf(requests[j], fs[j]) && hits[j] == fs[j].Hit?)
    && at == SentAt(fs, k) && mapping == MappingOf(requests, fs, k)
  }

  lemma AllLookedUp(requests: seq<Request>, fs: seq<Found>, results: seq<Slot>, hits: seq<bool>, at: seq<nat>, mapping: Mapping)
    requires |fs| == |requests| && LookedUp(requests, fs, |fs|, results, hits, at, mapping)
    ensures results == ResultsOf(requests, fs) && hits == HitFlags(fs)
  {
  }

  lemma NextLookedUp(requests: seq<Request>, fs: seq<Found>, k: nat, results: seq<Slot>, hits: seq<bool>, at: seq<nat>, mapping: Mapping)
    requires k < |requests| && LookedUp(requests, fs, k, results, hits, at, mapping)
    ensures LookedUp(requests, fs, k + 1, results + [ResultOf(requests[k], fs[k])], hits + [fs[k].Hit?],
      if fs[k].Hit? then at else at + [k],
      if fs[k].Miss? then AddIndex(mapping, requests[k].ID(), k) else mapping)
  {
  }

  /** The two merge loops: the kept hits first, then every answer to all the places its printed id
      stands for. */
  method Merge(results: seq<Slot>, mapping: Mapping, answers: seq<Slot>) returns (merged: seq<Slot>)
    requires AllAnswers(results) && AllAnswers(answers) && InRange(mapping, |results|)
    ensures merged == MergeAll(KeptAll(results), mapping, answers, |answers|)
  {
    var responses := new Slot[|results|](_ => Missing);
    for i := 0 to |results|
      invariant forall k :: 0 <= k < i ==> responses[k] == Kept(results[k])
      invariant forall k :: i <= k < |results| ==> responses[k] == Missing
    {
      if results[i].result != Null {
        responses[i] := results[i].(cached := true);
      }
    }
    ghost var kept := KeptAll(results);
    assert responses[..] == kept;
    for j := 0 to |answers|
      invariant responses[..] == MergeAll(kept, mapping, answers, j)
    {
      var answer := answers[j];
      var id := Sprint(answer.id);
      if id in mapping {
        ghost var before := responses[..];
        for k := 0 to |mapping[id]|
          invariant responses[..] == AssignAll(before, mapping[id][..k], Fresh(answer))
        {
          assert mapping[id][..k + 1][..k] == mapping[id][..k];
          responses[mapping[id][k]] := answer.(cached := false);
        }
        assert mapping[id][..|mapping[id]|] == mapping[id];
      }
    }
    merged := responses[..];
  }

  class Service {
    const config: Config
    /** The Redis keys that hold results. */
    var store: Store

    /** Without expiry durations the cache is off; a duration without a TTL counts as 0. */
    constructor (disable: bool, durations: Option<map<string, Option<int>>>)
      ensures config.disable <==> disable || durations == None
      ensures durations == None ==> config.methods == map[]
      ensures durations.Some? ==> config.methods.Keys == durations.value.Keys && forall m :: m in config.methods ==>
        config.methods[m] == if durations.value[m].Some? then durations.value[m].value else 0
      ensures store == map[]
    {
      var ds := if durations.Some? then durations.value else map[];
      config := Config(disable || durations == None, map m | m in ds :: if ds[m].Some? then ds[m].value else 0);
      store := map[];
    }

    /** `call`: relabels each result by position and stores the storable ones. `None` stands for an
        error of `client.Request`. */
    method CallUpstream(chain: nat, sent: seq<Request>, w: World) returns (results: Option<seq<Reply>>, failure: string)
      modifies this
      ensures store == match w.upstream(SealAll(sent))
                       case Failed(_) => old(store)
                       case Answered(replies) => StoreAll(config, chain, old(store), w, sent, replies, |replies|)
      ensures match w.upstream(SealAll(sent))
              case Failed(message) => results == None && failure == message
              case Answered(replies) => results == Some(Relabel(sent, replies))
    {
      failure := "";
      var answer := w.upstream(SealAll(sent));
      if answer.Failed? {
        return None, answer.message;
      }
      var replies := answer.replies;
      var relabelled: seq<Reply> := [];
      for i := 0 to |replies|
        invariant relabelled == Relabel(sent, replies)[..i]
        invariant store == StoreAll(config, chain, old(store), w, sent, replies, i)
      {
        var result := replies[i];
        if i < |sent| {
          if Sprint(result.id) != Sprint(sent[i].id) {
            result := result.(id := sent[i].id);
          }
          if CanCache(config, sent[i].methodName) && result.error == Null {
            store := SetCache(config, store, w, CacheKey(chain, sent[i]), sent[i].methodName, result.result, w.writeAt(i));
          }
        }
        relabelled := relabelled + [result];
      }
      assert relabelled == Relabel(sent, replies);
      results := Some(relabelled);
    }

    method Dispatch(chain: nat, batch: bool, sent: seq<Request>, hits: seq<bool>, w: World) returns (out: Outcome)
      modifies this
      ensures out == Dispatched(batch, sent, hits, w)
      ensures store == DispatchedStore(config, chain, old(store), sent, w)
    {
      if sent == [] {
        return Body(if batch then Array([]) else Object(NOTHING));
      }
      var results, failure := CallUpstream(chain, sent, w);
      if results == None {
        return Error(failure);
      }
      var rs := results.value;
      if batch {
        var slots: seq<Slot> := [];
        for i := 0 to |rs|
          invariant i <= |hits|
          invariant slots == Render(rs[..i], hits)
        {
          if i >= |hits| {
            return Panic;
          }
          slots := slots + [Answer(rs[i].id, rs[i].result, rs[i].error, hits[i])];
        }
        assert rs[..|rs|] == rs;
        return Body(Array(slots));
      }
      if |rs| > 0 {
        if hits == [] {
          return Panic;
        }
        return Body(Object(Answer(rs[0].id, rs[0].result, rs[0].error, hits[0])));
      }
      return Body(Object(NOTHING));
    }

    /** One turn of the lookup loop. */
    method LookUpOne(chain: nat, requests: seq<Request>, w: World, i: nat, results0: seq<Slot>, hits0: seq<bool>, at0: seq<nat>, mapping0: Mapping)
      returns (results: seq<Slot>, hits: seq<bool>, at: seq<nat>, mapping: Mapping)
      requires i < |requests|
      ensures var f := Find(config, chain, store, w, requests[i], i);
        && results == results0 + [ResultOf(requests[i], f)] && hits == hits0 + [f.Hit?]
        && at == (if f.Hit? then at0 else at0 + [i])
        && mapping == (if f.Miss? then AddIndex(mapping0, requests[i].ID(), i) else mapping0)
    {
      var r := requests[i];
      results, hits, at, mapping := results0, hits0, at0, mapping0;
      if !CanCache(config, r.methodName) {
        at, hits, results := at + [i], hits + [false], results + [NOTHING];
        return;
      }
      var key := CacheKey(chain, r);
      match GetCache(config, store, w, key, r.methodName, w.readAt(i))
      case Some(value) =>
        hits, results := hits + [true], results + [Answer(r.id, value, Null, true)];
      case None =>
        at, hits, results := at + [i], hits + [false], results + [NOTHING];
        mapping := AddIndex(mapping, r.ID(), i);
    }

    /** The lookup loop; `at` holds the places of the items to send. */
    method LookUp(chain: nat, requests: seq<Request>, w: World)
      returns (results: seq<Slot>, hits: seq<bool>, at: seq<nat>, mapping: Mapping)
      ensures var fs := FindAll(config, chain, Always(store), w, requests);
        && results == ResultsOf(requests, fs) && hits == HitFlags(fs)
        && at == SentAt(fs, |fs|) && mapping == MappingOf(requests, fs, |fs|)
    {
      results, hits, at, mapping := [], [], [], map[];
      ghost var fs := FindAll(config, chain, Always(store), w, requests);
      for i := 0 to |requests|
        invariant LookedUp(requests, fs, i, results, hits, at, mapping)
      {
        FoundAt(config, chain, store, w, requests, i);
        NextLookedUp(requests, fs, i, results, hits, at, mapping);
        results, hits, at, mapping := LookUpOne(chain, requests, w, i, results, hits, at, mapping);
      }
      AllLookedUp(requests, fs, results, hits, at, mapping);
    }

    method Call(chain: nat, caches: bool, batch: bool, requests: seq<Request>, w: World) returns (out: Outcome)
      modifies this
      ensures out == CallResult(config, chain, caches, batch, requests, w, Always(old(store)))
      ensures store == CallStore(config, chain, caches, requests, w, Always(old(store)), old(store))
    {
      if requests == [] {
        return Body(if batch then Array([]) else Object(NOTHING));
      }
      if !UsesCache(config, caches) {
        out := Dispatch(chain, batch, requests, NoHits(|requests|), w);
        return;
      }
      var results, hits, at, mapping := LookUp(chain, requests, w);
      ghost var fs := FindAll(config, chain, Always(store), w, requests);
      if at == [] {
        return Body(if batch then Array(results) else Object(results[0]));
      }
      out := Dispatch(chain, batch, Pick(requests, at), hits, w);
      match out {
        case Body(Array(answers)) =>
          MappingInRange(requests, fs, |fs|);
          var merged := Merge(results, mapping, answers);
          out := Body(Array(merged));
        case Body(Object(slot)) =>
          out := Body(Object(Fresh(slot)));
        case _ =>
      }
    }
  }
}
