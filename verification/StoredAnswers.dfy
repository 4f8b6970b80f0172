/** What a call finds in the cache, after any run: the round trip through the store. */
module StoredAnswers {
  import opened Wrappers
  import opened JsonRpc
  import opened ResultCache
  import opened Transparency

  /** An answer stored at a time in nanoseconds. */
  datatype Put = Put(value: Json, at: nat)

  /** What an event stores under the key: the result of a cacheable item that is no error, if the write
      does not fail. */
  function Puts(cfg: Config, e: Event, key: string): Option<Put> {
    if e.Dropped? then None
    else match e.w.upstream(SealAll(e.sent))
      case Failed(_) => None
      case Answered(replies) =>
        if e.j < |replies| && e.j < |e.sent| && e.sent[e.j].methodName in cfg.methods && replies[e.j].error == Null
           && CacheKey(e.chain, e.sent[e.j]) == key && key !in e.w.writeFails
        then Some(Put(replies[e.j].result, e.w.writeAt(e.j)))
        else None
  }

  predicate Loses(e: Event, key: string) {
    e.Dropped? && key in e.keys
  }

  /** Event k is the last one that stored something under the key, and the key was not lost since. */
  predicate LastPut(cfg: Config, events: seq<Event>, key: string, k: nat, p: Put) {
    && k < |events| && Puts(cfg, events[k], key) == Some(p)
    && forall l :: k < l < |events| ==> Puts(cfg, events[l], key) == None && !Loses(events[l], key)
  }

  ghost predicate NonePut(cfg: Config, events: seq<Event>, key: string) {
    forall k: nat, p: Put :: !LastPut(cfg, events, key, k, p)
  }

  lemma EventEffect(cfg: Config, events: seq<Event>, e: Event, key: string)
    ensures var s, t := StoreAfter(cfg, events), StoreAfter(cfg, events + [e]);
      match Puts(cfg, e, key)
      case Some(p) => key in t && t[key].value == p.value && t[key].time * SECOND == p.at - p.at % SECOND
      case None =>
        && (key in t <==> key in s && !Loses(e, key))
        && (key in t ==> t[key] == s[key])
  {
    assert (events + [e])[..|events|] == events;
  }

  lemma LastPutSnoc(cfg: Config, events: seq<Event>, e: Event, key: string, k: nat, p: Put)
    ensures LastPut(cfg, events + [e], key, k, p) <==>
      if Puts(cfg, e, key).Some? then k == |events| && Puts(cfg, e, key) == Some(p)
      else !Loses(e, key) && LastPut(cfg, events, key, k, p)
  {
    var more := events + [e];
    assert more[|events|] == e;
    assert forall l :: 0 <= l < |events| ==> more[l] == events[l];
  }

  /** After any run a key is in the store exactly when some event put it last, and then with what that
      event stored, its time cut to whole seconds. */
  lemma {:induction false} StoredExactly(cfg: Config, events: seq<Event>, key: string)
    ensures key !in StoreAfter(cfg, events) <==> NonePut(cfg, events, key)
    ensures forall k: nat, p: Put :: LastPut(cfg, events, key, k, p) ==>
      var entry := StoreAfter(cfg, events)[key]; entry.value == p.value && entry.time * SECOND == p.at - p.at % SECOND
  {
    if events != [] {
      var before, e := events[..|events| - 1], events[|events| - 1];
      assert before + [e] == events;
      StoredExactly(cfg, before, key);
      EventEffect(cfg, before, e, key);
      forall k: nat, p: Put
        ensures LastPut(cfg, events, key, k, p) <==>
          if Puts(cfg, e, key).Some? then k == |before| && Puts(cfg, e, key) == Some(p)
          else !Loses(e, key) && LastPut(cfg, before, key, k, p)
      {
        LastPutSnoc(cfg, before, e, key, k, p);
      }
      if Puts(cfg, e, key).Some? {
        assert LastPut(cfg, events, key, |before|, Puts(cfg, e, key).value);
      } else if key in StoreAfter(cfg, events) {
        var k: nat, p: Put :| LastPut(cfg, before, key, k, p);
        assert LastPut(cfg, events, key, k, p);
      }
    }
  }

  /** What a lookup makes of an answer stored at p.at: its age counts from the whole second before. */
  function Found(cfg: Config, methodName: string, p: Put, now: nat): Json
    requires methodName in cfg.methods
  {
    if now - (p.at - p.at % SECOND) <= cfg.methods[methodName] then p.value else Null
  }

  /** Main result: after any run, the lookup of a cacheable item is a miss exactly when the read fails or
      nothing is stored for it; otherwise it is the answer that was stored last, as long as that is not
      older than its TTL, and nil from then on. */
  lemma FoundExactly(cfg: Config, events: seq<Event>, chain: nat, r: Request, w: World, i: nat)
    requires r.methodName in cfg.methods
    ensures var key := CacheKey(chain, r); var f := Find(cfg, chain, StoreAfter(cfg, events), w, r, i);
      && (f == Miss <==> key in w.readFails || NonePut(cfg, events, key))
      && (key !in w.readFails ==> forall k: nat, p: Put :: LastPut(cfg, events, key, k, p) ==>
           f == Hit(Found(cfg, r.methodName, p, w.readAt(i))))
  {
    StoredExactly(cfg, events, CacheKey(chain, r));
  }

  lemma {:induction false} WritesAt(chain: nat, sent: seq<Request>, w: World, k: nat, j: nat)
    requires j < k
    ensures |Writes(chain, sent, w, k)| == k && Writes(chain, sent, w, k)[j] == Wrote(chain, sent, w, j)
  {
    if k > 1 {
      WritesAt(chain, sent, w, k - 1, if j < k - 1 then j else 0);
    }
  }

  /** The answer to item j is stored, and no later item of the call stores another one under its key. */
  predicate StoresLast(cfg: Config, chain: nat, sent: seq<Request>, w: World, replies: seq<Reply>, j: nat) {
    && j < |replies| && j < |sent| && sent[j].methodName in cfg.methods && replies[j].error == Null
    && CacheKey(chain, sent[j]) !in w.writeFails
    && forall l :: j < l < |replies| && l < |sent| && CacheKey(chain, sent[l]) == CacheKey(chain, sent[j]) ==> replies[l].error != Null
  }

  lemma WritesPlaced(events: seq<Event>, chain: nat, sent: seq<Request>, w: World, n: nat, m: nat)
    requires |events| <= m < |events| + n
    ensures |events + Writes(chain, sent, w, n)| == |events| + n
    ensures (events + Writes(chain, sent, w, n))[m] == Wrote(chain, sent, w, m - |events|)
  {
    WritesAt(chain, sent, w, n, m - |events|);
  }

  lemma OwnPut(cfg: Config, chain: nat, sent: seq<Request>, w: World, replies: seq<Reply>, j: nat, l: nat)
    requires w.upstream(SealAll(sent)) == Answered(replies) && StoresLast(cfg, chain, sent, w, replies, j)
    requires j <= l < |replies|
    ensures Puts(cfg, Wrote(chain, sent, w, l), CacheKey(chain, sent[j])) ==
      if l == j then Some(Put(replies[j].result, w.writeAt(j))) else None
  {
  }

  lemma CallPutsLast(cfg: Config, events: seq<Event>, chain: nat, sent: seq<Request>, w: World, replies: seq<Reply>, j: nat)
    requires w.upstream(SealAll(sent)) == Answered(replies) && StoresLast(cfg, chain, sent, w, replies, j)
    ensures LastPut(cfg, events + Writes(chain, sent, w, |replies|), CacheKey(chain, sent[j]), |events| + j,
      Put(replies[j].result, w.writeAt(j)))
  {
    var all, key := events + Writes(chain, sent, w, |replies|), CacheKey(chain, sent[j]);
    WritesPlaced(events, chain, sent, w, |replies|, |events| + j);
    OwnPut(cfg, chain, sent, w, replies, j, j);
    forall m | |events| + j < m < |all|
      ensures Puts(cfg, all[m], key) == None && !Loses(all[m], key)
    {
      WritesPlaced(events, chain, sent, w, |replies|, m);
      OwnPut(cfg, chain, sent, w, replies, j, m - |events|);
    }
  }

  /** Main result: what one call stores the next call for the same chain, method and params finds, as long
      as it is not older than its TTL. */
  lemma NextCallFinds(cfg: Config, events: seq<Event>, chain: nat, sent: seq<Request>, w: World, replies: seq<Reply>, j: nat,
                      requests: seq<Request>, w': World, i: nat)
    requires w.upstream(SealAll(sent)) == Answered(replies) && StoresLast(cfg, chain, sent, w, replies, j)
    requires i < |requests| && requests[i].methodName == sent[j].methodName && requests[i].params == sent[j].params
    requires CacheKey(chain, requests[i]) !in w'.readFails
    ensures var store := DispatchedStore(cfg, chain, StoreAfter(cfg, events), sent, w);
      FindAll(cfg, chain, Always(store), w', requests)[i] ==
        Hit(Found(cfg, sent[j].methodName, Put(replies[j].result, w.writeAt(j)), w'.readAt(i)))
  {
    var all := events + Writes(chain, sent, w, |replies|);
    CallWritesInTurn(cfg, events, chain, sent, w, replies);
    CallPutsLast(cfg, events, chain, sent, w, replies, j);
    KeysAreExact(chain, requests[i], chain, sent[j]);
    FoundExactly(cfg, all, chain, requests[i], w', i);
  }
}
