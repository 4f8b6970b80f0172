/** Batch dispatch through the result cache: `Call` and `call` of
    internal/app/agent/service/agent_service.go. */
module ResultCache {
  import opened Wrappers
  import opened JsonRpc
  import Texts

  const SECOND: nat := 1_000_000_000

  /** `T` is in whole seconds; clocks and TTLs are in nanoseconds. */
  datatype CacheEntry = CacheEntry(value: Json, time: nat)

  /** `methods` gives each cacheable method its TTL; the source's nil map is the empty one. */
  datatype Config = Config(disable: bool, methods: map<string, int>)

  type Store = map<string, CacheEntry>

  datatype Upstream = Failed(message: string) | Answered(replies: seq<Reply>)

  /** What one call meets outside: Redis reads and writes that fail, the clock at the i-th lookup
      and at the j-th store, and the endpoints. */
  datatype World = World(
    readFails: set<string>,
    writeFails: set<string>,
    readAt: nat -> nat,
    writeAt: nat -> nat,
    upstream: seq<Sealed> -> Upstream)

  /** One place of a response; a nil place is marshalled as null. */
  datatype Slot = Missing | Answer(id: Json, result: Json, error: Json, cached: bool)

  datatype Response = Array(slots: seq<Slot>) | Object(slot: Slot)

  /** `Panic` is an index out of range. */
  datatype Outcome = Body(response: Response) | Error(message: string) | Panic

  const NOTHING := Answer(Null, Null, Null, false)

  // ---- the key-value store ----

  function CacheKey(chain: nat, r: Request): string {
    Texts.Decimal(chain) + ":" + r.methodName + ":" + r.ParamsText()
  }

  predicate CanCache(cfg: Config, methodName: string) {
    methodName in cfg.methods
  }

  predicate ShouldInvalidate(cfg: Config, methodName: string, entry: CacheEntry, now: nat) {
    methodName !in cfg.methods || now - entry.time * SECOND > cfg.methods[methodName]
  }

  /** `None` is an error; a stale entry is no error but a nil value. */
  function GetCache(cfg: Config, store: Store, w: World, key: string, methodName: string, now: nat): Option<Json> {
    if key in w.readFails || key !in store then None
    else if ShouldInvalidate(cfg, methodName, store[key], now) then Some(Null)
    else Some(store[key].value)
  }

  function SetCache(cfg: Config, store: Store, w: World, key: string, methodName: string, value: Json, now: nat): Store {
    if CanCache(cfg, methodName) && key !in w.writeFails
    then store[key := CacheEntry(value, now / SECOND)]
    else store
  }

  // ---- the lookup loop ----

  datatype Found = Skip | Hit(value: Json) | Miss

  function Find(cfg: Config, chain: nat, store: Store, w: World, r: Request, i: nat): Found {
    if !CanCache(cfg, r.methodName) then Skip
    else match GetCache(cfg, store, w, CacheKey(chain, r), r.methodName, w.readAt(i))
      case Some(v) => Hit(v)
      case None => Miss
  }

  /** The store as the i-th lookup finds it: others may write between two lookups. */
  type Snapshots = nat -> Store

  function Always(store: Store): Snapshots {
    (i: nat) => store
  }

  function FindAll(cfg: Config, chain: nat, stores: Snapshots, w: World, requests: seq<Request>): (fs: seq<Found>)
    ensures |fs| == |requests|
  {
    seq(|requests|, i requires 0 <= i < |requests| => Find(cfg, chain, stores(i), w, requests[i], i))
  }

  /** The places, in order, of the items among the first k that go upstream. */
  function SentAt(fs: seq<Found>, k: nat): (at: seq<nat>)
    requires k <= |fs|
    ensures forall j :: 0 <= j < |at| ==> at[j] < k && !fs[at[j]].Hit?
  {
    if k == 0 then []
    else if fs[k - 1].Hit? then SentAt(fs, k - 1)
    else SentAt(fs, k - 1) + [k - 1]
  }

  function Pick(requests: seq<Request>, at: seq<nat>): (picked: seq<Request>)
    requires forall j :: 0 <= j < |at| ==> at[j] < |requests|
    ensures |picked| == |at|
  {
    seq(|at|, j requires 0 <= j < |at| => requests[at[j]])
  }

  type Mapping = map<string, seq<nat>>

  function AddIndex(mapping: Mapping, id: string, i: nat): Mapping {
    mapping[id := (if id in mapping then mapping[id] else []) + [i]]
  }

  /** `mapping` after the first k items: only cacheable misses enter it. */
  function MappingOf(requests: seq<Request>, fs: seq<Found>, k: nat): Mapping
    requires k <= |requests| == |fs|
  {
    if k == 0 then map[]
    else if fs[k - 1].Miss? then AddIndex(MappingOf(requests, fs, k - 1), requests[k - 1].ID(), k - 1)
    else MappingOf(requests, fs, k - 1)
  }

  // ---- call: send, relabel, store ----

  function SealForUpstream(r: Request): Sealed {
    r.Seal().(id := Sprint(r.id))
  }

  function SealAll(sent: seq<Request>): (s: seq<Sealed>)
    ensures |s| == |sent|
  {
    seq(|sent|, j requires 0 <= j < |sent| => SealForUpstream(sent[j]))
  }

  /** The j-th result keeps its own id only when that prints like the j-th request's id. */
  function RelabelOne(sent: seq<Request>, replies: seq<Reply>, j: nat): Reply
    requires j < |replies|
  {
    if j < |sent| && Sprint(replies[j].id) != Sprint(sent[j].id)
    then replies[j].(id := sent[j].id)
    else replies[j]
  }

  function Relabel(sent: seq<Request>, replies: seq<Reply>): (rs: seq<Reply>)
    ensures |rs| == |replies|
  {
    seq(|replies|, j requires 0 <= j < |replies| => RelabelOne(sent, replies, j))
  }

  function StoreOne(cfg: Config, chain: nat, store: Store, w: World, sent: seq<Request>, reply: Reply, j: nat): Store {
    if j < |sent| && CanCache(cfg, sent[j].methodName) && reply.error == Null
    then SetCache(cfg, store, w, CacheKey(chain, sent[j]), sent[j].methodName, reply.result, w.writeAt(j))
    else store
  }

  function StoreAll(cfg: Config, chain: nat, store: Store, w: World, sent: seq<Request>, replies: seq<Reply>, k: nat): Store
    requires k <= |replies|
  {
    if k == 0 then store
    else StoreOne(cfg, chain, StoreAll(cfg, chain, store, w, sent, replies, k - 1), w, sent, replies[k - 1], k - 1)
  }

  // ---- dispatch and merge ----

  function Render(replies: seq<Reply>, hits: seq<bool>): (slots: seq<Slot>)
    requires |replies| <= |hits|
    ensures |slots| == |replies|
  {
    seq(|replies|, j requires 0 <= j < |replies| =>
      Answer(replies[j].id, replies[j].result, replies[j].error, hits[j]))
  }

  /** The direct path's answer to `sent`; `hits` has one flag per item of the whole request. */
  function Dispatched(batch: bool, sent: seq<Request>, hits: seq<bool>, w: World): Outcome {
    if sent == [] then Body(if batch then Array([]) else Object(NOTHING))
    else match w.upstream(SealAll(sent))
      case Failed(message) => Error(message)
      case Answered(replies) =>
        var rs := Relabel(sent, replies);
        if batch then (if |rs| > |hits| then Panic else Body(Array(Render(rs, hits))))
        else if rs == [] then Body(Object(NOTHING))
        else if hits == [] then Panic
        else Body(Object(Render(rs[..1], hits)[0]))
  }

  function DispatchedStore(cfg: Config, chain: nat, store: Store, sent: seq<Request>, w: World): Store {
    if sent == [] then store
    else match w.upstream(SealAll(sent))
      case Failed(_) => store
      case Answered(replies) => StoreAll(cfg, chain, store, w, sent, replies, |replies|)
  }

  /** `results` after the lookup loop; the places of the items to send are left zero. */
  function ResultOf(r: Request, f: Found): (slot: Slot)
    ensures slot.Answer?
  {
    if f.Hit? then Answer(r.id, f.value, Null, true) else NOTHING
  }

  predicate AllAnswers(slots: seq<Slot>) {
    forall j :: 0 <= j < |slots| ==> slots[j].Answer?
  }

  function ResultsOf(requests: seq<Request>, fs: seq<Found>): (slots: seq<Slot>)
    requires |fs| == |requests|
    ensures |slots| == |requests| && AllAnswers(slots)
  {
    seq(|requests|, i requires 0 <= i < |requests| => ResultOf(requests[i], fs[i]))
  }

  /** What the merge starts from: the results whose value is not nil. */
  function Kept(result: Slot): Slot {
    if result.Answer? && result.result != Null then result.(cached := true) else Missing
  }

  function KeptAll(results: seq<Slot>): (slots: seq<Slot>)
    ensures |slots| == |results|
  {
    seq(|results|, i requires 0 <= i < |results| => Kept(results[i]))
  }

  function AssignAll(slots: seq<Slot>, at: seq<nat>, slot: Slot): (r: seq<Slot>)
    requires forall k :: 0 <= k < |at| ==> at[k] < |slots|
    ensures |r| == |slots|
  {
    if at == [] then slots else AssignAll(slots, at[..|at| - 1], slot)[at[|at| - 1] := slot]
  }

  predicate InRange(mapping: Mapping, n: nat) {
    forall id :: id in mapping ==> forall k :: 0 <= k < |mapping[id]| ==> mapping[id][k] < n
  }

  function Fresh(slot: Slot): Slot {
    if slot.Missing? then slot else slot.(cached := false)
  }

  function MergeOne(slots: seq<Slot>, mapping: Mapping, slot: Slot): (r: seq<Slot>)
    requires slot.Answer? && InRange(mapping, |slots|)
    ensures |r| == |slots|
  {
    if Sprint(slot.id) in mapping then AssignAll(slots, mapping[Sprint(slot.id)], Fresh(slot)) else slots
  }

  function MergeAll(slots: seq<Slot>, mapping: Mapping, answers: seq<Slot>, k: nat): (r: seq<Slot>)
    requires k <= |answers| && AllAnswers(answers) && InRange(mapping, |slots|)
    ensures |r| == |slots|
  {
    if k == 0 then slots else MergeOne(MergeAll(slots, mapping, answers, k - 1), mapping, answers[k - 1])
  }

  lemma MappingInRange(requests: seq<Request>, fs: seq<Found>, k: nat)
    requires k <= |requests| == |fs|
    ensures InRange(MappingOf(requests, fs, k), k)
  {
    if k > 0 {
      MappingInRange(requests, fs, k - 1);
    }
  }

  // ---- the two paths ----

  function HitFlags(fs: seq<Found>): (hits: seq<bool>)
    ensures |hits| == |fs|
  {
    seq(|fs|, i requires 0 <= i < |fs| => fs[i].Hit?)
  }

  function NoHits(n: nat): (hits: seq<bool>)
    ensures |hits| == n
  {
    seq(n, _ => false)
  }

  function Direct(batch: bool, requests: seq<Request>, w: World): Outcome {
    Dispatched(batch, requests, NoHits(|requests|), w)
  }

  function Cached(batch: bool, requests: seq<Request>, fs: seq<Found>, w: World): Outcome
    requires |fs| == |requests| > 0
  {
    var sent := Pick(requests, SentAt(fs, |fs|));
    var results := ResultsOf(requests, fs);
    if sent == [] then Body(if batch then Array(results) else Object(results[0]))
    else match Dispatched(batch, sent, HitFlags(fs), w)
      case Body(Array(answers)) =>
        MappingInRange(requests, fs, |fs|);
        Body(Array(MergeAll(KeptAll(results), MappingOf(requests, fs, |fs|), answers, |answers|)))
      case Body(Object(slot)) => Body(Object(Fresh(slot)))
      case other => other
  }

  predicate UsesCache(cfg: Config, caches: bool) {
    !cfg.disable && caches
  }

  /** The whole of `Call` on a parsed and validated request. */
  function CallResult(cfg: Config, chain: nat, caches: bool, batch: bool, requests: seq<Request>, w: World, stores: Snapshots): Outcome {
    if requests == [] then Body(if batch then Array([]) else Object(NOTHING))
    else if UsesCache(cfg, caches)
    then Cached(batch, requests, FindAll(cfg, chain, stores, w, requests), w)
    else Direct(batch, requests, w)
  }

  /** The store after a call, when no other call writes while this one does. */
  function CallStore(cfg: Config, chain: nat, caches: bool, requests: seq<Request>, w: World, stores: Snapshots, store: Store): Store {
    if requests == [] then store
    else if UsesCache(cfg, caches)
    then
      var fs := FindAll(cfg, chain, stores, w, requests);
      DispatchedStore(cfg, chain, store, Pick(requests, SentAt(fs, |fs|)), w)
    else DispatchedStore(cfg, chain, store, requests, w)
  }
}
