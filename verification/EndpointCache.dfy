/** The two-map endpoint index of internal/core/endpoint/cache.go and its use by
    internal/app/agent/service/endpoint_service.go, against one ordered collection. */
module EndpointCache {
  import opened Wrappers
  import opened Endpoints

  // ---- the simple form: a list of endpoints in the order they were first put ----

  predicate HasUrl(es: seq<Endpoint>, url: string) {
    exists i :: 0 <= i < |es| && UrlOf(es[i]) == url
  }

  predicate DistinctUrls(es: seq<Endpoint>) {
    forall i, j :: 0 <= i < j < |es| ==> UrlOf(es[i]) != UrlOf(es[j])
  }

  function Keep(es: seq<Endpoint>, p: Endpoint -> bool): seq<Endpoint> {
    if es == [] then []
    else
      var front, last := Keep(es[..|es| - 1], p), es[|es| - 1];
      if p(last) then front + [last] else front
  }

  lemma {:induction false} KeepMembers(es: seq<Endpoint>, p: Endpoint -> bool)
    ensures forall e :: e in Keep(es, p) <==> e in es && p(e)
  {
    if es != [] {
      KeepMembers(es[..|es| - 1], p);
    }
  }

  function PutInto(es: seq<Endpoint>, e: Endpoint): seq<Endpoint> {
    if HasUrl(es, UrlOf(e)) then es else es + [e]
  }

  function RemoveFrom(es: seq<Endpoint>, url: string): seq<Endpoint> {
    Keep(es, (e: Endpoint) => UrlOf(e) != url)
  }

  function PurgeFrom(es: seq<Endpoint>, chain: nat): seq<Endpoint> {
    Keep(es, (e: Endpoint) => ChainOf(e) != chain)
  }

  function OfChain(es: seq<Endpoint>, chain: nat): seq<Endpoint> {
    Keep(es, (e: Endpoint) => ChainOf(e) == chain)
  }

  function Urls(es: seq<Endpoint>): (urls: seq<string>)
    ensures |urls| == |es|
  {
    seq(|es|, i requires 0 <= i < |es| => UrlOf(es[i]))
  }

  /** `slices.DeleteFunc` for one url. */
  function Without(urls: seq<string>, url: string): seq<string> {
    if urls == [] then []
    else
      var front, last := Without(urls[..|urls| - 1], url), urls[|urls| - 1];
      if last == url then front else front + [last]
  }

  lemma {:induction false} WithoutAbsent(urls: seq<string>, url: string)
    requires url !in urls
    ensures Without(urls, url) == urls
  {
    if urls != [] {
      WithoutAbsent(urls[..|urls| - 1], url);
    }
  }

  lemma {:induction false} KeepKeepsDistinct(es: seq<Endpoint>, p: Endpoint -> bool)
    requires DistinctUrls(es)
    ensures DistinctUrls(Keep(es, p))
  {
    if es != [] {
      KeepKeepsDistinct(es[..|es| - 1], p);
      KeepMembers(es[..|es| - 1], p);
      forall x | x in Keep(es[..|es| - 1], p)
        ensures UrlOf(x) != UrlOf(es[|es| - 1])
      {
        var i :| 0 <= i < |es| - 1 && es[i] == x;
      }
    }
  }

  lemma KeepSnoc(es: seq<Endpoint>, e: Endpoint, p: Endpoint -> bool)
    ensures Keep(es + [e], p) == if p(e) then Keep(es, p) + [e] else Keep(es, p)
  {
    assert (es + [e])[..|es|] == es;
  }

  lemma {:induction false} KeepTwice(es: seq<Endpoint>, p: Endpoint -> bool, q: Endpoint -> bool)
    ensures (forall e: Endpoint :: q(e) ==> p(e)) ==> Keep(Keep(es, p), q) == Keep(es, q)
    ensures (forall e: Endpoint :: p(e) ==> !q(e)) ==> Keep(Keep(es, p), q) == []
  {
    if es != [] {
      var front, last := es[..|es| - 1], es[|es| - 1];
      KeepTwice(front, p, q);
      KeepSnoc(Keep(front, p), last, q);
    }
  }

  lemma WithoutSnoc(urls: seq<string>, last: string, url: string)
    ensures Without(urls + [last], url) == if last == url then Without(urls, url) else Without(urls, url) + [last]
  {
    assert (urls + [last])[..|urls|] == urls;
  }

  /** Removing a url from a filtered list removes it from its urls. */
  lemma {:induction false} RemoveFromKept(es: seq<Endpoint>, url: string)
    ensures Urls(RemoveFrom(es, url)) == Without(Urls(es), url)
  {
    if es != [] {
      var front, last := es[..|es| - 1], es[|es| - 1];
      RemoveFromKept(front, url);
      assert Urls(es) == Urls(front) + [UrlOf(last)];
      WithoutSnoc(Urls(front), UrlOf(last), url);
    }
  }

  lemma {:induction false} KeepCommutes(es: seq<Endpoint>, p: Endpoint -> bool, q: Endpoint -> bool)
    ensures Keep(Keep(es, p), q) == Keep(Keep(es, q), p)
  {
    if es != [] {
      var front, last := es[..|es| - 1], es[|es| - 1];
      KeepCommutes(front, p, q);
      KeepSnoc(Keep(front, p), last, q);
      KeepSnoc(Keep(front, q), last, p);
    }
  }

  /** Removing a url from the list removes it from each chain's urls. */
  lemma RemoveUrls(es: seq<Endpoint>, url: string, chain: nat)
    ensures Urls(OfChain(RemoveFrom(es, url), chain)) == Without(Urls(OfChain(es, chain)), url)
  {
    KeepCommutes(es, (e: Endpoint) => UrlOf(e) != url, (e: Endpoint) => ChainOf(e) == chain);
    RemoveFromKept(OfChain(es, chain), url);
  }

  lemma PurgeUrls(es: seq<Endpoint>, chain: nat, c: nat)
    ensures OfChain(PurgeFrom(es, chain), c) == if c == chain then [] else OfChain(es, c)
  {
    KeepTwice(es, (e: Endpoint) => ChainOf(e) != chain, (e: Endpoint) => ChainOf(e) == c);
  }

  lemma PutUrls(es: seq<Endpoint>, e: Endpoint, c: nat)
    ensures OfChain(es + [e], c) == if c == ChainOf(e) then OfChain(es, c) + [e] else OfChain(es, c)
  {
    KeepSnoc(es, e, (x: Endpoint) => ChainOf(x) == c);
  }

  lemma {:induction false} KeepAll(es: seq<Endpoint>, p: Endpoint -> bool)
    requires forall e :: e in es ==> p(e)
    ensures Keep(es, p) == es
  {
    if es != [] {
      KeepAll(es[..|es| - 1], p);
    }
  }

  // ---- the two maps as views of the list ----

  type ByUrl = map<string, Endpoint>
  type ByChain = map<nat, seq<string>>

  ghost predicate Views(endpoints: ByUrl, chains: ByChain, listed: seq<Endpoint>) {
    && DistinctUrls(listed)
    && (forall e :: e in listed ==> UrlOf(e) in endpoints && endpoints[UrlOf(e)] == e && ChainOf(e) in chains)
    && (forall u :: u in endpoints ==> UrlOf(endpoints[u]) == u && endpoints[u] in listed)
    && (forall c :: c in chains ==> chains[c] == Urls(OfChain(listed, c)))
  }

  function UrlsAt(chains: ByChain, c: nat): seq<string> {
    if c in chains then chains[c] else []
  }

  /** A chain that is no key has no endpoint. */
  lemma ViewOfChain(endpoints: ByUrl, chains: ByChain, listed: seq<Endpoint>, c: nat)
    requires Views(endpoints, chains, listed)
    ensures UrlsAt(chains, c) == Urls(OfChain(listed, c))
  {
    var all := OfChain(listed, c);
    KeepMembers(listed, (e: Endpoint) => ChainOf(e) == c);
    assert all == [] || (all[0] in listed && ChainOf(all[0]) == c);
  }

  lemma KnownExactly(endpoints: ByUrl, chains: ByChain, listed: seq<Endpoint>, url: string)
    requires Views(endpoints, chains, listed)
    ensures url in endpoints <==> HasUrl(listed, url)
  {
    if HasUrl(listed, url) {
      var i :| 0 <= i < |listed| && UrlOf(listed[i]) == url;
      assert listed[i] in listed;
    }
  }

  /** A url is listed under no chain but its own endpoint's. */
  lemma OnlyOwnChain(endpoints: ByUrl, chains: ByChain, listed: seq<Endpoint>, url: string, c: nat)
    requires Views(endpoints, chains, listed)
    ensures url in Urls(OfChain(listed, c)) <==> url in endpoints && ChainOf(endpoints[url]) == c
  {
    var all := OfChain(listed, c);
    KeepMembers(listed, (e: Endpoint) => ChainOf(e) == c);
    forall i | 0 <= i < |all|
      ensures all[i] in listed && ChainOf(all[i]) == c && endpoints[UrlOf(all[i])] == all[i]
    {
      assert all[i] in all;
    }
    if url in endpoints && ChainOf(endpoints[url]) == c {
      assert endpoints[url] in all;
      var i :| 0 <= i < |all| && all[i] == endpoints[url];
      assert Urls(all)[i] == url;
    }
  }

  lemma PutUrlsAt(endpoints: ByUrl, chains: ByChain, listed: seq<Endpoint>, e: Endpoint, c: nat)
    requires Views(endpoints, chains, listed)
    ensures Urls(OfChain(listed + [e], c)) == UrlsAt(chains, c) + if c == ChainOf(e) then [UrlOf(e)] else []
  {
    ViewOfChain(endpoints, chains, listed, c);
    PutUrls(listed, e, c);
    var all := OfChain(listed, c);
    assert Urls(all + [e]) == Urls(all) + [UrlOf(e)];
    assert Urls(all) + [] == Urls(all);
  }

  lemma NewUrlIsDistinct(listed: seq<Endpoint>, endpoints: ByUrl, e: Endpoint)
    requires DistinctUrls(listed) && UrlOf(e) !in endpoints && forall x :: x in listed ==> UrlOf(x) in endpoints
    ensures DistinctUrls(listed + [e])
  {
    forall i | 0 <= i < |listed|
      ensures UrlOf(listed[i]) != UrlOf(e)
    {
      assert listed[i] in listed;
    }
  }

  lemma PutNewViews(endpoints: ByUrl, chains: ByChain, listed: seq<Endpoint>, e: Endpoint)
    requires Views(endpoints, chains, listed) && UrlOf(e) !in endpoints
    ensures Views(endpoints[UrlOf(e) := e], chains[ChainOf(e) := UrlsAt(chains, ChainOf(e)) + [UrlOf(e)]], listed + [e])
  {
    var chain, all := ChainOf(e), listed + [e];
    var chains' := chains[chain := UrlsAt(chains, chain) + [UrlOf(e)]];
    forall c | c in chains'
      ensures chains'[c] == Urls(OfChain(all, c))
    {
      PutUrlsAt(endpoints, chains, listed, e, c);
      assert UrlsAt(chains, c) + [] == UrlsAt(chains, c);
    }
    NewUrlIsDistinct(listed, endpoints, e);
    assert forall x :: x in all <==> x in listed || x == e;
  }

  lemma PutKnownViews(endpoints: ByUrl, chains: ByChain, listed: seq<Endpoint>, url: string, chain: nat)
    requires Views(endpoints, chains, listed) && url in endpoints && ChainOf(endpoints[url]) != chain
    ensures Views(endpoints, chains[chain := Without(UrlsAt(chains, chain), url)], listed)
  {
    ViewOfChain(endpoints, chains, listed, chain);
    OnlyOwnChain(endpoints, chains, listed, url, chain);
    WithoutAbsent(UrlsAt(chains, chain), url);
  }

  /** Dropping a url leaves the urls of every chain but its own as they were. */
  lemma RemoveChainUrls(endpoints: ByUrl, chains: ByChain, listed: seq<Endpoint>, url: string, c: nat)
    requires Views(endpoints, chains, listed) && url in endpoints && c in chains
    ensures Urls(OfChain(RemoveFrom(listed, url), c)) ==
      if c == ChainOf(endpoints[url]) then Without(chains[c], url) else chains[c]
  {
    RemoveUrls(listed, url, c);
    if c != ChainOf(endpoints[url]) {
      OnlyOwnChain(endpoints, chains, listed, url, c);
      WithoutAbsent(chains[c], url);
    }
  }

  lemma SmallerViews(endpoints: ByUrl, chains: ByChain, listed: seq<Endpoint>, url: string, chains': ByChain, after: seq<Endpoint>)
    requires Views(endpoints, chains, listed) && url in endpoints
    requires DistinctUrls(after) && forall e :: e in after <==> e in listed && UrlOf(e) != url
    requires chains'.Keys == chains.Keys && forall c :: c in chains' ==> chains'[c] == Urls(OfChain(after, c))
    ensures Views(endpoints - {url}, chains', after)
  {
  }

  lemma RemoveViews(endpoints: ByUrl, chains: ByChain, listed: seq<Endpoint>, url: string)
    requires Views(endpoints, chains, listed) && url in endpoints
    ensures var c := ChainOf(endpoints[url]);
      Views(endpoints - {url}, chains[c := Without(UrlsAt(chains, c), url)], RemoveFrom(listed, url))
  {
    var chain, after := ChainOf(endpoints[url]), RemoveFrom(listed, url);
    var chains' := chains[chain := Without(UrlsAt(chains, chain), url)];
    assert chain in chains;
    KeepKeepsDistinct(listed, (e: Endpoint) => UrlOf(e) != url);
    KeepMembers(listed, (e: Endpoint) => UrlOf(e) != url);
    forall c | c in chains'
      ensures chains'[c] == Urls(OfChain(after, c))
    {
      RemoveChainUrls(endpoints, chains, listed, url, c);
    }
    SmallerViews(endpoints, chains, listed, url, chains', after);
  }

  lemma PurgeViews(endpoints: ByUrl, chains: ByChain, listed: seq<Endpoint>, chain: nat, left: ByUrl)
    requires Views(endpoints, chains, listed) && chain in chains
    requires forall u :: u in left <==> u in endpoints && u !in chains[chain]
    requires forall u :: u in left ==> left[u] == endpoints[u]
    ensures Views(left, chains - {chain}, PurgeFrom(listed, chain))
  {
    var after := PurgeFrom(listed, chain);
    KeepKeepsDistinct(listed, (e: Endpoint) => ChainOf(e) != chain);
    KeepMembers(listed, (e: Endpoint) => ChainOf(e) != chain);
    assert forall e :: e in after <==> e in listed && ChainOf(e) != chain;
    forall c | c in chains - {chain}
      ensures chains[c] == Urls(OfChain(after, c))
    {
      PurgeUrls(listed, chain, c);
    }
    forall u | u in endpoints
      ensures u in left <==> ChainOf(endpoints[u]) != chain
    {
      OnlyOwnChain(endpoints, chains, listed, u, chain);
    }
  }

  method DeleteAll(endpoints: ByUrl, urls: seq<string>) returns (left: ByUrl)
    ensures forall u :: u in left <==> u in endpoints && u !in urls
    ensures forall u :: u in left ==> left[u] == endpoints[u]
  {
    left := endpoints;
    for i := 0 to |urls|
      invariant forall u :: u in left <==> u in endpoints && u !in urls[..i]
      invariant forall u :: u in left ==> left[u] == endpoints[u]
    {
      left := left - {urls[i]};
      assert urls[..i + 1] == urls[..i] + [urls[i]];
    }
    assert urls[..|urls|] == urls;
  }

  // ---- the class ----

  class Cache {
    var endpoints: ByUrl
    var chains: ByChain
    /** The endpoints in the order they were first put. */
    ghost var listed: seq<Endpoint>

    ghost predicate Valid()
      reads this
    {
      Views(endpoints, chains, listed)
    }

    constructor ()
      ensures Valid() && listed == [] && endpoints == map[] && chains == map[]
    {
      endpoints, chains, listed := map[], map[], [];
    }

    method Chains() returns (r: seq<nat>)
      ensures forall c :: c in r <==> c in chains
      ensures forall i, j :: 0 <= i < j < |r| ==> r[i] != r[j]
    {
      r := [];
      var left := chains.Keys;
      while left != {}
        invariant left <= chains.Keys
        invariant forall c :: c in r <==> c in chains && c !in left
        invariant forall i, j :: 0 <= i < j < |r| ==> r[i] != r[j]
      {
        var c :| c in left;
        r := r + [c];
        left := left - {c};
      }
    }

    /** `None` marks a url without an endpoint; there is none. */
    method GetAll(chain: nat) returns (v: seq<Option<Endpoint>>, ok: bool)
      requires Valid()
      ensures ok <==> OfChain(listed, chain) != []
      ensures |v| == |OfChain(listed, chain)|
      ensures forall i :: 0 <= i < |v| ==> v[i] == Some(OfChain(listed, chain)[i])
    {
      ghost var all := OfChain(listed, chain);
      KeepMembers(listed, (e: Endpoint) => ChainOf(e) == chain);
      ViewOfChain(endpoints, chains, listed, chain);
      if chain !in chains {
        return [], false;
      }
      var urls := chains[chain];
      if |urls| == 0 {
        return [], false;
      }
      v := [];
      for i := 0 to |urls|
        invariant |v| == i && forall k :: 0 <= k < i ==> v[k] == Some(all[k])
      {
        assert all[i] in all && all[i] in listed;
        v := v + [if urls[i] in endpoints then Some(endpoints[urls[i]]) else None];
      }
      ok := true;
    }

    method Get(url: string) returns (v: Option<Endpoint>)
      requires Valid()
      ensures v.Some? <==> HasUrl(listed, url)
      ensures v.Some? ==> v.value in listed && UrlOf(v.value) == url
    {
      KnownExactly(endpoints, chains, listed, url);
      v := if url in endpoints then Some(endpoints[url]) else None;
    }

    method Put(e: Endpoint)
      requires Valid()
      modifies this
      ensures Valid() && listed == PutInto(old(listed), e)
      ensures chains.Keys == old(chains).Keys +
        if UrlOf(e) in old(endpoints) && ChainOf(old(endpoints)[UrlOf(e)]) == ChainOf(e) then {} else {ChainOf(e)}
    {
      var url, chain := UrlOf(e), ChainOf(e);
      KnownExactly(endpoints, chains, listed, url);
      if url in endpoints {
        var v := endpoints[url];
        if ChainOf(v) != chain {
          PutKnownViews(endpoints, chains, listed, url, chain);
          chains := chains[chain := Without(UrlsAt(chains, chain), url)];
        }
      } else {
        PutNewViews(endpoints, chains, listed, e);
        endpoints := endpoints[url := e];
        chains := chains[chain := UrlsAt(chains, chain) + [url]];
        listed := listed + [e];
      }
    }

    method Remove(url: string)
      requires Valid()
      modifies this
      ensures Valid() && listed == RemoveFrom(old(listed), url)
      ensures chains.Keys == old(chains).Keys
    {
      if url in endpoints {
        RemoveViews(endpoints, chains, listed, url);
        var v := endpoints[url];
        assert v in listed;
        endpoints := endpoints - {url};
        chains := chains[ChainOf(v) := Without(UrlsAt(chains, ChainOf(v)), url)];
      } else {
        forall e | e in listed ensures UrlOf(e) != url {
        }
        KeepAll(listed, (e: Endpoint) => UrlOf(e) != url);
      }
      listed := RemoveFrom(listed, url);
    }

    method Purge(chain: nat) returns (n: nat)
      requires Valid()
      modifies this
      ensures Valid() && listed == PurgeFrom(old(listed), chain)
      ensures chains.Keys == old(chains).Keys - {chain}
      ensures n == |OfChain(old(listed), chain)|
    {
      ViewOfChain(endpoints, chains, listed, chain);
      if chain !in chains {
        forall e | e in listed ensures ChainOf(e) != chain {
        }
        KeepAll(listed, (e: Endpoint) => ChainOf(e) != chain);
        return 0;
      }
      var urls := chains[chain];
      var left := DeleteAll(endpoints, urls);
      PurgeViews(endpoints, chains, listed, chain, left);
      endpoints := left;
      chains := chains - {chain};
      listed := PurgeFrom(listed, chain);
      return |urls|;
    }
  }

  // ---- the service ----

  /** `load` with what the configuration and the provider give; `None` is a provider that failed or
      found nothing. */
  method Load(configured: seq<Endpoint>, provided: Option<seq<Endpoint>>) returns (v: seq<Endpoint>, ghost keys: seq<string>)
    ensures provided == None ==> v == configured
    ensures provided.Some? ==> IsMerge(MergeEndpoint, UniqueId, configured + provided.value, keys, v)
  {
    if provided == None {
      return configured, [];
    }
    var lists := [configured, provided.value];
    assert lists[..1] == [configured] && [configured][..0] == [] && Flatten([configured]) == [] + configured;
    assert Flatten(lists) == configured + provided.value;
    v, keys := MergeSlicesBy(MergeEndpoint, UniqueId, lists);
  }

  function PutAll(listed: seq<Endpoint>, es: seq<Endpoint>): seq<Endpoint> {
    if es == [] then listed else PutInto(PutAll(listed, es[..|es| - 1]), es[|es| - 1])
  }

  /** What the service's `GetAll` answers. */
  function Answer(listed: seq<Endpoint>, chain: nat, loaded: seq<Endpoint>): seq<Endpoint> {
    if OfChain(listed, chain) != [] then OfChain(listed, chain) else loaded
  }

  /** `GetAll` of the service: on a cache miss, what was loaded is put and returned. */
  method ServiceGetAll(cache: Cache, chain: nat, loaded: seq<Endpoint>) returns (v: seq<Endpoint>, ok: bool)
    requires cache.Valid()
    modifies cache
    ensures cache.Valid()
    ensures var all := OfChain(old(cache.listed), chain);
      && v == Answer(old(cache.listed), chain, loaded)
      && cache.listed == (if all != [] then old(cache.listed) else PutAll(old(cache.listed), loaded))
    ensures ok <==> v != []
  {
    var found, known := cache.GetAll(chain);
    if known {
      v := seq(|found|, i requires 0 <= i < |found| => found[i].value);
      assert v == OfChain(cache.listed, chain);
    } else {
      v := loaded;
      for i := 0 to |v|
        invariant cache.Valid() && cache.listed == PutAll(old(cache.listed), v[..i])
      {
        assert v[..i + 1][..i] == v[..i];
        cache.Put(v[i]);
      }
      assert v[..|v|] == v;
    }
    ok := |v| > 0;
  }

  lemma NoElement(es: seq<Endpoint>)
    ensures (forall e :: e !in es) ==> es == []
  {
    assert es == [] || es[0] in es;
  }

  /** The service's `Purge` empties both maps. */
  method ServicePurge(cache: Cache)
    requires cache.Valid()
    modifies cache
    ensures cache.Valid() && cache.listed == [] && cache.endpoints == map[] && cache.chains == map[]
  {
    var chains := cache.Chains();
    for i := 0 to |chains|
      invariant cache.Valid()
      invariant forall c :: c in cache.chains <==> c in chains[i..]
    {
      assert chains[i..] == [chains[i]] + chains[i + 1..];
      var _ := cache.Purge(chains[i]);
    }
    NoElement(cache.listed);
    assert cache.endpoints.Keys == {};
    assert cache.chains.Keys == {};
  }

  lemma Associate(a: seq<Endpoint>, b: seq<Endpoint>, c: seq<Endpoint>)
    ensures a + b + c == a + (b + c)
  {
  }

  lemma {:induction false} KeepConcat(a: seq<Endpoint>, b: seq<Endpoint>, p: Endpoint -> bool)
    ensures Keep(a + b, p) == Keep(a, p) + Keep(b, p)
  {
    var ab := a + b;
    if b == [] {
      assert ab == a;
    } else {
      var front, last := b[..|b| - 1], b[|b| - 1];
      KeepConcat(a, front, p);
      assert ab[..|ab| - 1] == a + front;
      Associate(Keep(a, p), Keep(front, p), [last]);
    }
  }

  lemma {:induction false} PutAllNew(listed: seq<Endpoint>, loaded: seq<Endpoint>)
    requires DistinctUrls(listed + loaded)
    ensures PutAll(listed, loaded) == listed + loaded
  {
    if loaded == [] {
      assert listed + loaded == listed;
    } else {
      var front, last := loaded[..|loaded| - 1], loaded[|loaded| - 1];
      var all := listed + front;
      assert listed + loaded == all + [last];
      forall i, j | 0 <= i < j < |all| + 1
        ensures UrlOf((all + [last])[i]) != UrlOf((all + [last])[j])
      {
      }
      assert forall i :: 0 <= i < |all| ==> (all + [last])[i] == all[i];
      assert (all + [last])[|all|] == last;
      PutAllNew(listed, front);
    }
  }

  lemma JoinedUrlsAreDistinct(a: seq<Endpoint>, b: seq<Endpoint>)
    requires DistinctUrls(a) && DistinctUrls(b) && forall e :: e in b ==> !HasUrl(a, UrlOf(e))
    ensures DistinctUrls(a + b)
  {
    forall i, j | 0 <= i < j < |a + b|
      ensures UrlOf((a + b)[i]) != UrlOf((a + b)[j])
    {
      if i < |a| <= j {
        assert b[j - |a|] in b;
      }
    }
  }

  lemma {:induction false} PutAllKeeps(listed: seq<Endpoint>, es: seq<Endpoint>)
    requires DistinctUrls(listed)
    ensures DistinctUrls(PutAll(listed, es)) && listed <= PutAll(listed, es)
  {
    if es != [] {
      PutAllKeeps(listed, es[..|es| - 1]);
    }
  }

  lemma HasUrlSnoc(es: seq<Endpoint>, e: Endpoint, url: string)
    ensures HasUrl(es + [e], url) <==> HasUrl(es, url) || UrlOf(e) == url
  {
    var all := es + [e];
    assert all[|es|] == e;
    if i :| 0 <= i < |es| && UrlOf(es[i]) == url {
      assert UrlOf(all[i]) == url;
    }
  }

  lemma {:induction false} PutAllUrls(listed: seq<Endpoint>, es: seq<Endpoint>, url: string)
    ensures HasUrl(PutAll(listed, es), url) <==> HasUrl(listed, url) || HasUrl(es, url)
  {
    if es != [] {
      var front, last := es[..|es| - 1], es[|es| - 1];
      PutAllUrls(listed, front, url);
      assert es == front + [last];
      HasUrlSnoc(front, last, url);
      HasUrlSnoc(PutAll(listed, front), last, url);
    }
  }

  /** The loaded endpoints are the chain's own, under urls of their own. */
  predicate OwnUrls(listed: seq<Endpoint>, loaded: seq<Endpoint>, chain: nat) {
    DistinctUrls(loaded) && forall e :: e in loaded ==> ChainOf(e) == chain && !HasUrl(listed, UrlOf(e))
  }

  lemma OwnUrlsAreListed(listed: seq<Endpoint>, loaded: seq<Endpoint>, chain: nat)
    requires OfChain(listed, chain) == [] && DistinctUrls(listed) && OwnUrls(listed, loaded, chain)
    ensures OfChain(PutAll(listed, loaded), chain) == loaded
  {
    JoinedUrlsAreDistinct(listed, loaded);
    PutAllNew(listed, loaded);
    var p := (e: Endpoint) => ChainOf(e) == chain;
    KeepConcat(listed, loaded, p);
    KeepAll(loaded, p);
    assert OfChain(listed, chain) + loaded == loaded;
  }

  lemma SameUrlSameEndpoint(es: seq<Endpoint>, x: Endpoint, y: Endpoint)
    requires DistinctUrls(es) && x in es && y in es && UrlOf(x) == UrlOf(y)
    ensures x == y
  {
  }

  lemma ListedAreOwnUrls(listed: seq<Endpoint>, loaded: seq<Endpoint>, chain: nat)
    requires OfChain(listed, chain) == [] && DistinctUrls(listed)
    requires OfChain(PutAll(listed, loaded), chain) == loaded
    ensures OwnUrls(listed, loaded, chain)
  {
    var after, p := PutAll(listed, loaded), (e: Endpoint) => ChainOf(e) == chain;
    PutAllKeeps(listed, loaded);
    KeepMembers(listed, p);
    KeepMembers(after, p);
    KeepKeepsDistinct(after, p);
    forall e | e in loaded
      ensures ChainOf(e) == chain && !HasUrl(listed, UrlOf(e))
    {
      if i :| 0 <= i < |listed| && UrlOf(listed[i]) == UrlOf(e) {
        assert listed[i] == after[i];
        SameUrlSameEndpoint(after, listed[i], e);
      }
    }
  }

  /** What is listed for the chain is exactly what was loaded, if and only if all that was loaded carries
      the chain under distinct urls that were not listed. */
  lemma ListedExactly(listed: seq<Endpoint>, loaded: seq<Endpoint>, chain: nat)
    requires OfChain(listed, chain) == [] && DistinctUrls(listed)
    ensures OfChain(PutAll(listed, loaded), chain) == loaded <==> OwnUrls(listed, loaded, chain)
  {
    if OwnUrls(listed, loaded, chain) {
      OwnUrlsAreListed(listed, loaded, chain);
    }
    if OfChain(PutAll(listed, loaded), chain) == loaded {
      ListedAreOwnUrls(listed, loaded, chain);
    }
  }

  /** No loaded endpoint of the chain has a url that is new at its turn. */
  predicate NoneNew(listed: seq<Endpoint>, loaded: seq<Endpoint>, chain: nat) {
    forall i :: 0 <= i < |loaded| && ChainOf(loaded[i]) == chain ==>
      HasUrl(listed, UrlOf(loaded[i])) || HasUrl(loaded[..i], UrlOf(loaded[i]))
  }

  lemma NoneNewSnoc(listed: seq<Endpoint>, front: seq<Endpoint>, last: Endpoint, chain: nat)
    ensures NoneNew(listed, front + [last], chain) <==>
      NoneNew(listed, front, chain) && (ChainOf(last) == chain ==> HasUrl(listed, UrlOf(last)) || HasUrl(front, UrlOf(last)))
  {
    var all := front + [last];
    assert all[..|front|] == front && all[|front|] == last;
    assert forall i :: 0 <= i < |front| ==> all[i] == front[i] && all[..i] == front[..i];
  }

  /** Nothing is listed for the chain exactly when no loaded endpoint of it has a new url. */
  lemma {:induction false} NothingListedExactly(listed: seq<Endpoint>, loaded: seq<Endpoint>, chain: nat)
    requires OfChain(listed, chain) == []
    ensures OfChain(PutAll(listed, loaded), chain) == [] <==> NoneNew(listed, loaded, chain)
  {
    if loaded != [] {
      var front, last := loaded[..|loaded| - 1], loaded[|loaded| - 1];
      assert loaded == front + [last];
      NothingListedExactly(listed, front, chain);
      NoneNewSnoc(listed, front, last, chain);
      PutAllUrls(listed, front, UrlOf(last));
      PutUrls(PutAll(listed, front), last, chain);
    }
  }

  /** Main result: when a chain had nothing listed, a second `GetAll` that would load the same answers the
      same exactly when all that was loaded carries the chain under distinct urls that were not listed, or
      nothing of the chain was put, so that the second one loads again. */
  lemma SecondGetAllExactly(listed: seq<Endpoint>, loaded: seq<Endpoint>, chain: nat)
    requires OfChain(listed, chain) == [] && DistinctUrls(listed)
    ensures Answer(listed, chain, loaded) == loaded
    ensures Answer(PutAll(listed, loaded), chain, loaded) == loaded <==>
      OwnUrls(listed, loaded, chain) || NoneNew(listed, loaded, chain)
  {
    ListedExactly(listed, loaded, chain);
    NothingListedExactly(listed, loaded, chain);
  }

  /** A url configured for two chains stays with the chain asked for first: the other one gets it from its
      first `GetAll` and loses it from the second on. */
  lemma SharedUrlIsLost(c: nat, d: nat, u: string, v: string)
    requires c != d && u != v
    ensures var listed, loaded := PutAll([], [Made(d, u)]), [Made(c, u), Made(c, v)];
      && Answer(listed, c, loaded) == loaded
      && Answer(PutAll(listed, loaded), c, loaded) == [Made(c, v)]
  {
    var a, b, e := Made(d, u), Made(c, u), Made(c, v);
    var loaded := [b, e];
    assert [a][..0] == [] && PutAll([], [a]) == [a];
    assert loaded[..1] == [b] && [b][..0] == [];
    assert [a][0] == a && HasUrl([a], u) && !HasUrl([a], v);
    assert PutAll([a], [b]) == [a];
    assert PutAll([a], loaded) == [a, e];
    assert OfChain([a], c) == [] by { PutUrls([], a, c); assert [] + [a] == [a]; }
    assert OfChain([a, e], c) == [e] by { PutUrls([a], e, c); assert [a] + [e] == [a, e]; }
  }

  /** Such a load, from configuration and provider lists that all carry the chain. */
  lemma LoadedOnce(listed: seq<Endpoint>, xs: seq<Endpoint>, keys: seq<string>, loaded: seq<Endpoint>, chain: nat)
    requires IsMerge(MergeEndpoint, UniqueId, xs, keys, loaded)
    requires forall e :: e in xs ==> HasChain(e) && ChainOf(e) == chain && !HasUrl(listed, UrlOf(e))
    requires OfChain(listed, chain) == [] && DistinctUrls(listed)
    ensures OfChain(PutAll(listed, loaded), chain) == loaded
  {
    MergedUrlsAreDistinct(xs, keys, loaded, chain);
    forall i | 0 <= i < |loaded|
      ensures !HasUrl(listed, UrlOf(loaded[i]))
    {
      MergedKeepsId(xs, keys, loaded, i);
    }
    OwnUrlsAreListed(listed, loaded, chain);
  }

  // ---- runs ----

  datatype Op = PutOp(e: Endpoint) | RemoveOp(url: string) | PurgeOp(chain: nat)

  function Apply(es: seq<Endpoint>, op: Op): seq<Endpoint> {
    match op
    case PutOp(e) => PutInto(es, e)
    case RemoveOp(url) => RemoveFrom(es, url)
    case PurgeOp(chain) => PurgeFrom(es, chain)
  }

  function Replay(ops: seq<Op>): seq<Endpoint> {
    if ops == [] then []
    else Apply(Replay(ops[..|ops| - 1]), ops[|ops| - 1])
  }

  predicate Drops(op: Op, e: Endpoint) {
    match op
    case PutOp(_) => false
    case RemoveOp(url) => url == UrlOf(e)
    case PurgeOp(chain) => chain == ChainOf(e)
  }

  /** Op k put e while its url was unknown, and nothing dropped it since. */
  ghost predicate PutAt(ops: seq<Op>, e: Endpoint, k: nat) {
    && k < |ops| && ops[k] == PutOp(e) && !HasUrl(Replay(ops[..k]), UrlOf(e))
    && forall j :: k < j < |ops| ==> !Drops(ops[j], e)
  }

  lemma PutAtFront(ops: seq<Op>, e: Endpoint, k: nat)
    requires ops != [] && k < |ops| - 1
    ensures PutAt(ops, e, k) <==> PutAt(ops[..|ops| - 1], e, k) && !Drops(ops[|ops| - 1], e)
  {
    assert ops[..|ops| - 1][..k] == ops[..k];
  }

  lemma ListedAfter(es: seq<Endpoint>, op: Op, e: Endpoint)
    requires DistinctUrls(es)
    ensures DistinctUrls(Apply(es, op))
    ensures e in Apply(es, op) <==> (e in es && !Drops(op, e)) || (op == PutOp(e) && !HasUrl(es, UrlOf(e)))
  {
    match op
    case PutOp(_) =>
    case RemoveOp(url) =>
      KeepKeepsDistinct(es, (x: Endpoint) => UrlOf(x) != url);
      KeepMembers(es, (x: Endpoint) => UrlOf(x) != url);
    case PurgeOp(chain) =>
      KeepKeepsDistinct(es, (x: Endpoint) => ChainOf(x) != chain);
      KeepMembers(es, (x: Endpoint) => ChainOf(x) != chain);
  }

  /** After any run, an endpoint is listed exactly when some Put of it met an unknown url and no Remove
      or Purge dropped it since; the urls listed are distinct. */
  lemma {:induction false} ReplayExactly(ops: seq<Op>, e: Endpoint)
    ensures DistinctUrls(Replay(ops))
    ensures e in Replay(ops) <==> exists k: nat :: PutAt(ops, e, k)
  {
    if ops != [] {
      var front, op, n := ops[..|ops| - 1], ops[|ops| - 1], |ops| - 1;
      var es := Replay(front);
      ReplayExactly(front, e);
      ListedAfter(es, op, e);
      if e in es && !Drops(op, e) {
        var k: nat :| PutAt(front, e, k);
        PutAtFront(ops, e, k);
      } else if op == PutOp(e) && !HasUrl(es, UrlOf(e)) {
        assert PutAt(ops, e, n);
      }
      if exists k: nat :: PutAt(ops, e, k) {
        var k: nat :| PutAt(ops, e, k);
        if k < n {
          PutAtFront(ops, e, k);
        }
      }
    }
  }

  /** Filtering keeps the order. */
  lemma {:induction false} KeepIndexes(es: seq<Endpoint>, p: Endpoint -> bool, i: nat, j: nat) returns (i': nat, j': nat)
    requires i < j < |Keep(es, p)|
    ensures i' < j' < |es| && es[i'] == Keep(es, p)[i] && es[j'] == Keep(es, p)[j]
  {
    var front := es[..|es| - 1];
    if j < |Keep(front, p)| {
      i', j' := KeepIndexes(front, p, i, j);
    } else {
      j' := |es| - 1;
      KeepMembers(front, p);
      assert Keep(es, p)[i] in Keep(front, p);
      i' :| i' < |front| && front[i'] == Keep(es, p)[i];
    }
  }

  /** The list is in the order of the Puts that count. */
  lemma {:induction false} FirstPutOrder(ops: seq<Op>, i: nat, j: nat, ki: nat, kj: nat)
    requires i < j < |Replay(ops)|
    requires PutAt(ops, Replay(ops)[i], ki) && PutAt(ops, Replay(ops)[j], kj)
    ensures ki < kj
  {
    var front, op, n := ops[..|ops| - 1], ops[|ops| - 1], |ops| - 1;
    var es, x, y := Replay(front), Replay(ops)[i], Replay(ops)[j];
    assert Replay(ops) == Apply(es, op);
    ReplayExactly(front, y);
    if ki < n && kj < n {
      PutAtFront(ops, x, ki);
      PutAtFront(ops, y, kj);
      var i', j' := i, j;
      match op {
        case PutOp(_) =>
          assert y in es && (j == |es| ==> op == PutOp(y));
        case RemoveOp(url) => i', j' := KeepIndexes(es, (e: Endpoint) => UrlOf(e) != url, i, j);
        case PurgeOp(chain) => i', j' := KeepIndexes(es, (e: Endpoint) => ChainOf(e) != chain, i, j);
      }
      FirstPutOrder(front, i', j', ki, kj);
    }
  }
}
