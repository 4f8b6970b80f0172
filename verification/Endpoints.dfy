/** Endpoint states and how lists of them are merged: internal/core/endpoint/provider.go,
    utils/helpers/slice.go and the merge functions of internal/app/agent/service/endpoint_service.go. */
module Endpoints {
  import opened Wrappers
  import opened Lists
  import Texts

  datatype Value = Uint(n: nat) | Url(u: string) | Other(text: string)

  type State = map<string, Value>

  /** Every constructor sets a URL. */
  type Endpoint = s: State | "url" in s && s["url"].Url? witness map["url" := Url("")]

  function UrlOf(e: Endpoint): string {
    e["url"].u
  }

  predicate HasChain(e: Endpoint) {
    "chain_id" in e && e["chain_id"].Uint?
  }

  function ChainOf(e: Endpoint): nat {
    if HasChain(e) then e["chain_id"].n else 0
  }

  // ---- Merge ----

  function MergeStates(vs: seq<State>): State {
    if vs == [] then map[] else MergeStates(vs[..|vs| - 1]) + vs[|vs| - 1]
  }

  method Merge(vs: seq<State>) returns (state: State)
    ensures state == MergeStates(vs)
  {
    var result: seq<State> := [];
    for i := 0 to |vs|
      invariant result == vs[..i]
    {
      result := result + [vs[i]];
    }
    assert result == vs;
    state := map[];
    for i := 0 to |result|
      invariant state == MergeStates(result[..i])
    {
      assert result[..i + 1][..i] == result[..i];
      state := state + result[i];
    }
    assert result[..|result|] == result;
  }

  predicate LastDefines(vs: seq<State>, a: string, i: nat) {
    i < |vs| && a in vs[i] && forall k :: i < k < |vs| ==> a !in vs[k]
  }

  predicate NoneDefines(vs: seq<State>, a: string) {
    forall i :: 0 <= i < |vs| ==> a !in vs[i]
  }

  lemma {:induction false} DefinedExactly(vs: seq<State>, a: string)
    ensures a !in MergeStates(vs) <==> NoneDefines(vs, a)
  {
    if vs != [] {
      var front, last := vs[..|vs| - 1], vs[|vs| - 1];
      DefinedExactly(front, a);
      assert vs == front + [last];
      assert NoneDefines(vs, a) <==> NoneDefines(front, a) && a !in last;
    }
  }

  /** Each attribute of a merge comes from the last state that defines it. */
  lemma {:induction false} LastDefinitionWins(vs: seq<State>, a: string, i: nat)
    requires LastDefines(vs, a, i)
    ensures a in MergeStates(vs) && MergeStates(vs)[a] == vs[i][a]
  {
    var front := vs[..|vs| - 1];
    if i < |front| {
      assert a !in vs[|vs| - 1];
      LastDefinitionWins(front, a, i);
    }
  }

  function MergeEndpoint(a: Endpoint, b: Endpoint): Endpoint {
    a + b
  }

  lemma PairMerge(a: State, b: State)
    ensures MergeStates([a, b]) == a + b
  {
    assert [a, b][..1] == [a] && [a][..0] == [];
    assert MergeStates([a]) == a;
  }

  // ---- MergeSlicesBy ----

  function Flatten<T>(arrays: seq<seq<T>>): seq<T> {
    if arrays == [] then [] else Flatten(arrays[..|arrays| - 1]) + arrays[|arrays| - 1]
  }

  /** The elements under one id, combined from the left. */
  function FoldOf<T>(f: (T, T) -> T, unique: T -> string, xs: seq<T>, id: string): Option<T> {
    if xs == [] then None
    else
      var acc, x := FoldOf(f, unique, xs[..|xs| - 1], id), xs[|xs| - 1];
      if unique(x) != id then acc
      else match acc
        case None => Some(x)
        case Some(a) => Some(f(a, x))
  }

  ghost function IdsOf<T>(unique: T -> string, xs: seq<T>): set<string> {
    set x | x in xs :: unique(x)
  }

  /** x is what the elements under the id are combined to. */
  ghost predicate IsFold<T>(f: (T, T) -> T, unique: T -> string, xs: seq<T>, id: string, x: T) {
    FoldOf(f, unique, xs, id) == Some(x)
  }

  /** `merged` has one element per id, in the order of `keys`, each the fold of its id. */
  ghost predicate IsMerge<T>(f: (T, T) -> T, unique: T -> string, xs: seq<T>, keys: seq<string>, merged: seq<T>) {
    && |keys| == |merged| && Distinct(keys)
    && (forall id :: id in keys <==> FoldOf(f, unique, xs, id).Some?)
    && forall i :: 0 <= i < |keys| ==> FoldOf(f, unique, xs, keys[i]) == Some(merged[i])
  }

  ghost predicate Tracks<T>(f: (T, T) -> T, unique: T -> string, xs: seq<T>, known: map<string, T>) {
    forall id :: FoldOf(f, unique, xs, id) == if id in known then Some(known[id]) else None
  }

  lemma TracksSnoc<T>(f: (T, T) -> T, unique: T -> string, xs: seq<T>, known: map<string, T>, x: T)
    requires Tracks(f, unique, xs, known)
    ensures Tracks(f, unique, xs + [x], known[unique(x) := if unique(x) in known then f(known[unique(x)], x) else x])
  {
    assert (xs + [x])[..|xs|] == xs;
  }

  lemma {:induction false} DistinctCount(keys: seq<string>)
    requires Distinct(keys)
    ensures |set k | k in keys| == |keys|
  {
    if keys != [] {
      var front, last := keys[..|keys| - 1], keys[|keys| - 1];
      DistinctCount(front);
      assert (set k | k in keys) == (set k | k in front) + {last};
    }
  }

  lemma {:induction false} FoldedExactly<T>(f: (T, T) -> T, unique: T -> string, xs: seq<T>, id: string)
    ensures FoldOf(f, unique, xs, id).Some? <==> exists x :: x in xs && unique(x) == id
  {
    if xs != [] {
      var front, last := xs[..|xs| - 1], xs[|xs| - 1];
      FoldedExactly(f, unique, front, id);
      assert xs == front + [last];
    }
  }

  /** A merge has as many elements as there are ids, and they are the folds. */
  lemma MergedElements<T>(f: (T, T) -> T, unique: T -> string, xs: seq<T>, keys: seq<string>, merged: seq<T>)
    requires IsMerge(f, unique, xs, keys, merged)
    ensures |merged| == |IdsOf(unique, xs)|
    ensures forall x :: x in merged <==> exists id :: IsFold(f, unique, xs, id, x)
  {
    var ids := IdsOf(unique, xs);
    forall id
      ensures id in keys <==> id in ids
    {
      FoldedExactly(f, unique, xs, id);
    }
    assert (set k | k in keys) == ids;
    DistinctCount(keys);
    forall x | x in merged
      ensures exists id :: IsFold(f, unique, xs, id, x)
    {
      var i :| 0 <= i < |merged| && merged[i] == x;
      assert IsFold(f, unique, xs, keys[i], x);
    }
    forall x, id | IsFold(f, unique, xs, id, x)
      ensures x in merged
    {
      assert id in keys;
      var i :| 0 <= i < |keys| && keys[i] == id;
      assert merged[i] == x;
    }
  }

  /** The first loops: what is known under each id. */
  method Collect<T>(f: (T, T) -> T, unique: T -> string, arrays: seq<seq<T>>) returns (known: map<string, T>)
    ensures Tracks(f, unique, Flatten(arrays), known)
  {
    known := map[];
    for i := 0 to |arrays|
      invariant Tracks(f, unique, Flatten(arrays[..i]), known)
    {
      ghost var before := Flatten(arrays[..i]);
      assert before + arrays[i][..0] == before;
      for j := 0 to |arrays[i]|
        invariant Tracks(f, unique, before + arrays[i][..j], known)
      {
        var item := arrays[i][j];
        TracksSnoc(f, unique, before + arrays[i][..j], known, item);
        assert before + arrays[i][..j] + [item] == before + arrays[i][..j + 1];
        var id := unique(item);
        if id in known {
          known := known[id := f(known[id], item)];
        } else {
          known := known[id := item];
        }
      }
      assert arrays[i][..|arrays[i]|] == arrays[i] && arrays[..i + 1][..i] == arrays[..i];
    }
    assert arrays[..|arrays|] == arrays;
  }

  /** The last loop ranges over the map in any order; so does the choice here. */
  method Gather<T>(known: map<string, T>) returns (merged: seq<T>, ghost keys: seq<string>)
    ensures |keys| == |merged| && Distinct(keys)
    ensures forall id :: id in keys <==> id in known
    ensures forall i :: 0 <= i < |keys| ==> known[keys[i]] == merged[i]
    ensures |merged| == |known| && forall x :: x in merged <==> exists id :: id in known && known[id] == x
  {
    merged, keys := [], [];
    var left := known.Keys;
    while left != {}
      invariant left <= known.Keys
      invariant |keys| == |merged| && Distinct(keys)
      invariant forall id :: id in keys <==> id in known && id !in left
      invariant forall i :: 0 <= i < |keys| ==> known[keys[i]] == merged[i]
    {
      var key :| key in left;
      merged, keys := merged + [known[key]], keys + [key];
      left := left - {key};
    }
    DistinctCount(keys);
    assert (set k | k in keys) == known.Keys;
    forall id | id in known
      ensures known[id] in merged
    {
      var i :| 0 <= i < |keys| && keys[i] == id;
      assert merged[i] == known[id];
    }
  }

  method MergeSlicesBy<T>(f: (T, T) -> T, unique: T -> string, arrays: seq<seq<T>>) returns (merged: seq<T>, ghost keys: seq<string>)
    ensures IsMerge(f, unique, Flatten(arrays), keys, merged)
    ensures |merged| == |IdsOf(unique, Flatten(arrays))|
    ensures forall x :: x in merged <==> exists id :: IsFold(f, unique, Flatten(arrays), id, x)
  {
    var known := Collect(f, unique, arrays);
    merged, keys := Gather(known);
    MergedElements(f, unique, Flatten(arrays), keys, merged);
  }

  lemma SameKeysSameLength(a: seq<string>, b: seq<string>)
    requires Distinct(a) && Distinct(b) && forall k :: k in a <==> k in b
    ensures |a| == |b|
  {
    DistinctCount(a);
    DistinctCount(b);
    assert (set k | k in a) == (set k | k in b);
  }

  /** Whatever order the map is read in, the merged elements are the same. */
  lemma OrderDoesNotMatter<T>(f: (T, T) -> T, unique: T -> string, xs: seq<T>, ks: seq<string>, ms: seq<T>, ks': seq<string>, ms': seq<T>)
    requires IsMerge(f, unique, xs, ks, ms) && IsMerge(f, unique, xs, ks', ms')
    ensures |ms| == |ms'| && forall x :: x in ms <==> x in ms'
  {
    SameKeysSameLength(ks, ks');
    forall i | 0 <= i < |ks|
      ensures ms[i] in ms'
    {
      assert ks[i] in ks';
      var j :| 0 <= j < |ks'| && ks'[j] == ks[i];
      assert Some(ms'[j]) == Some(ms[i]);
    }
    forall j | 0 <= j < |ks'|
      ensures ms'[j] in ms
    {
      assert ks'[j] in ks;
      var i :| 0 <= i < |ks| && ks[i] == ks'[j];
      assert Some(ms'[j]) == Some(ms[i]);
    }
  }

  // ---- merging endpoints ----

  /** Chain id and URL, printed with nothing between. */
  function UniqueId(e: Endpoint): string {
    Texts.Decimal(ChainOf(e)) + UrlOf(e)
  }

  /** The chain of a continues to that of b with the digits its URL has before the URL of b. */
  predicate Overlaps(a: Endpoint, b: Endpoint) {
    var x, y := Texts.Decimal(ChainOf(a)), Texts.Decimal(ChainOf(b));
    x <= y && UrlOf(a) == y[|x|..] + UrlOf(b)
  }

  lemma OverlapSharesId(a: Endpoint, b: Endpoint)
    ensures |Texts.Decimal(ChainOf(a))| <= |Texts.Decimal(ChainOf(b))| ==> (UniqueId(a) == UniqueId(b) <==> Overlaps(a, b))
  {
    var x, y := Texts.Decimal(ChainOf(a)), Texts.Decimal(ChainOf(b));
    if |x| <= |y| && UniqueId(a) == UniqueId(b) {
      var text := UniqueId(a);
      assert x == text[..|x|] && y == text[..|y|];
      assert UrlOf(a) == text[|x|..] && UrlOf(b) == text[|y|..];
      assert text[|x|..] == y[|x|..] + text[|y|..];
    }
    if Overlaps(a, b) {
      assert y == x + y[|x|..];
      assert x + (y[|x|..] + UrlOf(b)) == y + UrlOf(b);
    }
  }

  /** Two endpoints share an id exactly when one overlaps the other. */
  lemma IdsCoincideExactly(a: Endpoint, b: Endpoint)
    ensures UniqueId(a) == UniqueId(b) <==> Overlaps(a, b) || Overlaps(b, a)
  {
    OverlapSharesId(a, b);
    OverlapSharesId(b, a);
  }

  /** An overlap within a chain is no mistake: the URLs are the same too. One between chains needs a URL
      that begins with a digit. */
  lemma OverlapShape(a: Endpoint, b: Endpoint)
    requires Overlaps(a, b)
    ensures ChainOf(a) == ChainOf(b) <==> UrlOf(a) == UrlOf(b)
    ensures ChainOf(a) != ChainOf(b) ==> UrlOf(a) != [] && Texts.IsDigit(UrlOf(a)[0])
  {
    var x, y := Texts.Decimal(ChainOf(a)), Texts.Decimal(ChainOf(b));
    Texts.ValueOfDecimal(ChainOf(a));
    Texts.ValueOfDecimal(ChainOf(b));
    if |x| < |y| {
      assert UrlOf(a)[0] == y[|x|];
      assert |UrlOf(a)| > |UrlOf(b)|;
    } else {
      assert x == y;
      assert UrlOf(a) == UrlOf(b);
    }
  }

  /** Ids tell endpoints apart when no URL begins with a digit. */
  lemma UniqueIdsAreExact(a: Endpoint, b: Endpoint)
    requires UrlOf(a) == [] || !Texts.IsDigit(UrlOf(a)[0])
    requires UrlOf(b) == [] || !Texts.IsDigit(UrlOf(b)[0])
    ensures UniqueId(a) == UniqueId(b) <==> ChainOf(a) == ChainOf(b) && UrlOf(a) == UrlOf(b)
  {
    if UniqueId(a) == UniqueId(b) {
      IdsCoincideExactly(a, b);
      if Overlaps(a, b) {
        OverlapShape(a, b);
      } else {
        OverlapShape(b, a);
      }
    }
  }

  function Made(chain: nat, url: string): Endpoint {
    map["chain_id" := Uint(chain), "url" := Url(url)]
  }

  /** A URL that begins with a digit is merged with one of another chain. */
  lemma DigitUrlsCollide()
    ensures UniqueId(Made(1, "1.example")) == UniqueId(Made(11, ".example"))
  {
    assert Texts.Decimal(1) == "1";
    assert Texts.Decimal(11) == Texts.Decimal(1) + "1" == "11";
  }

  type Place = (nat, string)

  function PlaceOf(e: Endpoint): Place {
    (ChainOf(e), UrlOf(e))
  }

  function IdAt(p: Place): string {
    Texts.Decimal(p.0) + p.1
  }

  predicate OneIdEach(ps: set<Place>) {
    forall p, q :: p in ps && q in ps && IdAt(p) == IdAt(q) ==> p == q
  }

  function IdsAt(ps: set<Place>): set<string> {
    set p | p in ps :: IdAt(p)
  }

  function Places(xs: seq<Endpoint>): set<Place> {
    set x | x in xs :: PlaceOf(x)
  }

  lemma OneMorePlace(ps: set<Place>, p: Place)
    requires p !in ps
    ensures IdsAt(ps + {p}) == IdsAt(ps) + {IdAt(p)}
    ensures OneIdEach(ps + {p}) <==> OneIdEach(ps) && IdAt(p) !in IdsAt(ps)
  {
  }

  /** There are as many ids as places exactly when no two places share an id. */
  lemma {:induction false} IdCount(ps: set<Place>)
    ensures |IdsAt(ps)| <= |ps| && (|IdsAt(ps)| == |ps| <==> OneIdEach(ps))
  {
    if ps != {} {
      var p :| p in ps;
      var rest := ps - {p};
      assert ps == rest + {p};
      IdCount(rest);
      OneMorePlace(rest, p);
    }
  }

  /** No endpoint overlaps one of another chain. */
  predicate NoOverlap(xs: seq<Endpoint>) {
    forall a, b :: a in xs && b in xs && ChainOf(a) != ChainOf(b) ==> !Overlaps(a, b)
  }

  lemma SharedIdOverlaps(a: Endpoint, b: Endpoint)
    requires UniqueId(a) == UniqueId(b)
    ensures PlaceOf(a) == PlaceOf(b) || (ChainOf(a) != ChainOf(b) && (Overlaps(a, b) || Overlaps(b, a)))
  {
    IdsCoincideExactly(a, b);
    if Overlaps(a, b) {
      OverlapShape(a, b);
    } else {
      OverlapShape(b, a);
    }
  }

  lemma OneIdEachExactly(xs: seq<Endpoint>)
    ensures OneIdEach(Places(xs)) <==> NoOverlap(xs)
  {
    forall a, b | a in xs && b in xs && ChainOf(a) != ChainOf(b) && Overlaps(a, b)
      ensures !OneIdEach(Places(xs))
    {
      IdsCoincideExactly(a, b);
      assert PlaceOf(a) in Places(xs) && PlaceOf(b) in Places(xs) && IdAt(PlaceOf(a)) == IdAt(PlaceOf(b));
    }
    forall p, q | NoOverlap(xs) && p in Places(xs) && q in Places(xs) && IdAt(p) == IdAt(q)
      ensures p == q
    {
      var a :| a in xs && PlaceOf(a) == p;
      var b :| b in xs && PlaceOf(b) == q;
      SharedIdOverlaps(a, b);
    }
  }

  lemma IdsOfPlaces(xs: seq<Endpoint>)
    ensures IdsOf(UniqueId, xs) == IdsAt(Places(xs))
  {
    assert forall x :: x in xs ==> PlaceOf(x) in Places(xs) && UniqueId(x) == IdAt(PlaceOf(x));
  }

  /** A merge has one element for each chain and URL exactly when no endpoint overlaps one of another
      chain; otherwise it joins endpoints of different chains. */
  lemma MergesAcrossExactly(xs: seq<Endpoint>, keys: seq<string>, merged: seq<Endpoint>)
    requires IsMerge(MergeEndpoint, UniqueId, xs, keys, merged)
    ensures |merged| == |Places(xs)| <==> NoOverlap(xs)
  {
    MergedElements(MergeEndpoint, UniqueId, xs, keys, merged);
    IdsOfPlaces(xs);
    IdCount(Places(xs));
    OneIdEachExactly(xs);
  }

  function WithId(xs: seq<Endpoint>, id: string): (r: seq<Endpoint>)
    ensures forall e :: e in r ==> e in xs && UniqueId(e) == id
  {
    if xs == [] then []
    else
      var front, last := WithId(xs[..|xs| - 1], id), xs[|xs| - 1];
      if UniqueId(last) == id then front + [last] else front
  }

  ghost predicate FoldsTo(fold: Option<Endpoint>, all: seq<Endpoint>) {
    if all == [] then fold == None else fold.Some? && fold.value == MergeStates(all)
  }

  lemma FoldsToMore(fold: Option<Endpoint>, all: seq<Endpoint>, last: Endpoint)
    requires FoldsTo(fold, all)
    ensures FoldsTo(Some(if fold.None? then last else MergeEndpoint(fold.value, last)), all + [last])
  {
    var more: seq<State> := all + [last];
    assert more[..|all|] == all;
    assert MergeStates([]) + last == last;
  }

  lemma FoldStep<T>(f: (T, T) -> T, unique: T -> string, xs: seq<T>, id: string)
    requires xs != []
    ensures var fold, last := FoldOf(f, unique, xs[..|xs| - 1], id), xs[|xs| - 1];
      FoldOf(f, unique, xs, id) ==
        if unique(last) != id then fold else Some(if fold.None? then last else f(fold.value, last))
  {
  }

  /** The fold under one id is the merge of all its states in order. */
  lemma {:induction false} FoldIsMerge(xs: seq<Endpoint>, id: string)
    ensures FoldsTo(FoldOf<Endpoint>(MergeEndpoint, UniqueId, xs, id), WithId(xs, id))
  {
    if xs != [] {
      var front, last := xs[..|xs| - 1], xs[|xs| - 1];
      FoldIsMerge(front, id);
      FoldStep<Endpoint>(MergeEndpoint, UniqueId, xs, id);
      FoldsToMore(FoldOf<Endpoint>(MergeEndpoint, UniqueId, front, id), WithId(front, id), last);
    }
  }

  /** Main result: each attribute of a merged endpoint is the one given last, over all lists, under its id. */
  lemma MergedAttributes(xs: seq<Endpoint>, keys: seq<string>, merged: seq<Endpoint>, i: nat, a: string)
    requires IsMerge(MergeEndpoint, UniqueId, xs, keys, merged) && i < |merged|
    ensures a !in merged[i] <==> NoneDefines(WithId(xs, keys[i]), a)
    ensures forall k: nat :: LastDefines(WithId(xs, keys[i]), a, k) ==> a in merged[i] && merged[i][a] == WithId(xs, keys[i])[k][a]
  {
    FoldIsMerge(xs, keys[i]);
    DefinedExactly(WithId(xs, keys[i]), a);
    forall k: nat | LastDefines(WithId(xs, keys[i]), a, k)
      ensures a in merged[i] && merged[i][a] == WithId(xs, keys[i])[k][a]
    {
      LastDefinitionWins(WithId(xs, keys[i]), a, k);
    }
  }

  /** A merge of endpoints with a chain keeps the id they share. */
  lemma MergedKeepsId(xs: seq<Endpoint>, keys: seq<string>, merged: seq<Endpoint>, i: nat)
    requires IsMerge(MergeEndpoint, UniqueId, xs, keys, merged) && i < |merged|
    requires forall e :: e in xs ==> HasChain(e)
    ensures UniqueId(merged[i]) == keys[i] && HasChain(merged[i])
    ensures exists e :: e in xs && ChainOf(merged[i]) == ChainOf(e) && UrlOf(merged[i]) == UrlOf(e)
  {
    var all := WithId(xs, keys[i]);
    FoldIsMerge(xs, keys[i]);
    var last := all[|all| - 1];
    assert last in all;
    assert merged[i] == MergeStates(all[..|all| - 1]) + last;
  }

  /** Lists whose endpoints all carry one chain merge into endpoints of that chain with distinct URLs. */
  lemma MergedUrlsAreDistinct(xs: seq<Endpoint>, keys: seq<string>, merged: seq<Endpoint>, chain: nat)
    requires IsMerge(MergeEndpoint, UniqueId, xs, keys, merged)
    requires forall e :: e in xs ==> HasChain(e) && ChainOf(e) == chain
    ensures forall i :: 0 <= i < |merged| ==> ChainOf(merged[i]) == chain
    ensures forall i, j :: 0 <= i < j < |merged| ==> UrlOf(merged[i]) != UrlOf(merged[j])
  {
    forall i | 0 <= i < |merged|
      ensures ChainOf(merged[i]) == chain && UniqueId(merged[i]) == keys[i]
    {
      MergedKeepsId(xs, keys, merged, i);
    }
  }
}
