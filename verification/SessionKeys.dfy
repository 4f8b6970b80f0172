/** The session keys of internal/core/endpoint/websocket_client.go: a digest of the sorted ids. */
module SessionKeys {
  import opened JsonRpc

  /** Go's order on strings. */
  predicate Leq(a: string, b: string) {
    a == [] || (b != [] && (a[0] < b[0] || (a[0] == b[0] && Leq(a[1..], b[1..]))))
  }

  lemma {:induction false} LeqTotal(a: string, b: string)
    ensures Leq(a, b) || Leq(b, a)
    ensures Leq(a, b) && Leq(b, a) ==> a == b
  {
    if a != [] && b != [] {
      LeqTotal(a[1..], b[1..]);
      assert a == [a[0]] + a[1..] && b == [b[0]] + b[1..];
    }
  }

  lemma {:induction false} LeqTransitive(a: string, b: string, c: string)
    requires Leq(a, b) && Leq(b, c)
    ensures Leq(a, c)
  {
    if a != [] && a[0] == b[0] && b[0] == c[0] {
      LeqTransitive(a[1..], b[1..], c[1..]);
    }
  }

  predicate InOrder(ids: seq<string>) {
    forall i, j :: 0 <= i < j < |ids| ==> Leq(ids[i], ids[j])
  }

  function Insert(ids: seq<string>, id: string): seq<string> {
    if ids == [] then [id]
    else if Leq(id, ids[0]) then [id] + ids
    else [ids[0]] + Insert(ids[1..], id)
  }

  function Sort(ids: seq<string>): seq<string> {
    if ids == [] then [] else Insert(Sort(ids[1..]), ids[0])
  }

  lemma {:induction false} InsertKeeps(ids: seq<string>, id: string)
    ensures multiset(Insert(ids, id)) == multiset(ids) + multiset{id}
    ensures forall x :: x in Insert(ids, id) <==> x in ids || x == id
  {
    if ids != [] {
      InsertKeeps(ids[1..], id);
      assert ids == [ids[0]] + ids[1..];
    }
  }

  lemma LeastFirst(x: string, rest: seq<string>)
    requires InOrder(rest) && forall y :: y in rest ==> Leq(x, y)
    ensures InOrder([x] + rest)
  {
  }

  lemma {:induction false} InsertSorts(ids: seq<string>, id: string)
    requires InOrder(ids)
    ensures InOrder(Insert(ids, id))
  {
    if ids != [] {
      LeqTotal(id, ids[0]);
      if Leq(id, ids[0]) {
        forall y | y in ids
          ensures Leq(id, y)
        {
          if y != ids[0] {
            LeqTransitive(id, ids[0], y);
          }
        }
        LeastFirst(id, ids);
      } else {
        InsertSorts(ids[1..], id);
        InsertKeeps(ids[1..], id);
        LeastFirst(ids[0], Insert(ids[1..], id));
      }
    }
  }

  lemma {:induction false} SortSorts(ids: seq<string>)
    ensures InOrder(Sort(ids)) && multiset(Sort(ids)) == multiset(ids)
  {
    if ids != [] {
      SortSorts(ids[1..]);
      InsertSorts(Sort(ids[1..]), ids[0]);
      InsertKeeps(Sort(ids[1..]), ids[0]);
      assert ids == [ids[0]] + ids[1..];
    }
  }

  lemma HeadIsLeast(a: seq<string>, id: string)
    requires InOrder(a) && a != [] && id in multiset(a)
    ensures Leq(a[0], id)
  {
    assert id in a;
    LeqTotal(a[0], a[0]);
  }

  lemma TailMultiset(a: seq<string>)
    requires a != []
    ensures multiset(a[1..]) == multiset(a) - multiset{a[0]}
  {
    assert a == [a[0]] + a[1..];
  }

  /** Two sorted lists of the same ids are the same list. */
  lemma {:induction false} SortedIsUnique(a: seq<string>, b: seq<string>)
    requires InOrder(a) && InOrder(b) && multiset(a) == multiset(b)
    ensures a == b
  {
    assert |multiset(a)| == |multiset(b)|;
    if a != [] {
      assert a[0] in multiset(a) && b[0] in multiset(b);
      HeadIsLeast(a, b[0]);
      HeadIsLeast(b, a[0]);
      LeqTotal(a[0], b[0]);
      TailMultiset(a);
      TailMultiset(b);
      SortedIsUnique(a[1..], b[1..]);
      assert a == [a[0]] + a[1..] && b == [b[0]] + b[1..];
    }
  }

  function Join(ids: seq<string>): string {
    if ids == [] then "" else ids[0] + Join(ids[1..])
  }

  /** `short` stands for the digest `helpers.Short`. */
  function Key(short: string -> string, ids: seq<string>): string {
    short(Join(Sort(ids)))
  }

  function RequestKey(short: string -> string, data: seq<Sealed>): string {
    Key(short, seq(|data|, i requires 0 <= i < |data| => data[i].id))
  }

  function ResultKey(short: string -> string, results: seq<Reply>): string {
    Key(short, seq(|results|, i requires 0 <= i < |results| => Sprint(results[i].id)))
  }

  /** A batch reply in any order has the key of its request. */
  lemma ReplyOrderDoesNotMatter(short: string -> string, data: seq<Sealed>, results: seq<Reply>)
    requires multiset(seq(|data|, i requires 0 <= i < |data| => data[i].id))
      == multiset(seq(|results|, i requires 0 <= i < |results| => Sprint(results[i].id)))
    ensures RequestKey(short, data) == ResultKey(short, results)
  {
    var a := seq(|data|, i requires 0 <= i < |data| => data[i].id);
    var b := seq(|results|, i requires 0 <= i < |results| => Sprint(results[i].id));
    SortSorts(a);
    SortSorts(b);
    SortedIsUnique(Sort(a), Sort(b));
  }

  /** Joining without a separator forgets where one id ends: any two ids in order and their concatenation
      share their key, whatever the digest. */
  lemma SplitIdsCollide(short: string -> string, x: string, y: string)
    requires Leq(x, y)
    ensures Key(short, [x, y]) == Key(short, [x + y])
  {
    assert [x, y][1..] == [y] && [y][1..] == [] && [x + y][1..] == [];
    assert Sort([y]) == [y] && Sort([x, y]) == [x, y] && Sort([x + y]) == [x + y];
    assert Join([y]) == y && Join([x, y]) == x + y == Join([x + y]);
  }

  /** So two batches of the same size can share every key. */
  lemma JoinedIdsCollide(short: string -> string)
    ensures Key(short, ["1", "23"]) == Key(short, ["12", "3"])
  {
    SplitIdsCollide(short, "1", "23");
    SplitIdsCollide(short, "12", "3");
    assert "1" + "23" == "12" + "3";
  }

  function Widths(ids: seq<string>): (ws: seq<nat>)
    ensures |ws| == |ids|
  {
    seq(|ids|, i requires 0 <= i < |ids| => |ids[i]|)
  }

  lemma SameFirst(x: string, r: string, y: string, t: string)
    requires x + r == y + t
    ensures x <= y || y <= x
    ensures |x| == |y| || x == y ==> x == y && r == t
  {
    var text := x + r;
    assert x == text[..|x|] && r == text[|x|..];
    assert y == text[..|y|] && t == text[|y|..];
  }

  lemma {:induction false} JoinOfWidths(a: seq<string>, b: seq<string>)
    requires Join(a) == Join(b) && Widths(a) == Widths(b)
    ensures a == b
  {
    assert |a| == |Widths(a)| == |Widths(b)| == |b|;
    if a == [] {
      assert b == [];
    } else {
      assert |a[0]| == Widths(a)[0] == Widths(b)[0] == |b[0]|;
      SameFirst(a[0], Join(a[1..]), b[0], Join(b[1..]));
      assert Widths(a[1..]) == Widths(a)[1..] == Widths(b)[1..] == Widths(b[1..]);
      JoinOfWidths(a[1..], b[1..]);
      assert a == [a[0]] + a[1..] && b == [b[0]] + b[1..];
    }
  }

  /** What a key forgets is exactly where the sorted ids end: with a digest without collisions, two lists
      that share their key bear the same ids exactly when their sorted ids have the same widths. */
  lemma KeyForgetsWidths(short: string -> string, a: seq<string>, b: seq<string>)
    requires forall x, y :: short(x) == short(y) ==> x == y
    ensures multiset(a) == multiset(b) <==> Key(short, a) == Key(short, b) && Widths(Sort(a)) == Widths(Sort(b))
  {
    SortSorts(a);
    SortSorts(b);
    if multiset(a) == multiset(b) {
      SortedIsUnique(Sort(a), Sort(b));
    }
    if Key(short, a) == Key(short, b) && Widths(Sort(a)) == Widths(Sort(b)) {
      assert Join(Sort(a)) == Join(Sort(b));
      JoinOfWidths(Sort(a), Sort(b));
    }
  }

  /** No id is empty, and none is a proper prefix of another. */
  predicate PrefixFree(ids: seq<string>) {
    && (forall i :: 0 <= i < |ids| ==> ids[i] != "")
    && forall i, j :: 0 <= i < |ids| && 0 <= j < |ids| && ids[i] <= ids[j] ==> ids[i] == ids[j]
  }

  lemma JoinIsEmpty(a: seq<string>, all: seq<string>)
    requires PrefixFree(all) && forall x :: x in a ==> x in all
    ensures Join(a) == "" <==> a == []
    ensures a != [] ==> a[0] in all
  {
    if a != [] {
      assert a[0] in all;
    }
  }

  lemma {:induction false} JoinPrefixFree(a: seq<string>, b: seq<string>, all: seq<string>)
    requires PrefixFree(all) && (forall x :: x in a ==> x in all) && (forall x :: x in b ==> x in all)
    requires Join(a) == Join(b)
    ensures a == b
  {
    JoinIsEmpty(a, all);
    JoinIsEmpty(b, all);
    if a != [] && b != [] {
      SameFirst(a[0], Join(a[1..]), b[0], Join(b[1..]));
      JoinPrefixFree(a[1..], b[1..], all);
      assert a == [a[0]] + a[1..] && b == [b[0]] + b[1..];
    }
  }

  lemma SortKeepsMembers(ids: seq<string>)
    ensures forall x :: x in Sort(ids) <==> x in ids
  {
    SortSorts(ids);
    forall x
      ensures x in Sort(ids) <==> x in ids
    {
      assert x in multiset(Sort(ids)) <==> x in multiset(ids);
    }
  }

  /** With prefix-free ids and a digest without collisions, equal keys mean the same ids. */
  lemma PrefixFreeKeysAreExact(short: string -> string, a: seq<string>, b: seq<string>)
    requires forall x, y :: short(x) == short(y) ==> x == y
    requires PrefixFree(a + b)
    ensures Key(short, a) == Key(short, b) <==> multiset(a) == multiset(b)
  {
    SortSorts(a);
    SortSorts(b);
    SortKeepsMembers(a);
    SortKeepsMembers(b);
    if Key(short, a) == Key(short, b) {
      assert Join(Sort(a)) == Join(Sort(b));
      JoinPrefixFree(Sort(a), Sort(b), a + b);
    }
    if multiset(a) == multiset(b) {
      SortedIsUnique(Sort(a), Sort(b));
    }
  }

  /** Two single requests share a key exactly when they have one id, whatever its form. */
  lemma SingleIdKeysAreExact(short: string -> string, x: string, y: string)
    requires forall u, v :: short(u) == short(v) ==> u == v
    ensures Key(short, [x]) == Key(short, [y]) <==> x == y
  {
    assert [x][1..] == [] && [y][1..] == [];
    assert Sort([x]) == [x] && Sort([y]) == [y];
    assert Join([x]) == x && Join([y]) == y;
  }

  /** So a shared key means shared ids when the ids are prefix-free together, or both lists are single. */
  lemma SharedKeyMeansSharedIds(short: string -> string, a: seq<string>, b: seq<string>)
    requires forall x, y :: short(x) == short(y) ==> x == y
    requires Key(short, a) == Key(short, b)
    requires PrefixFree(a + b) || |a| == |b| == 1
    ensures multiset(a) == multiset(b)
  {
    if |a| == |b| == 1 {
      assert a == [a[0]] && b == [b[0]];
      SingleIdKeysAreExact(short, a[0], b[0]);
    } else {
      PrefixFreeKeysAreExact(short, a, b);
    }
  }
}
