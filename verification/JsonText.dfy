/** JSON texts, as far as quotes and brackets go: enough to see that no JSON text continues another one
    after a colon. */
module JsonText {
  import Texts

  /** Where a scanner stands: between tokens at some depth of open brackets, in a string, after a
      backslash of a string, or past an error. */
  datatype Scan = Between(depth: nat) | InString(depth: nat) | Escaped(depth: nat) | Bad

  function Step(s: Scan, c: char): Scan {
    match s
    case Between(d) =>
      if c == '"' then InString(d)
      else if c == '[' || c == '{' then Between(d + 1)
      else if c == ']' || c == '}' then (if d > 0 then Between(d - 1) else Bad)
      else if c == ':' then (if d > 0 then s else Bad)
      else if c == '\\' then Bad
      else s
    case InString(d) => if c == '"' then Between(d) else if c == '\\' then Escaped(d) else s
    case Escaped(d) => InString(d)
    case Bad => Bad
  }

  function Scanned(s: Scan, text: string): Scan
    decreases text
  {
    if text == "" then s else Scanned(Step(s, text[0]), text[1..])
  }

  /** Every JSON text is so: its strings are closed, its brackets balance, a colon stands in an object
      or a string, and a backslash in a string. */
  predicate IsJson(text: string) {
    text != "" && Scanned(Between(0), text) == Between(0)
  }

  lemma {:induction false} ScannedConcat(s: Scan, a: string, b: string)
    ensures Scanned(s, a + b) == Scanned(Scanned(s, a), b)
    decreases a
  {
    if a == "" {
      assert a + b == b;
    } else {
      assert (a + b)[0] == a[0] && (a + b)[1..] == a[1..] + b;
      ScannedConcat(Step(s, a[0]), a[1..], b);
    }
  }

  lemma {:induction false} StaysBad(text: string)
    ensures Scanned(Bad, text) == Bad
  {
    if text != "" {
      StaysBad(text[1..]);
    }
  }

  /** Of a scanner in a string and one between tokens, at most one ends between tokens. */
  lemma {:induction false} Opposed(text: string, d: nat, e: nat)
    ensures !(Scanned(InString(d), text).Between? && Scanned(Between(e), text).Between?)
  {
    if text != "" {
      var c, rest := text[0], text[1..];
      if c == '"' {
        Opposed(rest, e, d);
      } else if c == '\\' || Step(Between(e), c) == Bad {
        StaysBad(rest);
      } else {
        Opposed(rest, d, Step(Between(e), c).depth);
      }
    }
  }

  function Deeper(s: Scan, d: nat): Scan {
    match s
    case Between(e) => Between(e + d)
    case InString(e) => InString(e + d)
    case Escaped(e) => Escaped(e + d)
    case Bad => Bad
  }

  /** What is scanned from deeper down ends deeper down. */
  lemma {:induction false} ScannedDeeper(s: Scan, text: string, d: nat)
    requires Scanned(s, text) != Bad
    ensures Scanned(Deeper(s, d), text) == Deeper(Scanned(s, text), d)
    decreases text
  {
    if text != "" {
      if Step(s, text[0]) == Bad {
        StaysBad(text[1..]);
        assert false;
      }
      assert Step(Deeper(s, d), text[0]) == Deeper(Step(s, text[0]), d);
      ScannedDeeper(Step(s, text[0]), text[1..], d);
    }
  }

  /** No JSON text ends in a colon and another JSON text, or in a colon. */
  lemma ColonEndsNoPrefix(front: string, rest: string)
    requires rest == "" || IsJson(rest)
    ensures !IsJson(front + (":" + rest))
  {
    var s := Scanned(Between(0), front);
    ScannedConcat(Between(0), front, ":" + rest);
    assert (":" + rest)[1..] == rest;
    var t := Step(s, ':');
    assert Scanned(Between(0), front + (":" + rest)) == Scanned(t, rest);
    match t
    case Bad => StaysBad(rest);
    case InString(d) => Opposed(rest, d, 0);
    case Between(d) => ScannedDeeper(Between(0), rest, d);
    case Escaped(_) =>
  }

  /** A JSON text, or nothing. */
  type Params = text: string | text == "" || IsJson(text) witness ""

  lemma CutFrom(m: string, p: Params, m': string, p': Params)
    requires m + (":" + p) == m' + (":" + p') && |m| <= |m'|
    ensures m == m' && p == p'
  {
    var text := m + (":" + p);
    assert m == text[..|m|] && m' == text[..|m'|];
    assert ":" + p == text[|m|..] && ":" + p' == text[|m'|..];
    if |m| < |m'| {
      var front := text[|m| + 1..|m'|];
      assert p == text[|m| + 1..];
      assert p == front + (":" + p');
      ColonEndsNoPrefix(front, p');
      assert false;
    }
    assert (":" + p)[1..] == p && (":" + p')[1..] == p';
  }

  /** A name and params joined by a colon can be told apart, whatever the name. */
  lemma CutExactly(m: string, p: Params, m': string, p': Params)
    ensures m + (":" + p) == m' + (":" + p') <==> m == m' && p == p'
  {
    if m + (":" + p) == m' + (":" + p') {
      if |m| <= |m'| {
        CutFrom(m, p, m', p');
      } else {
        CutFrom(m', p', m, p);
      }
    }
  }

  // ---- what an encoder prints ----

  predicate IsPlain(c: char) {
    c != '"' && c != '\\' && c !in "[]{}:,"
  }

  type Raw = c: char | c != '"' && c != '\\' witness 'a'

  type Literal = text: string | text != "" && forall i :: 0 <= i < |text| ==> IsPlain(text[i]) witness "0"

  /** A character of a string is written as it is, or after a backslash. */
  datatype Piece = Plain(c: Raw) | Slashed(e: char)

  datatype Tree = Leaf(text: Literal) | Quoted(pieces: seq<Piece>) | Array(items: Items) | Object(members: Members)
  datatype Items = NoItem | Item(head: Tree, tail: Items)
  datatype Members = NoMember | Member(name: seq<Piece>, value: Tree, tail: Members)

  function PrintPieces(pieces: seq<Piece>): string {
    if pieces == [] then ""
    else (if pieces[0].Plain? then [pieces[0].c] else ['\\', pieces[0].e]) + PrintPieces(pieces[1..])
  }

  function Quote(pieces: seq<Piece>): string {
    "\"" + (PrintPieces(pieces) + "\"")
  }

  function Print(v: Tree): string {
    match v
    case Leaf(text) => text
    case Quoted(pieces) => Quote(pieces)
    case Array(items) => "[" + (PrintItems(items) + "]")
    case Object(members) => "{" + (PrintMembers(members) + "}")
  }

  function PrintItems(items: Items): string {
    match items
    case NoItem => ""
    case Item(v, NoItem) => Print(v)
    case Item(v, tail) => Print(v) + ("," + PrintItems(tail))
  }

  function PrintMembers(members: Members): string {
    match members
    case NoMember => ""
    case Member(name, v, tail) =>
      Quote(name) + (":" + (Print(v) + (if tail.NoMember? then "" else "," + PrintMembers(tail))))
  }

  lemma {:induction false} ScannedPieces(pieces: seq<Piece>, d: nat)
    ensures Scanned(InString(d), PrintPieces(pieces)) == InString(d)
  {
    if pieces != [] {
      ScannedPieces(pieces[1..], d);
      var first := if pieces[0].Plain? then [pieces[0].c] else ['\\', pieces[0].e];
      ScannedConcat(InString(d), first, PrintPieces(pieces[1..]));
      assert first[1..] == if pieces[0].Plain? then "" else [pieces[0].e];
    }
  }

  lemma ScannedOne(s: Scan, c: char, text: string)
    ensures Scanned(s, [c] + text) == Scanned(Step(s, c), text)
  {
    assert ([c] + text)[1..] == text;
  }

  lemma ScannedQuote(pieces: seq<Piece>, d: nat)
    ensures Scanned(Between(d), Quote(pieces)) == Between(d)
  {
    ScannedOne(Between(d), '"', PrintPieces(pieces) + "\"");
    ScannedConcat(InString(d), PrintPieces(pieces), "\"");
    ScannedPieces(pieces, d);
  }

  lemma {:induction false} ScannedLiteral(text: string, d: nat)
    requires forall i :: 0 <= i < |text| ==> IsPlain(text[i])
    ensures Scanned(Between(d), text) == Between(d)
  {
    if text != "" {
      ScannedLiteral(text[1..], d);
    }
  }

  lemma {:induction false} ScannedPrint(v: Tree, d: nat)
    ensures Scanned(Between(d), Print(v)) == Between(d)
  {
    match v
    case Leaf(text) => ScannedLiteral(text, d);
    case Quoted(pieces) => ScannedQuote(pieces, d);
    case Array(items) =>
      ScannedOne(Between(d), '[', PrintItems(items) + "]");
      ScannedConcat(Between(d + 1), PrintItems(items), "]");
      ScannedItems(items, d + 1);
    case Object(members) =>
      ScannedOne(Between(d), '{', PrintMembers(members) + "}");
      ScannedConcat(Between(d + 1), PrintMembers(members), "}");
      ScannedMembers(members, d + 1);
  }

  lemma {:induction false} ScannedItems(items: Items, d: nat)
    ensures Scanned(Between(d), PrintItems(items)) == Between(d)
  {
    match items
    case NoItem =>
    case Item(v, tail) =>
      ScannedPrint(v, d);
      ScannedItems(tail, d);
      ScannedConcat(Between(d), Print(v), "," + PrintItems(tail));
      ScannedOne(Between(d), ',', PrintItems(tail));
  }

  lemma {:induction false} ScannedMembers(members: Members, d: nat)
    requires d > 0
    ensures Scanned(Between(d), PrintMembers(members)) == Between(d)
  {
    match members
    case NoMember =>
    case Member(name, v, tail) =>
      var rest := if tail.NoMember? then "" else "," + PrintMembers(tail);
      ScannedQuote(name, d);
      ScannedConcat(Between(d), Quote(name), ":" + (Print(v) + rest));
      ScannedOne(Between(d), ':', Print(v) + rest);
      ScannedPrint(v, d);
      ScannedConcat(Between(d), Print(v), rest);
      ScannedMembers(tail, d);
      ScannedOne(Between(d), ',', PrintMembers(tail));
  }

  /** What an encoder prints for any value is a JSON text in the sense used here. */
  lemma PrintedIsJson(v: Tree)
    ensures IsJson(Print(v))
  {
    ScannedPrint(v, 0);
  }

  // ---- printing loses nothing ----

  /** What may follow a value in a text. */
  predicate Ends(x: string) {
    x == "" || x[0] in ",]}"
  }

  lemma SameHead(c: char, x: string, d: char, y: string)
    requires [c] + x == [d] + y
    ensures c == d && x == y
  {
    assert ([c] + x)[0] == c && ([d] + y)[0] == d;
    assert ([c] + x)[1..] == x && ([d] + y)[1..] == y;
  }

  function PieceText(p: Piece): string {
    if p.Plain? then [p.c] else ['\\', p.e]
  }

  lemma PieceFirst(p: Piece, ps: seq<Piece>, x: string)
    ensures PrintPieces([p] + ps) + x == PieceText(p) + (PrintPieces(ps) + x)
  {
    assert ([p] + ps)[1..] == ps;
  }

  lemma SamePiece(p: Piece, x: string, q: Piece, y: string)
    requires PieceText(p) + x == PieceText(q) + y
    ensures p == q && x == y
  {
    var s, t := PieceText(p) + x, PieceText(q) + y;
    assert s[0] == PieceText(p)[0] && t[0] == PieceText(q)[0];
    assert s[|PieceText(p)|..] == x && t[|PieceText(q)|..] == y;
    if p.Slashed? {
      assert s[1] == p.e && t[1] == q.e;
    }
  }

  /** A string ends at the first quote outside a backslash. */
  lemma PiecesStart(p: seq<Piece>, x: string)
    ensures PrintPieces(p) + ("\"" + x) != ""
    ensures p == [] <==> (PrintPieces(p) + ("\"" + x))[0] == '"'
    ensures p == [] ==> PrintPieces(p) + ("\"" + x) == ['"'] + x
  {
    if p != [] {
      assert p == [p[0]] + p[1..];
      PieceFirst(p[0], p[1..], "\"" + x);
    }
  }

  lemma {:induction false} PiecesUnique(p: seq<Piece>, x: string, q: seq<Piece>, y: string)
    requires PrintPieces(p) + ("\"" + x) == PrintPieces(q) + ("\"" + y)
    ensures p == q && x == y
    decreases |p|
  {
    PiecesStart(p, x);
    PiecesStart(q, y);
    if p == [] {
      SameHead('"', x, '"', y);
    } else {
      assert p == [p[0]] + p[1..] && q == [q[0]] + q[1..];
      PieceFirst(p[0], p[1..], "\"" + x);
      PieceFirst(q[0], q[1..], "\"" + y);
      SamePiece(p[0], PrintPieces(p[1..]) + ("\"" + x), q[0], PrintPieces(q[1..]) + ("\"" + y));
      PiecesUnique(p[1..], x, q[1..], y);
    }
  }

  lemma QuoteUnique(p: seq<Piece>, x: string, q: seq<Piece>, y: string)
    requires Quote(p) + x == Quote(q) + y
    ensures p == q && x == y
  {
    assert Quote(p) + x == ['"'] + (PrintPieces(p) + ("\"" + x));
    assert Quote(q) + y == ['"'] + (PrintPieces(q) + ("\"" + y));
    SameHead('"', PrintPieces(p) + ("\"" + x), '"', PrintPieces(q) + ("\"" + y));
    PiecesUnique(p, x, q, y);
  }

  /** The first character tells the kind of a value. */
  lemma Kind(v: Tree)
    ensures Print(v) != ""
    ensures match v
      case Leaf(_) => IsPlain(Print(v)[0])
      case Quoted(_) => Print(v)[0] == '"'
      case Array(_) => Print(v)[0] == '['
      case Object(_) => Print(v)[0] == '{'
  {
  }

  lemma OpenArray(items: Items, x: string)
    ensures Print(Array(items)) + x == ['['] + (PrintItems(items) + ("]" + x))
  {
  }

  lemma OpenObject(members: Members, x: string)
    ensures Print(Object(members)) + x == ['{'] + (PrintMembers(members) + ("}" + x))
  {
  }

  /** A value followed by what may follow it can be read in one way only. */
  lemma {:induction false} PrintUnique(v: Tree, x: string, w: Tree, y: string)
    requires Print(v) + x == Print(w) + y && Ends(x) && Ends(y)
    ensures v == w && x == y
    decreases v
  {
    Kind(v);
    Kind(w);
    assert (Print(v) + x)[0] == Print(v)[0] && (Print(w) + y)[0] == Print(w)[0];
    match v
    case Leaf(text) => Texts.FrontIsUnique(text, x, w.text, y, (c: char) => !IsPlain(c));
    case Quoted(pieces) => QuoteUnique(pieces, x, w.pieces, y);
    case Array(items) =>
      OpenArray(items, x);
      OpenArray(w.items, y);
      SameHead('[', PrintItems(items) + ("]" + x), '[', PrintItems(w.items) + ("]" + y));
      ItemsUnique(items, x, w.items, y);
    case Object(members) =>
      OpenObject(members, x);
      OpenObject(w.members, y);
      SameHead('{', PrintMembers(members) + ("}" + x), '{', PrintMembers(w.members) + ("}" + y));
      MembersUnique(members, x, w.members, y);
  }

  /** What follows the first item. */
  function AfterItem(tail: Items, x: string): string {
    if tail.NoItem? then "]" + x else "," + (PrintItems(tail) + ("]" + x))
  }

  lemma FirstItem(v: Tree, tail: Items, x: string)
    ensures PrintItems(Item(v, tail)) + ("]" + x) == Print(v) + AfterItem(tail, x)
  {
  }

  lemma ItemsStart(a: Items, x: string)
    ensures PrintItems(a) + ("]" + x) != ""
    ensures a.NoItem? <==> (PrintItems(a) + ("]" + x))[0] == ']'
    ensures a.NoItem? ==> PrintItems(a) + ("]" + x) == [']'] + x
  {
    if a.Item? {
      FirstItem(a.head, a.tail, x);
      Kind(a.head);
    }
  }

  lemma {:induction false} ItemsUnique(a: Items, x: string, b: Items, y: string)
    requires PrintItems(a) + ("]" + x) == PrintItems(b) + ("]" + y)
    ensures a == b && x == y
    decreases a
  {
    ItemsStart(a, x);
    ItemsStart(b, y);
    if a.NoItem? {
      SameHead(']', x, ']', y);
    } else {
      FirstItem(a.head, a.tail, x);
      FirstItem(b.head, b.tail, y);
      PrintUnique(a.head, AfterItem(a.tail, x), b.head, AfterItem(b.tail, y));
      assert a.tail.NoItem? == b.tail.NoItem?;
      if a.tail.Item? {
        SameHead(',', PrintItems(a.tail) + ("]" + x), ',', PrintItems(b.tail) + ("]" + y));
        ItemsUnique(a.tail, x, b.tail, y);
      } else {
        SameHead(']', x, ']', y);
      }
    }
  }

  function AfterValue(tail: Members, x: string): string {
    if tail.NoMember? then "}" + x else "," + (PrintMembers(tail) + ("}" + x))
  }

  /** What follows the first name. */
  function AfterName(v: Tree, tail: Members, x: string): string {
    Print(v) + AfterValue(tail, x)
  }

  lemma FirstMember(name: seq<Piece>, v: Tree, tail: Members, x: string)
    ensures PrintMembers(Member(name, v, tail)) + ("}" + x) == Quote(name) + (":" + AfterName(v, tail, x))
  {
  }

  lemma MembersStart(a: Members, x: string)
    ensures PrintMembers(a) + ("}" + x) != ""
    ensures a.NoMember? <==> (PrintMembers(a) + ("}" + x))[0] == '}'
    ensures a.NoMember? ==> PrintMembers(a) + ("}" + x) == ['}'] + x
  {
    if a.Member? {
      FirstMember(a.name, a.value, a.tail, x);
    }
  }

  lemma {:induction false} MembersUnique(a: Members, x: string, b: Members, y: string)
    requires PrintMembers(a) + ("}" + x) == PrintMembers(b) + ("}" + y)
    ensures a == b && x == y
    decreases a
  {
    MembersStart(a, x);
    MembersStart(b, y);
    if a.NoMember? {
      SameHead('}', x, '}', y);
    } else {
      FirstMember(a.name, a.value, a.tail, x);
      FirstMember(b.name, b.value, b.tail, y);
      QuoteUnique(a.name, ":" + AfterName(a.value, a.tail, x), b.name, ":" + AfterName(b.value, b.tail, y));
      SameHead(':', AfterName(a.value, a.tail, x), ':', AfterName(b.value, b.tail, y));
      PrintUnique(a.value, AfterValue(a.tail, x), b.value, AfterValue(b.tail, y));
      assert a.tail.NoMember? == b.tail.NoMember?;
      if a.tail.Member? {
        SameHead(',', PrintMembers(a.tail) + ("}" + x), ',', PrintMembers(b.tail) + ("}" + y));
        MembersUnique(a.tail, x, b.tail, y);
      } else {
        SameHead('}', x, '}', y);
      }
    }
  }

  /** Two values print alike only when they are one: a text can be read back. */
  lemma PrintIsInjective(v: Tree, w: Tree)
    ensures Print(v) == Print(w) <==> v == w
  {
    if Print(v) == Print(w) {
      assert Print(v) + "" == Print(w) + "";
      PrintUnique(v, "", w, "");
    }
  }
}
