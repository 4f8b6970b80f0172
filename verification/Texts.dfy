/** Decimal printing (`%d`) and the splitting facts that make composed keys readable back. */
module Texts {

  predicate IsDigit(c: char) {
    '0' <= c <= '9'
  }

  predicate AllDigits(s: string) {
    forall i :: 0 <= i < |s| ==> IsDigit(s[i])
  }

  function Decimal(n: nat): (s: string)
    ensures s != [] && AllDigits(s)
  {
    var last := ['0' + (n % 10) as char];
    if n < 10 then last else Decimal(n / 10) + last
  }

  /** The number a decimal text denotes: the inverse of `Decimal`. */
  function Value(s: string): nat
    requires AllDigits(s)
  {
    if s == [] then 0 else Value(s[..|s| - 1]) * 10 + (s[|s| - 1] - '0') as nat
  }

  lemma {:induction false} ValueOfDecimal(n: nat)
    ensures Value(Decimal(n)) == n
  {
    var s := Decimal(n);
    if n >= 10 {
      ValueOfDecimal(n / 10);
      assert s[..|s| - 1] == Decimal(n / 10);
    }
  }

  /** A text is cut in one way only at the first character that the front part cannot contain. */
  lemma FrontIsUnique(a: string, x: string, b: string, y: string, stops: char -> bool)
    requires a + x == b + y
    requires forall i :: 0 <= i < |a| ==> !stops(a[i])
    requires forall i :: 0 <= i < |b| ==> !stops(b[i])
    requires x == [] || stops(x[0])
    requires y == [] || stops(y[0])
    ensures a == b && x == y
  {
    var s := a + x;
    assert x != [] ==> s[|a|] == x[0];
    assert s == b + y;
    assert y != [] ==> s[|b|] == y[0];
    assert forall i :: 0 <= i < |a| ==> s[i] == a[i];
    assert forall i :: 0 <= i < |b| ==> s[i] == b[i];
    assert |a| == |b|;
    assert s[..|a|] == a && s[|a|..] == x && s[..|b|] == b && s[|b|..] == y;
  }
}
