/** What several modules share: optional values, bytes, sequences without an element, and facts about
    products and quotients. */
module Basics {

  datatype Option<+T> = None | Some(value: T)

  type Byte = n: int | 0 <= n < 256

  /** The cost of a link that cannot be used. */
  const LINK_COST_BROKEN: nat := 4194304

  function Max(a: nat, b: nat): nat {
    if a < b then b else a
  }

  function Without<T>(s: seq<T>, i: nat): seq<T>
    requires i < |s|
  {
    s[..i] + s[i + 1..]
  }

  predicate NoRepeats<T(==)>(s: seq<T>) {
    forall i, j :: 0 <= i < j < |s| ==> s[i] != s[j]
  }

  lemma WithoutMember<T>(s: seq<T>, i: nat, x: T)
    requires i < |s| && x in s && x != s[i]
    ensures x in Without(s, i)
  {
    var k :| 0 <= k < |s| && s[k] == x;
    assert Without(s, i)[if k < i then k else k - 1] == x;
  }

  lemma Products(a: nat, b: nat, c: nat, d: nat)
    requires a <= b && c <= d
    ensures a * c <= b * d
    ensures a > 0 && c > 0 ==> a * c > 0
  {
    assert a * c <= b * c <= b * d;
  }

  lemma Reassociate(a: nat, b: nat, c: nat)
    ensures a * b * c == a * (b * c)
  {
  }

  lemma Division(x: nat, d: nat)
    requires d > 0
    ensures 0 <= x / d && d * (x / d) <= x < d * (x / d + 1)
  {
  }

  lemma QuotientOrder(x: nat, d: nat, e: nat, q: nat, r: nat)
    requires d <= e && e * q <= x < d * (r + 1)
    ensures q <= r
  {
    if q > r {
      Products(d, e, r + 1, q);
    }
  }

  /** Quotients grow with the dividend and fall with the divisor. */
  lemma Quotients(x: nat, y: nat, d: nat, e: nat)
    requires x <= y && 0 < d <= e
    ensures x / e <= y / d
  {
    Division(y, d);
    Division(x, e);
    QuotientOrder(y, d, e, x / e, y / d);
  }
}
