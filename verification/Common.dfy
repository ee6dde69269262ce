/** Definitions shared by several modules. */
module Common {
  datatype Option<T> = None | Some(value: T)

  predicate Distinct<T(==)>(s: seq<T>) {
    forall i, j :: 0 <= i < j < |s| ==> s[i] != s[j]
  }

  /** Quotient and remainder are unique. */
  lemma QuotientIs(x: int, q: int, r: int, n: int)
    requires n > 0 && x == q * n + r && 0 <= r < n
    ensures x / n == q && x % n == r
  {
    var d := x / n;
    assert (d - q) * n == d * n - q * n;
    if d > q { AtLeast(d - q, n); }
    if d < q { AtLeast(q - d, n); }
  }

  lemma AtLeast(d: int, n: int)
    requires d >= 1 && n > 0
    ensures d * n >= n
  {
  }
}
