/** Arithmetic and sequence facts that several of the models use. */
module Common {
  function Min(a: nat, b: nat): nat {
    if a < b then a else b
  }

  function Pow2(n: nat): (p: nat)
    ensures 0 < p
  {
    if n == 0 then 1 else 2 * Pow2(n - 1)
  }

  function Pow(b: nat, n: nat): (p: nat)
    requires 0 < b
    ensures 0 < p
  {
    if n == 0 then 1 else ProductPositive(b, Pow(b, n - 1)); b * Pow(b, n - 1)
  }

  lemma ProductPositive(x: nat, y: nat)
    requires 0 < x && 0 < y
    ensures 0 < x * y
  {
  }

  /** The digit of a value below 16: '0' is 48 and 'a' is 97. */
  function Digit(v: nat): (c: char)
    requires v < 16
    ensures c as int == if v < 10 then 48 + v else 87 + v
  {
    "0123456789abcdef"[v]
  }

  /** s is written in the base, highest digit first: the digit j places before the last one has the
      weight base^j. */
  ghost predicate SpellsNumber(s: string, n: nat, base: nat)
    requires 2 <= base <= 16
  {
    forall j | 0 <= j < |s| :: s[j] == Digit(n / Pow(base, |s| - 1 - j) % base)
  }

  lemma ConcatAssoc<T>(a: seq<T>, b: seq<T>, c: seq<T>)
    ensures a + b + c == a + (b + c)
  {
  }

  lemma ProductsAlike(x: int, y: int, m: nat)
    ensures x <= y ==> x * m <= y * m
  {
  }

  lemma ProductAssoc(x: nat, y: nat, z: nat)
    ensures x * y * z == x * (z * y)
  {
  }

  lemma QuotientIs(a: nat, weight: nat, q: nat)
    requires weight > 0 && q * weight <= a < q * weight + weight
    ensures a / weight == q && a % weight == a - q * weight
  {
    var d := a / weight;
    assert a == d * weight + a % weight;
    ProductsAlike(d + 1, q, weight);
    ProductsAlike(q + 1, d, weight);
  }

  lemma QuotientTwice(a: nat, m: nat, n: nat)
    requires 0 < m && 0 < n
    ensures 0 < m * n && a / m / n == a / (m * n)
  {
    var d := a / m;
    var q, r := d / n, d % n;
    assert d == q * n + r;
    ProductAssoc(q, n, m);
    TwoDigits(q * n, r, n, m);
    assert 0 < m * n;
    assert a == d * m + a % m;
    QuotientIs(a, m * n, q);
  }

  lemma TwoDigits(high: nat, low: nat, n: nat, m: nat)
    requires low < n && 0 < m
    ensures high * m <= (high + low) * m && (high + low) * m + m <= high * m + m * n
  {
    ProductsAlike(low + 1, n, m);
    assert (high + low) * m == high * m + low * m;
    assert (low + 1) * m == low * m + m;
  }
}
