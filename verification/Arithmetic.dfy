/** Division facts used for block rings, tree levels and chunked logs. */
module Arithmetic {

  lemma MulLe(a: int, b: int, m: nat)
    requires a <= b
    ensures a * m <= b * m
  {
  }

  lemma MulAssoc(a: int, b: int, c: int)
    ensures a * (b * c) == (a * b) * c
  {
  }

  /** `align_up(n, m) / m`. */
  function Ceil(n: nat, m: nat): nat
    requires m > 0
  {
    (n + m - 1) / m
  }

  lemma CeilIff(n: nat, m: nat, i: int)
    requires m > 0
    ensures i < Ceil(n, m) <==> i * m < n
  {
    var c := Ceil(n, m);
    assert c * m <= n + m - 1 < c * m + m;
    if i < c {
      MulLe(i, c - 1, m);
      assert (c - 1) * m == c * m - m;
    } else {
      MulLe(c, i, m);
    }
  }

  lemma FloorIff(n: nat, m: nat, i: int)
    requires m > 0
    ensures i <= n / m <==> i * m <= n
  {
    var c := n / m;
    assert c * m <= n < c * m + m;
    if i <= c {
      MulLe(i, c, m);
    } else {
      MulLe(c + 1, i, m);
      assert (c + 1) * m == c * m + m;
    }
  }

  lemma CeilCeil(n: nat, p: nat, m: nat)
    requires p > 0 && m > 0
    ensures m * p > 0 && Ceil(Ceil(n, p), m) == Ceil(n, m * p)
  {
    MulLe(1, m, p);
    var x, y := Ceil(Ceil(n, p), m), Ceil(n, m * p);
    CeilCeilIff(n, p, m, x);
    CeilCeilIff(n, p, m, y);
  }

  lemma CeilCeilIff(n: nat, p: nat, m: nat, i: int)
    requires p > 0 && m > 0 && m * p > 0
    ensures i < Ceil(Ceil(n, p), m) <==> i < Ceil(n, m * p)
  {
    CeilIff(Ceil(n, p), m, i);
    CeilIff(n, p, i * m);
    CeilIff(n, m * p, i);
    MulAssoc(i, m, p);
  }

  lemma DivMod(n: nat, m: nat)
    requires m > 0
    ensures n == n / m * m + n % m && 0 <= n % m < m
  {
  }

  lemma Remainder(x: int, q: int, r: int, m: nat)
    requires m > 0 && x == q * m + r && 0 <= r < m
    ensures x / m == q && x % m == r
  {
    var d := q - x / m;
    assert x == x / m * m + x % m;
    assert d * m == q * m - x / m * m;
    if d >= 1 { MulLe(1, d, m); }
    if d <= -1 { MulLe(d, -1, m); }
  }
}
