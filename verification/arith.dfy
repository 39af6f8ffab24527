/** Facts about Euclidean division and remainder used by the index arithmetic. */
module Arith {
  lemma MulAtLeast(d: int, e: int)
    requires d >= 1 && e > 0
    ensures d * e >= e
  {
    assert (d - 1) * e >= 0;
  }

  lemma MulAtMost(d: int, e: int)
    requires d <= 0 && e > 0
    ensures d * e <= 0
  {
    assert (-d) * e >= 0;
  }

  /** The remainder is determined by any quotient/remainder decomposition. */
  lemma DivModUnique(a: int, e: int, q: int, r: int)
    requires e > 0 && a == q * e + r && 0 <= r < e
    ensures a / e == q && a % e == r
  {
    var q', r' := a / e, a % e;
    assert (q - q') * e == r' - r;
    if q > q' {
      MulAtLeast(q - q', e);
    } else if q < q' {
      MulAtLeast(q' - q, e);
    }
  }

  lemma AddModulus(x: int, e: int)
    requires e > 0
    ensures (x + e) % e == x % e
  {
    var q, r := x / e, x % e;
    assert x + e == (q + 1) * e + r;
    DivModUnique(x + e, e, q + 1, r);
  }

  lemma ModSucc(n: nat, e: int)
    requires e > 0
    ensures (n % e + 1) % e == (n + 1) % e
  {
    var q, r := n / e, n % e;
    if r + 1 < e {
      DivModUnique(n + 1, e, q, r + 1);
      DivModUnique(r + 1, e, 0, r + 1);
    } else {
      DivModUnique(n + 1, e, q + 1, 0);
      DivModUnique(r + 1, e, 1, 0);
    }
  }

  lemma {:induction false} MultipleMod(s: nat, e: int)
    requires e > 0
    ensures (s * e) % e == 0
  {
    DivModUnique(s * e, e, s, 0);
  }

  /** Two indices less than `e` apart have different remainders. */
  lemma ModApart(k: nat, n: nat, e: int)
    requires k < n < k + e
    ensures k % e != n % e
  {
    if k % e == n % e {
      var q := n / e - k / e;
      assert n - k == q * e;
      if q >= 1 {
        MulAtLeast(q, e);
      } else {
        MulAtMost(q, e);
      }
    }
  }

  /** Reducing before an addition does not change the remainder. */
  lemma ModAdd(x: int, k: int, e: int)
    requires e > 0
    ensures (x % e + k) % e == (x + k) % e
  {
    var q, r := x / e, x % e;
    var q', r' := (r + k) / e, (r + k) % e;
    assert x + k == (q + q') * e + r';
    DivModUnique(x + k, e, q + q', r');
  }
}
