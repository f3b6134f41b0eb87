/** Facts about products and quotients of variables. */
module Division {

  lemma {:induction false} ProductIsFar(f: int, k: int)
    requires f > 0
    ensures k >= 1 ==> f * k >= f && f * k >= k
    ensures k <= -1 ==> f * k <= -f
  {
    if k >= 1 {
      assert f * k == f * (k - 1) + f == (f - 1) * k + k;
    } else if k <= -1 {
      assert f * k == -(f * (-k - 1)) - f;
    }
  }

  lemma {:induction false} DivideBounds(n: nat, f: nat)
    requires f > 0
    ensures n == f * (n / f) + n % f && 0 <= n / f <= n
  {
    assert n == f * (n / f) + n % f;
    ProductIsFar(f, n / f);
  }

  lemma {:induction false} QuotientOf(f: nat, q: nat)
    requires f > 0
    ensures (f * q) / f == q && (f * q) % f == 0
  {
    var d, r := (f * q) / f, (f * q) % f;
    DivideBounds(f * q, f);
    assert f * (q - d) == f * q - f * d == r;
    ProductIsFar(f, q - d);
  }

  lemma {:induction false} ProductTimes(a: int, b: int, c: int)
    ensures a * (b * c) == (a * b) * c == b * (a * c)
  {
  }

  lemma {:induction false} DifferenceTimes(a: int, b: int, c: int)
    ensures (a - b) * c == a * c - b * c
  {
  }
}
