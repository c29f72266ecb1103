/** Quotients and remainders. */
module Division {

  /** There is only one way to divide. */
  lemma DivideUnique(n: nat, d: nat, q: nat, r: nat)
    requires d > 0 && n == q * d + r && r < d
    ensures n / d == q && n % d == r
  {
    var q', r' := n / d, n % d;
    assert (q' - q) * d == r - r';
    if q < q' {
      Multiple(q' - q, d);
    } else if q' < q {
      Multiple(q - q', d);
    }
  }

  lemma Multiple(m: nat, d: nat)
    requires m >= 1
    ensures m * d >= d
  {
  }

  /** Halving a number halves its remainder by an even divisor. */
  lemma HalfRemainder(v: nat, p: nat)
    requires p > 0
    ensures v % (2 * p) == 2 * ((v / 2) % p) + v % 2
  {
    var h, b := v / 2, v % 2;
    assert h == (h / p) * p + h % p;
    assert (h / p) * (2 * p) == 2 * ((h / p) * p);
    DivideUnique(v, 2 * p, h / p, 2 * (h % p) + b);
  }

  lemma RemainderFits(v: nat, p: nat)
    requires p > 0
    ensures v % p <= v
  {
    assert v == (v / p) * p + v % p;
  }
}
