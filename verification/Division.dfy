/** The few facts about quotients the refill and masking proofs rest on. */
module Division {
  lemma AtLeastOne(a: int, n: int)
    requires n > 0 && a >= 1
    ensures a * n >= n
  {
    assert (a - 1) * n >= 0;
  }

  lemma Distribute(a: int, b: int, n: int)
    ensures (a + b) * n == a * n + b * n
    ensures (a - b) * n == a * n - b * n
  {
  }

  lemma Remainder(x: int, n: int)
    requires n > 0
    ensures 0 <= x - (x / n) * n < n
  {
    assert x == n * (x / n) + x % n;
  }

  lemma QuotientIs(x: int, n: int, q: int)
    requires n > 0 && 0 <= x - q * n < n
    ensures x / n == q
  {
    var p := x / n;
    Remainder(x, n);
    if p > q {
      AtLeastOne(p - q, n);
      Distribute(p, q, n);
      assert false;
    } else if p < q {
      AtLeastOne(q - p, n);
      Distribute(q, p, n);
      assert false;
    }
  }

  lemma {:induction false} ProductGrows(q: int, n: int)
    requires q >= 0 && n > 0
    ensures q * n >= q
  {
    if n > 1 {
      ProductGrows(q, n - 1);
      Distribute(n - 1, 1, q);
    }
  }

  lemma QuotientBounds(x: int, n: int)
    requires n > 0 && x >= 0
    ensures 0 <= x / n <= x && 0 <= (x / n) * n <= x
  {
    var q := x / n;
    Remainder(x, n);
    if q < 0 {
      AtLeastOne(-q, n);
      Distribute(0, q, n);
      assert false;
    }
    ProductGrows(q, n);
  }

  lemma OneMore(x: int, n: int)
    requires n > 0
    ensures x / n == (x - n) / n + 1
  {
    var p := (x - n) / n;
    Remainder(x - n, n);
    Distribute(p, 1, n);
    QuotientIs(x, n, p + 1);
  }

  /** How many times `n` fits into `x`, by subtraction. */
  function Whole(x: nat, n: int): (k: nat)
    requires n > 0
    decreases x
  {
    if x < n then 0 else 1 + Whole(x - n, n)
  }

  lemma {:induction false} WholeIsQuotient(x: nat, n: int)
    requires n > 0
    ensures Whole(x, n) == x / n && 0 <= x - Whole(x, n) * n < n
    decreases x
  {
    if x < n {
      QuotientIs(x, n, 0);
    } else {
      WholeIsQuotient(x - n, n);
      OneMore(x, n);
      Distribute(Whole(x - n, n), 1, n);
    }
  }
}
