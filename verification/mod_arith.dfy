/** Facts about Dafny's Euclidean `%` that the index arithmetic of the
    carousels and sliders leans on. */
module ModArith {

  lemma MulAtLeast(x: int, n: int)
    requires x >= 1 && n > 0
    ensures x * n >= n
  {
  }

  /** The remainder is determined by any quotient-remainder split. */
  lemma ModUnique(a: int, n: int, q: int, r: int)
    requires n > 0 && 0 <= r < n && a == q * n + r
    ensures a % n == r
  {
    var q', r' := a / n, a % n;
    assert a == q' * n + r' && 0 <= r' < n;
    assert (q - q') * n == r' - r;
    if q > q' {
      MulAtLeast(q - q', n);
    } else if q < q' {
      MulAtLeast(q' - q, n);
    }
  }

  lemma ModBelow(a: int, n: int)
    requires 0 <= a < n
    ensures a % n == a
  {
    ModUnique(a, n, 0, a);
  }

  /** Adding the modulus does not change the remainder. */
  lemma AddModulus(a: int, n: int)
    requires n > 0
    ensures (a + n) % n == a % n
  {
    var q, r := a / n, a % n;
    assert a == q * n + r && 0 <= r < n;
    assert a + n == (q + 1) * n + r;
    ModUnique(a + n, n, q + 1, r);
  }

  /** One step around a ring of `n` positions. */
  lemma ModSucc(i: int, n: int)
    requires 0 <= i < n
    ensures (i + 1) % n == if i + 1 == n then 0 else i + 1
  {
    if i + 1 == n { ModUnique(n, n, 1, 0); } else { ModBelow(i + 1, n); }
  }

  /** Stepping once around the ring and then `k` more is stepping `k + 1`. */
  lemma ModSuccAdd(i: int, k: int, n: int)
    requires 0 <= i < n
    ensures ((i + 1) % n + k) % n == (i + 1 + k) % n
  {
    ModSucc(i, n);
    if i + 1 == n {
      AddModulus(k, n);
    }
  }

  /** Reducing before adding one gives the same remainder. */
  lemma ModStep(a: int, n: int)
    requires n > 0
    ensures (a % n + 1) % n == (a + 1) % n
  {
    var q, r := a / n, a % n;
    assert a == q * n + r && 0 <= r < n;
    if r + 1 < n {
      ModUnique(a + 1, n, q, r + 1);
      ModBelow(r + 1, n);
    } else {
      ModUnique(a + 1, n, q + 1, 0);
      ModUnique(r + 1, n, 1, 0);
    }
  }
}
