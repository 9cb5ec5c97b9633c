/** Facts about remainders that the solver does not find by itself. */
module ModArith {

  lemma {:induction false} MulAtLeast(d: int, n: int)
    requires 1 <= d && 0 < n
    ensures n <= d * n
  {
  }

  /** Quotient and remainder are unique. */
  lemma {:induction false} DivModUnique(a: int, n: int, q: int, r: int)
    requires 0 < n && a == q * n + r && 0 <= r < n
    ensures a / n == q && a % n == r
  {
    var q', r' := a / n, a % n;
    var d := q - q';
    assert a == n * q' + r';
    assert d * n == q * n - q' * n == r' - r;
    if d >= 1 {
      MulAtLeast(d, n);
    } else if d <= -1 {
      assert (-d) * n == -(d * n);
      MulAtLeast(-d, n);
    }
  }

  lemma {:induction false} ModMultiple(a: int, k: int, n: int)
    requires 0 < n
    ensures (a + k * n) % n == a % n
  {
    var q, r := a / n, a % n;
    assert a + k * n == (q + k) * n + r;
    DivModUnique(a + k * n, n, q + k, r);
  }

  lemma {:induction false} ModShift(a: int, k: int, n: int)
    requires 0 < n
    ensures (a % n + k) % n == (a + k) % n
  {
    var q := a / n;
    assert a + k == (a % n + k) + q * n;
    ModMultiple(a % n + k, q, n);
  }

  /** Any residue is reached from any position in at most n steps. */
  lemma {:induction false} StepsTo(start: int, i: int, n: int) returns (k: int)
    requires 0 <= i < n
    ensures 1 <= k <= n && (start + k) % n == i
  {
    var s := start % n;
    if s < i {
      k := i - s;
      DivModUnique(s + k, n, 0, i);
    } else {
      k := i + n - s;
      DivModUnique(s + k, n, 1, i);
    }
    ModShift(start, k, n);
  }

  lemma MulAdd(a: int, b: int, c: int)
    ensures (a + b) * c == a * c + b * c
  {
  }

  lemma {:induction false} DivMono(a: int, b: int, n: int)
    requires 0 < n && a <= b
    ensures a / n <= b / n
  {
    var q, q' := a / n, b / n;
    assert a == n * q + a % n && b == n * q' + b % n;
    assert (q - q') * n == n * q - n * q';
    if q > q' {
      MulAtLeast(q - q', n);
      assert false;
    }
  }
}
