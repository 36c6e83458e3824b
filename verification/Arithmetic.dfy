/** Facts about Euclidean division and powers of two. */
module Arithmetic {

  lemma MulStep(p: int, q: int, al: nat)
    requires p < q
    ensures p * al + al <= q * al
  {
    assert q * al == p * al + al + (q - p - 1) * al;
  }

  lemma Quotient(n: nat, al: nat)
    requires al > 0
    ensures n * al / al == n
  {
    var q := n * al / al;
    assert n * al == q * al + n * al % al;
    if q < n {
      MulStep(q, n, al);
    } else if n < q {
      MulStep(n, q, al);
    }
  }

  /** Reduction modulo `m`: what a counter or a clock shows that wraps at `m`. */
  function Modulo(m: nat, x: int): (r: nat)
    requires m > 0
  {
    x % m
  }

  /** Adding before or after reduction modulo `m` is the same. */
  lemma ModAdd(a: int, b: int, m: nat)
    requires m > 0
    ensures (a % m + b) % m == (a + b) % m
  {
    var q, r := (a % m + b) / m, (a % m + b) % m;
    assert a % m + b == q * m + r;
    assert a == (a / m) * m + a % m;
    assert a + b == (a / m + q) * m + r;
    Remainder(a + b, a / m + q, r, m);
  }

  /** Euclidean division is unique. */
  lemma Remainder(x: int, q: int, r: nat, m: nat)
    requires m > 0 && x == q * m + r && r < m
    ensures x % m == r
  {
    var q', r' := x / m, x % m;
    assert x == q' * m + r' && 0 <= r' < m;
    if q' < q {
      MulStep(q', q, m);
    } else if q < q' {
      MulStep(q, q', m);
    }
  }

  lemma MulMonotone(x: nat, p: nat, q: nat)
    requires p <= q
    ensures x * p <= x * q
  {
    assert x * q == x * p + x * (q - p);
  }

  function Pow2(n: nat): (r: nat)
    ensures r > 0
  {
    if n == 0 then 1 else 2 * Pow2(n - 1)
  }

  lemma {:induction false} Pow2Add(a: nat, b: nat)
    ensures Pow2(a + b) == Pow2(a) * Pow2(b)
  {
    if a > 0 {
      Pow2Add(a - 1, b);
      assert Pow2(a + b) == 2 * (Pow2(a - 1) * Pow2(b)) == Pow2(a) * Pow2(b);
    }
  }

  lemma {:induction false} Pow2Monotone(a: nat, b: nat)
    requires a <= b
    ensures Pow2(a) <= Pow2(b)
  {
    if a < b {
      Pow2Monotone(a, b - 1);
    }
  }

  /** An index into a cyclic buffer that may have run past its end, by less than its length. */
  function Wrap(n: nat, x: nat): (r: nat)
  {
    if x >= n then x - n else x
  }

  lemma WrapIsMod(n: nat, x: nat)
    requires n > 0 && x < 2 * n
    ensures x % n == Wrap(n, x)
  {
    if x < n {
      Remainder(x, 0, x, n);
    } else {
      Remainder(x, 1, x - n, n);
    }
  }

  // ------------------------------------------------------------- bit masks

  /** Bitwise conjunction with a mask; a negative `x` counts as in two's complement. */
  function BitAnd(x: int, mask: nat): (r: nat)
    ensures r <= mask
    decreases mask
  {
    if mask == 0 then 0 else (x % 2) * (mask % 2) + 2 * BitAnd(x / 2, mask / 2)
  }

  /** Masking with 2^k - 1 is reduction modulo 2^k, of negative numbers too. */
  lemma MaskIsModulo(x: int, k: nat)
    ensures BitAnd(x, Pow2(k) - 1) == x % Pow2(k)
  {
    hide BitAnd; hide Pow2;
    MaskIsMod(x, k);
  }

  lemma {:induction false} MaskIsMod(x: int, k: nat)
    ensures BitAnd(x, Pow2(k) - 1) == Modulo(Pow2(k), x)
    decreases k
  {
    hide BitAnd; hide Modulo;
    if k == 0 {
      MaskNone(x);
    } else {
      Pow2Twice(k);
      MaskIsMod(x / 2, k - 1);
      hide Pow2;
      MaskHalved(x, Pow2(k - 1));
    }
  }

  lemma Pow2Twice(k: nat)
    requires k > 0
    ensures Pow2(k) == 2 * Pow2(k - 1)
  {
  }

  lemma MaskNone(x: int)
    ensures Pow2(0) == 1 && BitAnd(x, 0) == Modulo(1, x)
  {
  }

  lemma MaskHalved(x: int, p: nat)
    requires p > 0 && BitAnd(x / 2, p - 1) == Modulo(p, x / 2)
    ensures BitAnd(x, 2 * p - 1) == Modulo(2 * p, x)
  {
    MaskOnce(x, p);
    Halve(x, p);
    hide BitAnd;
  }

  lemma MaskOnce(x: int, p: nat)
    requires p > 0
    ensures BitAnd(x, 2 * p - 1) == x % 2 + 2 * BitAnd(x / 2, p - 1)
  {
    assert (2 * p - 1) / 2 == p - 1 && (2 * p - 1) % 2 == 1;
  }

  lemma Halve(x: int, p: nat)
    requires p > 0
    ensures x % (2 * p) == x % 2 + 2 * (x / 2 % p)
  {
    var q, r := x / 2 / p, x / 2 % p;
    assert x / 2 == q * p + r;
    assert x == q * (2 * p) + (x % 2 + 2 * r);
    Remainder(x, q, x % 2 + 2 * r, 2 * p);
  }

  /** A mask of leading ones, from bit `j` up to bit `w`, meets a W-bit number exactly when that is at least 2^j. */
  lemma {:induction false} LeadingOnes(w: nat, j: nat, v: nat)
    requires j <= w && v < Pow2(w)
    ensures Pow2(j) <= Pow2(w)
    ensures BitAnd(v, Pow2(w) - Pow2(j)) == 0 <==> v < Pow2(j)
    decreases w
  {
    Pow2Monotone(j, w);
    if j == 0 {
      MaskIsModulo(v, w);
      Remainder(v, 0, v, Pow2(w));
    } else {
      LeadingOnes(w - 1, j - 1, v / 2);
      MaskEven(v, Pow2(w - 1) - Pow2(j - 1));
    }
  }

  lemma MaskEven(x: nat, m: nat)
    ensures BitAnd(x, 2 * m) == 2 * BitAnd(x / 2, m)
  {
    assert 2 * m % 2 == 0 && 2 * m / 2 == m;
  }
}
