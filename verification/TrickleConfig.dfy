/**
 Configuration of a Trickle timer (os/lib/trickle-timer.c and .h): which pairs of Imin
 and Imax fit the platform's clock, and the largest Imax that does for a given Imin.
 clock_time_t has W bits, 16 or 32.
 */
module TrickleConfig {
  import opened Arithmetic

  predicate IsWidth(w: nat)
  {
    w == 16 || w == 32
  }

  /** `x` doubled `n` times, without a limit. */
  function Doubled(x: nat, n: nat): (r: nat)
  {
    x * Pow2(n)
  }

  /** TRICKLE_TIMER_CLOCK_MAX */
  function ClockMax(w: nat): (r: nat)
  {
    Pow2(w) - 1
  }

  /** TRICKLE_TIMER_IMIN_IS_BAD */
  predicate IminIsBad(w: nat, imin: nat)
  {
    imin < 2 || imin > ClockMax(w) / 2
  }

  /** TRICKLE_TIMER_IPAIR_IS_BAD */
  predicate IpairIsBad(w: nat, imin: nat, imax: nat)
  {
    ClockMax(w) / Pow2(imax + 1) < imin - 1
  }

  lemma ShiftedMax(w: nat, k: nat)
    requires k <= w
    ensures ClockMax(w) / Pow2(k) == Pow2(w - k) - 1
  {
    Pow2Add(w - k, k);
    hide Pow2;
    DivideMax(Pow2(k), Pow2(w - k));
  }

  lemma DivideMax(p: nat, q: nat)
    requires p > 0 && q > 0
    ensures q * p >= 1 && (q * p - 1) / p == q - 1
  {
    assert q * p - 1 == (q - 1) * p + (p - 1);
    DivideBy(q * p - 1, q - 1, p - 1, p);
  }

  lemma DivideBy(x: int, q: int, r: nat, m: nat)
    requires m > 0 && x == q * m + r && r < m
    ensures x / m == q
  {
    Remainder(x, q, r, m);
    var k := x / m;
    assert x == k * m + x % m;
    if k < q {
      MulStep(k, q, m);
    } else if q < k {
      MulStep(q, k, m);
    }
  }

  /** The macro rejects a pair exactly when Imin << Imax exceeds 2^(W - 1). */
  lemma IpairExact(w: nat, imin: nat, imax: nat)
    requires imax + 1 <= w && imin >= 1
    ensures IpairIsBad(w, imin, imax) <==> Doubled(imin, imax) > Pow2(w - 1)
  {
    ShiftedMax(w, imax + 1);
    var p, q := Pow2(imax), Pow2(w - 1 - imax);
    Pow2Add(w - 1 - imax, imax);
    assert Pow2(w - 1) == q * p;
    if imin > q {
      MulStep(q, imin, p);
    } else if imin < q {
      MulStep(imin, q, p);
    }
  }

  // ----------------------------------------------------------------- max_imax

  /** `x << i` in W bits. */
  function ShiftLeft(w: nat, x: nat, i: nat): (r: nat)
  {
    x * Pow2(i) % Pow2(w)
  }

  lemma MaskStep(w: nat, i: nat)
    requires 2 * i <= w
    ensures Pow2(w - 2 * i) <= Pow2(w) && ShiftLeft(w, Pow2(w) - Pow2(w - 2 * i), i) == Pow2(w) - Pow2(w - i)
  {
    Pow2Add(w - 2 * i, i);
    Pow2Monotone(w - i, w);
    Pow2Monotone(w - 2 * i, w);
    hide Pow2;
    MaskAlgebra(Pow2(w), Pow2(w - 2 * i), Pow2(w - i), Pow2(i));
  }

  lemma MaskAlgebra(m: nat, a: nat, b: nat, p: nat)
    requires a <= m && 0 < b <= m && a * p == b && p > 0
    ensures (m - a) * p % m == m - b
  {
    assert (m - a) * p == m * p - a * p == (p - 1) * m + (m - b);
    Remainder((m - a) * p, p - 1, m - b, m);
  }

  lemma Pow2Values()
    ensures Pow2(0) == 1 && Pow2(8) == 0x100 && Pow2(16) == 0x1_0000 && Pow2(32) == 0x1_0000_0000
  {
    assert Pow2(4) == 16;
    Pow2Add(4, 4);
    Pow2Add(8, 8);
    Pow2Add(16, 16);
  }

  lemma FirstMask(w: nat)
    requires IsWidth(w)
    ensures ShiftLeft(w, 0xFFFF, w / 2) == Pow2(w) - Pow2(w / 2)
  {
    Pow2Values();
  }

  lemma ShiftKeeps(w: nat, value: nat, i: nat)
    requires 2 * i <= w && Pow2(w - 2 * i) <= value < Pow2(w - i)
    ensures Pow2(w - i) <= Doubled(value, i) < Pow2(w)
    ensures ShiftLeft(w, value, i) == Doubled(value, i)
  {
    Pow2Add(w - 2 * i, i);
    Pow2Add(w - i, i);
    var p := Pow2(i);
    MulStep(value, Pow2(w - i), p);
    if Pow2(w - 2 * i) < value {
      MulStep(Pow2(w - 2 * i), value, p);
    }
    Remainder(value * p, 0, value * p, Pow2(w));
  }

  lemma DoubledTwice(a: nat, z: nat, i: nat)
    ensures Doubled(a, 0) == a
    ensures Doubled(Doubled(a, z), i) == Doubled(a, z + i)
  {
    Pow2Add(z, i);
  }

  predicate IsStep(i: nat)
  {
    i in {0, 1, 2, 4, 8, 16}
  }

  lemma HalfStep(i: nat)
    requires i > 0 && IsStep(i)
    ensures IsStep(i / 2) && if i == 1 then i / 2 == 0 else i / 2 > 0 && 2 * (i / 2) == i
  {
  }

  /** Where the binary search of max_imax is: `zeros` leading zeros are shifted out, fewer than 2i remain. */
  ghost predicate Searching(w: nat, x: nat, i: nat, mask: int, value: nat, zeros: nat)
  {
    && w > 0 && IsStep(i) && zeros + 2 * i <= w
    && (i > 0 ==> mask == if i == w / 2 then 0xFFFF else Pow2(w) - Pow2(w - 2 * i))
    && value == Doubled(x, zeros)
    && (if i == 0 then Pow2(w - 1) else Pow2(w - 2 * i)) <= value < Pow2(w)
  }

  lemma MaskNext(w: nat, i: nat, mask: nat)
    requires IsWidth(w) && i > 0 && 2 * i <= w
    requires mask == if i == w / 2 then 0xFFFF else Pow2(w) - Pow2(w - 2 * i)
    ensures ShiftLeft(w, mask, i) == Pow2(w) - Pow2(w - i)
  {
    hide Pow2; hide ShiftLeft;
    if i == w / 2 {
      FirstMask(w);
    } else {
      MaskStep(w, i);
    }
  }

  lemma SearchStep(w: nat, x: nat, i: nat, mask: nat, value: nat, zeros: nat)
    requires IsWidth(w) && i > 0 && Searching(w, x, i, mask, value, zeros)
    ensures ShiftLeft(w, mask, i) == Pow2(w) - Pow2(w - i)
    ensures if BitAnd(value, Pow2(w) - Pow2(w - i)) == 0
            then Searching(w, x, i / 2, Pow2(w) - Pow2(w - i), ShiftLeft(w, value, i), zeros + i)
            else Searching(w, x, i / 2, Pow2(w) - Pow2(w - i), value, zeros)
  {
    hide Pow2; hide Doubled; hide ShiftLeft; hide IsStep; hide BitAnd;
    MaskNext(w, i, mask);
    LeadingOnes(w, w - i, value);
    HalfStep(i);
    if value < Pow2(w - i) {
      ShiftKeeps(w, value, i);
      DoubledTwice(x, zeros, i);
    }
  }

  /** max_imax, generic variant: the largest number of doublings of `imin` that stays within 2^(W - 1). */
  method MaxImax(w: nat, imin: nat) returns (r: nat)
    requires IsWidth(w) && 2 <= imin <= Pow2(w - 1)
    ensures Doubled(imin, r) <= Pow2(w - 1) < Doubled(imin, r + 1)
    ensures r < w
  {
    hide Pow2; hide Doubled; hide ShiftLeft; hide Searching; hide BitAnd;
    var zeros: nat, mask: nat, value: nat, i: nat := 0, 0xFFFF, imin - 1, w / 2;
    SearchStart(w, imin);
    while i > 0
      invariant Searching(w, imin - 1, i, mask, value, zeros)
    {
      SearchStep(w, imin - 1, i, mask, value, zeros);
      mask := ShiftLeft(w, mask, i);
      if BitAnd(value, mask) == 0 {
        zeros := zeros + i;
        value := ShiftLeft(w, value, i);
      }
      i := i / 2;
    }
    LeadingZeros(w, imin, mask, value, zeros);
    r := zeros - 1;
  }

  lemma SearchStart(w: nat, imin: nat)
    requires IsWidth(w) && 2 <= imin <= Pow2(w - 1)
    ensures Searching(w, imin - 1, w / 2, 0xFFFF, imin - 1, 0)
  {
    hide Pow2; hide Doubled;
    Pow2Values();
    DoubledTwice(imin - 1, 0, 0);
    Pow2Monotone(w - 1, w);
  }

  /** A finished search. */
  lemma LeadingZeros(w: nat, imin: nat, mask: int, value: nat, zeros: nat)
    requires w > 0 && 2 <= imin <= Pow2(w - 1) && Searching(w, imin - 1, 0, mask, value, zeros)
    ensures 1 <= zeros <= w && Doubled(imin, zeros - 1) <= Pow2(w - 1) < Doubled(imin, zeros)
  {
    var p := Pow2(zeros);
    DoubledTwice(imin - 1, 0, 0);
    Pow2Add(w - zeros, zeros);
    if Pow2(w - zeros) < imin {
      if Pow2(w - zeros) < imin - 1 {
        MulStep(Pow2(w - zeros), imin - 1, p);
      }
      assert false;
    }
    Pow2Add(w - zeros, zeros - 1);
    if imin < Pow2(w - zeros) {
      MulStep(imin, Pow2(w - zeros), Pow2(zeros - 1));
    }
    MulStep(imin - 1, imin, p);
  }
}
