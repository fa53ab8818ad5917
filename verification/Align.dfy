/** `ALIGN_UP` and `ALIGN_DOWN` of sys/kernel/include/sys/math.h on 64-bit words. */
module Align {
  import opened Bits

  /** `~x` on 64 bits. */
  function Complement(x: u64): u64
  {
    TWO64 - 1 - x
  }

  function AlignDown(x: u64, a: nat): nat
    requires 0 < a <= TWO64
  {
    And(x, Complement(a - 1))
  }

  function AlignUp(x: nat, a: nat): nat
    requires 0 < a <= TWO64
  {
    And(x + a - 1, Complement(a - 1))
  }

  lemma {:induction false} ShlTimes(m: nat, k: nat)
    ensures Shl(m, k) == m * Pow2(k)
  {
    if k == 0 {
    } else {
      ShlTimes(m, k - 1);
      assert m * Pow2(k) == 2 * (m * Pow2(k - 1));
    }
  }

  lemma {:induction false} Pow2Split(k: nat, n: nat)
    requires k <= n
    ensures Shl(Pow2(n - k), k) == Pow2(n)
    decreases k
  {
    if k == 0 {
    } else {
      Pow2Split(k - 1, n - 1);
    }
  }

  lemma {:induction false} ShlMinusOne(m: nat, k: nat)
    requires m > 0
    ensures Shl(m - 1, k) == Shl(m, k) - Pow2(k)
    decreases k
  {
    if k == 0 {
    } else {
      ShlMinusOne(m, k - 1);
    }
  }

  lemma Pow2AtMost(k: nat, n: nat)
    requires k <= n
    ensures Pow2(k) <= Pow2(n)
  {
    if k < n { Pow2Monotone(k, n); }
  }

  lemma HighMask(k: nat, n: nat)
    requires k <= n
    ensures Pow2(k) <= Pow2(n) && Pow2(n) - Pow2(k) == Shl(Pow2(n - k) - 1, k)
  {
    Pow2AtMost(k, n);
    Pow2Split(k, n);
    ShlMinusOne(Pow2(n - k), k);
  }

  /** Masking an `n`-bit word with `~(2^k - 1)` clears its low `k` bits. */
  lemma ClearLow(x: nat, k: nat, n: nat)
    requires k <= n && x < Pow2(n)
    ensures And(x, Shl(Pow2(n - k) - 1, k)) == Shl(Shr(x, k), k)
  {
    MaskField(x, n - k, k);
    ShrBound(x, k, n - k);
    LowId(Shr(x, k), n - k);
  }

  lemma Word(n: nat)
    requires n == 64
    ensures Pow2(n) == TWO64
  {
    Power(n);
  }

  lemma AlignDownIs(x: u64, k: nat, n: nat)
    requires k <= n == 64
    ensures 0 < Pow2(k) <= TWO64
    ensures AlignDown(x, Pow2(k)) == Shr(x, k) * Pow2(k)
  {
    Word(n);
    HighMask(k, n);
    ClearLow(x, k, n);
    ShlTimes(Shr(x, k), k);
  }

  ghost predicate MultipleOf(x: nat, a: nat)
  {
    exists m: nat :: x == m * a
  }

  /** `q * p` is the last multiple of `p` at or below `y`. */
  lemma LastMultiple(y: nat, q: nat, p: nat, m: nat)
    requires q * p <= y < q * p + p
    ensures m * p <= y <==> m <= q
    ensures m <= q ==> m * p <= q * p
    ensures m < q ==> m * p <= q * p - p
  {
    if m >= q + 1 { assert m * p >= (q + 1) * p == q * p + p; }
    if m < q { assert m * p <= (q - 1) * p == q * p - p; }
  }

  lemma Quotient(y: nat, k: nat)
    ensures Shr(y, k) * Pow2(k) <= y < Shr(y, k) * Pow2(k) + Pow2(k)
  {
    Split(y, k);
    ShlTimes(Shr(y, k), k);
  }

  /** For a power of two, `ALIGN_DOWN` is the greatest multiple not above its argument. */
  lemma AlignDownIsGreatest(x: u64, k: nat, m: nat)
    requires k <= 64
    ensures 0 < Pow2(k) <= TWO64
    ensures var r := AlignDown(x, Pow2(k));
      r <= x && MultipleOf(r, Pow2(k)) && (m * Pow2(k) <= x ==> m * Pow2(k) <= r)
  {
    AlignDownIs(x, k, 64);
    Quotient(x, k);
    LastMultiple(x, Shr(x, k), Pow2(k), m);
  }

  /** For a power of two, `ALIGN_UP` is the least multiple not below its argument. */
  lemma AlignUpIsLeast(x: nat, k: nat, m: nat)
    requires k <= 64 && x + Pow2(k) - 1 < TWO64
    ensures 0 < Pow2(k) <= TWO64
    ensures var r := AlignUp(x, Pow2(k));
      x <= r && MultipleOf(r, Pow2(k)) && (x <= m * Pow2(k) ==> r <= m * Pow2(k))
  {
    var y := x + Pow2(k) - 1;
    AlignDownIs(y, k, 64);
    Quotient(y, k);
    LastMultiple(y, Shr(y, k), Pow2(k), m);
    assert AlignUp(x, Pow2(k)) == AlignDown(y, Pow2(k));
    if x <= m * Pow2(k) && m > Shr(y, k) { LastMultiple(y, Shr(y, k), Pow2(k), m); }
    Times(Shr(y, k), m, Pow2(k));
  }

  lemma AlignUp4096(x: nat)
    requires x + 0xFFF < TWO64
    ensures AlignUp(x, 0x1000) == (x + 0xFFF) / 0x1000 * 0x1000
  {
    SmallPowers();
    AlignDownIs(x + 0xFFF, 12, 64);
    ShiftBy12(x + 0xFFF);
  }
}
