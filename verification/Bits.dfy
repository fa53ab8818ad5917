/** Unsigned machine words as bounded naturals, with the C operators `&`, `|`, `~`, `<<` and `>>`
    given by their bit-by-bit meaning. */
module Bits {

  const TWO64: nat := 0x1_0000_0000_0000_0000

  type u8 = x: nat | x < 0x100
  type u32 = x: nat | x < 0x1_0000_0000
  type u64 = x: nat | x < 0x1_0000_0000_0000_0000

  /** `x << k`, without truncation. */
  function Shl(x: nat, k: nat): nat
    decreases k
  {
    if k == 0 then x else 2 * Shl(x, k - 1)
  }

  /** `x >> k`. */
  function Shr(x: nat, k: nat): nat
    decreases k
  {
    if k == 0 then x else Shr(x / 2, k - 1)
  }

  function Pow2(n: nat): (p: nat)
    ensures p >= 1
  {
    if n == 0 then 1 else 2 * Pow2(n - 1)
  }

  /** The `n` low bits of `x`. */
  function Low(x: nat, n: nat): (r: nat)
    ensures r < Pow2(n)
    decreases n, x
  {
    if n == 0 then 0 else 2 * Low(x / 2, n - 1) + x % 2
  }

  /** Bit `k` of `x`. */
  predicate Bit(x: nat, k: nat)
    decreases k
  {
    if k == 0 then x % 2 == 1 else Bit(x / 2, k - 1)
  }

  /** Bitwise `&`. */
  function And(x: nat, y: nat): (r: nat)
    ensures r <= x && r <= y
  {
    if x == 0 || y == 0 then 0
    else 2 * And(x / 2, y / 2) + (if x % 2 == 1 && y % 2 == 1 then 1 else 0)
  }

  /** Bitwise `|`. */
  function Or(x: nat, y: nat): (r: nat)
    ensures x <= r && y <= r
    ensures r <= x + y
  {
    if x == 0 then y
    else if y == 0 then x
    else 2 * Or(x / 2, y / 2) + (if x % 2 == 1 || y % 2 == 1 then 1 else 0)
  }

  /** Bitwise `~` on a word of `n` bits. */
  function Not(n: nat, x: nat): nat
    requires x < Pow2(n)
  {
    Pow2(n) - 1 - x
  }

  // ----- the operators mean what their names say, bit by bit -----

  lemma {:induction false} BitOfZero(k: nat)
    ensures !Bit(0, k)
  {
    if k == 0 {
    } else {
      BitOfZero(k - 1);
    }
  }

  lemma AndHalf(x: nat, y: nat)
    ensures And(x, y) / 2 == And(x / 2, y / 2)
    ensures And(x, y) % 2 == 1 <==> x % 2 == 1 && y % 2 == 1
  {}

  lemma OrHalf(x: nat, y: nat)
    ensures Or(x, y) / 2 == Or(x / 2, y / 2)
    ensures Or(x, y) % 2 == 1 <==> x % 2 == 1 || y % 2 == 1
  {}

  lemma {:induction false} AndBit(x: nat, y: nat, k: nat)
    ensures Bit(And(x, y), k) <==> Bit(x, k) && Bit(y, k)
    decreases k
  {
    hide And;
    AndHalf(x, y);
    if k == 0 {
    } else {
      AndBit(x / 2, y / 2, k - 1);
    }
  }

  lemma {:induction false} OrBit(x: nat, y: nat, k: nat)
    ensures Bit(Or(x, y), k) <==> Bit(x, k) || Bit(y, k)
    decreases k
  {
    hide Or;
    OrHalf(x, y);
    if k == 0 {
    } else {
      OrBit(x / 2, y / 2, k - 1);
    }
  }

  lemma {:induction false} NotBit(n: nat, x: nat, k: nat)
    requires x < Pow2(n) && k < n
    ensures Bit(Not(n, x), k) <==> !Bit(x, k)
  {
    if k == 0 {
    } else {
      assert Not(n, x) / 2 == Not(n - 1, x / 2);
      NotBit(n - 1, x / 2, k - 1);
    }
  }

  lemma {:induction false} ShlBit(x: nat, n: nat, k: nat)
    ensures Bit(Shl(x, n), k) <==> n <= k && Bit(x, k - n)
    decreases n
  {
    if n == 0 || k == 0 {
    } else {
      ShlBit(x, n - 1, k - 1);
      assert Shl(x, n) / 2 == Shl(x, n - 1);
    }
  }

  lemma {:induction false} ShrBit(x: nat, n: nat, k: nat)
    ensures Bit(Shr(x, n), k) <==> Bit(x, k + n)
    decreases n
  {
    if n == 0 {
    } else {
      ShrBit(x / 2, n - 1, k);
    }
  }

  lemma {:induction false} LowBit(x: nat, n: nat, k: nat)
    ensures Bit(Low(x, n), k) <==> k < n && Bit(x, k)
    decreases n
  {
    if n == 0 {
      BitOfZero(k);
    } else if k > 0 {
      LowBit(x / 2, n - 1, k - 1);
      assert Low(x, n) / 2 == Low(x / 2, n - 1);
    }
  }

  /** Two words with the same bits are equal. */
  lemma {:induction false} BitsDetermine(x: nat, y: nat)
    requires forall k: nat :: Bit(x, k) <==> Bit(y, k)
    ensures x == y
    decreases x + y
  {
    if x == 0 && y == 0 {
    } else {
      assert Bit(x, 0) <==> Bit(y, 0);
      forall k: nat ensures Bit(x / 2, k) <==> Bit(y / 2, k) {
        assert Bit(x, k + 1) <==> Bit(y, k + 1);
      }
      BitsDetermine(x / 2, y / 2);
    }
  }

  // ----- algebra -----

  lemma {:induction false} OrBound(n: nat, x: nat, y: nat)
    requires x < Pow2(n) && y < Pow2(n)
    ensures Or(x, y) < Pow2(n)
  {
    if n == 0 || x == 0 || y == 0 {
    } else {
      OrBound(n - 1, x / 2, y / 2);
    }
  }

  lemma {:induction false} LowMask(x: nat, n: nat)
    ensures And(x, Pow2(n) - 1) == Low(x, n)
    decreases n
  {
    hide And;
    AndHalf(x, Pow2(n) - 1);
    if n > 0 {
      LowMask(x / 2, n - 1);
      assert (Pow2(n) - 1) / 2 == Pow2(n - 1) - 1;
    } else {
      AndZero(x);
    }
  }

  /** Masking with `n` one-bits that start at bit `k` keeps exactly that field, in place. */
  lemma {:induction false} MaskField(x: nat, n: nat, k: nat)
    ensures And(x, Shl(Pow2(n) - 1, k)) == Shl(Low(Shr(x, k), n), k)
    decreases k
  {
    hide And, Low, Pow2;
    AndHalf(x, Shl(Pow2(n) - 1, k));
    if k > 0 { MaskField(x / 2, n, k - 1); } else { LowMask(x, n); }
  }

  lemma AndZero(x: nat)
    ensures And(x, 0) == 0
  {}

  /** An `n`-bit field placed at bit `k`, with anything below bit `k`, is read back whole. */
  lemma {:induction false} ShrShl(x: nat, r: nat, k: nat)
    requires r < Pow2(k)
    ensures Shr(Shl(x, k) + r, k) == x
    decreases k
  {
    if k == 0 {
    } else {
      assert (Shl(x, k) + r) / 2 == Shl(x, k - 1) + r / 2;
      ShrShl(x, r / 2, k - 1);
    }
  }

  lemma {:induction false} LowId(x: nat, n: nat)
    requires x < Pow2(n)
    ensures Low(x, n) == x
    decreases n
  {
    if n == 0 {
    } else {
      LowId(x / 2, n - 1);
    }
  }

  /** A word is its high part and its low part. */
  lemma {:induction false} Split(x: nat, k: nat)
    ensures x == Shl(Shr(x, k), k) + Low(x, k)
    decreases k
  {
    if k == 0 {
    } else {
      Split(x / 2, k - 1);
    }
  }

  lemma {:induction false} ShrZero(x: nat, k: nat)
    ensures Shr(x, k) == 0 <==> x < Pow2(k)
    decreases k
  {
    if k == 0 {
    } else {
      ShrZero(x / 2, k - 1);
    }
  }

  lemma {:induction false} ShrBound(x: nat, k: nat, n: nat)
    requires x < Pow2(k + n)
    ensures Shr(x, k) < Pow2(n)
    decreases k
  {
    if k == 0 {
    } else {
      ShrBound(x / 2, k - 1, n);
    }
  }

  lemma {:induction false} ShlZero(x: nat, k: nat)
    ensures Shl(x, k) == 0 <==> x == 0
    decreases k
  {
    if k == 0 {
    } else {
      ShlZero(x, k - 1);
    }
  }

  /** `1 << n` has exactly bit `n`, and masking with it tests that bit. */
  lemma {:induction false} OneHot(n: nat, k: nat)
    ensures Bit(Shl(1, n), k) <==> k == n
  {
    ShlBit(1, n, k);
    if n < k { BitOfZero(k - n - 1); }
  }

  lemma {:induction false} OnesBit(n: nat, k: nat)
    ensures Bit(Pow2(n) - 1, k) <==> k < n
  {
    if n == 0 { BitOfZero(k); } else if k > 0 {
      assert (Pow2(n) - 1) / 2 == Pow2(n - 1) - 1;
      OnesBit(n - 1, k - 1);
    }
  }

  lemma {:induction false} NonzeroBit(x: nat) returns (k: nat)
    requires x != 0
    ensures Bit(x, k)
  {
    if x % 2 == 1 { k := 0; } else { var j := NonzeroBit(x / 2); k := j + 1; }
  }

  lemma TestBit(x: nat, n: nat)
    ensures And(x, Shl(1, n)) != 0 <==> Bit(x, n)
  {
    AndBit(x, Shl(1, n), n);
    OneHot(n, n);
    BitOfZero(n);
    if !Bit(x, n) {
      forall k: nat ensures Bit(And(x, Shl(1, n)), k) <==> Bit(0, k) {
        AndBit(x, Shl(1, n), k); OneHot(n, k); BitOfZero(k);
      }
      BitsDetermine(And(x, Shl(1, n)), 0);
    }
  }

  /** `|` of words with no bit in common is their sum. */
  lemma {:induction false} OrIsSum(x: nat, y: nat)
    requires And(x, y) == 0
    ensures Or(x, y) == x + y
  {
    if x == 0 || y == 0 {
    } else {
      OrIsSum(x / 2, y / 2);
    }
  }

  lemma {:induction false} ShlOne(n: nat)
    ensures Shl(1, n) == Pow2(n)
  {
    if n == 0 {
    } else {
      ShlOne(n - 1);
    }
  }

  lemma {:induction false} Pow2Monotone(m: nat, n: nat)
    requires m < n
    ensures 2 * Pow2(m) <= Pow2(n)
    decreases n
  {
    if m + 1 == n {
    } else {
      Pow2Monotone(m, n - 1);
    }
  }

  lemma Pow2Add8(n: nat)
    ensures Pow2(n + 8) == 0x100 * Pow2(n)
  {
    assert Pow2(n + 2) == 4 * Pow2(n);
    assert Pow2(n + 4) == 4 * Pow2(n + 2);
    assert Pow2(n + 6) == 4 * Pow2(n + 4);
  }

  lemma Times(a: int, b: int, p: nat)
    ensures a <= b ==> a * p <= b * p
  {}

  /** A page times a number is a multiple of the page. */
  lemma TimesPage(q: nat)
    ensures 0x1000 * q % 0x1000 == 0 && 0x1000 * q / 0x1000 == q
  {}

  lemma SmallPowers()
    ensures Pow2(8) == 0x100 && Pow2(9) == 0x200 && Pow2(12) == 0x1000
  {}

  /** Powers up to 64; `n` is a parameter so that the verifier does not unfold `Pow2` all the way. */
  lemma Power(n: nat)
    ensures n == 16 ==> Pow2(n) == 0x1_0000
    ensures n == 20 ==> Pow2(n) == 0x10_0000
    ensures n == 24 ==> Pow2(n) == 0x100_0000
    ensures n == 28 ==> Pow2(n) == 0x1000_0000
    ensures n == 32 ==> Pow2(n) == 0x1_0000_0000
    ensures n == 36 ==> Pow2(n) == 0x10_0000_0000
    ensures n == 40 ==> Pow2(n) == 0x100_0000_0000
    ensures n == 44 ==> Pow2(n) == 0x1000_0000_0000
    ensures n == 48 ==> Pow2(n) == 0x1_0000_0000_0000
    ensures n == 52 ==> Pow2(n) == 0x10_0000_0000_0000
    ensures n == 56 ==> Pow2(n) == 0x100_0000_0000_0000
    ensures n == 64 ==> Pow2(n) == TWO64
  {
    SmallPowers();
    if n >= 16 {
      Pow2Add8(n - 8);
      Power(n - 8);
    }
  }

  lemma {:induction false} ShrTwice(x: nat, a: nat, b: nat)
    ensures Shr(Shr(x, a), b) == Shr(x, a + b)
    decreases a
  {
    if a == 0 {
    } else {
      ShrTwice(x / 2, a - 1, b);
    }
  }

  lemma ShiftBy9(x: nat)
    ensures Shr(x, 9) == x / 0x200 && Shl(x, 9) == 0x200 * x && Low(x, 9) == x % 0x200
  {
    Split(x, 9);
    SmallPowers();
    assert Shl(x, 9) == 0x200 * x;
    assert Shl(Shr(x, 9), 9) == 0x200 * Shr(x, 9);
  }

  lemma ShiftBy12(x: nat)
    ensures Shr(x, 12) == x / 0x1000 && Shl(x, 12) == 0x1000 * x && Low(x, 12) == x % 0x1000
  {
    Split(x, 12);
    SmallPowers();
    assert Shl(x, 12) == 0x1000 * x;
    assert Shl(Shr(x, 12), 12) == 0x1000 * Shr(x, 12);
  }

  lemma DivBy512(x: nat, d: nat)
    requires d == 0x1000 || d == 0x20_0000 || d == 0x4000_0000
    ensures x / d / 0x200 == x / (0x200 * d)
  {}

  /** The shift amounts the page-table walk uses. */
  lemma WalkShifts(x: nat)
    ensures Shr(x, 12) == x / 0x1000
    ensures Shr(x, 21) == x / 0x20_0000
    ensures Shr(x, 30) == x / 0x4000_0000
    ensures Shr(x, 39) == x / 0x80_0000_0000
  {
    ShiftBy12(x);
    ShrNext(x, 12, 0x1000);
    ShrNext(x, 21, 0x20_0000);
    ShrNext(x, 30, 0x4000_0000);
  }

  lemma ShrNext(x: nat, k: nat, d: nat)
    requires d == 0x1000 || d == 0x20_0000 || d == 0x4000_0000
    requires Shr(x, k) == x / d
    ensures Shr(x, k + 9) == x / (0x200 * d)
  {
    ShrTwice(x, k, 9);
    ShiftBy9(x / d);
    DivBy512(x, d);
  }
}
