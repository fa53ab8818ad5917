/** sys/kernel/utils/bitmap.c: one bit per page frame in an array of bytes. */
module Bitmap {
  import opened Bits

  /** The bits of a byte array, lowest bit of the first byte first. */
  ghost function BitsOf(s: seq<u8>): (r: seq<bool>)
    ensures |r| == 8 * |s|
  {
    seq(8 * |s|, k requires 0 <= k < 8 * |s| => Bit(s[k / 8], k % 8))
  }

  lemma ByteShift(k: nat)
    requires k < 8
    ensures Shl(1, k) < 0x100 == Pow2(8)
  {
    SmallPowers();
    ShlOne(k);
    Pow2Monotone(k, 8);
  }

  /** Changing one byte changes the bits of that byte only. */
  lemma BitsAfter(s: seq<u8>, bit: nat, b: u8, v: bool)
    requires bit < 8 * |s|
    requires forall k: nat :: k < 8 ==> (Bit(b, k) <==> if k == bit % 8 then v else Bit(s[bit / 8], k))
    ensures BitsOf(s[bit / 8 := b]) == BitsOf(s)[bit := v]
  {
    var (x, y) := (BitsOf(s[bit / 8 := b]), BitsOf(s)[bit := v]);
    forall k | 0 <= k < 8 * |s| ensures x[k] == y[k] {
      if k / 8 == bit / 8 { assert k % 8 == bit % 8 <==> k == bit; }
    }
  }

  /** Bits on either side of one that differs: the numbers are that power of two apart. */
  lemma {:induction false} OneBitApart(x: nat, y: nat, n: nat)
    requires Bit(y, n) && forall k: nat :: Bit(x, k) <==> k != n && Bit(y, k)
    ensures y == x + Pow2(n)
    decreases n
  {
    assert Bit(x, 0) <==> 0 != n && Bit(y, 0);
    forall k: nat ensures Bit(x / 2, k) <==> k + 1 != n && Bit(y / 2, k) {
      assert Bit(x, k + 1) <==> Bit(x / 2, k);
    }
    if n == 0 { BitsDetermine(x / 2, y / 2); } else { OneBitApart(x / 2, y / 2, n - 1); }
  }

  /** Setting a bit adds its power of two to the byte, unless it was set. */
  lemma ByteSet(b: u8, n: nat)
    requires n < 8
    ensures Or(b, Shl(1, n)) == b + if Bit(b, n) then 0 else Pow2(n)
  {
    var r := Or(b, Shl(1, n));
    forall k: nat ensures Bit(r, k) <==> k == n || Bit(b, k) { OrBit(b, Shl(1, n), k); OneHot(n, k); }
    hide Or, Shl, Bit, Pow2;
    if Bit(b, n) { BitsDetermine(r, b); } else { OneBitApart(b, r, n); }
  }

  /** Clearing a bit takes its power of two away, if it was set. */
  lemma ByteCleared(b: u8, n: nat)
    requires n < 8
    ensures Shl(1, n) < Pow2(8)
    ensures b == And(b, Not(8, Shl(1, n))) + if Bit(b, n) then Pow2(n) else 0
  {
    ByteShift(n);
    var mask := Not(8, Shl(1, n));
    var r := And(b, mask);
    forall k: nat ensures Bit(r, k) <==> k != n && Bit(b, k) {
      AndBit(b, mask, k);
      OneHot(n, k);
      if k < 8 { NotBit(8, Shl(1, n), k); } else { LowId(b, 8); LowBit(b, 8, k); }
    }
    hide And, Shl, Bit, Pow2, Not;
    if Bit(b, n) { OneBitApart(r, b, n); } else { BitsDetermine(r, b); }
  }

  method SetBit(bitmap: array<u8>, bit: nat)
    requires bit / 8 < bitmap.Length
    modifies bitmap
    ensures BitsOf(bitmap[..]) == BitsOf(old(bitmap[..]))[bit := true]
    ensures bitmap[bit / 8] == old(bitmap[bit / 8]) + if old(BitsOf(bitmap[..])[bit]) then 0 else Pow2(bit % 8)
  {
    ghost var was := bitmap[..];
    var (byte, mask) := (bitmap[bit / 8], Shl(1, bit % 8));
    ByteShift(bit % 8);
    OrBound(8, byte, mask);
    bitmap[bit / 8] := Or(byte, mask);
    forall k: nat | k < 8 ensures Bit(Or(byte, mask), k) <==> if k == bit % 8 then true else Bit(byte, k) {
      OrBit(byte, mask, k); OneHot(bit % 8, k);
    }
    BitsAfter(was, bit, Or(byte, mask), true);
    ByteSet(byte, bit % 8);
    assert bitmap[..] == was[bit / 8 := bitmap[bit / 8]];
  }

  method UnsetBit(bitmap: array<u8>, bit: nat)
    requires bit / 8 < bitmap.Length
    modifies bitmap
    ensures BitsOf(bitmap[..]) == BitsOf(old(bitmap[..]))[bit := false]
    ensures old(bitmap[bit / 8]) == bitmap[bit / 8] + if old(BitsOf(bitmap[..])[bit]) then Pow2(bit % 8) else 0
  {
    ghost var was := bitmap[..];
    ByteShift(bit % 8);
    var (byte, mask) := (bitmap[bit / 8], Not(8, Shl(1, bit % 8)));
    bitmap[bit / 8] := And(byte, mask);
    forall k: nat | k < 8 ensures Bit(And(byte, mask), k) <==> if k == bit % 8 then false else Bit(byte, k) {
      AndBit(byte, mask, k); NotBit(8, Shl(1, bit % 8), k); OneHot(bit % 8, k);
    }
    BitsAfter(was, bit, And(byte, mask), false);
    ByteCleared(byte, bit % 8);
    assert bitmap[..] == was[bit / 8 := bitmap[bit / 8]];
  }

  method TestBitmap(bitmap: array<u8>, bit: nat) returns (used: bool)
    requires bit / 8 < bitmap.Length
    ensures used == BitsOf(bitmap[..])[bit]
  {
    used := And(bitmap[bit / 8], Shl(1, bit % 8)) != 0;
    TestBit(bitmap[bit / 8], bit % 8);
  }
}
