/** Translation table descriptors and virtual addresses: the bit layout of
    sys/kernel/include/aarch64/mm/mmu.h and the index arithmetic of sys/kernel/aarch64/mm/mmu.c. */
module Descriptors {
  import opened Bits

  // sys/kernel/include/aarch64/mm/mmu.h
  const PTE_P: nat := Shl(1, 0)
  const PTE_TBL: nat := Shl(1, 1)
  const PTE_U: nat := Shl(1, 6)
  const PTE_RO: nat := Shl(1, 7)
  const PTE_AF: nat := Shl(1, 10)
  const PTE_PXN: nat := Shl(1, 53)
  const PTE_UXN: nat := Shl(1, 54)
  const PTE_NX: nat := Or(PTE_PXN, PTE_UXN)
  const PTE_ADDR_MASK: nat := 0x0000_FFFF_FFFF_F000

  // sys/kernel/include/mm/vmm.h
  const VMM_WRITABLE: nat := Shl(1, 1)
  const VMM_USER: nat := Shl(1, 2)
  const VMM_EXEC: nat := Shl(1, 3)

  // ----- the descriptors the kernel writes -----

  /** The attribute bits `aarch64_map_page` derives from the VMM flags. */
  function Attributes(flags: nat): nat
  {
    var base := Or(Or(PTE_P, PTE_AF), PTE_TBL);
    var ro := if And(flags, VMM_WRITABLE) == 0 then Or(base, PTE_RO) else base;
    var nx := if And(flags, VMM_EXEC) == 0 then Or(ro, PTE_NX) else ro;
    if And(flags, VMM_USER) != 0 then Or(nx, PTE_U) else nx
  }

  /** The leaf descriptor `aarch64_map_page` stores. */
  function Leaf(phys: nat, flags: nat): nat
  {
    Or(Or(Or(Or(PTE_P, PTE_AF), PTE_TBL), phys), Attributes(flags))
  }

  /** The descriptor `next_level` stores for a new table in frame `n`. */
  function Link(n: nat): nat
  {
    4096 * n + 3
  }

  // ----- how the kernel reads them -----

  predicate IsTable(w: nat)
  {
    w % 4 == 3
  }

  function FrameOf(w: nat): (f: nat)
    ensures f < 0x10_0000_0000
  {
    w / 4096 % 0x10_0000_0000
  }

  lemma IsTableIsMask(w: nat)
    ensures And(w, Or(PTE_P, PTE_TBL)) == Or(PTE_P, PTE_TBL) <==> IsTable(w)
  {
    assert Or(PTE_P, PTE_TBL) == 3;
    hide Or;
    LowTwo(w, 2);
  }

  lemma LowTwo(w: nat, n: nat)
    requires n == 2
    ensures And(w, 3) == w % 4
  {
    hide And;
    MaskField(w, n, 0);
    assert Pow2(n) == 2 * Pow2(n - 1) == 4;
    assert Low(w, n) == 2 * Low(w / 2, n - 1) + w % 2;
    assert Low(w / 2, n - 1) == w / 2 % 2;
  }

  lemma AddressMask(w: nat)
    ensures And(w, PTE_ADDR_MASK) == 4096 * FrameOf(w)
  {
    hide And;
    FieldAt12(w, 36, 12);
  }

  lemma MaskIsField(n: nat, k: nat)
    requires n == 36 && k == 12
    ensures PTE_ADDR_MASK == Shl(Pow2(n) - 1, k)
  {
    Power(n);
    ShiftBy12(0xF_FFFF_FFFF);
  }

  lemma FieldAt12(w: nat, n: nat, k: nat)
    requires n == 36 && k == 12
    ensures And(w, PTE_ADDR_MASK) == 4096 * (w / 4096 % 0x10_0000_0000)
  {
    hide And, Low;
    MaskIsField(n, k);
    MaskField(w, n, k);
    ShiftBy12(w);
    ShiftBy12(Low(Shr(w, k), n));
    LowMod36(Shr(w, k));
  }

  lemma LowMod36(x: nat)
    ensures Low(x, 36) == x % 0x10_0000_0000
  {
    Power(36);
    var q := LowModulus(x, 36);
    ModUnique36(x, q, Low(x, 36));
  }

  lemma ModUnique36(x: nat, q: nat, r: nat)
    requires r < 0x10_0000_0000 && x == q * 0x10_0000_0000 + r
    ensures x % 0x10_0000_0000 == r
  {}

  lemma {:induction false} LowModulus(x: nat, n: nat) returns (q: nat)
    ensures x == q * Pow2(n) + Low(x, n)
    decreases n
  {
    if n == 0 {
      q := x;
    } else {
      q := LowModulus(x / 2, n - 1);
      assert q * Pow2(n) == 2 * (q * Pow2(n - 1));
    }
  }

  /** The value `next_level` stores and what it reads back from it. */
  lemma LinkWord(n: nat)
    requires n < 0x10_0000_0000
    ensures Or(Or(4096 * n, PTE_P), PTE_TBL) == Link(n)
  {
    var a := 4096 * n;
    assert And(a, 1) == 0;
    OrIsSum(a, 1);
    assert And(a + 1, 2) == 0 by { assert (a + 1) / 2 == 2048 * n; assert And(2048 * n, 1) == 0; }
    OrIsSum(a + 1, 2);
    assert PTE_P == 1 && PTE_TBL == 2;
  }

  lemma LinkReads(n: nat)
    requires n < 0x10_0000_0000
    ensures Link(n) < TWO64 && IsTable(Link(n)) && FrameOf(Link(n)) == n
  {
    LinkArithmetic(n, Link(n));
  }

  lemma LinkArithmetic(n: nat, w: nat)
    requires n < 0x10_0000_0000 && w == 4096 * n + 3
    ensures w < 0x1_0000_0000_0000_0000 && w % 4 == 3 && w / 4096 % 0x10_0000_0000 == n
  {
    assert w / 4096 == n;
  }

  // ----- leaf descriptors, bit by bit -----

  ghost predicate AttributeBit(flags: nat, k: nat)
  {
    || k == 0 || k == 1 || k == 10
    || (k == 7 && And(flags, VMM_WRITABLE) == 0)
    || ((k == 53 || k == 54) && And(flags, VMM_EXEC) == 0)
    || (k == 6 && And(flags, VMM_USER) != 0)
  }

  lemma AttributeBits(flags: nat, k: nat)
    ensures Bit(Attributes(flags), k) <==> AttributeBit(flags, k)
  {
    var base := Or(Or(PTE_P, PTE_AF), PTE_TBL);
    var ro := if And(flags, VMM_WRITABLE) == 0 then Or(base, PTE_RO) else base;
    var nx := if And(flags, VMM_EXEC) == 0 then Or(ro, PTE_NX) else ro;
    hide And, Or, Bit, Shl;
    BaseBits(k);
    OptionalBits(And(flags, VMM_WRITABLE) == 0, base, PTE_RO, k);
    OptionalBits(And(flags, VMM_EXEC) == 0, ro, PTE_NX, k);
    OptionalBits(And(flags, VMM_USER) != 0, nx, PTE_U, k);
    SingleBits(k);
  }

  lemma OptionalBits(present: bool, x: nat, y: nat, k: nat)
    ensures Bit(if present then Or(x, y) else x, k) <==> Bit(x, k) || (present && Bit(y, k))
  {
    hide Or, Bit;
    OrBit(x, y, k);
  }

  lemma SingleBits(k: nat)
    ensures Bit(PTE_RO, k) <==> k == 7
    ensures Bit(PTE_NX, k) <==> k == 53 || k == 54
    ensures Bit(PTE_U, k) <==> k == 6
  {
    hide Or, Bit, Shl;
    OneHot(7, k); OneHot(6, k); OneHot(53, k); OneHot(54, k);
    OrBit(PTE_PXN, PTE_UXN, k);
  }

  lemma BaseBits(k: nat)
    ensures Bit(Or(Or(PTE_P, PTE_AF), PTE_TBL), k) <==> k == 0 || k == 1 || k == 10
  {
    hide Or, Bit, Shl;
    OrBit(Or(PTE_P, PTE_AF), PTE_TBL, k);
    OrBit(PTE_P, PTE_AF, k);
    OneHot(0, k); OneHot(10, k); OneHot(1, k);
  }

  /** A stored leaf has exactly the bits of `phys` and the attribute bits. */
  lemma LeafBits(phys: nat, flags: nat, k: nat)
    ensures Bit(Leaf(phys, flags), k) <==> Bit(phys, k) || AttributeBit(flags, k)
  {
    var base := Or(Or(PTE_P, PTE_AF), PTE_TBL);
    OrBit(Or(base, phys), Attributes(flags), k);
    OrBit(base, phys, k);
    BaseBits(k);
    AttributeBits(flags, k);
  }

  lemma AddressMaskBit(k: nat)
    ensures Bit(PTE_ADDR_MASK, k) <==> 12 <= k < 48
  {
    MaskIsField(36, 12);
    FieldBit(36, 12, k);
  }

  lemma FieldBit(n: nat, j: nat, k: nat)
    ensures Bit(Shl(Pow2(n) - 1, j), k) <==> j <= k < j + n
  {
    ShlBit(Pow2(n) - 1, j, k);
    if k >= j { OnesBit(n, k - j); }
  }

  /** The address field of a leaf is the address field of `phys`, whatever `phys` and the flags
      are: attribute bits never reach into the address. */
  lemma LeafAddress(phys: nat, flags: nat)
    ensures And(Leaf(phys, flags), PTE_ADDR_MASK) == And(phys, PTE_ADDR_MASK)
  {
    var (x, y) := (And(Leaf(phys, flags), PTE_ADDR_MASK), And(phys, PTE_ADDR_MASK));
    forall k: nat ensures Bit(x, k) <==> Bit(y, k) {
      AndBit(Leaf(phys, flags), PTE_ADDR_MASK, k);
      AndBit(phys, PTE_ADDR_MASK, k);
      AddressMaskBit(k);
      LeafBits(phys, flags, k);
    }
    BitsDetermine(x, y);
  }

  lemma AlignedIsMasked(phys: nat)
    requires phys % 4096 == 0 && phys < 0x1_0000_0000_0000
    ensures And(phys, PTE_ADDR_MASK) == phys
  {
    hide And;
    AddressMask(phys);
    ModUnique36(phys / 4096, 0, phys / 4096);
  }

  /** Every field of a leaf reads back: the frame address and the write, execute and user rights. */
  lemma LeafRoundTrip(phys: nat, flags: nat)
    requires phys % 4096 == 0 && phys < 0x1_0000_0000_0000
    ensures And(Leaf(phys, flags), PTE_ADDR_MASK) == phys
    ensures And(Leaf(phys, flags), PTE_RO) != 0 <==> And(flags, VMM_WRITABLE) == 0
    ensures And(Leaf(phys, flags), PTE_PXN) != 0 <==> And(flags, VMM_EXEC) == 0
    ensures And(Leaf(phys, flags), PTE_UXN) != 0 <==> And(flags, VMM_EXEC) == 0
    ensures And(Leaf(phys, flags), PTE_U) != 0 <==> And(flags, VMM_USER) != 0
  {
    LeafAddress(phys, flags);
    AlignedIsMasked(phys);
    forall k: nat | k < 12 || 48 <= k ensures !Bit(phys, k) {
      AndBit(phys, PTE_ADDR_MASK, k); AddressMaskBit(k);
    }
    LeafAttribute(phys, flags, 7);
    LeafAttribute(phys, flags, 53);
    LeafAttribute(phys, flags, 54);
    LeafAttribute(phys, flags, 6);
  }

  /** Every bit of a leaf for an aligned address below 2^48: valid, page and access flag are set, bit 7
      makes it read-only, bit 6 lets user code in, bits 53 and 54 forbid execution, bits 12 to 47 are the
      address, and there is nothing else. */
  ghost predicate LeafBit(phys: nat, flags: nat, k: nat)
  {
    || k == 0 || k == 1 || k == 10
    || (k == 6 && Bit(flags, 2))
    || (k == 7 && !Bit(flags, 1))
    || (12 <= k < 48 && Bit(phys, k))
    || ((k == 53 || k == 54) && !Bit(flags, 3))
  }

  lemma LeafIs(phys: nat, flags: nat, k: nat)
    requires phys % 4096 == 0 && phys < 0x1_0000_0000_0000
    ensures Bit(Leaf(phys, flags), k) <==> LeafBit(phys, flags, k)
  {
    AlignedIsMasked(phys);
    hide And, Or, Bit, Shl, Leaf;
    AndBit(phys, PTE_ADDR_MASK, k);
    AddressMaskBit(k);
    LeafBits(phys, flags, k);
    TestBit(flags, 1);
    TestBit(flags, 2);
    TestBit(flags, 3);
  }

  lemma LeafAttribute(phys: nat, flags: nat, k: nat)
    ensures And(Leaf(phys, flags), Shl(1, k)) != 0 <==> Bit(phys, k) || AttributeBit(flags, k)
  {
    TestBit(Leaf(phys, flags), k);
    LeafBits(phys, flags, k);
  }

  /** A leaf fits a word and is present and page-typed, so it is never zero. */
  lemma LeafIsTable(phys: u64, flags: nat)
    ensures Leaf(phys, flags) < TWO64 && IsTable(Leaf(phys, flags))
  {
    var w := Leaf(phys, flags);
    LeafBits(phys, flags, 0); LeafBits(phys, flags, 1);
    LowBits(w);
    forall k: nat | k >= 64 ensures !Bit(w, k) {
      LeafBits(phys, flags, k);
      HighBit(phys, k);
    }
    NoHighBits(w);
  }

  lemma LowBits(w: nat)
    requires Bit(w, 0) && Bit(w, 1)
    ensures IsTable(w)
  {
    assert w % 2 == 1 && w / 2 % 2 == 1;
    hide Bit;
    assert w == 4 * (w / 4) + 3;
  }

  lemma HighBit(x: u64, k: nat)
    requires k >= 64
    ensures !Bit(x, k)
  {
    Power(64);
    ShrZero(x, 64);
    ShrBit(x, 64, k - 64);
    BitOfZero(k - 64);
  }

  lemma NoHighBits(w: nat)
    requires forall k: nat :: k >= 64 ==> !Bit(w, k)
    ensures w < TWO64
  {
    Power(64);
    ShrZero(w, 64);
    if Shr(w, 64) != 0 {
      var k := NonzeroBit(Shr(w, 64));
      ShrBit(w, 64, k);
    }
  }

  // ----- virtual addresses -----

  /** Which translation root `vaddr` selects. */
  function TtbrIndex(v: nat): (r: nat)
    ensures r < 2
  {
    if And(v, Shl(0x7FF_FFFF, 37)) != 0 then 1 else 0
  }

  /** The four table indices of `vaddr`, outermost first. */
  function Indices(v: nat): (p: seq<nat>)
    ensures |p| == 4
  {
    [And(Shr(v, 39), 0x1FF), And(Shr(v, 30), 0x1FF), And(Shr(v, 21), 0x1FF), And(Shr(v, 12), 0x1FF)]
  }

  lemma And1FF(x: nat)
    ensures And(x, 0x1FF) == x % 512
  {
    SmallPowers();
    MaskField(x, 9, 0);
    ShiftBy9(x);
  }

  lemma IndicesAre(v: nat)
    ensures Indices(v) == [v / 0x80_0000_0000 % 512, v / 0x4000_0000 % 512, v / 0x20_0000 % 512, v / 0x1000 % 512]
  {
    WalkShifts(v);
    And1FF(Shr(v, 39)); And1FF(Shr(v, 30)); And1FF(Shr(v, 21)); And1FF(Shr(v, 12));
  }

  lemma TtbrIndexIs(v: u64)
    ensures TtbrIndex(v) == if v < 0x20_0000_0000 then 0 else 1
  {
    TtbrMask(v, 27, 37);
  }

  /** The 27 bits from bit 37 up are all zero exactly for the words below 2^37. */
  lemma TtbrMask(v: u64, n: nat, k: nat)
    requires n == 27 && k == 37
    ensures And(v, Shl(0x7FF_FFFF, k)) == 0 <==> v < 0x20_0000_0000
  {
    hide And, Low, Shr, Shl;
    Power(n + 1);
    Power(k - 1);
    Power(n + k);
    assert Pow2(n + 1) == 2 * Pow2(n) && Pow2(k) == 2 * Pow2(k - 1);
    MaskField(v, n, k);
    ShrBound(v, k, n);
    LowId(Shr(v, k), n);
    ShlZero(Shr(v, k), k);
    ShrZero(v, k);
  }

  // ----- page keys: what the walk distinguishes -----

  /** The root and the four indices: everything of an address the walk looks at. */
  datatype Key = Key(root: nat, path: seq<nat>)

  function KeyOf(v: nat): Key
  {
    Key(TtbrIndex(v), Indices(v))
  }

  predicate LowerHalf(v: nat) { v < 0x1_0000_0000_0000 }

  predicate UpperHalf(v: nat) { 0xFFFF_0000_0000_0000 <= v < TWO64 }

  /** The 36-bit page number under the 48-bit address, and the half of memory, decide the key. */
  lemma SameKey(v: u64, w: u64)
    ensures KeyOf(v) == KeyOf(w) <==>
            v / 4096 % 0x10_0000_0000 == w / 4096 % 0x10_0000_0000 &&
            (v < 0x20_0000_0000 <==> w < 0x20_0000_0000)
  {
    TtbrIndexIs(v); TtbrIndexIs(w);
    IndicesAre(v); IndicesAre(w);
    Digits(v); Digits(w);
    var (p, q) := (Indices(v), Indices(w));
    if p[0] == q[0] && p[1] == q[1] && p[2] == q[2] && p[3] == q[3] {
      assert p == q;
    }
    FourDigits(p[0], p[1], p[2], p[3], q[0], q[1], q[2], q[3]);
  }

  /** The four indices are the base-512 digits of the page number. */
  lemma Digits(v: u64)
    ensures v / 4096 % 0x10_0000_0000 ==
            0x800_0000 * (v / 0x80_0000_0000 % 512) + 0x4_0000 * (v / 0x4000_0000 % 512)
            + 0x200 * (v / 0x20_0000 % 512) + v / 0x1000 % 512
  {
    DivBy512(v, 0x1000); DivBy512(v, 0x20_0000); DivBy512(v, 0x4000_0000);
    var a := v / 0x1000;
    var b := v / 0x20_0000;
    var c := v / 0x4000_0000;
    var d := v / 0x80_0000_0000;
    assert a == 512 * b + a % 512 && b == 512 * c + b % 512 && c == 512 * d + c % 512;
    assert d == 512 * (d / 512) + d % 512;
    var low := 0x800_0000 * (d % 512) + 0x4_0000 * (c % 512) + 0x200 * (b % 512) + a % 512;
    assert a == (d / 512) * 0x10_0000_0000 + low;
    ModUnique36(a, d / 512, low);
  }

  lemma FourDigits(a: nat, b: nat, c: nat, d: nat, a': nat, b': nat, c': nat, d': nat)
    requires a < 512 && b < 512 && c < 512 && d < 512 && a' < 512 && b' < 512 && c' < 512 && d' < 512
    ensures 0x800_0000 * a + 0x4_0000 * b + 0x200 * c + d == 0x800_0000 * a' + 0x4_0000 * b' + 0x200 * c' + d'
            <==> a == a' && b == b' && c == c' && d == d'
  {}

  /** No two pages share a key among the first 2^37 bytes and the upper half. */
  lemma KeyIsInjective(v: u64, w: u64)
    requires v < 0x20_0000_0000 || UpperHalf(v)
    requires w < 0x20_0000_0000 || UpperHalf(w)
    ensures KeyOf(v) == KeyOf(w) <==> v / 4096 == w / 4096
  {
    SameKey(v, w);
    PageNumber(v); PageNumber(w);
  }

  lemma PageNumber(v: u64)
    ensures LowerHalf(v) ==> v / 4096 % 0x10_0000_0000 == v / 4096
    ensures UpperHalf(v) ==> v / 4096 % 0x10_0000_0000 == v / 4096 - 0xF_FFF0_0000_0000
  {
    if LowerHalf(v) {
      ModUnique36(v / 4096, 0, v / 4096);
    } else if UpperHalf(v) {
      ModUnique36(v / 4096, 0xFFFF, v / 4096 - 0xF_FFF0_0000_0000);
    }
  }

  predicate Canonical(v: nat) { LowerHalf(v) || UpperHalf(v) }

  /** The address inside its half. */
  function Offset(v: nat): nat
    requires Canonical(v)
  {
    if LowerHalf(v) then v else v - 0xFFFF_0000_0000_0000
  }

  predicate Twins(v: nat, w: nat)
  {
    Canonical(w) && w / 4096 != v / 4096 && KeyOf(w) == KeyOf(v)
  }

  lemma TwinExists(v: u64) returns (w: u64)
    requires Canonical(v) && Offset(v) >= 0x20_0000_0000
    ensures Twins(v, w)
  {
    w := if LowerHalf(v) then v + 0xFFFF_0000_0000_0000 else v - 0xFFFF_0000_0000_0000;
    assert w / 4096 == if LowerHalf(v) then v / 4096 + 0xF_FFF0_0000_0000 else v / 4096 - 0xF_FFF0_0000_0000;
    PageNumber(v);
    PageNumber(w);
    SameKey(w, v);
  }

  lemma NoTwin(v: u64, w: u64)
    requires Canonical(v) && Offset(v) < 0x20_0000_0000
    ensures !Twins(v, w)
  {
    if Twins(v, w) {
      PageNumber(v);
      PageNumber(w);
      SameKey(w, v);
      SamePage(v, w);
    }
  }

  lemma SamePage(v: u64, w: u64)
    requires Canonical(v) && Canonical(w) && Offset(v) < 0x20_0000_0000
    requires v < 0x20_0000_0000 <==> w < 0x20_0000_0000
    requires (if LowerHalf(v) then v / 4096 else v / 4096 - 0xF_FFF0_0000_0000)
          == (if LowerHalf(w) then w / 4096 else w / 4096 - 0xF_FFF0_0000_0000)
    ensures v / 4096 == w / 4096
  {}

  /** Because the root is chosen by bits 37 to 63, canonical addresses do alias outside that
      domain: exactly the pages at or above 2^37 in each half have a twin in the other half. */
  lemma CanonicalAliases(v: u64)
    requires Canonical(v)
    ensures (exists w: u64 :: Twins(v, w)) <==> Offset(v) >= 0x20_0000_0000
  {
    if Offset(v) >= 0x20_0000_0000 {
      var w := TwinExists(v);
    } else {
      forall w: u64 ensures !Twins(v, w) { NoTwin(v, w); }
    }
  }

  /** The lowest aliasing pair. */
  lemma AliasExample()
    ensures Twins(0x20_0000_0000, 0xFFFF_0020_0000_0000)
  {
    hide KeyOf;
    SameKey(0xFFFF_0020_0000_0000, 0x20_0000_0000);
  }

  /** The root the hardware uses for a canonical address when both translation regions are 48 bits
      wide: the lower half goes through TTBR0, the upper half through TTBR1. */
  function HardwareRoot(v: nat): nat
    requires Canonical(v)
  {
    if LowerHalf(v) then 0 else 1
  }

  /** The kernel edits the root the hardware walks, except precisely for lower-half addresses at
      or above 2^37. */
  lemma RootMatchesHardware(v: u64)
    requires Canonical(v)
    ensures TtbrIndex(v) == HardwareRoot(v) <==> !(LowerHalf(v) && Offset(v) >= 0x20_0000_0000)
  {
    hide TtbrIndex;
    TtbrIndexIs(v);
  }
}
