/** sys/kernel/aarch64/mm/mmu.c over an array of memory words and the frame allocator. */
module Mmu {
  import opened Bits
  import Align
  import opened Descriptors
  import opened Pool
  import opened FrameAllocator
  import opened Tables
  import TreeShape
  import opened PageMap
  import opened DeadLinks
  import Translations
  import opened Unmarked

  /** `struct aarch64_pagemap`. */
  datatype Pagemap = Pagemap(ttbr0: u64, ttbr1: u64, asid: nat)

  predicate Aligned(p: Pagemap)
  {
    p.ttbr0 % 0x1000 == 0 && p.ttbr1 % 0x1000 == 0
  }

  function Roots(p: Pagemap): (roots: seq<nat>)
    ensures |roots| == 2
  {
    [p.ttbr0 / 0x1000, p.ttbr1 / 0x1000]
  }

  /** `aarch64_get_pagemap`, on the values of the three system registers. */
  function GetPagemap(ttbr0El1: u64, ttbr1El1: u64, contextidrEl1: u64): Pagemap
  {
    Pagemap(And(ttbr0El1, PTE_ADDR_MASK), And(ttbr1El1, PTE_ADDR_MASK), And(contextidrEl1, 0xFFFF))
  }

  /** Whatever bits the registers hold beside the address, the roots come out page aligned and
      below 2^48; the address space number is the low half-word of its register. */
  lemma GetPagemapIsAligned(ttbr0: u64, ttbr1: u64, contextidr: u64)
    ensures var p := GetPagemap(ttbr0, ttbr1, contextidr);
      Aligned(p) && p.ttbr0 < 0x1_0000_0000_0000 && p.ttbr1 < 0x1_0000_0000_0000
      && Roots(p) == [FrameOf(ttbr0), FrameOf(ttbr1)] && p.asid == contextidr % 0x1_0000
  {
    hide And;
    HalfWord(contextidr, 16);
    TableAddress(ttbr0);
    TableAddress(ttbr1);
    AddressMask(ttbr0);
    AddressMask(ttbr1);
  }

  lemma HalfWord(x: nat, n: nat)
    requires n == 16
    ensures And(x, 0xFFFF) == x % 0x1_0000
  {
    hide And, Low, Pow2;
    Power(n);
    LowMask(x, n);
    var q := LowModulus(x, n);
    Remainder(x, q, Low(x, n));
  }

  lemma Remainder(x: nat, q: nat, r: nat)
    requires r < 0x1_0000 && x == q * 0x1_0000 + r
    ensures x % 0x1_0000 == r
  {}

  /** The extra mask `aarch64_translate_vaddr` puts on the root changes nothing then. */
  lemma RootMask(x: u64)
    requires x % 0x1000 == 0
    ensures And(x, Align.Complement(0x1FF)) == x
  {
    SmallPowers();
    Align.AlignDownIs(x, 9, 64);
    ShiftBy9(x);
    MultipleOf512(x);
  }

  lemma MultipleOf512(x: nat)
    requires x % 0x1000 == 0
    ensures x / 0x200 * 0x200 == x
  {
    assert x == 0x1000 * (x / 0x1000);
    assert x / 0x200 == 8 * (x / 0x1000);
  }

  lemma MarkedThree(s: Sys, f: nat, path: seq<nat>)
    requires Sized(s) && |path| == 3
    ensures var (s1, a) := Grow(s, f, path[0]);
      var (s2, b) := Grow(s1, a, path[1]);
      Descend(s, f, path) == Grow(s2, b, path[2])
  {
    var (s1, a) := Grow(s, f, path[0]);
    var (s2, b) := Grow(s1, a, path[1]);
    assert Descend(s2, b, path[2..]) == Grow(s2, b, path[2]);
    assert path[1..][1..] == path[2..];
  }

  lemma RawThree(s: Sys, f: nat, path: seq<nat>)
    requires Sized(s) && |path| == 3
    ensures var (s1, a) := RawGrow(s, f, path[0]);
      var (s2, b) := RawGrow(s1, a, path[1]);
      RawDescend(s, f, path) == RawGrow(s2, b, path[2])
  {
    var (s1, a) := RawGrow(s, f, path[0]);
    var (s2, b) := RawGrow(s1, a, path[1]);
    assert RawDescend(s2, b, path[2..]) == RawGrow(s2, b, path[2]);
    assert path[1..][1..] == path[2..];
  }

  lemma DescendThree(marks: bool, s: Sys, f: nat, path: seq<nat>)
    requires Sized(s) && |path| == 3
    ensures var (s1, a) := GrowBy(marks, s, f, path[0]);
      var (s2, b) := GrowBy(marks, s1, a, path[1]);
      DescendBy(marks, s, f, path) == GrowBy(marks, s2, b, path[2])
  {
    hide Grow, RawGrow, Descend, RawDescend;
    if marks { MarkedThree(s, f, path); } else { RawThree(s, f, path); }
  }

  lemma WalkThree(m: seq<u64>, f: nat, path: seq<nat>)
    requires |path| == 3
    ensures Walk(m, f, path) ==
      var a := Next(m, f, path[0]);
      if a == 0 then 0 else
      var b := Next(m, a, path[1]);
      if b == 0 then 0 else Next(m, b, path[2])
  {
    var a := Next(m, f, path[0]);
    var b := Next(m, a, path[1]);
    assert path[1..][1..] == path[2..];
    assert Walk(m, b, path[2..]) == Next(m, b, path[2]);
  }

  class Machine {
    /** Physical memory, one element per 64-bit word; the higher-half mapping is the identity. */
    const mem: array<u64>
    const pmm: Pmm
    /** Whether frames taken for tables are marked as used.  In the source nothing marks them. */
    const marks: bool
    /** A record of the table frames; no computation reads it. */
    ghost var own: map<nat, Node>

    /** Start from two zeroed root tables outside the free frames. */
    constructor (mem: array<u64>, pmm: Pmm, p: Pagemap, marks: bool)
      requires pmm.Valid() && pmm.Abstract().limit <= FRAMES
      requires mem as object != pmm.bitmap && mem as object != pmm.entries
      requires Aligned(p) && Sound(pmm.Abstract())
      requires forall b :: b in FreeSet(pmm.Abstract()) ==> 512 * b + 512 <= mem.Length
      requires forall r :: r in Roots(p) ==>
        0 < r < FRAMES && r !in FreeSet(pmm.Abstract()) && 512 * r + 512 <= mem.Length
      requires Roots(p)[0] != Roots(p)[1]
      requires forall r, i: nat :: r in Roots(p) && i < 512 ==> Read(mem[..], r, i) == 0
      ensures this.mem == mem && this.pmm == pmm && this.marks == marks
      ensures Ready() && Inv(State(), Roots(p)) && Refines(State(), Roots(p), map[])
    {
      this.mem := mem;
      this.pmm := pmm;
      this.marks := marks;
      own := map[Roots(p)[0] := Node(0, []), Roots(p)[1] := Node(1, [])];
      new;
      assert forall k :: k == 0 || k == 1 ==> Roots(p)[k] in Roots(p);
      Translations.ZeroedRoots(mem[..], pmm.Abstract(), Roots(p)[0], Roots(p)[1]);
    }

    ghost predicate Ready()
      reads this, pmm, pmm.entries, pmm.bitmap
    {
      pmm.Valid() && pmm.Abstract().limit <= FRAMES && mem as object != pmm.bitmap && mem as object != pmm.entries
    }

    ghost function State(): (s: Sys)
      requires Ready()
      reads this, mem, pmm, pmm.entries, pmm.bitmap
      ensures Sized(s)
    {
      Sys(mem[..], pmm.Abstract(), own)
    }

    /** `memset` of one frame. */
    method ClearFrame(phys: nat)
      requires phys % 0x1000 == 0 && phys / 8 + 512 <= mem.Length
      modifies mem
      ensures mem[..] == Zero(old(mem[..]), phys / 0x1000)
    {
      var first := phys / 8;
      for i := 0 to 512
        invariant forall k :: 0 <= k < mem.Length ==> mem[k] == if first <= k < first + i then 0 else old(mem[k])
      {
        mem[first + i] := 0;
      }
    }

    /** `pmm_alloc(1)`, followed by marking the frame as used if the machine does so. */
    method TakeFrame() returns (next: nat)
      requires Ready()
      modifies pmm.bitmap
      ensures Ready() && next == 0x1000 * Search(old(pmm.Abstract()), 1)
      ensures pmm.Abstract() == if marks then Taken(old(pmm.Abstract())) else old(pmm.Abstract())
    {
      SearchInRange(pmm.Abstract());
      next := pmm.Alloc(1);
      if next != 0 && marks {
        pmm.MarkUsed(next, 1);
      }
    }

    /** The allocating branch of `next_level`. */
    method LinkNewTable(levelPhys: nat, index: nat)
      requires Ready() && 512 * NewFrame(State()) + 512 <= mem.Length
      requires levelPhys % 0x1000 == 0 && levelPhys / 8 + 512 <= mem.Length && index < 512
      requires !IsTable(Read(mem[..], levelPhys / 0x1000, index))
      modifies this, mem, pmm.bitmap
      ensures Ready() && State() == GrowBy(marks, old(State()), levelPhys / 0x1000, index).0
      ensures Read(mem[..], levelPhys / 0x1000, index) == Link(GrowBy(marks, old(State()), levelPhys / 0x1000, index).1)
    {
      ghost var (s, f) := (State(), levelPhys / 0x1000);
      ghost var n := NewFrame(s);
      FrameInMemory(s, f, levelPhys);
      GrowWrites(marks, s, f, index);
      var next := TakeFrame();
      own := if !marks || n == 0 || f !in own then own else own[n := Node(own[f].root, own[f].path + [index])];
      ClearFrame(next);
      StoreLink(levelPhys, index, next, n);
    }

    method StoreLink(levelPhys: nat, index: nat, next: nat, ghost n: nat)
      requires levelPhys % 0x1000 == 0 && levelPhys / 8 + 512 <= mem.Length && index < 512
      requires next == 0x1000 * n && n < FRAMES
      modifies mem
      ensures LinkFits(n)
      ensures mem[..] == Put(old(mem[..]), levelPhys / 0x1000, index, Link(n))
    {
      LinkWord(n);
      LinkReads(n);
      mem[levelPhys / 8 + index] := Or(Or(next, PTE_P), PTE_TBL);
      assert levelPhys / 8 + index == 512 * (levelPhys / 0x1000) + index;
    }

    /** The level below entry `index` of the table at `levelPhys`, or 0. */
    method NextLevel(levelPhys: nat, index: nat, alloc: bool) returns (next: nat)
      requires Ready() && levelPhys % 0x1000 == 0 && levelPhys / 8 + 512 <= mem.Length && index < 512
      requires alloc && !IsTable(Read(mem[..], levelPhys / 0x1000, index)) ==>
                 512 * NewFrame(State()) + 512 <= mem.Length
      modifies if alloc then {this, mem, pmm.bitmap} else {}
      ensures Ready() && next % 0x1000 == 0
      ensures alloc ==> (State(), next / 0x1000) == GrowBy(marks, old(State()), levelPhys / 0x1000, index)
      ensures !alloc ==> next / 0x1000 == Next(mem[..], levelPhys / 0x1000, index)
    {
      hide And, Or;
      var slot := levelPhys / 8 + index;
      assert mem[slot] == Read(mem[..], levelPhys / 0x1000, index);
      IsTableIsMask(mem[slot]);
      if And(mem[slot], Or(PTE_P, PTE_TBL)) != Or(PTE_P, PTE_TBL) {
        if !alloc {
          return 0;
        }
        LinkReads(NewFrame(State()));
        LinkNewTable(levelPhys, index);
      }
      next := And(mem[slot], PTE_ADDR_MASK);
      TableAddress(mem[slot]);
    }

    /** `next_level` with allocation as one level of a descent that stays in memory. */
    method GrowLevel(level: nat, index: nat, ghost rest: seq<nat>) returns (next: nat)
      requires Ready() && level % 0x1000 == 0 && index < 512
      requires DescentInMemory(marks, State(), level / 0x1000, [index] + rest)
      modifies this, mem, pmm.bitmap
      ensures Ready() && next % 0x1000 == 0
      ensures (State(), next / 0x1000) == GrowBy(marks, old(State()), level / 0x1000, index)
      ensures DescentInMemory(marks, State(), next / 0x1000, rest)
    {
      hide GrowBy, DescentInMemory;
      ghost var s := State();
      ghost var (t, n) := GrowBy(marks, s, level / 0x1000, index);
      DescentStep(marks, s, level, index, rest);
      next := NextLevel(level, index, true);
      assert State() == t && next / 0x1000 == n;
    }

    /** The descent of `aarch64_map_page` through the first three levels. */
    method DescendLevels(l0: nat, i0: nat, i1: nat, i2: nat) returns (l3: nat)
      requires Ready() && l0 % 0x1000 == 0 && i0 < 512 && i1 < 512 && i2 < 512
      requires DescentInMemory(marks, State(), l0 / 0x1000, [i0, i1, i2])
      modifies this, mem, pmm.bitmap
      ensures Ready() && l3 % 0x1000 == 0
      ensures (State(), l3 / 0x1000) == DescendBy(marks, old(State()), l0 / 0x1000, [i0, i1, i2])
      ensures l3 / 8 + 512 <= mem.Length
    {
      hide GrowBy, DescendBy, DescentInMemory;
      DescendThree(marks, State(), l0 / 0x1000, [i0, i1, i2]);
      assert [i0] + [i1, i2] == [i0, i1, i2] && [i1] + [i2] == [i1, i2] && [i2] + [] == [i2];
      var l1 := GrowLevel(l0, i0, [i1, i2]);
      var l2 := GrowLevel(l1, i1, [i2]);
      l3 := GrowLevel(l2, i2, []);
      DescentEnd(marks, State(), l3);
    }

    /** The attribute bits `aarch64_map_page` computes first. */
    method PteFlags(flags: u64) returns (pteFlags: nat)
      ensures pteFlags == Attributes(flags)
    {
      pteFlags := Or(Or(PTE_P, PTE_AF), PTE_TBL);
      if And(flags, VMM_WRITABLE) == 0 {
        pteFlags := Or(pteFlags, PTE_RO);
      }
      if And(flags, VMM_EXEC) == 0 {
        pteFlags := Or(pteFlags, PTE_NX);
      }
      if And(flags, VMM_USER) != 0 {
        pteFlags := Or(pteFlags, PTE_U);
      }
    }

    /** `aarch64_map_page`; the page size argument is never read. */
    method MapPage(p: Pagemap, vaddr: u64, phys: u64, flags: u64)
      requires Ready() && Aligned(p)
      requires DescentInMemory(marks, State(), Roots(p)[TtbrIndex(vaddr)], TablePath(vaddr))
      modifies this, mem, pmm.bitmap
      ensures Ready() && State() == MapBy(marks, old(State()), Roots(p), vaddr, phys, flags)
      ensures marks && Inv(old(State()), Roots(p)) && CanMap(old(State()), Roots(p), vaddr) ==> Inv(State(), Roots(p))
      ensures marks && Usable(old(State()), Roots(p)) && Safe(old(State()), Roots(p), vaddr) ==>
                Usable(State(), Roots(p))
    {
      MapOutcome(marks, State(), Roots(p), vaddr, phys, flags);
      hide DescentInMemory, MapBy, DescendBy, Inv, CanMap, Usable, Safe;
      var pteFlags := PteFlags(flags);
      LeafIsTable(phys, flags);
      assert Or(Or(Or(Or(PTE_P, PTE_AF), PTE_TBL), phys), pteFlags) == LeafWord(phys, flags);
      hide Or, Leaf, Attributes;
      var l0 := if And(vaddr, Shl(0x7FF_FFFF, 37)) != 0 then p.ttbr1 else p.ttbr0;
      KeyIsValid(vaddr);
      RootAddress(p, vaddr);
      ghost var path := TablePath(vaddr);
      assert path == [path[0], path[1], path[2]];
      var level0Index, level1Index := And(Shr(vaddr, 39), 0x1FF), And(Shr(vaddr, 30), 0x1FF);
      var level2Index, level3Index := And(Shr(vaddr, 21), 0x1FF), And(Shr(vaddr, 12), 0x1FF);
      var l3 := DescendLevels(l0, level0Index, level1Index, level2Index);
      StoreLeaf(l3, level3Index, Or(Or(Or(Or(PTE_P, PTE_AF), PTE_TBL), phys), pteFlags));
    }

    method StoreLeaf(l3: nat, index: nat, w: u64)
      requires Ready() && l3 % 0x1000 == 0 && l3 / 8 + 512 <= mem.Length && index < 512
      modifies mem
      ensures Ready() && State() == TreeShape.PutLeaf(old(State()), l3 / 0x1000, index, w)
    {
      assert l3 / 8 + index == 512 * (l3 / 0x1000) + index;
      mem[l3 / 8 + index] := w;
    }

    /** The walk of `aarch64_unmap_page` and `aarch64_translate_vaddr`: stop at the first level
        that is missing. */
    method WalkLevels(l0: nat, i0: nat, i1: nat, i2: nat) returns (l3: nat)
      requires Ready() && l0 % 0x1000 == 0 && i0 < 512 && i1 < 512 && i2 < 512
      requires WalkInMemory(mem[..], l0 / 0x1000, [i0, i1, i2])
      ensures l3 % 0x1000 == 0 && l3 / 0x1000 == Walk(mem[..], l0 / 0x1000, [i0, i1, i2])
      ensures l3 != 0 ==> l3 / 8 + 512 <= mem.Length
    {
      hide Walk, Next, WalkInMemory;
      WalkThree(mem[..], l0 / 0x1000, [i0, i1, i2]);
      ThreeInMemory(mem[..], l0 / 0x1000, [i0, i1, i2]);
      var l1 := NextLevel(l0, i0, false);
      if l1 == 0 {
        return 0;
      }
      var l2 := NextLevel(l1, i1, false);
      if l2 == 0 {
        return 0;
      }
      l3 := NextLevel(l2, i2, false);
    }

    /** `aarch64_unmap_page`. */
    method UnmapPage(p: Pagemap, vaddr: u64)
      requires Ready() && Aligned(p)
      requires WalkInMemory(mem[..], Roots(p)[TtbrIndex(vaddr)], TablePath(vaddr))
      modifies mem
      ensures Ready() && State() == Unmap(old(State()), Roots(p), vaddr)
      ensures Inv(old(State()), Roots(p)) ==> Inv(State(), Roots(p))
      ensures Usable(old(State()), Roots(p)) ==> Usable(State(), Roots(p))
    {
      UnmapOutcome(State(), Roots(p), vaddr);
      hide Inv, Usable;
      var l0 := if And(vaddr, Shl(0x7FF_FFFF, 37)) != 0 then p.ttbr1 else p.ttbr0;
      KeyIsValid(vaddr);
      RootAddress(p, vaddr);
      ghost var path := TablePath(vaddr);
      assert path == [path[0], path[1], path[2]];
      var level0Index, level1Index := And(Shr(vaddr, 39), 0x1FF), And(Shr(vaddr, 30), 0x1FF);
      var level2Index, level3Index := And(Shr(vaddr, 21), 0x1FF), And(Shr(vaddr, 12), 0x1FF);
      var l3 := WalkLevels(l0, level0Index, level1Index, level2Index);
      if l3 == 0 {
        return;
      }
      StoreLeaf(l3, level3Index, 0);
    }

    /** `aarch64_translate_vaddr`. */
    method TranslateVaddr(p: Pagemap, vaddr: u64) returns (phys: nat)
      requires Ready() && Aligned(p)
      requires WalkInMemory(mem[..], Roots(p)[TtbrIndex(vaddr)], TablePath(vaddr))
      ensures phys == Translate(State(), Roots(p), vaddr)
    {
      var ttbr := if And(vaddr, Shl(0x7FF_FFFF, 37)) != 0 then p.ttbr1 else p.ttbr0;
      RootMask(ttbr);
      var l0 := And(ttbr, Align.Complement(0x1FF));
      KeyIsValid(vaddr);
      RootAddress(p, vaddr);
      ghost var path := TablePath(vaddr);
      assert path == [path[0], path[1], path[2]];
      var level0Index, level1Index := And(Shr(vaddr, 39), 0x1FF), And(Shr(vaddr, 30), 0x1FF);
      var level2Index, level3Index := And(Shr(vaddr, 21), 0x1FF), And(Shr(vaddr, 12), 0x1FF);
      var l3 := WalkLevels(l0, level0Index, level1Index, level2Index);
      if l3 == 0 {
        return 0;
      }
      var pte := LoadLeaf(l3, level3Index);
      phys := And(pte, PTE_ADDR_MASK);
    }

    method LoadLeaf(l3: nat, index: nat) returns (w: u64)
      requires l3 % 0x1000 == 0 && l3 / 8 + 512 <= mem.Length && index < 512
      ensures w == Read(mem[..], l3 / 0x1000, index)
    {
      assert l3 / 8 + index == 512 * (l3 / 0x1000) + index;
      w := mem[l3 / 8 + index];
    }
  }

  lemma MapOutcome(marks: bool, s: Sys, roots: seq<nat>, v: u64, phys: u64, flags: u64)
    requires Sized(s) && |roots| == 2
    ensures var s' := MapBy(marks, s, roots, v, phys, flags);
      var (s1, l3) := DescendBy(marks, s, roots[TtbrIndex(v)], TablePath(v));
      && s' == TreeShape.PutLeaf(s1, l3, LeafIndex(v), LeafWord(phys, flags))
      && (marks && Inv(s, roots) && CanMap(s, roots, v) ==> Inv(s', roots))
      && (marks && Usable(s, roots) && Safe(s, roots, v) ==> Usable(s', roots))
  {
    hide Inv, Usable, Safe, CanMap, Descend, RawDescend;
    if marks && Inv(s, roots) && CanMap(s, roots, v) { MapKeepsInv(s, roots, v, phys, flags); }
    if marks && Usable(s, roots) && Safe(s, roots, v) {
      Translations.TranslateAfterMap(s, roots, v, phys, flags, v);
    }
  }

  lemma UnmapOutcome(s: Sys, roots: seq<nat>, v: u64)
    requires |roots| == 2
    ensures Inv(s, roots) ==> Inv(Unmap(s, roots, v), roots)
    ensures Usable(s, roots) ==> Usable(Unmap(s, roots, v), roots)
  {
    hide Inv, Usable, Unmap;
    if Inv(s, roots) { UnmapKeepsInv(s, roots, v); }
    if Usable(s, roots) { Translations.TranslateAfterUnmap(s, roots, v, v); }
  }

  lemma DescentStep(marks: bool, s: Sys, phys: nat, i: nat, rest: seq<nat>)
    requires Sized(s) && phys % 0x1000 == 0 && DescentInMemory(marks, s, phys / 0x1000, [i] + rest)
    ensures phys / 8 + 512 <= |s.mem|
    ensures !IsTable(Read(s.mem, phys / 0x1000, i)) ==> 512 * NewFrame(s) + 512 <= |s.mem|
    ensures var (s', n) := GrowBy(marks, s, phys / 0x1000, i); DescentInMemory(marks, s', n, rest)
  {
    assert ([i] + rest)[1..] == rest;
    var (s', n) := GrowBy(marks, s, phys / 0x1000, i);
    assert DescentInMemory(marks, s', n, rest) ==> 512 * n + 512 <= |s'.mem|;
  }

  lemma DescentEnd(marks: bool, s: Sys, phys: nat)
    requires Sized(s) && phys % 0x1000 == 0 && DescentInMemory(marks, s, phys / 0x1000, [])
    ensures phys / 8 + 512 <= |s.mem|
  {}

  lemma RootAddress(p: Pagemap, v: u64)
    requires Aligned(p)
    ensures var l0 := if TtbrIndex(v) == 1 then p.ttbr1 else p.ttbr0;
      l0 % 0x1000 == 0 && l0 / 0x1000 == Roots(p)[TtbrIndex(v)]
  {}

  lemma ThreeInMemory(m: seq<u64>, f: nat, path: seq<nat>)
    requires |path| == 3 && WalkInMemory(m, f, path)
    ensures 512 * f + 512 <= |m|
    ensures var a := Next(m, f, path[0]);
      a != 0 ==> (512 * a + 512 <= |m| &&
        var b := Next(m, a, path[1]);
        b != 0 ==> (512 * b + 512 <= |m| &&
          var c := Next(m, b, path[2]);
          c != 0 ==> 512 * c + 512 <= |m|))
  {
    assert path[1..][1..] == path[2..];
    var a := Next(m, f, path[0]);
    var b := Next(m, a, path[1]);
    var c := Next(m, b, path[2]);
    assert a != 0 && b != 0 ==> WalkInMemory(m, b, path[2..]);
    assert a != 0 && b != 0 && c != 0 ==> WalkInMemory(m, c, path[2..][1..]);
  }

  /** The pool after one frame was taken and marked. */
  ghost function Taken(p: Pool): Pool
    requires p.limit <= |p.bits|
  {
    var n := Search(p, 1);
    if n == 0 then p else Commit(p, n, 1)
  }

  lemma SearchInRange(p: Pool)
    requires p.limit <= |p.bits|
    ensures Search(p, 1) != 0 ==> Search(p, 1) < p.limit
    ensures 0x1000 * Search(p, 1) / 0x1000 == Search(p, 1) && 0x1000 * Search(p, 1) % 0x1000 == 0
  {
    FirstRunIsLeast(p, p.hint, 1);
    TimesPage(Search(p, 1));
  }

  lemma FrameInMemory(s: Sys, f: nat, phys: nat)
    requires Sized(s) && phys / 8 + 512 <= |s.mem| && phys % 0x1000 == 0 && f == phys / 0x1000
    requires 512 * NewFrame(s) + 512 <= |s.mem|
    ensures 512 * f + 512 <= |s.mem|
    ensures 0x1000 * NewFrame(s) / 8 + 512 <= |s.mem| && 0x1000 * NewFrame(s) / 0x1000 == NewFrame(s)
    ensures 0x1000 * NewFrame(s) % 0x1000 == 0
  {
    TimesPage(NewFrame(s));
    TimesPage(f);
  }

  predicate LinkFits(n: nat)
  {
    Link(n) < TWO64
  }

  lemma TableAddress(w: nat)
    ensures And(w, PTE_ADDR_MASK) % 0x1000 == 0 && And(w, PTE_ADDR_MASK) / 0x1000 == FrameOf(w)
  {
    AddressMask(w);
    TimesPage(FrameOf(w));
  }

  lemma GrowWrites(marks: bool, s: Sys, f: nat, i: nat)
    requires Sized(s) && !IsTable(Read(s.mem, f, i)) && 512 * f + 512 <= |s.mem| && i < 512
    ensures var (s', n) := GrowBy(marks, s, f, i);
      && n == NewFrame(s) && LinkFits(n)
      && s'.mem == Put(Zero(s.mem, n), f, i, Link(n))
      && s'.pool == (if marks then Taken(s.pool) else s.pool)
      && s'.own == (if !marks || n == 0 || f !in s.own then s.own
                    else s.own[n := Node(s.own[f].root, s.own[f].path + [i])])
      && Read(s'.mem, f, i) == Link(n)
  {
    LinkReads(NewFrame(s));
  }
}
