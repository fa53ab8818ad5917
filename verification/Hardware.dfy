/** What the processor sees: the VMSAv8-64 table walk for a 4 KB granule and 48-bit regions, written on
    byte addresses and apart from the walk of the kernel, and what maps and unmaps do to it. */
module Hardware {
  import opened Bits
  import opened Descriptors
  import opened Tables
  import Trees
  import opened Exhaustion
  import opened PageMap
  import opened DeadLinks
  import DeadPages
  import K = Kernel

  /** How a walk ends. */
  datatype Result = Fault | Block(level: nat, descriptor: nat) | Page(descriptor: nat)

  /** The 64-bit word at a byte address; memory that is not there reads as 0. */
  function Word(m: seq<u64>, address: nat): u64
  {
    if address / 8 < |m| then m[address / 8] else 0
  }

  /** How much memory one entry of a table of this level covers. */
  function Span(level: nat): (n: nat)
    requires level <= 3
    ensures n > 0
  {
    match level
    case 0 => 0x80_0000_0000
    case 1 => 0x4000_0000
    case 2 => 0x20_0000
    case _ => 0x1000
  }

  /** The walk from the table at byte address `table`.  Bit 0 of a descriptor makes it valid, bit 1 tells
      tables and pages from blocks, of which level 0 has none; a page needs its access flag, bit 10. */
  function TableWalk(m: seq<u64>, table: nat, v: nat, level: nat): Result
    requires level <= 3
    decreases 3 - level
  {
    var w := Word(m, table + 8 * (v / Span(level) % 512));
    if w % 2 == 0 then Fault
    else if level == 3 then if w % 4 == 3 && Bit(w, 10) then Page(w) else Fault
    else if w % 4 == 3 then TableWalk(m, 4096 * (w / 4096 % 0x10_0000_0000), v, level + 1)
    else if level == 0 then Fault else Block(level, w)
  }

  /** The walk for `v`, with the two translation base registers. */
  function Sees(m: seq<u64>, ttbr0: nat, ttbr1: nat, v: nat): Result
    requires Canonical(v)
  {
    TableWalk(m, if v < 0x1_0000_0000_0000 then ttbr0 else ttbr1, v, 0)
  }

  /** The result is an access to `address` with exactly these rights. */
  predicate Grants(r: Result, v: nat, address: nat, write: bool, user: bool, execute: bool)
  {
    && r.Page? && address == 4096 * (r.descriptor / 4096 % 0x10_0000_0000) + v % 4096
    && (Bit(r.descriptor, 7) <==> !write) && (Bit(r.descriptor, 6) <==> user)
    && (Bit(r.descriptor, 53) <==> !execute) && (Bit(r.descriptor, 54) <==> !execute)
  }

  /** The addresses for which kernel and processor use the same root. */
  predicate InReach(v: nat)
  {
    v < 0x20_0000_0000 || 0xFFFF_0000_0000_0000 <= v < TWO64
  }

  // ----- one level -----

  lemma WordIs(m: seq<u64>, f: nat, i: nat)
    ensures Word(m, 4096 * f + 8 * i) == Read(m, f, i)
  {
    assert (4096 * f + 8 * i) / 8 == 512 * f + i;
  }

  lemma IndexIs(v: nat, level: nat)
    requires level <= 3
    ensures Indices(v)[level] == v / Span(level) % 512
  {
    IndicesAre(v);
  }

  /** What a valid page descriptor leads to. */
  function PageOf(w: nat): Result
  {
    if w % 4 == 3 && Bit(w, 10) then Page(w) else Fault
  }

  lemma ByDescriptor(m: seq<u64>, table: nat, v: nat, level: nat, w: nat)
    requires level <= 3 && w == Word(m, table + 8 * (v / Span(level) % 512))
    ensures level == 3 ==> TableWalk(m, table, v, level) == PageOf(w)
    ensures level < 3 && w == 0 ==> TableWalk(m, table, v, level) == Fault
    ensures level < 3 && w % 4 == 3 ==>
              TableWalk(m, table, v, level) == TableWalk(m, 4096 * (w / 4096 % 0x10_0000_0000), v, level + 1)
  {
    hide Bit, Word, Span;
    assert w % 4 == 3 ==> w % 2 == 1;
  }

  lemma OneLevel(m: seq<u64>, f: nat, v: nat, level: nat)
    requires level <= 3
    ensures var w := Read(m, f, Indices(v)[level]);
      && (level == 3 ==> TableWalk(m, 4096 * f, v, level) == PageOf(w))
      && (level < 3 && w == 0 ==> TableWalk(m, 4096 * f, v, level) == Fault)
      && (level < 3 && IsTable(w) ==>
            TableWalk(m, 4096 * f, v, level) == TableWalk(m, 4096 * FrameOf(w), v, level + 1))
  {
    var i := Indices(v)[level];
    IndexIs(v, level);
    WordIs(m, f, i);
    ByDescriptor(m, 4096 * f, v, level, Read(m, f, i));
    hide TableWalk, Bit, Indices, Word, Span, Read;
  }

  /** A dead link ends the walk of the kernel; the processor follows it into frame 0. */
  lemma DeadLinkIsFollowed(m: seq<u64>, f: nat, v: nat, level: nat)
    requires level < 3 && Read(m, f, Indices(v)[level]) == Link(0)
    ensures Next(m, f, Indices(v)[level]) == 0
    ensures TableWalk(m, 4096 * f, v, level) == TableWalk(m, 0, v, level + 1)
  {
    DeadLink();
    hide TableWalk, Indices;
    OneLevel(m, f, v, level);
  }

  // ----- the whole walk -----

  lemma {:induction false} WalkAgrees(b: Sys, t: Sys, roots: seq<nat>, f: nat, v: nat, level: nat)
    requires Inv(b, roots) && Shadows(b, t) && level <= 3 && f in b.own && |b.own[f].path| == level
    requires ValidPath(Indices(v)) && !MeetsDead(t.mem, f, Indices(v)[level..3])
    ensures TableWalk(t.mem, 4096 * f, v, level) == PageOf(Lookup(t.mem, f, Indices(v)[level..]))
    decreases 3 - level
  {
    var (path, i) := (Indices(v)[level..], Indices(v)[level]);
    OneLevel(t.mem, f, v, level);
    hide Indices, TableWalk, Bit;
    if level < 3 {
      assert Indices(v)[level..3][0] == i && Indices(v)[level..3][1..] == Indices(v)[level + 1..3];
      assert path[1..] == Indices(v)[level + 1..];
      assert EntryShadows(b, t, f, i) && EntryOk(b, f, i);
      Trees.EntryFacts(b, f, i);
      var n := Next(t.mem, f, i);
      if n != 0 { WalkAgrees(b, t, roots, n, v, level + 1); }
    }
  }

  /** On a page that meets no dead link the processor sees the word the kernel's tables show. */
  lemma SeesView(t: Sys, roots: seq<nat>, v: u64)
    requires Usable(t, roots) && Alive(t, roots, v) && InReach(v)
    ensures Sees(t.mem, 4096 * roots[0], 4096 * roots[1], v) == PageOf(View(t, roots, KeyOf(v)))
  {
    var b :| Inv(b, roots) && Shadows(b, t);
    KeyIsValid(v);
    RootMatchesHardware(v);
    RootOf(b, roots, TtbrIndex(v), TablePath(v));
    assert Indices(v)[0..3] == TablePath(v) && Indices(v)[0..] == Indices(v);
    hide Indices, TableWalk, TtbrIndex, Inv, Shadows, MeetsDead;
    WalkAgrees(b, t, roots, roots[TtbrIndex(v)], v, 0);
  }

  // ----- what an operation does to it -----

  /** A leaf of the kernel grants what `aarch64_map_page` was asked for: bit 1 of the flags is the right to
      write, bit 2 is for user code, bit 3 is the right to execute. */
  lemma LeafGrants(phys: u64, flags: u64, v: nat)
    requires phys % 0x1000 == 0 && phys < 0x1_0000_0000_0000
    ensures PageOf(LeafWord(phys, flags)) == Page(LeafWord(phys, flags))
    ensures Grants(Page(LeafWord(phys, flags)), v, phys + v % 4096, Bit(flags, 1), Bit(flags, 2), Bit(flags, 3))
  {
    LeafIsPage(phys, flags);
    AddressMask(LeafWord(phys, flags));
    LeafAddress(phys, flags);
    AlignedIsMasked(phys);
    hide Leaf, Bit, And;
    LeafIs(phys, flags, 6);
    LeafIs(phys, flags, 7);
    LeafIs(phys, flags, 53);
    LeafIs(phys, flags, 54);
  }

  lemma LeafIsPage(phys: u64, flags: u64)
    ensures PageOf(LeafWord(phys, flags)) == Page(LeafWord(phys, flags))
  {
    LeafIsTable(phys, flags);
    hide Leaf, Bit;
    LeafBits(phys, flags, 10);
  }

  lemma ServedKeepsAlive(t: Sys, roots: seq<nat>, v: u64, phys: u64, flags: u64, w: u64)
    requires Usable(t, roots) && Serves(t, roots, v) && Alive(t, roots, w)
    ensures Alive(Map(t, roots, v, phys, flags), roots, w)
  {
    AliveIsSafe(t, roots, v);
    hide Map, Usable, Safe, Alive, MeetsDead;
    DeadPages.AliveToIs(t, roots, w);
    DeadPages.AliveToIs(Map(t, roots, v, phys, flags), roots, w);
    DeadPages.DeadAfterMap(t, roots, v, phys, flags, w, 3);
  }

  /** After a map that takes effect the processor reaches exactly the page that was asked for, with
      exactly the rights asked for, and every other page as before. */
  lemma MapIsSeen(t: Sys, roots: seq<nat>, v: u64, phys: u64, flags: u64, w: u64)
    requires Usable(t, roots) && Serves(t, roots, v) && Alive(t, roots, w) && InReach(v) && InReach(w)
    requires phys % 0x1000 == 0 && phys < 0x1_0000_0000_0000
    ensures var (r0, r1) := (4096 * roots[0], 4096 * roots[1]);
      var r := Sees(Map(t, roots, v, phys, flags).mem, r0, r1, w);
      if w / 4096 == v / 4096 then Grants(r, w, phys + w % 4096, Bit(flags, 1), Bit(flags, 2), Bit(flags, 3))
      else r == Sees(t.mem, r0, r1, w)
  {
    KeyIsInjective(w, v);
    KeyIsValid(w);
    AliveIsSafe(t, roots, v);
    ServedKeepsAlive(t, roots, v, phys, flags, w);
    hide Map, Usable, Safe, Alive, Serves, View, KeyOf, Sees, Grants, LeafWord;
    MapViewAlways(t, roots, v, phys, flags, KeyOf(w));
    SeesView(t, roots, w);
    SeesView(Map(t, roots, v, phys, flags), roots, w);
    LeafGrants(phys, flags, w);
  }

  /** After an unmap an access to the page faults, and every other page is seen as before. */
  lemma UnmapIsSeen(t: Sys, roots: seq<nat>, v: u64, w: u64)
    requires Usable(t, roots) && Alive(t, roots, w) && InReach(v) && InReach(w)
    ensures var (r0, r1) := (4096 * roots[0], 4096 * roots[1]);
      Sees(Unmap(t, roots, v).mem, r0, r1, w) ==
      if w / 4096 == v / 4096 then Fault else Sees(t.mem, r0, r1, w)
  {
    KeyIsInjective(w, v);
    KeyIsValid(w);
    DeadPages.AliveToIs(t, roots, w);
    DeadPages.AliveToIs(Unmap(t, roots, v), roots, w);
    hide Unmap, Usable, Safe, Alive, View, KeyOf, Sees;
    DeadPages.DeadAfterUnmap(t, roots, v, w, 3);
    UnmapViewAlways(t, roots, v, KeyOf(w));
    SeesView(t, roots, w);
    SeesView(Unmap(t, roots, v), roots, w);
  }

  // ----- runs -----

  /** Every word of the mapping is a valid page descriptor. */
  ghost predicate Pages(a: Mapping)
  {
    forall k :: k in a ==> PageOf(a[k]) == Page(a[k])
  }

  lemma {:induction false} SpecKeepsPages(a: Mapping, ops: seq<K.Op>, served: seq<bool>)
    requires Pages(a) && |served| == |ops|
    ensures Pages(PartialSpecSteps(K.SpecStep, a, ops, served).0)
    decreases |ops|
  {
    if ops == [] {
    } else {
      hide PageOf, LeafWord, KeyOf;
      if ops[0].Page? && ops[0].op.MapOp? { LeafIsPage(ops[0].op.phys, ops[0].op.flags); }
      SpecKeepsPages(if served[0] then K.SpecStep(a, ops[0]).0 else a, ops[1..], served[1..]);
    }
  }

  /** A walk that ends at a word met no dead link. */
  lemma {:induction false} FoundIsAlive(m: seq<u64>, f: nat, path: seq<nat>)
    requires path != [] && Lookup(m, f, path) != 0
    ensures !MeetsDead(m, f, path[..|path| - 1])
    decreases |path|
  {
    DeadLink();
    if |path| > 1 {
      assert path[..|path| - 1][1..] == path[1..][..|path| - 2];
      FoundIsAlive(m, Next(m, f, path[0]), path[1..]);
    }
  }

  lemma MappedIsAlive(t: Sys, roots: seq<nat>, v: u64)
    requires |roots| == 2 && View(t, roots, KeyOf(v)) != 0
    ensures Alive(t, roots, v)
  {
    FoundIsAlive(t.mem, roots[TtbrIndex(v)], Indices(v));
    assert Indices(v)[..|Indices(v)| - 1] == TablePath(v);
  }

  /** Over every interleaving of page-table operations, allocations, frees and stores that maps only safe
      pages, the processor reaches a mapped page through exactly the word of the finite map, and faults
      on every other page, unless that is behind a dead link. */
  lemma EveryRunIsSeen(k: K.State, roots: seq<nat>, managed: set<nat>, a: Mapping, ops: seq<K.Op>, v: u64)
    requires K.GoodBeneath(k, roots, managed) && Refines(k.sys, roots, a) && K.StaysSafe(k, roots, ops)
    requires Pages(a) && InReach(v)
    ensures var t := K.Steps(k, roots, ops).0.sys;
      var a' := PartialSpecSteps(K.SpecStep, a, ops, K.Served(k, roots, ops)).0;
      KeyOf(v) in a' || Alive(t, roots, v) ==>
        Sees(t.mem, 4096 * roots[0], 4096 * roots[1], v) ==
        if KeyOf(v) in a' then Page(a'[KeyOf(v)]) else Fault
  {
    var k' := K.Steps(k, roots, ops).0;
    var a' := PartialSpecSteps(K.SpecStep, a, ops, K.Served(k, roots, ops)).0;
    hide *;
    K.EveryRunIsGoodAlways(k, roots, managed, a, ops);
    SpecKeepsPages(a, ops, K.Served(k, roots, ops));
    BeneathIsUsable(k', roots, managed);
    if KeyOf(v) in a' || Alive(k'.sys, roots, v) { MappingIsSeen(k'.sys, roots, a', v); }
  }

  lemma BeneathIsUsable(k: K.State, roots: seq<nat>, managed: set<nat>)
    requires K.GoodBeneath(k, roots, managed)
    ensures Usable(k.sys, roots)
  {
    hide Inv, Shadows;
  }

  lemma MappingIsSeen(t: Sys, roots: seq<nat>, a: Mapping, v: u64)
    requires Usable(t, roots) && Refines(t, roots, a) && Pages(a) && InReach(v)
    requires KeyOf(v) in a || Alive(t, roots, v)
    ensures Sees(t.mem, 4096 * roots[0], 4096 * roots[1], v) == if KeyOf(v) in a then Page(a[KeyOf(v)]) else Fault
  {
    KeyIsValid(v);
    assert View(t, roots, KeyOf(v)) == if KeyOf(v) in a then a[KeyOf(v)] else 0;
    assert PageOf(0) == Fault;
    hide Usable, View, KeyOf, PageOf, Sees, Alive, Refines;
    if KeyOf(v) in a { MappedIsAlive(t, roots, v); }
    SeesView(t, roots, v);
  }
}
