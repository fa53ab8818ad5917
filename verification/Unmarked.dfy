/** The page tables with the allocator exactly as it is in the source, where nothing marks an
    allocated frame as used: precisely which runs still build the right tables. */
module Unmarked {
  import opened Bits
  import opened Descriptors
  import opened Tables
  import opened Trees
  import opened TreeShape
  import opened PageMap
  import DeadLinks
  import TableCount
  import Translations

  /** `aarch64_map_page` with `pmm_alloc` as written. */
  ghost function RawMap(s: Sys, roots: seq<nat>, v: u64, phys: u64, flags: u64): (s': Sys)
    requires Sized(s) && |roots| == 2
    ensures Sized(s') && s'.pool == s.pool && s'.own == s.own && |s'.mem| == |s.mem|
  {
    var (s1, l3) := RawDescend(s, roots[TtbrIndex(v)], TablePath(v));
    PutLeaf(s1, l3, LeafIndex(v), LeafWord(phys, flags))
  }

  /** With or without marking. */
  ghost function MapBy(marks: bool, s: Sys, roots: seq<nat>, v: u64, phys: u64, flags: u64): (s': Sys)
    requires Sized(s) && |roots| == 2
    ensures Sized(s')
  {
    if marks then Map(s, roots, v, phys, flags) else RawMap(s, roots, v, phys, flags)
  }

  ghost function RawStep(s: Sys, roots: seq<nat>, op: Op): (r: (Sys, nat))
    requires Sized(s) && |roots| == 2
    ensures Sized(r.0) && r.0.pool == s.pool && r.0.own == s.own && |r.0.mem| == |s.mem|
  {
    match op
    case MapOp(v, phys, flags) => (RawMap(s, roots, v, phys, flags), 0)
    case UnmapOp(v) => (Unmap(s, roots, v), 0)
    case TranslateOp(v) => (s, Translate(s, roots, v))
  }

  ghost function RawSteps(s: Sys, roots: seq<nat>, ops: seq<Op>): (Sys, seq<nat>)
    requires Sized(s) && |roots| == 2
    decreases |ops|
  {
    if ops == [] then (s, [])
    else
      var (s1, out) := RawStep(s, roots, ops[0]);
      var (s2, outs) := RawSteps(s1, roots, ops[1..]);
      (s2, [out] + outs)
  }

  // ----- sharing -----

  lemma EntryAbsent(s: Sys, f: nat, i: nat)
    requires Sized(s) && OwnedOk(s) && InnerOk(s) && f in s.own && |s.own[f].path| < 3 && i < 512
    requires Next(s.mem, f, i) == 0
    ensures Read(s.mem, f, i) == 0
  {
    assert EntryOk(s, f, i);
    EntryFacts(s, f, i);
  }

  /** Any two absent entries are given the same table frame: a table then hangs under two places,
      and it is still free. */
  lemma TablesAreShared(s: Sys, roots: seq<nat>, f: nat, i: nat, g: nat, j: nat)
    requires Inv(s, roots) && f in s.own && g in s.own && |s.own[f].path| < 3 && |s.own[g].path| < 3
    requires i < 512 && j < 512 && (f != g || i != j)
    requires Next(s.mem, f, i) == 0 && Next(s.mem, g, j) == 0 && FreeSet(s.pool) != {}
    ensures var s1 := RawGrow(s, f, i).0;
      var (s2, n) := RawGrow(s1, g, j);
      n != 0 && Next(s2.mem, f, i) == n && Next(s2.mem, g, j) == n && n in FreeSet(s2.pool)
  {
    EntryAbsent(s, f, i);
    EntryAbsent(s, g, j);
    GrowIsGrown(s, f, i);
    var s1 := RawGrow(s, f, i).0;
    var n := NewFrame(s);
    NewFrameIsFree(s);
    LinkReads(n);
    assert Read(s1.mem, g, j) == 0;
    var s2 := RawGrow(s1, g, j).0;
    forall h, k: nat | h in s.own && k < 512
      ensures Read(s2.mem, h, k) == if h == g && k == j then Link(n) else Read(s1.mem, h, k)
    {
      ReadPut(Zero(s1.mem, n), g, j, Link(n), h, k);
      ReadZero(s1.mem, n, h, k);
    }
  }

  /** Frame `n` is memory, lies outside the tables, and is what the allocator gives. */
  ghost predicate Fresh(s: Sys, n: nat)
  {
    Sized(s) && n == NewFrame(s) && 0 < n < FRAMES && n !in s.own && 512 * n + 512 <= |s.mem|
  }

  /** `m` is `s.mem` with frame `n` linked at entry `i` of table `f` and empty except for word `w`
      at index `j`. */
  ghost predicate Hangs(s: Sys, m: seq<u64>, f: nat, i: nat, n: nat, j: nat, w: u64)
  {
    && (forall g, k: nat :: g in s.own && k < 512 ==>
          Read(m, g, k) == if g == f && k == i then Link(n) else Read(s.mem, g, k))
    && (forall k: nat :: k < 512 ==> Read(m, n, k) == if k == j then w else 0)
  }

  /** One unmarked map below level-2 table `f`. */
  lemma GrowAndPut(s: Sys, f: nat, i: nat, j: nat, w: u64)
    requires Sized(s) && Fresh(s, NewFrame(s)) && f in s.own && 512 * f + 512 <= |s.mem| && i < 512 && j < 512
    requires Read(s.mem, f, i) == 0
    ensures var (s1, n) := RawGrow(s, f, i);
      n == NewFrame(s) && Hangs(s, PutLeaf(s1, n, j, w).mem, f, i, n, j, w)
  {
    var (s1, n) := RawGrow(s, f, i);
    LinkReads(n);
    forall g: nat, k: nat | (g in s.own || g == n) && k < 512
      ensures Read(PutLeaf(s1, n, j, w).mem, g, k) ==
              if g == n then (if k == j then w else 0)
              else if g == f && k == i then Link(n) else Read(s.mem, g, k)
    {
      ReadPut(s1.mem, n, j, w, g, k);
      ReadPut(Zero(s.mem, n), f, i, Link(n), g, k);
      ReadZero(s.mem, n, g, k);
    }
  }

  /** The level-2 table of `path` is `f`, reached through `a`, and its entry there is absent. */
  ghost predicate LastMissing(s: Sys, m: seq<u64>, root: nat, a: nat, f: nat, path: seq<nat>)
  {
    && |path| == 3 && ValidPath(path)
    && root in s.own && a in s.own && f in s.own && 0 < root && 0 < a && 0 < f
    && Next(m, root, path[0]) == a && Next(m, a, path[1]) == f && Read(m, f, path[2]) == 0
  }

  lemma RawMapHangs(s: Sys, roots: seq<nat>, v: u64, phys: u64, flags: u64, a: nat, f: nat)
    requires Sized(s) && |roots| == 2 && Fresh(s, NewFrame(s)) && 512 * f + 512 <= |s.mem|
    requires LastMissing(s, s.mem, roots[TtbrIndex(v)], a, f, TablePath(v))
    ensures Hangs(s, RawMap(s, roots, v, phys, flags).mem, f, TablePath(v)[2], NewFrame(s),
                  LeafIndex(v), LeafWord(phys, flags))
    ensures Missing(s.mem, roots[TtbrIndex(v)], TablePath(v)) == 1
  {
    KeyIsValid(v);
    var (root, path) := (roots[TtbrIndex(v)], TablePath(v));
    GrowAndPut(s, f, path[2], LeafIndex(v), LeafWord(phys, flags));
    assert path[1..][1..] == path[2..] == [path[2]];
    assert Next(s.mem, f, path[2]) == 0;
    assert RawDescend(s, root, path) == RawDescend(s, a, path[1..]) == RawDescend(s, f, [path[2]])
        == RawGrow(s, f, path[2]);
    assert Missing(s.mem, root, path) == Missing(s.mem, a, path[1..]) == Missing(s.mem, f, [path[2]]) == 1;
  }

  /** A level that is present. */
  lemma PresentLevel(s: Sys, roots: seq<nat>, f: nat, path: seq<nat>)
    requires Descendable(s, f, path, roots) && Missing(s.mem, f, path) < |path|
    ensures var n := Next(s.mem, f, path[0]);
      && n != 0 && Descendable(s, n, path[1..], roots) && s.own[n].path == s.own[f].path + [path[0]]
      && Missing(s.mem, n, path[1..]) == Missing(s.mem, f, path)
  {
    assert EntryOk(s, f, path[0]);
    EntryFacts(s, f, path[0]);
    AppendPath(s.own[f].path, path);
  }

  /** On well-formed tables, `path` lacks exactly its last table. */
  lemma OneMissing(s: Sys, roots: seq<nat>, r: nat, path: seq<nat>) returns (a: nat, f: nat)
    requires Inv(s, roots) && r < 2 && |path| == 3 && ValidPath(path) && Missing(s.mem, roots[r], path) == 1
    ensures a == Next(s.mem, roots[r], path[0]) && f == Next(s.mem, a, path[1])
    ensures LastMissing(s, s.mem, roots[r], a, f, path) && f != roots[r] && f != a && 512 * f + 512 <= |s.mem|
  {
    var root := roots[r];
    RootOf(s, roots, r, path);
    a := Next(s.mem, root, path[0]);
    f := Next(s.mem, a, path[1]);
    hide InnerOk, Linked, RootsOk, FreeOk, Next;
    PresentLevel(s, roots, root, path);
    PresentLevel(s, roots, a, path[1..]);
    assert path[1..][0] == path[1] && path[1..][1..] == [path[2]];
    assert Missing(s.mem, f, [path[2]]) == 1;
    EntryAbsent(s, f, path[2]);
  }

  lemma HangsWalk(s: Sys, m: seq<u64>, root: nat, a: nat, f: nat, path: seq<nat>, n: nat, j: nat, w: u64)
    requires LastMissing(s, s.mem, root, a, f, path) && f != root && f != a && 0 < n < FRAMES
    requires Hangs(s, m, f, path[2], n, j, w) && j < 512
    ensures Walk(m, root, path) == n && Read(m, n, j) == w
  {
    LinkReads(n);
    assert path[1..][1..] == [path[2]] && [path[2]][1..] == [];
    assert Walk(m, root, path) == Walk(m, a, path[1..]) == Walk(m, f, [path[2]]) == Walk(m, n, []);
  }

  lemma FreshFrame(s: Sys, roots: seq<nat>)
    requires Inv(s, roots) && FreeSet(s.pool) != {}
    ensures Fresh(s, NewFrame(s))
  {
    NewFrameIsFree(s);
  }

  /** Two pages under one level-2 table, each lacking just its last table: the second map is given
      the first one's table again, empties it, and so loses the first translation, although each of
      the two maps by itself is right. */
  lemma SecondMapWipesFirst(s: Sys, roots: seq<nat>, v: u64, phys: u64, flags: u64, w: u64, phys': u64, flags': u64)
    requires Inv(s, roots) && FreeSet(s.pool) != {}
    requires TtbrIndex(v) == TtbrIndex(w) && TablePath(v)[..2] == TablePath(w)[..2]
    requires TablePath(v)[2] != TablePath(w)[2] && LeafIndex(v) != LeafIndex(w)
    requires Missing(s.mem, roots[TtbrIndex(v)], TablePath(v)) == Missing(s.mem, roots[TtbrIndex(w)], TablePath(w)) == 1
    ensures var s1 := RawMap(s, roots, v, phys, flags);
      var s2 := RawMap(s1, roots, w, phys', flags');
      && Translate(s1, roots, v) == And(phys, PTE_ADDR_MASK)
      && Missing(s1.mem, roots[TtbrIndex(w)], TablePath(w)) == 1
      && Translate(s2, roots, w) == And(phys', PTE_ADDR_MASK)
      && Translate(s2, roots, v) == 0
  {
    KeyIsValid(v);
    KeyIsValid(w);
    FreshFrame(s, roots);
    var (p, q, n) := (TablePath(v), TablePath(w), NewFrame(s));
    var a, f := OneMissing(s, roots, TtbrIndex(v), p);
    var b, g := OneMissing(s, roots, TtbrIndex(w), q);
    SameTable(p, q);
    BothMaps(s, roots, v, phys, flags, w, phys', flags', a, f);
    LeafWordAddress(phys, flags);
    LeafWordAddress(phys', flags');
  }

  lemma BothMaps(s: Sys, roots: seq<nat>, v: u64, phys: u64, flags: u64, w: u64, phys': u64, flags': u64,
      a: nat, f: nat)
    requires Sized(s) && |roots| == 2 && Fresh(s, NewFrame(s)) && 512 * f + 512 <= |s.mem|
    requires TtbrIndex(v) == TtbrIndex(w) && TablePath(v)[2] != TablePath(w)[2] && LeafIndex(v) != LeafIndex(w)
    requires LastMissing(s, s.mem, roots[TtbrIndex(v)], a, f, TablePath(v)) && f != roots[TtbrIndex(v)] && f != a
    requires LastMissing(s, s.mem, roots[TtbrIndex(w)], a, f, TablePath(w))
    ensures var s1 := RawMap(s, roots, v, phys, flags);
      var s2 := RawMap(s1, roots, w, phys', flags');
      && Translate(s1, roots, v) == And(LeafWord(phys, flags), PTE_ADDR_MASK)
      && Missing(s1.mem, roots[TtbrIndex(w)], TablePath(w)) == 1
      && Translate(s2, roots, w) == And(LeafWord(phys', flags'), PTE_ADDR_MASK)
      && Translate(s2, roots, v) == And(0, PTE_ADDR_MASK)
  {
    var (p, q, n) := (TablePath(v), TablePath(w), NewFrame(s));
    var (x, y) := (LeafWord(phys, flags), LeafWord(phys', flags'));
    var s1 := RawMap(s, roots, v, phys, flags);
    var s2 := RawMap(s1, roots, w, phys', flags');
    FreshStays(s, s1);
    hide *;
    RawMapHangs(s, roots, v, phys, flags, a, f);
    StillMissing(s, s1, roots[TtbrIndex(v)], a, f, p, q, n, LeafIndex(v), x);
    RawMapHangs(s1, roots, w, phys', flags', a, f);
    Wiped(s, s1, s2, roots, v, x, w, y, a, f);
  }

  lemma FreshStays(s: Sys, s1: Sys)
    requires Sized(s) && Fresh(s, NewFrame(s)) && s1.pool == s.pool && s1.own == s.own && |s1.mem| == |s.mem|
    ensures Sized(s1) && NewFrame(s1) == NewFrame(s) > 0 && Fresh(s1, NewFrame(s1))
  {}

  lemma SameTable(p: seq<nat>, q: seq<nat>)
    requires |p| == |q| == 3 && p[..2] == q[..2]
    ensures p[0] == q[0] && p[1] == q[1]
  {
    assert p[..2][0] == p[0] && p[..2][1] == p[1];
    assert q[..2][0] == q[0] && q[..2][1] == q[1];
  }

  lemma Wiped(s: Sys, s1: Sys, s2: Sys, roots: seq<nat>, v: u64, x: u64, w: u64, y: u64, a: nat, f: nat)
    requires Sized(s) && |roots| == 2 && NewFrame(s) > 0 && s1.own == s.own
    requires TtbrIndex(v) == TtbrIndex(w) && TablePath(v)[2] != TablePath(w)[2] && LeafIndex(v) != LeafIndex(w)
    requires LastMissing(s, s.mem, roots[TtbrIndex(v)], a, f, TablePath(v)) && f != roots[TtbrIndex(v)] && f != a
    requires LastMissing(s1, s1.mem, roots[TtbrIndex(v)], a, f, TablePath(w))
    requires Hangs(s, s1.mem, f, TablePath(v)[2], NewFrame(s), LeafIndex(v), x)
    requires Hangs(s1, s2.mem, f, TablePath(w)[2], NewFrame(s), LeafIndex(w), y)
    ensures Translate(s1, roots, v) == And(x, PTE_ADDR_MASK)
    ensures Translate(s2, roots, w) == And(y, PTE_ADDR_MASK)
    ensures Translate(s2, roots, v) == And(0, PTE_ADDR_MASK)
  {
    KeyIsValid(v);
    KeyIsValid(w);
    hide *;
    var (root, n) := (roots[TtbrIndex(v)], NewFrame(s));
    HangsWalk(s, s1.mem, root, a, f, TablePath(v), n, LeafIndex(v), x);
    HangsWalk(s1, s2.mem, root, a, f, TablePath(w), n, LeafIndex(w), y);
    Rehung(s, s1, s2.mem, root, a, f, TablePath(v), TablePath(w), n, LeafIndex(v), x, LeafIndex(w), y);
    TranslateAt(s1, roots, v, n);
    TranslateAt(s2, roots, w, n);
    TranslateAt(s2, roots, v, n);
  }

  lemma LeafWordAddress(phys: u64, flags: u64)
    ensures And(LeafWord(phys, flags), PTE_ADDR_MASK) == And(phys, PTE_ADDR_MASK)
    ensures And(0, PTE_ADDR_MASK) == 0
  {
    LeafAddress(phys, flags);
  }

  lemma TranslateAt(s: Sys, roots: seq<nat>, v: u64, n: nat)
    requires |roots| == 2 && n != 0 && Walk(s.mem, roots[TtbrIndex(v)], TablePath(v)) == n
    ensures Translate(s, roots, v) == And(Read(s.mem, n, LeafIndex(v)), PTE_ADDR_MASK)
  {}

  lemma StillMissing(s: Sys, s1: Sys, root: nat, a: nat, f: nat, p: seq<nat>, q: seq<nat>, n: nat, i: nat, x: u64)
    requires LastMissing(s, s.mem, root, a, f, p) && LastMissing(s, s.mem, root, a, f, q)
    requires f != root && f != a && p[2] != q[2] && s1.own == s.own
    requires Hangs(s, s1.mem, f, p[2], n, i, x)
    ensures LastMissing(s1, s1.mem, root, a, f, q)
  {}

  /** After the second map the first path still ends at the shared table, now emptied. */
  lemma Rehung(s: Sys, s1: Sys, m: seq<u64>, root: nat, a: nat, f: nat, p: seq<nat>, q: seq<nat>, n: nat,
      i: nat, x: u64, j: nat, y: u64)
    requires LastMissing(s, s.mem, root, a, f, p) && LastMissing(s1, s1.mem, root, a, f, q) && s1.own == s.own
    requires f != root && f != a && p[2] != q[2] && i != j && i < 512 && 0 < n < FRAMES
    requires Hangs(s, s1.mem, f, p[2], n, i, x) && Hangs(s1, m, f, q[2], n, j, y)
    ensures Walk(m, root, p) == n && Read(m, n, i) == 0
  {
    LinkReads(n);
    assert p[1..][1..] == [p[2]] && [p[2]][1..] == [];
    assert Read(m, f, p[2]) == Link(n);
    assert Walk(m, root, p) == Walk(m, a, p[1..]) == Walk(m, f, [p[2]]) == Walk(m, n, []);
  }

  // ----- an unmarked descent stays in memory -----

  /** Every entry of table `n` is absent or leads back to `n`. */
  ghost predicate Looped(m: seq<u64>, n: nat)
  {
    forall j: nat :: j < 512 ==> Read(m, n, j) == 0 || Read(m, n, j) == Link(n)
  }

  lemma RawGrowLoops(s: Sys, n: nat, i: nat)
    requires Sized(s) && n == NewFrame(s) && Looped(s.mem, n) && i < 512
    ensures RawGrow(s, n, i).1 == n && Looped(RawGrow(s, n, i).0.mem, n)
  {
    LinkReads(n);
    var m := RawGrow(s, n, i).0.mem;
    if !IsTable(Read(s.mem, n, i)) {
      forall j: nat | j < 512 ensures Read(m, n, j) == 0 || Read(m, n, j) == Link(n) {
        ReadPut(Zero(s.mem, n), n, i, Link(n), n, j);
        ReadZero(s.mem, n, n, j);
      }
    }
  }

  /** Without marking, all further levels are the one new table. */
  lemma {:induction false} LoopInMemory(s: Sys, n: nat, path: seq<nat>)
    requires Sized(s) && n == NewFrame(s) && Looped(s.mem, n) && ValidPath(path) && 512 * n + 512 <= |s.mem|
    ensures DescentInMemory(false, s, n, path)
    decreases |path|
  {
    if path == [] {
    } else {
      RawGrowLoops(s, n, path[0]);
      LoopInMemory(RawGrow(s, n, path[0]).0, n, path[1..]);
    }
  }

  lemma {:induction false} RawStaysInMemory(s: Sys, f: nat, path: seq<nat>, roots: seq<nat>)
    requires Descendable(s, f, path, roots)
    ensures DescentInMemory(false, s, f, path)
    decreases |path|
  {
    if path == [] {
    } else if Next(s.mem, f, path[0]) != 0 {
      EntryPresent(s, f, path, roots);
      RawStaysInMemory(s, Next(s.mem, f, path[0]), path[1..], roots);
    } else {
      EntryAbsent(s, f, path[0]);
      NewFrameIsFree(s);
      RawGrowEmpties(s, f, path[0]);
      LoopInMemory(RawGrow(s, f, path[0]).0, NewFrame(s), path[1..]);
    }
  }

  lemma EntryPresent(s: Sys, f: nat, path: seq<nat>, roots: seq<nat>)
    requires Descendable(s, f, path, roots) && path != [] && Next(s.mem, f, path[0]) != 0
    ensures Descendable(s, Next(s.mem, f, path[0]), path[1..], roots)
    ensures RawGrow(s, f, path[0]) == (s, Next(s.mem, f, path[0]))
  {
    assert EntryOk(s, f, path[0]);
    EntryFacts(s, f, path[0]);
    AppendPath(s.own[f].path, path);
  }

  lemma RawGrowEmpties(s: Sys, f: nat, i: nat)
    requires Sized(s) && Read(s.mem, f, i) == 0 && f != NewFrame(s) && i < 512
    ensures RawGrow(s, f, i).1 == NewFrame(s) && Looped(RawGrow(s, f, i).0.mem, NewFrame(s))
  {
    var n := NewFrame(s);
    forall j: nat | j < 512 ensures Read(RawGrow(s, f, i).0.mem, n, j) == 0 {
      ReadPut(Zero(s.mem, n), f, i, Link(n), n, j);
      ReadZero(s.mem, n, n, j);
    }
  }

  /** From well-formed tables an unmarked map reads and writes only memory. */
  lemma RawMapIsMemory(s: Sys, roots: seq<nat>, v: u64)
    requires Inv(s, roots)
    ensures DescentInMemory(false, s, roots[TtbrIndex(v)], TablePath(v))
  {
    KeyIsValid(v);
    RootOf(s, roots, TtbrIndex(v), TablePath(v));
    RawStaysInMemory(s, roots[TtbrIndex(v)], TablePath(v), roots);
  }

  // ----- a marked state and an unmarked one side by side -----

  /** The memories agree.  Before the first new table the allocators agree too; once one was
      `taken`, the frame the unmarked allocator goes on giving is no longer free in the marked one. */
  ghost predicate Alike(s: Sys, t: Sys, taken: bool)
  {
    && Sized(s) && Sized(t) && t.mem == s.mem
    && (if taken then NewFrame(t) !in FreeSet(s.pool) else t.pool == s.pool)
  }

  /** How many tables can still be built alike. */
  function Allowance(taken: bool): nat
  {
    if taken then 0 else 1
  }

  /** Entry `i` of table `p` links the table `x` in the marked state but not in the unmarked one,
      and the unmarked allocator never gives `x`. */
  ghost predicate Parted(s: Sys, t: Sys, p: nat, i: nat, x: nat)
  {
    && p in s.own && |s.own[p].path| < 3 && i < 512
    && Sized(t) && 0 < x < FRAMES && x != NewFrame(t)
    && Read(s.mem, p, i) == Link(x) && Read(t.mem, p, i) != Link(x)
  }

  // ----- what an unmarked step can write -----

  lemma RawGrowAvoids(t: Sys, f: nat, j: nat, p: nat, i: nat, x: nat)
    requires Sized(t) && j < 512 && i < 512 && x != NewFrame(t) && Read(t.mem, p, i) != Link(x)
    ensures Read(RawGrow(t, f, j).0.mem, p, i) != Link(x)
  {
    var n := NewFrame(t);
    LinkReads(n);
    ReadPut(Zero(t.mem, n), f, j, Link(n), p, i);
    ReadZero(t.mem, n, p, i);
  }

  lemma {:induction false} RawDescendAvoids(t: Sys, f: nat, path: seq<nat>, p: nat, i: nat, x: nat)
    requires Sized(t) && ValidPath(path) && i < 512 && x != NewFrame(t) && Read(t.mem, p, i) != Link(x)
    ensures Read(RawDescend(t, f, path).0.mem, p, i) != Link(x)
    decreases |path|
  {
    if path == [] {
    } else {
      var (t1, n) := RawGrow(t, f, path[0]);
      RawGrowAvoids(t, f, path[0], p, i, x);
      RawDescendAvoids(t1, n, path[1..], p, i, x);
    }
  }

  /** An unmarked step writes zeros, leaves, and links to the one frame its allocator gives. */
  lemma RawStepAvoids(t: Sys, roots: seq<nat>, op: Op, p: nat, i: nat, x: nat)
    requires Sized(t) && |roots| == 2 && i < 512 && x != NewFrame(t) && Read(t.mem, p, i) != Link(x)
    ensures Read(RawStep(t, roots, op).0.mem, p, i) != Link(x)
  {
    KeyIsValid(op.v);
    match op
    case MapOp(v, phys, flags) =>
      var (t1, l3) := RawDescend(t, roots[TtbrIndex(v)], TablePath(v));
      RawDescendAvoids(t, roots[TtbrIndex(v)], TablePath(v), p, i, x);
      LeafIsNotLink(phys, flags, x);
      ReadPut(t1.mem, l3, LeafIndex(v), LeafWord(phys, flags), p, i);
    case UnmapOp(v) =>
      ReadPut(t.mem, Walk(t.mem, roots[TtbrIndex(v)], TablePath(v)), LeafIndex(v), 0, p, i);
    case TranslateOp(v) =>
  }

  // ----- descents -----

  /** As long as the allowance lasts, the two descents write the same memory. */
  lemma {:induction false} DescendAgrees(s: Sys, t: Sys, taken: bool, f: nat, path: seq<nat>, roots: seq<nat>)
    requires Alike(s, t, taken) && Descendable(s, f, path, roots) && Enough(s, f, path)
    requires Missing(s.mem, f, path) <= Allowance(taken)
    ensures RawDescend(t, f, path).0.mem == Descend(s, f, path).0.mem
    ensures RawDescend(t, f, path).1 == Descend(s, f, path).1
    decreases |path|
  {
    if path == [] {
    } else if Next(s.mem, f, path[0]) != 0 {
      GrowOk(s, f, path[0], roots);
      AppendPath(s.own[f].path, path);
      DescendAgrees(s, t, taken, Next(s.mem, f, path[0]), path[1..], roots);
    } else {
      assert path[1..] == [];
    }
  }

  /** Beyond the allowance they part for good. */
  lemma {:induction false} DescendParts(s: Sys, t: Sys, taken: bool, f: nat, path: seq<nat>, roots: seq<nat>)
      returns (p: nat, i: nat, x: nat)
    requires Alike(s, t, taken) && Descendable(s, f, path, roots) && Enough(s, f, path)
    requires Missing(s.mem, f, path) > Allowance(taken)
    ensures Parted(Descend(s, f, path).0, RawDescend(t, f, path).0, p, i, x)
    decreases |path|
  {
    var (s1, n) := Grow(s, f, path[0]);
    var t1 := RawGrow(t, f, path[0]).0;
    GrowStep(s, f, path, roots);
    GrowOk(s, f, path[0], roots);
    if Next(s.mem, f, path[0]) != 0 {
      p, i, x := DescendParts(s, t, taken, n, path[1..], roots);
    } else if !taken {
      EmptyIsMissing(s1.mem, n, path[1..]);
      p, i, x := DescendParts(s1, t1, true, n, path[1..], roots);
    } else {
      p, i, x := f, path[0], n;
      EntryAbsent(s, f, i);
      DescendKeepsLink(s1, n, path[1..], roots, p, i, x);
      LinkReads(n);
      RawDescendAvoids(t, f, path, p, i, x);
    }
  }

  /** A marked descent keeps the links that are there, word for word. */
  lemma DescendKeepsLink(s: Sys, f: nat, path: seq<nat>, roots: seq<nat>, p: nat, i: nat, x: nat)
    requires Descendable(s, f, path, roots) && Enough(s, f, path)
    requires p in s.own && |s.own[p].path| < 3 && i < 512 && 0 < x < FRAMES && Next(s.mem, p, i) == x
    ensures var s' := Descend(s, f, path).0;
      p in s'.own && s'.own[p] == s.own[p] && Read(s'.mem, p, i) == Link(x)
  {
    var s' := Descend(s, f, path).0;
    DescendOk(s, f, path, roots);
    DescendKeepsNext(s, f, path, roots, p, i);
    assert EntryOk(s', p, i);
    EntryFacts(s', p, i);
  }

  /** A single descent writes the right tables exactly when at most one is missing. */
  lemma RawDescentIsRightExactly(s: Sys, f: nat, path: seq<nat>, roots: seq<nat>)
    requires Descendable(s, f, path, roots) && Enough(s, f, path)
    ensures RawDescend(s, f, path).0.mem == Descend(s, f, path).0.mem <==> Missing(s.mem, f, path) <= 1
  {
    if Missing(s.mem, f, path) <= 1 {
      DescendAgrees(s, s, false, f, path, roots);
    } else {
      var p, i, x := DescendParts(s, s, false, f, path, roots);
    }
  }

  // ----- steps -----

  /** The frames a step takes from the marked allocator. */
  ghost function Takes(s: Sys, s': Sys): int
    requires Sized(s) && Sized(s')
  {
    |FreeSet(s.pool)| - |FreeSet(s'.pool)|
  }

  ghost predicate Ready(s: Sys, roots: seq<nat>, op: Op)
  {
    Inv(s, roots) && (op.MapOp? ==> CanMap(s, roots, op.v))
  }

  /** Once parted, always parted: marked steps keep the link and unmarked steps never write it. */
  lemma StepStaysParted(s: Sys, t: Sys, roots: seq<nat>, op: Op, p: nat, i: nat, x: nat)
    requires Ready(s, roots, op) && Parted(s, t, p, i, x)
    ensures Parted(Step(s, roots, op).0, RawStep(t, roots, op).0, p, i, x)
  {
    StepKeepsLink(s, roots, op, p, i, x);
    RawStepAvoids(t, roots, op, p, i, x);
  }

  lemma StepKeepsLink(s: Sys, roots: seq<nat>, op: Op, p: nat, i: nat, x: nat)
    requires Ready(s, roots, op)
    requires p in s.own && |s.own[p].path| < 3 && i < 512 && 0 < x < FRAMES && Read(s.mem, p, i) == Link(x)
    ensures var s' := Step(s, roots, op).0;
      p in s'.own && |s'.own[p].path| < 3 && Read(s'.mem, p, i) == Link(x)
  {
    KeyIsValid(op.v);
    LinkReads(x);
    var (f, path) := (roots[TtbrIndex(op.v)], TablePath(op.v));
    RootOf(s, roots, TtbrIndex(op.v), path);
    match op
    case MapOp(v, phys, flags) =>
      var (s1, l3) := Descend(s, f, path);
      DescendOk(s, f, path, roots);
      DescendKeepsLink(s, f, path, roots, p, i, x);
      PutLeafReads(s1, l3, LeafIndex(v), LeafWord(phys, flags), p, i);
    case UnmapOp(v) =>
      WalkIsOwned(s, roots, f, path);
      var l3 := Walk(s.mem, f, path);
      if l3 != 0 { PutLeafReads(s, l3, LeafIndex(v), 0, p, i); }
    case TranslateOp(v) =>
  }

  /** A step either keeps the two alike, within the allowance, or parts them. */
  lemma StepTogether(s: Sys, t: Sys, taken: bool, roots: seq<nat>, op: Op)
      returns (taken': bool, p: nat, i: nat, x: nat)
    requires Alike(s, t, taken) && Ready(s, roots, op)
    ensures var (s', t') := (Step(s, roots, op).0, RawStep(t, roots, op).0);
      if Takes(s, s') <= Allowance(taken) then
        && Alike(s', t', taken') && Step(s, roots, op).1 == RawStep(t, roots, op).1
        && Takes(s, s') == Allowance(taken) - Allowance(taken')
      else Parted(s', t', p, i, x)
  {
    taken', p, i, x := taken, 0, 0, 0;
    if op.MapOp? {
      taken', p, i, x := MapTogether(s, t, taken, roots, op.v, op.phys, op.flags);
    }
  }

  lemma MapTogether(s: Sys, t: Sys, taken: bool, roots: seq<nat>, v: u64, phys: u64, flags: u64)
      returns (taken': bool, p: nat, i: nat, x: nat)
    requires Alike(s, t, taken) && Inv(s, roots) && CanMap(s, roots, v)
    ensures var (s', t') := (Map(s, roots, v, phys, flags), RawMap(t, roots, v, phys, flags));
      if Takes(s, s') <= Allowance(taken) then
        Alike(s', t', taken') && Takes(s, s') == Allowance(taken) - Allowance(taken')
      else Parted(s', t', p, i, x)
  {
    KeyIsValid(v);
    var (f, path) := (roots[TtbrIndex(v)], TablePath(v));
    RootOf(s, roots, TtbrIndex(v), path);
    Translations.ServedAccounts(s, roots, v, phys, flags);
    var missing := Missing(s.mem, f, path);
    taken', p, i, x := taken || missing > 0, 0, 0, 0;
    if missing <= Allowance(taken) {
      DescendAgrees(s, t, taken, f, path, roots);
      PoolAlike(s, t, taken, f, path, roots);
    } else {
      p, i, x := DescendParts(s, t, taken, f, path, roots);
      var (s1, l3) := Descend(s, f, path);
      var (t1, k3) := RawDescend(t, f, path);
      DescendOk(s, f, path, roots);
      PutLeafReads(s1, l3, LeafIndex(v), LeafWord(phys, flags), p, i);
      LeafIsNotLink(phys, flags, x);
      ReadPut(t1.mem, k3, LeafIndex(v), LeafWord(phys, flags), p, i);
    }
  }

  /** The allocators after an agreeing descent. */
  lemma {:induction false} PoolAlike(s: Sys, t: Sys, taken: bool, f: nat, path: seq<nat>, roots: seq<nat>)
    requires Alike(s, t, taken) && Descendable(s, f, path, roots) && Enough(s, f, path)
    requires Missing(s.mem, f, path) <= Allowance(taken)
    ensures var s' := Descend(s, f, path).0;
      if Missing(s.mem, f, path) == 0 then s'.pool == s.pool else NewFrame(t) !in FreeSet(s'.pool)
    decreases |path|
  {
    if path == [] {
    } else if Next(s.mem, f, path[0]) != 0 {
      GrowOk(s, f, path[0], roots);
      AppendPath(s.own[f].path, path);
      PoolAlike(s, t, taken, Next(s.mem, f, path[0]), path[1..], roots);
    } else {
      assert path[1..] == [];
      GrowOk(s, f, path[0], roots);
    }
  }

  // ----- runs -----

  lemma {:induction false} RunStaysParted(s: Sys, t: Sys, roots: seq<nat>, ops: seq<Op>, p: nat, i: nat, x: nat)
    requires Inv(s, roots) && FramesSuffice(s, roots, ops) && Parted(s, t, p, i, x)
    ensures Steps(s, roots, ops).0.mem != RawSteps(t, roots, ops).0.mem
    decreases |ops|
  {
    if ops == [] {
    } else {
      hide Parted, Inv, Step, RawStep;
      StepStaysParted(s, t, roots, ops[0], p, i, x);
      StepKeepsInv(s, roots, ops[0]);
      RunStaysParted(Step(s, roots, ops[0]).0, RawStep(t, roots, ops[0]).0, roots, ops[1..], p, i, x);
    }
  }

  lemma FreeShrinks(s: Sys, roots: seq<nat>, ops: seq<Op>)
    requires Inv(s, roots) && FramesSuffice(s, roots, ops)
    ensures Sized(Steps(s, roots, ops).0) && Takes(s, Steps(s, roots, ops).0) >= 0
  {
    DeadLinks.InvIsUsable(s, roots);
    DeadLinks.FramesMeanSafe(s, roots, ops);
    Translations.TablesNeverShrink(s, roots, ops);
    hide Steps, Inv, FramesSuffice;
    Translations.SubsetSize(FreeSet(Steps(s, roots, ops).0.pool), FreeSet(s.pool));
  }

  lemma {:induction false} RunsTogether(s: Sys, t: Sys, taken: bool, roots: seq<nat>, ops: seq<Op>)
    requires Alike(s, t, taken) && Inv(s, roots) && FramesSuffice(s, roots, ops)
    ensures Sized(Steps(s, roots, ops).0)
    ensures var within := Takes(s, Steps(s, roots, ops).0) <= Allowance(taken);
      && (RawSteps(t, roots, ops).0.mem == Steps(s, roots, ops).0.mem <==> within)
      && (within ==> RawSteps(t, roots, ops).1 == Steps(s, roots, ops).1)
    decreases |ops|
  {
    if ops == [] {
    } else {
      var (s1, t1) := (Step(s, roots, ops[0]).0, RawStep(t, roots, ops[0]).0);
      StepKeepsInv(s, roots, ops[0]);
      FreeShrinks(s1, roots, ops[1..]);
      var taken', p, i, x := StepTogether(s, t, taken, roots, ops[0]);
      hide Inv, Step, RawStep, Alike, Parted;
      if Takes(s, s1) <= Allowance(taken) {
        RunsTogether(s1, t1, taken', roots, ops[1..]);
      } else {
        RunStaysParted(s1, t1, roots, ops[1..], p, i, x);
      }
    }
  }

  /** Over every run the source's allocator builds the right tables exactly when the run has at most
      one table to build; then every answer is right as well.  The tables to build are counted before
      the run, and there are frames for them. */
  lemma RawRunIsRightExactly(s: Sys, roots: seq<nat>, ops: seq<Op>)
    requires Inv(s, roots) && |TableCount.NewTables(s, roots, ops)| <= |FreeSet(s.pool)|
    ensures var within := |TableCount.NewTables(s, roots, ops)| <= 1;
      && (RawSteps(s, roots, ops).0.mem == Steps(s, roots, ops).0.mem <==> within)
      && (within ==> RawSteps(s, roots, ops).1 == Steps(s, roots, ops).1)
  {
    TableCount.FramesSufficeExactly(s, roots, ops);
    assert Alike(s, s, false) && Allowance(false) == 1;
    assert Takes(s, Steps(s, roots, ops).0) == |TableCount.NewTables(s, roots, ops)|;
    hide *;
    RunsTogether(s, s, false, roots, ops);
  }
}
