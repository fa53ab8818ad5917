/** What callers of the three operations can rely on: exact translations after a step,
    non-interference, undoing, and the account of table frames. */
module Translations {
  import opened Bits
  import opened Descriptors
  import Pool
  import opened Tables
  import opened Trees
  import TreeShape
  import Exhaustion
  import opened PageMap
  import opened DeadLinks
  import DeadPages

  /** Every translation after a `map` of a safe page, with no condition on the free frames: the mapped
      page translates to the new frame if the map is served and to 0 otherwise, and no other page is
      affected in either case. */
  lemma TranslateAfterMap(s: Sys, roots: seq<nat>, v: u64, phys: u64, flags: u64, w: u64)
    requires Usable(s, roots) && Safe(s, roots, v)
    ensures Usable(Map(s, roots, v, phys, flags), roots)
    ensures Translate(Map(s, roots, v, phys, flags), roots, w) ==
            if KeyOf(w) != KeyOf(v) then Translate(s, roots, w)
            else if Serves(s, roots, v) then And(phys, PTE_ADDR_MASK) else 0
  {
    KeyIsValid(w);
    var s' := Map(s, roots, v, phys, flags);
    hide Usable, Map, View, Safe, Serves;
    MapViewAlways(s, roots, v, phys, flags, KeyOf(w));
    TranslateIsViewAlways(s, roots, w);
    TranslateIsViewAlways(s', roots, w);
    LeafAddress(phys, flags);
  }

  /** `map` of a safe page establishes the translation it is asked for exactly when the page is behind
      no dead link and enough frames are free, or when the requested address field is 0, which no
      caller can tell from failure. */
  lemma MapSucceedsExactly(s: Sys, roots: seq<nat>, v: u64, phys: u64, flags: u64)
    requires Usable(s, roots) && Safe(s, roots, v)
    ensures Translate(Map(s, roots, v, phys, flags), roots, v) == And(phys, PTE_ADDR_MASK)
            <==> (Alive(s, roots, v) && CanMap(s, roots, v)) || And(phys, PTE_ADDR_MASK) == 0
  {
    TranslateAfterMap(s, roots, v, phys, flags, v);
  }

  /** The descriptor a served map leaves for its page, bit by bit.  Bit 1 of the flags grants writing, bit
      2 grants user access and bit 3 grants execution. */
  lemma MapStores(s: Sys, roots: seq<nat>, v: u64, phys: u64, flags: u64, k: nat)
    requires Usable(s, roots) && Serves(s, roots, v) && phys % 0x1000 == 0 && phys < 0x1_0000_0000_0000
    ensures ValidKey(KeyOf(v))
    ensures var w := View(Map(s, roots, v, phys, flags), roots, KeyOf(v));
      && (Bit(w, 7) <==> !Bit(flags, 1))
      && (Bit(w, 6) <==> Bit(flags, 2))
      && (Bit(w, 53) <==> !Bit(flags, 3)) && (Bit(w, 54) <==> !Bit(flags, 3))
      && (12 <= k < 48 ==> (Bit(w, k) <==> Bit(phys, k)))
      && Bit(w, 0) && Bit(w, 1) && Bit(w, 10)
      && (k < 12 && k != 0 && k != 1 && k != 6 && k != 7 && k != 10 ==> !Bit(w, k))
      && (48 <= k && k != 53 && k != 54 ==> !Bit(w, k))
  {
    KeyIsValid(v);
    AliveIsSafe(s, roots, v);
    hide Usable, Serves, Safe, Map, View, Bit, Leaf;
    MapViewAlways(s, roots, v, phys, flags, KeyOf(v));
    LeafIs(phys, flags, 0);
    LeafIs(phys, flags, 1);
    LeafIs(phys, flags, 6);
    LeafIs(phys, flags, 7);
    LeafIs(phys, flags, 10);
    LeafIs(phys, flags, 53);
    LeafIs(phys, flags, 54);
    LeafIs(phys, flags, k);
  }

  lemma TranslateAfterUnmap(s: Sys, roots: seq<nat>, v: u64, w: u64)
    requires Usable(s, roots)
    ensures Usable(Unmap(s, roots, v), roots)
    ensures Translate(Unmap(s, roots, v), roots, w) == if KeyOf(w) == KeyOf(v) then 0 else Translate(s, roots, w)
  {
    KeyIsValid(w);
    hide Usable, Unmap, View;
    UnmapViewAlways(s, roots, v, KeyOf(w));
    TranslateIsViewAlways(s, roots, w);
    TranslateIsViewAlways(Unmap(s, roots, v), roots, w);
  }

  ghost predicate SameTranslations(s: Sys, s': Sys, roots: seq<nat>)
    requires |roots| == 2
  {
    forall w: u64 :: Translate(s', roots, w) == Translate(s, roots, w)
  }

  /** Map followed by unmap undoes itself for every address exactly when the page translated to
      nothing before. */
  lemma UnmapUndoesMap(s: Sys, roots: seq<nat>, v: u64, phys: u64, flags: u64)
    requires Usable(s, roots) && Safe(s, roots, v)
    ensures SameTranslations(s, Unmap(Map(s, roots, v, phys, flags), roots, v), roots) <==> Translate(s, roots, v) == 0
  {
    var s1 := Map(s, roots, v, phys, flags);
    var s2 := Unmap(s1, roots, v);
    hide Usable, Map, Unmap, View, Safe, Serves;
    TranslateAfterMap(s, roots, v, phys, flags, v);
    forall w: u64 ensures Translate(s2, roots, w) == if KeyOf(w) == KeyOf(v) then 0 else Translate(s, roots, w) {
      TranslateAfterUnmap(s1, roots, v, w);
      TranslateAfterMap(s, roots, v, phys, flags, w);
    }
    forall w: u64 | KeyOf(w) == KeyOf(v) ensures Translate(s, roots, w) == Translate(s, roots, v) {
      TranslateIsViewAlways(s, roots, v);
      TranslateIsViewAlways(s, roots, w);
    }
  }

  /** Repeating a map that was served changes no translation. */
  lemma MapTwice(s: Sys, roots: seq<nat>, v: u64, phys: u64, flags: u64)
    requires Usable(s, roots) && Serves(s, roots, v)
    ensures var s1 := Map(s, roots, v, phys, flags);
      SameTranslations(s1, Map(s1, roots, v, phys, flags), roots)
  {
    var s1 := Map(s, roots, v, phys, flags);
    AliveIsSafe(s, roots, v);
    MapCompletesAlways(s, roots, v, phys, flags);
    ServedStaysAlive(s, roots, v, phys, flags);
    AliveIsSafe(s1, roots, v);
    TranslateAfterMap(s, roots, v, phys, flags, v);
    assert Serves(s1, roots, v);
    hide Usable, Safe, Alive, CanMap, Serves, Map, Translate, KeyOf;
    forall w: u64 ensures Translate(Map(s1, roots, v, phys, flags), roots, w) == Translate(s1, roots, w) {
      TranslateAfterMap(s, roots, v, phys, flags, w);
      TranslateAfterMap(s1, roots, v, phys, flags, w);
    }
  }

  lemma ServedStaysAlive(s: Sys, roots: seq<nat>, v: u64, phys: u64, flags: u64)
    requires Usable(s, roots) && Serves(s, roots, v)
    ensures Alive(Map(s, roots, v, phys, flags), roots, v)
  {
    AliveIsSafe(s, roots, v);
    DeadPages.AliveToIs(s, roots, v);
    DeadPages.AliveToIs(Map(s, roots, v, phys, flags), roots, v);
    hide Usable, Map, Alive, CanMap, DeadPages.AliveTo;
    DeadPages.DeadAfterMap(s, roots, v, phys, flags, v, 3);
  }

  /** Repeating an unmap changes no translation. */
  lemma UnmapTwice(s: Sys, roots: seq<nat>, v: u64)
    requires Usable(s, roots)
    ensures SameTranslations(Unmap(s, roots, v), Unmap(Unmap(s, roots, v), roots, v), roots)
  {
    var s1 := Unmap(s, roots, v);
    hide Usable, Unmap, Translate, KeyOf;
    TranslateAfterUnmap(s, roots, v, v);
    forall w: u64 ensures Translate(Unmap(s1, roots, v), roots, w) == Translate(s1, roots, w) {
      TranslateAfterUnmap(s, roots, v, w);
      TranslateAfterUnmap(s1, roots, v, w);
    }
  }

  // ----- table frames -----

  /** The frames a map of a safe page takes: the missing tables, or all that are free if those are
      fewer; none when the page is behind a dead link. */
  ghost function Uses(s: Sys, roots: seq<nat>, v: u64): nat
    requires Sized(s) && |roots| == 2
  {
    var missing := Missing(s.mem, roots[TtbrIndex(v)], TablePath(v));
    if !Alive(s, roots, v) then 0
    else if missing <= |FreeSet(s.pool)| then missing else |FreeSet(s.pool)|
  }

  /** `map` takes those frames, at most three, and makes them table frames; it gives up no table. */
  lemma MapAccounts(s: Sys, roots: seq<nat>, v: u64, phys: u64, flags: u64)
    requires Usable(s, roots) && Safe(s, roots, v)
    ensures var s' := Map(s, roots, v, phys, flags);
      && Uses(s, roots, v) <= 3
      && |FreeSet(s'.pool)| == |FreeSet(s.pool)| - Uses(s, roots, v)
      && FreeSet(s'.pool) <= FreeSet(s.pool)
      && s'.own.Keys == s.own.Keys + (FreeSet(s.pool) - FreeSet(s'.pool))
      && Extends(s.own, s'.own)
  {
    KeyIsValid(v);
    var b :| Inv(b, roots) && Exhaustion.Shadows(b, s);
    SamePools(b, s);
    hide Inv, Exhaustion.Shadows, Map, Alive, Safe, Missing, FreeSet, Usable;
    MissingAtMost(s.mem, roots[TtbrIndex(v)], TablePath(v));
    ShadowWalk(b, s, roots, v);
    MapBeneath(b, s, roots, v, phys, flags);
    SamePools(Beneath(b, s, roots, v, phys, flags), Map(s, roots, v, phys, flags));
    if Alive(s, roots, v) { BaseAccounts(b, roots, v, phys, flags); }
  }

  lemma SamePools(b: Sys, t: Sys)
    requires Exhaustion.Shadows(b, t)
    ensures t.pool == b.pool && t.own == b.own
  {}

  lemma BaseAccounts(b: Sys, roots: seq<nat>, v: u64, phys: u64, flags: u64)
    requires Inv(b, roots)
    ensures var b' := MapBase(b, roots, v, phys, flags);
      var missing := Missing(b.mem, roots[TtbrIndex(v)], TablePath(v));
      && |FreeSet(b'.pool)| == (if CanMap(b, roots, v) then |FreeSet(b.pool)| - missing else 0)
      && FreeSet(b'.pool) <= FreeSet(b.pool)
      && b'.own.Keys == b.own.Keys + (FreeSet(b.pool) - FreeSet(b'.pool))
      && Extends(b.own, b'.own)
  {
    KeyIsValid(v);
    var (f, path) := (roots[TtbrIndex(v)], TablePath(v));
    RootOf(b, roots, TtbrIndex(v), path);
    if CanMap(b, roots, v) {
      DescendCounts(b, f, path, roots);
      DescendOk(b, f, path, roots);
    } else {
      SettleCounts(b, f, path, roots);
      Exhaustion.SettleOk(b, f, path, roots);
    }
  }

  lemma GrowConserves(s: Sys, f: nat, i: nat, roots: seq<nat>)
    requires Inv(s, roots) && f in s.own && |s.own[f].path| < 3 && i < 512
    requires Next(s.mem, f, i) != 0 || FreeSet(s.pool) != {}
    ensures var s1 := Grow(s, f, i).0; s1.own.Keys + FreeSet(s1.pool) == s.own.Keys + FreeSet(s.pool)
  {
    var (s1, n) := Grow(s, f, i);
    GrowOk(s, f, i, roots);
    hide *;
    if s1 != s { GrownConserves(s, f, i, n, s1); }
  }

  lemma GrownConserves(s: Sys, f: nat, i: nat, n: nat, s1: Sys)
    requires Sized(s) && Sized(s1) && f in s.own && Grown(s, f, i, n, s1)
    ensures s1.own.Keys + FreeSet(s1.pool) == s.own.Keys + FreeSet(s.pool)
  {
    hide FreeSet, Read;
    assert s1.own.Keys == s.own.Keys + {n};
  }

  lemma SettleStep(s: Sys, f: nat, path: seq<nat>, roots: seq<nat>)
    requires Descendable(s, f, path, roots) && !Enough(s, f, path)
    requires Next(s.mem, f, path[0]) != 0 || FreeSet(s.pool) != {}
    ensures var (s1, n) := Grow(s, f, path[0]);
      && Descendable(s1, n, path[1..], roots) && !Enough(s1, n, path[1..])
      && s1.own.Keys + FreeSet(s1.pool) == s.own.Keys + FreeSet(s.pool)
  {
    Exhaustion.NoneDead(s, f, path, roots);
    assert Exhaustion.Shadows(s, s);
    GrowConserves(s, f, path[0], roots);
    hide Inv, Enough, Grow, Exhaustion.Shadows;
    Exhaustion.AliveStep(s, s, f, path, roots);
  }

  /** A descent that lacks frames takes all that are left. */
  lemma {:induction false} SettleCounts(s: Sys, f: nat, path: seq<nat>, roots: seq<nat>)
    requires Descendable(s, f, path, roots) && !Enough(s, f, path)
    ensures var s' := Exhaustion.Settle(s, f, path);
      FreeSet(s'.pool) == {} && s'.own.Keys == s.own.Keys + FreeSet(s.pool)
    decreases |path|
  {
    if Next(s.mem, f, path[0]) == 0 && FreeSet(s.pool) == {} {
    } else {
      SettleStep(s, f, path, roots);
      var (s1, n) := Grow(s, f, path[0]);
      hide Inv, Grow, Next, Enough;
      SettleCounts(s1, n, path[1..], roots);
    }
  }

  /** In well-formed tables with enough free frames those are exactly the missing tables. */
  lemma ServedAccounts(s: Sys, roots: seq<nat>, v: u64, phys: u64, flags: u64)
    requires Inv(s, roots) && CanMap(s, roots, v)
    ensures Usable(s, roots) && Alive(s, roots, v) && Safe(s, roots, v)
    ensures var s' := Map(s, roots, v, phys, flags);
      |FreeSet(s'.pool)| == |FreeSet(s.pool)| - Missing(s.mem, roots[TtbrIndex(v)], TablePath(v))
  {
    InvIsUsable(s, roots);
    InvIsAlive(s, roots, v);
    AliveIsSafe(s, roots, v);
    hide Inv, Usable, Alive, Safe, Map;
    MapAccounts(s, roots, v, phys, flags);
  }

  lemma {:induction false} MissingAtMost(m: seq<u64>, f: nat, path: seq<nat>)
    ensures Missing(m, f, path) <= |path|
    decreases |path|
  {
    if path == [] {
    } else {
      MissingAtMost(m, Next(m, f, path[0]), path[1..]);
    }
  }

  lemma SameRegion(v: u64, w: u64)
    requires v / 0x20_0000 == w / 0x20_0000
    ensures TtbrIndex(v) == TtbrIndex(w) && TablePath(v) == TablePath(w)
  {
    RegionDecides(v); RegionDecides(w);
    TtbrIndexIs(v); TtbrIndexIs(w);
    IndicesAre(v); IndicesAre(w);
  }

  lemma RegionDecides(v: u64)
    ensures v / 0x4000_0000 == v / 0x20_0000 / 512
    ensures v / 0x80_0000_0000 == v / 0x20_0000 / 512 / 512
    ensures v < 0x20_0000_0000 <==> v / 0x20_0000 < 0x1_0000
  {
    DivBy512(v, 0x20_0000); DivBy512(v, 0x4000_0000);
  }

  /** After a map nothing is missing on the path. */
  lemma MapCompletes(s: Sys, roots: seq<nat>, v: u64, phys: u64, flags: u64)
    requires Inv(s, roots) && CanMap(s, roots, v)
    ensures Missing(Map(s, roots, v, phys, flags).mem, roots[TtbrIndex(v)], TablePath(v)) == 0
  {
    KeyIsValid(v);
    var (f, path) := (roots[TtbrIndex(v)], TablePath(v));
    RootOf(s, roots, TtbrIndex(v), path);
    DescendOk(s, f, path, roots);
    DescendWalks(s, f, path, roots);
    var (s0, l3) := Descend(s, f, path);
    PutLeafKeepsMissing(s0, l3, LeafIndex(v), LeafWord(phys, flags), roots, f, path);
  }

  lemma MapCompletesAlways(s: Sys, roots: seq<nat>, v: u64, phys: u64, flags: u64)
    requires Usable(s, roots) && Alive(s, roots, v) && CanMap(s, roots, v)
    ensures Missing(Map(s, roots, v, phys, flags).mem, roots[TtbrIndex(v)], TablePath(v)) == 0
  {
    var b :| Inv(b, roots) && Exhaustion.Shadows(b, s);
    hide Inv, Exhaustion.Shadows, Map, Alive, CanMap;
    ShadowWalk(b, s, roots, v);
    MapShadow(b, s, roots, v, phys, flags);
    MapCompletes(b, roots, v, phys, flags);
    ShadowWalk(Map(b, roots, v, phys, flags), Map(s, roots, v, phys, flags), roots, v);
  }

  /** After a map, a second map in the same 2 MB region takes no frame. */
  lemma SecondMapIsFree(s: Sys, roots: seq<nat>, v: u64, phys: u64, flags: u64, w: u64, phys': u64, flags': u64)
    requires Inv(s, roots) && CanMap(s, roots, v) && v / 0x20_0000 == w / 0x20_0000
    ensures var s1 := Map(s, roots, v, phys, flags);
      && CanMap(s1, roots, w)
      && FreeSet(Map(s1, roots, w, phys', flags').pool) == FreeSet(s1.pool)
      && Map(s1, roots, w, phys', flags').own.Keys == s1.own.Keys
  {
    hide InnerOk, OwnedOk, Linked, FreeOk, Map;
    SameRegion(v, w);
    var s1 := Map(s, roots, v, phys, flags);
    MapCompletes(s, roots, v, phys, flags);
    MapKeepsInv(s, roots, v, phys, flags);
    ServedAccounts(s1, roots, w, phys', flags');
    MapAccounts(s1, roots, w, phys', flags');
    SubsetCard(FreeSet(Map(s1, roots, w, phys', flags').pool), FreeSet(s1.pool));
  }

  lemma SubsetSize<T>(a: set<T>, b: set<T>)
    requires a <= b
    ensures |a| <= |b|
  {
    assert b == (b - a) + a && |b| == |b - a| + |a|;
  }

  lemma SubsetCard(a: set<nat>, b: set<nat>)
    requires a <= b && |a| == |b|
    ensures a == b
  {
    assert b == (b - a) + a && |b| == |b - a| + |a|;
    assert b - a == {};
  }

  lemma {:induction false} PutLeafKeepsMissing(s: Sys, f: nat, i: nat, w: u64, roots: seq<nat>, g: nat, path: seq<nat>)
    requires Descendable(s, g, path, roots) && f in s.own && |s.own[f].path| == 3 && i < 512
    ensures Missing(TreeShape.PutLeaf(s, f, i, w).mem, g, path) == Missing(s.mem, g, path)
    decreases |path|
  {
    if path == [] {
    } else {
      TreeShape.PutLeafReads(s, f, i, w, g, path[0]);
      assert EntryOk(s, g, path[0]);
      EntryFacts(s, g, path[0]);
      AppendPath(s.own[g].path, path);
      var n := Next(s.mem, g, path[0]);
      if n != 0 { PutLeafKeepsMissing(s, f, i, w, roots, n, path[1..]); }
    }
  }

  function Maps(ops: seq<Op>): nat
    decreases |ops|
  {
    if ops == [] then 0 else (if ops[0].MapOp? then 1 else 0) + Maps(ops[1..])
  }

  /** Three free frames per map are always enough. */
  lemma {:induction false} ThreeFramesPerMap(s: Sys, roots: seq<nat>, ops: seq<Op>)
    requires Inv(s, roots) && 3 * Maps(ops) <= |FreeSet(s.pool)|
    ensures FramesSuffice(s, roots, ops)
    decreases |ops|
  {
    if ops == [] {
    } else {
      if ops[0].MapOp? {
        MissingAtMost(s.mem, roots[TtbrIndex(ops[0].v)], TablePath(ops[0].v));
        ServedAccounts(s, roots, ops[0].v, ops[0].phys, ops[0].flags);
      }
      StepKeepsInv(s, roots, ops[0]);
      hide Inv, Step;
      ThreeFramesPerMap(Step(s, roots, ops[0]).0, roots, ops[1..]);
    }
  }

  /** `s1` has every table of `s`, and between them tables and free frames are the same. */
  ghost predicate Conserves(s: Sys, s1: Sys)
    requires Sized(s) && Sized(s1)
  {
    && Extends(s.own, s1.own)
    && FreeSet(s1.pool) <= FreeSet(s.pool)
    && s1.own.Keys + FreeSet(s1.pool) == s.own.Keys + FreeSet(s.pool)
  }

  lemma StepConserves(s: Sys, roots: seq<nat>, op: Op)
    requires Usable(s, roots) && IsSafe(s, roots, op)
    ensures Usable(Step(s, roots, op).0, roots) && Conserves(s, Step(s, roots, op).0)
  {
    hide Usable, Safe, Map, Translate;
    match op
    case MapOp(v, phys, flags) =>
      MapAccounts(s, roots, v, phys, flags);
      TranslateAfterMap(s, roots, v, phys, flags, v);
    case UnmapOp(v) => TranslateAfterUnmap(s, roots, v, v);
    case TranslateOp(v) =>
  }

  /** Over every run of maps of safe pages, served or not, no table is lost, and free frames plus table
      frames stay what they were. */
  lemma {:induction false} TablesNeverShrink(s: Sys, roots: seq<nat>, ops: seq<Op>)
    requires Usable(s, roots) && StaysSafe(s, roots, ops)
    ensures Sized(Steps(s, roots, ops).0) && Conserves(s, Steps(s, roots, ops).0)
    decreases |ops|
  {
    hide Usable, Step, IsSafe;
    if ops == [] {
    } else {
      StepConserves(s, roots, ops[0]);
      TablesNeverShrink(Step(s, roots, ops[0]).0, roots, ops[1..]);
    }
  }

  // ----- the start -----

  /** Two distinct zeroed root frames outside free memory represent the empty mapping. */
  lemma ZeroedRoots(mem: seq<u64>, pool: Pool.Pool, r0: nat, r1: nat)
    requires pool.limit <= |pool.bits| && pool.limit <= FRAMES && Pool.Sound(pool)
    requires forall b :: b in FreeSet(pool) ==> 512 * b + 512 <= |mem|
    requires 0 < r0 < FRAMES && 0 < r1 < FRAMES && r0 != r1 && r0 !in FreeSet(pool) && r1 !in FreeSet(pool)
    requires 512 * r0 + 512 <= |mem| && 512 * r1 + 512 <= |mem|
    requires forall i: nat :: i < 512 ==> Read(mem, r0, i) == 0 && Read(mem, r1, i) == 0
    ensures var s := Sys(mem, pool, map[r0 := Node(0, []), r1 := Node(1, [])]);
      Inv(s, [r0, r1]) && Refines(s, [r0, r1], map[])
  {
    var s := Sys(mem, pool, map[r0 := Node(0, []), r1 := Node(1, [])]);
    forall k | ValidKey(k) ensures View(s, [r0, r1], k) == 0 {
      assert Read(mem, [r0, r1][k.root], k.path[0]) == 0;
    }
  }
}
