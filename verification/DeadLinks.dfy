/** The three operations on tables in which failed allocations have left dead links.  Pages whose path
    meets none work as before, and pages with one in their last inner table cannot be mapped but do no
    harm. */
module DeadLinks {
  import opened Bits
  import opened Descriptors
  import opened Tables
  import TreeShape
  import opened Exhaustion
  import opened PageMap

  /** Well-formed trees, but for dead links in absent entries and for memory outside the tables. */
  ghost predicate Usable(t: Sys, roots: seq<nat>)
    ensures Usable(t, roots) ==> Sized(t) && |roots| == 2
  {
    exists b :: Inv(b, roots) && Shadows(b, t)
  }

  /** The path of `v` meets no dead link. */
  predicate Alive(t: Sys, roots: seq<nat>, v: nat)
    requires |roots| == 2
  {
    !MeetsDead(t.mem, roots[TtbrIndex(v)], TablePath(v))
  }

  /** The path of `v` meets no dead link, except perhaps in its last inner table. */
  predicate Safe(t: Sys, roots: seq<nat>, v: nat)
    requires |roots| == 2
  {
    !MeetsDead(t.mem, roots[TtbrIndex(v)], TablePath(v)[..2])
  }

  /** A map of `v` takes effect: it meets no dead link and finds the frames it needs. */
  ghost predicate Serves(t: Sys, roots: seq<nat>, v: u64)
    requires Sized(t) && |roots| == 2
  {
    Alive(t, roots, v) && CanMap(t, roots, v)
  }

  lemma AliveIsSafe(t: Sys, roots: seq<nat>, v: nat)
    requires |roots| == 2 && Alive(t, roots, v)
    ensures Safe(t, roots, v)
  {
    PrefixIsAlive(t.mem, roots[TtbrIndex(v)], TablePath(v), 2);
  }

  lemma InvIsUsable(s: Sys, roots: seq<nat>)
    requires Inv(s, roots)
    ensures Usable(s, roots)
  {
    assert Shadows(s, s);
  }

  lemma InvIsAlive(s: Sys, roots: seq<nat>, v: u64)
    requires Inv(s, roots)
    ensures Alive(s, roots, v)
  {
    KeyIsValid(v);
    RootOf(s, roots, TtbrIndex(v), TablePath(v));
    NoneDead(s, roots[TtbrIndex(v)], TablePath(v), roots);
  }

  // ----- a shadow shows what its base shows -----

  lemma ShadowView(b: Sys, t: Sys, roots: seq<nat>, k: Key)
    requires Inv(b, roots) && Shadows(b, t) && ValidKey(k)
    ensures View(t, roots, k) == View(b, roots, k)
  {
    ShadowIsUndisturbed(b, t);
    RootOf(b, roots, k.root, k.path[..3]);
    UndisturbedLookup(b, t.mem, roots, roots[k.root], k.path);
  }

  lemma ShadowWalk(b: Sys, t: Sys, roots: seq<nat>, v: u64)
    requires Inv(b, roots) && Shadows(b, t)
    ensures var (f, path) := (roots[TtbrIndex(v)], TablePath(v));
      Walk(t.mem, f, path) == Walk(b.mem, f, path) && Missing(t.mem, f, path) == Missing(b.mem, f, path)
    ensures Sized(t) && (CanMap(t, roots, v) <==> CanMap(b, roots, v))
  {
    KeyIsValid(v);
    ShadowIsUndisturbed(b, t);
    RootOf(b, roots, TtbrIndex(v), TablePath(v));
    UndisturbedWalk(b, t.mem, roots, roots[TtbrIndex(v)], TablePath(v));
  }

  // ----- one operation -----

  /** The base after a map: mapped, or settled when frames are lacking. */
  ghost function MapBase(b: Sys, roots: seq<nat>, v: u64, phys: u64, flags: u64): (b': Sys)
    requires Sized(b) && |roots| == 2
    ensures Sized(b')
  {
    if CanMap(b, roots, v) then Map(b, roots, v, phys, flags)
    else Settle(b, roots[TtbrIndex(v)], TablePath(v))
  }

  lemma MapShadow(b: Sys, t: Sys, roots: seq<nat>, v: u64, phys: u64, flags: u64)
    requires Inv(b, roots) && Shadows(b, t) && Alive(t, roots, v)
    ensures Sized(t) && Inv(MapBase(b, roots, v, phys, flags), roots)
    ensures Shadows(MapBase(b, roots, v, phys, flags), Map(t, roots, v, phys, flags))
  {
    KeyIsValid(v);
    var (f, path) := (roots[TtbrIndex(v)], TablePath(v));
    RootOf(b, roots, TtbrIndex(v), path);
    if CanMap(b, roots, v) {
      MapKeepsInv(b, roots, v, phys, flags);
      DescendTogether(b, t, f, path, roots);
      var ((b1, l3), t1) := (Descend(b, f, path), Descend(t, f, path).0);
      PutTogether(b1, t1, l3, LeafIndex(v), LeafWord(phys, flags));
    } else {
      DescendFails(b, t, f, path, roots);
      SettleOk(b, f, path, roots);
      PutOutside(Settle(b, f, path), Descend(t, f, path).0, 0, LeafIndex(v), LeafWord(phys, flags));
    }
  }

  lemma MapBaseView(b: Sys, roots: seq<nat>, v: u64, phys: u64, flags: u64, k: Key)
    requires Inv(b, roots) && ValidKey(k)
    ensures View(MapBase(b, roots, v, phys, flags), roots, k) ==
            if CanMap(b, roots, v) && k == KeyOf(v) then LeafWord(phys, flags) else View(b, roots, k)
    ensures !CanMap(b, roots, v) ==> View(b, roots, KeyOf(v)) == 0
  {
    KeyIsValid(v);
    if CanMap(b, roots, v) {
      MapView(b, roots, v, phys, flags, k);
    } else {
      SettleView(b, roots, v, k);
    }
  }

  lemma SettleView(b: Sys, roots: seq<nat>, v: u64, k: Key)
    requires Inv(b, roots) && ValidKey(k) && !CanMap(b, roots, v)
    ensures View(Settle(b, roots[TtbrIndex(v)], TablePath(v)), roots, k) == View(b, roots, k)
    ensures View(b, roots, KeyOf(v)) == 0
  {
    KeyIsValid(v);
    hide InnerOk, Linked, FreeOk, OwnedOk, Grow, IsTable, FrameOf, Settle;
    var (f, path) := (roots[TtbrIndex(v)], TablePath(v));
    RootOf(b, roots, TtbrIndex(v), path);
    SettleOk(b, f, path, roots);
    RootOf(b, roots, k.root, k.path[..3]);
    MissingMeansAbsent(b.mem, f, path);
    TreeShape.LookupIsWalk(b.mem, f, path, LeafIndex(v));
  }

  /** A map of a page with a dead link in its last inner table only stores a leaf in frame 0. */
  lemma MapStops(t: Sys, roots: seq<nat>, v: u64, phys: u64, flags: u64)
    requires Sized(t) && |roots| == 2 && Safe(t, roots, v) && !Alive(t, roots, v)
    ensures Map(t, roots, v, phys, flags) == TreeShape.PutLeaf(t, 0, LeafIndex(v), LeafWord(phys, flags))
    ensures Walk(t.mem, roots[TtbrIndex(v)], TablePath(v)) == 0
  {
    DescendStops(t, roots[TtbrIndex(v)], TablePath(v));
  }

  /** What is beneath after a map of a safe page. */
  ghost function Beneath(b: Sys, t: Sys, roots: seq<nat>, v: u64, phys: u64, flags: u64): (b': Sys)
    requires Sized(b) && |roots| == 2
    ensures Sized(b')
  {
    if Alive(t, roots, v) then MapBase(b, roots, v, phys, flags) else b
  }

  lemma MapBeneath(b: Sys, t: Sys, roots: seq<nat>, v: u64, phys: u64, flags: u64)
    requires Inv(b, roots) && Shadows(b, t) && Safe(t, roots, v)
    ensures Sized(t) && Inv(Beneath(b, t, roots, v, phys, flags), roots)
    ensures Shadows(Beneath(b, t, roots, v, phys, flags), Map(t, roots, v, phys, flags))
  {
    if Alive(t, roots, v) {
      MapShadow(b, t, roots, v, phys, flags);
    } else {
      KeyIsValid(v);
      MapStops(t, roots, v, phys, flags);
      PutOutside(b, t, 0, LeafIndex(v), LeafWord(phys, flags));
    }
  }

  lemma BeneathView(b: Sys, t: Sys, roots: seq<nat>, v: u64, phys: u64, flags: u64, k: Key)
    requires Inv(b, roots) && Shadows(b, t) && Safe(t, roots, v) && ValidKey(k)
    ensures Sized(t) && View(Beneath(b, t, roots, v, phys, flags), roots, k) ==
            if Serves(t, roots, v) && k == KeyOf(v) then LeafWord(phys, flags) else View(b, roots, k)
    ensures !Serves(t, roots, v) ==> View(t, roots, KeyOf(v)) == 0
  {
    KeyIsValid(v);
    ShadowWalk(b, t, roots, v);
    if Alive(t, roots, v) {
      hide Inv, Shadows, MapBase, View;
      MapBaseView(b, roots, v, phys, flags, k);
      ShadowView(b, t, roots, KeyOf(v));
    } else {
      RootOf(b, roots, TtbrIndex(v), TablePath(v));
      hide Inv, Shadows, Map;
      MapStops(t, roots, v, phys, flags);
      TreeShape.LookupIsWalk(t.mem, roots[TtbrIndex(v)], TablePath(v), LeafIndex(v));
    }
  }

  /** A map of a safe page, with no condition on the free frames: the stored word changes at exactly
      the mapped key if the map is served, and nowhere otherwise. */
  lemma MapViewAlways(t: Sys, roots: seq<nat>, v: u64, phys: u64, flags: u64, k: Key)
    requires Usable(t, roots) && Safe(t, roots, v) && ValidKey(k)
    ensures Usable(Map(t, roots, v, phys, flags), roots)
    ensures View(Map(t, roots, v, phys, flags), roots, k) ==
            if Serves(t, roots, v) && k == KeyOf(v) then LeafWord(phys, flags) else View(t, roots, k)
    ensures !Serves(t, roots, v) ==> View(t, roots, KeyOf(v)) == 0
  {
    var b :| Inv(b, roots) && Shadows(b, t);
    hide Inv, Shadows, Map, Safe, Serves, Beneath, View;
    MapBeneath(b, t, roots, v, phys, flags);
    ShadowView(b, t, roots, k);
    ShadowView(Beneath(b, t, roots, v, phys, flags), Map(t, roots, v, phys, flags), roots, k);
    BeneathView(b, t, roots, v, phys, flags, k);
  }

  lemma UnmapShadow(b: Sys, t: Sys, roots: seq<nat>, v: u64)
    requires Inv(b, roots) && Shadows(b, t)
    ensures Inv(Unmap(b, roots, v), roots) && Shadows(Unmap(b, roots, v), Unmap(t, roots, v))
  {
    KeyIsValid(v);
    ShadowWalk(b, t, roots, v);
    UnmapKeepsInv(b, roots, v);
    var l3 := Walk(b.mem, roots[TtbrIndex(v)], TablePath(v));
    if l3 != 0 { PutTogether(b, t, l3, LeafIndex(v), 0); }
  }

  /** An unmap needs no condition at all. */
  lemma UnmapViewAlways(t: Sys, roots: seq<nat>, v: u64, k: Key)
    requires Usable(t, roots) && ValidKey(k)
    ensures Usable(Unmap(t, roots, v), roots)
    ensures View(Unmap(t, roots, v), roots, k) == if k == KeyOf(v) then 0 else View(t, roots, k)
  {
    var b :| Inv(b, roots) && Shadows(b, t);
    hide Inv, Shadows, Unmap;
    UnmapShadow(b, t, roots, v);
    ShadowView(b, t, roots, k);
    ShadowView(Unmap(b, roots, v), Unmap(t, roots, v), roots, k);
    UnmapView(b, roots, v, k);
  }

  lemma TranslateIsViewAlways(t: Sys, roots: seq<nat>, v: u64)
    requires Usable(t, roots)
    ensures Translate(t, roots, v) == And(View(t, roots, KeyOf(v)), PTE_ADDR_MASK)
  {
    var b :| Inv(b, roots) && Shadows(b, t);
    TranslateIsView(t, roots, v);
  }

  /** What the operations read and write is memory. */
  lemma UsableIsMemory(t: Sys, roots: seq<nat>, v: u64)
    requires Usable(t, roots)
    ensures WalkInMemory(t.mem, roots[TtbrIndex(v)], TablePath(v))
    ensures Safe(t, roots, v) ==> DescentInMemory(true, t, roots[TtbrIndex(v)], TablePath(v))
  {
    KeyIsValid(v);
    var b :| Inv(b, roots) && Shadows(b, t);
    var (f, path) := (roots[TtbrIndex(v)], TablePath(v));
    RootOf(b, roots, TtbrIndex(v), path);
    ShadowIsUndisturbed(b, t);
    hide InnerOk, Linked, OwnedOk, RootsOk, Undisturbed;
    WalkStaysInMemory(b, t.mem, roots, f, path);
    if Alive(t, roots, v) {
      DescentStaysInMemory(b, t, f, path, roots);
    } else if Safe(t, roots, v) {
      StopInMemory(t, f, path);
    }
  }

  // ----- runs -----

  /** A step that is no map, or a map of a safe page. */
  predicate IsSafe(s: Sys, roots: seq<nat>, op: Op)
    requires |roots| == 2
  {
    op.MapOp? ==> Safe(s, roots, op.v)
  }

  /** A step that is no map, or a map that takes effect. */
  ghost predicate IsServed(s: Sys, roots: seq<nat>, op: Op)
    requires Sized(s) && |roots| == 2
  {
    op.MapOp? ==> Serves(s, roots, op.v)
  }

  /** Every `map` of the run is of a safe page when its turn comes. */
  ghost predicate StaysSafe(s: Sys, roots: seq<nat>, ops: seq<Op>)
    requires Sized(s) && |roots| == 2
    decreases |ops|
  {
    ops == [] || (IsSafe(s, roots, ops[0]) && StaysSafe(Step(s, roots, ops[0]).0, roots, ops[1..]))
  }

  /** Which steps take effect. */
  ghost function Served(s: Sys, roots: seq<nat>, ops: seq<Op>): (r: seq<bool>)
    requires Sized(s) && |roots| == 2
    ensures |r| == |ops|
    decreases |ops|
  {
    if ops == [] then [] else [IsServed(s, roots, ops[0])] + Served(Step(s, roots, ops[0]).0, roots, ops[1..])
  }

  lemma StepRefinesAlways(s: Sys, roots: seq<nat>, a: Mapping, op: Op)
    requires Usable(s, roots) && Refines(s, roots, a) && IsSafe(s, roots, op)
    ensures var (a', out) := if IsServed(s, roots, op) then SpecStep(a, op) else (a, 0);
      var (s', out') := Step(s, roots, op);
      Usable(s', roots) && Refines(s', roots, a') && out' == out
  {
    KeyIsValid(op.v);
    hide Usable, View, Map, Unmap, Translate, KeyOf, ValidKey;
    match op
    case MapOp(v, phys, flags) => MapRefinesAlways(s, roots, a, v, phys, flags);
    case UnmapOp(v) => UnmapRefinesAlways(s, roots, a, v);
    case TranslateOp(v) => TranslateRefinesAlways(s, roots, a, v);
  }

  lemma TranslateRefinesAlways(s: Sys, roots: seq<nat>, a: Mapping, v: u64)
    requires Usable(s, roots) && Refines(s, roots, a)
    ensures Translate(s, roots, v) == SpecStep(a, TranslateOp(v)).1
  {
    KeyIsValid(v);
    TranslateIsViewAlways(s, roots, v);
    assert And(0, PTE_ADDR_MASK) == 0;
  }

  lemma UnmapRefinesAlways(s: Sys, roots: seq<nat>, a: Mapping, v: u64)
    requires Usable(s, roots) && Refines(s, roots, a)
    ensures Usable(Unmap(s, roots, v), roots) && Refines(Unmap(s, roots, v), roots, a - {KeyOf(v)})
  {
    KeyIsValid(v);
    hide Usable, Unmap, View;
    UnmapViewAlways(s, roots, v, KeyOf(v));
    forall k | ValidKey(k)
      ensures View(Unmap(s, roots, v), roots, k) == if k == KeyOf(v) then 0 else View(s, roots, k)
    {
      UnmapViewAlways(s, roots, v, k);
    }
  }

  lemma MapRefinesAlways(s: Sys, roots: seq<nat>, a: Mapping, v: u64, phys: u64, flags: u64)
    requires Usable(s, roots) && Refines(s, roots, a) && Safe(s, roots, v)
    ensures var s' := Map(s, roots, v, phys, flags);
      Usable(s', roots) && Refines(s', roots, if Serves(s, roots, v) then a[KeyOf(v) := LeafWord(phys, flags)] else a)
  {
    KeyIsValid(v);
    LeafIsTable(phys, flags);
    hide Usable, Map, Safe, Serves;
    var (s', w) := (Map(s, roots, v, phys, flags), LeafWord(phys, flags));
    MapViewAlways(s, roots, v, phys, flags, KeyOf(v));
    forall k | ValidKey(k)
      ensures View(s', roots, k) == if Serves(s, roots, v) && k == KeyOf(v) then w else View(s, roots, k)
    {
      MapViewAlways(s, roots, v, phys, flags, k);
    }
    if Serves(s, roots, v) { UpdateRefines(s, s', roots, a, KeyOf(v), w); }
  }

  /** Over every run whose maps are of safe pages, however many of them lack frames or meet a dead
      link, the table heap is the finite map in which those do nothing. */
  lemma {:induction false} EveryRunRefinesAlways(s: Sys, roots: seq<nat>, a: Mapping, ops: seq<Op>)
    requires Usable(s, roots) && Refines(s, roots, a) && StaysSafe(s, roots, ops)
    ensures var spec := PartialSpecSteps(SpecStep, a, ops, Served(s, roots, ops));
      && Usable(Steps(s, roots, ops).0, roots) && Refines(Steps(s, roots, ops).0, roots, spec.0)
      && Steps(s, roots, ops).1 == spec.1
    decreases |ops|
  {
    if ops == [] {
    } else {
      hide Usable, Refines, Step, IsServed, IsSafe;
      StepRefinesAlways(s, roots, a, ops[0]);
      var served := Served(s, roots, ops);
      var a1 := if served[0] then SpecStep(a, ops[0]).0 else a;
      EveryRunRefinesAlways(Step(s, roots, ops[0]).0, roots, a1, ops[1..]);
    }
  }

  /** A run that finds all its frames maps only safe pages. */
  lemma {:induction false} FramesMeanSafe(s: Sys, roots: seq<nat>, ops: seq<Op>)
    requires Inv(s, roots) && FramesSuffice(s, roots, ops)
    ensures StaysSafe(s, roots, ops)
    decreases |ops|
  {
    if ops == [] {
    } else {
      if ops[0].MapOp? {
        InvIsAlive(s, roots, ops[0].v);
        AliveIsSafe(s, roots, ops[0].v);
      }
      StepKeepsInv(s, roots, ops[0]);
      hide Inv, Step, Safe, Alive, CanMap;
      FramesMeanSafe(Step(s, roots, ops[0]).0, roots, ops[1..]);
    }
  }
}
