/** The frame allocator and the page tables running together: any mix of page-table operations,
    frame allocations, frees, and stores by whoever holds an allocation. */
module Kernel {
  import opened Bits
  import opened Descriptors
  import opened Pool
  import A = Allocations
  import opened Tables
  import opened Trees
  import opened Exhaustion
  import opened PageMap
  import opened DeadLinks
  import Translations

  datatype State = State(sys: Sys, live: seq<A.Run>)

  /** `Store` writes a word into frame `frame` of the `which`-th live allocation. */
  datatype Op = Page(op: PageMap.Op) | Alloc(frames: nat) | Free(which: nat)
              | Store(which: nat, frame: nat, index: nat, word: u64)

  predicate MayStore(k: State, which: nat, frame: nat, index: nat)
  {
    which < |k.live| && A.Covers(k.live[which], frame) && index < 512
  }

  ghost function Step(k: State, roots: seq<nat>, op: Op): (r: (State, nat))
    requires Sized(k.sys) && |roots| == 2
    ensures Sized(r.0.sys)
  {
    match op
    case Page(p) => var (s, out) := PageMap.Step(k.sys, roots, p); (State(s, k.live), out)
    case Alloc(n) =>
      var t := A.Step(A.State(k.sys.pool, k.live), A.Alloc(n));
      (State(k.sys.(pool := t.pool), t.live), 0)
    case Free(i) =>
      var t := A.Step(A.State(k.sys.pool, k.live), A.Free(i));
      (State(k.sys.(pool := t.pool), t.live), 0)
    case Store(i, f, j, w) =>
      (if MayStore(k, i, f, j) then State(k.sys.(mem := Put(k.sys.mem, f, j, w)), k.live) else k, 0)
  }

  ghost function Steps(k: State, roots: seq<nat>, ops: seq<Op>): (State, seq<nat>)
    requires Sized(k.sys) && |roots| == 2
    decreases |ops|
  {
    if ops == [] then (k, [])
    else
      var (k1, out) := Step(k, roots, ops[0]);
      var (k2, outs) := Steps(k1, roots, ops[1..]);
      (k2, [out] + outs)
  }

  /** The specification ignores everything but the page-table operations. */
  function SpecStep(a: Mapping, op: Op): (Mapping, nat)
  {
    if op.Page? then PageMap.SpecStep(a, op.op) else (a, 0)
  }

  function SpecSteps(a: Mapping, ops: seq<Op>): (Mapping, seq<nat>)
    decreases |ops|
  {
    if ops == [] then (a, [])
    else
      var (a1, out) := SpecStep(a, ops[0]);
      var (a2, outs) := SpecSteps(a1, ops[1..]);
      (a2, [out] + outs)
  }

  // ----- the invariant -----

  /** The trees are well formed, and every managed frame is a table, free, or held by exactly one
      allocation. */
  ghost predicate Good(k: State, roots: seq<nat>, managed: set<nat>)
  {
    && Inv(k.sys, roots)
    && A.Accounted(A.State(k.sys.pool, k.live), managed - k.sys.own.Keys)
    && (forall f :: f in managed ==> 512 * f + 512 <= |k.sys.mem|)
    && (forall f :: f in k.sys.own ==> f in managed || f in roots)
  }

  /** No allocation touches a table. */
  lemma HeldIsNoTable(k: State, roots: seq<nat>, managed: set<nat>, i: nat, f: nat)
    requires Good(k, roots, managed) && i < |k.live| && A.Covers(k.live[i], f)
    ensures f in managed && f !in k.sys.own && f !in FreeSet(k.sys.pool)
  {
    var t := A.State(k.sys.pool, k.live);
    assert A.Held(t, managed - k.sys.own.Keys) && t.live[i] == k.live[i];
    assert f in managed - k.sys.own.Keys;
  }

  // ----- what an allocator step does to the tables: nothing -----

  /** `s'` differs from `s` only in words outside the tables and in which frames are free. */
  ghost predicate TablesAlike(s: Sys, s': Sys)
  {
    && |s'.mem| == |s.mem| && s'.own == s.own
    && forall g, j: nat :: g in s.own && j < 512 ==> Read(s'.mem, g, j) == Read(s.mem, g, j)
  }

  lemma AlikeKeepsInv(s: Sys, s': Sys, roots: seq<nat>)
    requires Inv(s, roots) && TablesAlike(s, s') && Sized(s') && FreeOk(s')
    requires forall f :: f in s.own ==> f !in FreeSet(s'.pool)
    ensures Inv(s', roots)
  {
    forall g, j: nat | g in s'.own && |s'.own[g].path| < 3 && j < 512 ensures EntryOk(s', g, j) {
      assert EntryOk(s, g, j);
    }
    forall g | g in s'.own && s'.own[g].path != [] ensures exists p :: Parent(s', p, g) {
      var p :| Parent(s, p, g);
      assert Parent(s', p, g);
    }
  }

  lemma AlikeKeepsView(s: Sys, s': Sys, roots: seq<nat>, a: Mapping)
    requires Inv(s, roots) && TablesAlike(s, s') && Refines(s, roots, a)
    ensures Refines(s', roots, a)
  {
    UndisturbedView(s, s'.mem, roots);
    forall k | ValidKey(k) ensures View(s', roots, k) == View(s, roots, k) {
      assert roots[k.root] in s.own;
    }
  }

  /** After a step of the allocator. */
  lemma PoolStepGood(k: State, k': State, roots: seq<nat>, managed: set<nat>)
    requires Good(k, roots, managed)
    requires k'.sys == k.sys.(pool := k'.sys.pool) && k'.sys.pool.limit == k.sys.pool.limit
    requires A.Accounted(A.State(k'.sys.pool, k'.live), managed - k.sys.own.Keys)
    ensures Good(k', roots, managed) && TablesAlike(k.sys, k'.sys)
  {
    var t := A.State(k'.sys.pool, k'.live);
    A.AccountedIsSound(t, managed - k.sys.own.Keys);
    forall b | b in FreeSet(k'.sys.pool) ensures b in managed && b !in k.sys.own {}
    AlikeKeepsInv(k.sys, k'.sys, roots);
  }

  lemma StoreGood(k: State, roots: seq<nat>, managed: set<nat>, i: nat, f: nat, j: nat, w: u64)
    requires Good(k, roots, managed) && MayStore(k, i, f, j)
    ensures Good(Step(k, roots, Store(i, f, j, w)).0, roots, managed)
    ensures TablesAlike(k.sys, Step(k, roots, Store(i, f, j, w)).0.sys)
  {
    HeldIsNoTable(k, roots, managed, i, f);
    var s' := Step(k, roots, Store(i, f, j, w)).0.sys;
    forall g, h: nat | g in k.sys.own && h < 512 ensures Read(s'.mem, g, h) == Read(k.sys.mem, g, h) {
      ReadPut(k.sys.mem, f, j, w, g, h);
    }
    AlikeKeepsInv(k.sys, s', roots);
  }

  // ----- what a page-table step does to the allocations: nothing -----

  /** The frames that became tables are exactly the ones newly marked used. */
  ghost predicate PoolTakes(s: Sys, s': Sys)
  {
    && s'.pool.hint == s.pool.hint && s'.pool.limit == s.pool.limit && |s'.pool.bits| == |s.pool.bits|
    && |s'.mem| == |s.mem| && Extends(s.own, s'.own)
    && (forall f :: f in s'.own && f !in s.own ==> f < |s.pool.bits| && !s.pool.bits[f])
    && (forall b :: 0 <= b < |s.pool.bits| ==> (s'.pool.bits[b] <==> s.pool.bits[b] || (b in s'.own && b !in s.own)))
  }

  lemma GrowTakes(s: Sys, f: nat, i: nat, roots: seq<nat>)
    requires Inv(s, roots) && f in s.own && |s.own[f].path| < 3 && i < 512
    requires Next(s.mem, f, i) != 0 || FreeSet(s.pool) != {}
    ensures PoolTakes(s, Grow(s, f, i).0)
  {
    GrowOk(s, f, i, roots);
    var (s', n) := Grow(s, f, i);
    if Next(s.mem, f, i) == 0 {
      assert EntryOk(s, f, i);
      EntryFacts(s, f, i);
      GrowCommits(s, f, i);
      GrownTakes(s, f, i, n, s');
    }
  }

  lemma GrowCommits(s: Sys, f: nat, i: nat)
    requires Sized(s) && Read(s.mem, f, i) == 0 && Grow(s, f, i).1 != 0
    ensures Grow(s, f, i).0.pool == Commit(s.pool, Grow(s, f, i).1, 1)
  {}

  lemma GrownTakes(s: Sys, f: nat, i: nat, n: nat, s': Sys)
    requires Sized(s) && Sized(s') && f in s.own && Grown(s, f, i, n, s') && s'.pool == Commit(s.pool, n, 1)
    ensures PoolTakes(s, s')
  {
    hide Read;
  }

  lemma {:induction false} DescendTakes(s: Sys, f: nat, path: seq<nat>, roots: seq<nat>)
    requires Descendable(s, f, path, roots) && Enough(s, f, path)
    ensures PoolTakes(s, Descend(s, f, path).0)
    decreases |path|
  {
    if path == [] {
    } else {
      var (s1, n) := Grow(s, f, path[0]);
      GrowStep(s, f, path, roots);
      GrowTakes(s, f, path[0], roots);
      DescendTakes(s1, n, path[1..], roots);
    }
  }

  lemma PageStepTakes(s: Sys, roots: seq<nat>, op: PageMap.Op)
    requires Inv(s, roots) && (op.MapOp? ==> CanMap(s, roots, op.v))
    ensures PoolTakes(s, PageMap.Step(s, roots, op).0)
  {
    if op.MapOp? {
      KeyIsValid(op.v);
      RootOf(s, roots, TtbrIndex(op.v), TablePath(op.v));
      DescendTakes(s, roots[TtbrIndex(op.v)], TablePath(op.v), roots);
    }
  }

  lemma TakingKeepsHeld(k: State, s': Sys, managed: set<nat>)
    requires A.Held(A.State(k.sys.pool, k.live), managed - k.sys.own.Keys) && PoolTakes(k.sys, s')
    ensures A.Held(A.State(s'.pool, k.live), managed - s'.own.Keys)
  {
    var (t, t') := (A.State(k.sys.pool, k.live), A.State(s'.pool, k.live));
    forall i, f: nat | 0 <= i < |t'.live| && A.Covers(t'.live[i], f)
      ensures f in managed - s'.own.Keys && f < |t'.pool.bits| && t'.pool.bits[f]
    {
      assert A.Covers(t.live[i], f) && f in managed - k.sys.own.Keys;
    }
  }

  lemma TakingKeepsComplete(k: State, s': Sys, managed: set<nat>)
    requires A.Complete(A.State(k.sys.pool, k.live), managed - k.sys.own.Keys) && PoolTakes(k.sys, s')
    ensures A.Complete(A.State(s'.pool, k.live), managed - s'.own.Keys)
  {
    var (t, t') := (A.State(k.sys.pool, k.live), A.State(s'.pool, k.live));
    var (m, m') := (managed - k.sys.own.Keys, managed - s'.own.Keys);
    forall f | f in m' && f < |t'.pool.bits| && t'.pool.bits[f]
      ensures exists i :: 0 <= i < |t'.live| && A.Covers(t'.live[i], f)
    {
      assert f in m && t.pool.bits[f];
      var i :| 0 <= i < |t.live| && A.Covers(t.live[i], f);
      assert A.Covers(t'.live[i], f);
    }
    forall f: nat | f < |t'.pool.bits| && !t'.pool.bits[f] ensures f in m' {
      assert !t.pool.bits[f] && f in m;
    }
  }

  lemma TakingKeepsAccount(k: State, s': Sys, managed: set<nat>)
    requires A.Accounted(A.State(k.sys.pool, k.live), managed - k.sys.own.Keys)
    requires PoolTakes(k.sys, s')
    ensures A.Accounted(A.State(s'.pool, k.live), managed - s'.own.Keys)
  {
    TakingKeepsHeld(k, s', managed);
    TakingKeepsComplete(k, s', managed);
    hide A.Held, A.Complete, A.Disjoint;
    forall f | f in managed - s'.own.Keys ensures 0 < f && s'.pool.hint <= f < |s'.pool.bits| {
      assert f in managed - k.sys.own.Keys;
    }
  }

  lemma PageStepGood(k: State, roots: seq<nat>, managed: set<nat>, op: PageMap.Op)
    requires Good(k, roots, managed) && (op.MapOp? ==> CanMap(k.sys, roots, op.v))
    ensures Good(Step(k, roots, Page(op)).0, roots, managed)
  {
    StepKeepsInv(k.sys, roots, op);
    PageStepTakes(k.sys, roots, op);
    hide Inv, A.Accounted;
    TakingKeepsAccount(k, PageMap.Step(k.sys, roots, op).0, managed);
  }

  // ----- runs -----

  /** A step that is no map, or a map that finds the frames it needs. */
  ghost predicate FindsFrames(k: State, roots: seq<nat>, op: Op)
    requires Sized(k.sys) && |roots| == 2
  {
    op.Page? && op.op.MapOp? ==> CanMap(k.sys, roots, op.op.v)
  }

  /** Every `map` of the run finds the frames it needs when its turn comes. */
  ghost predicate FramesSuffice(k: State, roots: seq<nat>, ops: seq<Op>)
    requires Sized(k.sys) && |roots| == 2
    decreases |ops|
  {
    ops == [] || (FindsFrames(k, roots, ops[0]) && FramesSuffice(Step(k, roots, ops[0]).0, roots, ops[1..]))
  }

  lemma StepKeepsGood(k: State, roots: seq<nat>, managed: set<nat>, op: Op)
    requires Good(k, roots, managed) && FindsFrames(k, roots, op)
    ensures Good(Step(k, roots, op).0, roots, managed)
    ensures !op.Page? ==> TablesAlike(k.sys, Step(k, roots, op).0.sys)
  {
    var t := A.State(k.sys.pool, k.live);
    var k' := Step(k, roots, op).0;
    match op
    case Page(p) =>
      PageStepGood(k, roots, managed, p);
    case Alloc(n) =>
      A.AllocStep(t, n, managed - k.sys.own.Keys);
      PoolStepGood(k, k', roots, managed);
    case Free(i) =>
      if i < |k.live| { A.FreeStep(t, i, managed - k.sys.own.Keys); }
      PoolStepGood(k, k', roots, managed);
    case Store(i, f, j, w) =>
      if MayStore(k, i, f, j) { StoreGood(k, roots, managed, i, f, j, w); }
  }

  lemma StepGood(k: State, roots: seq<nat>, managed: set<nat>, a: Mapping, op: Op)
    requires Good(k, roots, managed) && Refines(k.sys, roots, a)
    requires FindsFrames(k, roots, op)
    ensures Good(Step(k, roots, op).0, roots, managed)
    ensures Refines(Step(k, roots, op).0.sys, roots, SpecStep(a, op).0)
    ensures Step(k, roots, op).1 == SpecStep(a, op).1
  {
    StepKeepsGood(k, roots, managed, op);
    hide Refines, Inv, TablesAlike;
    if op.Page? {
      StepRefines(k.sys, roots, a, op.op);
    } else {
      AlikeKeepsView(k.sys, Step(k, roots, op).0.sys, roots, a);
    }
  }

  /** Over every interleaving of page-table operations, allocations, frees and stores by holders:
      the translations are those of the finite map alone, allocations never overlap each other or
      a table, and no managed frame is lost. */
  lemma {:induction false} EveryRunIsGood(k: State, roots: seq<nat>, managed: set<nat>, a: Mapping, ops: seq<Op>)
    requires Good(k, roots, managed) && Refines(k.sys, roots, a) && FramesSuffice(k, roots, ops)
    ensures Good(Steps(k, roots, ops).0, roots, managed)
    ensures Refines(Steps(k, roots, ops).0.sys, roots, SpecSteps(a, ops).0)
    ensures Steps(k, roots, ops).1 == SpecSteps(a, ops).1
    decreases |ops|
  {
    hide Refines;
    if ops == [] {
    } else {
      StepGood(k, roots, managed, a, ops[0]);
      EveryRunIsGood(Step(k, roots, ops[0]).0, roots, managed, SpecStep(a, ops[0]).0, ops[1..]);
    }
  }

  // ----- runs in which frames run out -----

  /** `Good`, but for dead links that failed maps have left in absent entries. */
  ghost predicate GoodBeneath(k: State, roots: seq<nat>, managed: set<nat>)
    ensures GoodBeneath(k, roots, managed) ==> Sized(k.sys) && |roots| == 2
  {
    exists b :: Good(State(b, k.live), roots, managed) && Shadows(b, k.sys)
  }

  lemma GoodIsBeneath(k: State, roots: seq<nat>, managed: set<nat>)
    requires Good(k, roots, managed)
    ensures GoodBeneath(k, roots, managed)
  {
    assert Good(State(k.sys, k.live), roots, managed) && Shadows(k.sys, k.sys);
  }

  /** No allocation touches a table. */
  lemma HoldersAvoidTables(k: State, roots: seq<nat>, managed: set<nat>, i: nat, f: nat)
    requires GoodBeneath(k, roots, managed) && i < |k.live| && A.Covers(k.live[i], f)
    ensures f in managed && f !in k.sys.own && f !in FreeSet(k.sys.pool)
  {
    var b :| Good(State(b, k.live), roots, managed) && Shadows(b, k.sys);
    HeldIsNoTable(State(b, k.live), roots, managed, i, f);
  }

  lemma {:induction false} SettleTakes(s: Sys, f: nat, path: seq<nat>, roots: seq<nat>)
    requires Descendable(s, f, path, roots)
    ensures PoolTakes(s, Settle(s, f, path))
    decreases |path|
  {
    if path == [] || (Next(s.mem, f, path[0]) == 0 && FreeSet(s.pool) == {}) {
    } else {
      var (s1, n) := Grow(s, f, path[0]);
      GrowOk(s, f, path[0], roots);
      AppendPath(s.own[f].path, path);
      GrowTakes(s, f, path[0], roots);
      SettleTakes(s1, n, path[1..], roots);
      hide Inv, SameView, Grow, Settle;
      TakesTrans(s, s1, Settle(s1, n, path[1..]));
    }
  }

  lemma TakesTrans(s: Sys, s1: Sys, s2: Sys)
    requires PoolTakes(s, s1) && PoolTakes(s1, s2)
    ensures PoolTakes(s, s2)
  {}

  /** What is beneath stays good over a map, whether it finds its frames or not. */
  lemma MapBaseGood(k: State, roots: seq<nat>, managed: set<nat>, v: u64, phys: u64, flags: u64)
    requires Good(k, roots, managed)
    ensures Good(State(MapBase(k.sys, roots, v, phys, flags), k.live), roots, managed)
  {
    if CanMap(k.sys, roots, v) {
      PageStepGood(k, roots, managed, MapOp(v, phys, flags));
    } else {
      KeyIsValid(v);
      var (f, path) := (roots[TtbrIndex(v)], TablePath(v));
      RootOf(k.sys, roots, TtbrIndex(v), path);
      SettleOk(k.sys, f, path, roots);
      SettleTakes(k.sys, f, path, roots);
      hide Inv, A.Accounted, Settle;
      TakingKeepsAccount(k, Settle(k.sys, f, path), managed);
    }
  }

  lemma ShadowRefines(b: Sys, t: Sys, roots: seq<nat>, a: Mapping)
    requires Inv(b, roots) && Shadows(b, t)
    ensures Refines(t, roots, a) <==> Refines(b, roots, a)
  {
    forall k | ValidKey(k) ensures View(t, roots, k) == View(b, roots, k) { ShadowView(b, t, roots, k); }
  }

  /** A step that is no map acts on the state and on what is beneath alike. */
  lemma StepTogether(k: State, b: Sys, roots: seq<nat>, managed: set<nat>, op: Op)
    requires Good(State(b, k.live), roots, managed) && Shadows(b, k.sys) && !(op.Page? && op.op.MapOp?)
    ensures Sized(k.sys)
    ensures var ((k', out), (k1, out1)) := (Step(k, roots, op), Step(State(b, k.live), roots, op));
      k'.live == k1.live && Shadows(k1.sys, k'.sys) && out == out1
  {
    match op
    case Page(UnmapOp(v)) => UnmapShadow(b, k.sys, roots, v);
    case Page(TranslateOp(v)) =>
      ShadowView(b, k.sys, roots, KeyOf(v));
      TranslateIsView(b, roots, v);
      TranslateIsView(k.sys, roots, v);
    case Alloc(n) =>
      PoolTogether(b, k.sys, Step(k, roots, op).0.sys.pool);
    case Free(i) =>
      PoolTogether(b, k.sys, Step(k, roots, op).0.sys.pool);
    case Store(i, f, j, w) =>
      if MayStore(k, i, f, j) { PutTogether(b, k.sys, f, j, w); }
  }

  lemma PoolTogether(b: Sys, t: Sys, pool: Pool)
    requires Shadows(b, t)
    ensures Shadows(b.(pool := pool), t.(pool := pool))
  {
    forall g, j: nat | g in b.own && j < 512 ensures EntryShadows(b.(pool := pool), t.(pool := pool), g, j) {
      assert EntryShadows(b, t, g, j);
    }
  }

  predicate IsSafe(k: State, roots: seq<nat>, op: Op)
    requires |roots| == 2
  {
    op.Page? ==> DeadLinks.IsSafe(k.sys, roots, op.op)
  }

  ghost predicate IsServed(k: State, roots: seq<nat>, op: Op)
    requires Sized(k.sys) && |roots| == 2
  {
    op.Page? ==> DeadLinks.IsServed(k.sys, roots, op.op)
  }

  /** Every `map` of the run is of a safe page when its turn comes. */
  ghost predicate StaysSafe(k: State, roots: seq<nat>, ops: seq<Op>)
    requires Sized(k.sys) && |roots| == 2
    decreases |ops|
  {
    ops == [] || (IsSafe(k, roots, ops[0]) && StaysSafe(Step(k, roots, ops[0]).0, roots, ops[1..]))
  }

  /** Which steps take effect. */
  ghost function Served(k: State, roots: seq<nat>, ops: seq<Op>): (r: seq<bool>)
    requires Sized(k.sys) && |roots| == 2
    ensures |r| == |ops|
    decreases |ops|
  {
    if ops == [] then [] else [IsServed(k, roots, ops[0])] + Served(Step(k, roots, ops[0]).0, roots, ops[1..])
  }

  lemma BeneathGood(k: State, b: Sys, roots: seq<nat>, managed: set<nat>, v: u64, phys: u64, flags: u64)
    requires Good(State(b, k.live), roots, managed)
    ensures Good(State(Beneath(b, k.sys, roots, v, phys, flags), k.live), roots, managed)
  {
    hide Good;
    MapBaseGood(State(b, k.live), roots, managed, v, phys, flags);
  }

  lemma StepGoodAlways(k: State, roots: seq<nat>, managed: set<nat>, a: Mapping, op: Op)
    requires GoodBeneath(k, roots, managed) && Refines(k.sys, roots, a) && IsSafe(k, roots, op)
    ensures var (k', out) := Step(k, roots, op);
      var (a', out') := if IsServed(k, roots, op) then SpecStep(a, op) else (a, 0);
      GoodBeneath(k', roots, managed) && Refines(k'.sys, roots, a') && out == out'
  {
    var b :| Good(State(b, k.live), roots, managed) && Shadows(b, k.sys);
    var k' := Step(k, roots, op).0;
    if op.Page? && op.op.MapOp? {
      var (v, phys, flags) := (op.op.v, op.op.phys, op.op.flags);
      hide Inv, A.Accounted, Shadows, Refines, Map, Safe, Serves, Beneath;
      assert Usable(k.sys, roots);
      MapRefinesAlways(k.sys, roots, a, v, phys, flags);
      MapBeneath(b, k.sys, roots, v, phys, flags);
      BeneathGood(k, b, roots, managed, v, phys, flags);
      assert Shadows(Beneath(b, k.sys, roots, v, phys, flags), k'.sys);
    } else {
      hide Inv, A.Accounted, Shadows, Refines, Step;
      ShadowRefines(b, k.sys, roots, a);
      StepTogether(k, b, roots, managed, op);
      var k1 := Step(State(b, k.live), roots, op).0;
      StepGood(State(b, k.live), roots, managed, a, op);
      ShadowRefines(k1.sys, k'.sys, roots, SpecStep(a, op).0);
      assert State(k1.sys, k'.live) == k1;
    }
  }

  /** Over every such interleaving, however often maps lack frames, as long as only safe pages are
      mapped: translations are those of the finite map, in which maps that are not served do nothing,
      and allocations never overlap each other or a table. */
  lemma {:induction false} EveryRunIsGoodAlways(k: State, roots: seq<nat>, managed: set<nat>, a: Mapping, ops: seq<Op>)
    requires GoodBeneath(k, roots, managed) && Refines(k.sys, roots, a) && StaysSafe(k, roots, ops)
    ensures var spec := PartialSpecSteps(SpecStep, a, ops, Served(k, roots, ops));
      && GoodBeneath(Steps(k, roots, ops).0, roots, managed)
      && Refines(Steps(k, roots, ops).0.sys, roots, spec.0) && Steps(k, roots, ops).1 == spec.1
    decreases |ops|
  {
    if ops == [] {
    } else {
      hide GoodBeneath, Refines, Step, IsServed, IsSafe;
      StepGoodAlways(k, roots, managed, a, ops[0]);
      var served := Served(k, roots, ops);
      var a1 := if served[0] then SpecStep(a, ops[0]).0 else a;
      EveryRunIsGoodAlways(Step(k, roots, ops[0]).0, roots, managed, a1, ops[1..]);
    }
  }

  /** A run that finds its frames maps only safe pages. */
  lemma {:induction false} FramesMeanSafe(k: State, roots: seq<nat>, managed: set<nat>, ops: seq<Op>)
    requires Good(k, roots, managed) && FramesSuffice(k, roots, ops)
    ensures StaysSafe(k, roots, ops)
    decreases |ops|
  {
    if ops == [] {
    } else {
      if ops[0].Page? && ops[0].op.MapOp? {
        InvIsAlive(k.sys, roots, ops[0].op.v);
        AliveIsSafe(k.sys, roots, ops[0].op.v);
      }
      StepKeepsGood(k, roots, managed, ops[0]);
      hide Good, Step, Safe, Alive, CanMap;
      FramesMeanSafe(Step(k, roots, ops[0]).0, roots, managed, ops[1..]);
    }
  }

  // ----- how many frames suffice -----

  /** Three frames for a map, and what an allocation asks for. */
  function Asks(op: Op): nat
  {
    match op
    case Page(p) => if p.MapOp? then 3 else 0
    case Alloc(n) => n
    case _ => 0
  }

  function Demand(ops: seq<Op>): nat
    decreases |ops|
  {
    if ops == [] then 0 else Asks(ops[0]) + Demand(ops[1..])
  }

  function RunSet(b: nat, n: nat): (r: set<nat>)
    ensures |r| == n && forall k :: k in r <==> b <= k < b + n
  {
    if n == 0 then {} else RunSet(b, n - 1) + {b + n - 1}
  }

  /** An allocation takes at most the frames it asks for, and a free takes none. */
  lemma StepTakesAtMost(k: State, roots: seq<nat>, managed: set<nat>, op: Op)
    requires Good(k, roots, managed) && FindsFrames(k, roots, op)
    ensures |FreeSet(Step(k, roots, op).0.sys.pool)| >= |FreeSet(k.sys.pool)| - Asks(op)
  {
    match op
    case Page(p) =>
      if p.MapOp? {
        hide Inv, Map, CanMap;
        Translations.MissingAtMost(k.sys.mem, roots[TtbrIndex(p.v)], TablePath(p.v));
        Translations.ServedAccounts(k.sys, roots, p.v, p.phys, p.flags);
      }
    case Alloc(n) => AllocTakes(k.sys.pool, n);
    case Free(i) => if i < |k.live| { FreeTakesNone(k.sys.pool, k.live[i]); }
    case Store(_, _, _, _) =>
  }

  lemma AllocTakes(p: Pool, n: nat)
    requires p.limit <= |p.bits|
    ensures |FreeSet(Commit(p, Search(p, n), n))| >= |FreeSet(p)| - n
  {
    var b := Search(p, n);
    hide Search;
    assert FreeSet(p) <= FreeSet(Commit(p, b, n)) + RunSet(b, n);
    UnionSize(FreeSet(p), FreeSet(Commit(p, b, n)), RunSet(b, n));
  }

  lemma FreeTakesNone(p: Pool, r: A.Run)
    requires p.limit <= |p.bits|
    ensures |FreeSet(Release(p, r.start, r.frames))| >= |FreeSet(p)|
  {
    assert FreeSet(p) <= FreeSet(Release(p, r.start, r.frames)) + {};
    UnionSize(FreeSet(p), FreeSet(Release(p, r.start, r.frames)), {});
  }

  lemma UnionSize(a: set<nat>, b: set<nat>, c: set<nat>)
    requires a <= b + c
    ensures |a| <= |b| + |c|
  {
    var d := a - b;
    assert a == a * b + d && |a| == |a * b| + |d|;
    Translations.SubsetSize(a * b, b);
    Translations.SubsetSize(d, c);
  }

  /** A run finds its frames whenever its demand is free at the start. */
  lemma {:induction false} DemandSuffices(k: State, roots: seq<nat>, managed: set<nat>, ops: seq<Op>)
    requires Good(k, roots, managed) && Demand(ops) <= |FreeSet(k.sys.pool)|
    ensures FramesSuffice(k, roots, ops)
    decreases |ops|
  {
    if ops == [] {
    } else {
      var op := ops[0];
      if op.Page? && op.op.MapOp? {
        Translations.MissingAtMost(k.sys.mem, roots[TtbrIndex(op.op.v)], TablePath(op.op.v));
      }
      hide Good, Step;
      StepKeepsGood(k, roots, managed, op);
      StepTakesAtMost(k, roots, managed, op);
      DemandSuffices(Step(k, roots, op).0, roots, managed, ops[1..]);
    }
  }

  function Clear(bits: seq<bool>): set<nat>
  {
    set b: nat | b < |bits| && !bits[b]
  }

  /** Two distinct zeroed root tables in memory, outside the frames the allocator manages, which are
      memory themselves. */
  ghost predicate BootReady(mem: seq<u64>, pool: Pool, r0: nat, r1: nat)
  {
    && Sound(pool) && pool.limit <= FRAMES
    && (forall b :: b in Clear(pool.bits) ==> 512 * b + 512 <= |mem|)
    && 0 < r0 < FRAMES && 0 < r1 < FRAMES && r0 != r1 && r0 !in Clear(pool.bits) && r1 !in Clear(pool.bits)
    && 512 * r0 + 512 <= |mem| && 512 * r1 + 512 <= |mem|
    && (forall i: nat :: i < 512 ==> Read(mem, r0, i) == 0 && Read(mem, r1, i) == 0)
  }

  /** The state after boot, with nothing allocated. */
  function BootState(mem: seq<u64>, pool: Pool, r0: nat, r1: nat): State
  {
    State(Sys(mem, pool, map[r0 := Node(0, []), r1 := Node(1, [])]), [])
  }

  lemma BootIsGood(mem: seq<u64>, pool: Pool, r0: nat, r1: nat)
    requires BootReady(mem, pool, r0, r1)
    ensures Good(BootState(mem, pool, r0, r1), [r0, r1], Clear(pool.bits))
    ensures Refines(BootState(mem, pool, r0, r1).sys, [r0, r1], map[])
  {
    assert forall b :: b in FreeSet(pool) ==> b in Clear(pool.bits);
    Translations.ZeroedRoots(mem, pool, r0, r1);
    hide Inv;
  }
}
