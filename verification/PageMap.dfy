/** `aarch64_map_page`, `aarch64_unmap_page` and `aarch64_translate_vaddr` as functions, and the
    finite map from page keys to descriptors that they implement. */
module PageMap {
  import opened Bits
  import opened Descriptors
  import opened Tables
  import Trees
  import opened TreeShape

  function LeafWord(phys: u64, flags: u64): u64
  {
    LeafIsTable(phys, flags);
    Leaf(phys, flags)
  }

  lemma LeafIsNotLink(phys: u64, flags: u64, x: nat)
    ensures LeafWord(phys, flags) != Link(x)
  {
    hide Bit, Leaf;
    LeafBits(phys, flags, 10);
    LinkBit(x, Link(x), 10);
  }

  lemma LinkBit(x: nat, w: nat, k: nat)
    requires w == 4096 * x + 3 && k == 10
    ensures !Bit(w, k)
  {
    hide Shr, Shl, Low, Bit;
    ShrBit(w, 9, k - 9);
    ShiftBy9(w);
    LinkShifted(x, w);
    EvenBit(4 * x, k - 9);
  }

  lemma LinkShifted(x: nat, w: nat)
    requires w == 4096 * x + 3
    ensures w / 0x200 == 2 * (4 * x)
  {}

  lemma EvenBit(x: nat, k: nat)
    requires x % 2 == 0 && k == 1
    ensures !Bit(2 * x, k)
  {
    assert Bit(2 * x, k) == Bit(x, k - 1);
  }

  /** The three indices that lead to the last table, and the index in it. */
  function TablePath(v: nat): (p: seq<nat>)
    ensures |p| == 3
  {
    Indices(v)[..3]
  }

  function LeafIndex(v: nat): nat
  {
    Indices(v)[3]
  }

  ghost function Map(s: Sys, roots: seq<nat>, v: u64, phys: u64, flags: u64): (s': Sys)
    requires Sized(s) && |roots| == 2
    ensures Sized(s')
  {
    var (s1, l3) := Descend(s, roots[TtbrIndex(v)], TablePath(v));
    PutLeaf(s1, l3, LeafIndex(v), LeafWord(phys, flags))
  }

  ghost function Unmap(s: Sys, roots: seq<nat>, v: u64): (s': Sys)
    requires |roots| == 2
    ensures Sized(s) ==> Sized(s')
  {
    var l3 := Walk(s.mem, roots[TtbrIndex(v)], TablePath(v));
    if l3 == 0 then s else PutLeaf(s, l3, LeafIndex(v), 0)
  }

  function Translate(s: Sys, roots: seq<nat>, v: u64): nat
    requires |roots| == 2
  {
    var l3 := Walk(s.mem, roots[TtbrIndex(v)], TablePath(v));
    if l3 == 0 then 0 else And(Read(s.mem, l3, LeafIndex(v)), PTE_ADDR_MASK)
  }

  /** Enough frames are free for the tables `v` lacks. */
  ghost predicate CanMap(s: Sys, roots: seq<nat>, v: u64)
    requires Sized(s) && |roots| == 2
  {
    Trees.Enough(s, roots[TtbrIndex(v)], TablePath(v))
  }

  // ----- the view: one word per page key -----

  ghost predicate ValidKey(k: Key)
  {
    k.root < 2 && |k.path| == 4 && ValidPath(k.path)
  }

  /** The descriptor stored for a key, 0 when there is none. */
  function View(s: Sys, roots: seq<nat>, k: Key): u64
    requires |roots| == 2 && k.root < 2 && |k.path| == 4
  {
    Lookup(s.mem, roots[k.root], k.path)
  }

  lemma KeyIsValid(v: u64)
    ensures ValidKey(KeyOf(v)) && ValidPath(TablePath(v)) && LeafIndex(v) < 512
    ensures KeyOf(v).path == TablePath(v) + [LeafIndex(v)]
  {
    IndicesAre(v);
  }

  /** Translation reads nothing but the view. */
  lemma TranslateIsView(s: Sys, roots: seq<nat>, v: u64)
    requires |roots| == 2 && roots[0] != 0 && roots[1] != 0
    ensures Translate(s, roots, v) == And(View(s, roots, KeyOf(v)), PTE_ADDR_MASK)
  {
    KeyIsValid(v);
    LookupIsWalk(s.mem, roots[TtbrIndex(v)], TablePath(v), LeafIndex(v));
  }

  lemma RootOf(s: Sys, roots: seq<nat>, r: nat, path: seq<nat>)
    requires Inv(s, roots) && r < 2 && |path| == 3 && ValidPath(path)
    ensures roots[r] != 0 && roots[r] in s.own && s.own[roots[r]] == Node(r, [])
    ensures Trees.Descendable(s, roots[r], path, roots) && [] + path == path
  {}

  /** `map` with enough frames keeps both trees well formed. */
  lemma MapKeepsInv(s: Sys, roots: seq<nat>, v: u64, phys: u64, flags: u64)
    requires Inv(s, roots) && CanMap(s, roots, v)
    ensures Inv(Map(s, roots, v, phys, flags), roots)
  {
    KeyIsValid(v);
    var f := roots[TtbrIndex(v)];
    RootOf(s, roots, TtbrIndex(v), TablePath(v));
    Trees.DescendOk(s, f, TablePath(v), roots);
    var (s1, l3) := Descend(s, f, TablePath(v));
    PutLeafKeepsInv(s1, l3, LeafIndex(v), LeafWord(phys, flags), roots);
  }

  /** It changes the view at `v`'s key only, to the new leaf. */
  lemma MapView(s: Sys, roots: seq<nat>, v: u64, phys: u64, flags: u64, k: Key)
    requires Inv(s, roots) && CanMap(s, roots, v) && ValidKey(k)
    ensures View(Map(s, roots, v, phys, flags), roots, k) ==
            if k == KeyOf(v) then LeafWord(phys, flags) else View(s, roots, k)
  {
    KeyIsValid(v);
    var f := roots[TtbrIndex(v)];
    RootOf(s, roots, TtbrIndex(v), TablePath(v));
    Trees.DescendOk(s, f, TablePath(v), roots);
    var (s1, l3) := Descend(s, f, TablePath(v));
    SplitKey(k, TtbrIndex(v), TablePath(v), LeafIndex(v));
    PutLeafLookup(s1, l3, LeafIndex(v), LeafWord(phys, flags), roots, k.root, k.path[..3], k.path[3]);
    RootOf(s, roots, k.root, k.path[..3]);
  }

  lemma SplitKey(k: Key, r: nat, path: seq<nat>, i: nat)
    requires ValidKey(k) && |path| == 3
    ensures k.path == k.path[..3] + [k.path[3]]
    ensures k == Key(r, path + [i]) <==> Node(k.root, k.path[..3]) == Node(r, path) && k.path[3] == i
  {}

  lemma UnmapKeepsInv(s: Sys, roots: seq<nat>, v: u64)
    requires Inv(s, roots)
    ensures Inv(Unmap(s, roots, v), roots)
  {
    KeyIsValid(v);
    var f := roots[TtbrIndex(v)];
    RootOf(s, roots, TtbrIndex(v), TablePath(v));
    var l3 := Walk(s.mem, f, TablePath(v));
    if l3 != 0 {
      WalkIsOwned(s, roots, f, TablePath(v));
      PutLeafKeepsInv(s, l3, LeafIndex(v), 0, roots);
    }
  }

  /** `unmap` clears the view at `v`'s key only. */
  lemma UnmapView(s: Sys, roots: seq<nat>, v: u64, k: Key)
    requires Inv(s, roots) && ValidKey(k)
    ensures View(Unmap(s, roots, v), roots, k) == if k == KeyOf(v) then 0 else View(s, roots, k)
  {
    KeyIsValid(v);
    var f := roots[TtbrIndex(v)];
    RootOf(s, roots, TtbrIndex(v), TablePath(v));
    var l3 := Walk(s.mem, f, TablePath(v));
    LookupIsWalk(s.mem, f, TablePath(v), LeafIndex(v));
    if l3 != 0 {
      WalkIsOwned(s, roots, f, TablePath(v));
      SplitKey(k, TtbrIndex(v), TablePath(v), LeafIndex(v));
      PutLeafLookup(s, l3, LeafIndex(v), 0, roots, k.root, k.path[..3], k.path[3]);
    }
  }

  // ----- runs -----

  datatype Op = MapOp(v: u64, phys: u64, flags: u64) | UnmapOp(v: u64) | TranslateOp(v: u64)

  ghost function Step(s: Sys, roots: seq<nat>, op: Op): (r: (Sys, nat))
    requires Sized(s) && |roots| == 2
    ensures Sized(r.0)
  {
    match op
    case MapOp(v, phys, flags) => (Map(s, roots, v, phys, flags), 0)
    case UnmapOp(v) => (Unmap(s, roots, v), 0)
    case TranslateOp(v) => (s, Translate(s, roots, v))
  }

  ghost function Steps(s: Sys, roots: seq<nat>, ops: seq<Op>): (Sys, seq<nat>)
    requires Sized(s) && |roots| == 2
    decreases |ops|
  {
    if ops == [] then (s, [])
    else
      var (s1, out) := Step(s, roots, ops[0]);
      var (s2, outs) := Steps(s1, roots, ops[1..]);
      (s2, [out] + outs)
  }

  /** The specification: a finite map from page keys to descriptors. */
  type Mapping = map<Key, u64>

  function SpecStep(a: Mapping, op: Op): (Mapping, nat)
  {
    match op
    case MapOp(v, phys, flags) => (a[KeyOf(v) := LeafWord(phys, flags)], 0)
    case UnmapOp(v) => (a - {KeyOf(v)}, 0)
    case TranslateOp(v) => (a, if KeyOf(v) in a then And(a[KeyOf(v)], PTE_ADDR_MASK) else 0)
  }

  function SpecSteps(a: Mapping, ops: seq<Op>): (Mapping, seq<nat>)
    decreases |ops|
  {
    if ops == [] then (a, [])
    else
      var (a1, out) := SpecStep(a, ops[0]);
      var (a2, outs) := SpecSteps(a1, ops[1..]);
      (a2, [out] + outs)
  }

  /** The specification when steps may fail: one that is not served changes nothing and answers 0. */
  function PartialSpecSteps<T>(step: (Mapping, T) -> (Mapping, nat), a: Mapping, ops: seq<T>, served: seq<bool>)
      : (Mapping, seq<nat>)
    requires |served| == |ops|
    decreases |ops|
  {
    if ops == [] then (a, [])
    else
      var (a1, out) := if served[0] then step(a, ops[0]) else (a, 0);
      var (a2, outs) := PartialSpecSteps(step, a1, ops[1..], served[1..]);
      (a2, [out] + outs)
  }

  /** The heap represents the mapping. */
  ghost predicate Refines(s: Sys, roots: seq<nat>, a: Mapping)
    requires |roots| == 2
  {
    && (forall k :: k in a ==> ValidKey(k) && a[k] != 0)
    && (forall k :: ValidKey(k) ==> View(s, roots, k) == if k in a then a[k] else 0)
  }

  lemma StepKeepsInv(s: Sys, roots: seq<nat>, op: Op)
    requires Inv(s, roots) && (op.MapOp? ==> CanMap(s, roots, op.v))
    ensures Inv(Step(s, roots, op).0, roots)
  {
    match op
    case MapOp(v, phys, flags) => MapKeepsInv(s, roots, v, phys, flags);
    case UnmapOp(v) => UnmapKeepsInv(s, roots, v);
    case TranslateOp(v) =>
  }

  lemma StepRefines(s: Sys, roots: seq<nat>, a: Mapping, op: Op)
    requires Inv(s, roots) && Refines(s, roots, a)
    requires op.MapOp? ==> CanMap(s, roots, op.v)
    ensures Refines(Step(s, roots, op).0, roots, SpecStep(a, op).0)
    ensures Step(s, roots, op).1 == SpecStep(a, op).1
  {
    KeyIsValid(op.v);
    match op
    case MapOp(v, phys, flags) => MapRefines(s, roots, a, v, phys, flags);
    case UnmapOp(v) => UnmapRefines(s, roots, a, v);
    case TranslateOp(v) => TranslateIsView(s, roots, v);
  }

  lemma MapRefines(s: Sys, roots: seq<nat>, a: Mapping, v: u64, phys: u64, flags: u64)
    requires Inv(s, roots) && Refines(s, roots, a) && CanMap(s, roots, v)
    ensures Refines(Map(s, roots, v, phys, flags), roots, a[KeyOf(v) := LeafWord(phys, flags)])
  {
    KeyIsValid(v);
    LeafIsTable(phys, flags);
    var (s', w) := (Map(s, roots, v, phys, flags), LeafWord(phys, flags));
    forall k | ValidKey(k) ensures View(s', roots, k) == if k == KeyOf(v) then w else View(s, roots, k) {
      MapView(s, roots, v, phys, flags, k);
    }
    UpdateRefines(s, s', roots, a, KeyOf(v), w);
  }

  lemma UpdateRefines(s: Sys, s': Sys, roots: seq<nat>, a: Mapping, k: Key, w: u64)
    requires |roots| == 2 && Refines(s, roots, a) && ValidKey(k) && w != 0
    requires forall j :: ValidKey(j) ==> View(s', roots, j) == if j == k then w else View(s, roots, j)
    ensures Refines(s', roots, a[k := w])
  {}

  lemma UnmapRefines(s: Sys, roots: seq<nat>, a: Mapping, v: u64)
    requires Inv(s, roots) && Refines(s, roots, a)
    ensures Refines(Unmap(s, roots, v), roots, a - {KeyOf(v)})
  {
    forall k | ValidKey(k)
      ensures View(Unmap(s, roots, v), roots, k) == if k == KeyOf(v) then 0 else View(s, roots, k)
    {
      UnmapView(s, roots, v, k);
    }
  }

  /** Every `map` of the run finds the frames it needs. */
  ghost predicate FramesSuffice(s: Sys, roots: seq<nat>, ops: seq<Op>)
    requires Sized(s) && |roots| == 2
    decreases |ops|
  {
    ops == [] ||
    ((ops[0].MapOp? ==> CanMap(s, roots, ops[0].v)) && FramesSuffice(Step(s, roots, ops[0]).0, roots, ops[1..]))
  }

  /** Over every run that finds its frames, the table heap is the finite map: the outputs agree,
      the trees stay well formed, and the final heap represents the final map. */
  lemma {:induction false} EveryRunRefines(s: Sys, roots: seq<nat>, a: Mapping, ops: seq<Op>)
    requires Inv(s, roots) && Refines(s, roots, a) && FramesSuffice(s, roots, ops)
    ensures Inv(Steps(s, roots, ops).0, roots)
    ensures Refines(Steps(s, roots, ops).0, roots, SpecSteps(a, ops).0)
    ensures Steps(s, roots, ops).1 == SpecSteps(a, ops).1
    decreases |ops|
  {
    if ops == [] {
    } else {
      StepKeepsInv(s, roots, ops[0]);
      StepRefines(s, roots, a, ops[0]);
      EveryRunRefines(Step(s, roots, ops[0]).0, roots, SpecStep(a, ops[0]).0, ops[1..]);
    }
  }
}
