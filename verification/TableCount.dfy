/** How many tables a run builds, read off the tables it starts from. */
module TableCount {
  import opened Bits
  import opened Descriptors
  import opened Tables
  import opened Trees
  import opened TreeShape
  import opened PageMap
  import Translations

  /** The places of the three tables on the path of `v`. */
  function Places(v: u64): set<Node>
  {
    set k: nat | 1 <= k <= 3 :: Node(TtbrIndex(v), TablePath(v)[..k])
  }

  /** The places of all tables on the paths of the pages a run maps. */
  function AllPlaces(ops: seq<Op>): set<Node>
    decreases |ops|
  {
    if ops == [] then {} else (if ops[0].MapOp? then Places(ops[0].v) else {}) + AllPlaces(ops[1..])
  }

  /** No table is reached there. */
  predicate Absent(s: Sys, roots: seq<nat>, n: Node)
    requires |roots| == 2
  {
    n.root < 2 && Walk(s.mem, roots[n.root], n.path) == 0
  }

  /** The tables a run has yet to build. */
  function NewTables(s: Sys, roots: seq<nat>, ops: seq<Op>): set<Node>
    requires |roots| == 2
  {
    set n | n in AllPlaces(ops) && Absent(s, roots, n)
  }

  ghost predicate ValidPlace(n: Node)
  {
    n.root < 2 && 1 <= |n.path| <= 3 && ValidPath(n.path)
  }

  lemma PlacesAreValid(v: u64, n: Node)
    requires n in Places(v)
    ensures ValidPlace(n)
  {
    KeyIsValid(v);
  }

  lemma {:induction false} AllPlacesAreValid(ops: seq<Op>, n: Node)
    requires n in AllPlaces(ops)
    ensures ValidPlace(n)
    decreases |ops|
  {
    if ops[0].MapOp? && n in Places(ops[0].v) {
      PlacesAreValid(ops[0].v, n);
    } else {
      AllPlacesAreValid(ops[1..], n);
    }
  }

  // ----- what one map builds -----

  ghost predicate Owned(s: Sys, n: Node)
  {
    exists f :: f in s.own && s.own[f] == n
  }

  lemma OwnedIsPresent(s: Sys, roots: seq<nat>, n: Node)
    requires Inv(s, roots) && ValidPlace(n)
    ensures Absent(s, roots, n) <==> !Owned(s, n)
  {
    var f := Walk(s.mem, roots[n.root], n.path);
    hide Inv, Walk;
    if f != 0 { TablesFormTrees(s, roots, n.root, n.path, f); }
    forall g | g in s.own && s.own[g] == n ensures f == g {
      OwnedIsReal(s, roots, g);
      TablesFormTrees(s, roots, n.root, n.path, g);
    }
  }

  lemma OwnedIsReal(s: Sys, roots: seq<nat>, g: nat)
    requires Inv(s, roots) && g in s.own
    ensures g != 0
  {}

  /** `n` is the place of the table `k` levels down `path` from a table at `at`. */
  predicate Down(at: Node, path: seq<nat>, n: Node, k: nat)
    requires k <= |path|
  {
    n == Node(at.root, at.path + path[..k])
  }

  lemma GrowOwns(s: Sys, f: nat, i: nat, roots: seq<nat>, n: Node)
    requires Inv(s, roots) && f in s.own && |s.own[f].path| < 3 && i < 512
    requires Next(s.mem, f, i) != 0 || FreeSet(s.pool) != {}
    ensures Owned(Grow(s, f, i).0, n) <==> Owned(s, n) || n == Node(s.own[f].root, s.own[f].path + [i])
  {
    GrowOk(s, f, i, roots);
    var (s', x) := Grow(s, f, i);
    hide Inv, Grow, SameView;
    assert x in s'.own;
    if Owned(s, n) {
      var g :| g in s.own && s.own[g] == n;
      assert g in s'.own;
    }
    if Owned(s', n) {
      var g :| g in s'.own && s'.own[g] == n;
      assert g == x || g in s.own;
    }
  }

  lemma {:induction false} DescendOwns(s: Sys, f: nat, path: seq<nat>, roots: seq<nat>, n: Node)
    requires Descendable(s, f, path, roots) && Enough(s, f, path)
    ensures Owned(Descend(s, f, path).0, n) <==>
            Owned(s, n) || exists k :: 1 <= k <= |path| && Down(s.own[f], path, n, k)
    decreases |path|
  {
    if path == [] {
    } else {
      var (s1, x) := Grow(s, f, path[0]);
      GrowStep(s, f, path, roots);
      GrowOk(s, f, path[0], roots);
      GrowOwns(s, f, path[0], roots, n);
      DescendOwns(s1, x, path[1..], roots, n);
      DownStep(s.own[f], s1.own[x], path, n);
    }
  }

  lemma DownStep(at: Node, next: Node, path: seq<nat>, n: Node)
    requires path != [] && next == Node(at.root, at.path + [path[0]])
    ensures (exists k :: 1 <= k <= |path| && Down(at, path, n, k)) <==>
            n == next || exists k :: 1 <= k <= |path| - 1 && Down(next, path[1..], n, k)
  {
    assert path[..1] == [path[0]];
    assert Down(at, path, n, 1) <==> n == next;
    forall k | 2 <= k <= |path| ensures Down(at, path, n, k) <==> Down(next, path[1..], n, k - 1) {
      assert at.path + path[..k] == next.path + path[1..][..k - 1];
    }
    if exists k :: 1 <= k <= |path| - 1 && Down(next, path[1..], n, k) {
      var k :| 1 <= k <= |path| - 1 && Down(next, path[1..], n, k);
      assert Down(at, path, n, k + 1);
    }
  }

  lemma MapOwns(s: Sys, roots: seq<nat>, v: u64, phys: u64, flags: u64, n: Node)
    requires Inv(s, roots) && CanMap(s, roots, v)
    ensures Owned(Map(s, roots, v, phys, flags), n) <==> Owned(s, n) || n in Places(v)
  {
    KeyIsValid(v);
    var (f, path) := (roots[TtbrIndex(v)], TablePath(v));
    RootOf(s, roots, TtbrIndex(v), path);
    DescendOwns(s, f, path, roots, n);
    hide Inv, Descend, CanMap, Enough, Owned;
    forall k | 1 <= k <= 3 ensures Down(s.own[f], path, n, k) <==> n == Node(TtbrIndex(v), path[..k]) {
      assert [] + path[..k] == path[..k];
    }
    LeafOwnsNothing(Descend(s, f, path).0, Descend(s, f, path).1, LeafIndex(v), LeafWord(phys, flags), n);
  }

  lemma LeafOwnsNothing(s: Sys, f: nat, i: nat, w: u64, n: Node)
    ensures Owned(PutLeaf(s, f, i, w), n) <==> Owned(s, n)
  {}

  /** A map that finds its frames builds exactly the absent tables on its path. */
  lemma MapBuilds(s: Sys, roots: seq<nat>, v: u64, phys: u64, flags: u64, n: Node)
    requires Inv(s, roots) && CanMap(s, roots, v) && ValidPlace(n)
    ensures Absent(Map(s, roots, v, phys, flags), roots, n) <==> Absent(s, roots, n) && n !in Places(v)
  {
    MapKeepsInv(s, roots, v, phys, flags);
    hide Inv, Absent, Map, CanMap, Owned, Places;
    MapOwns(s, roots, v, phys, flags, n);
    OwnedIsPresent(s, roots, n);
    OwnedIsPresent(Map(s, roots, v, phys, flags), roots, n);
  }

  lemma UnmapBuildsNothing(s: Sys, roots: seq<nat>, v: u64, n: Node)
    requires Inv(s, roots) && ValidPlace(n)
    ensures Absent(Unmap(s, roots, v), roots, n) <==> Absent(s, roots, n)
  {
    UnmapKeepsInv(s, roots, v);
    OwnedIsPresent(s, roots, n);
    OwnedIsPresent(Unmap(s, roots, v), roots, n);
  }

  // ----- counting -----

  /** The missing tables are the last ones on the path. */
  lemma {:induction false} MissingAre(m: seq<u64>, f: nat, path: seq<nat>, k: nat)
    requires f != 0 && k <= |path|
    ensures Walk(m, f, path[..k]) == 0 <==> k > |path| - Missing(m, f, path)
    decreases |path|
  {
    if k == 0 {
      Translations.MissingAtMost(m, f, path);
    } else {
      var n := Next(m, f, path[0]);
      assert path[..k][1..] == path[1..][..k - 1];
      if n != 0 { MissingAre(m, n, path[1..], k - 1); }
    }
  }

  /** The absent tables on the path of `v`. */
  function AbsentPlaces(s: Sys, roots: seq<nat>, v: u64): set<Node>
    requires |roots| == 2
  {
    set n | n in Places(v) && Absent(s, roots, n)
  }

  lemma MissingIsAbsent(s: Sys, roots: seq<nat>, v: u64)
    requires Inv(s, roots)
    ensures |AbsentPlaces(s, roots, v)| == Missing(s.mem, roots[TtbrIndex(v)], TablePath(v))
  {
    KeyIsValid(v);
    var (r, path) := (TtbrIndex(v), TablePath(v));
    RootOf(s, roots, r, path);
    var missing := Missing(s.mem, roots[r], path);
    Translations.MissingAtMost(s.mem, roots[r], path);
    forall n ensures n in AbsentPlaces(s, roots, v) <==> n in Last(r, path, missing) {
      LastAre(r, path, missing, n);
      PlaceIs(v, n);
      if IsLast(r, path, 3, n) { MissingAre(s.mem, roots[r], path, |n.path|); }
    }
    hide Absent, Inv, Missing, TablePath, TtbrIndex, AbsentPlaces, Last;
    LastSize(r, path, missing);
    assert AbsentPlaces(s, roots, v) == Last(r, path, missing);
  }

  lemma PlaceIs(v: u64, n: Node)
    ensures n in Places(v) <==> IsLast(TtbrIndex(v), TablePath(v), 3, n)
  {
    if IsLast(TtbrIndex(v), TablePath(v), 3, n) {
      assert n == Node(TtbrIndex(v), TablePath(v)[..|n.path|]);
    }
  }

  /** The places of the last `m` tables on a path. */
  function Last(r: nat, path: seq<nat>, m: nat): (places: set<Node>)
    requires |path| == 3 && m <= 3
    ensures forall n :: n in places ==> |n.path| > 3 - m
  {
    if m == 0 then {} else Last(r, path, m - 1) + {Node(r, path[..4 - m])}
  }

  predicate IsLast(r: nat, path: seq<nat>, m: nat, n: Node)
    requires |path| == 3 && m <= 3
  {
    n.root == r && 3 - m < |n.path| <= 3 && n.path == path[..|n.path|]
  }

  lemma {:induction false} LastSize(r: nat, path: seq<nat>, m: nat)
    requires |path| == 3 && m <= 3
    ensures |Last(r, path, m)| == m
  {
    if m == 0 {
    } else {
      LastSize(r, path, m - 1);
      assert Node(r, path[..4 - m]) !in Last(r, path, m - 1);
    }
  }

  lemma {:induction false} LastAre(r: nat, path: seq<nat>, m: nat, n: Node)
    requires |path| == 3 && m <= 3
    ensures n in Last(r, path, m) <==> IsLast(r, path, m, n)
  {
    if m == 0 {
    } else {
      LastAre(r, path, m - 1, n);
    }
  }

  // ----- runs -----

  lemma StepBuilds(s: Sys, roots: seq<nat>, op: Op, n: Node)
    requires Inv(s, roots) && (op.MapOp? ==> CanMap(s, roots, op.v)) && ValidPlace(n)
    ensures Absent(Step(s, roots, op).0, roots, n) <==>
            Absent(s, roots, n) && !(op.MapOp? && n in Places(op.v))
  {
    hide Inv, Absent, Map, Unmap, Places, CanMap;
    match op
    case MapOp(v, phys, flags) => MapBuilds(s, roots, v, phys, flags, n);
    case UnmapOp(v) => UnmapBuildsNothing(s, roots, v, n);
    case TranslateOp(v) =>
  }

  lemma PlacesBuilt(s: Sys, roots: seq<nat>, ops: seq<Op>, n: Node)
    requires Inv(s, roots) && ops != [] && (ops[0].MapOp? ==> CanMap(s, roots, ops[0].v)) && n in AllPlaces(ops)
    ensures Absent(Step(s, roots, ops[0]).0, roots, n) <==>
            Absent(s, roots, n) && !(ops[0].MapOp? && n in Places(ops[0].v))
  {
    hide Inv, Absent, Step, CanMap;
    AllPlacesAreValid(ops, n);
    StepBuilds(s, roots, ops[0], n);
  }

  /** The places on the path a step maps. */
  function StepPlaces(op: Op): set<Node>
  {
    if op.MapOp? then Places(op.v) else {}
  }

  lemma RestIs(s: Sys, s1: Sys, roots: seq<nat>, ops: seq<Op>)
    requires |roots| == 2 && ops != []
    requires forall n :: n in AllPlaces(ops) ==>
               (Absent(s1, roots, n) <==> Absent(s, roots, n) && n !in StepPlaces(ops[0]))
    ensures NewTables(s, roots, ops) <= StepPlaces(ops[0]) + AllPlaces(ops[1..])
    ensures NewTables(s1, roots, ops[1..]) ==
            NewTables(s, roots, ops) * (AllPlaces(ops[1..]) - StepPlaces(ops[0]))
    ensures ops[0].MapOp? ==> AbsentPlaces(s, roots, ops[0].v) == NewTables(s, roots, ops) * StepPlaces(ops[0])
  {
    hide Absent, Places;
  }

  /** What the first step builds is not left for the others, and nothing else changes. */
  lemma NewTablesSplit(s: Sys, roots: seq<nat>, ops: seq<Op>)
    requires Inv(s, roots) && ops != [] && (ops[0].MapOp? ==> CanMap(s, roots, ops[0].v))
    ensures |NewTables(s, roots, ops)| ==
            |NewTables(Step(s, roots, ops[0]).0, roots, ops[1..])|
            + if ops[0].MapOp? then Missing(s.mem, roots[TtbrIndex(ops[0].v)], TablePath(ops[0].v)) else 0
  {
    var (op, s1) := (ops[0], Step(s, roots, ops[0]).0);
    assert StepPlaces(op) == if op.MapOp? then Places(op.v) else {};
    hide *;
    if op.MapOp? { MissingIsAbsent(s, roots, op.v); }
    forall n | n in AllPlaces(ops)
      ensures Absent(s1, roots, n) <==> Absent(s, roots, n) && n !in StepPlaces(op)
    {
      PlacesBuilt(s, roots, ops, n);
    }
    RestIs(s, s1, roots, ops);
    SplitSize(NewTables(s, roots, ops), StepPlaces(op), AllPlaces(ops[1..]));
  }

  lemma SplitSize(all: set<Node>, now: set<Node>, later: set<Node>)
    requires all <= now + later
    ensures |all| == |all * now| + |all * (later - now)|
    ensures now == {} ==> |all * now| == 0
  {
    assert all == all * now + all * (later - now);
  }

  lemma FewerThanMissing(s: Sys, roots: seq<nat>, ops: seq<Op>)
    requires Inv(s, roots) && ops != [] && ops[0].MapOp?
    ensures |NewTables(s, roots, ops)| >= Missing(s.mem, roots[TtbrIndex(ops[0].v)], TablePath(ops[0].v))
  {
    MissingIsAbsent(s, roots, ops[0].v);
    hide Inv, Absent, Places, Missing;
    Translations.SubsetSize(AbsentPlaces(s, roots, ops[0].v), NewTables(s, roots, ops));
  }

  lemma StepFrees(s: Sys, roots: seq<nat>, op: Op)
    requires Inv(s, roots) && (op.MapOp? ==> CanMap(s, roots, op.v))
    ensures |FreeSet(Step(s, roots, op).0.pool)| == |FreeSet(s.pool)| -
            if op.MapOp? then Missing(s.mem, roots[TtbrIndex(op.v)], TablePath(op.v)) else 0
  {
    hide Inv, Map, Missing, CanMap;
    if op.MapOp? { Translations.ServedAccounts(s, roots, op.v, op.phys, op.flags); }
  }

  /** A run finds all its frames exactly when as many are free as it has tables to build, counted on the
      tables it starts from; then it takes exactly that many. */
  lemma {:induction false} FramesSufficeExactly(s: Sys, roots: seq<nat>, ops: seq<Op>)
    requires Inv(s, roots)
    ensures FramesSuffice(s, roots, ops) <==> |NewTables(s, roots, ops)| <= |FreeSet(s.pool)|
    ensures FramesSuffice(s, roots, ops) ==>
              Sized(Steps(s, roots, ops).0) &&
              |FreeSet(Steps(s, roots, ops).0.pool)| == |FreeSet(s.pool)| - |NewTables(s, roots, ops)|
    decreases |ops|
  {
    if ops == [] {
      assert NewTables(s, roots, ops) == {};
    } else if ops[0].MapOp? && !CanMap(s, roots, ops[0].v) {
      FewerThanMissing(s, roots, ops);
    } else {
      var s1 := Step(s, roots, ops[0]).0;
      StepKeepsInv(s, roots, ops[0]);
      StepFrees(s, roots, ops[0]);
      NewTablesSplit(s, roots, ops);
      hide Inv, Step, NewTables, CanMap, Missing;
      FramesSufficeExactly(s1, roots, ops[1..]);
    }
  }
}
