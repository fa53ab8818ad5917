/** Exactly which pages a failed `map` leaves behind a dead link. */
module DeadPages {
  import opened Bits
  import opened Descriptors
  import opened Tables
  import opened Trees
  import opened TreeShape
  import opened Exhaustion
  import opened PageMap
  import opened DeadLinks

  /** Entry `j` of table `g` is a dead link. */
  predicate DeadAt(t: Sys, g: nat, j: nat)
  {
    Read(t.mem, g, j) == Link(0)
  }

  /** The dead links of `t'` in inner tables are those of `t`, and entry `i` of table `h` if that is a
      table of `b'`. */
  ghost predicate DeadPlus(b: Sys, t: Sys, b': Sys, t': Sys, h: nat, i: nat)
  {
    forall g, j: nat :: g in b'.own && |b'.own[g].path| < 3 && j < 512 ==>
      (DeadAt(t', g, j) <==> (g in b.own && DeadAt(t, g, j)) || (g == h && j == i))
  }

  lemma GrowKeepsDead(b: Sys, t: Sys, f: nat, i: nat, roots: seq<nat>)
    requires Inv(b, roots) && Shadows(b, t) && f in b.own && |b.own[f].path| < 3 && i < 512
    requires Read(t.mem, f, i) != Link(0)
    requires Next(b.mem, f, i) != 0 || FreeSet(b.pool) != {}
    ensures Sized(t) && DeadPlus(b, t, Grow(b, f, i).0, Grow(t, f, i).0, 0, 0)
  {
    assert EntryShadows(b, t, f, i);
    assert EntryOk(b, f, i);
    EntryFacts(b, f, i);
    GrowOk(b, f, i, roots);
    if Next(b.mem, f, i) == 0 {
      var (n, b', t') := (NewFrame(b), Grow(b, f, i).0, Grow(t, f, i).0);
      NewFrameIsFree(b);
      LinkReads(n);
      DeadLink();
      forall g, j: nat | g in b'.own && |b'.own[g].path| < 3 && j < 512
        ensures DeadAt(t', g, j) <==> g in b.own && DeadAt(t, g, j)
      {
        ReadPut(Zero(t.mem, n), f, i, Link(n), g, j);
        ReadZero(t.mem, n, g, j);
      }
    }
  }

  lemma DeadPlusTrans(b: Sys, t: Sys, b1: Sys, t1: Sys, b2: Sys, t2: Sys, h: nat, i: nat)
    requires Extends(b.own, b1.own) && Extends(b1.own, b2.own) && 0 !in b1.own
    requires DeadPlus(b, t, b1, t1, 0, 0) && DeadPlus(b1, t1, b2, t2, h, i)
    ensures DeadPlus(b, t, b2, t2, h, i)
  {}

  /** A descent that finds its frames leaves no dead link. */
  lemma {:induction false} DescendKeepsDead(b: Sys, t: Sys, f: nat, path: seq<nat>, roots: seq<nat>)
    requires Descendable(b, f, path, roots) && Shadows(b, t) && !MeetsDead(t.mem, f, path) && Enough(b, f, path)
    ensures Sized(t) && DeadPlus(b, t, Descend(b, f, path).0, Descend(t, f, path).0, 0, 0)
    decreases |path|
  {
    if path == [] {
    } else {
      var ((b1, n), t1) := (Grow(b, f, path[0]), Grow(t, f, path[0]).0);
      AliveStep(b, t, f, path, roots);
      GrowKeepsDead(b, t, f, path[0], roots);
      DescendOk(b1, n, path[1..], roots);
      assert 0 !in b1.own;
      hide Shadows, Inv, Grow, SameView, Extends, DeadPlus;
      DescendKeepsDead(b1, t1, n, path[1..], roots);
      DeadPlusTrans(b, t, b1, t1, Descend(b1, n, path[1..]).0, Descend(t1, n, path[1..]).0, 0, 0);
    }
  }

  /** How far a descent gets before it fails. */
  ghost function Depth(s: Sys, f: nat, path: seq<nat>): int
    requires Sized(s)
  {
    |path| - Missing(s.mem, f, path) + |FreeSet(s.pool)|
  }

  /** One level that is found or built, on the way to the one that fails. */
  lemma DiesStep(b: Sys, t: Sys, f: nat, path: seq<nat>, roots: seq<nat>)
    requires Descendable(b, f, path, roots) && path != [] && Shadows(b, t) && !MeetsDead(t.mem, f, path)
    requires !Enough(b, f, path) && (Next(b.mem, f, path[0]) != 0 || FreeSet(b.pool) != {})
    ensures Sized(t)
    ensures var ((b1, n), t1) := (Grow(b, f, path[0]), Grow(t, f, path[0]).0);
      && Descendable(b1, n, path[1..], roots) && Shadows(b1, t1) && !MeetsDead(t1.mem, n, path[1..])
      && !Enough(b1, n, path[1..]) && Depth(b1, n, path[1..]) == Depth(b, f, path) - 1
      && b1.own[n] == Node(b.own[f].root, b.own[f].path + [path[0]])
      && Extends(b.own, b1.own) && 0 !in b1.own && DeadPlus(b, t, b1, t1, 0, 0) && n == Grow(t, f, path[0]).1
  {
    AliveStep(b, t, f, path, roots);
    DepthStep(b, f, path, roots);
    hide Grow, SameView, DeadPlus, Shadows, InnerOk, Linked, FreeOk, MeetsDead, Enough, Depth;
    GrowKeepsAlive(b, t, f, path, roots);
  }

  lemma GrowKeepsAlive(b: Sys, t: Sys, f: nat, path: seq<nat>, roots: seq<nat>)
    requires Descendable(b, f, path, roots) && path != [] && Shadows(b, t) && !MeetsDead(t.mem, f, path)
    requires Next(b.mem, f, path[0]) != 0 || FreeSet(b.pool) != {}
    ensures Sized(t) && DeadPlus(b, t, Grow(b, f, path[0]).0, Grow(t, f, path[0]).0, 0, 0)
  {
    hide Shadows, DeadPlus, Grow;
    GrowKeepsDead(b, t, f, path[0], roots);
  }

  /** Between the two states exactly one dead link has come: at `path[k]`, in the table `h` that is
      `k` levels down the path from `f`. */
  ghost predicate DiedAt(b: Sys, t: Sys, f: nat, path: seq<nat>, k: int, h: nat, b': Sys, t': Sys)
  {
    && f in b.own && 0 <= k < |path|
    && h in b'.own && b'.own[h] == Node(b.own[f].root, b.own[f].path + path[..k])
    && DeadPlus(b, t, b', t', h, path[k])
  }

  lemma DiedBelow(b: Sys, t: Sys, f: nat, path: seq<nat>, k: int, h: nat, b1: Sys, t1: Sys, n: nat, b': Sys, t': Sys)
    requires path != [] && f in b.own && n in b1.own
    requires b1.own[n] == Node(b.own[f].root, b.own[f].path + [path[0]])
    requires Extends(b.own, b1.own) && Extends(b1.own, b'.own) && 0 !in b1.own && DeadPlus(b, t, b1, t1, 0, 0)
    requires DiedAt(b1, t1, n, path[1..], k - 1, h, b', t')
    ensures DiedAt(b, t, f, path, k, h, b', t')
  {
    DeadPlusTrans(b, t, b1, t1, b', t', h, path[k]);
    hide DeadPlus, Extends;
    assert (b.own[f].path + [path[0]]) + path[1..][..k - 1] == b.own[f].path + path[..k];
  }

  lemma Unfolds(b: Sys, t: Sys, f: nat, path: seq<nat>)
    requires Sized(b) && Sized(t) && path != [] && (Next(b.mem, f, path[0]) != 0 || FreeSet(b.pool) != {})
    ensures Settle(b, f, path) == Settle(Grow(b, f, path[0]).0, Grow(b, f, path[0]).1, path[1..])
    ensures Descend(t, f, path) == Descend(Grow(t, f, path[0]).0, Grow(t, f, path[0]).1, path[1..])
  {
    hide Grow;
  }

  /** One that does not leaves exactly one, at the first level it finds no frame for. */
  lemma {:induction false} DescendDies(b: Sys, t: Sys, f: nat, path: seq<nat>, roots: seq<nat>) returns (h: nat)
    requires Descendable(b, f, path, roots) && Shadows(b, t) && !MeetsDead(t.mem, f, path) && !Enough(b, f, path)
    ensures Sized(t)
    ensures DiedAt(b, t, f, path, Depth(b, f, path), h, Settle(b, f, path), Descend(t, f, path).0)
    decreases |path|
  {
    if Next(b.mem, f, path[0]) == 0 && FreeSet(b.pool) == {} {
      h := f;
      DiesHere(b, t, f, path, roots);
    } else {
      DiesStep(b, t, f, path, roots);
      var ((b1, n), t1) := (Grow(b, f, path[0]), Grow(t, f, path[0]).0);
      SettleOk(b1, n, path[1..], roots);
      Unfolds(b, t, f, path);
      var k := Depth(b, f, path);
      hide *;
      h := DescendDies(b1, t1, n, path[1..], roots);
      DiedBelow(b, t, f, path, k, h, b1, t1, n, Settle(b, f, path), Descend(t, f, path).0);
    }
  }

  lemma DiesHere(b: Sys, t: Sys, f: nat, path: seq<nat>, roots: seq<nat>)
    requires Descendable(b, f, path, roots) && Shadows(b, t) && !MeetsDead(t.mem, f, path) && path != []
    requires Next(b.mem, f, path[0]) == 0 && FreeSet(b.pool) == {}
    ensures Sized(t) && Depth(b, f, path) == 0
    ensures DeadPlus(b, t, b, Descend(t, f, path).0, f, path[0])
    ensures b.own[f] == Node(b.own[f].root, b.own[f].path + path[..0])
  {
    assert EntryOk(b, f, path[0]) && EntryShadows(b, t, f, path[0]);
    EntryFacts(b, f, path[0]);
    FailedGrow(b, t, f, path[0]);
    StuckAtZero(b, Grow(t, f, path[0]).0, path[1..]);
    assert b.own[f].path + path[..0] == b.own[f].path;
  }

  lemma DepthStep(s: Sys, f: nat, path: seq<nat>, roots: seq<nat>)
    requires Descendable(s, f, path, roots) && path != []
    requires Next(s.mem, f, path[0]) != 0 || FreeSet(s.pool) != {}
    ensures var (s1, n) := Grow(s, f, path[0]);
      Depth(s1, n, path[1..]) == Depth(s, f, path) - 1
      && n in s1.own && s1.own[n] == Node(s.own[f].root, s.own[f].path + [path[0]])
  {
    var (s1, n) := Grow(s, f, path[0]);
    GrowOk(s, f, path[0], roots);
    hide Inv, SameView, Extends, Grow, Next;
    if Next(s.mem, f, path[0]) == 0 {
      assert Grown(s, f, path[0], n, s1);
      EmptyIsMissing(s1.mem, n, path[1..]);
      OneLess(FreeSet(s.pool), FreeSet(s1.pool), n);
    }
  }

  lemma OneLess(a: set<nat>, b: set<nat>, n: nat)
    requires n in a && b == a - {n}
    ensures |b| == |a| - 1
  {}

  // ----- a page is dead when its walk passes a dead link -----

  predicate DeadStep(m: seq<u64>, f: nat, path: seq<nat>, k: nat)
    requires k < |path|
  {
    var h := Walk(m, f, path[..k]);
    h != 0 && Read(m, h, path[k]) == Link(0)
  }

  lemma WalkFirst(m: seq<u64>, f: nat, path: seq<nat>, k: nat)
    requires 0 < k < |path| && Next(m, f, path[0]) != 0
    ensures DeadStep(m, f, path, k) <==> DeadStep(m, Next(m, f, path[0]), path[1..], k - 1)
  {
    assert path[..k][1..] == path[1..][..k - 1];
  }

  lemma {:induction false} DeadIsStep(m: seq<u64>, f: nat, path: seq<nat>)
    requires f != 0
    ensures MeetsDead(m, f, path) <==> exists k :: 0 <= k < |path| && DeadStep(m, f, path, k)
    decreases |path|
  {
    if path == [] {
    } else {
      var n := Next(m, f, path[0]);
      assert DeadStep(m, f, path, 0) <==> Read(m, f, path[0]) == Link(0);
      DeadLink();
      if n != 0 {
        DeadIsStep(m, n, path[1..]);
        if MeetsDead(m, n, path[1..]) {
          var j :| 0 <= j < |path| - 1 && DeadStep(m, n, path[1..], j);
          WalkFirst(m, f, path, j + 1);
        }
        forall k | 0 < k < |path| && DeadStep(m, f, path, k) ensures MeetsDead(m, n, path[1..]) {
          WalkFirst(m, f, path, k);
        }
      } else {
        forall k | 0 < k < |path| ensures !DeadStep(m, f, path, k) {}
      }
    }
  }

  /** In a shadow, a step is dead when the table its base owns there has the dead link. */
  lemma DeadStepIs(b: Sys, t: Sys, roots: seq<nat>, r: nat, path: seq<nat>, k: nat, h: nat)
    requires Inv(b, roots) && Shadows(b, t) && r < 2 && |path| == 3 && ValidPath(path) && k < 3
    requires h == Walk(b.mem, roots[r], path[..k])
    ensures DeadStep(t.mem, roots[r], path, k) <==> h != 0 && DeadAt(t, h, path[k])
    ensures h != 0 ==> h in b.own && b.own[h] == Node(r, path[..k])
  {
    ShadowIsUndisturbed(b, t);
    assert roots[r] in b.own && b.own[roots[r]] == Node(r, []);
    assert ValidPath(path[..k]) && |path[..k]| <= 3;
    WalkFromRoot(b, roots, r, path[..k]);
    UndisturbedWalk(b, t.mem, roots, roots[r], path[..k]);
  }

  /** `h` is the table of `path[..k]` and `i` the next index of `path`. */
  ghost predicate OnPath(b: Sys, h: nat, i: nat, r: nat, path: seq<nat>, k: nat)
    requires k < |path|
  {
    h in b.own && b.own[h] == Node(r, path[..k]) && i == path[k]
  }

  lemma DeadPlusStep(b: Sys, t: Sys, b': Sys, t': Sys, roots: seq<nat>, h: nat, i: nat, r: nat, path: seq<nat>, k: nat)
    requires Inv(b, roots) && Shadows(b, t) && Inv(b', roots) && Shadows(b', t')
    requires Extends(b.own, b'.own) && DeadPlus(b, t, b', t', h, i)
    requires r < 2 && |path| == 3 && ValidPath(path) && k < 3
    ensures DeadStep(t'.mem, roots[r], path, k) <==>
            DeadStep(t.mem, roots[r], path, k) || OnPath(b', h, i, r, path, k)
  {
    var (x, x') := (Walk(b.mem, roots[r], path[..k]), Walk(b'.mem, roots[r], path[..k]));
    DeadStepIs(b, t, roots, r, path, k, x);
    DeadStepIs(b', t', roots, r, path, k, x');
    assert ValidPath(path[..k]);
    if x != 0 { TablesFormTrees(b', roots, r, path[..k], x); }
    if x' != 0 && x' in b.own { TablesFormTrees(b, roots, r, path[..k], x'); }
    if h != 0 { TablesFormTrees(b', roots, r, path[..k], h); }
  }

  // ----- pages -----

  /** The first `n` tables on the path of `v` have no dead link on it: for `n == 3` the page is alive,
      for `n == 2` it is safe. */
  predicate AliveTo(t: Sys, roots: seq<nat>, v: nat, n: nat)
    requires |roots| == 2 && n <= 3
  {
    !MeetsDead(t.mem, roots[TtbrIndex(v)], TablePath(v)[..n])
  }

  lemma AliveToIs(t: Sys, roots: seq<nat>, v: nat)
    requires |roots| == 2
    ensures AliveTo(t, roots, v, 3) <==> Alive(t, roots, v)
    ensures AliveTo(t, roots, v, 2) <==> Safe(t, roots, v)
  {
    assert TablePath(v)[..3] == TablePath(v);
  }

  /** A map of `v` fails, for lack of frames, at one of the first `n` tables, and the walk of `w` passes
      the entry at which it does. */
  ghost predicate SharesFailure(t: Sys, roots: seq<nat>, v: u64, w: u64, n: nat)
    requires Sized(t) && |roots| == 2
  {
    var last := Depth(t, roots[TtbrIndex(v)], TablePath(v));
    && Alive(t, roots, v) && !CanMap(t, roots, v) && 0 <= last < n && last < 3
    && TtbrIndex(w) == TtbrIndex(v) && TablePath(w)[..last + 1] == TablePath(v)[..last + 1]
  }

  lemma {:induction false} DeadWithin(m: seq<u64>, f: nat, path: seq<nat>, n: nat)
    requires f != 0 && n <= |path|
    ensures MeetsDead(m, f, path[..n]) <==> exists k :: 0 <= k < n && DeadStep(m, f, path, k)
  {
    DeadIsStep(m, f, path[..n]);
    forall k | 0 <= k < n ensures DeadStep(m, f, path[..n], k) <==> DeadStep(m, f, path, k) {
      assert path[..n][..k] == path[..k];
    }
  }

  lemma DeadPagesAre(b: Sys, t: Sys, b': Sys, t': Sys, roots: seq<nat>, h: nat, i: nat, w: u64, n: nat)
    requires Inv(b, roots) && Shadows(b, t) && Inv(b', roots) && Shadows(b', t') && n <= 3
    requires Extends(b.own, b'.own) && DeadPlus(b, t, b', t', h, i)
    ensures AliveTo(t', roots, w, n) <==>
            AliveTo(t, roots, w, n) && forall k :: 0 <= k < n ==> !OnPath(b', h, i, TtbrIndex(w), TablePath(w), k)
  {
    KeyIsValid(w);
    var (r, path) := (TtbrIndex(w), TablePath(w));
    RootOf(b, roots, r, path);
    DeadWithin(t.mem, roots[r], path, n);
    DeadWithin(t'.mem, roots[r], path, n);
    hide Inv, Shadows, Extends, DeadPlus, DeadStep, OnPath, MeetsDead;
    forall k | 0 <= k < 3
      ensures DeadStep(t'.mem, roots[r], path, k) <==>
              DeadStep(t.mem, roots[r], path, k) || OnPath(b', h, i, r, path, k)
    {
      DeadPlusStep(b, t, b', t', roots, h, i, r, path, k);
    }
  }

  lemma PutKeepsDead(b: Sys, t: Sys, f: nat, i: nat, w: u64)
    requires i < 512 && 0 !in b.own && (f in b.own ==> |b.own[f].path| == 3)
    ensures DeadPlus(b, t, b, PutLeaf(t, f, i, w), 0, 0)
  {
    forall g, j: nat | g in b.own && |b.own[g].path| < 3 && j < 512
      ensures Read(PutLeaf(t, f, i, w).mem, g, j) == Read(t.mem, g, j)
    {
      ReadPut(t.mem, f, i, w, g, j);
    }
  }

  lemma PutAfter(b: Sys, t: Sys, b': Sys, t1: Sys, h: nat, i: nat, f: nat, j: nat, w: u64)
    requires DeadPlus(b, t, b', t1, h, i)
    requires j < 512 && 0 !in b'.own && (f in b'.own ==> |b'.own[f].path| == 3)
    ensures DeadPlus(b, t, b', PutLeaf(t1, f, j, w), h, i)
  {
    PutKeepsDead(b', t1, f, j, w);
  }

  lemma MapKeepsDead(b: Sys, t: Sys, roots: seq<nat>, v: u64, phys: u64, flags: u64)
    requires Inv(b, roots) && Shadows(b, t) && Alive(t, roots, v) && CanMap(b, roots, v)
    ensures Sized(t) && Extends(b.own, MapBase(b, roots, v, phys, flags).own)
    ensures DeadPlus(b, t, MapBase(b, roots, v, phys, flags), Map(t, roots, v, phys, flags), 0, 0)
  {
    KeyIsValid(v);
    var (f, path) := (roots[TtbrIndex(v)], TablePath(v));
    RootOf(b, roots, TtbrIndex(v), path);
    DescendKeepsDead(b, t, f, path, roots);
    DescendOk(b, f, path, roots);
    DescendTogether(b, t, f, path, roots);
    var ((b1, l3), t1) := (Descend(b, f, path), Descend(t, f, path).0);
    assert 0 !in b1.own;
    PutAfter(b, t, b1, t1, 0, 0, l3, LeafIndex(v), LeafWord(phys, flags));
  }

  lemma MapDies(b: Sys, t: Sys, roots: seq<nat>, v: u64, phys: u64, flags: u64) returns (h: nat)
    requires Inv(b, roots) && Shadows(b, t) && Alive(t, roots, v) && !CanMap(b, roots, v)
    ensures Sized(t) && Extends(b.own, MapBase(b, roots, v, phys, flags).own)
    ensures var (b', path, k) :=
        (MapBase(b, roots, v, phys, flags), TablePath(v), Depth(b, roots[TtbrIndex(v)], TablePath(v)));
      && 0 <= k < 3 && h in b'.own && b'.own[h] == Node(TtbrIndex(v), path[..k])
      && DeadPlus(b, t, b', Map(t, roots, v, phys, flags), h, path[k])
  {
    KeyIsValid(v);
    var (f, path) := (roots[TtbrIndex(v)], TablePath(v));
    RootOf(b, roots, TtbrIndex(v), path);
    h := DescendDies(b, t, f, path, roots);
    SettleOk(b, f, path, roots);
    DescendFails(b, t, f, path, roots);
    var (b', t1, k) := (Settle(b, f, path), Descend(t, f, path).0, Depth(b, f, path));
    assert 0 !in b'.own && [] + path[..k] == path[..k];
    PutAfter(b, t, b', t1, h, path[k], 0, LeafIndex(v), LeafWord(phys, flags));
  }

  /** After a map of a safe page exactly those pages are dead, or unsafe, that were before and, if the
      map lacked frames, those that share its path up to the entry it failed at. */
  lemma DeadAfterMap(t: Sys, roots: seq<nat>, v: u64, phys: u64, flags: u64, w: u64, n: nat)
    requires Usable(t, roots) && Safe(t, roots, v) && n <= 3
    ensures AliveTo(Map(t, roots, v, phys, flags), roots, w, n) <==>
            AliveTo(t, roots, w, n) && !SharesFailure(t, roots, v, w, n)
  {
    var b :| Inv(b, roots) && Shadows(b, t);
    hide Inv, Shadows, Alive, AliveTo, Map, CanMap, SharesFailure;
    ShadowWalk(b, t, roots, v);
    if !Alive(t, roots, v) {
      DeadAfterStop(b, t, roots, v, phys, flags, w, n);
    } else if CanMap(b, roots, v) {
      DeadAfterServed(b, t, roots, v, phys, flags, w, n);
    } else {
      DeadAfterFailure(b, t, roots, v, phys, flags, w, n);
    }
  }

  lemma DeadAfterStop(b: Sys, t: Sys, roots: seq<nat>, v: u64, phys: u64, flags: u64, w: u64, n: nat)
    requires Inv(b, roots) && Shadows(b, t) && Safe(t, roots, v) && !Alive(t, roots, v) && n <= 3
    ensures Sized(t) && (AliveTo(Map(t, roots, v, phys, flags), roots, w, n) <==>
                         AliveTo(t, roots, w, n) && !SharesFailure(t, roots, v, w, n))
  {
    KeyIsValid(v);
    NoTableAtZero(b, roots);
    hide Inv, Map, AliveTo, DeadPlus;
    MapStops(t, roots, v, phys, flags);
    PutOutside(b, t, 0, LeafIndex(v), LeafWord(phys, flags));
    PutKeepsDead(b, t, 0, LeafIndex(v), LeafWord(phys, flags));
    DeadPagesAre(b, t, b, Map(t, roots, v, phys, flags), roots, 0, 0, w, n);
  }

  lemma DeadAfterServed(b: Sys, t: Sys, roots: seq<nat>, v: u64, phys: u64, flags: u64, w: u64, n: nat)
    requires Inv(b, roots) && Shadows(b, t) && Alive(t, roots, v) && CanMap(b, roots, v) && n <= 3
    ensures Sized(t) && (AliveTo(Map(t, roots, v, phys, flags), roots, w, n) <==>
                         AliveTo(t, roots, w, n) && !SharesFailure(t, roots, v, w, n))
  {
    var (b', t') := (MapBase(b, roots, v, phys, flags), Map(t, roots, v, phys, flags));
    hide Inv, Shadows, Alive, AliveTo, Map, MapBase, CanMap, Extends, DeadPlus;
    ShadowWalk(b, t, roots, v);
    MapShadow(b, t, roots, v, phys, flags);
    MapKeepsDead(b, t, roots, v, phys, flags);
    NoTableAtZero(b', roots);
    DeadPagesAre(b, t, b', t', roots, 0, 0, w, n);
  }

  lemma DeadAfterFailure(b: Sys, t: Sys, roots: seq<nat>, v: u64, phys: u64, flags: u64, w: u64, n: nat)
    requires Inv(b, roots) && Shadows(b, t) && Alive(t, roots, v) && !CanMap(b, roots, v) && n <= 3
    ensures Sized(t) && (AliveTo(Map(t, roots, v, phys, flags), roots, w, n) <==>
                         AliveTo(t, roots, w, n) && !SharesFailure(t, roots, v, w, n))
  {
    var (b', t') := (MapBase(b, roots, v, phys, flags), Map(t, roots, v, phys, flags));
    SamePool(b, t);
    ShadowWalk(b, t, roots, v);
    var (f, path) := (roots[TtbrIndex(v)], TablePath(v));
    var k := Depth(b, f, path);
    assert Depth(t, f, path) == k;
    hide *;
    MapShadow(b, t, roots, v, phys, flags);
    var h := MapDies(b, t, roots, v, phys, flags);
    assert 0 <= k < 3;
    DeadPagesAre(b, t, b', t', roots, h, path[k], w, n);
    OnPathIs(b', h, TtbrIndex(v), path, k, TtbrIndex(w), TablePath(w), n);
    SharesFailureIs(t, roots, v, w, n, k);
  }

  lemma SharesFailureIs(t: Sys, roots: seq<nat>, v: u64, w: u64, n: nat, k: nat)
    requires Sized(t) && |roots| == 2 && k == Depth(t, roots[TtbrIndex(v)], TablePath(v)) < 3
    requires Alive(t, roots, v) && !CanMap(t, roots, v)
    ensures SharesFailure(t, roots, v, w, n) <==>
            k < n && TtbrIndex(w) == TtbrIndex(v) && TablePath(w)[..k + 1] == TablePath(v)[..k + 1]
  {
    hide Depth, Alive, CanMap, TablePath, TtbrIndex;
  }

  lemma SamePool(b: Sys, t: Sys)
    requires Shadows(b, t)
    ensures t.pool == b.pool
  {}

  lemma NoTableAtZero(b: Sys, roots: seq<nat>)
    requires Inv(b, roots)
    ensures 0 !in b.own
  {}

  lemma OnPathIs(b: Sys, h: nat, r: nat, p: seq<nat>, k: nat, r': nat, q: seq<nat>, n: nat)
    requires |p| == |q| == 3 && k < 3 && n <= 3 && h in b.own && b.own[h] == Node(r, p[..k])
    ensures (exists j :: 0 <= j < n && OnPath(b, h, p[k], r', q, j)) <==>
            k < n && r' == r && q[..k + 1] == p[..k + 1]
  {
    assert p[..k + 1] == p[..k] + [p[k]] && q[..k + 1] == q[..k] + [q[k]];
    assert OnPath(b, h, p[k], r', q, k) <==> r' == r && q[..k + 1] == p[..k + 1];
    forall j | 0 <= j < 3 && j != k ensures !OnPath(b, h, p[k], r', q, j) {
      assert |q[..j]| == j && |p[..k]| == k;
    }
  }

  lemma UnmapKeepsDead(b: Sys, t: Sys, roots: seq<nat>, v: u64)
    requires Inv(b, roots) && Shadows(b, t)
    ensures Unmap(b, roots, v).own == b.own && DeadPlus(b, t, Unmap(b, roots, v), Unmap(t, roots, v), 0, 0)
  {
    KeyIsValid(v);
    RootOf(b, roots, TtbrIndex(v), TablePath(v));
    ShadowWalk(b, t, roots, v);
    WalkIsOwned(b, roots, roots[TtbrIndex(v)], TablePath(v));
    NoTableAtZero(b, roots);
    hide Inv, Walk, TablePath;
    PutKeepsDead(b, t, Walk(b.mem, roots[TtbrIndex(v)], TablePath(v)), LeafIndex(v), 0);
  }

  /** An unmap changes nothing about that. */
  lemma DeadAfterUnmap(t: Sys, roots: seq<nat>, v: u64, w: u64, n: nat)
    requires Usable(t, roots) && n <= 3
    ensures AliveTo(Unmap(t, roots, v), roots, w, n) <==> AliveTo(t, roots, w, n)
  {
    var b :| Inv(b, roots) && Shadows(b, t);
    UnmapKeepsDead(b, t, roots, v);
    hide Inv, Shadows, Unmap, DeadPlus, AliveTo, Usable;
    UnmapShadow(b, t, roots, v);
    NoTableAtZero(Unmap(b, roots, v), roots);
    DeadPagesAre(b, t, Unmap(b, roots, v), Unmap(t, roots, v), roots, 0, 0, w, n);
  }
}
