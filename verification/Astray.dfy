/** What can happen beyond the safe pages of `DeadLinks`: an input on which a second failing `map`
    overwrites the translation of an unrelated page, and a proof that safe pages are exactly those on
    which nothing of the kind can happen. */
module Astray {
  import opened Bits
  import opened Descriptors
  import opened Tables
  import opened Trees
  import opened TreeShape
  import opened PageMap
  import opened DeadLinks
  import opened Exhaustion

  /** The first failing map: its level-0 entry becomes a dead link and its leaf lands in frame 0. */
  lemma FirstMap(s: Sys, roots: seq<nat>, v: u64, phys: u64, flags: u64)
    requires Inv(s, roots) && FreeSet(s.pool) == {} && Next(s.mem, roots[TtbrIndex(v)], Indices(v)[0]) == 0
    ensures var (m, f) := (Map(s, roots, v, phys, flags).mem, roots[TtbrIndex(v)]);
      && (forall g, j: nat :: g in s.own && j < 512 ==>
            Read(m, g, j) == if g == f && j == Indices(v)[0] then Link(0) else Read(s.mem, g, j))
      && Read(m, 0, LeafIndex(v)) == LeafWord(phys, flags)
  {
    KeyIsValid(v);
    var (f, path, w) := (roots[TtbrIndex(v)], TablePath(v), LeafWord(phys, flags));
    RootOf(s, roots, TtbrIndex(v), path);
    assert EntryOk(s, f, path[0]);
    EntryFacts(s, f, path[0]);
    assert Shadows(s, s);
    FailedGrow(s, s, f, path[0]);
    StuckAtZero(s, Grow(s, f, path[0]).0, path[1..]);
    var t := Descend(s, f, path).0;
    hide Inv, Grow, Descend, LeafWord;
    forall g: nat, j: nat | (g in s.own || (g == 0 && j == LeafIndex(v))) && j < 512
      ensures Read(Put(t.mem, 0, LeafIndex(v), w), g, j) == if g == 0 then w else Read(t.mem, g, j)
    {
      ReadPut(t.mem, 0, LeafIndex(v), w, g, j);
    }
  }

  /** `s1` is `s` after the first failing map: entry `i` of table `f` is dead, and word `j` of frame 0
      is `w`. */
  ghost predicate Failed(s: Sys, s1: Sys, f: nat, i: nat, j: nat, w: u64)
  {
    && |s1.mem| == |s.mem| && Sized(s1)
    && (forall g, k: nat :: g in s.own && k < 512 ==>
          Read(s1.mem, g, k) == if g == f && k == i then Link(0) else Read(s.mem, g, k))
    && Read(s1.mem, 0, j) == w
  }

  /** The second map goes from the dead link to frame 0, takes the leaf there for a table, and goes on
      in the frame that leaf maps. */
  lemma SecondDescent(s: Sys, s1: Sys, f: nat, path: seq<nat>, w: u64, p: nat, l: nat)
    requires |path| == 3 && ValidPath(path) && f in s.own && p in s.own
    requires Failed(s, s1, f, path[0], path[1], w) && Next(s.mem, f, path[0]) == 0
    requires IsTable(w) && FrameOf(w) == p && Next(s.mem, p, path[2]) == l != 0
    ensures Descend(s1, f, path) == (s1, l)
  {
    DeadLink();
    assert path[1..][1..] == [path[2]] && [path[2]][1..] == [];
    assert Grow(s1, f, path[0]) == (s1, 0) && Grow(s1, 0, path[1]) == (s1, p);
    assert Read(s1.mem, p, path[2]) == Read(s.mem, p, path[2]);
    assert Grow(s1, p, path[2]) == (s1, l);
    assert Descend(s1, f, path) == Descend(s1, 0, path[1..]) == Descend(s1, p, [path[2]]) == Descend(s1, l, []);
  }

  /** Walks through present tables are not affected by the dead link, nor by a word stored in a table
      of the last level. */
  lemma {:induction false} StillWalks(s: Sys, s1: Sys, f: nat, i: nat, j: nat, w: u64, l: nat, k: nat, x: u64,
      roots: seq<nat>, g: nat, path: seq<nat>)
    requires Descendable(s, g, path, roots) && Failed(s, s1, f, i, j, w) && Next(s.mem, f, i) == 0
    requires Walk(s.mem, g, path) != 0 && l in s.own && |s.own[l].path| == 3 && k < 512
    ensures Walk(PutLeaf(s1, l, k, x).mem, g, path) == Walk(s.mem, g, path)
    decreases |path|
  {
    if path == [] {
    } else {
      assert EntryOk(s, g, path[0]);
      EntryFacts(s, g, path[0]);
      AppendPath(s.own[g].path, path);
      ReadPut(s1.mem, l, k, x, g, path[0]);
      StillWalks(s, s1, f, i, j, w, l, k, x, roots, Next(s.mem, g, path[0]), path[1..]);
    }
  }

  /** With no frame free, let a map of `v` fail at level 0, and let `w` share that level-0 entry with
      its level-1 index the leaf index of `v`.  If the frame mapped for `v` is the level-2 table of
      some page `x` that shares the last two indices of `w`, then mapping `w` gives `x` the frame
      meant for `w`, although the two are different pages. */
  lemma SecondMapStrays(s: Sys, roots: seq<nat>, v: u64, phys: u64, flags: u64, w: u64, phys': u64, flags': u64, x: u64)
    requires Inv(s, roots) && FreeSet(s.pool) == {} && Next(s.mem, roots[TtbrIndex(v)], Indices(v)[0]) == 0
    requires TtbrIndex(w) == TtbrIndex(v) && Indices(w)[0] == Indices(v)[0] && Indices(w)[1] == LeafIndex(v)
    requires Walk(s.mem, roots[TtbrIndex(x)], Indices(x)[..2]) == FrameOf(phys) != 0
    requires Walk(s.mem, roots[TtbrIndex(x)], TablePath(x)) != 0
    requires Indices(x)[2] == Indices(w)[2] && LeafIndex(x) == LeafIndex(w)
    ensures var s1 := Map(s, roots, v, phys, flags);
      var s2 := Map(s1, roots, w, phys', flags');
      && KeyOf(x) != KeyOf(w) && Translate(s2, roots, x) == And(phys', PTE_ADDR_MASK)
  {
    var s1 := Map(s, roots, v, phys, flags);
    FirstMap(s, roots, v, phys, flags);
    assert Failed(s, s1, roots[TtbrIndex(v)], Indices(v)[0], LeafIndex(v), LeafWord(phys, flags));
    hide Map, Failed, LeafWord, Next, Walk, Translate, KeyOf;
    LeafLeads(phys, flags);
    SecondMap(s, s1, roots, w, LeafWord(phys, flags), phys', flags', x);
  }

  lemma SecondMap(s: Sys, s1: Sys, roots: seq<nat>, w: u64, leaf: u64, phys: u64, flags: u64, x: u64)
    requires Inv(s, roots) && Next(s.mem, roots[TtbrIndex(w)], Indices(w)[0]) == 0
    requires Failed(s, s1, roots[TtbrIndex(w)], Indices(w)[0], Indices(w)[1], leaf) && IsTable(leaf)
    requires Walk(s.mem, roots[TtbrIndex(x)], Indices(x)[..2]) == FrameOf(leaf) != 0
    requires Walk(s.mem, roots[TtbrIndex(x)], TablePath(x)) != 0
    requires Indices(x)[2] == Indices(w)[2] && LeafIndex(x) == LeafIndex(w)
    ensures KeyOf(x) != KeyOf(w)
    ensures Translate(Map(s1, roots, w, phys, flags), roots, x) == And(phys, PTE_ADDR_MASK)
  {
    KeyIsValid(w);
    KeyIsValid(x);
    var (f, g, word) := (roots[TtbrIndex(w)], roots[TtbrIndex(x)], LeafWord(phys, flags));
    var (p, q) := (TablePath(w), TablePath(x));
    var l := Walk(s.mem, g, q);
    assert Next(s.mem, g, Indices(x)[0]) != 0;
    RootOf(s, roots, TtbrIndex(w), p);
    RootOf(s, roots, TtbrIndex(x), q);
    assert q[..2] == Indices(x)[..2];
    Level2(s, roots, g, q);
    WalkIsOwned(s, roots, g, q);
    LeafAddress(phys, flags);
    hide Inv, Failed, Walk, Descend, LeafWord, Leaf, TablePath, LeafIndex, Indices;
    SecondDescent(s, s1, f, p, leaf, FrameOf(leaf), l);
    StillWalks(s, s1, f, p[0], p[1], leaf, l, LeafIndex(w), word, roots, g, q);
    LeafStored(s, s1, roots, l, LeafIndex(w), word);
  }

  lemma LeafStored(s: Sys, s1: Sys, roots: seq<nat>, l: nat, k: nat, x: u64)
    requires Inv(s, roots) && l in s.own && |s1.mem| == |s.mem| && k < 512
    ensures Read(PutLeaf(s1, l, k, x).mem, l, k) == x
  {
    ReadPut(s1.mem, l, k, x, l, k);
  }

  lemma LeafLeads(phys: u64, flags: u64)
    ensures IsTable(LeafWord(phys, flags)) && FrameOf(LeafWord(phys, flags)) == FrameOf(phys)
  {
    LeafIsTable(phys, flags);
    LeafAddress(phys, flags);
    AddressMask(phys);
    AddressMask(Leaf(phys, flags));
  }

  lemma Level2(s: Sys, roots: seq<nat>, g: nat, path: seq<nat>)
    requires Descendable(s, g, path, roots) && |path| == 3 && Walk(s.mem, g, path) != 0 && g != 0
    ensures var p := Walk(s.mem, g, path[..2]);
      p != 0 && p in s.own && Next(s.mem, p, path[2]) == Walk(s.mem, g, path)
  {
    assert path == path[..2] + [path[2]] && ValidPath(path[..2]);
    WalkLast(s.mem, g, path[..2], path[2]);
    WalkIsOwned(s, roots, g, path[..2]);
  }

  // ----- which pages are safe to map -----

  /** The same tables and allocator; what lies outside the tables may differ. */
  ghost predicate SameTables(t: Sys, t': Sys)
  {
    && t'.own == t.own && t'.pool == t.pool && |t'.mem| == |t.mem| && Sized(t')
    && forall g, j: nat :: g in t.own && j < 512 ==> Read(t'.mem, g, j) == Read(t.mem, g, j)
  }

  lemma SameShadows(b: Sys, t: Sys, t': Sys)
    requires Shadows(b, t) && SameTables(t, t')
    ensures Shadows(b, t')
  {
    forall g, j: nat | g in b.own && j < 512 ensures EntryShadows(b, t', g, j) {
      assert EntryShadows(b, t, g, j);
    }
  }

  lemma {:induction false} SameDead(b: Sys, t: Sys, t': Sys, f: nat, path: seq<nat>, roots: seq<nat>)
    requires Descendable(b, f, path, roots) && Shadows(b, t) && SameTables(t, t')
    ensures MeetsDead(t'.mem, f, path) <==> MeetsDead(t.mem, f, path)
    decreases |path|
  {
    if path == [] {
    } else {
      ShadowIsUndisturbed(b, t);
      assert EntryOk(b, f, path[0]);
      EntryFacts(b, f, path[0]);
      AppendPath(b.own[f].path, path);
      var n := Next(b.mem, f, path[0]);
      if n != 0 { SameDead(b, t, t', n, path[1..], roots); }
    }
  }

  lemma SameSafe(t: Sys, t': Sys, roots: seq<nat>, v: u64)
    requires Usable(t, roots) && SameTables(t, t')
    ensures Usable(t', roots) && (Safe(t', roots, v) <==> Safe(t, roots, v))
  {
    KeyIsValid(v);
    var b :| Inv(b, roots) && Shadows(b, t);
    SameShadows(b, t, t');
    RootOf(b, roots, TtbrIndex(v), TablePath(v));
    SameDead(b, t, t', roots[TtbrIndex(v)], TablePath(v)[..2], roots);
  }

  /** A leaf in a root table is none of the words a root table may hold. */
  lemma LeafInRoot(t: Sys, roots: seq<nat>, i: nat, phys: u64, flags: u64)
    requires |roots| == 2 && i < 512 && Read(t.mem, roots[0], i) == LeafWord(phys, flags)
    ensures !Usable(t, roots)
  {
    if Usable(t, roots) {
      var b :| Inv(b, roots) && Shadows(b, t);
      var w := Read(b.mem, roots[0], i);
      assert EntryOk(b, roots[0], i) && EntryShadows(b, t, roots[0], i);
      LeafIsTable(phys, flags);
      LeafIsNotLink(phys, flags, FrameOf(w));
      LeafIsNotLink(phys, flags, 0);
      assert false;
    }
  }

  /** A descent through three present entries, wherever they lead. */
  lemma DescendThrough(t: Sys, f: nat, path: seq<nat>, a: nat, b: nat, c: nat)
    requires Sized(t) && |path| == 3
    requires Present(t.mem, f, path[0], a) && Present(t.mem, a, path[1], b) && Present(t.mem, b, path[2], c)
    ensures Descend(t, f, path) == (t, c)
  {
    assert path[1..][1..] == [path[2]] && [path[2]][1..] == [];
    assert Descend(t, f, path) == Descend(t, a, path[1..]) == Descend(t, b, [path[2]]) == Descend(t, c, []);
  }

  predicate Present(m: seq<u64>, f: nat, i: nat, n: nat)
  {
    IsTable(Read(m, f, i)) && FrameOf(Read(m, f, i)) == n
  }

  lemma MapHitsRoot(t: Sys, roots: seq<nat>, v: u64, phys: u64, flags: u64, a: nat, b: nat)
    requires Sized(t) && |roots| == 2 && 512 * roots[0] + 512 <= |t.mem|
    requires var path := TablePath(v);
      && Present(t.mem, roots[TtbrIndex(v)], path[0], a) && Present(t.mem, a, path[1], b)
      && Present(t.mem, b, path[2], roots[0])
    ensures !Usable(Map(t, roots, v, phys, flags), roots)
  {
    KeyIsValid(v);
    DescendThrough(t, roots[TtbrIndex(v)], TablePath(v), a, b, roots[0]);
    hide Usable, LeafWord, Descend;
    ReadPut(t.mem, roots[0], LeafIndex(v), LeafWord(phys, flags), roots[0], LeafIndex(v));
    LeafInRoot(Map(t, roots, v, phys, flags), roots, LeafIndex(v), phys, flags);
  }

  /** A frame of memory that is no table. */
  ghost predicate Spare(t: Sys, x: nat)
  {
    0 < x < FRAMES && x !in t.own && 512 * x + 512 <= |t.mem|
  }

  /** `t` with two words planted outside the tables. */
  function Planted(t: Sys, x: nat, i: nat, w: u64, y: nat, j: nat, u: u64): Sys
  {
    PutLeaf(PutLeaf(t, x, i, w), y, j, u)
  }

  lemma PlantedReads(t: Sys, x: nat, i: nat, w: u64, y: nat, j: nat, u: u64)
    requires Sized(t) && x !in t.own && y !in t.own && i < 512 && j < 512 && (x != y || i != j)
    requires 512 * x + 512 <= |t.mem| && 512 * y + 512 <= |t.mem|
    ensures SameTables(t, Planted(t, x, i, w, y, j, u))
    ensures Read(Planted(t, x, i, w, y, j, u).mem, x, i) == w && Read(Planted(t, x, i, w, y, j, u).mem, y, j) == u
  {
    var t' := Planted(t, x, i, w, y, j, u);
    forall g: nat, k: nat | k < 512
      ensures Read(t'.mem, g, k) == if g == y && k == j then u else if g == x && k == i then w else Read(t.mem, g, k)
    {
      ReadPut(t.mem, x, i, w, g, k);
      ReadPut(PutLeaf(t, x, i, w).mem, y, j, u, g, k);
    }
  }

  /** An unsafe page: some memory outside the tables sends the map into a root. */
  lemma UnsafeHits(t: Sys, roots: seq<nat>, v: u64, phys: u64, flags: u64) returns (t': Sys)
    requires Usable(t, roots) && !Safe(t, roots, v) && Avoidable(t, roots, v)
    ensures SameTables(t, t') && !Usable(Map(t', roots, v, phys, flags), roots)
  {
    KeyIsValid(v);
    DeadLink();
    var b :| Inv(b, roots) && Shadows(b, t);
    var (f, path) := (roots[TtbrIndex(v)], TablePath(v));
    BasicFacts(b, t, roots, f);
    UnsafeIs(t, f, path);
    hide Inv, Shadows, Usable, Safe, Map;
    if Read(t.mem, f, path[0]) == Link(0) {
      if path[1] != path[2] {
        t' := Planted(t, 0, path[1], Link(0), 0, path[2], Link(roots[0]));
        PlantedReads(t, 0, path[1], Link(0), 0, path[2], Link(roots[0]));
        MapHitsRoot(t', roots, v, phys, flags, 0, 0);
      } else {
        var x :| Spare(t, x);
        LinkReads(x);
        t' := Planted(t, 0, path[1], Link(x), x, path[2], Link(roots[0]));
        PlantedReads(t, 0, path[1], Link(x), x, path[2], Link(roots[0]));
        MapHitsRoot(t', roots, v, phys, flags, 0, x);
      }
    } else {
      var a := Next(t.mem, f, path[0]);
      t' := Planted(t, 0, if path[2] == 0 then 1 else 0, 0, 0, path[2], Link(roots[0]));
      PlantedReads(t, 0, if path[2] == 0 then 1 else 0, 0, 0, path[2], Link(roots[0]));
      NextIsTable(b, t, roots, f, path[0]);
      MapHitsRoot(t', roots, v, phys, flags, a, 0);
    }
  }

  /** If the dead link is in a root and the next two indices are equal, one word of frame 0 would have
      to serve twice; then a frame that is no table must be there. */
  ghost predicate Avoidable(t: Sys, roots: seq<nat>, v: u64)
    requires |roots| == 2
  {
    var path := TablePath(v);
    Read(t.mem, roots[TtbrIndex(v)], path[0]) == Link(0) && path[1] == path[2] ==> exists x :: Spare(t, x)
  }

  lemma BasicFacts(b: Sys, t: Sys, roots: seq<nat>, f: nat)
    requires Inv(b, roots) && Shadows(b, t) && f in roots
    ensures Sized(t) && 0 !in t.own && f in t.own && 512 <= |t.mem|
    ensures 512 * roots[0] + 512 <= |t.mem| && 0 < roots[0] < FRAMES
    ensures IsTable(Link(roots[0])) && FrameOf(Link(roots[0])) == roots[0] && Link(roots[0]) < TWO64
  {
    LinkReads(roots[0]);
  }

  lemma UnsafeIs(t: Sys, f: nat, path: seq<nat>)
    requires |path| == 3 && MeetsDead(t.mem, f, path[..2])
    ensures Read(t.mem, f, path[0]) == Link(0) ||
            (Next(t.mem, f, path[0]) != 0 && Read(t.mem, Next(t.mem, f, path[0]), path[1]) == Link(0))
  {
    assert path[..2][1..] == [path[1]] && [path[1]][1..] == [];
    var a := Next(t.mem, f, path[0]);
    assert !MeetsDead(t.mem, Next(t.mem, a, path[1]), []);
  }

  lemma NextIsTable(b: Sys, t: Sys, roots: seq<nat>, f: nat, i: nat)
    requires Inv(b, roots) && Shadows(b, t) && f in b.own && |b.own[f].path| < 3 && i < 512 && Next(t.mem, f, i) != 0
    ensures IsTable(Read(t.mem, f, i)) && Next(t.mem, f, i) in t.own
  {
    ShadowIsUndisturbed(b, t);
    assert EntryOk(b, f, i);
    EntryFacts(b, f, i);
  }

  /** A page can be mapped without harm, whatever lies outside the tables, exactly when it is safe. */
  lemma SafeIsExact(t: Sys, roots: seq<nat>, v: u64, phys: u64, flags: u64)
    requires Usable(t, roots) && Avoidable(t, roots, v)
    ensures (forall t' :: SameTables(t, t') ==> Usable(Map(t', roots, v, phys, flags), roots)) <==> Safe(t, roots, v)
  {
    hide Usable, Map, Safe;
    if Safe(t, roots, v) {
      KeyIsValid(v);
      forall t' | SameTables(t, t') ensures Usable(Map(t', roots, v, phys, flags), roots) {
        SameSafe(t, t', roots, v);
        MapViewAlways(t', roots, v, phys, flags, KeyOf(v));
      }
    } else {
      var t' := UnsafeHits(t, roots, v, phys, flags);
    }
  }
}
