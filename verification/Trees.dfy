/** Growing the trees keeps them well formed, uses exactly the missing frames, and changes no
    translation. */
module Trees {
  import Bits
  import opened Descriptors
  import Pool
  import opened Tables

  /** An entry of an inner table is absent, or leads to the owned child frame. */
  lemma EntryFacts(s: Sys, f: nat, i: nat)
    requires Sized(s) && OwnedOk(s) && f in s.own && EntryOk(s, f, i)
    ensures IsTable(Read(s.mem, f, i)) <==> Read(s.mem, f, i) != 0
    ensures Next(s.mem, f, i) == 0 <==> Read(s.mem, f, i) == 0
    ensures var n := Next(s.mem, f, i); n != 0 ==>
              n in s.own && s.own[n] == Node(s.own[f].root, s.own[f].path + [i]) && Read(s.mem, f, i) == Link(n)
  {
    var w := Read(s.mem, f, i);
    if w != 0 { LinkReads(FrameOf(w)); }
  }

  /** `s'` is `s` with the fresh empty table `n` linked at entry `i` of table `f`. */
  ghost predicate Grown(s: Sys, f: nat, i: nat, n: nat, s': Sys)
    requires Sized(s) && Sized(s') && f in s.own
  {
    && n !in s.own && n in FreeSet(s.pool) && n < FRAMES && |s'.mem| == |s.mem|
    && s'.own == s.own[n := Node(s.own[f].root, s.own[f].path + [i])]
    && (forall g, j: nat :: g in s.own && j < 512 ==>
          Read(s'.mem, g, j) == if g == f && j == i then Link(n) else Read(s.mem, g, j))
    && (forall j: nat :: j < 512 ==> Read(s'.mem, n, j) == 0)
    && FreeSet(s'.pool) == FreeSet(s.pool) - {n}
    && Pool.Sound(s'.pool)
  }

  lemma GrowIsGrown(s: Sys, f: nat, i: nat)
    requires Sized(s) && OwnedOk(s) && FreeOk(s) && f in s.own && i < 512
    requires Read(s.mem, f, i) == 0 && FreeSet(s.pool) != {}
    ensures Grown(s, f, i, Grow(s, f, i).1, Grow(s, f, i).0)
  {
    NewFrameIsFree(s);
    var n := NewFrame(s);
    LinkReads(n);
    var s' := Grow(s, f, i).0;
    forall g: nat, j: nat | (g in s.own || g == n) && j < 512
      ensures Read(s'.mem, g, j) == if g == f && j == i then Link(n) else if g == n then 0 else Read(s.mem, g, j)
    {
      ReadPut(Zero(s.mem, n), f, i, Link(n), g, j);
      ReadZero(s.mem, n, g, j);
    }
  }

  lemma GrownKeepsInv(s: Sys, f: nat, i: nat, n: nat, s': Sys, roots: seq<nat>)
    requires Inv(s, roots) && Sized(s') && f in s.own && |s.own[f].path| < 3 && i < 512
    requires Read(s.mem, f, i) == 0 && Grown(s, f, i, n, s')
    ensures Inv(s', roots)
  {
    GrownEntries(s, f, i, n, s', roots);
    GrownLinks(s, f, i, n, s', roots);
    GrownOwners(s, f, i, n, s', roots);
    hide InnerOk, Linked, OwnedOk, RootsOk, Grown;
  }

  lemma GrownOwners(s: Sys, f: nat, i: nat, n: nat, s': Sys, roots: seq<nat>)
    requires Inv(s, roots) && Sized(s') && f in s.own && |s.own[f].path| < 3
    requires Grown(s, f, i, n, s')
    ensures OwnedOk(s') && RootsOk(s', roots) && FreeOk(s')
  {
    hide InnerOk, Linked, Read;
  }

  lemma GrownEntries(s: Sys, f: nat, i: nat, n: nat, s': Sys, roots: seq<nat>)
    requires Inv(s, roots) && Sized(s') && f in s.own && |s.own[f].path| < 3 && i < 512
    requires Read(s.mem, f, i) == 0 && Grown(s, f, i, n, s')
    ensures InnerOk(s')
  {
    forall g, j: nat | g in s'.own && |s'.own[g].path| < 3 && j < 512 ensures EntryOk(s', g, j) {
      if g == f && j == i {
        LinkReads(n);
      } else if g != n {
        assert EntryOk(s, g, j);
      }
    }
  }

  lemma OldParent(s: Sys, f: nat, i: nat, n: nat, s': Sys, p: nat, g: nat)
    requires Sized(s) && Sized(s') && f in s.own && Grown(s, f, i, n, s') && Read(s.mem, f, i) == 0
    requires g in s.own && s.own[g].path != [] && Parent(s, p, g)
    ensures g in s'.own && s'.own[g] == s.own[g] && Parent(s', p, g)
  {
    hide FreeSet, Read;
  }

  lemma NewParent(s: Sys, f: nat, i: nat, n: nat, s': Sys)
    requires Sized(s) && Sized(s') && f in s.own && Grown(s, f, i, n, s') && i < 512
    ensures Parent(s', f, n)
  {
    hide FreeSet, Read;
    assert (s.own[f].path + [i])[..|s.own[f].path|] == s.own[f].path;
  }

  lemma GrownLinks(s: Sys, f: nat, i: nat, n: nat, s': Sys, roots: seq<nat>)
    requires Inv(s, roots) && Sized(s') && f in s.own && |s.own[f].path| < 3 && i < 512
    requires Read(s.mem, f, i) == 0 && Grown(s, f, i, n, s')
    ensures Linked(s')
  {
    forall g | g in s'.own && s'.own[g].path != [] ensures exists p :: Parent(s', p, g) {
      if g == n {
        NewParent(s, f, i, n, s');
      } else {
        OnlyNewOwner(s, f, i, n, s', g);
        hide Grown, InnerOk, OwnedOk, RootsOk, FreeOk;
        var p :| Parent(s, p, g);
        OldParent(s, f, i, n, s', p, g);
      }
    }
  }

  lemma OnlyNewOwner(s: Sys, f: nat, i: nat, n: nat, s': Sys, g: nat)
    requires Sized(s) && Sized(s') && f in s.own && Grown(s, f, i, n, s') && g in s'.own && g != n
    ensures g in s.own && s.own[g] == s'.own[g]
  {}

  // ----- lookups -----

  /** A new empty table changes no lookup that runs to the leaf level. */
  lemma {:induction false} GrownKeepsLookup(
      s: Sys, f: nat, i: nat, n: nat, s': Sys, roots: seq<nat>, g: nat, path: seq<nat>)
    requires Inv(s, roots) && Sized(s') && f in s.own && |s.own[f].path| < 3 && i < 512
    requires Read(s.mem, f, i) == 0 && Grown(s, f, i, n, s')
    requires g in s.own && |s.own[g].path| + |path| == 4 && ValidPath(path)
    ensures Lookup(s'.mem, g, path) == Lookup(s.mem, g, path)
    decreases |path|
  {
    if |path| <= 1 {
    } else {
      assert EntryOk(s, g, path[0]);
      EntryFacts(s, g, path[0]);
      if g == f && path[0] == i {
        LinkReads(n);
        assert Read(s'.mem, n, path[1..][0]) == 0;
      } else if Next(s.mem, g, path[0]) != 0 {
        GrownKeepsLookup(s, f, i, n, s', roots, Next(s.mem, g, path[0]), path[1..]);
      }
    }
  }

  /** Every leaf lookup that starts at a table of `s` gives the same word in `m`. */
  ghost predicate SameView(s: Sys, m: seq<Bits.u64>)
    requires Sized(s) && OwnedOk(s)
  {
    forall g, path :: g in s.own && |s.own[g].path| + |path| == 4 && ValidPath(path) ==>
      Lookup(m, g, path) == Lookup(s.mem, g, path)
  }

  ghost predicate Extends(own: map<nat, Node>, own': map<nat, Node>)
  {
    forall f :: f in own ==> f in own' && own'[f] == own[f]
  }

  /** One level of a successful descent. */
  lemma GrowOk(s: Sys, f: nat, i: nat, roots: seq<nat>)
    requires Inv(s, roots) && f in s.own && |s.own[f].path| < 3 && i < 512
    requires Next(s.mem, f, i) != 0 || FreeSet(s.pool) != {}
    ensures var (s', n) := Grow(s, f, i);
      && Inv(s', roots) && Extends(s.own, s'.own) && SameView(s, s'.mem)
      && n != 0 && n in s'.own && s'.own[n] == Node(s.own[f].root, s.own[f].path + [i])
      && Next(s'.mem, f, i) == n
      && (if Next(s.mem, f, i) != 0 then s' == s && n == Next(s.mem, f, i) else Grown(s, f, i, n, s'))
  {
    assert EntryOk(s, f, i);
    EntryFacts(s, f, i);
    if Next(s.mem, f, i) == 0 {
      var (s', n) := Grow(s, f, i);
      GrowIsGrown(s, f, i);
      GrownKeepsInv(s, f, i, n, s', roots);
      LinkReads(n);
      forall g, path | g in s.own && |s.own[g].path| + |path| == 4 && ValidPath(path)
        ensures Lookup(s'.mem, g, path) == Lookup(s.mem, g, path)
      {
        GrownKeepsLookup(s, f, i, n, s', roots, g, path);
      }
    }
  }

  ghost predicate Enough(s: Sys, f: nat, path: seq<nat>)
    requires Sized(s)
  {
    Missing(s.mem, f, path) <= |FreeSet(s.pool)|
  }

  ghost predicate Descendable(s: Sys, f: nat, path: seq<nat>, roots: seq<nat>)
  {
    Inv(s, roots) && f in s.own && |s.own[f].path| + |path| <= 3 && ValidPath(path)
  }

  /** After one level of a descent with enough free frames, there are enough for the rest. */
  lemma GrowStep(s: Sys, f: nat, path: seq<nat>, roots: seq<nat>)
    requires Descendable(s, f, path, roots) && path != [] && Enough(s, f, path)
    ensures var (s1, n) := Grow(s, f, path[0]);
      && Descendable(s1, n, path[1..], roots) && Enough(s1, n, path[1..])
      && n != 0 && s1.own[n].root == s.own[f].root && s1.own[n].path + path[1..] == s.own[f].path + path
      && Extends(s.own, s1.own) && SameView(s, s1.mem) && Next(s1.mem, f, path[0]) == n
  {
    GrowCounts(s, f, path, roots);
    GrowOk(s, f, path[0], roots);
    AppendPath(s.own[f].path, path);
  }

  lemma AppendPath(p: seq<nat>, path: seq<nat>)
    requires path != [] && ValidPath(path)
    ensures (p + [path[0]]) + path[1..] == p + path && ValidPath(path[1..])
    ensures |p + [path[0]]| + |path[1..]| == |p| + |path|
  {}

  lemma GrowCounts(s: Sys, f: nat, path: seq<nat>, roots: seq<nat>)
    requires Descendable(s, f, path, roots) && path != [] && Enough(s, f, path)
    ensures var (s1, n) := Grow(s, f, path[0]);
      && |FreeSet(s1.pool)| - Missing(s1.mem, n, path[1..]) == |FreeSet(s.pool)| - Missing(s.mem, f, path)
      && FreeSet(s1.pool) <= FreeSet(s.pool)
      && s1.own.Keys == s.own.Keys + (FreeSet(s.pool) - FreeSet(s1.pool))
  {
    var (s1, n) := Grow(s, f, path[0]);
    GrowOk(s, f, path[0], roots);
    if Next(s.mem, f, path[0]) == 0 {
      EmptyIsMissing(s1.mem, n, path[1..]);
      assert FreeSet(s.pool) - FreeSet(s1.pool) == {n};
    }
  }

  /** A descent with enough free frames keeps both trees well formed, ends at the table of the
      path, and changes no lookup. */
  lemma {:induction false} DescendOk(s: Sys, f: nat, path: seq<nat>, roots: seq<nat>)
    requires Descendable(s, f, path, roots) && Enough(s, f, path)
    ensures var (s', n) := Descend(s, f, path);
      && Inv(s', roots) && Extends(s.own, s'.own) && SameView(s, s'.mem)
      && n != 0 && n in s'.own && s'.own[n] == Node(s.own[f].root, s.own[f].path + path)
    decreases |path|
  {
    if path == [] {
      assert s.own[f].path + path == s.own[f].path;
    } else {
      var (s1, n) := Grow(s, f, path[0]);
      GrowStep(s, f, path, roots);
      DescendOk(s1, n, path[1..], roots);
      SameViewTrans(s, s1, Descend(s1, n, path[1..]).0.mem);
    }
  }

  /** It takes exactly the missing tables from the free frames and gives each one an owner. */
  lemma {:induction false} DescendCounts(s: Sys, f: nat, path: seq<nat>, roots: seq<nat>)
    requires Descendable(s, f, path, roots) && Enough(s, f, path)
    ensures var (s', n) := Descend(s, f, path);
      && FreeSet(s'.pool) <= FreeSet(s.pool)
      && s'.own.Keys == s.own.Keys + (FreeSet(s.pool) - FreeSet(s'.pool))
      && |FreeSet(s'.pool)| == |FreeSet(s.pool)| - Missing(s.mem, f, path)
    decreases |path|
  {
    if path == [] {
    } else {
      hide Inv, SameView, Grow, Enough, Extends, Next;
      var (s1, n) := Grow(s, f, path[0]);
      GrowStep(s, f, path, roots);
      GrowCounts(s, f, path, roots);
      DescendCounts(s1, n, path[1..], roots);
    }
  }

  /** Afterwards the path is there. */
  lemma {:induction false} DescendWalks(s: Sys, f: nat, path: seq<nat>, roots: seq<nat>)
    requires Descendable(s, f, path, roots) && Enough(s, f, path)
    ensures var (s', n) := Descend(s, f, path);
      Walk(s'.mem, f, path) == n && Missing(s'.mem, f, path) == 0
    decreases |path|
  {
    if path == [] {
    } else {
      var (s1, n) := Grow(s, f, path[0]);
      GrowStep(s, f, path, roots);
      DescendWalks(s1, n, path[1..], roots);
      DescendKeepsNext(s1, n, path[1..], roots, f, path[0]);
    }
  }

  lemma EmptyIsMissing(m: seq<Bits.u64>, n: nat, path: seq<nat>)
    requires ValidPath(path) && forall j: nat :: j < 512 ==> Read(m, n, j) == 0
    ensures Missing(m, n, path) == |path|
  {}

  lemma SameViewTrans(s: Sys, s1: Sys, m: seq<Bits.u64>)
    requires Sized(s) && Sized(s1) && OwnedOk(s) && OwnedOk(s1) && Extends(s.own, s1.own)
    requires SameView(s, s1.mem) && SameView(s1, m)
    ensures SameView(s, m)
  {
    forall g, path | g in s.own && |s.own[g].path| + |path| == 4 && ValidPath(path)
      ensures Lookup(m, g, path) == Lookup(s.mem, g, path)
    {
      assert Lookup(m, g, path) == Lookup(s1.mem, g, path);
    }
  }

  /** Links already in place stay in place. */
  lemma {:induction false} DescendKeepsNext(s: Sys, f: nat, path: seq<nat>, roots: seq<nat>, g: nat, i: nat)
    requires Descendable(s, f, path, roots) && Enough(s, f, path)
    requires g in s.own && |s.own[g].path| < 3 && i < 512 && Next(s.mem, g, i) != 0
    ensures Next(Descend(s, f, path).0.mem, g, i) == Next(s.mem, g, i)
    decreases |path|
  {
    if path == [] {
    } else {
      var (s1, n) := Grow(s, f, path[0]);
      GrowStep(s, f, path, roots);
      GrowKeepsNext(s, f, path[0], roots, g, i);
      DescendKeepsNext(s1, n, path[1..], roots, g, i);
    }
  }

  lemma GrowKeepsNext(s: Sys, f: nat, i: nat, roots: seq<nat>, g: nat, j: nat)
    requires Inv(s, roots) && f in s.own && |s.own[f].path| < 3 && i < 512
    requires Next(s.mem, f, i) != 0 || FreeSet(s.pool) != {}
    requires g in s.own && |s.own[g].path| < 3 && j < 512 && Next(s.mem, g, j) != 0
    ensures Next(Grow(s, f, i).0.mem, g, j) == Next(s.mem, g, j)
  {
    GrowOk(s, f, i, roots);
  }
}
