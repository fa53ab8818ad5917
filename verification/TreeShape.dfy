/** The owned tables are exactly the tables the walk reaches, each by one root and one path. */
module TreeShape {
  import opened Bits
  import Descriptors
  import opened Tables
  import opened Trees

  /** A walk from an owned table only ever reaches the owner of the path it followed. */
  lemma {:induction false} WalkIsOwned(s: Sys, roots: seq<nat>, g: nat, path: seq<nat>)
    requires Descendable(s, g, path, roots)
    ensures var n := Walk(s.mem, g, path);
      n != 0 ==> n in s.own && s.own[n] == Node(s.own[g].root, s.own[g].path + path)
    decreases |path|
  {
    if path == [] {
      assert s.own[g].path + path == s.own[g].path;
    } else {
      assert EntryOk(s, g, path[0]);
      EntryFacts(s, g, path[0]);
      AppendPath(s.own[g].path, path);
      if Next(s.mem, g, path[0]) != 0 { WalkIsOwned(s, roots, Next(s.mem, g, path[0]), path[1..]); }
    }
  }

  lemma {:induction false} WalkLast(m: seq<u64>, g: nat, path: seq<nat>, i: nat)
    requires g != 0
    ensures Walk(m, g, path + [i]) ==
            var n := Walk(m, g, path); if n == 0 then 0 else Next(m, n, i)
    decreases |path|
  {
    if path == [] {
      assert (path + [i])[1..] == [];
    } else {
      assert (path + [i])[1..] == path[1..] + [i];
      var n := Next(m, g, path[0]);
      if n != 0 { WalkLast(m, n, path[1..], i); }
    }
  }

  lemma ParentLeads(s: Sys, p: nat, f: nat)
    requires Sized(s) && OwnedOk(s) && f in s.own && s.own[f].path != [] && Parent(s, p, f)
    ensures p != 0 && f != 0 && Next(s.mem, p, s.own[f].path[|s.own[f].path| - 1]) == f
  {
    Descriptors.LinkReads(f);
  }

  /** Every owned table is reached by its own path. */
  lemma {:induction false} OwnedIsWalked(s: Sys, roots: seq<nat>, f: nat)
    requires Inv(s, roots) && f in s.own
    ensures Walk(s.mem, roots[s.own[f].root], s.own[f].path) == f
    decreases |s.own[f].path|
  {
    var node := s.own[f];
    if node.path == [] {
    } else {
      var p :| Parent(s, p, f);
      var last := |node.path| - 1;
      OwnedIsWalked(s, roots, p);
      assert roots[node.root] in s.own;
      ParentLeads(s, p, f);
      hide Inv, Parent, Walk, Next;
      WalkLast(s.mem, roots[node.root], node.path[..last], node.path[last]);
      assert node.path[..last] + [node.path[last]] == node.path;
    }
  }

  /** A frame is reached by a root and a path exactly when it is the table owned there. */
  lemma TablesFormTrees(s: Sys, roots: seq<nat>, r: nat, path: seq<nat>, f: nat)
    requires Inv(s, roots) && r < 2 && |path| <= 3 && ValidPath(path) && f != 0
    ensures Walk(s.mem, roots[r], path) == f <==> f in s.own && s.own[f] == Node(r, path)
  {
    WalkFromRoot(s, roots, r, path);
    if f in s.own && s.own[f] == Node(r, path) { OwnedIsWalked(s, roots, f); }
  }

  lemma WalkFromRoot(s: Sys, roots: seq<nat>, r: nat, path: seq<nat>)
    requires Inv(s, roots) && r < 2 && |path| <= 3 && ValidPath(path)
    ensures var n := Walk(s.mem, roots[r], path); n != 0 ==> n in s.own && s.own[n] == Node(r, path)
  {
    assert roots[r] in s.own && s.own[roots[r]] == Node(r, []) && [] + path == path;
    hide InnerOk, Linked, FreeOk, OwnedOk, Walk;
    WalkIsOwned(s, roots, roots[r], path);
  }

  /** No table frame is shared between two places: not between the two roots, not between two
      paths, and not between two levels, so there is no cycle. */
  lemma NoSharing(s: Sys, roots: seq<nat>, r: nat, path: seq<nat>, r': nat, path': seq<nat>)
    requires Inv(s, roots) && r < 2 && |path| <= 3 && ValidPath(path)
    requires r' < 2 && |path'| <= 3 && ValidPath(path')
    requires Walk(s.mem, roots[r], path) == Walk(s.mem, roots[r'], path') != 0
    ensures r == r' && path == path'
  {
    var f := Walk(s.mem, roots[r], path);
    TablesFormTrees(s, roots, r, path, f);
    TablesFormTrees(s, roots, r', path', f);
  }

  /** No table is a free frame. */
  lemma TablesAreNotFree(s: Sys, roots: seq<nat>, r: nat, path: seq<nat>)
    requires Inv(s, roots) && r < 2 && |path| <= 3 && ValidPath(path)
    ensures Walk(s.mem, roots[r], path) !in FreeSet(s.pool)
  {
    var f := Walk(s.mem, roots[r], path);
    if f != 0 { TablesFormTrees(s, roots, r, path, f); }
  }

  // ----- writing a leaf -----

  function PutLeaf(s: Sys, f: nat, i: nat, w: u64): Sys
  {
    s.(mem := Put(s.mem, f, i, w))
  }

  lemma PutLeafReads(s: Sys, f: nat, i: nat, w: u64, g: nat, j: nat)
    requires Sized(s) && OwnedOk(s) && f in s.own && i < 512 && j < 512
    ensures Read(PutLeaf(s, f, i, w).mem, g, j) == if g == f && j == i then w else Read(s.mem, g, j)
  {
    ReadPut(s.mem, f, i, w, g, j);
  }

  lemma PutLeafKeepsInv(s: Sys, f: nat, i: nat, w: u64, roots: seq<nat>)
    requires Inv(s, roots) && f in s.own && |s.own[f].path| == 3 && i < 512
    ensures Inv(PutLeaf(s, f, i, w), roots)
  {
    var s' := PutLeaf(s, f, i, w);
    forall g, j: nat | g in s.own && |s.own[g].path| < 3 && j < 512 ensures EntryOk(s', g, j) {
      assert EntryOk(s, g, j);
      PutLeafReads(s, f, i, w, g, j);
    }
    forall g | g in s.own && s.own[g].path != [] ensures exists p :: Parent(s', p, g) {
      var p :| Parent(s, p, g);
      PutLeafReads(s, f, i, w, p, s.own[g].path[|s.own[g].path| - 1]);
      assert Parent(s', p, g);
    }
  }

  lemma {:induction false} PutLeafKeepsWalk(s: Sys, f: nat, i: nat, w: u64, roots: seq<nat>, g: nat, path: seq<nat>)
    requires Descendable(s, g, path, roots) && f in s.own && |s.own[f].path| == 3 && i < 512
    ensures Walk(PutLeaf(s, f, i, w).mem, g, path) == Walk(s.mem, g, path)
    decreases |path|
  {
    if path == [] {
    } else {
      PutLeafReads(s, f, i, w, g, path[0]);
      assert EntryOk(s, g, path[0]);
      EntryFacts(s, g, path[0]);
      AppendPath(s.own[g].path, path);
      var n := Next(s.mem, g, path[0]);
      if n != 0 { PutLeafKeepsWalk(s, f, i, w, roots, n, path[1..]); }
    }
  }

  lemma {:induction false} LookupIsWalk(m: seq<u64>, f: nat, path: seq<nat>, i: nat)
    requires f != 0
    ensures Lookup(m, f, path + [i]) == var n := Walk(m, f, path); if n == 0 then 0 else Read(m, n, i)
    decreases |path|
  {
    if path == [] {
      assert path + [i] == [i];
    } else {
      assert (path + [i])[1..] == path[1..] + [i];
      var n := Next(m, f, path[0]);
      if n != 0 { LookupIsWalk(m, n, path[1..], i); }
    }
  }

  /** A leaf write changes the lookup of exactly one place. */
  lemma PutLeafLookup(s: Sys, f: nat, i: nat, w: u64, roots: seq<nat>, r: nat, path: seq<nat>, j: nat)
    requires Inv(s, roots) && f in s.own && |s.own[f].path| == 3 && i < 512
    requires r < 2 && |path| == 3 && ValidPath(path) && j < 512
    ensures Lookup(PutLeaf(s, f, i, w).mem, roots[r], path + [j]) ==
            if s.own[f] == Node(r, path) && j == i then w else Lookup(s.mem, roots[r], path + [j])
  {
    var g := roots[r];
    assert g in s.own && [] + path == path;
    PutLeafKeepsWalk(s, f, i, w, roots, g, path);
    LookupIsWalk(s.mem, g, path, j);
    LookupIsWalk(PutLeaf(s, f, i, w).mem, g, path, j);
    var n := Walk(s.mem, g, path);
    TablesFormTrees(s, roots, r, path, f);
    if n != 0 {
      PutLeafReads(s, f, i, w, n, j);
    }
  }
}
