/** What a descent does when the allocator runs dry: it ends at frame 0, leaves a dead link behind,
    and disturbs no table. */
module Exhaustion {
  import opened Bits
  import opened Descriptors
  import opened Tables
  import opened Trees
  import opened TreeShape

  /** `m` leads every owned table where `s` leads it. */
  ghost predicate Undisturbed(s: Sys, m: seq<u64>)
  {
    forall g, j: nat :: g in s.own && j < 512 ==>
      Next(m, g, j) == Next(s.mem, g, j) && (|s.own[g].path| == 3 ==> Read(m, g, j) == Read(s.mem, g, j))
  }

  lemma {:induction false} UndisturbedLookup(s: Sys, m: seq<u64>, roots: seq<nat>, g: nat, path: seq<nat>)
    requires Inv(s, roots) && Undisturbed(s, m)
    requires g in s.own && |s.own[g].path| + |path| == 4 && ValidPath(path)
    ensures Lookup(m, g, path) == Lookup(s.mem, g, path)
    decreases |path|
  {
    if |path| == 1 {
    } else {
      assert EntryOk(s, g, path[0]);
      EntryFacts(s, g, path[0]);
      AppendPath(s.own[g].path, path);
      var n := Next(s.mem, g, path[0]);
      if n != 0 { UndisturbedLookup(s, m, roots, n, path[1..]); }
    }
  }

  lemma UndisturbedView(s: Sys, m: seq<u64>, roots: seq<nat>)
    requires Inv(s, roots) && Undisturbed(s, m)
    ensures SameView(s, m)
  {
    forall g, path | g in s.own && |s.own[g].path| + |path| == 4 && ValidPath(path)
      ensures Lookup(m, g, path) == Lookup(s.mem, g, path)
    {
      UndisturbedLookup(s, m, roots, g, path);
    }
  }

  lemma {:induction false} UndisturbedWalk(s: Sys, m: seq<u64>, roots: seq<nat>, g: nat, path: seq<nat>)
    requires Descendable(s, g, path, roots) && Undisturbed(s, m)
    ensures Walk(m, g, path) == Walk(s.mem, g, path) && Missing(m, g, path) == Missing(s.mem, g, path)
    decreases |path|
  {
    if path == [] {
    } else {
      assert EntryOk(s, g, path[0]);
      EntryFacts(s, g, path[0]);
      AppendPath(s.own[g].path, path);
      var n := Next(s.mem, g, path[0]);
      if n != 0 { UndisturbedWalk(s, m, roots, n, path[1..]); }
    }
  }

  // ----- dead links -----

  /** The word a failed allocation leaves: present, but leading to frame 0. */
  lemma DeadLink()
    ensures Link(0) == 3 && IsTable(3) && FrameOf(3) == 0
  {}

  /** Entry `j` of table `g` is the same in both, or absent in `b` and dead in `t`. */
  ghost predicate EntryShadows(b: Sys, t: Sys, g: nat, j: nat)
    requires g in b.own
  {
    || Read(t.mem, g, j) == Read(b.mem, g, j)
    || (|b.own[g].path| < 3 && Read(b.mem, g, j) == 0 && Read(t.mem, g, j) == Link(0))
  }

  /** `t` is `b` with dead links in some absent entries of inner tables, and with anything at all
      outside the tables. */
  ghost predicate Shadows(b: Sys, t: Sys)
  {
    && t.own == b.own && t.pool == b.pool && |t.mem| == |b.mem|
    && forall g, j: nat :: g in b.own && j < 512 ==> EntryShadows(b, t, g, j)
  }

  lemma ShadowIsUndisturbed(b: Sys, t: Sys)
    requires Shadows(b, t)
    ensures Undisturbed(b, t.mem)
  {
    DeadLink();
    forall g, j: nat | g in b.own && j < 512
      ensures Next(t.mem, g, j) == Next(b.mem, g, j)
      ensures |b.own[g].path| == 3 ==> Read(t.mem, g, j) == Read(b.mem, g, j)
    {
      assert EntryShadows(b, t, g, j);
    }
  }

  /** The walk along `path` meets a dead link. */
  predicate MeetsDead(m: seq<u64>, f: nat, path: seq<nat>)
    decreases |path|
  {
    path != [] &&
    (Read(m, f, path[0]) == Link(0) ||
     (Next(m, f, path[0]) != 0 && MeetsDead(m, Next(m, f, path[0]), path[1..])))
  }

  /** In well-formed trees there is none. */
  lemma {:induction false} NoneDead(s: Sys, f: nat, path: seq<nat>, roots: seq<nat>)
    requires Descendable(s, f, path, roots)
    ensures !MeetsDead(s.mem, f, path)
    decreases |path|
  {
    if path == [] {
    } else {
      DeadLink();
      assert EntryOk(s, f, path[0]);
      EntryFacts(s, f, path[0]);
      AppendPath(s.own[f].path, path);
      var n := Next(s.mem, f, path[0]);
      if n != 0 { NoneDead(s, n, path[1..], roots); }
    }
  }

  /** Table `n` has no entry. */
  ghost predicate Empty(m: seq<u64>, n: nat)
  {
    forall j: nat :: j < 512 ==> Read(m, n, j) == 0
  }

  lemma EmptyIsAlive(m: seq<u64>, n: nat, path: seq<nat>)
    requires ValidPath(path) && Empty(m, n)
    ensures !MeetsDead(m, n, path)
  {}

  // ----- descents that find their frames -----

  /** One level: a table is found, or built, in both alike. */
  lemma GrowTogether(b: Sys, t: Sys, f: nat, i: nat, roots: seq<nat>)
    requires Inv(b, roots) && Shadows(b, t) && f in b.own && |b.own[f].path| < 3 && i < 512
    requires Read(t.mem, f, i) != Link(0)
    requires Next(b.mem, f, i) != 0 || FreeSet(b.pool) != {}
    ensures Sized(t)
    ensures var ((b', n), (t', k)) := (Grow(b, f, i), Grow(t, f, i));
      n == k && Shadows(b', t') && if Next(b.mem, f, i) != 0 then t' == t else Empty(t'.mem, n)
  {
    assert EntryShadows(b, t, f, i);
    assert EntryOk(b, f, i);
    EntryFacts(b, f, i);
    if Next(b.mem, f, i) == 0 {
      NewFrameIsFree(b);
      BuiltTogether(b, t, f, i, NewFrame(b), roots);
    }
  }

  lemma BuiltTogether(b: Sys, t: Sys, f: nat, i: nat, n: nat, roots: seq<nat>)
    requires Sized(b) && Sized(t) && Shadows(b, t) && f in b.own && i < 512 && n == NewFrame(b) != 0 && n !in b.own
    requires Read(t.mem, f, i) == Read(b.mem, f, i) == 0
    ensures Grow(t, f, i).1 == Grow(b, f, i).1 == n && Shadows(Grow(b, f, i).0, Grow(t, f, i).0)
    ensures Empty(Grow(t, f, i).0.mem, n)
  {
    var (b', t') := (Grow(b, f, i).0, Grow(t, f, i).0);
    LinkReads(n);
    forall g, j: nat | g in b'.own && j < 512
      ensures EntryShadows(b', t', g, j) && (g == n ==> Read(t'.mem, n, j) == 0)
    {
      ReadPut(Zero(b.mem, n), f, i, Link(n), g, j);
      ReadZero(b.mem, n, g, j);
      ReadPut(Zero(t.mem, n), f, i, Link(n), g, j);
      ReadZero(t.mem, n, g, j);
      if g != n { assert EntryShadows(b, t, g, j); }
    }
  }

  /** One level of a descent that meets no dead link. */
  lemma AliveStep(b: Sys, t: Sys, f: nat, path: seq<nat>, roots: seq<nat>)
    requires Descendable(b, f, path, roots) && path != [] && Shadows(b, t) && !MeetsDead(t.mem, f, path)
    requires Next(b.mem, f, path[0]) != 0 || FreeSet(b.pool) != {}
    ensures Sized(t)
    ensures var ((b1, n), (t1, k)) := (Grow(b, f, path[0]), Grow(t, f, path[0]));
      && n == k && Descendable(b1, n, path[1..], roots) && Shadows(b1, t1) && !MeetsDead(t1.mem, n, path[1..])
      && Extends(b.own, b1.own) && SameView(b, b1.mem)
      && (Enough(b1, n, path[1..]) <==> Enough(b, f, path))
  {
    GrowTogether(b, t, f, path[0], roots);
    GrowOk(b, f, path[0], roots);
    AppendPath(b.own[f].path, path);
    ShadowIsUndisturbed(b, t);
    if Next(b.mem, f, path[0]) == 0 {
      var ((b1, n), t1) := (Grow(b, f, path[0]), Grow(t, f, path[0]).0);
      EmptyIsAlive(t1.mem, n, path[1..]);
      EmptyIsMissing(b1.mem, n, path[1..]);
    }
  }

  /** With enough frames both descents end at the same table. */
  lemma {:induction false} DescendTogether(b: Sys, t: Sys, f: nat, path: seq<nat>, roots: seq<nat>)
    requires Descendable(b, f, path, roots) && Shadows(b, t) && !MeetsDead(t.mem, f, path) && Enough(b, f, path)
    ensures Sized(t) && Descend(t, f, path).1 == Descend(b, f, path).1
    ensures Shadows(Descend(b, f, path).0, Descend(t, f, path).0)
    decreases |path|
  {
    if path == [] {
    } else {
      var ((b1, n), t1) := (Grow(b, f, path[0]), Grow(t, f, path[0]).0);
      AliveStep(b, t, f, path, roots);
      hide Shadows, Inv, Grow, SameView, Extends;
      DescendTogether(b1, t1, n, path[1..], roots);
    }
  }

  // ----- descents that do not -----

  /** Frame 0, used as a table, leads nowhere. */
  ghost predicate DeadEnd(m: seq<u64>)
  {
    forall j: nat :: j < 512 ==> Next(m, 0, j) == 0
  }

  /** A failed level: at an inner table whose entry is absent, or at frame 0. */
  lemma FailedGrow(b: Sys, t: Sys, f: nat, i: nat)
    requires Sized(b) && FreeOk(b) && FreeSet(b.pool) == {} && Shadows(b, t) && 0 !in b.own && i < 512
    requires if f == 0 then DeadEnd(t.mem)
             else f in b.own && |b.own[f].path| < 3 && Read(b.mem, f, i) == Read(t.mem, f, i) == 0
                  && 512 * f + 512 <= |t.mem|
    ensures Sized(t)
    ensures var (t', n) := Grow(t, f, i);
      && n == 0 && Shadows(b, t') && DeadEnd(t'.mem)
      && forall g, j: nat :: g in b.own && j < 512 ==>
           Read(t'.mem, g, j) == if g == f && j == i then Link(0) else Read(t.mem, g, j)
  {
    NewFrameIsFree(b);
    DeadLink();
    var t' := Grow(t, f, i).0;
    assert f == 0 ==> Next(t.mem, f, i) == 0;
    if !IsTable(Read(t.mem, f, i)) {
      forall g: nat, j: nat | (g in b.own || g == 0) && j < 512
        ensures Read(t'.mem, g, j) ==
                if g == f && j == i && 512 * f + i < |t.mem| then 3 else if g == 0 then 0 else Read(t.mem, g, j)
      {
        ReadPut(Zero(t.mem, 0), f, i, Link(0), g, j);
        ReadZero(t.mem, 0, g, j);
      }
      forall g, j: nat | g in b.own && j < 512 ensures EntryShadows(b, t', g, j) {
        assert EntryShadows(b, t, g, j);
      }
    }
  }

  /** Once at frame 0, the descent stays there. */
  lemma {:induction false} StuckAtZero(b: Sys, t: Sys, path: seq<nat>)
    requires Sized(b) && FreeOk(b) && FreeSet(b.pool) == {} && Shadows(b, t) && 0 !in b.own
    requires ValidPath(path) && DeadEnd(t.mem)
    ensures Sized(t)
    ensures Descend(t, 0, path).1 == 0 && Shadows(b, Descend(t, 0, path).0)
    ensures forall g, j: nat :: g in b.own && j < 512 ==>
              Read(Descend(t, 0, path).0.mem, g, j) == Read(t.mem, g, j)
    decreases |path|
  {
    if path == [] {
    } else {
      FailedGrow(b, t, 0, path[0]);
      StuckAtZero(b, Grow(t, 0, path[0]).0, path[1..]);
    }
  }

  /** The well-formed part of what a descent does: it grows as long as there are frames. */
  ghost function Settle(s: Sys, f: nat, path: seq<nat>): (s': Sys)
    requires Sized(s)
    ensures Sized(s')
    decreases |path|
  {
    if path == [] || (Next(s.mem, f, path[0]) == 0 && FreeSet(s.pool) == {}) then s
    else
      var (s1, n) := Grow(s, f, path[0]);
      Settle(s1, n, path[1..])
  }

  lemma {:induction false} SettleOk(s: Sys, f: nat, path: seq<nat>, roots: seq<nat>)
    requires Descendable(s, f, path, roots)
    ensures var s' := Settle(s, f, path);
      Inv(s', roots) && Extends(s.own, s'.own) && SameView(s, s'.mem)
    decreases |path|
  {
    if path == [] || (Next(s.mem, f, path[0]) == 0 && FreeSet(s.pool) == {}) {
    } else {
      var (s1, n) := Grow(s, f, path[0]);
      GrowOk(s, f, path[0], roots);
      AppendPath(s.own[f].path, path);
      SettleOk(s1, n, path[1..], roots);
      SameViewTrans(s, s1, Settle(s1, n, path[1..]).mem);
    }
  }

  /** A descent that meets no dead link but lacks frames ends at frame 0.  What it leaves is the
      settled trees with one more dead link. */
  lemma {:induction false} DescendFails(b: Sys, t: Sys, f: nat, path: seq<nat>, roots: seq<nat>)
    requires Descendable(b, f, path, roots) && Shadows(b, t) && !MeetsDead(t.mem, f, path) && !Enough(b, f, path)
    ensures Sized(t)
    ensures Descend(t, f, path).1 == 0 && Shadows(Settle(b, f, path), Descend(t, f, path).0)
    decreases |path|
  {
    var ((b1, n), t1) := (Grow(b, f, path[0]), Grow(t, f, path[0]).0);
    if Next(b.mem, f, path[0]) == 0 && FreeSet(b.pool) == {} {
      assert EntryOk(b, f, path[0]) && EntryShadows(b, t, f, path[0]);
      EntryFacts(b, f, path[0]);
      FailedGrow(b, t, f, path[0]);
      StuckAtZero(b, t1, path[1..]);
    } else {
      AliveStep(b, t, f, path, roots);
      hide Shadows, Inv, Grow, SameView, Extends;
      DescendFails(b1, t1, n, path[1..], roots);
    }
  }

  /** Stores outside the tables leave a shadow a shadow. */
  lemma PutOutside(b: Sys, t: Sys, f: nat, i: nat, w: u64)
    requires Shadows(b, t) && f !in b.own && i < 512
    ensures Shadows(b, PutLeaf(t, f, i, w))
  {
    forall g, j: nat | g in b.own && j < 512 ensures EntryShadows(b, PutLeaf(t, f, i, w), g, j) {
      ReadPut(t.mem, f, i, w, g, j);
      assert EntryShadows(b, t, g, j);
    }
  }

  /** Stores into a table of the last level do so too, when both make them. */
  lemma PutTogether(b: Sys, t: Sys, f: nat, i: nat, w: u64)
    requires Shadows(b, t) && i < 512
    ensures Shadows(PutLeaf(b, f, i, w), PutLeaf(t, f, i, w))
  {
    forall g, j: nat | g in b.own && j < 512
      ensures EntryShadows(PutLeaf(b, f, i, w), PutLeaf(t, f, i, w), g, j)
    {
      ReadPut(b.mem, f, i, w, g, j);
      ReadPut(t.mem, f, i, w, g, j);
      assert EntryShadows(b, t, g, j);
    }
  }

  lemma {:induction false} MissingMeansAbsent(m: seq<u64>, f: nat, path: seq<nat>)
    requires Missing(m, f, path) > 0
    ensures Walk(m, f, path) == 0
    decreases |path|
  {
    if Next(m, f, path[0]) == 0 {
    } else {
      MissingMeansAbsent(m, Next(m, f, path[0]), path[1..]);
    }
  }

  // ----- every table on the way is memory -----

  lemma {:induction false} WalkStaysInMemory(b: Sys, m: seq<u64>, roots: seq<nat>, f: nat, path: seq<nat>)
    requires Descendable(b, f, path, roots) && Undisturbed(b, m) && |m| == |b.mem|
    ensures WalkInMemory(m, f, path)
    decreases |path|
  {
    if path == [] {
    } else {
      assert EntryOk(b, f, path[0]);
      EntryFacts(b, f, path[0]);
      AppendPath(b.own[f].path, path);
      if Next(m, f, path[0]) != 0 { WalkStaysInMemory(b, m, roots, Next(m, f, path[0]), path[1..]); }
    }
  }

  lemma {:induction false} StuckInMemory(b: Sys, t: Sys, path: seq<nat>)
    requires Sized(b) && FreeOk(b) && FreeSet(b.pool) == {} && Shadows(b, t) && 0 !in b.own
    requires ValidPath(path) && DeadEnd(t.mem) && |t.mem| >= 512
    ensures Sized(t) && DescentInMemory(true, t, 0, path)
    decreases |path|
  {
    if path == [] {
    } else {
      FailedGrow(b, t, 0, path[0]);
      StuckInMemory(b, Grow(t, 0, path[0]).0, path[1..]);
    }
  }

  lemma {:induction false} DescentStaysInMemory(b: Sys, t: Sys, f: nat, path: seq<nat>, roots: seq<nat>)
    requires Descendable(b, f, path, roots) && Shadows(b, t) && !MeetsDead(t.mem, f, path)
    ensures Sized(t) && DescentInMemory(true, t, f, path)
    decreases |path|
  {
    if path == [] {
    } else if Next(b.mem, f, path[0]) == 0 && FreeSet(b.pool) == {} {
      assert EntryOk(b, f, path[0]) && EntryShadows(b, t, f, path[0]);
      EntryFacts(b, f, path[0]);
      FailedGrow(b, t, f, path[0]);
      StuckInMemory(b, Grow(t, f, path[0]).0, path[1..]);
    } else {
      AliveStep(b, t, f, path, roots);
      DescentStaysInMemory(Grow(b, f, path[0]).0, Grow(t, f, path[0]).0, Grow(b, f, path[0]).1, path[1..], roots);
    }
  }

  // ----- descents stopped by an earlier failure -----

  /** The first dead link on the path is in its last table. */
  predicate DeadLast(m: seq<u64>, f: nat, path: seq<nat>)
  {
    path != [] && MeetsDead(m, f, path) && !MeetsDead(m, f, path[..|path| - 1])
  }

  lemma DeadLastStep(m: seq<u64>, f: nat, path: seq<nat>)
    requires DeadLast(m, f, path)
    ensures if |path| == 1 then Read(m, f, path[0]) == Link(0)
            else Next(m, f, path[0]) != 0 && DeadLast(m, Next(m, f, path[0]), path[1..])
  {
    if |path| == 1 {
      assert path[1..] == [] && !MeetsDead(m, Next(m, f, path[0]), path[1..]);
    } else {
      assert path[..|path| - 1][1..] == path[1..][..|path| - 2];
    }
  }

  /** Then the descent finds every table on the way and ends at frame 0 without a write. */
  lemma {:induction false} DescendStops(t: Sys, f: nat, path: seq<nat>)
    requires Sized(t) && DeadLast(t.mem, f, path)
    ensures Descend(t, f, path) == (t, 0) && Walk(t.mem, f, path) == 0
    decreases |path|
  {
    DeadLink();
    DeadLastStep(t.mem, f, path);
    if |path| == 1 {
      assert path[1..] == [];
    } else {
      DescendStops(t, Next(t.mem, f, path[0]), path[1..]);
    }
  }

  lemma {:induction false} StopInMemory(t: Sys, f: nat, path: seq<nat>)
    requires Sized(t) && DeadLast(t.mem, f, path) && WalkInMemory(t.mem, f, path) && |t.mem| >= 512
    ensures DescentInMemory(true, t, f, path)
    decreases |path|
  {
    DeadLink();
    DeadLastStep(t.mem, f, path);
    if |path| == 1 {
      assert path[1..] == [];
      assert GrowBy(true, t, f, path[0]) == (t, 0);
    } else {
      StopInMemory(t, Next(t.mem, f, path[0]), path[1..]);
    }
  }

  lemma {:induction false} PrefixIsAlive(m: seq<u64>, f: nat, path: seq<nat>, k: nat)
    requires k <= |path| && !MeetsDead(m, f, path)
    ensures !MeetsDead(m, f, path[..k])
    decreases |path|
  {
    if k == 0 {
    } else {
      assert path[..k][1..] == path[1..][..k - 1];
      if Next(m, f, path[0]) != 0 { PrefixIsAlive(m, Next(m, f, path[0]), path[1..], k - 1); }
    }
  }
}
