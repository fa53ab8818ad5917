/** Runs of the frame allocator: allocations followed by their commit, and matching frees. */
module Allocations {
  import opened Pool

  /** An allocation somebody holds. */
  datatype Run = Run(start: nat, frames: nat)

  predicate Covers(r: Run, f: nat)
  {
    r.start <= f < r.start + r.frames
  }

  datatype State = State(pool: Pool, live: seq<Run>)

  datatype Op = Alloc(frames: nat) | Free(which: nat)

  /** Allocate and commit, or free the `which`-th live allocation. */
  ghost function Step(s: State, op: Op): State
    requires s.pool.limit <= |s.pool.bits|
    ensures Step(s, op).pool.limit <= |Step(s, op).pool.bits|
  {
    match op
    case Alloc(n) =>
      var b := Search(s.pool, n);
      if b == 0 then s else State(Commit(s.pool, b, n), s.live + [Run(b, n)])
    case Free(k) =>
      if k >= |s.live| then s
      else State(Release(s.pool, s.live[k].start, s.live[k].frames), s.live[..k] + s.live[k + 1..])
  }

  ghost function Steps(s: State, ops: seq<Op>): State
    requires s.pool.limit <= |s.pool.bits|
    decreases |ops|
  {
    if ops == [] then s else Steps(Step(s, ops[0]), ops[1..])
  }

  /** No frame belongs to two live allocations. */
  ghost predicate Disjoint(live: seq<Run>)
  {
    forall i, j, f: nat :: 0 <= i < j < |live| && Covers(live[i], f) ==> !Covers(live[j], f)
  }

  /** Live allocations hold only managed frames, and those are marked used. */
  ghost predicate Held(s: State, managed: set<nat>)
  {
    forall i, f: nat :: 0 <= i < |s.live| && Covers(s.live[i], f) ==>
      f in managed && f < |s.pool.bits| && s.pool.bits[f]
  }

  /** A managed frame that is marked used is held, and only managed frames are free. */
  ghost predicate Complete(s: State, managed: set<nat>)
  {
    && (forall f :: f in managed && f < |s.pool.bits| && s.pool.bits[f] ==>
          exists i :: 0 <= i < |s.live| && Covers(s.live[i], f))
    && (forall f: nat :: f < |s.pool.bits| && !s.pool.bits[f] ==> f in managed)
  }

  /** The frames `managed` are exactly the free ones and the live allocations, without overlap. */
  ghost predicate Accounted(s: State, managed: set<nat>)
  {
    && s.pool.limit <= |s.pool.bits|
    && (forall f :: f in managed ==> 0 < f && s.pool.hint <= f < |s.pool.bits|)
    && Disjoint(s.live)
    && Held(s, managed)
    && Complete(s, managed)
  }

  lemma AccountedIsSound(s: State, managed: set<nat>)
    requires Accounted(s, managed)
    ensures Sound(s.pool)
  {}

  /** One more allocation. */
  function Added(s: State, r: Run): State
  {
    State(Commit(s.pool, r.start, r.frames), s.live + [r])
  }

  lemma AddedDisjoint(s: State, r: Run, managed: set<nat>)
    requires Accounted(s, managed) && RunFree(s.pool, r.start, r.frames)
    ensures Disjoint(Added(s, r).live)
  {
    hide Complete;
    var live := Added(s, r).live;
    assert forall i :: 0 <= i < |s.live| ==> live[i] == s.live[i];
    forall f: nat | Covers(r, f) ensures f < |s.pool.bits| && !s.pool.bits[f] {}
    forall i, j, f: nat | 0 <= i < j < |live| && Covers(live[i], f) ensures !Covers(live[j], f) {
      assert Covers(s.live[i], f);
      if j < |s.live| { assert !Covers(s.live[j], f); }
    }
  }

  lemma AddedHeld(s: State, r: Run, managed: set<nat>)
    requires Accounted(s, managed) && RunFree(s.pool, r.start, r.frames)
    ensures Held(Added(s, r), managed)
  {
    var s' := Added(s, r);
    forall i, f: nat | 0 <= i < |s'.live| && Covers(s'.live[i], f)
      ensures f in managed && f < |s'.pool.bits| && s'.pool.bits[f]
    {
      if i < |s.live| { assert s'.live[i] == s.live[i]; } else { assert !s.pool.bits[f]; }
    }
  }

  lemma AddedComplete(s: State, r: Run, managed: set<nat>)
    requires Accounted(s, managed)
    ensures Complete(Added(s, r), managed)
  {
    var s' := Added(s, r);
    forall f | f in managed && f < |s'.pool.bits| && s'.pool.bits[f]
      ensures exists i :: 0 <= i < |s'.live| && Covers(s'.live[i], f)
    {
      if s.pool.bits[f] {
        var i :| 0 <= i < |s.live| && Covers(s.live[i], f);
        assert Covers(s'.live[i], f);
      } else {
        assert Covers(s'.live[|s.live|], f);
      }
    }
  }

  lemma AllocStep(s: State, n: nat, managed: set<nat>)
    requires Accounted(s, managed)
    ensures Accounted(Step(s, Alloc(n)), managed)
  {
    var b := Search(s.pool, n);
    if b != 0 {
      AccountedIsSound(s, managed);
      HintIsHarmless(s.pool, n);
      assert RunFree(s.pool, b, n);
      hide Search, RunFree, Disjoint, Held, Complete;
      AddedDisjoint(s, Run(b, n), managed);
      AddedHeld(s, Run(b, n), managed);
      AddedComplete(s, Run(b, n), managed);
    }
  }

  /** The place in `live` of the `i`-th entry that is left after dropping the `k`-th. */
  function Kept(k: nat, i: nat): nat
  {
    if i < k then i else i + 1
  }

  lemma FreeStep(s: State, k: nat, managed: set<nat>)
    requires Accounted(s, managed) && k < |s.live|
    ensures Accounted(Step(s, Free(k)), managed)
  {
    var s' := Step(s, Free(k));
    assert forall i :: 0 <= i < |s'.live| ==> s'.live[i] == s.live[Kept(k, i)] && Kept(k, i) != k;
    assert Disjoint(s'.live);
    FreeHeld(s, k, managed);
    FreeComplete(s, k, managed);
  }

  lemma FreeHeld(s: State, k: nat, managed: set<nat>)
    requires Accounted(s, managed) && k < |s.live|
    ensures Held(Step(s, Free(k)), managed)
  {
    var s' := Step(s, Free(k));
    forall i, f: nat | 0 <= i < |s'.live| && Covers(s'.live[i], f)
      ensures f in managed && f < |s'.pool.bits| && s'.pool.bits[f]
    {
      var j := Kept(k, i);
      assert s'.live[i] == s.live[j] && j != k;
      assert !Covers(s.live[k], f);
    }
  }

  lemma FreeComplete(s: State, k: nat, managed: set<nat>)
    requires Accounted(s, managed) && k < |s.live|
    ensures Complete(Step(s, Free(k)), managed)
  {
    var (r, s') := (s.live[k], Step(s, Free(k)));
    forall f | f in managed && f < |s'.pool.bits| && s'.pool.bits[f]
      ensures exists i :: 0 <= i < |s'.live| && Covers(s'.live[i], f)
    {
      var i :| 0 <= i < |s.live| && Covers(s.live[i], f);
      assert i != k;
      assert s'.live[if i < k then i else i - 1] == s.live[i];
    }
    forall f: nat | f < |s'.pool.bits| && !s'.pool.bits[f] ensures f in managed {
      assert Covers(r, f) ==> f in managed;
    }
  }

  /** Over every run of allocations with commit and of matching frees: live allocations are
      pairwise disjoint and inside the managed frames, and free plus live is always all of them. */
  lemma {:induction false} EveryRunIsAccounted(s: State, ops: seq<Op>, managed: set<nat>)
    requires Accounted(s, managed)
    ensures Accounted(Steps(s, ops), managed)
    decreases |ops|
  {
    if ops == [] {
    } else {
      match ops[0] {
        case Alloc(n) => AllocStep(s, n, managed);
        case Free(k) => if k < |s.live| { FreeStep(s, k, managed); }
      }
      EveryRunIsAccounted(Step(s, ops[0]), ops[1..], managed);
    }
  }
}
