/** From the memory map to the running kernel: what `init_bitmap` sets up is what every later run
    stays within. */
module Boot {
  import A = Allocations
  import B = Bits
  import F = FrameAllocator
  import K = Kernel
  import M = MemoryMap
  import P = PageMap
  import Pool

  /** Frame `f` lies in usable memory, outside the storage of the bitmap. */
  ghost predicate Available(es: seq<M.Entry>, size: nat, i: nat, f: nat)
    requires i < |es|
  {
    M.UsableFrame(es, f) && !(es[i].base <= 0x1000 * f < es[i].base + size)
  }

  lemma FreeIsAvailable(pool: Pool.Pool, es: seq<M.Entry>, size: nat, i: nat, f: nat)
    requires F.Initialised(pool, es, size, i) && f in K.Clear(pool.bits)
    ensures Available(es, size, i, f)
  {
    F.BitmapIsReserved(es, size, i, f);
  }

  /** Frame `f` is a table beside the roots, free, or held. */
  ghost predicate InUse(k: K.State, roots: seq<nat>, f: nat)
  {
    || (f in k.sys.own && f !in roots)
    || (f < |k.sys.pool.bits| && !k.sys.pool.bits[f])
    || (exists j :: 0 <= j < |k.live| && A.Covers(k.live[j], f))
  }

  /** Over every run after boot that maps only safe pages, every held frame, every free frame and
      every table but the two roots is usable memory outside the bitmap's own storage. */
  lemma EveryRunStaysAvailable(pool: Pool.Pool, es: seq<M.Entry>, size: nat, i: nat,
      k: K.State, roots: seq<nat>, a: P.Mapping, ops: seq<K.Op>, f: nat)
    requires F.Initialised(pool, es, size, i)
    requires K.GoodBeneath(k, roots, K.Clear(pool.bits)) && P.Refines(k.sys, roots, a) && K.StaysSafe(k, roots, ops)
    ensures InUse(K.Steps(k, roots, ops).0, roots, f) ==> Available(es, size, i, f)
  {
    var (k', managed) := (K.Steps(k, roots, ops).0, K.Clear(pool.bits));
    hide Available, P.Refines, K.Steps, K.GoodBeneath, InUse;
    K.EveryRunIsGoodAlways(k, roots, managed, a, ops);
    if InUse(k', roots, f) {
      InUseIsManaged(k', roots, managed, f);
      FreeIsAvailable(pool, es, size, i, f);
    }
  }

  lemma InUseIsManaged(k: K.State, roots: seq<nat>, managed: set<nat>, f: nat)
    requires K.GoodBeneath(k, roots, managed) && InUse(k, roots, f)
    ensures f in managed
  {
    if exists j :: 0 <= j < |k.live| && A.Covers(k.live[j], f) {
      var j :| 0 <= j < |k.live| && A.Covers(k.live[j], f);
      K.HoldersAvoidTables(k, roots, managed, j, f);
    }
  }

  /** From boot on: after `init_bitmap`, with two zeroed roots, every run that maps only safe pages gives
      the answers of the finite map, starting from the empty one, and keeps everything in use available. */
  lemma EveryRunFromBoot(pool: Pool.Pool, es: seq<M.Entry>, size: nat, i: nat,
      mem: seq<B.u64>, r0: nat, r1: nat, ops: seq<K.Op>, f: nat)
    requires F.Initialised(pool, es, size, i) && K.BootReady(mem, pool, r0, r1)
    requires K.StaysSafe(K.BootState(mem, pool, r0, r1), [r0, r1], ops)
    ensures var (k, roots) := (K.BootState(mem, pool, r0, r1), [r0, r1]);
      && (InUse(K.Steps(k, roots, ops).0, roots, f) ==> Available(es, size, i, f))
      && K.Steps(k, roots, ops).1 == P.PartialSpecSteps(K.SpecStep, map[], ops, K.Served(k, roots, ops)).1
  {
    var (k, roots) := (K.BootState(mem, pool, r0, r1), [r0, r1]);
    K.BootIsGood(mem, pool, r0, r1);
    hide Available, InUse, P.Refines, K.Good, K.Steps, K.StaysSafe, K.BootReady, F.Initialised;
    K.GoodIsBeneath(k, roots, K.Clear(pool.bits));
    K.EveryRunIsGoodAlways(k, roots, K.Clear(pool.bits), map[], ops);
    EveryRunStaysAvailable(pool, es, size, i, k, roots, map[], ops, f);
  }
}
