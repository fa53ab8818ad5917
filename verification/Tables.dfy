/** The page-table heap of sys/kernel/aarch64/mm/mmu.c as a function of its steps: physical memory
    as a sequence of 64-bit words in which frame `f` holds words `512*f .. 512*f+511`, the frame
    allocator, and a record of which path owns each table frame. */
module Tables {
  import opened Bits
  import opened Descriptors
  import opened Pool

  /** The place of a table: the root it hangs under and the indices that lead to it. */
  datatype Node = Node(root: nat, path: seq<nat>)

  /** Physical memory and the allocator, with `own` a record of the table frames; nothing the
      code computes depends on `own`. */
  datatype Sys = Sys(mem: seq<u64>, pool: Pool, own: map<nat, Node>)

  const FRAMES: nat := 0x10_0000_0000

  function Read(m: seq<u64>, f: nat, i: nat): u64
  {
    if 512 * f + i < |m| then m[512 * f + i] else 0
  }

  function Put(m: seq<u64>, f: nat, i: nat, w: u64): (r: seq<u64>)
    ensures |r| == |m|
  {
    if 512 * f + i < |m| then m[512 * f + i := w] else m
  }

  /** `memset(frame, 0, 4096)`. */
  function Zero(m: seq<u64>, f: nat): (r: seq<u64>)
    ensures |r| == |m|
    ensures forall k :: 0 <= k < |m| ==> r[k] == if 512 * f <= k < 512 * f + 512 then 0 else m[k]
  {
    seq(|m|, k requires 0 <= k < |m| => if 512 * f <= k < 512 * f + 512 then 0 else m[k])
  }

  // ----- walking -----

  /** `next_level` without allocation: the next table, or 0. */
  function Next(m: seq<u64>, f: nat, i: nat): nat
  {
    var w := Read(m, f, i);
    if IsTable(w) then FrameOf(w) else 0
  }

  /** The table at the end of `path`, or 0. */
  function Walk(m: seq<u64>, f: nat, path: seq<nat>): nat
    decreases |path|
  {
    if path == [] then f
    else
      var n := Next(m, f, path[0]);
      if n == 0 then 0 else Walk(m, n, path[1..])
  }

  /** The word at the end of a nonempty `path`, or 0 when a table on the way is missing. */
  function Lookup(m: seq<u64>, f: nat, path: seq<nat>): u64
    requires path != []
    decreases |path|
  {
    if |path| == 1 then Read(m, f, path[0])
    else
      var n := Next(m, f, path[0]);
      if n == 0 then 0 else Lookup(m, n, path[1..])
  }

  /** How many tables a descent along `path` has to create. */
  function Missing(m: seq<u64>, f: nat, path: seq<nat>): nat
    decreases |path|
  {
    if path == [] then 0
    else
      var n := Next(m, f, path[0]);
      if n == 0 then |path| else Missing(m, n, path[1..])
  }

  // ----- growing -----

  ghost predicate Sized(s: Sys)
  {
    s.pool.limit <= |s.pool.bits| && s.pool.limit <= FRAMES
  }

  /** `next_level` with allocation.  When no frame is free the allocator answers 0, and the code
      goes on with frame 0. */
  ghost function Grow(s: Sys, f: nat, i: nat): (Sys, nat)
    requires Sized(s)
    ensures Sized(Grow(s, f, i).0) && |Grow(s, f, i).0.mem| == |s.mem|
  {
    var w := Read(s.mem, f, i);
    if IsTable(w) then (s, FrameOf(w))
    else
      var n := NewFrame(s);
      var pool := if n == 0 then s.pool else Commit(s.pool, n, 1);
      var own := if n == 0 || f !in s.own then s.own
                 else s.own[n := Node(s.own[f].root, s.own[f].path + [i])];
      (Sys(Put(Zero(s.mem, n), f, i, Link(n)), pool, own), n)
  }

  ghost function NewFrame(s: Sys): (n: nat)
    requires Sized(s)
    ensures n < FRAMES
  {
    FirstRunIsLeast(s.pool, s.pool.hint, 1);
    Search(s.pool, 1)
  }

  /** The descent through the levels of `path`, creating what is missing. */
  ghost function Descend(s: Sys, f: nat, path: seq<nat>): (Sys, nat)
    requires Sized(s)
    ensures Sized(Descend(s, f, path).0) && |Descend(s, f, path).0.mem| == |s.mem|
    decreases |path|
  {
    if path == [] then (s, f)
    else
      var (s', n) := Grow(s, f, path[0]);
      Descend(s', n, path[1..])
  }

  // ----- growing without marking -----

  /** `next_level` with `pmm_alloc` as written: the frame it found stays marked free. */
  ghost function RawGrow(s: Sys, f: nat, i: nat): (r: (Sys, nat))
    requires Sized(s)
    ensures Sized(r.0) && r.0.pool == s.pool && r.0.own == s.own && |r.0.mem| == |s.mem|
  {
    (Grow(s, f, i).0.(pool := s.pool, own := s.own), Grow(s, f, i).1)
  }

  ghost function RawDescend(s: Sys, f: nat, path: seq<nat>): (r: (Sys, nat))
    requires Sized(s)
    ensures Sized(r.0) && r.0.pool == s.pool && r.0.own == s.own && |r.0.mem| == |s.mem|
    decreases |path|
  {
    if path == [] then (s, f)
    else
      var (s', n) := RawGrow(s, f, path[0]);
      RawDescend(s', n, path[1..])
  }

  /** Either of the two. */
  ghost function GrowBy(marks: bool, s: Sys, f: nat, i: nat): (r: (Sys, nat))
    requires Sized(s)
    ensures Sized(r.0) && |r.0.mem| == |s.mem|
  {
    if marks then Grow(s, f, i) else RawGrow(s, f, i)
  }

  ghost function DescendBy(marks: bool, s: Sys, f: nat, path: seq<nat>): (r: (Sys, nat))
    requires Sized(s)
    ensures Sized(r.0) && |r.0.mem| == |s.mem|
  {
    if marks then Descend(s, f, path) else RawDescend(s, f, path)
  }

  /** Every table the walk along `path` reads is memory. */
  predicate WalkInMemory(m: seq<u64>, f: nat, path: seq<nat>)
    decreases |path|
  {
    512 * f + 512 <= |m| &&
    (path == [] || Next(m, f, path[0]) == 0 || WalkInMemory(m, Next(m, f, path[0]), path[1..]))
  }

  /** Every table the descent along `path` reads or writes is memory. */
  ghost predicate DescentInMemory(marks: bool, s: Sys, f: nat, path: seq<nat>)
    requires Sized(s)
    decreases |path|
  {
    512 * f + 512 <= |s.mem| &&
    (path == [] ||
     DescentInMemory(marks, GrowBy(marks, s, f, path[0]).0, GrowBy(marks, s, f, path[0]).1, path[1..]))
  }

  // ----- the invariant -----

  function FreeSet(p: Pool): set<nat>
    requires p.limit <= |p.bits|
  {
    set b: nat | b < p.limit && !p.bits[b]
  }

  /** Owned frames are real, distinct from the free ones, and at most three levels deep. */
  ghost predicate OwnedOk(s: Sys)
    requires Sized(s)
  {
    forall f :: f in s.own ==>
      && 0 < f < FRAMES && 512 * f + 512 <= |s.mem| && f !in FreeSet(s.pool)
      && s.own[f].root < 2 && |s.own[f].path| <= 3
  }

  /** An entry of an inner table is empty or the plain link to its own child table. */
  ghost predicate EntryOk(s: Sys, f: nat, i: nat)
    requires f in s.own
  {
    var w := Read(s.mem, f, i);
    w == 0 || (w == Link(FrameOf(w)) && FrameOf(w) in s.own &&
               s.own[FrameOf(w)] == Node(s.own[f].root, s.own[f].path + [i]))
  }

  ghost predicate InnerOk(s: Sys)
  {
    forall f, i: nat :: f in s.own && |s.own[f].path| < 3 && i < 512 ==> EntryOk(s, f, i)
  }

  /** `p` is the parent table of `f`. */
  ghost predicate Parent(s: Sys, p: nat, f: nat)
    requires f in s.own && s.own[f].path != []
  {
    var node := s.own[f];
    var last := |node.path| - 1;
    p in s.own && s.own[p] == Node(node.root, node.path[..last])
    && node.path[last] < 512 && Read(s.mem, p, node.path[last]) == Link(f)
  }

  /** Every owned frame but the roots is linked from its parent. */
  ghost predicate Linked(s: Sys)
  {
    forall f :: f in s.own && s.own[f].path != [] ==> exists p :: Parent(s, p, f)
  }

  ghost predicate RootsOk(s: Sys, roots: seq<nat>)
  {
    && |roots| == 2
    && (forall r :: 0 <= r < 2 ==> roots[r] in s.own && s.own[roots[r]] == Node(r, []))
    && (forall f :: f in s.own && s.own[f].path == [] ==> s.own[f].root < 2 && f == roots[s.own[f].root])
  }

  ghost predicate FreeOk(s: Sys)
    requires Sized(s)
  {
    && Sound(s.pool)
    && forall b :: b in FreeSet(s.pool) ==> 512 * b + 512 <= |s.mem|
  }

  /** The two trees are well formed and share nothing with each other or with free memory. */
  ghost predicate Inv(s: Sys, roots: seq<nat>)
  {
    Sized(s) && OwnedOk(s) && InnerOk(s) && Linked(s) && RootsOk(s, roots) && FreeOk(s)
  }

  ghost predicate ValidPath(path: seq<nat>)
  {
    forall k :: 0 <= k < |path| ==> path[k] < 512
  }

  // ----- frames and reads -----

  lemma ReadZero(m: seq<u64>, n: nat, f: nat, i: nat)
    requires i < 512
    ensures Read(Zero(m, n), f, i) == if f == n then 0 else Read(m, f, i)
  {}

  lemma ReadPut(m: seq<u64>, f: nat, i: nat, w: u64, g: nat, j: nat)
    requires i < 512 && j < 512
    ensures Read(Put(m, f, i, w), g, j) ==
            if f == g && i == j && 512 * f + i < |m| then w else Read(m, g, j)
  {}

  lemma NewFrameIsFree(s: Sys)
    requires Sized(s) && FreeOk(s)
    ensures NewFrame(s) == 0 <==> FreeSet(s.pool) == {}
    ensures NewFrame(s) != 0 ==> NewFrame(s) in FreeSet(s.pool)
  {
    HintIsHarmless(s.pool, 1);
    var n := NewFrame(s);
    if n != 0 {
      assert RunFree(s.pool, n, 1);
      assert n in FreeSet(s.pool);
    } else if FreeSet(s.pool) != {} {
      var b :| b in FreeSet(s.pool);
      assert RunFree(s.pool, b, 1);
    }
  }
}
