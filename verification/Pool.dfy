/** What the physical frame allocator computes, on the abstract bitmap: `bits[b]` says that frame
    `b` is in use.  sys/kernel/mm/pmm.c:147-185, with marking a run as used a step of its own. */
module Pool {
  import opened Wrappers

  /** The bitmap, the search-start hint and the number of bits the search looks at. */
  datatype Pool = Pool(bits: seq<bool>, hint: nat, limit: nat)

  /** Frames `b .. b+n-1` are all free and in range. */
  ghost predicate RunFree(p: Pool, b: nat, n: nat)
    requires p.limit <= |p.bits|
  {
    b + n <= p.limit && forall k :: b <= k < b + n ==> !p.bits[k]
  }

  ghost function FirstRun(p: Pool, b: nat, n: nat): Option<nat>
    requires p.limit <= |p.bits|
    decreases p.limit - b
  {
    if b + n > p.limit || b >= p.limit then None
    else if RunFree(p, b, n) then Some(b)
    else FirstRun(p, b + 1, n)
  }

  /** The frame number `pmm_alloc` answers for a request of `frames` frames, 0 meaning failure.
      A request for no frames is served like a request for one.  Frame 0 is also the mark for
      "no run started", hence the first case. */
  ghost function Search(p: Pool, frames: nat): nat
    requires p.limit <= |p.bits|
  {
    var n := Wanted(frames);
    if p.hint == 0 && RunFree(p, 0, n) then (if n == 1 then 0 else 1)
    else match FirstRun(p, p.hint, n)
      case Some(b) => b
      case None => 0
  }

  function Wanted(frames: nat): nat
  {
    if frames == 0 then 1 else frames
  }

  function SetRun(bits: seq<bool>, b: nat, n: nat, used: bool): (r: seq<bool>)
    ensures |r| == |bits|
    ensures forall k :: 0 <= k < |bits| ==> r[k] == if b <= k < b + n then used else bits[k]
  {
    seq(|bits|, k requires 0 <= k < |bits| => if b <= k < b + n then used else bits[k])
  }

  /** Mark a run as used. */
  function Commit(p: Pool, b: nat, n: nat): Pool
  {
    p.(bits := SetRun(p.bits, b, n, true))
  }

  /** `pmm_free`. */
  function Release(p: Pool, b: nat, n: nat): Pool
  {
    p.(bits := SetRun(p.bits, b, n, false))
  }

  // ----- the search is first-fit -----

  lemma {:induction false} FirstRunIsLeast(p: Pool, b: nat, n: nat)
    requires p.limit <= |p.bits| && n >= 1
    ensures match FirstRun(p, b, n)
      case Some(c) => b <= c && RunFree(p, c, n) && forall d: nat :: b <= d < c ==> !RunFree(p, d, n)
      case None => forall d: nat :: b <= d ==> !RunFree(p, d, n)
    decreases p.limit - b
  {
    if b + n > p.limit || RunFree(p, b, n) {
    } else {
      FirstRunIsLeast(p, b + 1, n);
    }
  }

  /** `r` is the first free run at or after the hint, or 0 when there is none. */
  ghost predicate FirstFit(p: Pool, n: nat, r: nat)
    requires p.limit <= |p.bits|
  {
    && (r != 0 ==> p.hint <= r && RunFree(p, r, n) && forall d: nat :: p.hint <= d < r ==> !RunFree(p, d, n))
    && (r == 0 ==> forall d: nat :: p.hint <= d ==> !RunFree(p, d, n))
  }

  /** The search is exact first-fit, except precisely when a run that starts at frame 0 is free
      and the search starts there: then the answer is 1, or failure for a single frame. */
  lemma SearchIsFirstFit(p: Pool, frames: nat)
    requires p.limit <= |p.bits|
    ensures var n := if frames == 0 then 1 else frames;
      && (FirstFit(p, n, Search(p, frames)) <==> !(p.hint == 0 && RunFree(p, 0, n)))
      && (p.hint == 0 && RunFree(p, 0, n) ==> Search(p, frames) == if n == 1 then 0 else 1)
  {
    FirstRunIsLeast(p, p.hint, Wanted(frames));
  }

  /** Two correct answers are equal, so `FirstFit` pins the search down. */
  lemma FirstFitIsUnique(p: Pool, n: nat, r: nat, r': nat)
    requires p.limit <= |p.bits|
    requires FirstFit(p, n, r) && FirstFit(p, n, r')
    ensures r == r'
  {
    assert r == 0 || r' == 0 || !(r < r' || r' < r);
  }

  // ----- the search-start hint -----

  /** Frame 0 and everything below the hint is in use. */
  ghost predicate Sound(p: Pool)
  {
    && p.limit <= |p.bits|
    && (forall b :: 0 <= b < |p.bits| && !p.bits[b] ==> 0 < b && p.hint <= b)
  }

  /** The hint never changes an answer: searching from it equals searching from frame 0. */
  lemma HintIsHarmless(p: Pool, frames: nat)
    requires Sound(p)
    ensures Search(p, frames) == Search(p.(hint := 0), frames)
    ensures FirstFit(p, Wanted(frames), Search(p, frames))
  {
    var (n, q) := (Wanted(frames), p.(hint := 0));
    assert forall d: nat :: RunFree(p, d, n) ==> !p.bits[d];
    assert forall d: nat :: RunFree(p, d, n) <==> RunFree(q, d, n);
    SearchIsFirstFit(p, frames);
    SearchIsFirstFit(q, frames);
    assert FirstFit(q, n, Search(p, frames));
    FirstFitIsUnique(q, n, Search(p, frames), Search(q, frames));
  }

  /** With frames 0 and 1 free and frame 2 in use, a request for two frames is answered with
      frame 1, although frames 1 and 2 are not free. */
  lemma FrameZeroExample()
    ensures var p := Pool([false, false, true], 0, 3);
      Search(p, 2) == 1 && !RunFree(p, 1, 2) && RunFree(p, 0, 2)
  {
    var p := Pool([false, false, true], 0, 3);
    assert p.bits[2];
  }
}
