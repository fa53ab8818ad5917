/** The physical frame allocator, sys/kernel/mm/pmm.c: the memory map and the bitmap changed in
    place, and the search that answers `pmm_alloc`. */
module FrameAllocator {
  import opened Wrappers

  import Align
  import opened Bits
  import opened Bitmap
  import opened MemoryMap
  import opened Pool

  /** How `init_bitmap` ends: it panics without usable memory; without an entry that can hold the
      bitmap it goes on with none; otherwise the bitmap was carved out of entry `index`. */
  datatype Outcome = Panicked | NoRoom | Ready(index: nat)

  class Pmm {
    const entries: array<Entry>
    var bitmap: array?<u8>
    var startBit: nat

    constructor (entries: array<Entry>)
      ensures this.entries == entries && bitmap == null && startBit == 0
    {
      this.entries := entries;
      bitmap := null;
      startBit := 0;
    }

    ghost predicate Valid()
      reads this, entries, bitmap
    {
      bitmap != null && Highest(entries[..]).Some? && BitmapSize(entries[..]).value <= bitmap.Length
    }

    ghost function Abstract(): (p: Pool)
      requires Valid()
      reads this, entries, bitmap
      ensures p.limit <= |p.bits|
    {
      Pool(BitsOf(bitmap[..]), startBit, 8 * BitmapSize(entries[..]).value)
    }

    method FindHighestEntry() returns (h: Option<nat>)
      ensures h == Highest(entries[..])
    {
      h := None;
      for i := 0 to entries.Length
        invariant h == Highest(entries[..i])
      {
        assert entries[..i + 1][..i] == entries[..i];
        var current := entries[i];
        if current.kind != USABLE {
          continue;
        }
        if h == None {
          h := Some(i);
        } else if current.base > entries[h.value].base {
          h := Some(i);
        }
      }
      assert entries[..entries.Length] == entries[..];
    }

    /** `None` stands for the panic when there is no usable entry. */
    method GetBitmapSize() returns (size: Option<nat>)
      ensures size == BitmapSize(entries[..])
    {
      var h := FindHighestEntry();
      if h == None {
        return None;
      }
      assert BitmapSize(entries[..]) == Some(SizeFor(End(entries[..][h.value])));
      hide Align.AlignUp, Highest, BitmapSize;
      var highestAddress := entries[h.value].base + entries[h.value].length;
      size := Some(Align.AlignUp(highestAddress / 0x1000 / 8, 0x1000));
    }

    /** The first loop of `init_bitmap`: carve the bitmap out of the first entry that can hold it
        and mark every frame as used. */
    method CarveBitmap(size: nat) returns (o: Outcome)
      requires bitmap == null
      modifies this, entries
      ensures startBit == old(startBit) && o != Panicked
      ensures o.NoRoom? ==>
        && bitmap == null && entries[..] == old(entries[..])
        && forall i :: !FitsFirst(entries[..], size, i)
      ensures o.Ready? ==>
        && FitsFirst(old(entries[..]), size, o.index) && entries[..] == Carved(old(entries[..]), size, o.index)
        && bitmap != null && fresh(bitmap) && bitmap.Length == size
        && forall b: nat :: b < 8 * size ==> BitsOf(bitmap[..])[b]
    {
      var i := 0;
      while i < entries.Length
        invariant 0 <= i <= entries.Length && entries[..] == old(entries[..]) && bitmap == null
        invariant startBit == old(startBit)
        invariant forall k :: 0 <= k < i ==> !(Usable(entries[k]) && entries[k].length >= size)
      {
        var entry := entries[i];
        if entry.kind == USABLE && entry.length >= size {
          bitmap := new u8[size](_ => 0xFF);
          entries[i] := entry.(length := entry.length - size, base := entry.base + size);
          assert entries[..] == Carved(old(entries[..]), size, i);
          forall b: nat | b < 8 * size ensures BitsOf(bitmap[..])[b] { AllOnes(b % 8); }
          return Ready(i);
        }
        i := i + 1;
      }
      return NoRoom;
    }

    /** The second loop of `init_bitmap`: clear the bit of every frame of every entry that is long
        enough, and remember the first one as the search start. */
    method ClearManaged(size: nat)
      requires bitmap != null && bitmap.Length == size && startBit == 0
      requires InOrder(entries[..], size)
      requires forall b: nat :: b < 8 * size ==> BitsOf(bitmap[..])[b]
      modifies this`startBit, bitmap
      ensures Cleared(bitmap, startBit, entries[..], size, entries.Length, 0)
    {
      hide InOrder, ClearedBits, BitsOf;
      AllSet(bitmap[..], entries[..], size);
      for i := 0 to entries.Length
        invariant bitmap != null && bitmap == old(bitmap) && bitmap.Length == size
        invariant entries[..] == old(entries[..])
        invariant Cleared(bitmap, startBit, entries[..], size, i, 0)
      {
        var entry := entries[i];
        if entry.kind == USABLE && entry.length >= size {
          var j := 0;
          while j < entry.length
            invariant j % 0x1000 == 0 && 0 <= j <= entry.length
            invariant bitmap == old(bitmap) && bitmap.Length == size && entries[..] == old(entries[..])
            invariant Cleared(bitmap, startBit, entries[..], size, i, j)
          {
            ghost var was := bitmap[..];
            ghost var start := startBit;
            var bit := (entry.base + j) / 0x1000;
            NextBit(entries[..], size, i, j);
            UnsetBit(bitmap, bit);
            if startBit == 0 {
              startBit := bit;
            }
            ClearOne(was, start, bitmap[..], startBit, entries[..], size, i, j);
            j := j + 0x1000;
          }
          EntryDone(bitmap[..], startBit, entries[..], size, i);
        } else {
          EntrySkipped(bitmap[..], startBit, entries[..], size, i);
        }
      }
    }

    /** `init_bitmap`. */
    method InitBitmap() returns (o: Outcome)
      requires GoodMap(entries[..]) && ClearsInRange(entries[..])
      requires bitmap == null && startBit == 0
      modifies this, entries
      ensures o.Panicked? <==> NoUsable(old(entries[..]))
      ensures !o.Ready? ==> bitmap == null && startBit == 0 && entries[..] == old(entries[..])
      ensures !o.Panicked? ==> BitmapSize(old(entries[..])).Some?
      ensures o.NoRoom? ==> forall i :: !FitsFirst(old(entries[..]), BitmapSize(old(entries[..])).value, i)
      ensures o.Ready? ==>
        var size := BitmapSize(old(entries[..])).value;
        && FitsFirst(old(entries[..]), size, o.index) && entries[..] == Carved(old(entries[..]), size, o.index)
        && bitmap != null && fresh(bitmap) && bitmap.Length == size
        && (forall b: nat :: b < 8 * size ==> (BitsOf(bitmap[..])[b] <==> !Managed(entries[..], size, b)))
        && Valid() && Sound(Abstract())
        && (startBit != 0 ==> startBit < 8 * size && !BitsOf(bitmap[..])[startBit])
        && (startBit == 0 ==> forall b: nat :: b < 8 * size ==> BitsOf(bitmap[..])[b])
        && Initialised(Abstract(), old(entries[..]), size, o.index)
    {
      HighestIs(entries[..]);
      var size := GetBitmapSize();
      if size == None {
        return Panicked;
      }
      o := CarveBitmap(size.value);
      if o.Ready? {
        CarvedInOrder(old(entries[..]), size.value, o.index);
        ClearManaged(size.value);
        hide GoodMap, FitsFirst, Carved, InOrder, BitmapSize, Highest, ClearsInRange;
        hide ClearedBits, BitsOf, Managed, Sound;
        ReadyState(bitmap[..], startBit, old(entries[..]), size.value, o.index);
      }
    }

    /** `pmm_alloc`: the search, verbatim; the answer is an address, 0 for failure. */
    method Alloc(frames: nat) returns (ptr: nat)
      requires Valid()
      ensures ptr == 0x1000 * Search(Abstract(), frames)
      ensures ptr != 0 ==>
        var (end, limit) := (ptr / 0x1000 + Wanted(frames), 8 * BitmapSize(entries[..]).value);
        end <= limit || (startBit == 0 && ptr == 0x1000 && end == limit + 1)
    {
      SearchEnds(Abstract(), frames);
      hide RunFree, Scanned, Search;
      ghost var p := Abstract();
      ghost var n := Wanted(frames);
      ScanStart(p, n);
      var bit: nat, framesFound: nat := 0, 0;
      var currentBit: nat := startBit;
      var size := GetBitmapSize();
      while currentBit < size.value * 8
        invariant size == BitmapSize(entries[..]) && size.Some?
        invariant Scanned(p, n, currentBit, framesFound, bit)
        decreases size.value * 8 - currentBit
      {
        var used := TestBitmap(bitmap, currentBit);
        ScanStep(p, frames, currentBit, framesFound, bit);
        if !used {
          if bit == 0 {
            bit := currentBit;
          }
          framesFound := framesFound + 1;
          if framesFound >= frames {
            return bit * 0x1000;
          }
        } else {
          bit := 0;
          framesFound := 0;
        }
        currentBit := currentBit + 1;
        size := GetBitmapSize();
      }
      ScanFailed(p, frames, currentBit, framesFound, bit);
      return 0;
    }

    /** Marking an allocated run as used.  The source declares `bitmap_set_bit` for this and never
        calls it; every claim about held frames rests on this step. */
    method MarkUsed(ptr: nat, frames: nat)
      requires Valid() && ptr % 0x1000 == 0 && ptr / 0x1000 + frames <= 8 * bitmap.Length
      modifies bitmap
      ensures Valid() && Abstract() == Commit(old(Abstract()), ptr / 0x1000, frames)
    {
      ghost var was := BitsOf(bitmap[..]);
      for i := 0 to frames
        invariant Valid() && BitsOf(bitmap[..]) == SetRun(was, ptr / 0x1000, i, true)
      {
        SetBit(bitmap, ptr / 0x1000 + i);
      }
    }

    /** `pmm_free`. */
    method Free(ptr: nat, frames: nat)
      requires Valid() && ptr / 0x1000 + frames <= 8 * bitmap.Length
      modifies bitmap
      ensures Valid() && Abstract() == Release(old(Abstract()), ptr / 0x1000, frames)
    {
      ghost var was := BitsOf(bitmap[..]);
      var p := ptr;
      for i := 0 to frames
        invariant p == ptr + 0x1000 * i
        invariant Valid() && BitsOf(bitmap[..]) == SetRun(was, ptr / 0x1000, i, false)
      {
        assert p / 0x1000 == ptr / 0x1000 + i;
        UnsetBit(bitmap, p / 0x1000);
        p := p + 0x1000;
      }
    }
  }

  /** `pool` is the allocator after `init_bitmap` carved entry `i` out of the map `es`. */
  ghost predicate Initialised(pool: Pool, es: seq<Entry>, size: nat, i: nat)
  {
    && GoodMap(es) && FitsFirst(es, size, i)
    && |pool.bits| == 8 * size && Sound(pool)
    && forall b: nat :: b < 8 * size ==> (pool.bits[b] <==> !Managed(Carved(es, size, i), size, b))
  }

  lemma AllOnes(k: nat)
    requires k < 8
    ensures Bit(0xFF, k)
  {
    SmallPowers();
    OnesBit(8, k);
  }

  /** The entries after carving: the usable ones are in order, and every frame of one that is long
      enough has a bit and is not frame 0. */
  ghost predicate InOrder(es: seq<Entry>, size: nat)
  {
    && (forall i :: 0 <= i < |es| && Usable(es[i]) ==>
          && 0x1000 <= es[i].base && es[i].base % 0x1000 == 0
          && es[i].length % 0x1000 == 0
          && (es[i].length >= size && es[i].length > 0 ==> End(es[i]) <= 0x1000 * (8 * size)))
    && (forall i, j :: 0 <= i < j < |es| && Usable(es[i]) && Usable(es[j]) ==> End(es[i]) <= es[j].base)
  }

  /** Frame `b` is managed by one of the first `n` entries, or by the first `j` bytes of entry `n`. */
  ghost predicate Done(es: seq<Entry>, size: nat, n: nat, j: nat, b: nat)
  {
    || (exists k :: 0 <= k < n && k < |es| && InEntry(es[k], size, b))
    || (n < |es| && InEntry(es[n], size, b) && 0x1000 * b < es[n].base + j)
  }

  /** Exactly the frames done so far are clear, and `start` is the lowest of them, or 0. */
  ghost predicate ClearedBits(s: seq<u8>, start: nat, es: seq<Entry>, size: nat, n: nat, j: nat)
    requires |s| == size
  {
    && (forall b: nat :: b < 8 * size ==> (BitsOf(s)[b] <==> !Done(es, size, n, j, b)))
    && (start == 0 ==> forall b: nat :: b < 8 * size ==> BitsOf(s)[b])
    && (start != 0 ==> start < 8 * size && !BitsOf(s)[start] && forall b: nat :: b < start ==> BitsOf(s)[b])
  }

  ghost predicate Cleared(bitmap: array<u8>, start: nat, es: seq<Entry>, size: nat, n: nat, j: nat)
    requires bitmap.Length == size
    reads bitmap
  {
    ClearedBits(bitmap[..], start, es, size, n, j)
  }

  lemma AllSet(s: seq<u8>, es: seq<Entry>, size: nat)
    requires |s| == size && forall b: nat :: b < 8 * size ==> BitsOf(s)[b]
    ensures ClearedBits(s, 0, es, size, 0, 0)
  {}

  lemma NextBit(es: seq<Entry>, size: nat, i: nat, j: nat)
    requires InOrder(es, size) && i < |es| && Usable(es[i]) && es[i].length >= size
    requires j < es[i].length && j % 0x1000 == 0
    ensures var bit := (es[i].base + j) / 0x1000;
      0 < bit < 8 * size && 0x1000 * bit == es[i].base + j && j + 0x1000 <= es[i].length
      && InEntry(es[i], size, bit)
  {}

  lemma ClearOne(s: seq<u8>, start: nat, s': seq<u8>, start': nat, es: seq<Entry>, size: nat, i: nat, j: nat)
    requires InOrder(es, size) && i < |es| && Usable(es[i]) && es[i].length >= size
    requires j < es[i].length && j % 0x1000 == 0 && |s| == |s'| == size
    requires (es[i].base + j) / 0x1000 < 8 * size
    requires ClearedBits(s, start, es, size, i, j)
    requires BitsOf(s') == BitsOf(s)[(es[i].base + j) / 0x1000 := false]
    requires start' == if start == 0 then (es[i].base + j) / 0x1000 else start
    ensures ClearedBits(s', start', es, size, i, j + 0x1000)
  {
    NextBit(es, size, i, j);
    var bit := (es[i].base + j) / 0x1000;
    forall b: nat | b < 8 * size
      ensures Done(es, size, i, j + 0x1000, b) <==> Done(es, size, i, j, b) || b == bit
    {}
    forall b: nat | b < 8 * size && Done(es, size, i, j, b) ensures b < bit {}
  }

  lemma EntryDone(s: seq<u8>, start: nat, es: seq<Entry>, size: nat, i: nat)
    requires i < |es| && |s| == size && ClearedBits(s, start, es, size, i, es[i].length)
    ensures ClearedBits(s, start, es, size, i + 1, 0)
  {
    forall b: nat ensures Done(es, size, i + 1, 0, b) <==> Done(es, size, i, es[i].length, b) {}
  }

  lemma EntrySkipped(s: seq<u8>, start: nat, es: seq<Entry>, size: nat, i: nat)
    requires i < |es| && |s| == size && !(Usable(es[i]) && es[i].length >= size)
    requires ClearedBits(s, start, es, size, i, 0)
    ensures ClearedBits(s, start, es, size, i + 1, 0)
  {
    forall b: nat ensures Done(es, size, i + 1, 0, b) <==> Done(es, size, i, 0, b) {}
  }

  lemma CarvedInOrder(es: seq<Entry>, size: nat, i: nat)
    requires GoodMap(es) && BitmapSize(es) == Some(size) && FitsFirst(es, size, i)
    requires EndsInRange(Carved(es, size, i), size)
    ensures InOrder(Carved(es, size, i), size)
  {
    hide Highest;
    SizeIsAligned(es);
    CarvedIsAligned(es, size, i);
    forall k | 0 <= k < |es| && Usable(es[k])
      ensures 0x1000 <= Carved(es, size, i)[k].base && End(Carved(es, size, i)[k]) == End(es[k])
    {
      assert GoodEntry(es[k]);
    }
  }

  lemma AllDone(es: seq<Entry>, size: nat)
    ensures forall b: nat :: Done(es, size, |es|, 0, b) <==> Managed(es, size, b)
  {}

  lemma ClearedIsSound(s: seq<u8>, start: nat, es: seq<Entry>, size: nat)
    requires InOrder(es, size) && |s| == size && ClearedBits(s, start, es, size, |es|, 0)
    ensures forall b: nat :: b < 8 * size && !BitsOf(s)[b] ==> 0 < b && start <= b
  {}

  /** What the two loops of `init_bitmap` leave. */
  lemma ReadyState(s: seq<u8>, start: nat, es: seq<Entry>, size: nat, i: nat)
    requires GoodMap(es) && BitmapSize(es) == Some(size) && FitsFirst(es, size, i)
    requires InOrder(Carved(es, size, i), size) && |s| == size
    requires ClearedBits(s, start, Carved(es, size, i), size, |es|, 0)
    ensures var es' := Carved(es, size, i);
      && BitmapSize(es').Some? && Highest(es').Some? && BitmapSize(es').value <= size
      && Initialised(Pool(BitsOf(s), start, 8 * BitmapSize(es').value), es, size, i)
    ensures forall b: nat :: b < 8 * size ==> (BitsOf(s)[b] <==> !Managed(Carved(es, size, i), size, b))
    ensures start != 0 ==> start < 8 * size && !BitsOf(s)[start]
    ensures start == 0 ==> forall b: nat :: b < 8 * size ==> BitsOf(s)[b]
  {
    var es' := Carved(es, size, i);
    HighestAfterCarving(es, size, i);
    SizeAfterCarving(es, size, i);
    hide Highest, GoodMap, FitsFirst, Carved, BitmapSize;
    AllDone(es', size);
    ClearedIsSound(s, start, es', size);
  }

  /** The bitmap's own frames are never handed out, and neither is anything outside the usable
      entries the boot loader gave. */
  lemma BitmapIsReserved(es: seq<Entry>, size: nat, i: nat, b: nat)
    requires GoodMap(es) && FitsFirst(es, size, i)
    ensures es[i].base <= 0x1000 * b < es[i].base + size ==> !Managed(Carved(es, size, i), size, b)
    ensures Managed(Carved(es, size, i), size, b) ==> UsableFrame(es, b)
  {
    var es' := Carved(es, size, i);
    if Managed(es', size, b) {
      var k :| 0 <= k < |es'| && InEntry(es'[k], size, b);
      assert es[k].base <= 0x1000 * b < End(es[k]);
    }
  }

  /** In terms of the map as the boot loader gave it: the frames handed out are those of the usable entries at
      least as long as the bitmap, where the entry that holds the bitmap counts from behind it. */
  lemma ManagedExactly(es: seq<Entry>, size: nat, i: nat, b: nat)
    requires FitsFirst(es, size, i)
    ensures Managed(Carved(es, size, i), size, b) <==>
            exists k :: 0 <= k < |es| && es[k].kind == 0 &&
              var taken := if k == i then size else 0;
              taken + size <= es[k].length && es[k].base + taken <= 0x1000 * b < es[k].base + es[k].length
  {
    var es' := Carved(es, size, i);
    forall k | 0 <= k < |es|
      ensures var taken := if k == i then size else 0;
        InEntry(es'[k], size, b) <==>
          es[k].kind == 0 && taken + size <= es[k].length &&
          es[k].base + taken <= 0x1000 * b < es[k].base + es[k].length
    {}
  }

  /** An answer ends within the frames the search looks at, but for the run answered one place too high
      when the run at frame 0 is free. */
  lemma SearchEnds(p: Pool, frames: nat)
    requires p.limit <= |p.bits|
    ensures var (b, n) := (Search(p, frames), Wanted(frames));
      b != 0 ==> b + n <= p.limit || (p.hint == 0 && b == 1 && n == p.limit)
    ensures 0x1000 * Search(p, frames) / 0x1000 == Search(p, frames)
  {
    FirstRunIsLeast(p, p.hint, Wanted(frames));
    TimesPage(Search(p, frames));
  }

  /** In the tie of `MemoryMap.TieExample` no request is ever answered. */
  lemma TieAnswersNothing(es: seq<Entry>, p: Pool, frames: nat)
    requires TieMap(es) && p.limit <= |p.bits|
    requires Some(p.limit / 8) == BitmapSize(Carved(es, 0x1000, 0)) && p.limit % 8 == 0
    ensures Search(p, frames) == 0
  {
    hide Search, Highest, SizeFor;
    TieExample(es);
    SearchEnds(p, frames);
  }

  // ----- the scan of `pmm_alloc` -----

  /** What the loop knows when it looks at bit `cur`: the last `found` bits are free, no run ends
      before `cur`, and `bit` is the start of the current run, with 0 standing for none. */
  ghost predicate Scanned(p: Pool, n: nat, cur: nat, found: nat, bit: nat)
  {
    && p.limit <= |p.bits| && p.hint <= cur && found <= cur - p.hint && found < n
    && (cur <= p.limit || cur == p.hint)
    && (forall k :: cur - found <= k < cur ==> k < p.limit && !p.bits[k])
    && (forall d :: p.hint <= d < cur - found ==> !RunFree(p, d, n))
    && bit == (if found == 0 then 0 else if cur == found then (if found == 1 then 0 else 1) else cur - found)
  }

  lemma ScanStart(p: Pool, n: nat)
    requires p.limit <= |p.bits| && n >= 1
    ensures Scanned(p, n, p.hint, 0, 0)
  {}

  /** One turn of the loop: a used bit starts over; a free bit extends the run, and completes it
      with the answer of the search when the run is long enough. */
  lemma ScanStep(p: Pool, frames: nat, cur: nat, found: nat, bit: nat)
    requires Scanned(p, Wanted(frames), cur, found, bit) && cur < p.limit
    ensures p.bits[cur] ==> Scanned(p, Wanted(frames), cur + 1, 0, 0)
    ensures !p.bits[cur] && found + 1 < frames ==>
              Scanned(p, Wanted(frames), cur + 1, found + 1, if bit == 0 then cur else bit)
    ensures !p.bits[cur] && found + 1 >= frames ==> Search(p, frames) == if bit == 0 then cur else bit
  {
    var n := Wanted(frames);
    if p.bits[cur] {
      forall d | p.hint <= d < cur + 1 ensures !RunFree(p, d, n) {}
    } else if found + 1 >= frames {
      ScanFound(p, frames, cur, found);
    }
  }

  lemma ScanFound(p: Pool, frames: nat, cur: nat, found: nat)
    requires p.limit <= |p.bits| && p.hint <= cur < p.limit && found <= cur - p.hint
    requires found + 1 == Wanted(frames) && !p.bits[cur]
    requires forall k :: cur - found <= k < cur ==> !p.bits[k]
    requires forall d :: p.hint <= d < cur - found ==> !RunFree(p, d, Wanted(frames))
    ensures Search(p, frames) == if cur == found then (if found == 0 then 0 else 1) else cur - found
  {
    var (n, b) := (Wanted(frames), cur - found);
    assert RunFree(p, b, n);
    if b != 0 {
      assert p.hint == 0 ==> !RunFree(p, 0, n);
      SearchIsFirstFit(p, frames);
      FirstFitIsUnique(p, n, b, Search(p, frames));
    }
  }

  lemma ScanFailed(p: Pool, frames: nat, cur: nat, found: nat, bit: nat)
    requires Scanned(p, Wanted(frames), cur, found, bit) && p.limit <= cur
    ensures Search(p, frames) == 0
  {
    var n := Wanted(frames);
    assert forall d: nat :: p.hint <= d ==> !RunFree(p, d, n);
    SearchIsFirstFit(p, frames);
    FirstFitIsUnique(p, n, 0, Search(p, frames));
  }
}
