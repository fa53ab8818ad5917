/** The boot-time memory map and the size of the frame bitmap: sys/kernel/mm/pmm.c:61-122. */
module MemoryMap {
  import opened Wrappers

  import opened Align
  import Bits

  datatype Entry = Entry(base: nat, length: nat, kind: nat)

  const USABLE: nat := 0

  predicate Usable(e: Entry)
  {
    e.kind == USABLE
  }

  function End(e: Entry): nat
  {
    e.base + e.length
  }

  /** The entry `find_highest_mmap_entry` settles on after looking at all of `es`. */
  function Highest(es: seq<Entry>): (h: Option<nat>)
    ensures h.Some? ==> h.value < |es| && Usable(es[h.value])
  {
    if es == [] then None
    else
      var last := |es| - 1;
      match Highest(es[..last])
      case None => if Usable(es[last]) then Some(last) else None
      case Some(h) => if Usable(es[last]) && es[last].base > es[h].base then Some(last) else Some(h)
  }

  function SizeFor(highestAddress: nat): nat
  {
    AlignUp(highestAddress / 0x1000 / 8, 0x1000)
  }

  /** `get_bitmap_size`; it panics when there is no usable entry. */
  function BitmapSize(es: seq<Entry>): Option<nat>
  {
    match Highest(es)
    case None => None
    case Some(h) => Some(SizeFor(End(es[h])))
  }

  // ----- what a boot loader hands over -----

  ghost predicate GoodEntry(e: Entry)
  {
    Usable(e) ==> 0x1000 <= e.base && 0 < e.length && e.base % 0x1000 == 0 && e.length % 0x1000 == 0
                  && End(e) + 0x1_0000 < Bits.TWO64
  }

  /** Usable entries are page aligned, not empty, above the first page, in order and apart. */
  ghost predicate GoodMap(es: seq<Entry>)
  {
    && (forall i :: 0 <= i < |es| ==> GoodEntry(es[i]))
    && (forall i, j :: 0 <= i < j < |es| && Usable(es[i]) && Usable(es[j]) ==> End(es[i]) <= es[j].base)
  }

  // ----- the highest entry -----

  ghost predicate NoUsable(es: seq<Entry>)
  {
    forall i :: 0 <= i < |es| ==> !Usable(es[i])
  }

  /** The first usable entry with the greatest base. */
  ghost predicate IsHighest(es: seq<Entry>, h: nat)
  {
    && h < |es| && Usable(es[h])
    && (forall i :: 0 <= i < |es| && Usable(es[i]) ==> es[i].base <= es[h].base)
    && (forall i :: 0 <= i < h && Usable(es[i]) ==> es[i].base < es[h].base)
  }

  lemma {:induction false} HighestIs(es: seq<Entry>)
    ensures match Highest(es) case None => NoUsable(es) case Some(h) => IsHighest(es, h)
  {
    if es == [] {
    } else {
      var rest := es[..|es| - 1];
      HighestIs(rest);
      assert forall i :: 0 <= i < |rest| ==> rest[i] == es[i];
    }
  }

  lemma HighestIsUnique(es: seq<Entry>, h: nat)
    requires IsHighest(es, h)
    ensures Highest(es) == Some(h)
  {
    HighestIs(es);
  }

  /** In a good map the entry with the highest base also has the highest end. */
  lemma HighestBaseHasHighestEnd(es: seq<Entry>, i: nat)
    requires GoodMap(es) && i < |es| && Usable(es[i])
    ensures Highest(es).Some? && End(es[i]) <= End(es[Highest(es).value])
    ensures i != Highest(es).value ==> i < Highest(es).value && End(es[i]) <= es[Highest(es).value].base
  {
    HighestIs(es);
  }

  // ----- carving the bitmap out of the map -----

  /** Entry `i` is the first usable one that is at least `size` bytes long. */
  ghost predicate FitsFirst(es: seq<Entry>, size: nat, i: nat)
  {
    && i < |es| && Usable(es[i]) && es[i].length >= size
    && forall k :: 0 <= k < i ==> !(Usable(es[k]) && es[k].length >= size)
  }

  function Carved(es: seq<Entry>, size: nat, i: nat): seq<Entry>
    requires i < |es| && es[i].length >= size
  {
    es[i := es[i].(base := es[i].base + size, length := es[i].length - size)]
  }

  /** Carving takes a whole entry and the highest usable entry starts right behind it. */
  ghost predicate Tie(es: seq<Entry>, size: nat, i: nat)
    requires i < |es|
  {
    es[i].length == size && exists h :: 0 <= h < |es| && Some(h) == Highest(es) && h != i && es[h].base == End(es[i])
  }

  /** Carving keeps the highest end, except precisely in a tie; there the search for the highest
      entry stops at the emptied one. */
  lemma HighestAfterCarving(es: seq<Entry>, size: nat, i: nat)
    requires GoodMap(es) && i < |es| && Usable(es[i]) && size <= es[i].length
    ensures Highest(es).Some? && Highest(Carved(es, size, i)).Some?
    ensures var (h, h') := (Highest(es).value, Highest(Carved(es, size, i)).value);
      && h' == (if Tie(es, size, i) then i else h)
      && End(Carved(es, size, i)[h']) == (if Tie(es, size, i) then es[h].base else End(es[h]))
  {
    var es' := Carved(es, size, i);
    HighestBaseHasHighestEnd(es, i);
    HighestIs(es);
    var h := Highest(es).value;
    forall k | 0 <= k < |es| && Usable(es[k]) && k != i && k != h
      ensures es[k].base < es[h].base && (k > i ==> End(es[i]) <= es[k].base)
    {
      HighestBaseHasHighestEnd(es, k);
    }
    if Tie(es, size, i) {
      assert IsHighest(es', i);
      HighestIsUnique(es', i);
    } else {
      assert IsHighest(es', h);
      HighestIsUnique(es', h);
    }
  }

  /** `get_bitmap_size`, evaluated again on every turn of the allocator's loop, answers the same
      after carving exactly when there is no tie or the two addresses round to the same size. */
  lemma SizeAfterCarving(es: seq<Entry>, size: nat, i: nat)
    requires GoodMap(es) && i < |es| && Usable(es[i]) && size <= es[i].length
    ensures Highest(es).Some? && BitmapSize(Carved(es, size, i)).Some?
    ensures BitmapSize(Carved(es, size, i)) == BitmapSize(es) <==>
            (Tie(es, size, i) ==> SizeFor(es[Highest(es).value].base) == SizeFor(End(es[Highest(es).value])))
    ensures BitmapSize(Carved(es, size, i)).value <= BitmapSize(es).value
  {
    HighestAfterCarving(es, size, i);
    var e := es[Highest(es).value];
    SizeGrows(e.base, End(e));
  }

  lemma SizeGrows(x: nat, y: nat)
    requires x <= y && y + 0x1_0000 < Bits.TWO64
    ensures SizeFor(x) <= SizeFor(y)
  {
    AlignUp4096(x / 0x1000 / 8);
    AlignUp4096(y / 0x1000 / 8);
  }

  /** A tie: the bitmap takes exactly the first entry, and the second one follows it. */
  ghost predicate TieMap(es: seq<Entry>)
  {
    es == [Entry(0x1000, 0x1000, 0), Entry(0x2000, 0x10_0000, 0)]
  }

  lemma TieMapIs(es: seq<Entry>)
    requires TieMap(es)
    ensures GoodMap(es) && Highest(es) == Some(1) && Highest(Carved(es, 0x1000, 0)) == Some(0)
    ensures Tie(es, 0x1000, 0) && FitsFirst(es, 0x1000, 0)
  {
    HighestIsUnique(es, 1);
    HighestIsUnique(Carved(es, 0x1000, 0), 0);
    hide Highest;
  }

  /** In this tie the allocator then searches no frame at all. */
  lemma TieExample(es: seq<Entry>)
    requires TieMap(es)
    ensures GoodMap(es) && FitsFirst(es, 0x1000, 0)
    ensures BitmapSize(es) == Some(0x1000) && BitmapSize(Carved(es, 0x1000, 0)) == Some(0)
  {
    hide SizeFor, Highest, Tie, FitsFirst, GoodMap;
    TieMapIs(es);
    SizeIs(End(es[1]), 32);
    SizeIs(End(Carved(es, 0x1000, 0)[0]), 0);
  }

  lemma SizeIs(address: nat, bytes: nat)
    requires bytes == address / 0x1000 / 8 && bytes + 0xFFF < Bits.TWO64
    ensures SizeFor(address) == (bytes + 0xFFF) / 0x1000 * 0x1000
  {
    hide AlignUp;
    AlignUp4096(bytes);
  }

  // ----- coverage -----

  /** The bitmap has a bit for each of the first `frames` frames exactly when `frames` is a
      multiple of 8 or `frames / 8` is not a multiple of 4096: the division by 8 rounds down. */
  lemma CoverageIsExact(frames: nat)
    requires frames + 0x1_0000 < Bits.TWO64
    ensures 8 * AlignUp(frames / 8, 0x1000) >= frames <==> frames % 8 == 0 || frames / 8 % 0x1000 != 0
  {
    AlignUp4096(frames / 8);
  }

  /** The check on the highest end under which the bitmap has a bit for every frame. */
  ghost predicate Covered(es: seq<Entry>)
  {
    match Highest(es)
    case None => true
    case Some(h) => var frames := End(es[h]) / 0x1000; frames % 8 == 0 || frames / 8 % 0x1000 != 0
  }

  /** Frame `b` lies in usable memory. */
  ghost predicate UsableFrame(es: seq<Entry>, b: nat)
  {
    exists i :: 0 <= i < |es| && Usable(es[i]) && es[i].base <= 0x1000 * b < End(es[i])
  }

  /** Every usable frame has a bit exactly when the map is covered. */
  lemma CoveredFrames(es: seq<Entry>)
    requires GoodMap(es) && Highest(es).Some?
    ensures Covered(es) <==> forall b: nat :: UsableFrame(es, b) ==> b < 8 * BitmapSize(es).value
  {
    HighestIs(es);
    var (h, bits) := (Highest(es).value, 8 * BitmapSize(es).value);
    AlignedEnd(es, h);
    var frames := End(es[h]) / 0x1000;
    assert GoodEntry(es[h]);
    CoverageIsExact(frames);
    hide AlignUp, Highest, GoodEntry;
    if Covered(es) {
      forall b: nat | UsableFrame(es, b) ensures b < bits {
        var i :| 0 <= i < |es| && Usable(es[i]) && es[i].base <= 0x1000 * b < End(es[i]);
        HighestBaseHasHighestEnd(es, i);
        FrameBelow(b, End(es[h]));
      }
    } else {
      assert es[h].base <= 0x1000 * (frames - 1) < End(es[h]);
      assert UsableFrame(es, frames - 1);
    }
  }

  lemma AlignedEnd(es: seq<Entry>, h: nat)
    requires GoodMap(es) && h < |es| && Usable(es[h])
    ensures End(es[h]) % 0x1000 == 0
  {
    var e := es[h];
    assert GoodEntry(e);
    assert End(e) == 0x1000 * (e.base / 0x1000 + e.length / 0x1000);
  }

  lemma FrameBelow(b: nat, end: nat)
    requires 0x1000 * b < end
    ensures end % 0x1000 == 0 ==> b < end / 0x1000
  {}

  // ----- the frames that start out free -----

  /** Frame `b` lies in entry `e`, and `e` is long enough to be handed out. */
  ghost predicate InEntry(e: Entry, size: nat, b: nat)
  {
    Usable(e) && e.length >= size && e.base <= 0x1000 * b < End(e)
  }

  ghost predicate Managed(es: seq<Entry>, size: nat, b: nat)
  {
    exists i :: 0 <= i < |es| && InEntry(es[i], size, b)
  }

  /** Entries long enough to be handed out end within the reach of `8 * size` bits. */
  ghost predicate EndsInRange(es: seq<Entry>, size: nat)
  {
    forall k :: 0 <= k < |es| && Usable(es[k]) && es[k].length >= size && es[k].length > 0 ==>
      End(es[k]) <= 0x1000 * (8 * size)
  }

  ghost predicate PageAligned(es: seq<Entry>)
  {
    forall k :: 0 <= k < |es| && Usable(es[k]) ==> es[k].base % 0x1000 == 0 && es[k].length % 0x1000 == 0
  }

  lemma ManagedInRange(es: seq<Entry>, size: nat)
    requires PageAligned(es)
    ensures (forall b: nat :: Managed(es, size, b) ==> b < 8 * size) <==> EndsInRange(es, size)
  {
    if EndsInRange(es, size) {
      forall b: nat | Managed(es, size, b) ensures b < 8 * size {
        var k :| 0 <= k < |es| && InEntry(es[k], size, b);
      }
    } else {
      var k :| 0 <= k < |es| && Usable(es[k]) && es[k].length >= size && es[k].length > 0
               && End(es[k]) > 0x1000 * (8 * size);
      LastFrame(es[k], size);
      var b: nat := End(es[k]) / 0x1000 - 1;
      assert Managed(es, size, b);
    }
  }

  lemma LastFrame(e: Entry, size: nat)
    requires Usable(e) && e.length >= size && e.length > 0 && e.base % 0x1000 == 0 && e.length % 0x1000 == 0
    requires End(e) > 0x1000 * (8 * size)
    ensures InEntry(e, size, End(e) / 0x1000 - 1) && End(e) / 0x1000 - 1 >= 8 * size
  {
    assert End(e) == 0x1000 * (e.base / 0x1000 + e.length / 0x1000);
  }

  lemma CarvedIsAligned(es: seq<Entry>, size: nat, i: nat)
    requires GoodMap(es) && i < |es| && size <= es[i].length && size % 0x1000 == 0
    ensures PageAligned(Carved(es, size, i))
  {
    forall k | 0 <= k < |es| && Usable(es[k])
      ensures (es[k].base + size) % 0x1000 == 0 && (size <= es[k].length ==> (es[k].length - size) % 0x1000 == 0)
      ensures es[k].base % 0x1000 == 0 && es[k].length % 0x1000 == 0
    {
      assert GoodEntry(es[k]);
      CarvedAligned(es[k], size);
    }
  }

  lemma CarvedAligned(e: Entry, size: nat)
    requires size % 0x1000 == 0 && e.base % 0x1000 == 0 && e.length % 0x1000 == 0
    ensures (e.base + size) % 0x1000 == 0
    ensures size <= e.length ==> (e.length - size) % 0x1000 == 0
  {}

  /** The condition `init_bitmap` needs: after carving, what it hands out ends in range. */
  ghost predicate ClearsInRange(es: seq<Entry>)
  {
    forall i :: BitmapSize(es).Some? && FitsFirst(es, BitmapSize(es).value, i) ==>
      EndsInRange(Carved(es, BitmapSize(es).value, i), BitmapSize(es).value)
  }

  lemma SizeIsAligned(es: seq<Entry>)
    requires GoodMap(es) && Highest(es).Some?
    ensures BitmapSize(es).value % 0x1000 == 0
  {
    assert GoodEntry(es[Highest(es).value]);
    hide Highest, SizeFor;
    SizeForIsAligned(End(es[Highest(es).value]));
  }

  lemma SizeForIsAligned(address: nat)
    requires address + 0x1_0000 < Bits.TWO64
    ensures SizeFor(address) % 0x1000 == 0
  {
    var bytes := address / 0x1000 / 8;
    SizeIs(address, bytes);
    hide SizeFor;
    PagesAligned((bytes + 0xFFF) / 0x1000);
  }

  lemma PagesAligned(q: nat)
    ensures q * 0x1000 % 0x1000 == 0
  {}

  /** Every bit `init_bitmap` clears is a bit of the bitmap exactly under that condition. */
  lemma InRangeExactly(es: seq<Entry>)
    requires GoodMap(es) && Highest(es).Some?
    ensures var size := BitmapSize(es).value;
      ClearsInRange(es) <==>
      forall i, b: nat :: FitsFirst(es, size, i) && Managed(Carved(es, size, i), size, b) ==> b < 8 * size
  {
    var size := BitmapSize(es).value;
    SizeIsAligned(es);
    hide GoodMap, Highest, BitmapSize, EndsInRange, Managed;
    forall i | FitsFirst(es, size, i)
      ensures (forall b: nat :: Managed(Carved(es, size, i), size, b) ==> b < 8 * size)
              <==> EndsInRange(Carved(es, size, i), size)
    {
      CarvedIsAligned(es, size, i);
      ManagedInRange(Carved(es, size, i), size);
    }
  }

  lemma EntryCovered(es: seq<Entry>, k: nat)
    requires GoodMap(es) && Covered(es) && k < |es| && Usable(es[k])
    ensures BitmapSize(es).Some? && End(es[k]) <= 0x1000 * (8 * BitmapSize(es).value)
  {
    HighestIs(es);
    assert GoodEntry(es[k]);
    AlignedEnd(es, k);
    var b: nat := End(es[k]) / 0x1000 - 1;
    assert End(es[k]) == 0x1000 * (b + 1);
    hide Highest, SizeFor, Covered;
    CoveredFrames(es);
    assert UsableFrame(es, b);
  }

  /** Covered maps meet it. */
  lemma CoveredIsInRange(es: seq<Entry>)
    requires GoodMap(es) && Covered(es)
    ensures ClearsInRange(es)
  {
    hide Highest, SizeFor, Covered, GoodMap;
    forall k | 0 <= k < |es| && Usable(es[k])
      ensures BitmapSize(es).Some? && End(es[k]) <= 0x1000 * (8 * BitmapSize(es).value)
    {
      EntryCovered(es, k);
    }
  }

  // ----- maps that are not covered -----

  /** One usable entry that ends a page beyond what a whole number of bitmap pages covers. */
  ghost predicate ShortMap(es: seq<Entry>)
  {
    es == [Entry(0x1000, 0x800_0000, 0)]
  }

  lemma ShortMapIs(es: seq<Entry>)
    requires ShortMap(es)
    ensures GoodMap(es) && Highest(es) == Some(0) && FitsFirst(es, 0x1000, 0)
    ensures InEntry(Carved(es, 0x1000, 0)[0], 0x1000, 0x8000)
  {
    HighestIsUnique(es, 0);
    hide Highest;
  }

  /** Here `init_bitmap` clears bit 0x8000 of a bitmap of 0x8000 bits. */
  lemma ShortExample(es: seq<Entry>)
    requires ShortMap(es)
    ensures GoodMap(es) && !Covered(es) && BitmapSize(es) == Some(0x1000) && FitsFirst(es, 0x1000, 0)
    ensures Managed(Carved(es, 0x1000, 0), 0x1000, 0x8000) && 8 * 0x1000 == 0x8000
  {
    hide Highest, SizeFor, GoodMap, FitsFirst, InEntry;
    ShortMapIs(es);
    SizeIs(End(es[0]), 0x1000);
  }

  /** The entry that is not covered is too short to be handed out. */
  ghost predicate HarmlessMap(es: seq<Entry>)
  {
    es == [Entry(0x1000, 0x900_0000, 0), Entry(0x1000_0000, 0x1000, 0)]
  }

  lemma HarmlessMapIs(es: seq<Entry>)
    requires HarmlessMap(es)
    ensures GoodMap(es) && Highest(es) == Some(1)
    ensures forall i :: FitsFirst(es, 0x2000, i) ==> EndsInRange(Carved(es, 0x2000, i), 0x2000)
  {
    HighestIsUnique(es, 1);
    hide Highest;
  }

  /** This map is not covered either, and yet every bit that is cleared is in range. */
  lemma HarmlessExample(es: seq<Entry>)
    requires HarmlessMap(es)
    ensures GoodMap(es) && !Covered(es) && BitmapSize(es) == Some(0x2000) && ClearsInRange(es)
  {
    hide Highest, SizeFor, GoodMap, FitsFirst, EndsInRange;
    HarmlessMapIs(es);
    SizeIs(End(es[1]), 0x2000);
  }
}
