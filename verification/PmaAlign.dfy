/** Where the page allocator places an allocation: the alignment that is in effect
    and the run that the search then takes. */
module PmaAlign {
  import opened Arith
  import opened PmaSearch
  import opened PmaSpec
  import opened PoolSpec

  const PAGE_SIZE: nat := 4096
  const PAGE_LEVEL_BITS: nat := 9

  /** The address that asks for a mapping of frames to themselves. */
  const IDENTITY_MAP: nat := 0xDEAD_DEAD

  /** The alignment that asks for the largest one that is of use. */
  const AUTO_PAGE_LEVEL: nat := 255

  function BytesToPages(size: nat): nat {
    (size + PAGE_SIZE - 1) / PAGE_SIZE
  }

  /** The least number of pages that hold so many bytes. */
  lemma PagesHold(size: nat, n: nat)
    ensures n >= BytesToPages(size) <==> size <= n * 4096
  {
  }

  /** The page that the alignment is about. */
  function Origin(ipa: nat): nat {
    if ipa == IDENTITY_MAP then 0 else ipa / PAGE_SIZE
  }

  /** How many pages `ipa` is away from a multiple of the alignment. */
  function IpaOffset(ipa: nat, alignment: nat): nat {
    Rem(Origin(ipa), Pow2(alignment))
  }

  // ---------------------------------------------------------------- automatic alignment

  /** The number of pages of an entry of the page table. */
  function Unit(level: nat): (n: nat)
    ensures n > 0
  {
    Pow2(level * PAGE_LEVEL_BITS)
  }

  /** `size` bytes from the page `first` on hold the whole of an entry `o` pages
      further on. */
  predicate EntryInside(first: nat, size: nat, level: nat, o: nat) {
    Aligned(first + o, Unit(level)) && (o + Unit(level)) * PAGE_SIZE <= size
  }

  ghost predicate HoldsEntry(first: nat, size: nat, level: nat) {
    exists o: nat :: EntryInside(first, size, level, o)
  }

  /** The largest level up to `max` of which the range holds a whole entry. */
  ghost function AutoLevel(first: nat, size: nat, max: nat): (level: nat)
    ensures level <= max && (level > 0 ==> HoldsEntry(first, size, level))
    ensures forall k :: level < k <= max ==> !HoldsEntry(first, size, k)
  {
    if max == 0 || HoldsEntry(first, size, max) then max else AutoLevel(first, size, max - 1)
  }

  /** The comparison that the program makes. */
  predicate Fits(ipa: nat, size: nat, level: nat) {
    var entry, offset := PAGE_SIZE * Unit(level), IpaOffset(ipa, level * PAGE_LEVEL_BITS);
    size >= entry && (offset > 0 ==> size >= entry + PAGE_SIZE * (Unit(level) - offset))
  }

  /** It tells whether there is a whole entry in the range; for the identity, in a
      range that starts like the entry does. */
  lemma FitsExact(ipa: nat, size: nat, level: nat)
    ensures ipa != IDENTITY_MAP ==> (Fits(ipa, size, level) <==> HoldsEntry(ipa / PAGE_SIZE, size, level))
    ensures ipa == IDENTITY_MAP ==> (Fits(ipa, size, level) <==> HoldsEntry(0, size, level))
  {
    FitsFrom(ipa, size, level);
  }

  /** For a range that starts at a page boundary, in bytes. */
  lemma HoldsEntryBytes(ipa: nat, size: nat, level: nat)
    requires ipa % PAGE_SIZE == 0
    ensures HoldsEntry(ipa / PAGE_SIZE, size, level) <==>
            exists e: nat :: ByteEntryInside(ipa, size, level, e)
  {
    var first, unit := ipa / PAGE_SIZE, Unit(level);
    if o: nat :| EntryInside(first, size, level, o) {
      AlignedScaled(first + o, unit);
      assert ByteEntryInside(ipa, size, level, (first + o) * PAGE_SIZE);
    }
    if e: nat :| ByteEntryInside(ipa, size, level, e) {
      var p := UnscaledMultiple(e, unit);
      assert EntryInside(first, size, level, p - first);
    }
  }

  /** The bytes from `e` on, as many as an entry of the level has, are an entry and
      lie in [ipa, ipa + size). */
  predicate ByteEntryInside(ipa: nat, size: nat, level: nat, e: nat) {
    Aligned(e, PAGE_SIZE * Unit(level)) && ipa <= e && e + PAGE_SIZE * Unit(level) <= ipa + size
  }

  lemma {:induction false} AlignedScaled(p: nat, unit: nat)
    requires unit > 0 && Aligned(p, unit)
    ensures Aligned(p * PAGE_SIZE, PAGE_SIZE * unit)
  {
    if p > 0 {
      AlignedScaled(p - unit, unit);
    }
  }

  lemma {:induction false} UnscaledMultiple(e: nat, unit: nat) returns (p: nat)
    requires unit > 0 && Aligned(e, PAGE_SIZE * unit)
    ensures e == p * PAGE_SIZE && Aligned(p, unit)
  {
    if e == 0 {
      p := 0;
    } else {
      var q := UnscaledMultiple(e - PAGE_SIZE * unit, unit);
      p := q + unit;
    }
  }

  lemma FitsFrom(ipa: nat, size: nat, level: nat)
    ensures Fits(ipa, size, level) <==> HoldsEntry(Origin(ipa), size, level)
  {
    var first, unit := Origin(ipa), Unit(level);
    var offset := Rem(first, unit);
    UpToMultiple(first, unit);
    AlignedSum(unit, first, unit);
    var least := if offset == 0 then 0 else unit - offset;
    assert Aligned(first + least, unit);
    if Fits(ipa, size, level) {
      assert EntryInside(first, size, level, least);
    }
    if o: nat :| EntryInside(first, size, level, o) {
      if o < least {
        AlignedGap(first + o, first + least, unit);
      }
    }
  }

  lemma {:induction false} Pow2Sum(a: nat, b: nat)
    ensures Pow2(a + b) == Pow2(b) * Pow2(a)
    decreases b
  {
    if b > 0 {
      Pow2Sum(a, b - 1);
      ProductAssoc(2, Pow2(b - 1), Pow2(a));
    }
  }

  lemma UnitBelow(level: nat)
    ensures Unit(level + 1) == 512 * Unit(level)
  {
    Pow2Sum(level * PAGE_LEVEL_BITS, PAGE_LEVEL_BITS);
    assert Pow2(3) == 8;
    Pow2Sum(3, 3);
    Pow2Sum(6, 3);
  }

  /** An entry holds entries of the level below. */
  lemma HoldsBelow(first: nat, size: nat, level: nat)
    requires HoldsEntry(first, size, level + 1)
    ensures HoldsEntry(first, size, level)
  {
    var o: nat :| EntryInside(first, size, level + 1, o);
    UnitBelow(level);
    AlignedFactor(first + o, 512, Unit(level));
    assert EntryInside(first, size, level, o);
  }

  /** The first level that has no entry in the range ends the search. */
  lemma {:induction false} LevelsEnd(first: nat, size: nat, level: nat, max: nat)
    requires 0 < level <= max && !HoldsEntry(first, size, level)
    ensures !HoldsEntry(first, size, max) && AutoLevel(first, size, max) == AutoLevel(first, size, level - 1)
    decreases max
  {
    if level < max {
      LevelsEnd(first, size, level, max - 1);
      if HoldsEntry(first, size, max) {
        HoldsBelow(first, size, max - 1);
      }
    }
  }

  lemma {:induction false} SmallIsZero(first: nat, size: nat, max: nat)
    requires size < 512 * PAGE_SIZE
    ensures AutoLevel(first, size, max) == 0
  {
    if max > 0 {
      UnitBelow(max - 1);
      SmallIsZero(first, size, max - 1);
    }
  }

  // ---------------------------------------------------------------- placing

  /** The alignment that an allocation is made with. */
  ghost function InEffect(ipa: nat, size: nat, alignment: nat, max: nat): (a: nat) {
    if alignment == AUTO_PAGE_LEVEL then AutoLevel(Origin(ipa), size, max) * PAGE_LEVEL_BITS else alignment
  }

  /** The first page of the run that an allocation takes. */
  ghost function Place(s: seq<Page>, max: nat, ipa: nat, size: nat, alignment: nat, id: nat): (r: Option<nat>) {
    if size == 0 || size > |s| * PAGE_SIZE || id >= MAX_IDS then None
    else
      var a := InEffect(ipa, size, alignment, max);
      Chosen(s, 0, BytesToPages(size), Pow2(a), IpaOffset(ipa, a))
  }

  /** There is one if and only if a run that the search looks at is free; it starts
      like `ipa` does with respect to the alignment, and without one it is the
      lowest that fits. */
  lemma PlaceExact(s: seq<Page>, max: nat, ipa: nat, size: nat, alignment: nat, id: nat)
    requires |s| > 0 && s[0] != FREE
    ensures var c, n := Place(s, max, ipa, size, alignment, id), BytesToPages(size);
            var first := if ipa == 0xDEAD_DEAD then 0 else ipa / 4096;
            var a := if alignment == 255 then AutoLevel(first, size, max) * 9 else alignment;
            && (c.Some? <==>
                  && 0 < size <= |s| * PAGE_SIZE && id < MAX_IDS
                  && exists t: nat :: AllFree(s, t, n) && Visits(s, 0, n, Pow2(a), first % Pow2(a), t))
            && (c.Some? ==>
                  c.value > 0 && n > 0 && AllFree(s, c.value, n) && c.value % Pow2(a) == first % Pow2(a))
            && (a == 0 && 0 < size <= |s| * PAGE_SIZE && id < MAX_IDS ==>
                  forall t: nat :: AllFree(s, t, n) ==> c.Some? && c.value <= t)
  {
    if 0 < size <= |s| * PAGE_SIZE && id < MAX_IDS {
      var n, a := BytesToPages(size), InEffect(ipa, size, alignment, max);
      RemIsMod(Origin(ipa), Pow2(a));
      SearchMeans(s, n, Pow2(a), IpaOffset(ipa, a));
      if a == 0 {
        forall t: nat | AllFree(s, t, n) ensures Chosen(s, 0, n, 1, 0).Some? && Chosen(s, 0, n, 1, 0).value <= t {
          LowestFound(s, 0, n, t);
        }
      }
    }
  }

  lemma PlaceIsFree(s: seq<Page>, max: nat, ipa: nat, size: nat, alignment: nat, id: nat)
    requires |s| > 0 && s[0] != FREE
    ensures var c := Place(s, max, ipa, size, alignment, id);
            c.Some? ==> c.value > 0 && BytesToPages(size) > 0 && AllFree(s, c.value, BytesToPages(size))
  {
    PlaceExact(s, max, ipa, size, alignment, id);
  }

  lemma SearchMeans(s: seq<Page>, need: nat, unit: nat, offset: nat)
    requires need > 0 && unit > 0 && offset < unit && |s| > 0 && s[0] != FREE
    ensures var c := Chosen(s, 0, need, unit, offset);
            && (c.Some? <==> exists t: nat :: AllFree(s, t, need) && Visits(s, 0, need, unit, offset, t))
            && (c.Some? ==> c.value > 0 && AllFree(s, c.value, need) && c.value % unit == offset)
  {
    ChosenExact(s, 0, need, unit, offset);
    var c := Chosen(s, 0, need, unit, offset);
    if c.Some? {
      assert c.value != 0;
      VisitsAligned(s, 0, need, unit, offset, c.value);
      StartsLikeOffset(c.value, unit, offset);
      RemIsMod(c.value, unit);
    }
  }

  lemma StartsLikeOffset(start: nat, unit: nat, offset: nat)
    requires unit > 0 && offset < unit && (unit > 1 ==> offset <= start && Aligned(start - offset, unit))
    ensures Rem(start, unit) == offset
  {
    if unit > 1 {
      RemShift(start - offset, start, unit);
    }
  }

  /** What the automatic alignment is for: the allocation has the frames of a whole
      entry of the chosen level, and they lie as the entry does, so that one entry
      can map them. No higher level has an entry in the range. */
  lemma AutoAligned(s: seq<Page>, max: nat, ipa: nat, size: nat, id: nat)
    requires |s| > 0 && s[0] != FREE && Place(s, max, ipa, size, AUTO_PAGE_LEVEL, id).Some?
    ensures var first := if ipa == IDENTITY_MAP then 0 else ipa / PAGE_SIZE;
            var start, level := Place(s, max, ipa, size, AUTO_PAGE_LEVEL, id).value, AutoLevel(first, size, max);
            && level <= max
            && (forall k :: level < k <= max ==> !HoldsEntry(first, size, k))
            && (level > 0 ==>
                  exists o: nat :: EntryInside(first, size, level, o) && Aligned(start + o, Unit(level)))
  {
    PlaceExact(s, max, ipa, size, AUTO_PAGE_LEVEL, id);
    var first, start := Origin(ipa), Place(s, max, ipa, size, AUTO_PAGE_LEVEL, id).value;
    var level := AutoLevel(first, size, max);
    if level > 0 {
      var o: nat :| EntryInside(first, size, level, o);
      RemIsMod(first, Unit(level));
      RemIsMod(start, Unit(level));
      LinesUp(first, start, Unit(level), o);
    }
  }

  /** Pages that start alike reach a multiple together. */
  lemma LinesUp(first: nat, start: nat, unit: nat, o: nat)
    requires unit > 0 && Rem(first, unit) == Rem(start, unit) && Aligned(first + o, unit)
    ensures Aligned(start + o, unit)
  {
    var up := unit - Rem(first, unit);
    UpToMultiple(first, unit);
    UpToMultiple(start, unit);
    if up <= o {
      AlignedSum(first + up, o - up, unit);
      AlignedSum(start + up, o - up, unit);
    } else {
      AlignedSum(first + o, up - o, unit);
      if start + o < start + up {
        AlignedGap(first + o, first + up, unit);
        assert o == 0 && up == unit;
        AlignedSum(unit, start, unit);
      }
    }
  }
}
