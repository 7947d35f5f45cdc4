/** The aligned first-fit search of the page allocator: which runs of free pages
    it looks at, and when it finds one. */
module PmaSearch {
  import opened Arith
  import opened PmaSpec
  import opened PoolSpec

  /** How many pages from `start` on are free, counted up to `need`. */
  function FreePages(s: seq<Page>, start: nat, need: nat): (n: nat)
    ensures n <= need && (n > 0 ==> start + n <= |s|)
    ensures forall i :: start <= i < start + n ==> s[i] == FREE
    ensures n < need && start + n < |s| ==> s[start + n] != FREE
    decreases need
  {
    if need == 0 || start >= |s| || s[start] != FREE then 0 else 1 + FreePages(s, start + 1, need - 1)
  }

  /** Where the search goes on after the used page `used`: at the next page, or
      with an alignment at `offset` pages after a later multiple of `unit`. The
      page after `used` is never chosen itself, even if it is a multiple. */
  function NextStart(used: nat, unit: nat, offset: nat): (r: nat)
    requires unit > 0
    ensures used < r
  {
    if unit == 1 then used + 1 else used + 1 + (unit - Rem(used + 1, unit)) + offset
  }

  /** Less the offset, it is the least multiple behind the page after the used one. */
  lemma NextStartExact(used: nat, unit: nat, offset: nat, m: nat)
    requires unit > 1
    ensures var next := NextStart(used, unit, offset);
            && next >= offset && next - offset > used + 1 && Aligned(next - offset, unit)
            && (m > used + 1 && Aligned(m, unit) ==> next - offset <= m)
  {
    UpToMultiple(used + 1, unit);
    var least := used + 1 + (unit - Rem(used + 1, unit));
    if used + 1 < m < least && Aligned(m, unit) {
      AlignedGap(m, least, unit);
    }
  }

  /** The search that begins at `start` looks at a run that begins at `t`. */
  predicate Visits(s: seq<Page>, start: nat, need: nat, unit: nat, offset: nat, t: nat)
    requires unit > 0
    decreases |s| - start
  {
    t == start ||
    var used := start + FreePages(s, start, need);
    used < start + need && used < |s| && Visits(s, NextStart(used, unit, offset), need, unit, offset, t)
  }

  /** The run that the search takes. */
  function Chosen(s: seq<Page>, start: nat, need: nat, unit: nat, offset: nat): (r: Option<nat>)
    requires unit > 0
    decreases |s| - start
  {
    var used := start + FreePages(s, start, need);
    if used == start + need then Some(start)
    else if used < |s| then Chosen(s, NextStart(used, unit, offset), need, unit, offset)
    else None
  }

  lemma {:induction false} FreePagesAll(s: seq<Page>, start: nat, need: nat)
    requires need > 0
    ensures FreePages(s, start, need) == need <==> AllFree(s, start, need)
  {
    var n := FreePages(s, start, need);
    if n < need && start + n < |s| {
      assert s[start + n] != FREE;
    }
  }

  /** It takes a run if and only if one that it looks at is free. */
  lemma {:induction false} ChosenExact(s: seq<Page>, start: nat, need: nat, unit: nat, offset: nat)
    requires need > 0 && unit > 0
    ensures var c := Chosen(s, start, need, unit, offset);
            && (c.Some? <==> exists t: nat :: Visits(s, start, need, unit, offset, t) && AllFree(s, t, need))
            && (c.Some? ==> Visits(s, start, need, unit, offset, c.value) && AllFree(s, c.value, need))
    decreases |s| - start
  {
    FreePagesAll(s, start, need);
    var used := start + FreePages(s, start, need);
    if used == start + need {
      assert Visits(s, start, need, unit, offset, start);
    } else if used < |s| {
      var next := NextStart(used, unit, offset);
      ChosenExact(s, next, need, unit, offset);
      forall t: nat | Visits(s, start, need, unit, offset, t) && AllFree(s, t, need)
        ensures Visits(s, next, need, unit, offset, t)
      {
      }
      if t: nat :| Visits(s, next, need, unit, offset, t) && AllFree(s, t, need) {
        assert Visits(s, start, need, unit, offset, t);
      }
    }
  }

  /** Every run it looks at later starts as the alignment asks. */
  lemma {:induction false} VisitsAligned(s: seq<Page>, start: nat, need: nat, unit: nat, offset: nat, t: nat)
    requires unit > 0 && Visits(s, start, need, unit, offset, t) && t != start
    ensures start < t && (unit > 1 ==> offset <= t && Aligned(t - offset, unit))
    decreases |s| - start
  {
    var used := start + FreePages(s, start, need);
    var next := NextStart(used, unit, offset);
    if t == next {
      UpToMultiple(used + 1, unit);
    } else {
      VisitsAligned(s, next, need, unit, offset, t);
    }
  }

  /** Without an alignment it finds the lowest run that fits. */
  lemma {:induction false} LowestFound(s: seq<Page>, start: nat, need: nat, t: nat)
    requires need > 0 && start <= t && AllFree(s, t, need)
    ensures Chosen(s, start, need, 1, 0).Some? && Chosen(s, start, need, 1, 0).value <= t
    decreases |s| - start
  {
    FreePagesAll(s, start, need);
    var used := start + FreePages(s, start, need);
    if used < start + need {
      assert used < |s| ==> s[used] != FREE;
      LowestFound(s, used + 1, need, t);
    }
  }

  /** With one, it finds a run if there are so many free pages on end that the
      place where it goes on lies among them. */
  lemma {:induction false} AmpleRoomFound(s: seq<Page>, start: nat, need: nat, unit: nat, offset: nat, a: nat)
    requires need > 0 && unit > 0 && offset < unit && start <= a + unit + offset
    requires AllFree(s, a, need + unit + offset)
    ensures Chosen(s, start, need, unit, offset).Some?
    decreases |s| - start
  {
    FreePagesAll(s, start, need);
    var used := start + FreePages(s, start, need);
    if used < start + need {
      assert used < |s| ==> s[used] != FREE;
      assert used < a;
      AmpleRoomFound(s, NextStart(used, unit, offset), need, unit, offset, a);
    }
  }

  /** A free and aligned run that the search passes over: pages 4 and 5, behind a
      used page 3, because page 4 is already a multiple of two. */
  lemma AlignedRunMissed(used: Page)
    requires used != FREE
    ensures var s := [used, used, FREE, used, FREE, FREE];
            AllFree(s, 4, 2) && Aligned(4, 2) && Chosen(s, 0, 2, 2, 0) == None
  {
    var s := [used, used, FREE, used, FREE, FREE];
    assert FreePages(s, 0, 2) == 0 && NextStart(0, 2, 0) == 2;
    assert FreePages(s, 2, 2) == 1 && NextStart(3, 2, 0) == 6;
    assert Chosen(s, 6, 2, 2, 0) == None;
    assert Chosen(s, 2, 2, 2, 0) == None;
  }

  /** Adding what is missing to the next multiple. */
  lemma {:induction false} UpToMultiple(x: nat, unit: nat)
    requires unit > 0
    ensures Aligned(x + (unit - Rem(x, unit)), unit)
  {
    if x >= unit {
      UpToMultiple(x - unit, unit);
      AlignedSum(unit, x - unit + (unit - Rem(x, unit)), unit);
    } else {
      assert Aligned(unit, unit);
    }
  }
}
