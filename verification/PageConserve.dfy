/** Pages move between the table and the pool; none is lost, none is counted
    twice. The statements are about how often an arbitrary page address `x`
    occurs in the two together. */
module PageConserve {
  import opened Arith
  import opened PoolSpec
  import opened PoolProofs
  import opened PageTree

  /** Every table below the entry lies where a pool entry could. */
  predicate Placed(e: Pte, size: nat)
    requires size > 0
  {
    e.Table? ==> 0 < e.addr && Aligned(e.addr, size) && PlacedList(e.entries, size)
  }

  predicate PlacedList(es: Entries, size: nat)
    requires size > 0
  {
    es.Cons? ==> Placed(es.head, size) && PlacedList(es.tail, size)
  }

  lemma {:induction false} FreePteConserves(e: Pte, pool: Pool, x: nat)
    requires Valid(pool) && Placed(e, pool.entrySize)
    ensures var p := FreePte(e, pool);
            Valid(p) && p.entrySize == pool.entrySize && Occurs(p, x) == Occurs(pool, x) + Holds(e, x)
    decreases e
  {
    if e.Table? {
      FreeListConserves(e.entries, pool, x);
      FreeConserves(FreeList(e.entries, pool), e.addr, x);
    }
  }

  lemma {:induction false} FreeListConserves(es: Entries, pool: Pool, x: nat)
    requires Valid(pool) && PlacedList(es, pool.entrySize)
    ensures var p := FreeList(es, pool);
            Valid(p) && p.entrySize == pool.entrySize && Occurs(p, x) == Occurs(pool, x) + HoldsList(es, x)
    decreases es
  {
    if es.Cons? {
      FreePteConserves(es.head, pool, x);
      FreeListConserves(es.tail, FreePte(es.head, pool), x);
    }
  }

  lemma {:induction false} SplitHoldsNothing(e: Pte, level: nat, size: nat, x: nat)
    requires level > 0 && !e.Table? && size > 0
    ensures HoldsList(Split(e, level), x) == 0 && PlacedList(Split(e, level), size)
  {
    var (pa, a) := if e.Block? then (e.pa, e.attrs) else (0, NO_ATTRS);
    LeavesHoldNothing(Split(e, level), PTES, pa, Span(level - 1), a, size, x);
  }

  lemma {:induction false} LeavesHoldNothing(es: Entries, n: nat, pa: nat, step: nat, a: Attrs, size: nat, x: nat)
    requires es == Absents(n) || es == Blocks(n, pa, step, a)
    requires size > 0
    ensures HoldsList(es, x) == 0 && PlacedList(es, size)
    decreases n
  {
    if n > 0 {
      LeavesHoldNothing(es.tail, n - 1, pa + step, step, a, size, x);
    }
  }

  lemma {:induction false} MapPteConserves(e: Pte, level: nat, base: nat, q: Request, st: State, x: nat)
    requires Valid(st.pool) && Placed(e, st.pool.entrySize) && Touches(q, level, base)
    ensures var r := MapPte(e, level, base, q, st);
            && Valid(r.st.pool) && r.st.pool.entrySize == st.pool.entrySize
            && Placed(r.pte, st.pool.entrySize)
            && Holds(r.pte, x) + Occurs(r.st.pool, x) == Holds(e, x) + Occurs(st.pool, x)
    decreases level, 0, e
  {
    if Skips(q, e) {
    } else if Covers(q, level, base) {
      FreePteConserves(e, st.pool, x);
    } else if level == 0 {
      AlignedByOne(FrameFor(q, base));
    } else if e.Table? {
      MapListConserves(e.entries, level - 1, base, q, st, x);
    } else {
      AllocConserves(st.pool, x);
      var a := Alloc(st.pool);
      if a.ptr.Some? {
        var nt := Table(a.ptr.value, Split(e, level));
        var st1 := Replace(e, nt, level, base, Max(base, q.begin), q.flush, State(a.pool, st.log));
        SplitHoldsNothing(e, level, st.pool.entrySize, x);
        MapListConserves(nt.entries, level - 1, base, q, st1, x);
      }
    }
  }

  lemma {:induction false} MapListConserves(es: Entries, level: nat, base: nat, q: Request, st: State, x: nat)
    requires Valid(st.pool) && PlacedList(es, st.pool.entrySize)
    ensures var r := MapList(es, level, base, q, st);
            && Valid(r.st.pool) && r.st.pool.entrySize == st.pool.entrySize
            && PlacedList(r.entries, st.pool.entrySize)
            && HoldsList(r.entries, x) + Occurs(r.st.pool, x) == HoldsList(es, x) + Occurs(st.pool, x)
    decreases level, 1, es
  {
    if es.Cons? {
      if !Touches(q, level, base) {
        MapListConserves(es.tail, level, base + Span(level), q, st, x);
      } else {
        MapPteConserves(es.head, level, base, q, st, x);
        MapListConserves(es.tail, level, base + Span(level), q, MapPte(es.head, level, base, q, st).st, x);
      }
    }
  }
}
