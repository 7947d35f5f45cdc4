/** Two-phase updates: what is prepared can be committed without a single
    allocation, whatever else has been prepared or committed in between. */
module PagePrepare {
  import opened Arith
  import opened PoolSpec
  import opened PageTree

  /** Committing the request below this entry needs no new table. */
  predicate Ready(e: Pte, level: nat, base: nat, q: Request)
    decreases level, 0, e
  {
    || !Touches(q, level, base) || Skips(q, e) || Covers(q, level, base)
    || (level > 0 && e.Table? && ReadyList(e.entries, level - 1, base, q))
  }

  predicate ReadyList(es: Entries, level: nat, base: nat, q: Request)
    decreases level, 1, es
  {
    es.Cons? ==> Ready(es.head, level, base, q) && ReadyList(es.tail, level, base + Span(level), q)
  }

  lemma {:induction false} PrepareMakesReady(e: Pte, level: nat, base: nat, q: Request, st: State)
    requires Touches(q, level, base) && !q.commit && MapPte(e, level, base, q, st).ok
    ensures Ready(MapPte(e, level, base, q, st).pte, level, base, q)
    decreases level, 0, e
  {
    if Skips(q, e) || Covers(q, level, base) || level == 0 {
    } else if e.Table? {
      PrepareMakesReadyList(e.entries, level - 1, base, q, st);
    } else {
      var a := Alloc(st.pool);
      var nt := Table(a.ptr.value, Split(e, level));
      var st1 := Replace(e, nt, level, base, Max(base, q.begin), q.flush, State(a.pool, st.log));
      PrepareMakesReadyList(nt.entries, level - 1, base, q, st1);
    }
  }

  lemma {:induction false} PrepareMakesReadyList(es: Entries, level: nat, base: nat, q: Request, st: State)
    requires !q.commit && MapList(es, level, base, q, st).ok
    ensures ReadyList(MapList(es, level, base, q, st).entries, level, base, q)
    decreases level, 1, es
  {
    if es.Cons? {
      if !Touches(q, level, base) {
        PrepareMakesReadyList(es.tail, level, base + Span(level), q, st);
      } else {
        PrepareMakesReady(es.head, level, base, q, st);
        PrepareMakesReadyList(es.tail, level, base + Span(level), q, MapPte(es.head, level, base, q, st).st);
      }
    }
  }

  /** A ready request succeeds with any pool, the empty one included, and takes
      nothing out of it. */
  lemma {:induction false} ReadySucceeds(e: Pte, level: nat, base: nat, q: Request, st: State, x: nat)
    requires Touches(q, level, base) && Ready(e, level, base, q)
    ensures var r := MapPte(e, level, base, q, st);
            r.ok && Occurs(r.st.pool, x) >= Occurs(st.pool, x)
    decreases level, 0, e
  {
    if Skips(q, e) {
    } else if Covers(q, level, base) {
      FreeOnlyAdds(e, st.pool, x);
    } else {
      ReadyListSucceeds(e.entries, level - 1, base, q, st, x);
    }
  }

  lemma {:induction false} ReadyListSucceeds(es: Entries, level: nat, base: nat, q: Request, st: State, x: nat)
    requires ReadyList(es, level, base, q)
    ensures var r := MapList(es, level, base, q, st);
            r.ok && Occurs(r.st.pool, x) >= Occurs(st.pool, x)
    decreases level, 1, es
  {
    if es.Cons? {
      if !Touches(q, level, base) {
        ReadyListSucceeds(es.tail, level, base + Span(level), q, st, x);
      } else {
        ReadySucceeds(es.head, level, base, q, st, x);
        ReadyListSucceeds(es.tail, level, base + Span(level), q, MapPte(es.head, level, base, q, st).st, x);
      }
    }
  }

  lemma {:induction false} FreeOnlyAdds(e: Pte, pool: Pool, x: nat)
    ensures Occurs(FreePte(e, pool), x) >= Occurs(pool, x)
    decreases e
  {
    if e.Table? {
      FreeListOnlyAdds(e.entries, pool, x);
    }
  }

  lemma {:induction false} FreeListOnlyAdds(es: Entries, pool: Pool, x: nat)
    ensures Occurs(FreeList(es, pool), x) >= Occurs(pool, x)
    decreases es
  {
    if es.Cons? {
      FreeOnlyAdds(es.head, pool, x);
      FreeListOnlyAdds(es.tail, FreePte(es.head, pool), x);
    }
  }

  predicate Disjoint(q1: Request, q2: Request) {
    q1.end <= q2.begin || q2.end <= q1.begin
  }

  /** Readiness of `q` survives preparing anything, and committing anything
      that has no page in common with it, even when that fails half way. */
  lemma {:induction false} ReadyKept(e: Pte, level: nat, base: nat, q: Request, other: Request, st: State)
    requires Ready(e, level, base, q) && Touches(other, level, base)
    requires !other.commit || Disjoint(q, other)
    ensures Ready(MapPte(e, level, base, other, st).pte, level, base, q)
    decreases level, 0, e
  {
    if Skips(other, e) || Covers(other, level, base) {
    } else if level == 0 {
      AlignedByOne(FrameFor(other, base));
    } else if !Touches(q, level, base) || Covers(q, level, base) {
    } else if e.Table? {
      ReadyListKept(e.entries, level - 1, base, q, other, st);
    } else {
      var a := Alloc(st.pool);
      if a.ptr.Some? {
        var nt := Table(a.ptr.value, Split(e, level));
        var st1 := Replace(e, nt, level, base, Max(base, other.begin), other.flush, State(a.pool, st.log));
        SplitReady(e, level, base, q);
        ReadyListKept(nt.entries, level - 1, base, q, other, st1);
      }
    }
  }

  lemma {:induction false} ReadyListKept(es: Entries, level: nat, base: nat, q: Request, other: Request, st: State)
    requires ReadyList(es, level, base, q)
    requires !other.commit || Disjoint(q, other)
    ensures ReadyList(MapList(es, level, base, other, st).entries, level, base, q)
    decreases level, 1, es
  {
    if es.Cons? {
      if !Touches(other, level, base) {
        ReadyListKept(es.tail, level, base + Span(level), q, other, st);
      } else {
        ReadyKept(es.head, level, base, q, other, st);
        ReadyListKept(es.tail, level, base + Span(level), q, other, MapPte(es.head, level, base, other, st).st);
      }
    }
  }

  lemma SplitReady(e: Pte, level: nat, base: nat, q: Request)
    requires level > 0 && !e.Table? && Skips(q, e)
    ensures ReadyList(Split(e, level), level - 1, base, q)
  {
    var pa := if e.Block? then e.pa else 0;
    LeavesReady(Split(e, level), PTES, pa, level - 1, base, q);
  }

  lemma {:induction false} LeavesReady(es: Entries, n: nat, pa: nat, level: nat, base: nat, q: Request)
    requires if q.unmap then es == Absents(n) else es == Blocks(n, pa, Span(level), q.attrs)
    ensures ReadyList(es, level, base, q)
    decreases n
  {
    if n > 0 {
      LeavesReady(es.tail, n - 1, pa + Span(level), level, base + Span(level), q);
    }
  }
}
