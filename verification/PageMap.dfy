/** What mapping and unmapping do to the abstract view of the table. */
module PageMap {
  import opened Arith
  import opened PoolSpec
  import opened PageTree

  // ---------------------------------------------------------------- splitting a block

  lemma {:induction false} BlocksView(n: nat, pa: nat, level: nat, attrs: Attrs, off: nat)
    ensures LookupList(Blocks(n, pa, Span(level), attrs), level, off) ==
            if off < Spans(n, level) then Some(Translation(pa + off, attrs)) else None
  {
    if n > 0 && off >= Span(level) {
      BlocksView(n - 1, pa + Span(level), level, attrs, off - Span(level));
    }
  }

  lemma {:induction false} BlocksWf(n: nat, pa: nat, level: nat, attrs: Attrs)
    requires level <= MAX_BLOCK_LEVEL && GoodAttrs(attrs)
    requires Aligned(pa, Span(level)) && pa + Spans(n, level) <= PA_LIMIT
    ensures WfList(Blocks(n, pa, Span(level), attrs), n, level)
  {
    if n > 0 {
      AlignedSum(pa, Span(level), Span(level));
      BlocksWf(n - 1, pa + Span(level), level, attrs);
    }
  }

  lemma {:induction false} AbsentsView(n: nat, level: nat, off: nat)
    ensures LookupList(Absents(n), level, off) == None && WfList(Absents(n), n, level)
  {
    if n > 0 {
      AbsentsView(n - 1, level, if off >= Span(level) then off - Span(level) else 0);
    }
  }

  /** A split entry means what the entry meant. */
  lemma SplitView(e: Pte, level: nat, off: nat)
    requires level > 0 && !e.Table? && off < Span(level)
    ensures LookupList(Split(e, level), level - 1, off) == Lookup(e, level, off)
    ensures Wf(e, level) ==> WfList(Split(e, level), PTES, level - 1)
  {
    TableSpan(level);
    if e.Block? {
      BlocksView(PTES, e.pa, level - 1, e.attrs, off);
      if Wf(e, level) {
        AlignedFactor(e.pa, PTES, Span(level - 1));
        BlocksWf(PTES, e.pa, level - 1, e.attrs);
      }
    } else {
      AbsentsView(PTES, level - 1, off);
    }
  }

  // ---------------------------------------------------------------- map

  /** The page lies in a block with the requested attributes that is left
      alone: no table on the way down is replaced as a whole. */
  predicate Skipped(e: Pte, level: nat, base: nat, q: Request, off: nat)
    decreases level, 0, e
  {
    if Skips(q, e) then true
    else if Covers(q, level, base) || !e.Table? || level == 0 then false
    else SkippedIn(e.entries, level - 1, base, q, off)
  }

  predicate SkippedIn(es: Entries, level: nat, base: nat, q: Request, off: nat)
    decreases level, 1, es
  {
    match es
    case Nil => false
    case Cons(h, t) =>
      if off < Span(level) then Skipped(h, level, base, q, off)
      else SkippedIn(t, level, base + Span(level), q, off - Span(level))
  }

  /** What the request asks for at a page. */
  function Wanted(q: Request, page: nat): Option<Translation>
    requires q.begin <= page
  {
    if q.unmap then None else Some(Translation(FrameFor(q, page), q.attrs))
  }

  lemma {:induction false} FreshNotSkipped(es: Entries, n: nat, pa: nat, level: nat, base: nat, a: Attrs, q: Request,
                                           off: nat)
    requires (es == Absents(n) && !q.unmap) || (es == Blocks(n, pa, Span(level), a) && (q.unmap || a != q.attrs))
    ensures !SkippedIn(es, level, base, q, off)
    decreases n
  {
    if n > 0 && off >= Span(level) {
      FreshNotSkipped(es.tail, n - 1, pa + Span(level), level, base + Span(level), a, q, off - Span(level));
    }
  }

  lemma SplitNotSkipped(e: Pte, level: nat, base: nat, q: Request, off: nat)
    requires level > 0 && !e.Table? && !Skips(q, e)
    ensures !SkippedIn(Split(e, level), level - 1, base, q, off)
  {
    var (pa, a) := if e.Block? then (e.pa, e.attrs) else (0, NO_ATTRS);
    FreshNotSkipped(Split(e, level), PTES, pa, level - 1, base, a, q, off);
  }

  lemma {:induction false} MapPteWf(e: Pte, level: nat, base: nat, q: Request, st: State)
    requires Wf(e, level) && GoodRequest(q) && Touches(q, level, base)
    ensures Wf(MapPte(e, level, base, q, st).pte, level)
    decreases level, 0, e
  {
    if Skips(q, e) || Covers(q, level, base) {
    } else if level == 0 {
      AlignedByOne(FrameFor(q, base));
    } else if e.Table? {
      MapListWf(e.entries, PTES, level - 1, base, q, st);
    } else {
      var a := Alloc(st.pool);
      if a.ptr.Some? {
        var nt := Table(a.ptr.value, Split(e, level));
        var st1 := Replace(e, nt, level, base, Max(base, q.begin), q.flush, State(a.pool, st.log));
        SplitView(e, level, 0);
        MapListWf(nt.entries, PTES, level - 1, base, q, st1);
      }
    }
  }

  lemma {:induction false} MapListWf(es: Entries, n: nat, level: nat, base: nat, q: Request, st: State)
    requires WfList(es, n, level) && GoodRequest(q)
    ensures WfList(MapList(es, level, base, q, st).entries, n, level)
    decreases level, 1, es
  {
    if es.Cons? {
      if !Touches(q, level, base) {
        MapListWf(es.tail, n - 1, level, base + Span(level), q, st);
      } else {
        MapPteWf(es.head, level, base, q, st);
        MapListWf(es.tail, n - 1, level, base + Span(level), q, MapPte(es.head, level, base, q, st).st);
      }
    }
  }

  /** What one page means after the request, given what it meant before. */
  predicate Outcome(q: Request, ok: bool, skipped: bool, page: nat, was: Option<Translation>,
                    now: Option<Translation>) {
    if !q.commit || !InRange(q, page) then now == was
    else if ok then now == if skipped then was else Wanted(q, page)
    else now == was || now == Wanted(q, page)
  }

  lemma {:induction false} MapPteView(e: Pte, level: nat, base: nat, q: Request, st: State, off: nat)
    requires Wf(e, level) && GoodRequest(q) && Touches(q, level, base) && off < Span(level)
    ensures var r := MapPte(e, level, base, q, st);
            Outcome(q, r.ok, Skipped(e, level, base, q, off), base + off, Lookup(e, level, off), Lookup(r.pte, level,
                off))
    decreases level, 0, e
  {
    if Skips(q, e) || Covers(q, level, base) {
    } else if level == 0 {
      AlignedByOne(FrameFor(q, base));
    } else if e.Table? {
      TableSpan(level);
      MapListView(e.entries, PTES, level - 1, base, q, st, off);
    } else {
      var a := Alloc(st.pool);
      if a.ptr.Some? {
        var nt := Table(a.ptr.value, Split(e, level));
        var st1 := Replace(e, nt, level, base, Max(base, q.begin), q.flush, State(a.pool, st.log));
        TableSpan(level);
        SplitView(e, level, off);
        SplitNotSkipped(e, level, base, q, off);
        MapListView(nt.entries, PTES, level - 1, base, q, st1, off);
      }
    }
  }

  lemma {:induction false} MapListView(es: Entries, n: nat, level: nat, base: nat, q: Request, st: State, off: nat)
    requires WfList(es, n, level) && GoodRequest(q) && off < Spans(n, level)
    ensures var r := MapList(es, level, base, q, st);
            Outcome(q, r.ok, SkippedIn(es, level, base, q, off), base + off,
                    LookupList(es, level, off), LookupList(r.entries, level, off))
    decreases level, 1, es
  {
    if es.Cons? {
      var touched := Touches(q, level, base);
      var st1 := if touched then MapPte(es.head, level, base, q, st).st else st;
      if off >= Span(level) {
        MapListView(es.tail, n - 1, level, base + Span(level), q, st1, off - Span(level));
      } else if touched {
        MapPteView(es.head, level, base, q, st, off);
      }
    }
  }
}
