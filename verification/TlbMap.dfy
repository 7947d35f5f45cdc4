/** Mapping, unmapping, splitting and defragmenting keep the TLB coherent. */
module TlbMap {
  import opened Arith
  import opened PoolSpec
  import opened PageTree
  import opened PageMap
  import opened PageShape
  import opened Tlb

  predicate InsideList(page: nat, n: nat, level: nat, base: nat) {
    base <= page < base + Spans(n, level)
  }

  predicate InStepList(s: PageState, es: Entries, n: nat, level: nat, base: nat, page: nat) {
    Coherent(s) && (InsideList(page, n, level, base) ==> s.current == Visible(LookupList(es, level, page - base)))
  }

  /** What an operation on the pages of a list of entries owes every page. */
  predicate KeptInStep(s0: PageState, s1: PageState, es: Entries, n: nat, level: nat, base: nat, page: nat) {
    && InStepList(s1, es, n, level, base, page)
    && (!InsideList(page, n, level, base) ==> s1.current == s0.current)
  }

  lemma {:induction false} MapPteInStep(e: Pte, level: nat, base: nat, q: Request, st: State, page: nat, s: PageState)
    requires Shaped(e, level) && Touches(q, level, base) && q.flush
    requires InStep(Replay(st.log, page, s), e, level, base, page)
    ensures var r := MapPte(e, level, base, q, st);
            var s1 := Replay(r.st.log, page, s);
            && InStep(s1, r.pte, level, base, page)
            && (!Inside(page, level, base) ==> s1.current == Replay(st.log, page, s).current)
    decreases level, 0, e
  {
    if Skips(q, e) {
    } else if Covers(q, level, base) {
      if q.commit {
        ReplaceInStep(e, NewPte(q, base), level, base, base, st, page, s);
      }
    } else if level == 0 {
      AlignedByOne(FrameFor(q, base));
    } else if e.Table? {
      TableSpan(level);
      MapListInStep(e.entries, PTES, level - 1, base, q, st, page, s);
    } else {
      var a := Alloc(st.pool);
      if a.ptr.Some? {
        var nt := Table(a.ptr.value, Split(e, level));
        var begin := Max(base, q.begin);
        var st1 := Replace(e, nt, level, base, begin, q.flush, State(a.pool, st.log));
        TableSpan(level);
        SplitShaped(e, level);
        SplitView(e, level, if Inside(page, level, base) then page - base else 0);
        ReplaceInStep(e, nt, level, base, begin, State(a.pool, st.log), page, s);
        MapListInStep(nt.entries, PTES, level - 1, base, q, st1, page, s);
      }
    }
  }

  lemma {:induction false} MapListInStep(es: Entries, n: nat, level: nat, base: nat, q: Request, st: State, page: nat,
                                         s: PageState)
    requires ShapedList(es, n, level) && q.flush
    requires InStepList(Replay(st.log, page, s), es, n, level, base, page)
    ensures var r := MapList(es, level, base, q, st);
            KeptInStep(Replay(st.log, page, s), Replay(r.st.log, page, s), r.entries, n, level, base, page)
    decreases level, 1, es
  {
    if es.Cons? {
      if !Touches(q, level, base) {
        MapListInStep(es.tail, n - 1, level, base + Span(level), q, st, page, s);
      } else {
        MapPteInStep(es.head, level, base, q, st, page, s);
        MapListInStep(es.tail, n - 1, level, base + Span(level), q, MapPte(es.head, level, base, q, st).st, page, s);
      }
    }
  }

  lemma {:induction false} DefragPteInStep(e: Pte, level: nat, base: nat, st: State, page: nat, s: PageState)
    requires Shaped(e, level) && InStep(Replay(st.log, page, s), e, level, base, page)
    ensures var r := DefragPte(e, level, base, true, st);
            var s1 := Replay(r.st.log, page, s);
            && InStep(s1, r.pte, level, base, page)
            && (!Inside(page, level, base) ==> s1.current == Replay(st.log, page, s).current)
    decreases e
  {
    if e.Table? {
      TableSpan(level);
      DefragListInStep(e.entries, PTES, level - 1, base, st, page, s);
      var r := DefragList(e.entries, level - 1, base, true, st);
      var table := Table(e.addr, r.entries);
      if r.entries.Cons? && Mergeable(r.entries.head, r.entries.tail) && Merge(table, level) != table {
        ReplaceInStep(table, Merge(table, level), level, base, base, r.st, page, s);
      }
    }
  }

  lemma {:induction false} DefragListInStep(es: Entries, n: nat, level: nat, base: nat, st: State, page: nat,
                                            s: PageState)
    requires ShapedList(es, n, level) && InStepList(Replay(st.log, page, s), es, n, level, base, page)
    ensures var r := DefragList(es, level, base, true, st);
            KeptInStep(Replay(st.log, page, s), Replay(r.st.log, page, s), r.entries, n, level, base, page)
    decreases es
  {
    if es.Cons? {
      DefragPteInStep(es.head, level, base, st, page, s);
      DefragListInStep(es.tail, n - 1, level, base + Span(level), DefragPte(es.head, level, base, true, st).st, page,
          s);
    }
  }

  // ---------------------------------------------------------------- without invalidation

  predicate Quiet(log: seq<Event>) {
    forall e <- log :: e.Write?
  }

  /** A request that is not to invalidate the TLB does not. */
  lemma {:induction false} MapPteQuiet(e: Pte, level: nat, base: nat, q: Request, st: State)
    requires Touches(q, level, base) && !q.flush && Quiet(st.log)
    ensures Quiet(MapPte(e, level, base, q, st).st.log)
    decreases level, 0, e
  {
    if Skips(q, e) || Covers(q, level, base) {
    } else if level == 0 {
      AlignedByOne(FrameFor(q, base));
    } else if e.Table? {
      MapListQuiet(e.entries, level - 1, base, q, st);
    } else {
      var a := Alloc(st.pool);
      if a.ptr.Some? {
        var nt := Table(a.ptr.value, Split(e, level));
        var st1 := Replace(e, nt, level, base, Max(base, q.begin), q.flush, State(a.pool, st.log));
        MapListQuiet(nt.entries, level - 1, base, q, st1);
      }
    }
  }

  lemma {:induction false} MapListQuiet(es: Entries, level: nat, base: nat, q: Request, st: State)
    requires !q.flush && Quiet(st.log)
    ensures Quiet(MapList(es, level, base, q, st).st.log)
    decreases level, 1, es
  {
    if es.Cons? {
      if !Touches(q, level, base) {
        MapListQuiet(es.tail, level, base + Span(level), q, st);
      } else {
        MapPteQuiet(es.head, level, base, q, st);
        MapListQuiet(es.tail, level, base + Span(level), q, MapPte(es.head, level, base, q, st).st);
      }
    }
  }

  lemma {:induction false} DefragPteQuiet(e: Pte, level: nat, base: nat, st: State)
    requires Quiet(st.log)
    ensures Quiet(DefragPte(e, level, base, false, st).st.log)
    decreases e
  {
    if e.Table? && level > 0 {
      DefragListQuiet(e.entries, level - 1, base, st);
    }
  }

  lemma {:induction false} DefragListQuiet(es: Entries, level: nat, base: nat, st: State)
    requires Quiet(st.log)
    ensures Quiet(DefragList(es, level, base, false, st).st.log)
    decreases es
  {
    if es.Cons? {
      DefragPteQuiet(es.head, level, base, st);
      DefragListQuiet(es.tail, level, base + Span(level), DefragPte(es.head, level, base, false, st).st);
    }
  }
}
