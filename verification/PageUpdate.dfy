/** What an update of the bytes that a client names does to every page: which frame
    it is then mapped to, and when that is the one asked for. */
module PageUpdate {
  import opened Arith
  import opened PoolSpec
  import opened PageTree
  import opened PageMap
  import opened PageRange
  import opened PageTable

  // ---------------------------------------------------------------- updates of pages

  /** Preparing leaves it open which pages the commit will leave alone. */
  lemma {:induction false} PrepareKeepsSkipped(e: Pte, level: nat, base: nat, q: Request, q1: Request, st: State,
                                               off: nat)
    requires Touches(q, level, base) && !q.commit && q1 == q.(commit := true)
    ensures Skipped(MapPte(e, level, base, q, st).pte, level, base, q1, off) == Skipped(e, level, base, q1, off)
    decreases level, 0, e
  {
    if Skips(q, e) || Covers(q, level, base) {
    } else if level == 0 {
      AlignedByOne(FrameFor(q, base));
    } else if e.Table? {
      PrepareKeepsSkippedIn(e.entries, level - 1, base, q, q1, st, off);
    } else {
      var a := Alloc(st.pool);
      if a.ptr.Some? {
        var nt := Table(a.ptr.value, Split(e, level));
        var st1 := Replace(e, nt, level, base, Max(base, q.begin), q.flush, State(a.pool, st.log));
        SplitNotSkipped(e, level, base, q1, off);
        PrepareKeepsSkippedIn(nt.entries, level - 1, base, q, q1, st1, off);
      }
    }
  }

  lemma {:induction false} PrepareKeepsSkippedIn(es: Entries, level: nat, base: nat, q: Request, q1: Request, st: State,
                                                 off: nat)
    requires !q.commit && q1 == q.(commit := true)
    ensures SkippedIn(MapList(es, level, base, q, st).entries, level, base, q1, off) ==
            SkippedIn(es, level, base, q1, off)
    decreases level, 1, es
  {
    if es.Cons? {
      var touched := Touches(q, level, base);
      var st1 := if touched then MapPte(es.head, level, base, q, st).st else st;
      if off >= Span(level) {
        PrepareKeepsSkippedIn(es.tail, level, base + Span(level), q, q1, st1, off - Span(level));
      } else if touched {
        PrepareKeepsSkipped(es.head, level, base, q, q1, st, off);
      }
    }
  }

  /** After an update that is done, a page of the request translates as asked, unless
      it is left alone; no other page changes. */
  lemma UpdatePage(es: Entries, n: nat, level: nat, q: Request, st: State, page: nat)
    requires WfList(es, n, level) && GoodRequest(q) && page < Spans(n, level) && Update(es, level, q, st).result.Done?
    ensures var was, now := LookupList(es, level, page), LookupList(Update(es, level, q, st).entries, level, page);
            now == if !InRange(q, page) || SkippedIn(es, level, 0, q.(commit := true), page) then was
                   else Wanted(q, page)
  {
    var q0, q1 := q.(commit := false), q.(commit := true);
    var p := Prepare(es, level, q, st);
    MapListWf(es, n, level, 0, q0, st);
    MapListView(es, n, level, 0, q0, st, page);
    PrepareKeepsSkippedIn(es, level, 0, q0, q1, st, page);
    MapListView(p.entries, n, level, 0, q1, p.st, page);
  }

  /** An update that is done does what was asked at every page if and only if nothing
      stale was left alone. */
  lemma UpdateExact(es: Entries, n: nat, level: nat, q: Request, st: State)
    requires WfList(es, n, level) && GoodRequest(q) && Update(es, level, q, st).result.Done?
    ensures var now := Update(es, level, q, st).entries;
            && (forall page :: 0 <= page < Spans(n, level) && !InRange(q, page) ==>
                  LookupList(now, level, page) == LookupList(es, level, page))
            && ((forall page :: 0 <= page < Spans(n, level) && InRange(q, page) ==>
                  LookupList(now, level, page) == Wanted(q, page))
                <==> NothingStale(es, n, level, q.(commit := true)))
  {
    var now, q1 := Update(es, level, q, st).entries, q.(commit := true);
    forall page | 0 <= page < Spans(n, level)
      ensures LookupList(now, level, page) ==
              if !InRange(q, page) || SkippedIn(es, level, 0, q1, page) then LookupList(es, level, page)
              else Wanted(q, page)
    {
      UpdatePage(es, n, level, q, st, page);
    }
    assert forall page :: q.begin <= page < q.end ==> Wanted(q1, page) == Wanted(q, page);
  }

  // ---------------------------------------------------------------- updates of bytes

  /** What is asked for at a page of the range. */
  function AskedFor(paBegin: nat, ipaBegin: nat, attrs: Attrs, unmap: bool, page: nat): Option<Translation>
    requires ipaBegin / PAGE_SIZE <= page
  {
    if unmap then None
    else Some(Translation((paBegin / PAGE_SIZE + (page - ipaBegin / PAGE_SIZE)) % 0x10_0000_0000, attrs))
  }

  lemma WantedIsAsked(paBegin: nat, paEnd: nat, ipaBegin: nat, attrs: Attrs, unmap: bool, flush: bool, space: nat,
                      page: nat)
    requires space <= PA_LIMIT && page < space && ipaBegin / PAGE_SIZE <= page
    requires var q := ToRequest(paBegin, paEnd, ipaBegin, attrs, unmap, flush, space);
             GoodRequest(q) && InRange(q, page)
    ensures var q := ToRequest(paBegin, paEnd, ipaBegin, attrs, unmap, flush, space);
            Wanted(q, page) == AskedFor(paBegin, ipaBegin, attrs, unmap, page)
  {
    var q := ToRequest(paBegin, paEnd, ipaBegin, attrs, unmap, flush, space);
    var first, frame := ipaBegin / PAGE_SIZE, paBegin / PAGE_SIZE;
    DivUnique(first, 0, first, PA_LIMIT);
    if !unmap {
      FrameMoves(frame, page - first);
    }
  }

  lemma FrameMoves(frame: nat, d: nat)
    requires frame % PA_LIMIT + d < PA_LIMIT
    ensures (frame + d) % PA_LIMIT == frame % PA_LIMIT + d
  {
    DivUnique(frame + d, frame / PA_LIMIT, frame % PA_LIMIT + d, PA_LIMIT);
  }

  /** Mapping or unmapping the bytes [paBegin, paEnd) at `ipaBegin`, where the range
      is kept: every page asked for translates as asked if and only if nothing stale
      was left alone, and no other page changes. */
  lemma RangeMapped(es: Entries, n: nat, level: nat, paBegin: nat, paEnd: nat, ipaBegin: nat, attrs: Attrs, unmap: bool,
                    flush: bool, st: State)
    requires WfList(es, n, level) && Spans(n, level) <= PA_LIMIT
    requires paBegin <= paEnd < UINT64 && ipaBegin < UINT64
    requires RangeKept(paBegin, ipaBegin, ipaBegin + (paEnd - paBegin), Spans(n, level))
    requires var q := ToRequest(paBegin, paEnd, ipaBegin, attrs, unmap, flush, Spans(n, level));
             GoodRequest(q) && Update(es, level, q, st).result.Done?
    ensures var q := ToRequest(paBegin, paEnd, ipaBegin, attrs, unmap, flush, Spans(n, level));
            var now, ipaEnd := Update(es, level, q, st).entries, ipaBegin + (paEnd - paBegin);
            && (forall page: nat :: page < Spans(n, level) && !Asked(ipaBegin, ipaEnd, page) ==>
                  LookupList(now, level, page) == LookupList(es, level, page))
            && ((forall page: nat :: page < Spans(n, level) && Asked(ipaBegin, ipaEnd, page) ==>
                  LookupList(now, level, page) == AskedFor(paBegin, ipaBegin, attrs, unmap, page))
                <==> NothingStale(es, n, level, q.(commit := true)))
  {
    var space := Spans(n, level);
    var q := ToRequest(paBegin, paEnd, ipaBegin, attrs, unmap, flush, space);
    RangeExact(paBegin, paEnd, ipaBegin, attrs, unmap, flush, space);
    UpdateExact(es, n, level, q, st);
    forall page: nat | page < space && Asked(ipaBegin, ipaBegin + (paEnd - paBegin), page)
      ensures InRange(q, page) && Wanted(q, page) == AskedFor(paBegin, ipaBegin, attrs, unmap, page)
    {
      WantedIsAsked(paBegin, paEnd, ipaBegin, attrs, unmap, flush, space, page);
    }
  }

  /** Byte by byte: where both begins are at the same place of their pages, the page
      of every byte is mapped to the frame of that byte, or to nothing. */
  lemma BytesMapped(es: Entries, n: nat, level: nat, paBegin: nat, paEnd: nat, ipaBegin: nat, attrs: Attrs, unmap: bool,
                    flush: bool, st: State, o: nat)
    requires WfList(es, n, level) && Spans(n, level) <= PA_LIMIT
    requires paBegin + o < paEnd < UINT64 && ipaBegin < UINT64 && paBegin % PAGE_SIZE == ipaBegin % PAGE_SIZE
    requires (ipaBegin + o) / PAGE_SIZE < Spans(n, level)
    requires RangeKept(paBegin, ipaBegin, ipaBegin + (paEnd - paBegin), Spans(n, level))
    requires var q := ToRequest(paBegin, paEnd, ipaBegin, attrs, unmap, flush, Spans(n, level));
             && GoodRequest(q) && Update(es, level, q, st).result.Done?
             && NothingStale(es, n, level, q.(commit := true))
    ensures var q := ToRequest(paBegin, paEnd, ipaBegin, attrs, unmap, flush, Spans(n, level));
            LookupList(Update(es, level, q, st).entries, level, (ipaBegin + o) / PAGE_SIZE) ==
            if unmap then None else Some(Translation((paBegin + o) / PAGE_SIZE % PA_LIMIT, attrs))
  {
    RangeMapped(es, n, level, paBegin, paEnd, ipaBegin, attrs, unmap, flush, st);
    SamePlace(paBegin, paEnd, ipaBegin, o);
  }

  lemma SamePlace(paBegin: nat, paEnd: nat, ipaBegin: nat, o: nat)
    requires paBegin + o < paEnd && paBegin % PAGE_SIZE == ipaBegin % PAGE_SIZE
    ensures Asked(ipaBegin, ipaBegin + (paEnd - paBegin), (ipaBegin + o) / PAGE_SIZE)
    ensures (paBegin + o) / PAGE_SIZE == paBegin / PAGE_SIZE + ((ipaBegin + o) / PAGE_SIZE - ipaBegin / PAGE_SIZE)
  {
  }
}
