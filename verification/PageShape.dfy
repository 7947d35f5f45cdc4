/** Tables of the right shape, whatever frames their blocks map to: all that the
    page-table manager needs of the tables in memory, and keeps even where
    defragmentation changes what they mean. */
module PageShape {
  import opened Arith
  import opened PageTree
  import opened PoolSpec

  predicate Shaped(e: Pte, level: nat) {
    match e
    case Absent => true
    case Block(_, attrs) => level <= MAX_BLOCK_LEVEL && GoodAttrs(attrs)
    case Table(_, es) => level > 0 && ShapedList(es, PTES, level - 1)
  }

  predicate ShapedList(es: Entries, n: nat, level: nat) {
    match es
    case Nil => n == 0
    case Cons(h, t) => n > 0 && Shaped(h, level) && ShapedList(t, n - 1, level)
  }

  lemma {:induction false} BlocksShaped(n: nat, pa: nat, step: nat, level: nat, a: Attrs)
    requires level <= MAX_BLOCK_LEVEL && GoodAttrs(a)
    ensures ShapedList(Blocks(n, pa, step, a), n, level)
  {
    if n > 0 {
      BlocksShaped(n - 1, pa + step, step, level, a);
    }
  }

  lemma {:induction false} AbsentsShaped(n: nat, level: nat)
    ensures ShapedList(Absents(n), n, level)
  {
    if n > 0 {
      AbsentsShaped(n - 1, level);
    }
  }

  lemma SplitShaped(e: Pte, level: nat)
    requires level > 0 && Shaped(e, level) && !e.Table?
    ensures ShapedList(Split(e, level), PTES, level - 1)
  {
    if e.Block? {
      BlocksShaped(PTES, e.pa, Span(level - 1), level - 1, e.attrs);
    } else {
      AbsentsShaped(PTES, level - 1);
    }
  }

  lemma {:induction false} MapPteShaped(e: Pte, level: nat, base: nat, q: Request, st: State)
    requires Shaped(e, level) && GoodRequest(q) && Touches(q, level, base)
    ensures Shaped(MapPte(e, level, base, q, st).pte, level)
    decreases level, 0, e
  {
    if Skips(q, e) || Covers(q, level, base) {
    } else if level == 0 {
      AlignedByOne(FrameFor(q, base));
    } else if e.Table? {
      MapListShaped(e.entries, PTES, level - 1, base, q, st);
    } else {
      var a := Alloc(st.pool);
      if a.ptr.Some? {
        var nt := Table(a.ptr.value, Split(e, level));
        var st1 := Replace(e, nt, level, base, Max(base, q.begin), q.flush, State(a.pool, st.log));
        SplitShaped(e, level);
        MapListShaped(nt.entries, PTES, level - 1, base, q, st1);
      }
    }
  }

  lemma {:induction false} MapListShaped(es: Entries, n: nat, level: nat, base: nat, q: Request, st: State)
    requires ShapedList(es, n, level) && GoodRequest(q)
    ensures ShapedList(MapList(es, level, base, q, st).entries, n, level)
    decreases level, 1, es
  {
    if es.Cons? {
      if !Touches(q, level, base) {
        MapListShaped(es.tail, n - 1, level, base + Span(level), q, st);
      } else {
        MapPteShaped(es.head, level, base, q, st);
        MapListShaped(es.tail, n - 1, level, base + Span(level), q, MapPte(es.head, level, base, q, st).st);
      }
    }
  }

  /** Every table keeps its shape when it is defragmented, safe or not. */
  lemma {:induction false} DefragPteShaped(e: Pte, level: nat, base: nat, flush: bool, st: State)
    requires Shaped(e, level)
    ensures Shaped(DefragPte(e, level, base, flush, st).pte, level)
    decreases e
  {
    if e.Table? {
      DefragListShaped(e.entries, PTES, level - 1, base, flush, st);
      var r := DefragList(e.entries, level - 1, base, flush, st).entries;
      assert r.tail.Cons? && Shaped(r.head, level - 1) && Shaped(r.tail.head, level - 1);
      if !r.head.Absent? && Mergeable(r.head, r.tail) {
        assert r.tail.head.Block? && r.tail.head.attrs == AttrsOf(r.head);
      }
    }
  }

  lemma {:induction false} DefragListShaped(es: Entries, n: nat, level: nat, base: nat, flush: bool, st: State)
    requires ShapedList(es, n, level)
    ensures ShapedList(DefragList(es, level, base, flush, st).entries, n, level)
    decreases es
  {
    if es.Cons? {
      DefragPteShaped(es.head, level, base, flush, st);
      DefragListShaped(es.tail, n - 1, level, base + Span(level), flush, DefragPte(es.head, level, base, flush, st).st);
    }
  }
}
