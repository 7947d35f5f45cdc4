/** Facts for walking a table entry by entry: where an address is found in it,
    and how the operation on a list of entries continues after the next one. */
module MmWalk {
  import opened Arith
  import opened PoolSpec
  import opened PageTree
  import opened PageConserve
  import opened PageDefrag
  import opened PageQuery
  import opened MmMemory

  // ---------------------------------------------------------------- address arithmetic

  /** The address after the last one of the table that covers `page`. */
  function LevelEnd(page: nat, level: nat): nat {
    (page / Span(level + 1) + 1) * Span(level + 1)
  }

  function StartOfNextBlock(page: nat, size: nat): nat
    requires size > 0
  {
    RoundDown(page + size, size)
  }

  /** In a table that starts at `base`, the index of a page selects the entry
      that covers it, and never leaves the table. */
  lemma IndexSelects(page: nat, base: nat, level: nat)
    requires Aligned(base, Span(level + 1)) && base <= page < base + Span(level + 1)
    ensures var i := IndexAt(page, level);
            i < PTES && base + Spans(i, level) <= page < base + Spans(i + 1, level)
    ensures LevelEnd(page, level) == base + Span(level + 1) == base + Spans(PTES, level)
  {
    TableOf(page, base, Span(level + 1));
    RemShift(base, page, Span(level + 1));
    Digit(page, level);
    SpansIsProduct(IndexAt(page, level), level);
    TableSpan(level + 1);
  }

  lemma TableOf(page: nat, base: nat, size: nat)
    requires size > 0 && Aligned(base, size) && base <= page < base + size
    ensures (page / size + 1) * size == base + size
  {
    AlignedIsMod(base, size);
    DivMod(base, size);
    DivUnique(page, base / size, page - base, size);
    Succ(base / size, size);
  }

  lemma NextBlock(page: nat, base: nat, size: nat)
    requires size > 0 && Aligned(base, size) && base <= page < base + size
    ensures StartOfNextBlock(page, size) == base + size
    ensures Aligned(page, size) <==> page == base
  {
    var r := StartOfNextBlock(page, size);
    AlignedSum(base, size, size);
    if r < base + size { AlignedGap(r, base + size, size); }
    if base + size < r { AlignedGap(base + size, r, size); }
    if base < page && Aligned(page, size) { AlignedGap(base, page, size); }
  }

  lemma {:induction false} SpansAligned(base: nat, i: nat, level: nat)
    requires Aligned(base, Span(level))
    ensures Aligned(base + Spans(i, level), Span(level))
  {
    if i > 0 {
      SpansAligned(base, i - 1, level);
      AlignedSum(base + Spans(i - 1, level), Span(level), Span(level));
    }
  }

  lemma {:induction false} SpansMonotone(i: nat, j: nat, level: nat)
    requires i <= j
    ensures Spans(i, level) <= Spans(j, level)
  {
    if i < j {
      SpansMonotone(i, j - 1, level);
    }
  }

  // ---------------------------------------------------------------- continuing a map

  /** `r` is what the whole list becomes, given that the entries before `i` are
      done and those from `i` on, which start at `base`, are still to do. */
  ghost predicate Continues(r: MappedList, es: Entries, i: nat, level: nat, base: nat, q: Request, st: State) {
    var m := MapList(Drop(es, i), level, base, q, st);
    r == MappedList(Splice(es, i, m.entries), m.st, m.ok)
  }

  /** Entries that end before the request are passed over. */
  lemma {:induction false} MapStarts(es: Entries, i: nat, level: nat, base: nat, q: Request, st: State)
    requires base + Spans(i, level) <= q.begin || i == 0
    ensures Continues(MapList(es, level, base, q, st), es, i, level, base + Spans(i, level), q, st)
    decreases i
  {
    if i > 0 && es.Cons? {
      SpansMonotone(1, i, level);
      assert Spans(1, level) == Span(level) + Spans(0, level);
      MapStarts(es.tail, i - 1, level, base + Span(level), q, st);
    }
  }

  lemma {:induction false} SpliceSplice(es: Entries, f: nat, i: nat, rest: Entries)
    ensures Drop(Drop(es, f), i) == Drop(es, f + i)
    ensures Splice(es, f, Splice(Drop(es, f), i, rest)) == Splice(es, f + i, rest)
    decreases es
  {
    if f > 0 && es.Cons? {
      SpliceSplice(es.tail, f - 1, i, rest);
    }
  }

  /** The same in the middle of a list. */
  lemma MapSkips(r: MappedList, es: Entries, f: nat, i: nat, level: nat, base: nat, q: Request, st: State)
    requires Continues(r, es, f, level, base, q, st) && (base + Spans(i, level) <= q.begin || i == 0)
    ensures Continues(r, es, f + i, level, base + Spans(i, level), q, st)
  {
    MapStarts(Drop(es, f), i, level, base, q, st);
    SpliceSplice(es, f, i, MapList(Drop(es, f + i), level, base + Spans(i, level), q, st).entries);
    SpliceSplice(es, f, i, Nil);
  }

  lemma MapAdvances(r: MappedList, es: Entries, i: nat, level: nat, base: nat, q: Request, st: State)
    requires Continues(r, es, i, level, base, q, st) && Drop(es, i).Cons? && Touches(q, level, base)
    ensures var m := MapPte(Drop(es, i).head, level, base, q, st);
            var es' := SetAt(es, i, m.pte);
            if m.ok then Continues(r, es', i + 1, level, base + Span(level), q, m.st)
            else r == MappedList(es', m.st, false)
  {
    var d := Drop(es, i);
    var m := MapPte(d.head, level, base, q, st);
    DropNext(es, i);
    SetThenDrop(es, i, m.pte, MapList(d.tail, level, base + Span(level), q, m.st).entries);
    SpliceSet(es, i, m.pte);
  }

  lemma {:induction false} SpliceSet(es: Entries, i: nat, t: Pte)
    requires Drop(es, i).Cons?
    ensures Splice(es, i, Cons(t, Drop(es, i).tail)) == SetAt(es, i, t)
  {
    if i > 0 {
      SpliceSet(es.tail, i - 1, t);
    }
  }

  lemma {:induction false} MapBeyond(es: Entries, level: nat, base: nat, q: Request, st: State)
    requires q.end <= base
    ensures MapList(es, level, base, q, st) == MappedList(es, st, true)
    decreases es
  {
    if es.Cons? {
      MapBeyond(es.tail, level, base + Span(level), q, st);
    }
  }

  /** Past the request, or past the table, nothing is left to do. */
  lemma MapEnds(r: MappedList, es: Entries, i: nat, level: nat, base: nat, q: Request, st: State)
    requires Continues(r, es, i, level, base, q, st) && (q.end <= base || Drop(es, i).Nil?)
    ensures r == MappedList(es, st, true)
  {
    if q.end <= base {
      MapBeyond(Drop(es, i), level, base, q, st);
    }
    SpliceDrop(es, i);
  }

  // ---------------------------------------------------------------- pages in the world of one table

  /** How often the page at `x` is the table, is below it, or is free. */
  ghost function Total(table: nat, es: Entries, pool: Pool, x: nat): nat {
    Holds(Table(table, es), x) + Occurs(pool, x)
  }

  ghost predicate Apart(table: nat, es: Entries, pool: Pool) {
    && Valid(pool) && PlacedList(es, pool.entrySize)
    && forall x :: Total(table, es, pool, x) <= 1
  }

  lemma {:induction false} PlacedAt(es: Entries, i: nat, size: nat)
    requires size > 0 && PlacedList(es, size) && Drop(es, i).Cons?
    ensures Placed(Drop(es, i).head, size)
    decreases es
  {
    if i > 0 {
      PlacedAt(es.tail, i - 1, size);
    }
  }

  lemma {:induction false} PlacedSet(es: Entries, i: nat, t: Pte, size: nat)
    requires size > 0 && PlacedList(es, size) && Placed(t, size)
    ensures PlacedList(SetAt(es, i, t), size)
    decreases es
  {
    if es.Cons? && i > 0 {
      PlacedSet(es.tail, i - 1, t, size);
    }
  }

  /** Working on one entry keeps the count of every page. */
  lemma MapPteKeepsTotal(table: nat, es: Entries, i: nat, level: nat, base: nat, q: Request, st: State)
    requires Apart(table, es, st.pool) && Drop(es, i).Cons? && Touches(q, level, base)
    ensures var m := MapPte(Drop(es, i).head, level, base, q, st);
            var es' := SetAt(es, i, m.pte);
            && Apart(table, es', m.st.pool) && m.st.pool.entrySize == st.pool.entrySize
            && forall x :: Total(table, es', m.st.pool, x) == Total(table, es, st.pool, x)
  {
    var h := Drop(es, i).head;
    var m := MapPte(h, level, base, q, st);
    PlacedAt(es, i, st.pool.entrySize);
    MapPteConserves(h, level, base, q, st, 0);
    PlacedSet(es, i, m.pte, st.pool.entrySize);
    forall x ensures Total(table, SetAt(es, i, m.pte), m.st.pool, x) == Total(table, es, st.pool, x) {
      MapPteConserves(h, level, base, q, st, x);
      HoldsSet(es, i, m.pte, x);
    }
  }

  // ---------------------------------------------------------------- continuing a defragmentation

  ghost predicate DefragContinues(r: DefraggedList, es: Entries, i: nat, level: nat, base: nat, flush: bool,
                                  st: State) {
    var d := DefragList(Drop(es, i), level, base, flush, st);
    r == DefraggedList(Splice(es, i, d.entries), d.st)
  }

  lemma DefragAdvances(r: DefraggedList, es: Entries, i: nat, level: nat, base: nat, flush: bool, st: State)
    requires DefragContinues(r, es, i, level, base, flush, st) && Drop(es, i).Cons?
    ensures var d := DefragPte(Drop(es, i).head, level, base, flush, st);
            DefragContinues(r, SetAt(es, i, d.pte), i + 1, level, base + Span(level), flush, d.st)
  {
    var es0 := Drop(es, i);
    var d := DefragPte(es0.head, level, base, flush, st);
    DropNext(es, i);
    SetThenDrop(es, i, d.pte, DefragList(es0.tail, level, base + Span(level), flush, d.st).entries);
  }

  lemma DefragEnds(r: DefraggedList, es: Entries, i: nat, level: nat, base: nat, flush: bool, st: State)
    requires DefragContinues(r, es, i, level, base, flush, st) && Drop(es, i).Nil?
    ensures r == DefraggedList(es, st)
  {
    SpliceDrop(es, i);
  }

  /** The entries before `i`, the first one excepted, can be merged with it. */
  predicate MergesUpTo(es: Entries, i: nat) {
    es.Cons? && Mergeable(es.head, Splice(es.tail, if i == 0 then 0 else i - 1, Nil))
  }

  lemma {:induction false} MergesOneMore(first: Pte, rest: Entries, i: nat)
    requires Drop(rest, i).Cons?
    ensures var h := Drop(rest, i).head;
            Mergeable(first, Splice(rest, i + 1, Nil)) <==>
            Mergeable(first, Splice(rest, i, Nil)) && Mergeable(first, Cons(h, Nil))
    decreases rest
  {
    if i > 0 {
      MergesOneMore(first, rest.tail, i - 1);
    } else {
      assert Splice(rest, 1, Nil) == Cons(rest.head, Splice(rest.tail, 0, Nil));
    }
  }

  lemma {:induction false} SetKeepsFront(es: Entries, i: nat, t: Pte, rest: Entries)
    ensures Splice(SetAt(es, i, t), i, rest) == Splice(es, i, rest)
    decreases es
  {
    if i > 0 && es.Cons? {
      SetKeepsFront(es.tail, i - 1, t, rest);
    }
  }

  /** One more entry has been defragmented and compared with the first. */
  lemma MergesNext(es: Entries, i: nat, t: Pte)
    requires i > 0 && Drop(es, i).Cons?
    ensures var es' := SetAt(es, i, t);
            && es'.Cons? && es'.head == es.head
            && (MergesUpTo(es', i + 1) <==> MergesUpTo(es, i) && Mergeable(es.head, Cons(t, Nil)))
  {
    SetGet(es.tail, i - 1, t, t);
    SetKeepsFront(es.tail, i - 1, t, Nil);
    MergesOneMore(es.head, SetAt(es, i, t).tail, i - 1);
  }

  lemma DefragPteKeepsTotal(table: nat, es: Entries, i: nat, level: nat, base: nat, flush: bool, st: State)
    requires Apart(table, es, st.pool) && Drop(es, i).Cons?
    ensures var d := DefragPte(Drop(es, i).head, level, base, flush, st);
            var es' := SetAt(es, i, d.pte);
            && Apart(table, es', d.st.pool) && d.st.pool.entrySize == st.pool.entrySize
            && forall x :: Total(table, es', d.st.pool, x) == Total(table, es, st.pool, x)
  {
    var h := Drop(es, i).head;
    var d := DefragPte(h, level, base, flush, st);
    PlacedAt(es, i, st.pool.entrySize);
    DefragPteConserves(h, level, base, flush, st, 0);
    PlacedSet(es, i, d.pte, st.pool.entrySize);
    forall x ensures Total(table, SetAt(es, i, d.pte), d.st.pool, x) == Total(table, es, st.pool, x) {
      DefragPteConserves(h, level, base, flush, st, x);
      HoldsSet(es, i, d.pte, x);
    }
  }
}
