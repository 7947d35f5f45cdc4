/** The multi-level page table as a value, and the operations of the memory
    manager as functions on it.

    Addresses are counted in pages: every address that reaches the recursive
    part of the memory manager has been cleared or rounded to a page boundary.
    A table holds `PTES` entries; the entries of a table are a list, so that
    every operation walks them in the order in which the program does. */
module PageTree {
  import opened Arith
  import opened PoolSpec

  const PTES: nat := 512

  /** The number of page frames that fit in the address bits of a PTE. */
  const PA_LIMIT: nat := 0x10_0000_0000

  /** Block entries exist at levels 0, 1 and 2 only. */
  const MAX_BLOCK_LEVEL: nat := 2

  /** Attribute bits of a PTE: the word, and the two bits of it that matter
      here, valid and software-owned. */
  datatype Attrs = Attrs(valid: bool, owned: bool, word: bv64)

  /** Attribute bits of an absent PTE and of a PTE that refers to a table. */
  const NO_ATTRS := Attrs(false, false, 0)
  const TABLE_ATTRS := Attrs(true, false, 1)

  /** Attributes with which memory can be mapped: the entry is present, and it
      cannot be mistaken for a reference to a table. */
  predicate GoodAttrs(a: Attrs) {
    (a.valid || a.owned) && a != TABLE_ATTRS
  }

  datatype Pte =
    | Absent
    | Block(pa: nat, attrs: Attrs)
    | Table(addr: nat, entries: Entries)
  datatype Entries = Nil | Cons(head: Pte, tail: Entries)

  datatype Translation = Translation(pa: nat, attrs: Attrs)

  /** The number of pages covered by one entry at the given level. */
  function Span(level: nat): (n: nat)
    ensures n > 0
  {
    if level == 0 then 1 else PTES * Span(level - 1)
  }

  /** The number of pages covered by `n` consecutive entries. */
  function Spans(n: nat, level: nat): nat {
    if n == 0 then 0 else Span(level) + Spans(n - 1, level)
  }

  lemma {:induction false} SpansIsProduct(n: nat, level: nat)
    ensures Spans(n, level) == n * Span(level)
  {
    if n > 0 {
      SpansIsProduct(n - 1, level);
    }
  }

  /** A page is 2^12 bytes, and each level has nine bits more of the address. */
  lemma SpanBytes(level: nat)
    ensures Span(0) * PAGE_SIZE == 0x1000 && Span(level + 1) == 0x200 * Span(level)
  {
  }

  lemma TableSpan(level: nat)
    requires level > 0
    ensures Spans(PTES, level - 1) == Span(level)
  {
    SpansIsProduct(PTES, level - 1);
  }

  // ---------------------------------------------------------------- shape

  /** A well-formed entry: blocks only where the architecture allows them,
      aligned to their own size; tables only above level 0, with all entries. */
  predicate Wf(e: Pte, level: nat) {
    match e
    case Absent => true
    case Block(pa, attrs) =>
      && level <= MAX_BLOCK_LEVEL && GoodAttrs(attrs)
      && Aligned(pa, Span(level)) && pa + Span(level) <= PA_LIMIT
    case Table(_, es) => level > 0 && WfList(es, PTES, level - 1)
  }

  predicate WfList(es: Entries, n: nat, level: nat) {
    match es
    case Nil => n == 0
    case Cons(h, t) => n > 0 && Wf(h, level) && WfList(t, n - 1, level)
  }

  // ---------------------------------------------------------------- the abstract view

  /** What the table says about the page `off` pages after the start of the
      entry: nothing, or a page frame with attributes. */
  function Lookup(e: Pte, level: nat, off: nat): Option<Translation> {
    match e
    case Absent => None
    case Block(pa, attrs) => Some(Translation(pa + off, attrs))
    case Table(_, es) => if level == 0 then None else LookupList(es, level - 1, off)
  }

  function LookupList(es: Entries, level: nat, off: nat): Option<Translation> {
    match es
    case Nil => None
    case Cons(h, t) =>
      if off < Span(level) then Lookup(h, level, off) else LookupList(t, level, off - Span(level))
  }

  /** The attributes recorded for a page; an absent page has none. */
  function AttrsAt(es: Entries, level: nat, off: nat): Attrs {
    match LookupList(es, level, off)
    case None => NO_ATTRS
    case Some(t) => t.attrs
  }

  /** How often the page at `x` holds a table below the entry. */
  function Holds(e: Pte, x: nat): nat {
    match e
    case Absent => 0
    case Block(_, _) => 0
    case Table(addr, es) => One(x == addr) + HoldsList(es, x)
  }

  function HoldsList(es: Entries, x: nat): nat {
    match es
    case Nil => 0
    case Cons(h, t) => Holds(h, x) + HoldsList(t, x)
  }

  // ---------------------------------------------------------------- what is written and flushed

  /** What the hardware can notice: a write to an entry of a table it may walk,
      and a TLB invalidation of a range of pages. */
  datatype Event =
    | Write(base: nat, level: nat, pte: Pte)
    | Invalidate(begin: nat, end: nat)

  datatype State = State(pool: Pool, log: seq<Event>)

  predicate IsValid(e: Pte) {
    e.Table? || (e.Block? && e.attrs.valid)
  }

  /** Gives back every table below the entry, innermost first. */
  function FreePte(e: Pte, pool: Pool): Pool {
    match e
    case Absent => pool
    case Block(_, _) => pool
    case Table(addr, es) => Free(FreeList(es, pool), addr)
  }

  function FreeList(es: Entries, pool: Pool): Pool {
    match es
    case Nil => pool
    case Cons(h, t) => FreeList(t, FreePte(h, pool))
  }

  /** Replaces the entry at `base` by `pte`; `begin` is where invalidation
      starts when the old entry is valid. */
  function Replace(was: Pte, pte: Pte, level: nat, base: nat, begin: nat, flush: bool, st: State): State {
    var log :=
      if flush && IsValid(was) then
        st.log + [Write(base, level, Absent), Invalidate(begin, begin + Span(level))]
      else st.log;
    State(FreePte(was, st.pool), log + [Write(base, level, pte)])
  }

  // ---------------------------------------------------------------- map and unmap

  /** A request: map pages [begin, end) to frames from `pa` on with `attrs`, or
      unmap them. Without `commit` only the tables it will need are built;
      `flush` says whether valid entries are invalidated in the TLB. */
  datatype Request = Request(begin: nat, end: nat, pa: nat, attrs: Attrs, unmap: bool, commit: bool, flush: bool)

  predicate GoodRequest(q: Request) {
    q.unmap || (GoodAttrs(q.attrs) && (q.begin < q.end ==> q.pa + (q.end - q.begin) <= PA_LIMIT))
  }

  predicate InRange(q: Request, page: nat) {
    q.begin <= page < q.end
  }

  function FrameFor(q: Request, page: nat): nat
    requires q.begin <= page
  {
    q.pa + (page - q.begin)
  }

  /** The request concerns at least one page of the entry at `base`. */
  predicate Touches(q: Request, level: nat, base: nat) {
    q.begin < q.end && base < q.end && q.begin < base + Span(level)
  }

  /** The whole entry lies in the request and can be written as one entry. */
  predicate Covers(q: Request, level: nat, base: nat) {
    && q.begin <= base && base + Span(level) <= q.end
    && (q.unmap || level <= MAX_BLOCK_LEVEL)
    && Aligned(FrameFor(q, base), Span(level))
  }

  /** Nothing to do: already absent, or a block with the right attributes. The
      address of the block is not compared. */
  predicate Skips(q: Request, e: Pte) {
    if q.unmap then e.Absent? else e.Block? && e.attrs == q.attrs
  }

  function NewPte(q: Request, base: nat): Pte
    requires q.begin <= base
  {
    if q.unmap then Absent else Block(FrameFor(q, base), q.attrs)
  }

  function Blocks(n: nat, pa: nat, step: nat, attrs: Attrs): Entries {
    if n == 0 then Nil else Cons(Block(pa, attrs), Blocks(n - 1, pa + step, step, attrs))
  }

  function Absents(n: nat): Entries {
    if n == 0 then Nil else Cons(Absent, Absents(n - 1))
  }

  /** The entries of a new table that stands for the absent or block entry `e`. */
  function Split(e: Pte, level: nat): Entries
    requires level > 0 && !e.Table?
  {
    if e.Block? then Blocks(PTES, e.pa, Span(level - 1), e.attrs) else Absents(PTES)
  }

  datatype Mapped = Mapped(pte: Pte, st: State, ok: bool)
  datatype MappedList = MappedList(entries: Entries, st: State, ok: bool)

  function Max(a: nat, b: nat): nat {
    if a < b then b else a
  }

  function MapPte(e: Pte, level: nat, base: nat, q: Request, st: State): Mapped
    requires Touches(q, level, base)
    decreases level, 0, e
  {
    if Skips(q, e) then
      Mapped(e, st, true)
    else if Covers(q, level, base) then
      if q.commit then
        Mapped(NewPte(q, base), Replace(e, NewPte(q, base), level, base, base, q.flush, st), true)
      else
        Mapped(e, st, true)
    else if level == 0 then
      AlignedByOne(FrameFor(q, base)); assert false; Mapped(e, st, false)
    else if e.Table? then
      var r := MapList(e.entries, level - 1, base, q, st);
      Mapped(Table(e.addr, r.entries), r.st, r.ok)
    else
      var a := Alloc(st.pool);
      if a.ptr.None? then
        Mapped(e, st, false)
      else
        var nt := Table(a.ptr.value, Split(e, level));
        var st1 := Replace(e, nt, level, base, Max(base, q.begin), q.flush, State(a.pool, st.log));
        var r := MapList(nt.entries, level - 1, base, q, st1);
        Mapped(Table(nt.addr, r.entries), r.st, r.ok)
  }

  function MapList(es: Entries, level: nat, base: nat, q: Request, st: State): MappedList
    decreases level, 1, es
  {
    match es
    case Nil => MappedList(Nil, st, true)
    case Cons(h, t) =>
      if !Touches(q, level, base) then
        var r := MapList(t, level, base + Span(level), q, st);
        MappedList(Cons(h, r.entries), r.st, r.ok)
      else
        var r1 := MapPte(h, level, base, q, st);
        if !r1.ok then
          MappedList(Cons(r1.pte, t), r1.st, false)
        else
          var r := MapList(t, level, base + Span(level), q, r1.st);
          MappedList(Cons(r1.pte, r.entries), r.st, r.ok)
  }

  // ---------------------------------------------------------------- defragmentation

  const PAGE_SIZE: nat := 4096

  /** The attribute bits of any entry. */
  function AttrsOf(e: Pte): Attrs {
    match e
    case Absent => NO_ATTRS
    case Block(_, attrs) => attrs
    case Table(_, _) => TABLE_ATTRS
  }

  /** The address bits of any entry, as a page frame. */
  function FrameOf(e: Pte): nat {
    match e
    case Absent => 0
    case Block(pa, _) => pa
    case Table(addr, _) => addr / PAGE_SIZE
  }

  /** The entries in `rest` can be merged with the entry `first`. */
  predicate Mergeable(first: Pte, rest: Entries) {
    match rest
    case Nil => true
    case Cons(h, t) =>
      && h.Absent? == first.Absent?
      && (h.Absent? || (h.Block? && h.attrs == AttrsOf(first)))
      && Mergeable(first, t)
  }

  /** The single entry that replaces a table of mergeable entries. */
  function Merge(table: Pte, level: nat): Pte
    requires table.Table? && table.entries.Cons?
  {
    var first := table.entries.head;
    if first.Absent? then Absent
    else if level > MAX_BLOCK_LEVEL then table
    else Block(FrameOf(first), AttrsOf(first))
  }

  datatype Defragged = Defragged(pte: Pte, st: State)
  datatype DefraggedList = DefraggedList(entries: Entries, st: State)

  function DefragPte(e: Pte, level: nat, base: nat, flush: bool, st: State): Defragged
    decreases e
  {
    if !e.Table? || level == 0 then
      Defragged(e, st)
    else
      var r := DefragList(e.entries, level - 1, base, flush, st);
      var table := Table(e.addr, r.entries);
      if r.entries.Cons? && Mergeable(r.entries.head, r.entries.tail) && Merge(table, level) != table then
        var pte := Merge(table, level);
        Defragged(pte, Replace(table, pte, level, base, base, flush, r.st))
      else
        Defragged(table, r.st)
  }

  function DefragList(es: Entries, level: nat, base: nat, flush: bool, st: State): DefraggedList
    decreases es
  {
    match es
    case Nil => DefraggedList(Nil, st)
    case Cons(h, t) =>
      var r1 := DefragPte(h, level, base, flush, st);
      var r := DefragList(t, level, base + Span(level), flush, r1.st);
      DefraggedList(Cons(r1.pte, r.entries), r.st)
  }
}
