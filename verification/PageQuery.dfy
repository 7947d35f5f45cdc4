/** The two queries: the attributes of a range, and the translation of one
    address by a walk in software. */
module PageQuery {
  import opened Arith
  import opened PoolSpec
  import opened PageTree
  import opened PageMap

  // ---------------------------------------------------------------- attributes of a range

  /** The range [begin, end) has a page in the entry at `base`. */
  predicate Meets(begin: nat, end: nat, level: nat, base: nat) {
    begin < end && base < end && begin < base + Span(level)
  }

  datatype Seen = Mismatch | Seen(attrs: Option<Attrs>)

  function QueryPte(e: Pte, level: nat, base: nat, begin: nat, end: nat, got: Option<Attrs>): Seen
    decreases e
  {
    if e.Table? && level > 0 then
      var r := QueryList(e.entries, level - 1, base, begin, end, got);
      if r.Seen? && r.attrs.None? then Mismatch else r
    else if got.None? then Seen(Some(AttrsOf(e)))
    else if AttrsOf(e) != got.value then Mismatch
    else Seen(got)
  }

  function QueryList(es: Entries, level: nat, base: nat, begin: nat, end: nat, got: Option<Attrs>): Seen
    decreases es
  {
    match es
    case Nil => Seen(got)
    case Cons(h, t) =>
      if !Meets(begin, end, level, base) then
        QueryList(t, level, base + Span(level), begin, end, got)
      else
        var r := QueryPte(h, level, base, begin, end, got);
        if r.Mismatch? then Mismatch else QueryList(t, level, base + Span(level), begin, end, r.attrs)
  }

  /** The attributes shared by the pages of [begin, end), if there are such. */
  function GetAttrs(es: Entries, n: nat, level: nat, begin: nat, end: nat): Option<Attrs> {
    if end > Spans(n, level) then None
    else
      match QueryList(es, level, 0, begin, end, None)
      case Mismatch => None
      case Seen(a) => a
  }

  function AttrsUnder(e: Pte, level: nat, off: nat): Attrs {
    match Lookup(e, level, off)
    case None => NO_ATTRS
    case Some(t) => t.attrs
  }

  /** An answer is the attributes of every page asked about, and a previous
      answer is kept. */
  lemma {:induction false} QueryPteSound(e: Pte, level: nat, base: nat, begin: nat, end: nat, got: Option<Attrs>,
                                         page: nat)
    requires Wf(e, level) && begin <= page < end && base <= page < base + Span(level)
    ensures var r := QueryPte(e, level, base, begin, end, got);
            r.Seen? ==> r.attrs == Some(AttrsUnder(e, level, page - base)) && (got.Some? ==> r.attrs == got)
    decreases e
  {
    if e.Table? {
      TableSpan(level);
      QueryListSound(e.entries, PTES, level - 1, base, begin, end, got, page);
    }
  }

  lemma {:induction false} QueryListSound(es: Entries, n: nat, level: nat, base: nat, begin: nat, end: nat,
                                          got: Option<Attrs>, page: nat)
    requires WfList(es, n, level)
    ensures var r := QueryList(es, level, base, begin, end, got);
            r.Seen? ==>
              && (begin <= page < end && base <= page < base + Spans(n, level) ==>
                    r.attrs == Some(AttrsAt(es, level, page - base)))
              && (got.Some? ==> r.attrs == got)
    decreases es
  {
    if es.Cons? {
      if !Meets(begin, end, level, base) {
        QueryListSound(es.tail, n - 1, level, base + Span(level), begin, end, got, page);
      } else {
        var r := QueryPte(es.head, level, base, begin, end, got);
        var inside := if begin <= page < end && base <= page < base + Span(level) then page else Max(base, begin);
        QueryPteSound(es.head, level, base, begin, end, got, inside);
        if r.Seen? {
          QueryListSound(es.tail, n - 1, level, base + Span(level), begin, end, r.attrs, page);
        }
      }
    }
  }

  predicate AllHave(es: Entries, n: nat, level: nat, base: nat, begin: nat, end: nat, a: Attrs) {
    forall off :: 0 <= off < Spans(n, level) && begin <= base + off < end ==> AttrsAt(es, level, off) == a
  }

  predicate AllUnderHave(e: Pte, level: nat, base: nat, begin: nat, end: nat, a: Attrs) {
    forall off :: 0 <= off < Span(level) && begin <= base + off < end ==> AttrsUnder(e, level, off) == a
  }

  lemma SplitAllHave(es: Entries, n: nat, level: nat, base: nat, begin: nat, end: nat, a: Attrs)
    requires n > 0 && es.Cons? && AllHave(es, n, level, base, begin, end, a)
    ensures AllUnderHave(es.head, level, base, begin, end, a)
    ensures AllHave(es.tail, n - 1, level, base + Span(level), begin, end, a)
  {
    forall off | 0 <= off < Span(level) && begin <= base + off < end ensures AttrsUnder(es.head, level, off) == a {
      assert AttrsAt(es, level, off) == a;
    }
    forall off | 0 <= off < Spans(n - 1, level) && begin <= base + Span(level) + off < end
      ensures AttrsAt(es.tail, level, off) == a
    {
      assert AttrsAt(es, level, off + Span(level)) == a;
    }
  }

  /** A range that is uniform is found to be. */
  lemma {:induction false} QueryPteComplete(e: Pte, level: nat, base: nat, begin: nat, end: nat, got: Option<Attrs>,
                                            a: Attrs)
    requires Wf(e, level) && Meets(begin, end, level, base) && (got == None || got == Some(a))
    requires AllUnderHave(e, level, base, begin, end, a)
    ensures QueryPte(e, level, base, begin, end, got) == Seen(Some(a))
    decreases e
  {
    var first := Max(base, begin);
    assert AttrsUnder(e, level, first - base) == a;
    if e.Table? {
      TableSpan(level);
      var below := level - 1;
      forall off | 0 <= off < Spans(PTES, below) && begin <= base + off < end
        ensures AttrsAt(e.entries, below, off) == a
      {
        assert AttrsUnder(e, level, off) == a;
      }
      QueryListComplete(e.entries, PTES, below, base, begin, end, got, a);
      QueryListSound(e.entries, PTES, below, base, begin, end, got, first);
    }
  }

  lemma {:induction false} QueryListComplete(es: Entries, n: nat, level: nat, base: nat, begin: nat, end: nat,
                                             got: Option<Attrs>, a: Attrs)
    requires WfList(es, n, level) && (got == None || got == Some(a)) && AllHave(es, n, level, base, begin, end, a)
    ensures var r := QueryList(es, level, base, begin, end, got); r.Seen? && (r.attrs == got || r.attrs == Some(a))
    decreases es
  {
    if es.Cons? {
      SplitAllHave(es, n, level, base, begin, end, a);
      if !Meets(begin, end, level, base) {
        QueryListComplete(es.tail, n - 1, level, base + Span(level), begin, end, got, a);
      } else {
        QueryPteComplete(es.head, level, base, begin, end, got, a);
        QueryListComplete(es.tail, n - 1, level, base + Span(level), begin, end, Some(a), a);
      }
    }
  }

  /** The query answers `a` exactly when the range is not empty, lies in the
      address space, and every page in it has the attributes `a`. */
  lemma GetAttrsExact(es: Entries, n: nat, level: nat, begin: nat, end: nat, a: Attrs)
    requires WfList(es, n, level)
    ensures GetAttrs(es, n, level, begin, end) == Some(a) <==>
            && begin < end <= Spans(n, level)
            && forall page :: begin <= page < end ==> AttrsAt(es, level, page) == a
  {
    var r := QueryList(es, level, 0, begin, end, None);
    if GetAttrs(es, n, level, begin, end) == Some(a) {
      if begin >= end { EmptyQuery(es, level, 0, begin, end, None); }
      forall page | begin <= page < end ensures AttrsAt(es, level, page) == a {
        QueryListSound(es, n, level, 0, begin, end, None, page);
      }
    }
    if begin < end <= Spans(n, level) && forall page :: begin <= page < end ==> AttrsAt(es, level, page) == a {
      QueryListComplete(es, n, level, 0, begin, end, None, a);
      QueryListSound(es, n, level, 0, begin, end, None, begin);
    }
  }

  lemma {:induction false} EmptyQuery(es: Entries, level: nat, base: nat, begin: nat, end: nat, got: Option<Attrs>)
    requires begin >= end
    ensures QueryList(es, level, base, begin, end, got) == Seen(got)
    decreases es
  {
    if es.Cons? {
      EmptyQuery(es.tail, level, base + Span(level), begin, end, got);
    }
  }

  // ---------------------------------------------------------------- the walk

  datatype Hit = Miss | Hit(level: nat, pa: nat, attrs: Attrs)

  /** The block entry that maps the page, and the level it is found at. */
  function FindPte(e: Pte, level: nat, off: nat): Hit
    decreases e
  {
    if e.Block? then Hit(level, e.pa, e.attrs)
    else if level == 0 || !e.Table? then Miss
    else FindIn(e.entries, level - 1, off)
  }

  function FindIn(es: Entries, level: nat, off: nat): Hit
    decreases es
  {
    match es
    case Nil => Miss
    case Cons(h, t) =>
      if off < Span(level) then FindPte(h, level, off) else FindIn(t, level, off - Span(level))
  }

  lemma {:induction false} SpanAligned(k: nat, level: nat)
    requires k <= level
    ensures Aligned(Span(level), Span(k))
  {
    if k == level {
    } else {
      SpanAligned(k, level - 1);
      MultipleOfAligned(PTES, Span(level - 1), Span(k));
    }
  }

  lemma {:induction false} MultipleOfAligned(n: nat, x: nat, d: nat)
    requires d > 0 && Aligned(x, d)
    ensures Aligned(n * x, d)
  {
    if n > 0 {
      MultipleOfAligned(n - 1, x, d);
      AlignedSum((n - 1) * x, x, d);
      assert n * x == (n - 1) * x + x;
    }
  }

  /** The walk finds a block exactly where the view has a translation, and the
      translation is the block plus the offset into it. */
  predicate Found(hit: Hit, level: nat, off: nat, t: Option<Translation>) {
    match hit
    case Miss => t.None?
    case Hit(k, pa, a) => k <= level && t == Some(Translation(pa + Rem(off, Span(k)), a))
  }

  lemma {:induction false} FindPteExact(e: Pte, level: nat, off: nat)
    requires Wf(e, level) && off < Span(level)
    ensures Found(FindPte(e, level, off), level, off, Lookup(e, level, off))
    decreases e
  {
    if e.Table? {
      FindInExact(e.entries, PTES, level - 1, off);
    }
  }

  lemma {:induction false} FindInExact(es: Entries, n: nat, level: nat, off: nat)
    requires WfList(es, n, level)
    ensures Found(FindIn(es, level, off), level, off, LookupList(es, level, off))
    decreases es
  {
    if es.Cons? {
      if off < Span(level) {
        FindPteExact(es.head, level, off);
      } else {
        FindInExact(es.tail, n - 1, level, off - Span(level));
        var hit := FindIn(es.tail, level, off - Span(level));
        if hit.Hit? {
          SpanAligned(hit.level, level);
          RemShift(Span(level), off, Span(hit.level));
        }
      }
    }
  }

  /** The index of a page's entry in a table at the given level. */
  function IndexAt(page: nat, level: nat): (i: nat)
    ensures i < PTES
  {
    (page / Span(level)) % PTES
  }

  /** What the indices below the level select. */
  function Selected(page: nat, level: nat): (r: nat)
    ensures r <= page && r < Span(level)
  {
    RemIsMod(page, Span(level));
    Rem(page, Span(level))
  }

  /** One more digit of the page number. */
  lemma Digit(page: nat, level: nat)
    ensures Selected(page, level + 1) == Selected(page, level) + IndexAt(page, level) * Span(level)
  {
    RemIsMod(page, Span(level));
    RemIsMod(page, Span(level + 1));
    var s := Span(level);
    DivMod(page, s);
    DigitArith(page, s, page / s, page % s, page / s / PTES, IndexAt(page, level));
  }

  lemma DigitArith(page: nat, s: nat, q: nat, r: nat, q1: nat, i: nat)
    requires s > 0 && r < s && page == q * s + r && q == q1 * PTES + i && i < PTES
    ensures page % (PTES * s) == r + i * s
  {
    MulGap(i, PTES, s);
    Distribute(q1 * PTES, i, s);
    ProductAssoc(q1, PTES, s);
    DivUnique(page, q1, i * s + r, PTES * s);
  }

  /** Subtracts, level by level, the part of the address that selected the
      entries on the way down; the offset into the block is left, and the part of
      the address that selected nothing. */
  method OffsetInBlock(ipa: nat, pteLevel: nat, rootLevel: nat) returns (offset: nat)
    requires pteLevel <= rootLevel
    ensures var page := ipa / PAGE_SIZE;
            offset == (Selected(page, pteLevel) + (page - Selected(page, rootLevel + 1))) * PAGE_SIZE + ipa % PAGE_SIZE
  {
    var page := ipa / PAGE_SIZE;
    var rest: int := ipa;
    var level := pteLevel;
    ghost var inside, low := Selected(page, pteLevel), Selected(page, pteLevel);
    while level <= rootLevel
      invariant pteLevel <= level <= rootLevel + 1 && low == Selected(page, level)
      invariant rest == ipa - (low - inside) * PAGE_SIZE
    {
      Digit(page, level);
      low := low + IndexAt(page, level) * Span(level);
      rest := rest - IndexAt(page, level) * Span(level) * PAGE_SIZE;
      level := level + 1;
    }
    offset := rest;
  }

  /** How a walk ends: nothing is mapped, the page is found at an address, or
      the index of the root table is too high. */
  datatype Walk = NotMapped | At(pa: nat) | OutsideTables

  /** What the software walk answers. The part of the address that selects no
      entry is taken over into the result. */
  function WalkResult(es: Entries, n: nat, level: nat, ipa: nat): (w: Walk) {
    var page := ipa / PAGE_SIZE;
    var low := Selected(page, level + 2);
    if low >= Spans(n, level) then OutsideTables
    else
      match LookupList(es, level, low)
      case None => NotMapped
      case Some(t) => At(((t.pa + (page - low)) * PAGE_SIZE + ipa % PAGE_SIZE) % UINT64)
  }

  /** The software walk through root tables with `n` entries together. */
  method PageTableWalk(es: Entries, n: nat, level: nat, ipa: nat) returns (w: Walk)
    requires WfList(es, n, level)
    ensures w == WalkResult(es, n, level, ipa)
  {
    var page := ipa / PAGE_SIZE;
    var low := Selected(page, level + 2);
    if low >= Spans(n, level) {
      return OutsideTables;
    }
    FindInExact(es, n, level, low);
    var hit := FindIn(es, level, low);
    if hit.Miss? {
      return NotMapped;
    }
    SameOffset(page, hit.level, level);
    var offset := OffsetInBlock(ipa, hit.level, level + 1);
    WalkSum(hit.pa, Selected(page, hit.level), page - low, ipa % PAGE_SIZE);
    w := At((hit.pa * PAGE_SIZE + offset) % UINT64);
  }

  /** The offset into a block depends only on the part that selects entries. */
  lemma SameOffset(page: nat, k: nat, level: nat)
    requires k <= level
    ensures Selected(page, k) == Selected(Selected(page, level + 2), k)
  {
    var unit, low := Span(level + 2), Selected(page, level + 2);
    RemIsMod(page, unit);
    SpanAligned(k, level + 2);
    MultipleOfAligned(page / unit, unit, Span(k));
    DivMod(page, unit);
    RemShift(page / unit * unit, page, Span(k));
  }

  /** What the walk should answer: the translation of the page, if there is one. */
  function Translated(es: Entries, level: nat, ipa: nat): (w: Walk) {
    match LookupList(es, level, ipa / PAGE_SIZE)
    case None => NotMapped
    case Some(t) => At(t.pa * PAGE_SIZE + ipa % PAGE_SIZE)
  }

  /** It does so if and only if the address is in the address space of the table,
      or what is left of it when it selects entries selects an absent one. */
  lemma WalkExact(es: Entries, n: nat, level: nat, ipa: nat)
    requires WfList(es, n, level) && n <= PTES * PTES
    ensures var low := Selected(ipa / PAGE_SIZE, level + 2);
            WalkResult(es, n, level, ipa) == Translated(es, level, ipa) <==>
            || ipa / PAGE_SIZE < Spans(n, level)
            || (low < Spans(n, level) && LookupList(es, level, low).None?)
  {
    var page := ipa / PAGE_SIZE;
    RootsFit(n, level);
    if page < Spans(n, level) {
      InLimit(es, n, level, page);
    } else {
      NothingOutside(es, n, level, page);
    }
  }

  /** A page that is not in the address space, and one that comes out as page 0. */
  lemma WalkOutside(pa: nat, attrs: Attrs)
    requires pa + PTES <= PA_LIMIT && GoodAttrs(attrs)
    ensures var es := Blocks(PTES, pa, Span(0), attrs);
            && WfList(es, PTES, 0) && LookupList(es, 0, PTES).None? && LookupList(es, 0, Span(2)).None?
            && WalkResult(es, PTES, 0, PTES * PAGE_SIZE) == OutsideTables
            && WalkResult(es, PTES, 0, Span(2) * PAGE_SIZE) == At((pa + Span(2)) * PAGE_SIZE)
  {
    AlignedByOne(pa);
    assert Span(0) == 1 && Span(1) == PTES && Span(2) == PTES * PTES;
    SpansIsProduct(PTES, 0);
    BlocksWf(PTES, pa, 0, attrs);
    BlocksView(PTES, pa, 0, attrs, 0);
    BlocksView(PTES, pa, 0, attrs, PTES);
    BlocksView(PTES, pa, 0, attrs, Span(2));
  }

  lemma {:induction false} NothingOutside(es: Entries, n: nat, level: nat, off: nat)
    requires WfList(es, n, level) && off >= Spans(n, level)
    ensures LookupList(es, level, off).None?
    decreases es
  {
    if es.Cons? {
      NothingOutside(es.tail, n - 1, level, off - Span(level));
    }
  }

  /** Frames fit in the address bits of an entry. */
  lemma {:induction false} InLimit(es: Entries, n: nat, level: nat, off: nat)
    requires WfList(es, n, level) && off < Spans(n, level)
    ensures var t := LookupList(es, level, off); t.Some? ==> t.value.pa < PA_LIMIT
    decreases es
  {
    if off >= Span(level) {
      InLimit(es.tail, n - 1, level, off - Span(level));
    } else if es.head.Table? {
      TableSpan(level);
      InLimit(es.head.entries, PTES, level - 1, off);
    }
  }

  lemma RootsFit(n: nat, level: nat)
    requires n <= PTES * PTES
    ensures Spans(n, level) <= Span(level + 2)
  {
    SpansIsProduct(n, level);
    if n < PTES * PTES {
      MulGap(n, PTES * PTES, Span(level));
    }
    assert Span(level + 2) == PTES * Span(level + 1) == PTES * (PTES * Span(level));
  }

  lemma WalkSum(pa: nat, r: nat, high: nat, o: nat)
    ensures pa * PAGE_SIZE + ((r + high) * PAGE_SIZE + o) == (pa + r + high) * PAGE_SIZE + o
  {
  }
}
