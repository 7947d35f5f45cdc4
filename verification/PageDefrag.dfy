/** Defragmentation keeps the meaning of the table exactly when every table it
    merges maps a contiguous, aligned range. */
module PageDefrag {
  import opened Arith
  import opened PoolSpec
  import opened PageTree
  import opened PageConserve

  /** Every page of the entry is mapped, all with the attributes `a`. */
  predicate Uniform(e: Pte, level: nat, a: Attrs) {
    match e
    case Absent => false
    case Block(_, attrs) => attrs == a
    case Table(_, es) => level > 0 && UniformList(es, level - 1, a)
  }

  predicate UniformList(es: Entries, level: nat, a: Attrs) {
    es.Cons? ==> Uniform(es.head, level, a) && UniformList(es.tail, level, a)
  }

  /** Every page of the entry is mapped, the first to `pa` and so on. */
  predicate Runs(e: Pte, level: nat, pa: nat) {
    match e
    case Absent => false
    case Block(p, _) => p == pa
    case Table(_, es) => level > 0 && RunsList(es, level - 1, pa)
  }

  predicate RunsList(es: Entries, level: nat, pa: nat) {
    es.Cons? ==> Runs(es.head, level, pa) && RunsList(es.tail, level, pa + Span(level))
  }

  /** The frame of the first page below the entry. */
  function FirstFrame(e: Pte): nat {
    match e
    case Absent => 0
    case Block(pa, _) => pa
    case Table(_, es) => if es.Nil? then 0 else FirstFrame(es.head)
  }

  function FirstAttrs(e: Pte): Attrs {
    match e
    case Absent => NO_ATTRS
    case Block(_, a) => a
    case Table(_, es) => if es.Nil? then NO_ATTRS else FirstAttrs(es.head)
  }

  /** Where a table is uniform, so that it will be merged into a block, its
      frames are in order and start at a multiple of the block size. */
  predicate Safe(e: Pte, level: nat) {
    e.Table? && level > 0 ==>
      && SafeList(e.entries, level - 1)
      && (level <= MAX_BLOCK_LEVEL && Uniform(e, level, FirstAttrs(e)) ==>
            Runs(e, level, FirstFrame(e)) && Aligned(FirstFrame(e), Span(level)))
  }

  predicate SafeList(es: Entries, level: nat) {
    es.Cons? ==> Safe(es.head, level) && SafeList(es.tail, level)
  }

  // ---------------------------------------------------------------- what it becomes

  /** Every page of the entry is absent. */
  predicate AllAbsent(e: Pte) {
    e.Absent? || (e.Table? && AllAbsentList(e.entries))
  }

  predicate AllAbsentList(es: Entries) {
    es.Cons? ==> AllAbsent(es.head) && AllAbsentList(es.tail)
  }

  /** The shape of the result: a uniform entry becomes one block, an empty one
      becomes absent, anything else is a table with defragmented entries. */
  predicate Shape(e: Pte, level: nat, r: Pte) {
    var a := FirstAttrs(e);
    if AllAbsent(e) then r == Absent
    else if level <= MAX_BLOCK_LEVEL && Uniform(e, level, a) then r == Block(FirstFrame(e), a)
    else r.Table?
  }

  lemma {:induction false} DefragShape(e: Pte, level: nat, base: nat, flush: bool, st: State)
    requires Wf(e, level)
    ensures Shape(e, level, DefragPte(e, level, base, flush, st).pte)
    decreases e
  {
    if e.Table? {
      var h, t := e.entries.head, e.entries.tail;
      assert WfList(t, PTES - 1, level - 1);
      var r1 := DefragPte(h, level - 1, base, flush, st);
      DefragShape(h, level - 1, base, flush, st);
      DefragListShape(t, PTES - 1, level - 1, base + Span(level - 1), flush, r1.st, r1.pte);
      FirstIsGood(h, level - 1);
      if Uniform(h, level - 1, FirstAttrs(h)) { UniformMapped(h, level - 1, FirstAttrs(h)); }
      assert AllAbsent(e) <==> AllAbsent(h) && AllAbsentList(t);
      assert Uniform(e, level, FirstAttrs(e)) <==>
             Uniform(h, level - 1, FirstAttrs(h)) && UniformList(t, level - 1, FirstAttrs(h));
    }
  }

  lemma {:induction false} FirstIsGood(e: Pte, level: nat)
    requires Wf(e, level)
    ensures Uniform(e, level, FirstAttrs(e)) ==> GoodAttrs(FirstAttrs(e))
  {
    if e.Table? {
      var h := e.entries.head;
      assert Uniform(e, level, FirstAttrs(e)) ==> UniformList(e.entries, level - 1, FirstAttrs(h));
      FirstIsGood(h, level - 1);
    }
  }

  lemma {:induction false} UniformMapped(e: Pte, level: nat, a: Attrs)
    requires Wf(e, level) && Uniform(e, level, a)
    ensures !AllAbsent(e) && FirstAttrs(e) == a
  {
    if e.Table? {
      assert e.entries.Cons?;
      UniformMapped(e.entries.head, level - 1, a);
    }
  }

  /** Which lists of defragmented entries can be merged. */
  lemma {:induction false} DefragListShape(es: Entries, n: nat, level: nat, base: nat, flush: bool, st: State,
                                           first: Pte)
    requires WfList(es, n, level)
    ensures var r := DefragList(es, level, base, flush, st).entries;
            && (es.Cons? <==> r.Cons?)
            && (first.Absent? ==> (Mergeable(first, r) <==> AllAbsentList(es)))
            && (first.Block? && GoodAttrs(first.attrs) ==>
                  (Mergeable(first, r) <==> level <= MAX_BLOCK_LEVEL && UniformList(es, level, first.attrs)) || es.Nil?)
            && (first.Table? && es.Cons? ==> !Mergeable(first, r))
    decreases es
  {
    if es.Cons? {
      var r1 := DefragPte(es.head, level, base, flush, st);
      DefragShape(es.head, level, base, flush, st);
      FirstIsGood(es.head, level);
      DefragListShape(es.tail, n - 1, level, base + Span(level), flush, r1.st, first);
      if first.Block? && Uniform(es.head, level, first.attrs) {
        UniformMapped(es.head, level, first.attrs);
      }
    }
  }

  // ---------------------------------------------------------------- safe tables keep their meaning

  lemma {:induction false} AbsentView(e: Pte, level: nat, off: nat)
    requires AllAbsent(e)
    ensures Lookup(e, level, off) == None
    decreases e
  {
    if e.Table? && level > 0 {
      AbsentListView(e.entries, level - 1, off);
    }
  }

  lemma {:induction false} AbsentListView(es: Entries, level: nat, off: nat)
    requires AllAbsentList(es)
    ensures LookupList(es, level, off) == None
    decreases es
  {
    if es.Cons? {
      if off < Span(level) {
        AbsentView(es.head, level, off);
      } else {
        AbsentListView(es.tail, level, off - Span(level));
      }
    }
  }

  /** A uniform entry whose frames run on from `pa` means one block at `pa`. */
  lemma {:induction false} RunsView(e: Pte, level: nat, pa: nat, a: Attrs, off: nat)
    requires Wf(e, level) && Uniform(e, level, a) && Runs(e, level, pa) && off < Span(level)
    ensures Lookup(e, level, off) == Some(Translation(pa + off, a)) && pa + Span(level) <= PA_LIMIT
    decreases e
  {
    if e.Table? {
      TableSpan(level);
      RunsListView(e.entries, PTES, level - 1, pa, a, off);
    }
  }

  lemma {:induction false} RunsListView(es: Entries, n: nat, level: nat, pa: nat, a: Attrs, off: nat)
    requires WfList(es, n, level) && UniformList(es, level, a) && RunsList(es, level, pa) && off < Spans(n, level)
    ensures LookupList(es, level, off) == Some(Translation(pa + off, a)) && pa + Spans(n, level) <= PA_LIMIT
    decreases es
  {
    RunsView(es.head, level, pa, a, if off < Span(level) then off else 0);
    if n > 1 {
      RunsListView(es.tail, n - 1, level, pa + Span(level), a, if off < Span(level) then 0 else off - Span(level));
    }
  }

  lemma {:induction false} SafeDefragView(e: Pte, level: nat, base: nat, flush: bool, st: State, off: nat)
    requires Wf(e, level) && Safe(e, level) && off < Span(level)
    ensures var r := DefragPte(e, level, base, flush, st).pte;
            Lookup(r, level, off) == Lookup(e, level, off) && Wf(r, level)
    decreases e
  {
    DefragShape(e, level, base, flush, st);
    if AllAbsent(e) {
      AbsentView(e, level, off);
    } else if level <= MAX_BLOCK_LEVEL && Uniform(e, level, FirstAttrs(e)) {
      if e.Table? {
        RunsView(e, level, FirstFrame(e), FirstAttrs(e), off);
        FirstIsGood(e, level);
      }
    } else {
      TableSpan(level);
      SafeDefragListView(e.entries, PTES, level - 1, base, flush, st, off);
    }
  }

  lemma {:induction false} SafeDefragListView(es: Entries, n: nat, level: nat, base: nat, flush: bool, st: State,
                                              off: nat)
    requires WfList(es, n, level) && SafeList(es, level) && off < Spans(n, level)
    ensures var r := DefragList(es, level, base, flush, st).entries;
            LookupList(r, level, off) == LookupList(es, level, off) && WfList(r, n, level)
    decreases es
  {
    SafeDefragView(es.head, level, base, flush, st, if off < Span(level) then off else 0);
    var st1 := DefragPte(es.head, level, base, flush, st).st;
    if n > 1 {
      SafeDefragListView(es.tail, n - 1, level, base + Span(level), flush, st1,
          if off < Span(level) then 0 else off - Span(level));
    } else {
      assert es.tail == Nil;
    }
  }

  // ---------------------------------------------------------------- and only safe tables do

  predicate SameView(e: Pte, r: Pte, level: nat) {
    forall off :: 0 <= off < Span(level) ==> Lookup(r, level, off) == Lookup(e, level, off)
  }

  predicate SameListView(es: Entries, rs: Entries, n: nat, level: nat) {
    forall off :: 0 <= off < Spans(n, level) ==> LookupList(rs, level, off) == LookupList(es, level, off)
  }

  lemma SplitListView(es: Entries, rs: Entries, n: nat, level: nat)
    requires n > 0 && es.Cons? && rs.Cons? && SameListView(es, rs, n, level)
    ensures SameView(es.head, rs.head, level) && SameListView(es.tail, rs.tail, n - 1, level)
  {
    forall off | 0 <= off < Span(level)
      ensures Lookup(rs.head, level, off) == Lookup(es.head, level, off)
    {
      assert LookupList(rs, level, off) == LookupList(es, level, off);
    }
    forall off | 0 <= off < Spans(n - 1, level)
      ensures LookupList(rs.tail, level, off) == LookupList(es.tail, level, off)
    {
      assert LookupList(rs, level, off + Span(level)) == LookupList(es, level, off + Span(level));
    }
  }

  lemma {:induction false} BlockViewRuns(e: Pte, level: nat, pa: nat, a: Attrs)
    requires Wf(e, level) && SameView(e, Block(pa, a), level)
    ensures Runs(e, level, pa)
    decreases e
  {
    assert Lookup(Block(pa, a), level, 0) == Lookup(e, level, 0);
    if e.Table? {
      TableSpan(level);
      var below := level - 1;
      forall off | 0 <= off < Spans(PTES, below)
        ensures LookupList(e.entries, below, off) == Some(Translation(pa + off, a))
      {
        assert Lookup(Block(pa, a), level, off) == Lookup(e, level, off);
      }
      BlockViewRunsList(e.entries, PTES, level - 1, pa, a);
    }
  }

  lemma {:induction false} BlockViewRunsList(es: Entries, n: nat, level: nat, pa: nat, a: Attrs)
    requires WfList(es, n, level)
    requires forall off :: 0 <= off < Spans(n, level) ==> LookupList(es, level, off) == Some(Translation(pa + off, a))
    ensures RunsList(es, level, pa)
    decreases es
  {
    if es.Cons? {
      forall off | 0 <= off < Span(level)
        ensures Lookup(es.head, level, off) == Lookup(Block(pa, a), level, off)
      {
        assert LookupList(es, level, off) == Some(Translation(pa + off, a));
      }
      BlockViewRuns(es.head, level, pa, a);
      forall off | 0 <= off < Spans(n - 1, level)
        ensures LookupList(es.tail, level, off) == Some(Translation(pa + Span(level) + off, a))
      {
        assert LookupList(es, level, off + Span(level)) == Some(Translation(pa + (off + Span(level)), a));
      }
      BlockViewRunsList(es.tail, n - 1, level, pa + Span(level), a);
    }
  }

  lemma {:induction false} RunsSafe(e: Pte, level: nat, pa: nat)
    requires Wf(e, level) && Runs(e, level, pa) && Aligned(pa, Span(level))
    ensures Safe(e, level) && FirstFrame(e) == pa
    decreases e
  {
    if e.Table? {
      AlignedFactor(pa, PTES, Span(level - 1));
      RunsListSafe(e.entries, PTES, level - 1, pa);
    }
  }

  lemma {:induction false} RunsListSafe(es: Entries, n: nat, level: nat, pa: nat)
    requires WfList(es, n, level) && RunsList(es, level, pa) && Aligned(pa, Span(level))
    ensures SafeList(es, level) && (es.Cons? ==> FirstFrame(es.head) == pa)
    decreases es
  {
    if es.Cons? {
      RunsSafe(es.head, level, pa);
      AlignedSum(pa, Span(level), Span(level));
      RunsListSafe(es.tail, n - 1, level, pa + Span(level));
    }
  }

  lemma {:induction false} AbsentSafe(e: Pte, level: nat)
    requires Wf(e, level) && AllAbsent(e)
    ensures Safe(e, level)
    decreases e
  {
    if e.Table? {
      AbsentListSafe(e.entries, PTES, level - 1);
      if Uniform(e, level, FirstAttrs(e)) {
        UniformMapped(e, level, FirstAttrs(e));
      }
    }
  }

  lemma {:induction false} AbsentListSafe(es: Entries, n: nat, level: nat)
    requires WfList(es, n, level) && AllAbsentList(es)
    ensures SafeList(es, level)
    decreases es
  {
    if es.Cons? {
      AbsentSafe(es.head, level);
      AbsentListSafe(es.tail, n - 1, level);
    }
  }

  lemma {:induction false} KeptViewIsSafe(e: Pte, level: nat, base: nat, flush: bool, st: State)
    requires Wf(e, level)
    requires var r := DefragPte(e, level, base, flush, st).pte; SameView(e, r, level) && Wf(r, level)
    ensures Safe(e, level)
    decreases e
  {
    DefragShape(e, level, base, flush, st);
    if AllAbsent(e) {
      AbsentSafe(e, level);
    } else if level <= MAX_BLOCK_LEVEL && Uniform(e, level, FirstAttrs(e)) {
      BlockViewRuns(e, level, FirstFrame(e), FirstAttrs(e));
      RunsSafe(e, level, FirstFrame(e));
    } else {
      var below := level - 1;
      var rs := DefragList(e.entries, below, base, flush, st).entries;
      TableSpan(level);
      forall off | 0 <= off < Spans(PTES, below)
        ensures LookupList(rs, below, off) == LookupList(e.entries, below, off)
      {
        assert Lookup(Table(e.addr, rs), level, off) == Lookup(e, level, off);
      }
      KeptListViewIsSafe(e.entries, PTES, level - 1, base, flush, st);
    }
  }

  lemma {:induction false} KeptListViewIsSafe(es: Entries, n: nat, level: nat, base: nat, flush: bool, st: State)
    requires WfList(es, n, level)
    requires var rs := DefragList(es, level, base, flush, st).entries;
             SameListView(es, rs, n, level) && WfList(rs, n, level)
    ensures SafeList(es, level)
    decreases es
  {
    if es.Cons? {
      var r1 := DefragPte(es.head, level, base, flush, st);
      var rs := DefragList(es, level, base, flush, st).entries;
      SplitListView(es, rs, n, level);
      KeptViewIsSafe(es.head, level, base, flush, st);
      KeptListViewIsSafe(es.tail, n - 1, level, base + Span(level), flush, r1.st);
    }
  }

  /** Defragmentation yields a well-formed table with the same meaning if and
      only if the table is safe. */
  lemma DefragExact(es: Entries, n: nat, level: nat, base: nat, flush: bool, st: State)
    requires WfList(es, n, level)
    ensures var rs := DefragList(es, level, base, flush, st).entries;
            SafeList(es, level) <==> SameListView(es, rs, n, level) && WfList(rs, n, level)
  {
    var rs := DefragList(es, level, base, flush, st).entries;
    if SafeList(es, level) {
      forall off | 0 <= off < Spans(n, level)
        ensures LookupList(rs, level, off) == LookupList(es, level, off) && WfList(rs, n, level)
      {
        SafeDefragListView(es, n, level, base, flush, st, off);
      }
      if n > 0 {
        SafeDefragListView(es, n, level, base, flush, st, 0);
      }
    } else if SameListView(es, rs, n, level) && WfList(rs, n, level) {
      KeptListViewIsSafe(es, n, level, base, flush, st);
    }
  }

  /** A table whose pages all map to one frame is merged into a block that maps
      them to consecutive frames. */
  lemma AliasesAreLost(addr: nat, pa: nat, a: Attrs, st: State)
    requires GoodAttrs(a) && pa < PA_LIMIT
    ensures var e := Table(addr, Blocks(PTES, pa, 0, a));
            var r := DefragPte(e, 1, 0, false, st).pte;
            && Wf(e, 1) && Lookup(e, 1, 1) == Some(Translation(pa, a))
            && r == Block(pa, a) && Lookup(r, 1, 1) == Some(Translation(pa + 1, a))
  {
    var e := Table(addr, Blocks(PTES, pa, 0, a));
    AliasesUniform(PTES, pa, a);
    DefragShape(e, 1, 0, false, st);
    UniformMapped(e, 1, a);
    assert FirstFrame(e) == FirstFrame(e.entries.head) == pa;
    var second := e.entries.tail;
    assert LookupList(e.entries, 0, 1) == LookupList(second, 0, 0) == Lookup(second.head, 0, 0);
  }

  lemma {:induction false} AliasesUniform(n: nat, pa: nat, a: Attrs)
    requires GoodAttrs(a) && pa < PA_LIMIT
    ensures var es := Blocks(n, pa, 0, a);
            && WfList(es, n, 0) && UniformList(es, 0, a)
            && (n >= 1 ==> es.Cons? && es.head == Block(pa, a))
            && (n >= 2 ==> es.tail.Cons? && es.tail.head == Block(pa, a))
  {
    if n > 0 {
      AlignedByOne(pa);
      AliasesUniform(n - 1, pa, a);
      assert Blocks(n, pa, 0, a).tail == Blocks(n - 1, pa, 0, a);
    }
  }

  // ---------------------------------------------------------------- identity mappings

  /** Every block maps its pages to the frames of the same number. */
  predicate Identity(e: Pte, level: nat, base: nat) {
    match e
    case Absent => true
    case Block(pa, _) => pa == base
    case Table(_, es) => level > 0 && IdentityList(es, level - 1, base)
  }

  predicate IdentityList(es: Entries, level: nat, base: nat) {
    es.Cons? ==> Identity(es.head, level, base) && IdentityList(es.tail, level, base + Span(level))
  }

  lemma {:induction false} IdentityRuns(e: Pte, level: nat, base: nat, a: Attrs)
    requires Identity(e, level, base) && Uniform(e, level, a)
    ensures Runs(e, level, base)
    decreases e
  {
    if e.Table? {
      IdentityListRuns(e.entries, level - 1, base, a);
    }
  }

  lemma {:induction false} IdentityListRuns(es: Entries, level: nat, base: nat, a: Attrs)
    requires IdentityList(es, level, base) && UniformList(es, level, a)
    ensures RunsList(es, level, base)
    decreases es
  {
    if es.Cons? {
      IdentityRuns(es.head, level, base, a);
      IdentityListRuns(es.tail, level, base + Span(level), a);
    }
  }

  lemma {:induction false} IdentitySafe(e: Pte, level: nat, base: nat)
    requires Wf(e, level) && Identity(e, level, base) && Aligned(base, Span(level))
    ensures Safe(e, level)
    decreases e
  {
    if e.Table? {
      AlignedFactor(base, PTES, Span(level - 1));
      IdentityListSafe(e.entries, PTES, level - 1, base);
      if Uniform(e, level, FirstAttrs(e)) {
        IdentityRuns(e, level, base, FirstAttrs(e));
        RunsSafe(e, level, base);
      }
    }
  }

  /** A table of identity mappings is safe to defragment. */
  lemma {:induction false} IdentityListSafe(es: Entries, n: nat, level: nat, base: nat)
    requires WfList(es, n, level) && IdentityList(es, level, base) && Aligned(base, Span(level))
    ensures SafeList(es, level)
    decreases es
  {
    if es.Cons? {
      IdentitySafe(es.head, level, base);
      AlignedSum(base, Span(level), Span(level));
      IdentityListSafe(es.tail, n - 1, level, base + Span(level));
    }
  }

  // ---------------------------------------------------------------- pages

  /** Defragmentation only gives pages back. */
  lemma {:induction false} DefragPteConserves(e: Pte, level: nat, base: nat, flush: bool, st: State, x: nat)
    requires Valid(st.pool) && Placed(e, st.pool.entrySize)
    ensures var r := DefragPte(e, level, base, flush, st);
            && Valid(r.st.pool) && r.st.pool.entrySize == st.pool.entrySize && Placed(r.pte, st.pool.entrySize)
            && Holds(r.pte, x) + Occurs(r.st.pool, x) == Holds(e, x) + Occurs(st.pool, x)
            && Holds(r.pte, x) <= Holds(e, x)
    decreases e
  {
    if e.Table? && level > 0 {
      DefragListConserves(e.entries, level - 1, base, flush, st, x);
      var r := DefragList(e.entries, level - 1, base, flush, st);
      FreePteConserves(Table(e.addr, r.entries), r.st.pool, x);
    }
  }

  lemma {:induction false} DefragListConserves(es: Entries, level: nat, base: nat, flush: bool, st: State, x: nat)
    requires Valid(st.pool) && PlacedList(es, st.pool.entrySize)
    ensures var r := DefragList(es, level, base, flush, st);
            && Valid(r.st.pool) && r.st.pool.entrySize == st.pool.entrySize && PlacedList(r.entries, st.pool.entrySize)
            && HoldsList(r.entries, x) + Occurs(r.st.pool, x) == HoldsList(es, x) + Occurs(st.pool, x)
            && HoldsList(r.entries, x) <= HoldsList(es, x)
    decreases es
  {
    if es.Cons? {
      DefragPteConserves(es.head, level, base, flush, st, x);
      DefragListConserves(es.tail, level, base + Span(level), flush, DefragPte(es.head, level, base, flush, st).st, x);
    }
  }
}
