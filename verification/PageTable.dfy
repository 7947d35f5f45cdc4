/** The page table as its clients use it: prepare, commit and update requests,
    whole runs of them, and the life of a table from init to fini. A table is
    the list of its root entries, `n` of them, at the level `level`. */
module PageTable {
  import opened Arith
  import opened PoolSpec
  import opened PoolProofs
  import opened PageTree
  import opened PageMap
  import opened PageConserve
  import opened PagePrepare
  import opened PageDefrag
  import opened PageShape
  import opened Tlb
  import opened TlbMap

  // ---------------------------------------------------------------- two-phase updates

  function Prepare(es: Entries, level: nat, q: Request, st: State): MappedList {
    MapList(es, level, 0, q.(commit := false), st)
  }

  function Commit(es: Entries, level: nat, q: Request, st: State): MappedList {
    MapList(es, level, 0, q.(commit := true), st)
  }

  datatype Result = Done | Refused | Panicked
  datatype Updated = Updated(entries: Entries, st: State, result: Result)

  function Update(es: Entries, level: nat, q: Request, st: State): Updated {
    var p := Prepare(es, level, q, st);
    if !p.ok then Updated(p.entries, p.st, Refused)
    else
      var c := Commit(p.entries, level, q, p.st);
      Updated(c.entries, c.st, if c.ok then Done else Panicked)
  }

  /** Every page of the request that is already in a block with the requested
      attributes, and so will be left alone, already has the requested frame. */
  predicate NothingStale(es: Entries, n: nat, level: nat, q: Request) {
    forall page :: q.begin <= page < q.end && page < Spans(n, level) && SkippedIn(es, level, 0, q, page) ==>
      LookupList(es, level, page) == Wanted(q, page)
  }

  /** A commit that succeeds does what was asked at every page if and only if
      nothing stale is left alone; pages outside the request never change. */
  lemma CommitExact(es: Entries, n: nat, level: nat, q: Request, st: State)
    requires WfList(es, n, level) && GoodRequest(q) && Commit(es, level, q, st).ok
    ensures var now := Commit(es, level, q, st).entries;
            && WfList(now, n, level)
            && (forall page :: 0 <= page < Spans(n, level) && !InRange(q, page) ==>
                  LookupList(now, level, page) == LookupList(es, level, page))
            && ((forall page :: q.begin <= page < q.end && page < Spans(n, level) ==>
                  LookupList(now, level, page) == Wanted(q, page))
                <==> NothingStale(es, n, level, q.(commit := true)))
  {
    var q1 := q.(commit := true);
    var now := Commit(es, level, q, st).entries;
    MapListWf(es, n, level, 0, q1, st);
    forall page | 0 <= page < Spans(n, level)
      ensures Outcome(q1, true, SkippedIn(es, level, 0, q1, page), page,
                      LookupList(es, level, page), LookupList(now, level, page))
    {
      MapListView(es, n, level, 0, q1, st, page);
    }
    assert forall page :: q.begin <= page < q.end ==> Wanted(q1, page) == Wanted(q, page);
  }

  /** A page that is to move to another frame with its old attributes stays
      where it is. */
  lemma StaleIsKept(pa: nat, q: Request, level: nat, st: State)
    requires level == 0 && pa < PA_LIMIT && q.pa < PA_LIMIT && GoodAttrs(q.attrs) && pa != q.pa
    requires q.begin == 0 && q.end == 1 && !q.unmap && q.commit
    ensures var es := Cons(Block(pa, q.attrs), Nil);
            && WfList(es, 1, level) && GoodRequest(q) && !NothingStale(es, 1, level, q)
            && Commit(es, level, q, st) == MappedList(es, st, true)
            && LookupList(es, level, 0) == Some(Translation(pa, q.attrs)) != Wanted(q, 0)
  {
    var es := Cons(Block(pa, q.attrs), Nil);
    AlignedByOne(pa);
    assert Span(level) == 1 && Spans(1, level) == 1;
    assert SkippedIn(es, level, 0, q, 0);
    assert q.(commit := true) == q && Skips(q, es.head);
    assert Touches(q, level, 0) && MapPte(es.head, level, 0, q, st) == Mapped(es.head, st, true);
    assert MapList(es.tail, level, 0 + Span(level), q, st) == MappedList(Nil, st, true);
    assert MapList(es, level, 0, q, st) == MappedList(es, st, true);
    assert LookupList(es, level, 0) != Wanted(q, 0);
  }

  /** What an update does to one page: refused, it changes nothing; done, it
      changes the pages of the request and no others; it never panics, because
      the commit needs no page that the prepare has not already taken. */
  lemma UpdateIsAtomic(es: Entries, n: nat, level: nat, q: Request, st: State, page: nat)
    requires WfList(es, n, level) && GoodRequest(q) && page < Spans(n, level)
    ensures var r := Update(es, level, q, st);
            var was, now := LookupList(es, level, page), LookupList(r.entries, level, page);
            && WfList(r.entries, n, level)
            && !r.result.Panicked?
            && (r.result.Refused? || !InRange(q, page) ==> now == was)
            && (r.result.Done? && InRange(q, page) ==>
                  || now == Wanted(q, page)
                  || (!q.unmap && was.Some? && was.value.attrs == q.attrs && now == was))
  {
    var q0, q1 := q.(commit := false), q.(commit := true);
    var p := Prepare(es, level, q, st);
    MapListWf(es, n, level, 0, q0, st);
    MapListView(es, n, level, 0, q0, st, page);
    if p.ok {
      PrepareMakesReadyList(es, level, 0, q0, st);
      CommitFlagIrrelevant(p.entries, level, 0, q0, q1);
      ReadyListSucceeds(p.entries, level, 0, q1, p.st, 0);
      MapListWf(p.entries, n, level, 0, q1, p.st);
      MapListView(p.entries, n, level, 0, q1, p.st, page);
      if SkippedIn(p.entries, level, 0, q1, page) {
        SkippedHasAttrs(p.entries, n, level, 0, q1, page);
      }
    }
  }

  lemma {:induction false} CommitFlagIrrelevant(es: Entries, level: nat, base: nat, q: Request, q1: Request)
    requires ReadyList(es, level, base, q) && q1 == q.(commit := q1.commit)
    ensures ReadyList(es, level, base, q1)
    decreases level, 1, es
  {
    if es.Cons? {
      CommitFlagIrrelevantPte(es.head, level, base, q, q1);
      CommitFlagIrrelevant(es.tail, level, base + Span(level), q, q1);
    }
  }

  lemma {:induction false} CommitFlagIrrelevantPte(e: Pte, level: nat, base: nat, q: Request, q1: Request)
    requires Ready(e, level, base, q) && q1 == q.(commit := q1.commit)
    ensures Ready(e, level, base, q1)
    decreases level, 0, e
  {
    if e.Table? && level > 0 && Touches(q, level, base) && !Covers(q, level, base) {
      CommitFlagIrrelevant(e.entries, level - 1, base, q, q1);
    }
  }

  lemma {:induction false} SkippedHasAttrs(es: Entries, n: nat, level: nat, base: nat, q: Request, off: nat)
    requires WfList(es, n, level) && off < Spans(n, level) && SkippedIn(es, level, base, q, off)
    ensures var t := LookupList(es, level, off);
            if q.unmap then t.None? else t.Some? && t.value.attrs == q.attrs
    decreases level, 1, es
  {
    if off < Span(level) {
      SkippedPteHasAttrs(es.head, level, base, q, off);
    } else {
      SkippedHasAttrs(es.tail, n - 1, level, base + Span(level), q, off - Span(level));
    }
  }

  lemma {:induction false} SkippedPteHasAttrs(e: Pte, level: nat, base: nat, q: Request, off: nat)
    requires Wf(e, level) && off < Span(level) && Skipped(e, level, base, q, off)
    ensures var t := Lookup(e, level, off);
            if q.unmap then t.None? else t.Some? && t.value.attrs == q.attrs
    decreases level, 0, e
  {
    if !Skips(q, e) {
      TableSpan(level);
      SkippedHasAttrs(e.entries, PTES, level - 1, base, q, off);
    }
  }

  // ---------------------------------------------------------------- many prepares, then commits in any order

  function PrepareAll(es: Entries, level: nat, qs: seq<Request>, st: State): MappedList
    decreases qs
  {
    if qs == [] then MappedList(es, st, true)
    else
      var r := Prepare(es, level, qs[0], st);
      if r.ok then PrepareAll(r.entries, level, qs[1..], r.st) else r
  }

  function CommitAll(es: Entries, level: nat, qs: seq<Request>, st: State): MappedList
    decreases qs
  {
    if qs == [] then MappedList(es, st, true)
    else
      var r := Commit(es, level, qs[0], st);
      if r.ok then CommitAll(r.entries, level, qs[1..], r.st) else r
  }

  predicate PairwiseDisjoint(qs: seq<Request>) {
    forall i, j :: 0 <= i < j < |qs| ==> Disjoint(qs[i], qs[j])
  }

  predicate AllReady(es: Entries, level: nat, qs: seq<Request>) {
    forall q <- qs :: ReadyList(es, level, 0, q)
  }

  lemma {:induction false} PrepareAllMakesReady(es: Entries, level: nat, ready: seq<Request>, qs: seq<Request>,
                                                st: State)
    requires AllReady(es, level, ready) && PrepareAll(es, level, qs, st).ok
    ensures AllReady(PrepareAll(es, level, qs, st).entries, level, ready + qs)
    decreases qs
  {
    if qs == [] {
      assert ready + qs == ready;
    } else {
      var q0 := qs[0].(commit := false);
      var r := Prepare(es, level, qs[0], st);
      PrepareMakesReadyList(es, level, 0, q0, st);
      CommitFlagIrrelevant(r.entries, level, 0, q0, qs[0]);
      forall q | q in ready + [qs[0]] ensures ReadyList(r.entries, level, 0, q) {
        if q in ready { ReadyListKept(es, level, 0, q, q0, st); }
      }
      PrepareAllMakesReady(r.entries, level, ready + [qs[0]], qs[1..], r.st);
      assert ready + [qs[0]] + qs[1..] == ready + qs;
    }
  }

  lemma {:induction false} ReadyCommitsSucceed(es: Entries, level: nat, qs: seq<Request>, st: State, x: nat)
    requires AllReady(es, level, qs) && PairwiseDisjoint(qs)
    ensures var r := CommitAll(es, level, qs, st);
            r.ok && Occurs(r.st.pool, x) >= Occurs(st.pool, x)
    decreases qs
  {
    if qs != [] {
      var q1 := qs[0].(commit := true);
      CommitFlagIrrelevant(es, level, 0, qs[0], q1);
      ReadyListSucceeds(es, level, 0, q1, st, x);
      var r := Commit(es, level, qs[0], st);
      forall q | q in qs[1..] ensures ReadyList(r.entries, level, 0, q) {
        var i :| 0 <= i < |qs| - 1 && qs[1..][i] == q;
        assert Disjoint(qs[0], qs[i + 1]);
        ReadyListKept(es, level, 0, q, q1, st);
      }
      ReadyCommitsSucceed(r.entries, level, qs[1..], r.st, x);
    }
  }

  /** After any number of successful prepares, committing them in any order, or
      any of them, succeeds with whatever pool there is by then, and takes no
      page from it. */
  lemma PreparedCommitsSucceed(es: Entries, level: nat, qs: seq<Request>, order: seq<Request>, st: State,
                               later: State, x: nat)
    requires PrepareAll(es, level, qs, st).ok && PairwiseDisjoint(order) && (forall q <- order :: q in qs)
    ensures var r := CommitAll(PrepareAll(es, level, qs, st).entries, level, order, later);
            r.ok && Occurs(r.st.pool, x) >= Occurs(later.pool, x)
  {
    PrepareAllMakesReady(es, level, [], qs, st);
    assert [] + qs == qs;
    ReadyCommitsSucceed(PrepareAll(es, level, qs, st).entries, level, order, later, x);
  }

  /** Preparing, successfully or not, changes no translation. */
  lemma {:induction false} PrepareAllKeepsView(es: Entries, n: nat, level: nat, qs: seq<Request>, st: State, page: nat)
    requires WfList(es, n, level) && page < Spans(n, level) && (forall q <- qs :: GoodRequest(q))
    ensures var r := PrepareAll(es, level, qs, st);
            WfList(r.entries, n, level) && LookupList(r.entries, level, page) == LookupList(es, level, page)
    decreases qs
  {
    if qs != [] {
      var q0 := qs[0].(commit := false);
      assert GoodRequest(qs[0]);
      var r := Prepare(es, level, qs[0], st);
      MapListWf(es, n, level, 0, q0, st);
      MapListView(es, n, level, 0, q0, st, page);
      if r.ok {
        PrepareAllKeepsView(r.entries, n, level, qs[1..], r.st, page);
      }
    }
  }

  // ---------------------------------------------------------------- runs

  datatype Op =
    | Map(begin: nat, end: nat, pa: nat, attrs: Attrs)
    | Unmap(begin: nat, end: nat)
    | Defrag

  function OpRequest(op: Op): Request
    requires !op.Defrag?
  {
    if op.Map? then Request(op.begin, op.end, op.pa, op.attrs, false, false, true)
    else Request(op.begin, op.end, op.begin, NO_ATTRS, true, false, true)
  }

  predicate GoodOp(op: Op) {
    !op.Defrag? ==> GoodRequest(OpRequest(op))
  }

  function Step(es: Entries, level: nat, op: Op, st: State): Updated {
    if op.Defrag? then
      var r := DefragList(es, level, 0, true, st);
      Updated(r.entries, r.st, Done)
    else
      Update(es, level, OpRequest(op), st)
  }

  datatype Ran = Ran(entries: Entries, st: State, results: seq<Result>)

  function Run(es: Entries, level: nat, ops: seq<Op>, st: State): Ran
    decreases ops
  {
    if ops == [] then Ran(es, st, [])
    else
      var r := Step(es, level, ops[0], st);
      var rest := Run(r.entries, level, ops[1..], r.st);
      Ran(rest.entries, rest.st, [r.result] + rest.results)
  }

  /** The specification: a table is a map from pages to translations. An
      operation that is done assigns to a range; one that is refused does
      nothing; defragmentation does nothing. */
  function SpecStep(op: Op, result: Result, page: nat, was: Option<Translation>): Option<Translation> {
    if op.Defrag? || !result.Done? || !(op.begin <= page < op.end) then was
    else Wanted(OpRequest(op), page)
  }

  function SpecRun(ops: seq<Op>, results: seq<Result>, page: nat, was: Option<Translation>): Option<Translation>
    requires |ops| == |results|
    decreases ops
  {
    if ops == [] then was
    else SpecRun(ops[1..], results[1..], page, SpecStep(ops[0], results[0], page, was))
  }

  /** Every table that the run defragments is safe to defragment. */
  predicate SafeRun(es: Entries, level: nat, ops: seq<Op>, st: State)
    decreases ops
  {
    ops != [] ==>
      var r := Step(es, level, ops[0], st);
      (ops[0].Defrag? ==> SafeList(es, level)) && SafeRun(r.entries, level, ops[1..], r.st)
  }

  /** Pages that have the requested attributes have the requested frames. */
  predicate Agrees(es: Entries, n: nat, level: nat, q: Request) {
    forall page :: q.begin <= page < q.end && page < Spans(n, level) ==>
      match LookupList(es, level, page)
      case None => true
      case Some(t) => t.attrs == q.attrs ==> t.pa == FrameFor(q, page)
  }

  predicate AgreeRun(es: Entries, n: nat, level: nat, ops: seq<Op>, st: State)
    decreases ops
  {
    ops != [] ==>
      var r := Step(es, level, ops[0], st);
      (ops[0].Map? ==> Agrees(es, n, level, OpRequest(ops[0]))) && AgreeRun(r.entries, n, level, ops[1..], r.st)
  }

  lemma StepWf(es: Entries, n: nat, level: nat, op: Op, st: State)
    requires WfList(es, n, level) && GoodOp(op) && (op.Defrag? ==> SafeList(es, level))
    ensures WfList(Step(es, level, op, st).entries, n, level) && !Step(es, level, op, st).result.Panicked?
  {
    if op.Defrag? {
      DefragExact(es, n, level, 0, true, st);
    } else if Spans(n, level) > 0 {
      UpdateIsAtomic(es, n, level, OpRequest(op), st, 0);
    } else {
      SpansIsProduct(n, level);
      assert es == Nil;
    }
  }

  /** One operation, at every page. */
  lemma StepRefines(es: Entries, n: nat, level: nat, op: Op, st: State, page: nat)
    requires WfList(es, n, level) && GoodOp(op) && page < Spans(n, level)
    requires (op.Defrag? ==> SafeList(es, level)) && (op.Map? ==> Agrees(es, n, level, OpRequest(op)))
    ensures var r := Step(es, level, op, st);
            LookupList(r.entries, level, page) == SpecStep(op, r.result, page, LookupList(es, level, page))
  {
    if op.Defrag? {
      SafeDefragListView(es, n, level, 0, true, st, page);
    } else {
      UpdateIsAtomic(es, n, level, OpRequest(op), st, page);
    }
  }

  /** Every run of map, unmap and defragment does to every page what the
      specification does, and never panics, if it defragments only what is safe
      and maps no page with its old attributes to another frame. */
  lemma {:induction false} RunRefines(es: Entries, n: nat, level: nat, ops: seq<Op>, st: State, page: nat)
    requires WfList(es, n, level) && (forall op <- ops :: GoodOp(op)) && page < Spans(n, level)
    requires SafeRun(es, level, ops, st) && AgreeRun(es, n, level, ops, st)
    ensures var r := Run(es, level, ops, st);
            && |r.results| == |ops| && Panicked !in r.results && WfList(r.entries, n, level)
            && LookupList(r.entries, level, page) == SpecRun(ops, r.results, page, LookupList(es, level, page))
    decreases ops
  {
    if ops != [] {
      assert GoodOp(ops[0]);
      var r := Step(es, level, ops[0], st);
      StepWf(es, n, level, ops[0], st);
      StepRefines(es, n, level, ops[0], st, page);
      RunRefines(r.entries, n, level, ops[1..], r.st, page);
      var rest := Run(r.entries, level, ops[1..], r.st);
      assert ([r.result] + rest.results)[1..] == rest.results;
    }
  }

  // ---------------------------------------------------------------- runs of identity mappings

  predicate IdentityOp(op: Op) {
    op.Map? ==> op.pa == op.begin
  }

  predicate IdentityView(es: Entries, n: nat, level: nat, base: nat) {
    forall off :: 0 <= off < Spans(n, level) ==>
      match LookupList(es, level, off)
      case None => true
      case Some(t) => t.pa == base + off
  }

  lemma {:induction false} ViewToIdentity(es: Entries, n: nat, level: nat, base: nat)
    requires WfList(es, n, level) && IdentityView(es, n, level, base)
    ensures IdentityList(es, level, base)
    decreases es
  {
    if es.Cons? {
      var h := es.head;
      if h.Block? {
        assert LookupList(es, level, 0) == Some(Translation(h.pa, h.attrs));
      } else if h.Table? {
        var below := level - 1;
        TableSpan(level);
        forall off | 0 <= off < Spans(PTES, below)
          ensures LookupList(h.entries, below, off) == LookupList(es, level, off)
        {
        }
        ViewToIdentity(h.entries, PTES, below, base);
      }
      forall off | 0 <= off < Spans(n - 1, level)
        ensures LookupList(es.tail, level, off) == LookupList(es, level, off + Span(level))
      {
      }
      ViewToIdentity(es.tail, n - 1, level, base + Span(level));
    }
  }

  /** The hypervisor's own mappings, each page to itself, meet both conditions
      in every run. */
  lemma {:induction false} IdentityRun(es: Entries, n: nat, level: nat, ops: seq<Op>, st: State)
    requires WfList(es, n, level) && (forall op <- ops :: GoodOp(op) && IdentityOp(op)) && IdentityView(es, n, level, 0)
    ensures SafeRun(es, level, ops, st) && AgreeRun(es, n, level, ops, st)
    decreases ops
  {
    if ops != [] {
      var op := ops[0];
      assert GoodOp(op) && IdentityOp(op);
      ViewToIdentity(es, n, level, 0);
      IdentityListSafe(es, n, level, 0);
      assert op.Map? ==> Agrees(es, n, level, OpRequest(op));
      var r := Step(es, level, op, st);
      StepWf(es, n, level, op, st);
      forall off | 0 <= off < Spans(n, level)
        ensures match LookupList(r.entries, level, off) case None => true case Some(t) => t.pa == 0 + off
      {
        StepRefines(es, n, level, op, st, off);
      }
      IdentityRun(r.entries, n, level, ops[1..], r.st);
    }
  }

  // ---------------------------------------------------------------- TLB over whole runs

  lemma StepInStep(es: Entries, n: nat, level: nat, op: Op, st: State, page: nat, s: PageState)
    requires ShapedList(es, n, level) && GoodOp(op) && InStepList(Replay(st.log, page, s), es, n, level, 0, page)
    ensures var r := Step(es, level, op, st);
            ShapedList(r.entries, n, level) && InStepList(Replay(r.st.log, page, s), r.entries, n, level, 0, page)
  {
    if op.Defrag? {
      DefragListShaped(es, n, level, 0, true, st);
      DefragListInStep(es, n, level, 0, st, page, s);
    } else {
      var q := OpRequest(op);
      var q0, q1 := q.(commit := false), q.(commit := true);
      MapListShaped(es, n, level, 0, q0, st);
      MapListInStep(es, n, level, 0, q0, st, page, s);
      var p := Prepare(es, level, q, st);
      if p.ok {
        MapListShaped(p.entries, n, level, 0, q1, p.st);
        MapListInStep(p.entries, n, level, 0, q1, p.st, page, s);
      }
    }
  }

  lemma {:induction false} RunInStep(es: Entries, n: nat, level: nat, ops: seq<Op>, st: State, page: nat, s: PageState)
    requires ShapedList(es, n, level) && (forall op <- ops :: GoodOp(op))
    requires InStepList(Replay(st.log, page, s), es, n, level, 0, page)
    ensures var r := Run(es, level, ops, st); InStepList(Replay(r.st.log, page, s), r.entries, n, level, 0, page)
    decreases ops
  {
    if ops != [] {
      assert GoodOp(ops[0]);
      StepInStep(es, n, level, ops[0], st, page, s);
      var r := Step(es, level, ops[0], st);
      RunInStep(r.entries, n, level, ops[1..], r.st, page, s);
    }
  }

  /** However hardware fills and evicts its TLB between the writes of a run, what
      it holds for a page at the end is what the table then says, also where a
      defragmentation has changed what that is. */
  lemma RunCoherent(es: Entries, n: nat, level: nat, ops: seq<Op>, pool: Pool, page: nat, states: seq<PageState>)
    requires ShapedList(es, n, level) && (forall op <- ops :: GoodOp(op))
    requires page < Spans(n, level) && |states| > 0 && InStepList(states[0], es, n, level, 0, page)
    requires HardwareRun(Run(es, level, ops, State(pool, [])).st.log, page, states)
    ensures var r := Run(es, level, ops, State(pool, []));
            forall t <- states[|states| - 1].cached :: Visible(LookupList(r.entries, level, page)) == Some(t)
  {
    var r := Run(es, level, ops, State(pool, []));
    RunInStep(es, n, level, ops, State(pool, []), page, states[0]);
    ReplayDominates(r.st.log, page, states);
  }

  // ---------------------------------------------------------------- the life of a table

  datatype Created = Created(root: Option<nat>, pool: Pool)

  /** Allocates the `count` root tables; all their entries start absent. */
  function Init(count: nat, pool: Pool): Created
    requires Valid(pool) && count > 0
  {
    var a := if count == 1 then Alloc(pool) else AllocContiguous(pool, count, count);
    Created(a.ptr, a.pool)
  }

  /** Frees every table below the root entries, then the root tables. */
  function Fini(es: Entries, root: nat, count: nat, pool: Pool): Pool
    requires FreeList(es, pool).entrySize > 0
  {
    AddChunk(FreeList(es, pool), root, PAGE_SIZE * count).pool
  }

  lemma StepConserves(es: Entries, level: nat, op: Op, st: State, x: nat)
    requires Valid(st.pool) && PlacedList(es, st.pool.entrySize)
    ensures var r := Step(es, level, op, st);
            && Valid(r.st.pool) && r.st.pool.entrySize == st.pool.entrySize && PlacedList(r.entries, st.pool.entrySize)
            && HoldsList(r.entries, x) + Occurs(r.st.pool, x) == HoldsList(es, x) + Occurs(st.pool, x)
  {
    if op.Defrag? {
      DefragListConserves(es, level, 0, true, st, x);
    } else {
      var q := OpRequest(op);
      MapListConserves(es, level, 0, q.(commit := false), st, x);
      var p := Prepare(es, level, q, st);
      MapListConserves(p.entries, level, 0, q.(commit := true), p.st, x);
    }
  }

  lemma {:induction false} RunConserves(es: Entries, level: nat, ops: seq<Op>, st: State, x: nat)
    requires Valid(st.pool) && PlacedList(es, st.pool.entrySize)
    ensures var r := Run(es, level, ops, st);
            && Valid(r.st.pool) && r.st.pool.entrySize == st.pool.entrySize && PlacedList(r.entries, st.pool.entrySize)
            && HoldsList(r.entries, x) + Occurs(r.st.pool, x) == HoldsList(es, x) + Occurs(st.pool, x)
    decreases ops
  {
    if ops != [] {
      StepConserves(es, level, ops[0], st, x);
      var r := Step(es, level, ops[0], st);
      RunConserves(r.entries, level, ops[1..], r.st, x);
    }
  }

  /** From init, through any run, refused operations included, to fini: every
      page is back in the pool, exactly as often as before. */
  lemma LifeConserves(count: nat, level: nat, ops: seq<Op>, pool: Pool, x: nat)
    requires Valid(pool) && pool.entrySize == PAGE_SIZE && count > 0 && Init(count, pool).root.Some?
    ensures var c := Init(count, pool);
            var r := Run(Absents(count * PTES), level, ops, State(c.pool, []));
            && FreeList(r.entries, r.st.pool).entrySize > 0
            && Occurs(Fini(r.entries, c.root.value, count, r.st.pool), x) == Occurs(pool, x)
  {
    var c := Init(count, pool);
    if count == 1 {
      InitTakesOne(pool, x);
    } else {
      InitTakesMany(count, pool, x);
    }
    FiniGivesBack(count, level, ops, c.pool, c.root.value, x);
  }

  /** Page `x` is one of the `count` tables from `root` on. */
  predicate IsRootTable(root: nat, count: nat, x: nat) {
    Aligned(x, PAGE_SIZE) && root <= x && x + PAGE_SIZE <= root + PAGE_SIZE * count
  }

  lemma InitTakesOne(pool: Pool, x: nat)
    requires Valid(pool) && pool.entrySize == PAGE_SIZE && Alloc(pool).ptr.Some?
    ensures var a := Alloc(pool);
            && Valid(a.pool) && a.pool.entrySize == PAGE_SIZE && 0 < a.ptr.value
            && Occurs(pool, x) == Occurs(a.pool, x) + One(IsRootTable(a.ptr.value, 1, x))
  {
    AllocConserves(pool, x);
    RootRun(Alloc(pool).ptr.value, 1, x);
  }

  lemma InitTakesMany(count: nat, pool: Pool, x: nat)
    requires Valid(pool) && pool.entrySize == PAGE_SIZE && count > 0 && AllocContiguous(pool, count, count).ptr.Some?
    ensures var a := AllocContiguous(pool, count, count);
            && Valid(a.pool) && a.pool.entrySize == PAGE_SIZE && 0 < a.ptr.value
            && Occurs(pool, x) == Occurs(a.pool, x) + One(IsRootTable(a.ptr.value, count, x))
  {
    AllocContiguousConserves(pool, count, count, x);
    var root := AllocContiguous(pool, count, count).ptr.value;
    AlignedFactor(root, count, PAGE_SIZE);
    RootRun(root, count, x);
  }

  lemma FiniGivesBack(count: nat, level: nat, ops: seq<Op>, pool: Pool, root: nat, x: nat)
    requires Valid(pool) && pool.entrySize == PAGE_SIZE && 0 < root
    ensures var r := Run(Absents(count * PTES), level, ops, State(pool, []));
            && FreeList(r.entries, r.st.pool).entrySize > 0
            && Occurs(Fini(r.entries, root, count, r.st.pool), x) == Occurs(pool, x) +
               One(IsRootTable(root, count, x))
  {
    var es := Absents(count * PTES);
    LeavesHoldNothing(es, count * PTES, 0, 0, NO_ATTRS, PAGE_SIZE, x);
    RunConserves(es, level, ops, State(pool, []), x);
    var r := Run(es, level, ops, State(pool, []));
    FreeListConserves(r.entries, r.st.pool, x);
    AddChunkConserves(FreeList(r.entries, r.st.pool), root, PAGE_SIZE * count, x);
  }

  lemma RootRun(root: nat, count: nat, x: nat)
    requires Aligned(root, PAGE_SIZE) && count > 0
    ensures InRun(root, root + count * PAGE_SIZE, PAGE_SIZE, x) == One(IsRootTable(root, count, x))
    ensures InRun(root, root + PAGE_SIZE, PAGE_SIZE, x) == One(x == root)
  {
    var end := root + count * PAGE_SIZE;
    AlignedProduct(count, PAGE_SIZE);
    AlignedSum(root, count * PAGE_SIZE, PAGE_SIZE);
    RunInside(root, end, root, end, PAGE_SIZE, x);
    RunMembers(root, root + PAGE_SIZE, PAGE_SIZE, x);
  }
}
