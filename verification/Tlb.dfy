/** The TLB. Hardware may cache the current translation of any page at any
    time and may drop what it has cached at any time; the memory manager writes
    entries one at a time and invalidates ranges. Pages are independent of each
    other, so everything is said about one arbitrary page. */
module Tlb {
  import opened PoolSpec
  import opened PageTree

  /** One page: what a walk of the table finds now, and what may be cached. */
  datatype PageState = PageState(current: Option<Translation>, cached: set<Translation>)

  /** A walk succeeds only through a valid entry. */
  function Visible(t: Option<Translation>): Option<Translation> {
    if t.Some? && t.value.attrs.valid then t else None
  }

  function Filled(s: PageState): PageState {
    if s.current.Some? then s.(cached := s.cached + {s.current.value}) else s
  }

  /** The state after an event when hardware caches all it can afterwards. */
  function Observe(s: PageState, e: Event, page: nat): PageState {
    match e
    case Write(base, level, pte) =>
      if base <= page < base + Span(level) then
        Filled(s.(current := Visible(Lookup(pte, level, page - base))))
      else Filled(s)
    case Invalidate(begin, end) =>
      if begin <= page < end then Filled(s.(cached := {})) else Filled(s)
  }

  /** A write of a valid block puts its translation into the TLB and takes nothing
      out of it; one that is not valid is not walked through, and takes nothing out
      either. Only an invalidation of the page does. */
  lemma WritesFill(s: PageState, base: nat, level: nat, pa: nat, attrs: Attrs, page: nat)
    requires base <= page < base + Span(level)
    ensures var t := Translation(pa + (page - base), attrs);
            Observe(s, Write(base, level, Block(pa, attrs)), page) ==
            if attrs.valid then PageState(Some(t), s.cached + {t}) else PageState(None, s.cached)
    ensures Observe(s, Invalidate(base, base + Span(level)), page).cached ==
            if s.current.Some? then {s.current.value} else {}
  {
  }

  function Replay(log: seq<Event>, page: nat, s: PageState): PageState {
    if log == [] then s else Observe(Replay(log[..|log| - 1], page, s), log[|log| - 1], page)
  }

  /** Nothing is cached that the table does not say. */
  predicate Coherent(s: PageState) {
    forall t <- s.cached :: s.current == Some(t)
  }

  /** A step of real hardware: after the event it caches any part of what it
      held or can now walk to. */
  predicate HardwareStep(s: PageState, e: Event, page: nat, s': PageState) {
    s'.current == Observe(s, e, page).current && s'.cached <= Observe(s, e, page).cached
  }

  predicate HardwareRun(log: seq<Event>, page: nat, states: seq<PageState>) {
    |states| == |log| + 1 &&
    forall i {:trigger log[i]} :: 0 <= i < |log| ==> HardwareStep(states[i], log[i], page, states[i + 1])
  }

  /** No run of the hardware caches more than the replay does. */
  lemma {:induction false} ReplayDominates(log: seq<Event>, page: nat, states: seq<PageState>)
    requires HardwareRun(log, page, states)
    ensures var last := states[|log|];
            var all := Replay(log, page, states[0]);
            last.current == all.current && last.cached <= all.cached
  {
    if log != [] {
      var n := |log| - 1;
      var front := log[..n];
      assert HardwareRun(front, page, states[..n + 1]) by {
        forall i | 0 <= i < n ensures HardwareStep(states[i], front[i], page, states[i + 1]) {
          assert log[i] == front[i];
        }
      }
      ReplayDominates(front, page, states[..n + 1]);
      assert HardwareStep(states[n], log[n], page, states[n + 1]);
    }
  }

  lemma ReplayStep(log: seq<Event>, e: Event, page: nat, s: PageState)
    ensures Replay(log + [e], page, s) == Observe(Replay(log, page, s), e, page)
  {
    assert (log + [e])[..|log|] == log;
  }

  lemma ReplayTwo(log: seq<Event>, a: Event, b: Event, page: nat, s: PageState, s1: PageState)
    requires s1 == Observe(Replay(log, page, s), a, page)
    ensures Replay(log + [a, b], page, s) == Observe(s1, b, page)
  {
    var first, both := log + [a], log + [a, b];
    assert both == first + [b];
    assert Replay(first, page, s) == s1 by { ReplayStep(log, a, page, s); }
    ReplayStep(first, b, page, s);
  }

  /** Table and TLB agree about the page, which the entry at `base` covers. */
  predicate InStep(s: PageState, e: Pte, level: nat, base: nat, page: nat) {
    Coherent(s) && (base <= page < base + Span(level) ==> s.current == Visible(Lookup(e, level, page - base)))
  }

  predicate Inside(page: nat, level: nat, base: nat) {
    base <= page < base + Span(level)
  }

  /** Break before make: what the page can have in the TLB after the entry has
      been removed, invalidated from `begin` on, and written again. */
  lemma BreakThenMake(s: PageState, was: Pte, pte: Pte, level: nat, base: nat, begin: nat, page: nat)
    requires InStep(s, was, level, base, page) && base <= begin < base + Span(level)
    requires begin == base || (Inside(page, level, base) ==> Lookup(was, level, page - base) == Lookup(pte, level,
        page - base))
    ensures var s1 := Observe(s, Write(base, level, Absent), page);
            var s2 := Observe(s1, Invalidate(begin, begin + Span(level)), page);
            var s3 := Observe(s2, Write(base, level, pte), page);
            InStep(s3, pte, level, base, page) && (!Inside(page, level, base) ==> s3.current == s.current)
  {
    if Inside(page, level, base) {
      var s1 := Observe(s, Write(base, level, Absent), page);
      assert s1.cached == s.cached && s1.current == None;
    }
  }

  /** Writing over an entry that hardware cannot walk through. */
  lemma JustMake(s: PageState, was: Pte, pte: Pte, level: nat, base: nat, page: nat)
    requires InStep(s, was, level, base, page) && !IsValid(was)
    ensures var s1 := Observe(s, Write(base, level, pte), page);
            InStep(s1, pte, level, base, page) && (!Inside(page, level, base) ==> s1.current == s.current)
  {
    if Inside(page, level, base) {
      assert s.current == None && s.cached == {};
    }
  }

  /** Replacing an entry leaves nothing stale behind, if the invalidated range
      starts with the entry or the new entry means what the old one meant. */
  lemma ReplaceInStep(was: Pte, pte: Pte, level: nat, base: nat, begin: nat, st: State, page: nat, s: PageState)
    requires InStep(Replay(st.log, page, s), was, level, base, page) && base <= begin < base + Span(level)
    requires begin == base || (Inside(page, level, base) ==> Lookup(was, level, page - base) == Lookup(pte, level,
        page - base))
    ensures var s1 := Replay(Replace(was, pte, level, base, begin, true, st).log, page, s);
            && InStep(s1, pte, level, base, page)
            && (!Inside(page, level, base) ==> s1.current == Replay(st.log, page, s).current)
  {
    var s0 := Replay(st.log, page, s);
    var w0, inv, w1 := Write(base, level, Absent), Invalidate(begin, begin + Span(level)), Write(base, level, pte);
    if IsValid(was) {
      ReplayTwo(st.log, w0, inv, page, s, Observe(s0, w0, page));
      ReplayStep(st.log + [w0, inv], w1, page, s);
      BreakThenMake(s0, was, pte, level, base, begin, page);
    } else {
      ReplayStep(st.log, w1, page, s);
      JustMake(s0, was, pte, level, base, page);
    }
  }
}
