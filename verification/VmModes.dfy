/** Modes of a VM's memory: what is mapped with a mode is found with it. */
module VmModes {
  import opened Arith
  import opened PoolSpec
  import opened PageTree
  import opened PageQuery
  import opened PageRange
  import opened PageTable
  import opened PageUpdate
  import opened Aarch64

  /** The mode shared by the pages of the bytes [begin, end), if there is one. */
  function GetMode(es: Entries, n: nat, level: nat, begin: nat, end: nat): Option<Mode> {
    match GetAttrs(es, n, level, begin / PAGE_SIZE, RoundedUp(end))
    case None => None
    case Some(a) => Some(Stage2AttrsToMode(a.word))
  }

  /** The pages from `first` to before `last` are in the address space and all have
      these attributes. */
  predicate Uniform(es: Entries, n: nat, level: nat, first: nat, last: nat, a: Attrs) {
    first < last <= Spans(n, level) && forall page :: first <= page < last ==> AttrsAt(es, level, page) == a
  }

  /** There is one if and only if the range is not empty, lies in the address space
      and has the same attributes everywhere; it is the mode of those. */
  lemma GetModeExact(es: Entries, n: nat, level: nat, begin: nat, end: nat, mode: Mode)
    requires WfList(es, n, level)
    ensures var first, last := begin / 4096, (end + 4095) / 4096 % WORD_PAGES;
            GetMode(es, n, level, begin, end) == Some(mode) <==>
            exists a :: Uniform(es, n, level, first, last, a) && mode == Stage2AttrsToMode(a.word)
  {
    RoundedUpIs(end);
    var first, last := begin / 4096, (end + 4095) / 4096 % WORD_PAGES;
    var got := GetAttrs(es, n, level, first, last);
    if got.Some? {
      GetAttrsExact(es, n, level, first, last, got.value);
      assert Uniform(es, n, level, first, last, got.value);
    }
    forall a | Uniform(es, n, level, first, last, a) ensures got == Some(a) {
      GetAttrsExact(es, n, level, first, last, a);
    }
  }

  /** The request for mapping with a mode; the unmapped mode unmaps. */
  function ModeRequest(paBegin: nat, paEnd: nat, ipaBegin: nat, mode: Mode, flush: bool, space: nat): Request
  {
    ToRequest(paBegin, paEnd, ipaBegin, ToAttrs(ModeToStage2Attrs(mode)), IsUnmapped(mode), flush, space)
  }

  /** After a map that is done, the page of every byte is mapped to the frame of that
      byte with the attributes of the mode, or, for the unmapped mode, not at all. */
  lemma ModeMapped(es: Entries, n: nat, level: nat, paBegin: nat, paEnd: nat, ipaBegin: nat, mode: Mode, flush: bool,
                   st: State, o: nat)
    requires WfList(es, n, level) && Spans(n, level) <= PA_LIMIT
    requires paBegin + o < paEnd < UINT64 && ipaBegin < UINT64 && paBegin % PAGE_SIZE == ipaBegin % PAGE_SIZE
    requires (ipaBegin + o) / PAGE_SIZE < Spans(n, level)
    requires RangeKept(paBegin, ipaBegin, ipaBegin + (paEnd - paBegin), Spans(n, level))
    requires var q := ModeRequest(paBegin, paEnd, ipaBegin, mode, flush, Spans(n, level));
             && GoodRequest(q) && Update(es, level, q, st).result.Done?
             && NothingStale(es, n, level, q.(commit := true))
    ensures var q := ModeRequest(paBegin, paEnd, ipaBegin, mode, flush, Spans(n, level));
            var t := LookupList(Update(es, level, q, st).entries, level, (ipaBegin + o) / PAGE_SIZE);
            if mode & 0x30 == 0x30 then t.None?
            else && t.Some? && t.value.pa == (paBegin + o) / PAGE_SIZE % PA_LIMIT
                 && t.value.attrs.word == ModeToStage2Attrs(mode)
  {
    BytesMapped(es, n, level, paBegin, paEnd, ipaBegin, ToAttrs(ModeToStage2Attrs(mode)), IsUnmapped(mode), flush, st,
        o);
  }

  /** After a successful map with any mapped mode, every non-empty part of the
      mapped range has that mode, however it was mapped before. */
  lemma MapThenGetMode(es: Entries, n: nat, level: nat, paBegin: nat, paEnd: nat, ipaBegin: nat, mode: Mode,
                       flush: bool, st: State, begin: nat, end: nat)
    requires WfList(es, n, level) && !IsUnmapped(mode)
    requires var q := ModeRequest(paBegin, paEnd, ipaBegin, mode, flush, Spans(n, level));
             && GoodRequest(q) && Update(es, level, q, st).result.Done?
             && q.begin * PAGE_SIZE <= begin < end <= q.end * PAGE_SIZE
    ensures var q := ModeRequest(paBegin, paEnd, ipaBegin, mode, flush, Spans(n, level));
            GetMode(Update(es, level, q, st).entries, n, level, begin, end) == Some(mode & MODE_ALL)
  {
    var q := ModeRequest(paBegin, paEnd, ipaBegin, mode, flush, Spans(n, level));
    var now := Update(es, level, q, st).entries;
    RoundsInside(end, q.end);
    UpdateIsAtomic(es, n, level, q, st, q.begin);
    forall page | begin / PAGE_SIZE <= page < PageEnd(end)
      ensures AttrsAt(now, level, page) == q.attrs
    {
      UpdateIsAtomic(es, n, level, q, st, page);
    }
    GetAttrsExact(now, n, level, begin / PAGE_SIZE, PageEnd(end), q.attrs);
    ModeRoundTrip(mode);
  }
}
