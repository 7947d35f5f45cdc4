/** From the bytes that a client asks to map to the pages that are mapped. */
module PageRange {
  import opened Arith
  import opened PageTree

  /** The pages of a 64-bit address space. */
  const WORD_PAGES: nat := UINT64 / PAGE_SIZE

  /** The page of an address without the bits that no PTE has room for. */
  function Cleared(addr: nat): nat {
    addr / PAGE_SIZE % PA_LIMIT
  }

  /** The page that a 64-bit address is rounded up to. */
  function RoundedUp(addr: int): (page: nat)
    ensures page < WORD_PAGES
  {
    (addr % UINT64 + PAGE_SIZE - 1) % UINT64 / PAGE_SIZE
  }

  /** The request for the bytes [paBegin, paEnd) at `ipaBegin`, capped at the
      end of an address space of `space` pages. Both beginnings lose their high
      bits, and the end is computed from the physical one that has lost them. */
  function ToRequest(paBegin: nat, paEnd: nat, ipaBegin: nat, attrs: Attrs, unmap: bool, flush: bool,
                     space: nat): (q: Request)
    ensures q.end <= space && q.end < WORD_PAGES
  {
    var pa := Cleared(paBegin);
    var end := RoundedUp(ipaBegin + (paEnd - pa * PAGE_SIZE));
    Request(Cleared(ipaBegin), if end > space then space else end, pa, attrs, unmap, false, flush)
  }

  /** The first page after the one that holds byte `x - 1`. */
  function PageEnd(x: nat): nat {
    (x + PAGE_SIZE - 1) / PAGE_SIZE
  }

  /** The page is one of those of the bytes from `ipaBegin` up to `ipaEnd`. */
  predicate Asked(ipaBegin: nat, ipaEnd: nat, page: nat) {
    ipaBegin / PAGE_SIZE <= page < PageEnd(ipaEnd)
  }

  /** How many pages too far the end is, for a range whose last byte is byte
      `last - 1` of its page: all that `paBegin` has lost of its high bits, and
      one if what it has lost of its low bits goes over a page boundary. */
  function Excess(paBegin: nat, last: nat): nat {
    var cut := paBegin % PAGE_SIZE;
    paBegin / PAGE_SIZE / PA_LIMIT * PA_LIMIT + if cut > 0 && (last == 0 || last + cut > PAGE_SIZE) then 1 else 0
  }

  /** A range inside the address space has the right end, and one that ends
      outside still reaches so far, although the end may go around; from a range
      outside nothing that is left after clearing is inside. */
  predicate PagesKept(first: nat, end: nat, excess: nat, space: nat) {
    if first >= space then first % PA_LIMIT >= space || (end + excess) % WORD_PAGES <= first % PA_LIMIT
    else if end >= space then (end + excess) % WORD_PAGES >= space
    else excess == 0 || (first == end && end + excess == WORD_PAGES)
  }

  predicate RangeKept(paBegin: nat, ipaBegin: nat, ipaEnd: nat, space: nat) {
    PagesKept(ipaBegin / PAGE_SIZE, PageEnd(ipaEnd), Excess(paBegin, ipaEnd % PAGE_SIZE), space)
  }

  /** The request is for exactly the pages of the bytes asked for, as far as the
      address space goes, if and only if the range is kept. */
  lemma RangeExact(paBegin: nat, paEnd: nat, ipaBegin: nat, attrs: Attrs, unmap: bool, flush: bool, space: nat)
    requires paBegin <= paEnd < UINT64 && ipaBegin < UINT64 && space <= PA_LIMIT
    ensures var q := ToRequest(paBegin, paEnd, ipaBegin, attrs, unmap, flush, space);
            var ipaEnd := ipaBegin + (paEnd - paBegin);
            (forall page: nat :: page < space ==> (InRange(q, page) <==> Asked(ipaBegin, ipaEnd, page))) <==>
            RangeKept(paBegin, ipaBegin, ipaEnd, space)
  {
    var q := ToRequest(paBegin, paEnd, ipaBegin, attrs, unmap, flush, space);
    var ipaEnd := ipaBegin + (paEnd - paBegin);
    EndMoves(paBegin, paEnd, ipaBegin);
    SamePages(q, ipaBegin, ipaEnd, space);
    ExcessBound(paBegin, ipaEnd % PAGE_SIZE);
    EndsAgree(ipaBegin / PAGE_SIZE, PageEnd(ipaEnd), Excess(paBegin, ipaEnd % PAGE_SIZE), space);
  }

  lemma ExcessBound(paBegin: nat, last: nat)
    requires paBegin < UINT64
    ensures Excess(paBegin, last) + PA_LIMIT <= WORD_PAGES + 1
  {
  }

  /** The two ends, as numbers of pages. */
  lemma EndsAgree(first: nat, end: nat, excess: nat, space: nat)
    requires first <= end && space <= PA_LIMIT && excess + PA_LIMIT <= WORD_PAGES + 1
    ensures var now := (end + excess) % WORD_PAGES;
            var last, was := if now > space then space else now, if end > space then space else end;
            (first % PA_LIMIT == first && last == was) || (first % PA_LIMIT >= last && first >= was) <==>
            PagesKept(first, end, excess, space)
  {
    if first < space {
      DivUnique(first, 0, first, PA_LIMIT);
      if end < space {
        if end + excess < WORD_PAGES {
          DivUnique(end + excess, 0, end + excess, WORD_PAGES);
        } else {
          DivUnique(end + excess, 1, end + excess - WORD_PAGES, WORD_PAGES);
        }
      }
    }
  }

  /** Where the end of a request is before it is capped. */
  lemma EndMoves(paBegin: nat, paEnd: nat, ipaBegin: nat)
    requires paBegin <= paEnd
    ensures var ipaEnd := ipaBegin + (paEnd - paBegin);
            RoundedUp(ipaBegin + (paEnd - Cleared(paBegin) * PAGE_SIZE)) ==
            (PageEnd(ipaEnd) + Excess(paBegin, ipaEnd % PAGE_SIZE)) % WORD_PAGES
  {
    var ipaEnd := ipaBegin + (paEnd - paBegin);
    var cut, high := paBegin % PAGE_SIZE, paBegin / PAGE_SIZE / PA_LIMIT * PA_LIMIT;
    var y := ipaEnd + cut + high * PAGE_SIZE;
    assert ipaBegin + (paEnd - Cleared(paBegin) * PAGE_SIZE) == y;
    RoundedUpIs(y);
    PagesMove(ipaEnd, cut, high);
  }

  lemma PagesMove(x: nat, cut: nat, high: nat)
    requires cut < PAGE_SIZE
    ensures var last := x % PAGE_SIZE;
            PageEnd(x + cut + high * PAGE_SIZE) ==
            PageEnd(x) + high + if cut > 0 && (last == 0 || last + cut > PAGE_SIZE) then 1 else 0
  {
  }

  lemma RoundedUpIs(y: nat)
    ensures RoundedUp(y) == PageEnd(y) % WORD_PAGES
  {
    var round, up := y / UINT64, y % UINT64 + PAGE_SIZE - 1;
    var carry := if up >= UINT64 then 1 else 0;
    var rest := up - carry * UINT64;
    DivUnique(up, carry, rest, UINT64);
    var pages := (round + carry) * WORD_PAGES + rest / PAGE_SIZE;
    DivUnique(y + PAGE_SIZE - 1, pages, rest % PAGE_SIZE, PAGE_SIZE);
    DivUnique(pages, round + carry, rest / PAGE_SIZE, WORD_PAGES);
  }

  /** Rounding up does not go around for what lies in a request. */
  lemma RoundsInside(addr: nat, end: nat)
    requires addr <= end * PAGE_SIZE && end < WORD_PAGES
    ensures RoundedUp(addr) == PageEnd(addr)
  {
    RoundedUpIs(addr);
    DivUnique(PageEnd(addr), 0, PageEnd(addr), WORD_PAGES);
  }

  /** Two ranges have the same pages inside the address space. */
  lemma SamePages(q: Request, ipaBegin: nat, ipaEnd: nat, space: nat)
    requires ipaBegin <= ipaEnd && q.end <= space
    ensures (forall page: nat :: page < space ==> (InRange(q, page) <==> Asked(ipaBegin, ipaEnd, page))) <==>
            var first, end := ipaBegin / PAGE_SIZE, PageEnd(ipaEnd);
            var last := if end > space then space else end;
            (q.begin == first && q.end == last) || (q.begin >= q.end && first >= last)
  {
    var first, end := ipaBegin / PAGE_SIZE, PageEnd(ipaEnd);
    var last := if end > space then space else end;
    if forall page: nat :: page < space ==> (InRange(q, page) <==> Asked(ipaBegin, ipaEnd, page)) {
      if q.begin < q.end {
        assert InRange(q, q.begin) && InRange(q, q.end - 1);
      }
      if first < last {
        assert Asked(ipaBegin, ipaEnd, first) && Asked(ipaBegin, ipaEnd, last - 1);
      }
      if q.begin < q.end && first < last {
        assert first > 0 ==> !Asked(ipaBegin, ipaEnd, first - 1);
        assert q.begin > 0 ==> !InRange(q, q.begin - 1);
        assert !InRange(q, q.end);
      }
    }
  }

  /** From 2^48 on the begin of a range becomes small, but not its end: unmapping
      the page at 2^48 unmaps everything, and mapping the one after it maps
      everything from page 1 on. */
  lemma HighRangeMapsAll(attrs: Attrs, flush: bool, space: nat, page: nat)
    requires page < space <= PA_LIMIT
    ensures var high := PA_LIMIT * PAGE_SIZE;
            var u := ToRequest(high, high + 0x1000, high, NO_ATTRS, true, flush, space);
            var m := ToRequest(0, 0x1000, high + 0x1000, attrs, false, flush, space);
            && u.begin == 0 && m.begin == 1 && u.end == m.end == space
            && !RangeKept(high, high, high + 0x1000, space)
            && !Asked(high, high + 0x1000, page) && !Asked(high + 0x1000, high + 0x2000, page)
  {
  }

  /** One page too many: mapping the second half of page 1 also maps page 2. */
  lemma RangeTooLong(attrs: Attrs)
    ensures var q := ToRequest(0x1800, 0x2000, 0x1800, attrs, false, false, 16);
            q.begin == 1 && q.end == 3 && PageEnd(0x2000) == 2
  {
  }
}
