/** The physical page allocator without its cache. */
module Pma {
  import opened Arith
  import opened PmaAlign
  import opened PmaSearch
  import opened PmaSpec
  import opened PmaSplit
  import opened PoolSpec


  /** How a call ends: refused, done, stopped at an access outside the array, or
      in a loop that does not end. */
  datatype Outcome = Refused | Done | OutOfBounds | Endless

  /** The first page of the chunk of `id` that reaches page `pn`. */
  ghost predicate IsStart(s: seq<Page>, start: nat, pn: nat, id: nat)
    requires pn < |s|
  {
    && start <= pn
    && (start > 0 ==> StartsChunk(s, start, id))
    && forall i :: start <= i < pn ==> id in s[i].owners && id !in s[i].lasts
  }

  /** There is only one such page. */
  lemma StartIsUnique(s: seq<Page>, a: nat, b: nat, pn: nat, id: nat)
    requires pn < |s| && IsStart(s, a, pn, id) && IsStart(s, b, pn, id)
    ensures a == b
  {
  }

  /** A page is in one chunk only. */
  lemma OneChunk(s: seq<Page>, lo: nat, hi: nat, pn: nat, id: nat)
    requires IsChunk(s, lo, hi, id) && lo <= pn <= hi
    ensures forall a: nat, b: nat :: IsChunk(s, a, b, id) && a <= pn <= b ==> a == lo && b == hi
  {
    forall a: nat, b: nat | IsChunk(s, a, b, id) && a <= pn <= b ensures a == lo && b == hi {
      assert id in s[b].lasts && id in s[hi].lasts;
    }
  }

  /** From the first page of a chunk to the page that ends it is one chunk. */
  lemma StartToEnd(s: seq<Page>, start: nat, pn: nat, id: nat)
    requires Chunked(s) && pn < |s| && id in s[pn].owners && IsStart(s, start, pn, id)
    ensures id in s[start].owners && pn <= ChunkEnd(s, start, id) && IsChunk(s, start, ChunkEnd(s, start, id), id)
  {
    assert start < pn ==> id in s[start].owners;
    var e := ChunkEnd(s, start, id);
    assert id in s[e].lasts;
  }

  /** For an ID that does not own a page the way back ends at once. */
  lemma StartsHere(s: seq<Page>, start: nat, pn: nat, id: nat)
    requires Chunked(s) && pn < |s| && id !in s[pn].owners && IsStart(s, start, pn, id)
    ensures start == pn
  {
    assert pn > 0 ==> ChunkedAt(s, pn - 1, id);
  }

  class PageAllocator {
    const pages: array<Page>
    const count: nat
    const at: nat
    const maxLevel: nat

    /** Page 0 stands for failure and always belongs to the hypervisor. */
    ghost predicate Valid()
      reads pages
    {
      0 < pages.Length == count < UINT64 && pages[0] == Page({HYPERVISOR_ID}, {HYPERVISOR_ID}) && Chunked(pages[..])
    }

    /** Page 0 and the pages of the array itself. */
    predicate IsRestricted(pn: nat) {
      Restricted(at, count, pn)
    }

    /** Memory for the array of `count` entries of two bytes, `at` bytes after the
        start of the memory it describes, which is mapped by entries of levels up to
        `maxLevel`. */
    constructor (count: nat, at: nat, maxLevel: nat)
      requires 0 < count < UINT64
      ensures fresh(pages) && pages.Length == this.count == count && this.at == at && this.maxLevel == maxLevel
    {
      this.count, this.at, this.maxLevel := count, at, maxLevel;
      pages := new Page[count];
    }

    /** Clears the array, reserves the pages it lies in, and one entry more, for
        the hypervisor, and takes page 0. */
    method Init() returns (r: Outcome)
      requires 0 < pages.Length == count < UINT64
      modifies pages
      ensures var lo, hi := at / PAGE_SIZE, (at + 2 * count + 1) / PAGE_SIZE;
              && r == (if lo >= count || hi > count then Refused else if hi == count then OutOfBounds else Done)
              && (r != OutOfBounds ==>
                    && Valid()
                    && forall i :: 0 < i < count ==>
                         pages[i] == if r == Done && lo <= i <= hi
                                     then Page({HYPERVISOR_ID}, if i == hi then {HYPERVISOR_ID} else {})
                                     else FREE)
    {
      var i := 0;
      while i < pages.Length
        invariant i <= pages.Length && forall j :: 0 <= j < i ==> pages[j] == FREE
      {
        pages[i] := FREE;
        i := i + 1;
      }
      ghost var zero := pages[..];
      r := Reserve(false, at / PAGE_SIZE, (at + 2 * count + 1) / PAGE_SIZE, HYPERVISOR_ID);
      assert r.Refused? || r.Endless? ==> pages[..] == zero;
      ghost var s := pages[..];
      if r == OutOfBounds {
        return;
      }
      pages[FAULT_PAGE_NUMBER] := Page({HYPERVISOR_ID}, {HYPERVISOR_ID});
      TakeFirst(s, pages[..]);
    }

    /** Goes back from a page until the chunk begins; page 0 when the page is
        free or does not exist. */
    method GetStartPage(pn: nat, id: nat) returns (start: nat)
      ensures pn >= pages.Length || pages[pn] == FREE ==> start == FAULT_PAGE_NUMBER
      ensures pn < pages.Length && pages[pn] != FREE ==> IsStart(pages[..], start, pn, id)
    {
      if pn >= pages.Length || pages[pn] == FREE {
        return FAULT_PAGE_NUMBER;
      }
      start := pn;
      while start > 0 && !(id !in pages[start - 1].owners || id in pages[start - 1].lasts)
        invariant start <= pn
        invariant forall i :: start <= i < pn ==> id in pages[i].owners && id !in pages[i].lasts
      {
        start := start - 1;
      }
    }

    /** The number of pages of the chunk that reaches page `pn`, 0 for none. For an
        ID that does not own the page it is the distance to the next page that
        ends a chunk of that ID, or to the end of memory. */
    method GetSize(pn: nat, id: nat) returns (size: nat)
      requires Valid()
      ensures pn < pages.Length && id in pages[pn].owners ==>
                exists lo: nat, hi: nat {:trigger IsChunk(pages[..], lo, hi, id)} ::
                  && lo <= pn <= hi && IsChunk(pages[..], lo, hi, id)
                  && size == if lo == FAULT_PAGE_NUMBER then 0 else hi + 1 - lo
      ensures pn == FAULT_PAGE_NUMBER || pn >= pages.Length || pages[pn] == FREE ==> size == 0
      ensures 0 < pn < pages.Length && pages[pn] != FREE && id !in pages[pn].owners ==>
                && 0 < size <= pages.Length - pn
                && (forall j :: pn <= j < pn + size - 1 ==> id !in pages[j].lasts)
                && (id in pages[pn + size - 1].lasts || pn + size == pages.Length)
    {
      var start := GetStartPage(pn, id);
      if pn < pages.Length && id in pages[pn].owners {
        StartToEnd(pages[..], start, pn, id);
      } else if pn < pages.Length && pages[pn] != FREE {
        StartsHere(pages[..], start, pn, id);
      }
      if start == FAULT_PAGE_NUMBER {
        return 0;
      }
      size := 0;
      var i := start;
      while i < pages.Length
        invariant start <= i <= pages.Length && size == i - start
        invariant forall j :: start <= j < i ==> id !in pages[j].lasts
      {
        size := size + 1;
        if id in pages[i].lasts {
          break;
        }
        i := i + 1;
      }
      if pn < pages.Length && id in pages[pn].owners {
        var e := ChunkEnd(pages[..], start, id);
        assert id in pages[..][e].lasts;
      }
    }

    /** Whether pages lo to hi all belong to `id`. The scan leaves the array if and
        only if they all do up to its end and the range goes on. */
    method IsAssigned(lo: nat, hi: nat, id: nat) returns (r: Outcome)
      ensures r == OutOfBounds <==> lo != FAULT_PAGE_NUMBER && id < MAX_IDS && ScanLeaves(pages[..], lo, hi, id)
      ensures r == Done <==>
                && lo != FAULT_PAGE_NUMBER && id < MAX_IDS && (lo <= hi ==> hi < pages.Length)
                && forall i :: lo <= i <= hi ==> id in pages[i].owners
      ensures r != Endless
    {
      if lo == FAULT_PAGE_NUMBER || id >= MAX_IDS {
        return Refused;
      }
      var i := lo;
      while i <= hi
        invariant lo <= i && (i <= pages.Length || i == lo)
        invariant forall j :: lo <= j < i && j <= hi ==> id in pages[j].owners
      {
        if i >= pages.Length {
          return OutOfBounds;
        }
        if id !in pages[i].owners {
          return Refused;
        }
        i := i + 1;
      }
      r := Done;
    }

    /** Takes the pages from `start` to the end `e` of its chunk away from `id`,
        which leaves chunks if and only if the chunk begins there. */
    method FreeFrom(start: nat, ghost e: nat, id: nat)
      requires Valid() && 0 < start && IsTail(pages[..], start, e, id)
      modifies pages
      ensures pages[..] == Drop(old(pages[..]), start, e, id)
      ensures Valid() <==> StartsChunk(old(pages[..]), start, id)
    {
      ghost var s := pages[..];
      var i := start;
      while i < pages.Length
        invariant start <= i <= e
        invariant forall j :: 0 <= j < pages.Length ==>
                    pages[j] == if start <= j < i then Page(s[j].owners - Bit(id), s[j].lasts - Bit(id)) else s[j]
        invariant forall j :: start <= j < i ==> s[j].lasts - Bit(id) == s[j].lasts
      {
        pages[i] := Page(pages[i].owners - Bit(id), pages[i].lasts);
        if id in pages[i].lasts {
          pages[i] := Page(pages[i].owners, pages[i].lasts - Bit(id));
          break;
        }
        assert s[i].lasts - Bit(id) == s[i].lasts;
        i := i + 1;
      }
      assert i == e;
      assert pages[..] == Drop(s, start, e, id);
      DropKeepsChunks(s, start, e, id);
    }

    /** Frees the chunk of `id` that reaches page `pn`: exactly that chunk, of
        exactly that ID. */
    method Free(pn: nat, id: nat) returns (ok: bool)
      requires Valid()
      modifies pages
      ensures Valid()
      ensures !ok ==> pages[..] == old(pages[..])
      ensures ok ==> exists lo: nat, hi: nat {:trigger IsChunk(old(pages[..]), lo, hi, id)} ::
                lo <= pn <= hi && IsChunk(old(pages[..]), lo, hi, id) && pages[..] == Drop(old(pages[..]), lo, hi, id)
      ensures forall start :: pn < pages.Length && IsStart(old(pages[..]), start, pn, id) ==>
                (ok <==> id < MAX_IDS && id in old(pages[pn]).owners && !IsRestricted(start))
      ensures pn >= pages.Length ==> !ok
    {
      ghost var s := pages[..];
      if id >= MAX_IDS {
        return false;
      }
      var start := GetStartPage(pn, id);
      if pn < pages.Length && pages[pn] != FREE {
        forall a | IsStart(s, a, pn, id) ensures a == start {
          StartIsUnique(s, a, start, pn, id);
        }
        if id in pages[pn].owners {
          StartToEnd(s, start, pn, id);
        } else {
          StartsHere(s, start, pn, id);
        }
      }
      if IsRestricted(start) || pages[start] == FREE || id !in pages[start].owners {
        return false;
      }
      FreeFrom(start, ChunkEnd(s, start, id), id);
      ok := true;
    }

    /** Shares the pages of the `size` bytes at the offset `ptr` with another ID.
        Assigning no bytes at all can leave a page that ends a chunk of an ID
        that does not own it. */
    method Assign(ptr: nat, identity: bool, size: nat, id: nat) returns (r: Outcome)
      requires Valid()
      modifies pages
      ensures var lo, hi := ptr / PAGE_SIZE, (ptr + size - 1) / PAGE_SIZE;
              var s := old(pages[..]);
              && r == AssignOutcome(s, at, lo, hi, identity, size, id)
              && pages[..] == (if r == Refused || lo >= |s| || id in s[lo].owners then s else Grant(s, lo, hi, id))
              && (size > 0 && r != OutOfBounds ==> Valid())
    {
      ghost var s := pages[..];
      if id >= MAX_IDS || size > pages.Length * PAGE_SIZE || (id == HYPERVISOR_ID && !identity) {
        return Refused;
      }
      var lo := ptr / PAGE_SIZE;
      if lo > pages.Length || IsRestricted(lo) {
        return Refused;
      }
      if lo >= pages.Length {
        return OutOfBounds;
      }
      if pages[lo] == FREE {
        return Refused;
      }
      if id in pages[lo].owners {
        return Done;
      }
      var hi := (ptr + size - 1) / PAGE_SIZE;
      r := Share(lo, hi, id);
      if r == Done {
        GrantKeepsChunks(s, lo, hi, id);
      }
    }

    /** Sets the bits of pages lo to hi, as far as there are pages. */
    method Share(lo: nat, hi: nat, id: nat) returns (r: Outcome)
      requires lo < pages.Length && lo <= hi + 1 && id < MAX_IDS
      modifies pages
      ensures r == if hi >= pages.Length then OutOfBounds else Done
      ensures pages[..] == Grant(old(pages[..]), lo, hi, id)
    {
      ghost var s := pages[..];
      var i := lo;
      while i <= hi
        invariant lo <= i && (i <= hi + 1 || i == lo) && i <= pages.Length
        invariant forall j :: 0 <= j < pages.Length ==>
                    pages[j] == if lo <= j < i then Page(s[j].owners + Bit(id), s[j].lasts) else s[j]
      {
        if i >= pages.Length {
          return OutOfBounds;
        }
        pages[i] := Page(pages[i].owners + Bit(id), pages[i].lasts);
        i := i + 1;
      }
      pages[hi] := Page(pages[hi].owners, pages[hi].lasts + Bit(id));
      r := Done;
    }

    /** Reserves pages lo to hi, all of them or none; `below` says that the range
        begins before the memory that is managed. It leaves the array if and only
        if the range ends at the first page that does not exist and all before
        it are free; and it never ends if and only if the range starts at page 0
        and has a page that is taken. */
    method Reserve(below: bool, lo: nat, hi: nat, id: nat) returns (r: Outcome)
      requires Chunked(pages[..]) && pages.Length < UINT64
      modifies pages
      ensures var s := old(pages[..]);
              && r == ReserveOutcome(s, below, lo, hi)
              && pages[..] == (if r == Done || r == OutOfBounds then Claim(s, lo, hi, id) else s)
      ensures r != OutOfBounds ==> Chunked(pages[..]) && (old(Valid()) ==> Valid())
    {
      ghost var s := pages[..];
      if below || lo >= pages.Length || hi > pages.Length {
        return Refused;
      }
      var i := lo;
      while i <= hi
        invariant lo <= i && (i <= hi + 1 || i == lo) && i <= pages.Length && forall j :: lo <= j < i ==> s[j] == FREE
        invariant forall j :: 0 <= j < pages.Length ==>
                    pages[j] == if lo <= j < i then Page(Bit(id), if j == hi then Bit(id) else {}) else s[j]
      {
        if i >= pages.Length {
          assert pages[..] == Claim(s, lo, hi, id);
          return OutOfBounds;
        }
        if pages[i] != FREE {
          assert s[i] != FREE;
          var ended := Undo(s, lo, i, hi, id);
          return if ended then Refused else Endless;
        }
        pages[i] := Page(Bit(id), {});
        if i == hi {
          pages[i] := Page(pages[i].owners, pages[i].lasts + Bit(id));
        }
        i := i + 1;
      }
      assert pages[..] == Claim(s, lo, hi, id);
      if lo <= hi {
        ClaimKeepsChunks(s, lo, hi, id);
      } else {
        assert pages[..] == s;
      }
      r := Done;
    }

    /** Resets the pages from `i - 1` back to `lo`, counting down in 64 bits; false
        when the count goes from 0 to the largest number, past the array. */
    method Undo(ghost s: seq<Page>, lo: nat, i: nat, ghost hi: nat, ghost id: nat) returns (ended: bool)
      requires |s| == pages.Length < UINT64 && lo <= i <= hi && i < pages.Length
      requires forall j :: lo <= j < i ==> s[j] == FREE
      requires forall j :: 0 <= j < pages.Length ==>
                 pages[j] == if lo <= j < i then Page(Bit(id), if j == hi then Bit(id) else {}) else s[j]
      modifies pages
      ensures pages[..] == s && (ended <==> lo > 0)
    {
      var j: nat := Before(i);
      while j >= lo
        invariant j < i || (lo == 0 && j == UINT64 - 1)
        invariant lo <= j + 1
        invariant forall k :: 0 <= k < pages.Length && !(lo <= k <= j < i) ==> pages[k] == s[k]
        decreases if j < pages.Length then j + 1 else 0
      {
        if j >= pages.Length {
          return false;
        }
        pages[j] := FREE;
        j := Before(j);
      }
      ended := true;
    }

    /** Takes pages lo to hi out of whatever chunks of `id` they are in. Page 0
        stops standing for failure when the hypervisor releases it. The test of
        the last page leaves the array if and only if the range ends at the first
        page that does not exist. */
    method Release(below: bool, lo: nat, hi: nat, id: nat) returns (r: Outcome)
      requires Valid()
      modifies pages
      ensures var s := old(pages[..]);
              && r == ReleaseOutcome(s, below, lo, hi)
              && pages[..] == (if r == Done then CutOut(s, lo, hi, id) else s)
      ensures Chunked(pages[..]) && (Valid() <==> r != Done || lo > 0 || id != HYPERVISOR_ID)
    {
      ghost var s := pages[..];
      if below || lo >= pages.Length || hi > pages.Length {
        return Refused;
      }
      if hi >= pages.Length {
        return OutOfBounds;
      }
      CutOutKeepsChunks(s, lo, hi, id);
      if lo > 0 && id in pages[lo - 1].owners {
        pages[lo - 1] := Page(pages[lo - 1].owners, pages[lo - 1].lasts + Bit(id));
      }
      var i := lo;
      while i <= hi
        invariant lo <= i && (i <= hi + 1 || i == lo)
        invariant forall j :: 0 <= j < pages.Length && j != lo - 1 ==>
                    pages[j] == if lo <= j < i then Page(s[j].owners - Bit(id), s[j].lasts - Bit(id)) else s[j]
        invariant lo > 0 ==>
                    pages[lo - 1] == if id in s[lo - 1].owners then Page(s[lo - 1].owners, s[lo - 1].lasts + Bit(id))
                                     else s[lo - 1]
      {
        assert ChunkedAt(s, i, id);
        if id in pages[i].owners {
          pages[i] := Page(pages[i].owners - Bit(id), pages[i].lasts);
          if id in pages[i].lasts {
            pages[i] := Page(pages[i].owners, pages[i].lasts - Bit(id));
          }
        }
        assert pages[i] == Page(s[i].owners - Bit(id), s[i].lasts - Bit(id));
        i := i + 1;
      }
      assert pages[..] == CutOut(s, lo, hi, id);
      assert s[0].lasts + Bit(id) == s[0].lasts || id !in s[0].owners;
      assert id != HYPERVISOR_ID ==> s[0].owners - Bit(id) == s[0].owners && s[0].lasts - Bit(id) == s[0].lasts;
      r := Done;
    }

    /** Looks for `need` free pages on end: run after run, each behind the page
        that ruled out the one before, until one is free or memory ends. */
    method Search(need: nat, unit: nat, offset: nat) returns (start: nat, count: nat)
      requires need > 0 && unit > 0
      ensures count <= need && (count == need <==> Chosen(pages[..], 0, need, unit, offset).Some?)
      ensures count == need ==> Chosen(pages[..], 0, need, unit, offset) == Some(start)
    {
      ghost var s := pages[..];
      start, count := 0, 0;
      var i := 0;
      while i < pages.Length
        invariant start <= i && count == i - start && count < need
        invariant start < i ==> i <= pages.Length && forall j :: start <= j < i ==> pages[j] == FREE
        invariant Chosen(s, 0, need, unit, offset) == Chosen(s, start, need, unit, offset)
        decreases pages.Length - i
      {
        if pages[i] == FREE {
          count := count + 1;
          if count >= need {
            break;
          }
        } else {
          RunSoFar(s, start, need, count);
          GoesOn(s, start, need, unit, offset, i);
          start, i := NextRun(i, unit, offset);
          count := 0;
          continue;
        }
        i := i + 1;
      }
      RunSoFar(s, start, need, count);
    }

    /** The start of the next run and the page to go on with, behind page `i`. */
    method NextRun(i: nat, unit: nat, offset: nat) returns (start: nat, next: nat)
      requires unit > 0
      ensures start == next == NextStart(i, unit, offset)
    {
      start, next := i + 1, i;
      if unit > 1 {
        var incr := unit - Rem(start, unit);
        start := start + incr + offset;
        next := next + incr + offset;
      }
      next := next + 1;
    }

    /** The alignment for an allocation: the one asked for, or that of the largest
        entries that fit behind the offset of `ipa`. */
    method ChooseAlignment(ipa: nat, size: nat, asked: nat) returns (alignment: nat)
      ensures var first := if ipa == IDENTITY_MAP then 0 else ipa / PAGE_SIZE;
              alignment == if asked == AUTO_PAGE_LEVEL then AutoLevel(first, size, maxLevel) * 9 else asked
    {
      if asked != AUTO_PAGE_LEVEL {
        return asked;
      }
      alignment := 0;
      var level := 1;
      while level <= maxLevel
        invariant 1 <= level <= maxLevel + 1 && alignment == (level - 1) * PAGE_LEVEL_BITS
        invariant AutoLevel(Origin(ipa), size, level - 1) == level - 1
      {
        FitsFrom(ipa, size, level);
        alignment := level * PAGE_LEVEL_BITS;
        var entry, offset := PAGE_SIZE * Unit(level), IpaOffset(ipa, alignment);
        if size < entry || (offset > 0 && size < entry + PAGE_SIZE * (Pow2(alignment) - offset)) {
          LevelsEnd(Origin(ipa), size, level, maxLevel);
          return (level - 1) * PAGE_LEVEL_BITS;
        }
        level := level + 1;
      }
    }

    /** Allocates the pages for `size` bytes to `id`, as one chunk that starts
        like `ipa` does with respect to the alignment in effect. Returns the first
        page, or page 0 for failure. `PlaceExact` says when there is such a run. */
    method AlignedAlloc(ipa: nat, size: nat, alignment: nat, id: nat) returns (ret: nat)
      requires Valid()
      modifies pages
      ensures Valid()
      ensures var c := Place(old(pages[..]), maxLevel, ipa, size, alignment, id);
              ret == (if c.Some? then c.value else FAULT_PAGE_NUMBER) && (c.Some? ==> ret != FAULT_PAGE_NUMBER)
      ensures ret == FAULT_PAGE_NUMBER ==> pages[..] == old(pages[..])
      ensures ret != FAULT_PAGE_NUMBER ==>
                var n, first := BytesToPages(size), if ipa == 0xDEAD_DEAD then 0 else ipa / 4096;
                var a := if alignment == 255 then AutoLevel(first, size, maxLevel) * 9 else alignment;
                && n > 0 && id < MAX_IDS && AllFree(old(pages[..]), ret, n)
                && pages[..] == Claim(old(pages[..]), ret, ret + n - 1, id)
                && ret % Pow2(a) == first % Pow2(a)
    {
      PlaceExact(pages[..], maxLevel, ipa, size, alignment, id);
      if size == 0 || size > pages.Length * PAGE_SIZE || id >= MAX_IDS {
        return FAULT_PAGE_NUMBER;
      }
      var a := ChooseAlignment(ipa, size, alignment);
      ret := Take(BytesToPages(size), Pow2(a), IpaOffset(ipa, a), id);
    }

    /** Claims the run that the search takes. */
    method Take(need: nat, unit: nat, offset: nat, id: nat) returns (ret: nat)
      requires Valid() && need > 0 && offset < unit && id < MAX_IDS
      modifies pages
      ensures Valid()
      ensures var s := old(pages[..]);
              var c := Chosen(s, 0, need, unit, offset);
              && ret == (if c.Some? then c.value else FAULT_PAGE_NUMBER) && (c.Some? ==> ret != FAULT_PAGE_NUMBER)
              && pages[..] == (if c.Some? then Claim(s, ret, ret + need - 1, id) else s)
    {
      ghost var s := pages[..];
      SearchMeans(s, need, unit, offset);
      var start, count := Search(need, unit, offset);
      if start >= pages.Length || count < need {
        return FAULT_PAGE_NUMBER;
      }
      Mark(start, count, id);
      ClaimKeepsChunks(s, start, start + count - 1, id);
      ret := start;
    }

    method Mark(start: nat, count: nat, id: nat)
      requires count > 0 && start + count <= pages.Length
      modifies pages
      ensures pages[..] == Claim(old(pages[..]), start, start + count - 1, id)
    {
      ghost var s := pages[..];
      var i := start;
      while i < start + count
        invariant start <= i <= start + count
        invariant forall j :: 0 <= j < pages.Length ==> pages[j] == if start <= j < i then Page(Bit(id), {}) else s[j]
      {
        pages[i] := Page(Bit(id), {});
        i := i + 1;
      }
      var end := start + count - 1;
      pages[end] := Page(pages[end].owners, pages[end].lasts + Bit(id));
      assert pages[end].lasts == Bit(id);
      assert pages[..] == Claim(s, start, end, id);
    }

    /** Memory of the hypervisor becomes memory of a VM: allocated by the one,
        assigned to the other, and freed by the first. */
    method HandOver(ipa: nat, size: nat, alignment: nat, vm: nat) returns (ret: nat)
      requires Valid() && vm < MAX_IDS && vm != HYPERVISOR_ID
      requires forall i :: 0 <= i < pages.Length && IsRestricted(i) ==> pages[i] != FREE
      modifies pages
      ensures Valid()
      ensures ret == FAULT_PAGE_NUMBER ==>
                pages[..] == old(pages[..]) && Place(pages[..], maxLevel, ipa, size, alignment, HYPERVISOR_ID) == None
      ensures ret != FAULT_PAGE_NUMBER ==>
                var n := BytesToPages(size);
                && n > 0 && AllFree(old(pages[..]), ret, n)
                && Place(old(pages[..]), maxLevel, ipa, size, alignment, HYPERVISOR_ID) == Some(ret)
                && pages[..] == Claim(old(pages[..]), ret, ret + n - 1, vm) && IsChunk(pages[..], ret, ret + n - 1, vm)
    {
      ghost var s := pages[..];
      ret := AlignedAlloc(ipa, size, alignment, HYPERVISOR_ID);
      if ret == FAULT_PAGE_NUMBER {
        return;
      }
      ghost var hi := ret + BytesToPages(size) - 1;
      ClaimKeepsChunks(s, ret, hi, HYPERVISOR_ID);
      assert s[ret] == FREE;
      PassOn(ret, hi, vm);
      Handover(s, ret, hi, HYPERVISOR_ID, vm);
      ClaimKeepsChunks(s, ret, hi, vm);
    }

    /** A chunk of the hypervisor is assigned to a VM and freed. */
    method PassOn(start: nat, ghost hi: nat, vm: nat)
      requires Valid() && vm < MAX_IDS && vm != HYPERVISOR_ID && IsChunk(pages[..], start, hi, HYPERVISOR_ID)
      requires !IsRestricted(start) && vm !in pages[start].owners
      modifies pages
      ensures Valid()
      ensures pages[..] == Drop(Grant(old(pages[..]), start, hi, vm), start, hi, HYPERVISOR_ID)
    {
      ghost var s1 := pages[..];
      var n := GetSize(start, HYPERVISOR_ID);
      OneChunk(s1, start, hi, start, HYPERVISOR_ID);
      WholeRun(start, n, hi, pages.Length);
      var shared := Assign(start * PAGE_SIZE, false, n * PAGE_SIZE, vm);
      ghost var s2 := pages[..];
      assert IsStart(s2, start, start, HYPERVISOR_ID) && IsChunk(s2, start, hi, HYPERVISOR_ID);
      var ok := Free(start, HYPERVISOR_ID);
      OneChunk(s2, start, hi, start, HYPERVISOR_ID);
    }

    /** Tries again with two halves when there is no room for the whole. The
        pieces it allocates are returned for the proof. */
    method AlignedAllocWithSplit(ipa: nat, size: nat, alignment: nat, id: nat, maxSplits: nat)
      returns (ret: nat, ghost pieces: seq<Piece>)
      requires Valid() && ipa < UINT64
      modifies pages
      ensures Valid()
      ensures var s := old(pages[..]);
              Gives(SplitAlloc(s, maxLevel, ipa, size, alignment, id, maxSplits), s, pages[..], ret, pieces, id)
      decreases maxSplits, 1
    {
      ghost var s := pages[..];
      ret := AlignedAlloc(ipa, size, alignment, id);
      if ret != FAULT_PAGE_NUMBER {
        pieces := [Piece(MappedAt(ipa, ret, id), ret, BytesToPages(size))];
        OnePiece(s, MappedAt(ipa, ret, id), ret, BytesToPages(size), id);
        return;
      }
      pieces := [];
      if maxSplits > 0 && size > PAGE_SIZE {
        ret, pieces := AllocHalves(ipa, size, alignment, id, maxSplits - 1);
      }
    }

    method AllocHalves(ipa: nat, size: nat, alignment: nat, id: nat, maxSplits: nat)
      returns (ret: nat, ghost pieces: seq<Piece>)
      requires Valid() && size > PAGE_SIZE && ipa < UINT64
      modifies pages
      ensures Valid()
      ensures var s := old(pages[..]);
              Gives(HalvesAlloc(s, maxLevel, ipa, size, alignment, id, maxSplits), s, pages[..], ret, pieces, id)
      decreases maxSplits, 2
    {
      ghost var s := pages[..];
      var size1 := FirstHalf(size);
      var ipa1 := Onward(ipa, size1);
      ghost var a := SplitAlloc(s, maxLevel, ipa, size1, alignment, id, maxSplits);
      ret, pieces := AlignedAllocWithSplit(ipa, size1, alignment, id, maxSplits);
      ghost var t, first, more := pages[..], ret, [];
      ghost var b := SplitAlloc(t, maxLevel, ipa1, size - size1, alignment, id, maxSplits);
      assert HalvesAlloc(s, maxLevel, ipa, size, alignment, id, maxSplits) == Joined(a, b);
      if ret == FAULT_PAGE_NUMBER {
        GivesFirst(a, b, s, t, id);
        return;
      }
      ret, more := AlignedAllocWithSplit(ipa1, size - size1, alignment, id, maxSplits);
      GivesBoth(a, b, s, t, pages[..], first, ret, id);
      pieces := pieces + more;
    }
  }

  // ---------------------------------------------------------------- searching

  /** What the loop has counted is what there is to count. */
  lemma RunSoFar(s: seq<Page>, start: nat, need: nat, count: nat)
    requires count <= need && (count > 0 ==> start + count <= |s|)
    requires forall j :: start <= j < start + count ==> s[j] == FREE
    ensures count <= FreePages(s, start, need)
    ensures count < need && start + count < |s| && s[start + count] != FREE ==> FreePages(s, start, need) == count
    ensures start + count >= |s| ==> FreePages(s, start, need) == count
  {
    var n := FreePages(s, start, need);
    assert n < need && start + n < |s| ==> s[start + n] != FREE;
  }

  lemma GoesOn(s: seq<Page>, start: nat, need: nat, unit: nat, offset: nat, i: nat)
    requires unit > 0 && start <= i < |s| && i < start + need && FreePages(s, start, need) == i - start
    ensures Chosen(s, start, need, unit, offset) == Chosen(s, NextStart(i, unit, offset), need, unit, offset)
  {
  }

  lemma WholeRun(start: nat, n: nat, hi: nat, length: nat)
    requires n > 0 && hi == start + n - 1 && hi < length
    ensures start * PAGE_SIZE / PAGE_SIZE == start && (start * PAGE_SIZE + n * PAGE_SIZE - 1) / PAGE_SIZE == hi
    ensures 0 < n * PAGE_SIZE <= length * PAGE_SIZE
  {
  }

  // ---------------------------------------------------------------- ranges

  /** Some page from lo to hi is taken. */
  ghost predicate AnyUsed(s: seq<Page>, lo: nat, hi: nat) {
    exists i :: lo <= i <= hi && i < |s| && s[i] != FREE
  }

  /** The pages from lo to the end of the array all belong to `id`, and the range
      goes on past it. */
  ghost predicate ScanLeaves(s: seq<Page>, lo: nat, hi: nat, id: nat) {
    lo <= hi && hi >= |s| && forall i :: lo <= i < |s| ==> id in s[i].owners
  }

  predicate Restricted(at: nat, count: nat, pn: nat) {
    pn == FAULT_PAGE_NUMBER || at / PAGE_SIZE <= pn < (at + 2 * count) / PAGE_SIZE
  }

  /** An assignment leaves the array if and only if no argument and no page at its
      start rules it out and it starts at the first page that does not exist, or
      has to write and ends past the array. */
  function AssignOutcome(s: seq<Page>, at: nat, lo: nat, hi: int, identity: bool, size: nat, id: nat): (r: Outcome) {
    if id >= MAX_IDS || size > |s| * PAGE_SIZE || (id == HYPERVISOR_ID && !identity) then Refused
    else if lo > |s| || Restricted(at, |s|, lo) || (lo < |s| && s[lo] == FREE) then Refused
    else if lo == |s| || (id !in s[lo].owners && hi >= |s|) then OutOfBounds
    else Done
  }

  /** Reserving leaves the array if and only if the range ends at the first page
      that does not exist and all pages before it are free; and it never ends if
      and only if the range starts at page 0 and a page of it is taken. */
  ghost function ReserveOutcome(s: seq<Page>, below: bool, lo: nat, hi: nat): (r: Outcome) {
    if below || lo >= |s| || hi > |s| then Refused
    else if AnyUsed(s, lo, hi) then (if lo > 0 then Refused else Endless)
    else if hi == |s| then OutOfBounds
    else Done
  }

  /** Releasing leaves the array if and only if the range ends at the first page
      that does not exist. */
  function ReleaseOutcome(s: seq<Page>, below: bool, lo: nat, hi: nat): (r: Outcome) {
    if below || lo >= |s| || hi > |s| then Refused else if hi == |s| then OutOfBounds else Done
  }

  /** When an assignment is refused: a bad ID or size, an address other than that
      for the identity for the hypervisor, a page that does not exist, is page 0 or
      one of the array's, or is free. */
  lemma AssignRefused(s: seq<Page>, at: nat, lo: nat, hi: int, identity: bool, size: nat, id: nat)
    ensures var r := AssignOutcome(s, at, lo, hi, identity, size, id);
            var refused := || id >= 8 || size > |s| * 4096 || (id == 0 && !identity) || lo > |s| || lo == 0
                           || at / 4096 <= lo < (at + 2 * |s|) / 4096 || (lo < |s| && s[lo] == FREE);
            && (r == Refused <==> refused)
            && (r == OutOfBounds <==> !refused && (lo == |s| || (id !in s[lo].owners && hi >= |s|)))
            && r != Endless
  {
  }

  /** Two pages are assigned from the last page on; then from the page after it. */
  lemma AssignPastTheEnd(at: nat)
    requires at / PAGE_SIZE > 3
    ensures var s := [Page({0}, {0}), FREE, Page({1}, {1})];
            && AssignOutcome(s, at, 2, 3, true, 2 * PAGE_SIZE, 2) == OutOfBounds
            && AssignOutcome(s, at, 3, 3, true, PAGE_SIZE, 2) == OutOfBounds
  {
  }

  /** Free pages up to and including the one after the last are reserved; then a
      range from page 0 on, which is always taken. */
  lemma ReserveToTheEndOrFromZero()
    ensures var s := [Page({0}, {0}), FREE];
            ReserveOutcome(s, false, 1, 2) == OutOfBounds && ReserveOutcome(s, false, 0, 1) == Endless
  {
    var s := [Page({0}, {0}), FREE];
    assert s[0] != FREE;
  }

  /** The page after the last is released. */
  lemma ReleaseToTheEnd()
    ensures ReleaseOutcome([Page({0}, {0}), Page({1}, {1})], false, 1, 2) == OutOfBounds
  {
  }

  /** Asking about the last page, which the ID has, and the one after it. */
  lemma ScanPastTheEnd()
    ensures ScanLeaves([Page({0}, {0}), Page({1}, {1})], 1, 2, 1)
  {
  }

  function Before(j: nat): (r: nat) {
    if j == 0 then UINT64 - 1 else j - 1
  }

  /** The counter of the undo loop after `k` more rounds. */
  function Back(j: nat, k: nat): (r: nat) {
    if k == 0 then j else Before(Back(j, k - 1))
  }

  /** Counting down from `i - 1` falls below `lo` if and only if `lo` is not 0. */
  lemma UndoEnds(lo: nat, i: nat)
    requires lo <= i < UINT64
    ensures (exists k: nat :: Back(Before(i), k) < lo) <==> lo > 0
  {
    if lo > 0 {
      BackBy(i - 1, i - lo);
      assert Back(Before(i), i - lo) < lo;
    }
  }

  lemma {:induction false} BackBy(j: nat, k: nat)
    requires k <= j + 1
    ensures Back(j, k) == if k <= j then j - k else UINT64 - 1
  {
    if k > 0 {
      BackBy(j, k - 1);
    }
  }

  lemma TakeFirst(s: seq<Page>, t: seq<Page>)
    requires Chunked(s) && |s| > 0 && t == s[0 := Page({HYPERVISOR_ID}, {HYPERVISOR_ID})]
    ensures Chunked(t)
  {
    forall i, id: nat | 0 <= i < |t| ensures ChunkedAt(t, i, id) {
      assert ChunkedAt(s, i, id);
    }
  }
}
