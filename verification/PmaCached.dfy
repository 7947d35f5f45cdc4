/** The physical page allocator behind its direct-mapped cache of allocations:
    for live allocations the cache answers what the scans of the pages answer. */
module PmaCached {
  import opened Arith
  import opened Pma
  import opened PmaAlign
  import opened PmaSpec
  import opened PmaSplit

  const CACHE_SIZE: nat := 32

  datatype Entry = Entry(addr: nat, begin: nat, end: nat, pageCount: nat, owners: set<Owner>)

  /** A live allocation: its length in pages and the IDs that share it. */
  datatype Run = Run(n: nat, owners: set<Owner>)

  function PnToPtr(pn: nat): (ptr: nat)
  {
    START_ADDRESS + pn * PAGE_SIZE
  }

  /** The distance from the start of memory, in 64 bits. */
  function Offset(ptr: nat): (o: nat)
    requires ptr < UINT64
  {
    if ptr >= START_ADDRESS then ptr - START_ADDRESS else ptr + UINT64 - START_ADDRESS
  }

  function PtrToPn(ptr: nat): (pn: nat)
    requires ptr < UINT64
  {
    Offset(ptr) / PAGE_SIZE
  }

  /** The last byte of a range, in 64 bits. */
  function LastByte(ptr: nat, size: nat): (last: nat)
    requires ptr < UINT64 && size < UINT64
    ensures last < UINT64
  {
    if ptr + size == 0 then UINT64 - 1 else if ptr + size <= UINT64 then ptr + size - 1 else ptr + size - 1 - UINT64
  }

  function PtrHash(ptr: nat): (h: nat)
    ensures h < CACHE_SIZE
  {
    ptr % 0x10000000 / 0x1000 % 0x1F
  }

  lemma PageOfStart(pn: nat)
    requires PnToPtr(pn) < UINT64
    ensures PtrToPn(PnToPtr(pn)) == pn
  {
  }

  lemma OnlyStart(ptr: nat)
    requires ptr < UINT64
    ensures forall pn: nat :: PnToPtr(pn) == ptr ==> pn == PtrToPn(ptr)
  {
    forall pn: nat | PnToPtr(pn) == ptr ensures pn == PtrToPn(ptr) {
      PageOfStart(pn);
    }
  }

  /** All pages of the run belong to exactly its owners, to each as one chunk. */
  ghost predicate IsRun(s: seq<Page>, pn: nat, run: Run) {
    && 0 < pn && 0 < run.n && pn + run.n <= |s| && run.owners != {}
    && (forall id :: id in run.owners ==> IsChunk(s, pn, pn + run.n - 1, id))
    && (forall i :: pn <= i < pn + run.n ==> s[i].owners == run.owners)
  }

  ghost predicate AreRuns(s: seq<Page>, live: map<nat, Run>) {
    forall pn :: pn in live ==> IsRun(s, pn, live[pn])
  }

  /** Live allocations do not overlap. */
  lemma RunsApart(s: seq<Page>, live: map<nat, Run>, a: nat, b: nat, i: nat)
    requires AreRuns(s, live) && a in live && b in live && a <= i < a + live[a].n && b <= i < b + live[b].n
    ensures a == b
  {
    var id :| id in live[a].owners;
    OneChunk(s, a, a + live[a].n - 1, i, id);
    assert id in s[i].owners;
  }

  /** A chunk that has a page in common with a live allocation is all of it. */
  lemma ChunkIsRun(s: seq<Page>, a: nat, run: Run, lo: nat, hi: nat, i: nat, id: nat)
    requires IsRun(s, a, run) && IsChunk(s, lo, hi, id) && a <= i < a + run.n && lo <= i <= hi
    ensures a == lo
  {
    assert id in s[i].owners && s[i].owners == run.owners;
    OneChunk(s, lo, hi, i, id);
    assert IsChunk(s, a, a + run.n - 1, id);
  }

  /** The bytes are a part of the run, from its start on. */
  predicate IsPart(ptr: nat, size: nat, pn: nat, run: Run) {
    ptr == PnToPtr(pn) && 0 < size <= run.n * PAGE_SIZE && ptr + size <= UINT64
  }

  predicate InRun(s: seq<Page>, lo: nat, hi: nat, pn: nat, run: Run) {
    0 < lo == pn <= hi < pn + run.n <= |s|
  }

  lemma PartInRun(s: seq<Page>, ptr: nat, size: nat, pn: nat, run: Run)
    requires IsRun(s, pn, run) && IsPart(ptr, size, pn, run) && ptr < UINT64 && size < UINT64
    ensures InRun(s, PtrToPn(ptr), PtrToPn(LastByte(ptr, size)), pn, run)
    ensures PtrToPn(LastByte(ptr, size)) == pn + (size - 1) / PAGE_SIZE
  {
    PageOfStart(pn);
    assert Offset(ptr + size - 1) == pn * PAGE_SIZE + (size - 1);
  }

  /** No ID has a chunk that runs into the start of a live allocation. */
  lemma RunStarts(s: seq<Page>, pn: nat, run: Run, id: nat)
    requires Chunked(s) && IsRun(s, pn, run)
    ensures StartsChunk(s, pn, id) && s[pn] != FREE && IsStart(s, pn, pn, id)
  {
    assert ChunkedAt(s, pn - 1, id) && s[pn].owners == run.owners;
  }

  // ---------------------------------------------------------------- what the operations do to the live allocations

  lemma ClaimKeepsOther(s: seq<Page>, a: nat, run: Run, lo: nat, hi: nat, id: nat, r: seq<Page>)
    requires Chunked(s) && IsRun(s, a, run) && hi < |s| && forall i :: lo <= i <= hi ==> s[i] == FREE
    requires r == Claim(s, lo, hi, id)
    ensures IsRun(r, a, run)
  {
    assert forall i :: a <= i < a + run.n ==> s[i].owners == run.owners && r[i] == s[i];
    forall d | d in run.owners ensures IsChunk(r, a, a + run.n - 1, d) {
      assert IsChunk(s, a, a + run.n - 1, d) && r[a] == s[a] != FREE;
    }
  }

  lemma ClaimAddsRun(s: seq<Page>, live: map<nat, Run>, lo: nat, n: nat, id: Owner, r: seq<Page>, more: map<nat, Run>)
    requires Chunked(s) && AreRuns(s, live) && 0 < lo && 0 < n && AllFree(s, lo, n)
    requires r == Claim(s, lo, lo + n - 1, id) && more == live[lo := Run(n, {id})]
    ensures AreRuns(r, more)
  {
    forall a | a in more ensures IsRun(r, a, more[a]) {
      if a == lo {
        ClaimIsRun(s, lo, n, id, r);
      } else {
        ClaimKeepsOther(s, a, live[a], lo, lo + n - 1, id, r);
      }
    }
  }

  lemma ClaimIsRun(s: seq<Page>, lo: nat, n: nat, id: Owner, r: seq<Page>)
    requires Chunked(s) && 0 < lo && 0 < n && AllFree(s, lo, n) && r == Claim(s, lo, lo + n - 1, id)
    ensures IsRun(r, lo, Run(n, {id}))
  {
    ClaimKeepsChunks(s, lo, lo + n - 1, id);
  }

  /** The live allocations that have no page from lo to hi. */
  function Outside(live: map<nat, Run>, lo: nat, hi: int): (r: map<nat, Run>) {
    map a | a in live && !(a <= hi && lo < a + live[a].n) :: live[a]
  }

  /** What is known of the live allocations after pages lo to hi have got another
      owner: all that is outside, and one that is exactly those pages. */
  function Shared(live: map<nat, Run>, lo: nat, hi: int, whole: bool, id: nat): (r: map<nat, Run>)
    requires whole ==> lo in live
  {
    if whole then live[lo := Run(live[lo].n, live[lo].owners + Bit(id))] else Outside(live, lo, hi)
  }

  lemma GrantKeepsOther(s: seq<Page>, a: nat, run: Run, lo: nat, hi: nat, id: nat, r: seq<Page>)
    requires Chunked(s) && IsRun(s, a, run) && lo <= hi < |s| && r == Grant(s, lo, hi, id) && id < MAX_IDS
    requires !(a <= hi && lo < a + run.n)
    ensures IsRun(r, a, run)
  {
    forall i | a <= i < a + run.n ensures r[i] == s[i] {
    }
    forall d | d in run.owners ensures IsChunk(r, a, a + run.n - 1, d) {
      assert IsChunk(s, a, a + run.n - 1, d);
    }
  }

  lemma GrantToRun(s: seq<Page>, pn: nat, run: Run, id: nat, r: seq<Page>)
    requires Chunked(s) && IsRun(s, pn, run) && id < MAX_IDS && id !in run.owners
    requires r == Grant(s, pn, pn + run.n - 1, id)
    ensures IsRun(r, pn, Run(run.n, run.owners + Bit(id)))
  {
    var hi := pn + run.n - 1;
    forall d | d in run.owners + Bit(id) ensures IsChunk(r, pn, hi, d) {
      if d == id {
        RunStarts(s, pn, run, id);
        NotLast(s, pn, run, id);
      } else {
        assert IsChunk(s, pn, hi, d);
      }
    }
  }

  lemma GrantAddsOwner(s: seq<Page>, live: map<nat, Run>, lo: nat, hi: nat, whole: bool, id: nat, r: seq<Page>,
                       more: map<nat, Run>)
    requires Chunked(s) && AreRuns(s, live) && lo <= hi < |s| && id < MAX_IDS && r == Grant(s, lo, hi, id)
    requires whole ==> lo in live && hi == lo + live[lo].n - 1 && id !in live[lo].owners
    requires more == Shared(live, lo, hi, whole, id)
    ensures AreRuns(r, more)
  {
    forall a | a in more ensures IsRun(r, a, more[a]) {
      if whole && a == lo {
        GrantToRun(s, lo, live[lo], id, r);
      } else {
        if whole && a <= hi && lo < a + live[a].n {
          RunsApart(s, live, a, lo, if a <= lo then lo else a);
        }
        GrantKeepsOther(s, a, live[a], lo, hi, id, r);
      }
    }
  }

  lemma NotLast(s: seq<Page>, pn: nat, run: Run, id: nat)
    requires Chunked(s) && IsRun(s, pn, run) && id !in run.owners
    ensures forall i :: pn <= i < pn + run.n ==> id !in s[i].owners && id !in s[i].lasts
  {
    forall i | pn <= i < pn + run.n ensures id !in s[i].owners && id !in s[i].lasts {
      assert ChunkedAt(s, i, id);
    }
  }

  /** What remains of the live allocations when an ID gives up one of them. */
  function Without(live: map<nat, Run>, pn: nat, id: nat): (r: map<nat, Run>)
    requires pn in live
  {
    if live[pn].owners == Bit(id) then live - {pn} else live[pn := Run(live[pn].n, live[pn].owners - Bit(id))]
  }

  /** What is known of them when an ID gives up the chunk that starts at `start`
      through an address that is that of a live allocation, or is not. */
  function Left(live: map<nat, Run>, start: nat, known: bool, id: nat): (r: map<nat, Run>)
    requires known ==> start in live
  {
    if known then Without(live, start, id) else live - {start}
  }

  lemma DropRemovesOwner(s: seq<Page>, live: map<nat, Run>, lo: nat, hi: nat, known: bool, id: nat, r: seq<Page>,
                         left: map<nat, Run>)
    requires AreRuns(s, live) && IsChunk(s, lo, hi, id) && r == Drop(s, lo, hi, id)
    requires known ==> lo in live && hi == lo + live[lo].n - 1 && id in live[lo].owners
    requires left == Left(live, lo, known, id)
    ensures AreRuns(r, left)
  {
    forall a | a in live && a != lo ensures IsRun(r, a, live[a]) {
      DropKeepsOther(s, a, live[a], lo, hi, id, r);
    }
    if known && live[lo].owners != Bit(id) {
      DropLeavesRun(s, live[lo], lo, id, r);
    }
  }

  lemma DropKeepsOther(s: seq<Page>, a: nat, run: Run, lo: nat, hi: nat, id: nat, r: seq<Page>)
    requires IsRun(s, a, run) && a != lo && IsChunk(s, lo, hi, id) && r == Drop(s, lo, hi, id)
    ensures IsRun(r, a, run)
  {
    forall i | a <= i < a + run.n ensures r[i] == s[i] {
      if lo <= i <= hi {
        ChunkIsRun(s, a, run, lo, hi, i, id);
      }
    }
    forall d | d in run.owners ensures IsChunk(r, a, a + run.n - 1, d) {
      assert IsChunk(s, a, a + run.n - 1, d);
    }
  }

  lemma DropLeavesRun(s: seq<Page>, run: Run, pn: nat, id: nat, r: seq<Page>)
    requires IsRun(s, pn, run) && id in run.owners && run.owners != Bit(id) && r == Drop(s, pn, pn + run.n - 1, id)
    ensures IsRun(r, pn, Run(run.n, run.owners - Bit(id)))
  {
    forall d | d in run.owners - Bit(id) ensures IsChunk(r, pn, pn + run.n - 1, d) {
      assert IsChunk(s, pn, pn + run.n - 1, d);
    }
    var d :| d in run.owners && d != id;
    assert d in run.owners - Bit(id);
  }

  // ---------------------------------------------------------------- what the operations do to the cache

  predicate Hit(entries: seq<Entry>, ptr: nat)
    requires |entries| == CACHE_SIZE
  {
    entries[PtrHash(ptr)].addr == ptr
  }

  /** An entry found for the start of a live allocation describes it. */
  predicate EntryValid(entries: seq<Entry>, pn: nat, run: Run)
    requires |entries| == CACHE_SIZE
  {
    var e := entries[PtrHash(PnToPtr(pn))];
    e.addr == PnToPtr(pn) ==> e.begin == pn && e.end + 1 == pn + run.n && e.pageCount == run.n && e.owners == run.owners
  }

  /** An entry that has been used is about the page at its address, and some
      pages that exist; stale or not. */
  predicate EntryUsed(e: Entry, length: nat) {
    if e.addr == 0 then e.begin == 0
    else e.addr == PnToPtr(e.begin) && 0 < e.begin && 0 < e.pageCount && e.begin + e.pageCount <= length
  }

  ghost predicate CacheValid(entries: seq<Entry>, live: map<nat, Run>, length: nat) {
    && |entries| == CACHE_SIZE
    && (forall pn :: pn in live ==> EntryValid(entries, pn, live[pn]))
    && (forall h :: 0 <= h < CACHE_SIZE ==> EntryUsed(entries[h], length))
  }

  /** The entries with the one for `ptr`, if there is one, given other owners. */
  function SetOwners(entries: seq<Entry>, ptr: nat, owners: set<Owner>): (r: seq<Entry>)
    requires |entries| == CACHE_SIZE
    ensures |r| == CACHE_SIZE
  {
    var h := PtrHash(ptr);
    if entries[h].addr == ptr then entries[h := entries[h].(owners := owners)] else entries
  }

  /** The owners in the slot of `ptr`. */
  function OwnersAt(entries: seq<Entry>, ptr: nat): (r: set<Owner>)
    requires |entries| == CACHE_SIZE
  {
    entries[PtrHash(ptr)].owners
  }

  lemma AllocKeepsCache(entries: seq<Entry>, live: map<nat, Run>, length: nat, pn: nat, n: nat, id: Owner)
    requires CacheValid(entries, live, length) && n > 0 && 0 < pn && pn + n <= length
    ensures CacheValid(entries[PtrHash(PnToPtr(pn)) := Entry(PnToPtr(pn), pn, pn + n - 1, n, {id})],
                       live[pn := Run(n, {id})], length)
  {
    var r := entries[PtrHash(PnToPtr(pn)) := Entry(PnToPtr(pn), pn, pn + n - 1, n, {id})];
    forall a | a in live && a != pn ensures EntryValid(r, a, live[a]) {
      assert EntryValid(entries, a, live[a]);
    }
  }

  /** New owners for the entry of an address keep right what is known of the
      allocations that do not start there, and of one that has got them too. */
  lemma SetOwnersKeepsCache(entries: seq<Entry>, live: map<nat, Run>, length: nat, ptr: nat, owners: set<Owner>,
                            more: map<nat, Run>)
    requires CacheValid(entries, live, length)
    requires forall a :: a in more ==>
               a in live && more[a] == if PnToPtr(a) == ptr then Run(live[a].n, owners) else live[a]
    ensures CacheValid(SetOwners(entries, ptr, owners), more, length)
  {
    var r := SetOwners(entries, ptr, owners);
    forall a | a in more ensures EntryValid(r, a, more[a]) {
      assert EntryValid(entries, a, live[a]);
    }
  }

  // ---------------------------------------------------------------- the cached allocator

  class CachedAllocator {
    const pma: PageAllocator
    const cache: array<Entry>
    ghost var live: map<nat, Run>

    ghost predicate Valid()
      reads this, pma.pages, cache
    {
      pma.Valid() && AreRuns(pma.pages[..], live) && CacheValid(cache[..], live, pma.pages.Length)
    }

    constructor (p: PageAllocator)
      requires p.Valid()
      ensures Valid() && fresh(cache) && pma == p && live == map[]
    {
      pma := p;
      cache := new Entry[CACHE_SIZE](_ => Entry(0, 0, 0, 0, {}));
      live := map[];
    }

    method AddCache(ptr: nat, begin: nat, end: nat, pageCount: nat, owner: Owner)
      requires cache.Length == CACHE_SIZE
      modifies cache
      ensures cache[..] == old(cache[..])[PtrHash(ptr) := Entry(ptr, begin, end, pageCount, {owner})]
    {
      cache[PtrHash(ptr)] := Entry(ptr, begin, end, pageCount, {owner});
    }

    /** Allocates, and caches the result over whatever had its slot. */
    method Alloc(ipa: nat, size: nat, alignment: nat, id: nat) returns (ret: nat)
      requires Valid()
      modifies this`live, pma.pages, cache
      ensures Valid()
      ensures var c := Place(old(pma.pages[..]), pma.maxLevel, ipa, size, alignment, id);
              ret == (if c.Some? then c.value else FAULT_PAGE_NUMBER) && (c.Some? ==> ret != FAULT_PAGE_NUMBER)
      ensures ret == FAULT_PAGE_NUMBER ==>
                pma.pages[..] == old(pma.pages[..]) && live == old(live) && cache[..] == old(cache[..])
      ensures ret != FAULT_PAGE_NUMBER ==>
                var n := BytesToPages(size);
                && n > 0 && id < MAX_IDS && AllFree(old(pma.pages[..]), ret, n)
                && pma.pages[..] == Claim(old(pma.pages[..]), ret, ret + n - 1, id)
                && live == old(live)[ret := Run(n, {id})]
                && cache[..] == old(cache[..])[PtrHash(PnToPtr(ret)) := Entry(PnToPtr(ret), ret, ret + n - 1, n, {id})]
    {
      ghost var s := pma.pages[..];
      ret := pma.AlignedAlloc(ipa, size, alignment, id);
      if ret != FAULT_PAGE_NUMBER {
        Remember(ret, BytesToPages(size), id, s);
      }
    }

    /** Caches the `n` pages from page `start` of `s` on, which have been claimed. */
    method Remember(start: nat, n: nat, id: nat, ghost s: seq<Page>)
      requires pma.Valid() && Chunked(s) && AreRuns(s, live) && CacheValid(cache[..], live, pma.pages.Length)
      requires 0 < start && 0 < n && id < MAX_IDS && AllFree(s, start, n)
      requires pma.pages[..] == Claim(s, start, start + n - 1, id)
      modifies this`live, cache
      ensures Valid() && live == old(live)[start := Run(n, {id})]
      ensures var ptr := PnToPtr(start);
              cache[..] == old(cache[..])[PtrHash(ptr) := Entry(ptr, start, start + n - 1, n, {id})]
    {
      ghost var l := live;
      AllocKeepsCache(cache[..], live, pma.pages.Length, start, n, id);
      AddCache(PnToPtr(start), start, start + n - 1, n, id);
      live := live[start := Run(n, {id})];
      ClaimAddsRun(s, l, start, n, id, pma.pages[..], live);
    }

    /** Shares memory with another ID. If it is exactly a live allocation, named by
        its start, the cache follows; what is known of others that it touches is
        lost, because the cache does not follow there. */
    method Assign(ptr: nat, identity: bool, size: nat, id: nat) returns (r: Outcome)
      requires Valid() && ptr < UINT64
      modifies this`live, pma.pages, cache
      ensures var lo, hi := PtrToPn(ptr), (Offset(ptr) + size - 1) / PAGE_SIZE;
              var s := old(pma.pages[..]);
              var whole := lo in old(live) && ptr == PnToPtr(lo) && hi == lo + old(live)[lo].n - 1;
              && r == AssignOutcome(s, pma.at, lo, hi, identity, size, id)
              && pma.pages[..] == (if r == Refused || lo >= |s| || id in s[lo].owners then s else Grant(s, lo, hi, id))
              && live == (if size > 0 && r == Done && id !in s[lo].owners then Shared(old(live), lo, hi, whole, id)
                          else old(live))
              && cache[..] == (if r == Done && id !in s[lo].owners
                               then SetOwners(old(cache[..]), ptr, OwnersAt(old(cache[..]), ptr) + Bit(id))
                               else old(cache[..]))
              && (size > 0 && r != OutOfBounds ==> Valid())
    {
      ghost var s := pma.pages[..];
      var more;
      r, more := SharePages(Offset(ptr), identity, size, id);
      if more {
        RecordShare(ptr, size, id, s, PtrToPn(ptr), (Offset(ptr) + size - 1) / PAGE_SIZE);
      }
    }

    /** Shares the pages, and tells whether that is new to the ID. */
    method SharePages(offset: nat, identity: bool, size: nat, id: nat) returns (r: Outcome, more: bool)
      requires pma.Valid()
      modifies pma.pages
      ensures var lo, hi, s := offset / PAGE_SIZE, (offset + size - 1) / PAGE_SIZE, old(pma.pages[..]);
              && r == AssignOutcome(s, pma.at, lo, hi, identity, size, id)
              && pma.pages[..] == (if r == Refused || lo >= |s| || id in s[lo].owners then s else Grant(s, lo, hi, id))
              && (more <==> r == Done && id !in s[lo].owners)
              && (more ==> lo < |s| && hi < |s| && id < MAX_IDS && (size > 0 ==> lo <= hi && pma.Valid()))
              && (!more && r != OutOfBounds ==> pma.pages[..] == s && pma.Valid())
    {
      var lo := offset / PAGE_SIZE;
      var had := lo < pma.pages.Length && id in pma.pages[lo].owners;
      r := pma.Assign(offset, identity, size, id);
      more := r == Done && !had;
    }

    /** After the pages of `s` from lo to hi have got another owner, or none of them
        has, for size zero. */
    method RecordShare(ptr: nat, size: nat, id: nat, ghost s: seq<Page>, ghost lo: nat, ghost hi: int)
      requires Chunked(s) && AreRuns(s, live) && CacheValid(cache[..], live, pma.pages.Length)
      requires ptr < UINT64 && lo == PtrToPn(ptr) && lo < |s| && hi < |s| && id < MAX_IDS && id !in s[lo].owners
      requires size > 0 ==> lo <= hi && pma.Valid() && pma.pages[..] == Grant(s, lo, hi, id)
      modifies this`live, cache
      ensures var whole := lo in old(live) && ptr == PnToPtr(lo) && hi == lo + old(live)[lo].n - 1;
              live == (if size > 0 then Shared(old(live), lo, hi, whole, id) else old(live)) && (size > 0 ==> Valid())
      ensures cache[..] == SetOwners(old(cache[..]), ptr, OwnersAt(old(cache[..]), ptr) + Bit(id))
    {
      if size > 0 {
        OnlyStart(ptr);
        Follow(ptr, s, lo, hi, id);
      } else {
        AddOwner(ptr, id);
      }
    }

    method AddOwner(ptr: nat, id: nat)
      requires cache.Length == CACHE_SIZE
      modifies cache
      ensures cache[..] == SetOwners(old(cache[..]), ptr, OwnersAt(old(cache[..]), ptr) + Bit(id))
    {
      var h := PtrHash(ptr);
      if cache[h].addr == ptr {
        cache[h] := cache[h].(owners := cache[h].owners + Bit(id));
      }
    }

    /** After the pages of `s` from lo to hi have got another owner. */
    method Follow(ptr: nat, ghost s: seq<Page>, ghost lo: nat, ghost hi: nat, id: nat)
      requires Chunked(s) && AreRuns(s, live) && CacheValid(cache[..], live, pma.pages.Length) && pma.Valid()
      requires lo <= hi < |s| && id < MAX_IDS && id !in s[lo].owners && pma.pages[..] == Grant(s, lo, hi, id)
      requires forall a: nat :: PnToPtr(a) == ptr ==> a == lo
      modifies this`live, cache
      ensures var whole := lo in old(live) && ptr == PnToPtr(lo) && hi == lo + old(live)[lo].n - 1;
              live == Shared(old(live), lo, hi, whole, id) && Valid()
      ensures cache[..] == SetOwners(old(cache[..]), ptr, OwnersAt(old(cache[..]), ptr) + Bit(id))
    {
      ghost var l := live;
      ghost var whole := lo in live && ptr == PnToPtr(lo) && hi == lo + live[lo].n - 1;
      assert whole ==> IsRun(s, lo, live[lo]) && s[lo].owners == live[lo].owners;
      forall a | a in live && PnToPtr(a) == ptr ensures a == lo && 0 < live[a].n {
        assert IsRun(s, a, live[a]);
      }
      AddToEntry(ptr, lo, hi, whole, id);
      GrantAddsOwner(s, l, lo, hi, whole, id, pma.pages[..], live);
    }

    /** The cache follows an assignment of the pages. */
    method AddToEntry(ptr: nat, ghost lo: nat, ghost hi: nat, ghost whole: bool, id: nat)
      requires CacheValid(cache[..], live, pma.pages.Length) && lo <= hi
      requires forall a :: a in live && PnToPtr(a) == ptr ==> a == lo && 0 < live[a].n
      requires whole ==> lo in live && ptr == PnToPtr(lo)
      modifies cache, this`live
      ensures live == Shared(old(live), lo, hi, whole, id) && CacheValid(cache[..], live, pma.pages.Length)
      ensures cache[..] == SetOwners(old(cache[..]), ptr, OwnersAt(old(cache[..]), ptr) + Bit(id))
    {
      ghost var h, more := PtrHash(ptr), Shared(live, lo, hi, whole, id);
      ghost var owners := cache[h].owners + Bit(id);
      if whole {
        assert EntryValid(cache[..], lo, live[lo]);
        if cache[h].addr != ptr {
          owners := live[lo].owners + Bit(id);
        }
      }
      SetOwnersKeepsCache(cache[..], live, pma.pages.Length, ptr, owners, more);
      ghost var c := SetOwners(cache[..], ptr, owners);
      AddOwner(ptr, id);
      assert cache[..] == c;
      live := more;
    }

    /** An ID gives up the chunk that `ptr` is in. The start of the chunk is the one
        in the cache, if there is an entry for the address. That leaves chunks if
        and only if a chunk of the ID does begin there, which it always does for
        the start of a live allocation. */
    method Free(ptr: nat, id: nat) returns (ok: bool, ghost start: nat)
      requires Valid() && ptr < UINT64
      modifies this`live, pma.pages, cache
      ensures StartFound(old(pma.pages[..]), old(cache[..]), ptr, id, start)
      ensures var s := old(pma.pages[..]);
              && (ok <==> id < MAX_IDS && start < |s| && id in s[start].owners && !pma.IsRestricted(start))
              && (!ok ==> pma.pages[..] == s && live == old(live) && cache[..] == old(cache[..]) && Valid())
              && (ok ==> cache[..] == SetOwners(old(cache[..]), ptr, OwnersAt(old(cache[..]), ptr) - Bit(id)))
              && (ok ==> exists e: nat :: IsTail(s, start, e, id) && pma.pages[..] == Drop(s, start, e, id))
              && (ok ==> (Valid() <==> StartsChunk(s, start, id)))
              && (ok ==> live == Left(old(live), start, start in old(live) && ptr == PnToPtr(start), id))
      ensures forall pn :: pn in old(live) && ptr == PnToPtr(pn) ==>
                start == pn && Valid() && (ok <==> id in old(live)[pn].owners && !pma.IsRestricted(pn))
    {
      ghost var s, l := pma.pages[..], live;
      start := 0;
      var first := GetStartPage(ptr, id);
      start := first;
      forall pn | pn in live && ptr == PnToPtr(pn)
        ensures start == pn && StartsChunk(s, pn, id) && s[pn].owners == live[pn].owners
      {
        RunStarts(s, pn, live[pn], id);
      }
      if id >= MAX_IDS {
        return false, start;
      }
      if pma.IsRestricted(first) || pma.pages[first] == FREE || id !in pma.pages[first].owners {
        return false, start;
      }
      GiveUp(ptr, first, id);
      ok := true;
    }

    method GiveUp(ptr: nat, start: nat, id: nat)
      requires Valid() && 0 < start < pma.pages.Length && id in pma.pages[start].owners
      requires forall pn :: pn in live && ptr == PnToPtr(pn) ==> start == pn
      modifies this`live, pma.pages, cache
      ensures var s, e := old(pma.pages[..]), ChunkEnd(old(pma.pages[..]), start, id);
              && IsTail(s, start, e, id) && pma.pages[..] == Drop(s, start, e, id)
              && (Valid() <==> StartsChunk(s, start, id))
      ensures live == Left(old(live), start, start in old(live) && ptr == PnToPtr(start), id)
      ensures cache[..] == SetOwners(old(cache[..]), ptr, OwnersAt(old(cache[..]), ptr) - Bit(id))
    {
      ghost var s, l := pma.pages[..], live;
      ghost var e := ChunkEnd(s, start, id);
      ghost var known := start in live && ptr == PnToPtr(start);
      RemoveFromEntry(ptr, start, known, id);
      pma.FreeFrom(start, e, id);
      if StartsChunk(s, start, id) {
        if known {
          OneChunk(s, start, e, start, id);
          assert IsRun(s, start, l[start]) && s[start].owners == l[start].owners;
          assert IsChunk(s, start, start + l[start].n - 1, id);
        }
        DropRemovesOwner(s, l, start, e, known, id, pma.pages[..], live);
      }
    }

    /** The cache forgets an owner. */
    method RemoveFromEntry(ptr: nat, ghost start: nat, ghost known: bool, id: nat)
      requires CacheValid(cache[..], live, pma.pages.Length)
      requires (known <==> start in live && ptr == PnToPtr(start))
      requires forall pn :: pn in live && ptr == PnToPtr(pn) ==> start == pn
      modifies cache, this`live
      ensures live == Left(old(live), start, known, id) && CacheValid(cache[..], live, pma.pages.Length)
      ensures cache[..] == SetOwners(old(cache[..]), ptr, OwnersAt(old(cache[..]), ptr) - Bit(id))
    {
      var h := PtrHash(ptr);
      ghost var left := Left(live, start, known, id);
      ghost var owners := cache[h].owners - Bit(id);
      if known {
        assert EntryValid(cache[..], start, live[start]);
        if cache[h].addr != ptr {
          owners := live[start].owners - Bit(id);
        }
      }
      SetOwnersKeepsCache(cache[..], live, pma.pages.Length, ptr, owners, left);
      ghost var c := SetOwners(cache[..], ptr, owners);
      if cache[h].addr == ptr {
        cache[h] := cache[h].(owners := cache[h].owners - Bit(id));
      }
      assert cache[..] == c;
      live := left;
    }

    /** The start in the cache, or the one the scan finds. For the start of a live
        allocation they are the same, whatever the cache holds. */
    method GetStartPage(ptr: nat, id: nat) returns (start: nat)
      requires Valid() && ptr < UINT64
      ensures StartFound(pma.pages[..], cache[..], ptr, id, start)
      ensures forall pn :: pn in live && ptr == PnToPtr(pn) ==> start == pn && IsStart(pma.pages[..], start, pn, id)
    {
      forall pn | pn in live && ptr == PnToPtr(pn)
        ensures PtrToPn(ptr) == pn < pma.pages.Length && pma.pages[pn] != FREE && IsStart(pma.pages[..], pn, pn, id)
      {
        RunStarts(pma.pages[..], pn, live[pn], id);
        assert EntryValid(cache[..], pn, live[pn]);
        PageOfStart(pn);
      }
      var e := cache[PtrHash(ptr)];
      assert EntryUsed(cache[..][PtrHash(ptr)], pma.pages.Length);
      if e.addr == ptr {
        if ptr != 0 {
          PageOfStart(e.begin);
        }
        return e.begin;
      }
      start := pma.GetStartPage(PtrToPn(ptr), id);
      forall pn | pn in live && ptr == PnToPtr(pn) ensures start == pn {
        StartIsUnique(pma.pages[..], start, pn, pn, id);
      }
    }

    /** The size in the cache, or the one the scan finds; for every owner of a live
        allocation and its start they are the same. */
    method GetSize(ptr: nat, id: nat) returns (size: nat)
      requires Valid() && ptr < UINT64
      ensures Hit(cache[..], ptr) ==> size == cache[PtrHash(ptr)].pageCount
      ensures !Hit(cache[..], ptr) && PtrToPn(ptr) < pma.pages.Length && id in pma.pages[PtrToPn(ptr)].owners ==>
                exists lo: nat, hi: nat {:trigger IsChunk(pma.pages[..], lo, hi, id)} ::
                  && lo <= PtrToPn(ptr) <= hi && IsChunk(pma.pages[..], lo, hi, id)
                  && size == if lo == FAULT_PAGE_NUMBER then 0 else hi + 1 - lo
      ensures forall pn :: pn in live && ptr == PnToPtr(pn) && id in live[pn].owners ==>
                size == live[pn].n && IsChunk(pma.pages[..], pn, pn + size - 1, id)
    {
      forall pn | pn in live && ptr == PnToPtr(pn) && id in live[pn].owners
        ensures PtrToPn(ptr) == pn && EntryValid(cache[..], pn, live[pn]) && pma.pages[pn].owners == live[pn].owners
        ensures forall a: nat, b: nat :: IsChunk(pma.pages[..], a, b, id) && a <= pn <= b ==>
                  a == pn && b == pn + live[pn].n - 1
      {
        PageOfStart(pn);
        assert IsChunk(pma.pages[..], pn, pn + live[pn].n - 1, id) && pma.pages[..][pn].owners == live[pn].owners;
        OneChunk(pma.pages[..], pn, pn + live[pn].n - 1, pn, id);
      }
      var e := cache[PtrHash(ptr)];
      if e.addr == ptr {
        return e.pageCount;
      }
      size := pma.GetSize(PtrToPn(ptr), id);
    }

    /** Whether the cache or the pages say that the range belongs to the ID; the
        same for any part of a live allocation that begins where it begins. */
    method IsAssigned(ptr: nat, size: nat, id: nat) returns (r: Outcome)
      requires Valid() && ptr < UINT64 && size < UINT64
      ensures Hit(cache[..], ptr) ==> r == if id in cache[PtrHash(ptr)].owners then Done else Refused
      ensures !Hit(cache[..], ptr) ==>
                var lo, hi := PtrToPn(ptr), PtrToPn(LastByte(ptr, size));
                && (r == OutOfBounds <==>
                      lo != FAULT_PAGE_NUMBER && id < MAX_IDS && ScanLeaves(pma.pages[..], lo, hi, id))
                && (r == Done <==>
                      && lo != FAULT_PAGE_NUMBER && id < MAX_IDS && (lo <= hi ==> hi < pma.pages.Length)
                      && forall i :: lo <= i <= hi ==> id in pma.pages[i].owners)
      ensures forall pn :: pn in live && IsPart(ptr, size, pn, live[pn]) ==>
                && r != OutOfBounds
                && (r == Done <==> forall i :: pn <= i <= pn + (size - 1) / PAGE_SIZE ==> id in pma.pages[i].owners)
    {
      ghost var s := pma.pages[..];
      forall pn | pn in live && IsPart(ptr, size, pn, live[pn])
        ensures InRun(s, PtrToPn(ptr), PtrToPn(LastByte(ptr, size)), pn, live[pn])
        ensures EntryValid(cache[..], pn, live[pn])
        ensures PtrToPn(LastByte(ptr, size)) == pn + (size - 1) / PAGE_SIZE
        ensures id in live[pn].owners <==>
                  forall i :: pn <= i <= PtrToPn(LastByte(ptr, size)) ==> id in s[i].owners
      {
        assert IsRun(s, pn, live[pn]);
        PartInRun(s, ptr, size, pn, live[pn]);
        assert s[pn].owners == live[pn].owners;
      }
      var e := cache[PtrHash(ptr)];
      if e.addr == ptr {
        return if id in e.owners then Done else Refused;
      }
      r := pma.IsAssigned(PtrToPn(ptr), PtrToPn(LastByte(ptr, size)), id);
    }
  }

  /** Where a chunk starts, as the cache or the scan has it. An entry of the cache
      always names the page at its address. */
  ghost predicate StartFound(s: seq<Page>, entries: seq<Entry>, ptr: nat, id: nat, start: nat)
    requires |entries| == CACHE_SIZE && ptr < UINT64
  {
    var pn := PtrToPn(ptr);
    if Hit(entries, ptr) then if ptr == 0 then start == FAULT_PAGE_NUMBER else start == pn < |s|
    else if pn >= |s| || s[pn] == FREE then start == FAULT_PAGE_NUMBER
    else IsStart(s, start, pn, id)
  }

  /** The start that an entry names is the one that the scan finds if and only if
      the page is taken and no chunk of the ID runs into it. */
  lemma CachedStartExact(s: seq<Page>, pn: nat, id: nat, scanned: nat)
    requires Chunked(s) && 0 < pn < |s|
    requires if s[pn] == FREE then scanned == FAULT_PAGE_NUMBER else IsStart(s, scanned, pn, id)
    ensures scanned == pn <==> s[pn] != FREE && StartsChunk(s, pn, id)
  {
  }

  /** A range from page 2 on that goes around the address space and ends on page 0:
      the scan has no page to look at. */
  lemma RangeAround()
    ensures var ptr := PnToPtr(2);
            PtrToPn(ptr) == 2 && PtrToPn(LastByte(ptr, UINT64 - PAGE_SIZE)) == 0
  {
  }

  // ---------------------------------------------------------------- a stale entry

  /** Allocates `n` pages where the lowest fitting run is known. */
  method AllocLowest(c: CachedAllocator, n: nat, id: nat, ghost at: nat) returns (ret: nat)
    requires c.Valid() && id < MAX_IDS && 0 < n && 0 < at && AllFree(c.pma.pages[..], at, n)
    requires forall i :: 0 < i < at ==> c.pma.pages[i] != FREE
    modifies c`live, c.pma.pages, c.cache
    ensures c.Valid() && ret == at && c.pma.pages[..] == Claim(old(c.pma.pages[..]), at, at + n - 1, id)
    ensures c.live == old(c.live)[at := Run(n, {id})]
    ensures c.cache[..] == old(c.cache[..])[PtrHash(PnToPtr(at)) := Entry(PnToPtr(at), at, at + n - 1, n, {id})]
  {
    ghost var s := c.pma.pages[..];
    PlaceExact(s, c.pma.maxLevel, IDENTITY_MAP, n * PAGE_SIZE, 0, id);
    assert BytesToPages(n * PAGE_SIZE) == n && n * PAGE_SIZE <= |s| * PAGE_SIZE;
    ret := c.Alloc(IDENTITY_MAP, n * PAGE_SIZE, 0, id);
    assert s[ret] == FREE;
  }

  lemma OneOwner(s: seq<Page>, pn: nat, id: Owner)
    requires Chunked(s) && IsRun(s, pn, Run(1, {id}))
    ensures s[pn] == Page({id}, {id}) && Drop(s, pn, pn, id) == s[pn := FREE]
  {
    assert IsChunk(s, pn, pn, id);
    forall d: nat | d in s[pn].lasts ensures d == id {
      assert ChunkedAt(s, pn, d);
    }
    assert s[pn].lasts == {id} && Page({id} - Bit(id), {id} - Bit(id)) == FREE;
    assert Drop(s, pn, pn, id)[pn] == FREE;
  }

  /** Frees a live allocation of one page. */
  method FreeOne(c: CachedAllocator, pn: nat, id: nat)
    requires c.Valid() && id < MAX_IDS && PnToPtr(pn) < UINT64 && pn in c.live && c.live[pn] == Run(1, {id})
    requires !c.pma.IsRestricted(pn)
    modifies c`live, c.pma.pages, c.cache
    ensures c.Valid() && c.pma.pages[..] == old(c.pma.pages[..])[pn := FREE] && c.live == old(c.live) - {pn}
    ensures c.cache[..] == SetOwners(old(c.cache[..]), PnToPtr(pn), OwnersAt(old(c.cache[..]), PnToPtr(pn)) - Bit(id))
  {
    ghost var s := c.pma.pages[..];
    OneOwner(s, pn, id);
    ghost var start;
    var ok;
    ok, start := c.Free(PnToPtr(pn), id);
    ghost var e: nat :| IsTail(s, start, e, id) && c.pma.pages[..] == Drop(s, start, e, id);
    assert e == pn;
  }

  method AllocTwo(c: CachedAllocator, id: nat)
    requires c.Valid() && id < MAX_IDS && AllFree(c.pma.pages[..], 1, 2)
    modifies c`live, c.pma.pages, c.cache
    ensures c.Valid() && 1 in c.live && 2 in c.live && c.live[1] == c.live[2] == Run(1, {id})
    ensures forall i :: 0 <= i < c.pma.pages.Length && i != 1 && i != 2 ==> c.pma.pages[i] == old(c.pma.pages[i])
    ensures Hit(c.cache[..], PnToPtr(2))
  {
    var a := AllocLowest(c, 1, id, 1);
    assert c.pma.pages[1] != FREE && AllFree(c.pma.pages[..], 2, 1);
    a := AllocLowest(c, 1, id, 2);
  }

  /** Two pages are allocated one by one and freed. Nothing is left of them but the
      entries in the cache. */
  method LeaveEntries(c: CachedAllocator, id: nat)
    requires c.Valid() && id < MAX_IDS && AllFree(c.pma.pages[..], 1, 2)
    requires !c.pma.IsRestricted(1) && !c.pma.IsRestricted(2)
    modifies c`live, c.pma.pages, c.cache
    ensures c.Valid() && c.pma.pages[..] == old(c.pma.pages[..]) && Hit(c.cache[..], PnToPtr(2))
  {
    ghost var s := c.pma.pages[..];
    AllocTwo(c, id);
    FreeOne(c, 1, id);
    FreeOne(c, 2, id);
    assert c.pma.pages[..] == s;
  }

  /** After that they are allocated together. Freeing through the address of the
      second page, whose entry is still there, leaves the first one in a chunk that
      does not end. */
  method StaleEntryBreaks(c: CachedAllocator, id: nat) returns (ok: bool)
    requires c.Valid() && id < MAX_IDS && AllFree(c.pma.pages[..], 1, 2)
    requires !c.pma.IsRestricted(1) && !c.pma.IsRestricted(2)
    modifies c`live, c.pma.pages, c.cache
    ensures ok && !Chunked(c.pma.pages[..])
  {
    LeaveEntries(c, id);
    var a := AllocLowest(c, 2, id, 1);
    ghost var s := c.pma.pages[..];
    assert s[1] == Page({id}, {}) && s[2] == Page({id}, {id});
    assert Hit(c.cache[..], PnToPtr(2));
    ok := FreeSecond(c, id);
  }

  method FreeSecond(c: CachedAllocator, id: nat) returns (ok: bool)
    requires c.Valid() && id < MAX_IDS && c.pma.pages.Length >= 3 && Hit(c.cache[..], PnToPtr(2))
    requires c.pma.pages[1] == Page({id}, {}) && c.pma.pages[2] == Page({id}, {id}) && !c.pma.IsRestricted(2)
    modifies c`live, c.pma.pages, c.cache
    ensures ok && !Chunked(c.pma.pages[..])
  {
    ghost var s, start := c.pma.pages[..], 0;
    ok, start := c.Free(PnToPtr(2), id);
    PageOfStart(2);
    ghost var e: nat :| IsTail(s, start, e, id) && c.pma.pages[..] == Drop(s, start, e, id);
    DropKeepsChunks(s, 2, e, id);
  }
}
