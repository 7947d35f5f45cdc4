/** The physical page allocator as a value: for every page the IDs that own it
    and the IDs for which it ends a chunk. */
module PmaSpec {
  const MAX_IDS: nat := 8
  const HYPERVISOR_ID: nat := 0
  const FAULT_PAGE_NUMBER: nat := 0

  /** The IDs that have bits in an entry of the pages array. */
  type Owner = x: nat | x < MAX_IDS

  /** The two bits per ID of an entry of the pages array. */
  datatype Page = Page(owners: set<Owner>, lasts: set<Owner>)

  /** The bit of an ID in the 16 bits of an entry, two for each ID: an ID that is
      too large has none. */
  function Bit(id: nat): (b: set<Owner>) {
    if id < MAX_IDS then {id} else {}
  }

  const FREE := Page({}, {})

  /** A last-page bit implies ownership; an owned page that does not end its
      chunk is followed by another page of the chunk. */
  ghost predicate Chunked(s: seq<Page>) {
    forall i, id: nat :: 0 <= i < |s| ==> ChunkedAt(s, i, id)
  }

  predicate ChunkedAt(s: seq<Page>, i: nat, id: nat)
    requires i < |s|
  {
    && (id in s[i].lasts ==> id in s[i].owners)
    && (id in s[i].owners && id !in s[i].lasts ==> i + 1 < |s| && id in s[i + 1].owners)
  }

  /** Pages lo to hi are one chunk of `id`: owned, and only the last ends it. */
  ghost predicate IsChunk(s: seq<Page>, lo: nat, hi: nat, id: nat) {
    && lo <= hi < |s|
    && (forall i :: lo <= i <= hi ==> id in s[i].owners && (id in s[i].lasts <==> i == hi))
    && (lo > 0 ==> StartsChunk(s, lo, id))
  }

  /** No chunk of `id` runs on from the page before into this one. */
  predicate StartsChunk(s: seq<Page>, pn: nat, id: nat)
    requires 0 < pn <= |s|
  {
    id !in s[pn - 1].owners || id in s[pn - 1].lasts
  }

  /** The page that ends the chunk of `id` in which page `i` lies. */
  function ChunkEnd(s: seq<Page>, i: nat, id: nat): (e: nat)
    requires Chunked(s) && i < |s| && id in s[i].owners
    ensures i <= e < |s|
    ensures forall j :: i <= j <= e ==> id in s[j].owners && (id in s[j].lasts <==> j == e)
    decreases |s| - i
  {
    assert ChunkedAt(s, i, id);
    if id in s[i].lasts then i else ChunkEnd(s, i + 1, id)
  }

  predicate AllFree(s: seq<Page>, lo: nat, n: nat) {
    lo + n <= |s| && forall i :: lo <= i < lo + n ==> s[i] == FREE
  }

  // ---------------------------------------------------------------- what the operations do to the pages

  /** Pages lo to hi become one chunk that belongs to `id` alone. */
  function Claim(s: seq<Page>, lo: nat, hi: nat, id: nat): (r: seq<Page>)
    ensures |r| == |s|
  {
    var b := Bit(id);
    seq(|s|, i requires 0 <= i < |s| => if lo <= i <= hi then Page(b, if i == hi then b else {}) else s[i])
  }

  /** Pages lo to hi also belong to `id`, and page hi ends a chunk of it. */
  function Grant(s: seq<Page>, lo: nat, hi: int, id: nat): (r: seq<Page>)
    ensures |r| == |s|
  {
    var b := Bit(id);
    seq(|s|, i requires 0 <= i < |s| =>
      Page(if lo <= i <= hi then s[i].owners + b else s[i].owners, if i == hi then s[i].lasts + b else s[i].lasts))
  }

  /** Pages lo to hi no longer belong to `id`. */
  function Drop(s: seq<Page>, lo: nat, hi: nat, id: nat): (r: seq<Page>)
    ensures |r| == |s|
  {
    var b := Bit(id);
    seq(|s|, i requires 0 <= i < |s| => if lo <= i <= hi then Page(s[i].owners - b, s[i].lasts - b) else s[i])
  }

  /** The same, when the pages are cut out of chunks that may begin before. */
  function CutOut(s: seq<Page>, lo: nat, hi: nat, id: nat): (r: seq<Page>)
    ensures |r| == |s|
  {
    var t := Drop(s, lo, hi, id);
    if 0 < lo <= |s| && id in s[lo - 1].owners then
      t[lo - 1 := Page(s[lo - 1].owners, s[lo - 1].lasts + Bit(id))]
    else
      t
  }

  // ---------------------------------------------------------------- the two bits of every ID and page

  /** A claimed page has no bit of another ID; no other page changes. */
  lemma ClaimBits(s: seq<Page>, lo: nat, hi: nat, id: nat, i: nat, d: nat)
    requires i < |s|
    ensures var r := Claim(s, lo, hi, id)[i];
            && (d in r.owners <==> if lo <= i <= hi then d == id < 8 else d in s[i].owners)
            && (d in r.lasts <==> if lo <= i <= hi then d == id < 8 && i == hi else d in s[i].lasts)
  {
  }

  /** Sharing changes no bit of another ID, and adds to those of this one. */
  lemma GrantBits(s: seq<Page>, lo: nat, hi: int, id: nat, i: nat, d: nat)
    requires i < |s|
    ensures var r := Grant(s, lo, hi, id)[i];
            && (d in r.owners <==> d in s[i].owners || (d == id < 8 && lo <= i <= hi))
            && (d in r.lasts <==> d in s[i].lasts || (d == id < 8 && i == hi))
  {
  }

  /** Giving up takes both bits of this ID from the pages and changes nothing else. */
  lemma DropBits(s: seq<Page>, lo: nat, hi: nat, id: nat, i: nat, d: nat)
    requires i < |s|
    ensures var r := Drop(s, lo, hi, id)[i];
            && (d in r.owners <==> d in s[i].owners && !(d == id && lo <= i <= hi))
            && (d in r.lasts <==> d in s[i].lasts && !(d == id && lo <= i <= hi))
  {
  }

  /** Cutting out does the same, and ends the chunk that runs into the pages. */
  lemma CutOutBits(s: seq<Page>, lo: nat, hi: nat, id: nat, i: nat, d: nat)
    requires i < |s|
    ensures var r := CutOut(s, lo, hi, id)[i];
            && (d in r.owners <==> d in s[i].owners && !(d == id && lo <= i <= hi))
            && (d in r.lasts <==>
                  || (d in s[i].lasts && !(d == id && lo <= i <= hi))
                  || (d == id && i + 1 == lo && d in s[i].owners))
  {
  }

  // ---------------------------------------------------------------- chunks stay chunks

  lemma ClaimKeepsChunks(s: seq<Page>, lo: nat, hi: nat, id: nat)
    requires Chunked(s) && lo <= hi < |s| && AllFree(s, lo, hi + 1 - lo)
    ensures Chunked(Claim(s, lo, hi, id)) && (id < MAX_IDS ==> IsChunk(Claim(s, lo, hi, id), lo, hi, id))
  {
    var r := Claim(s, lo, hi, id);
    forall i, d: nat | 0 <= i < |r| ensures ChunkedAt(r, i, d) {
      assert ChunkedAt(s, i, d);
    }
    if lo > 0 {
      assert s[lo] == FREE && ChunkedAt(s, lo - 1, id);
    }
  }

  /** Free pages that are claimed are taken if and only if the ID has a bit, or
      there are none. */
  lemma ClaimTakes(s: seq<Page>, lo: nat, hi: nat, id: nat)
    requires hi < |s| && forall i :: lo <= i <= hi ==> s[i] == FREE
    ensures (forall i :: lo <= i <= hi ==> Claim(s, lo, hi, id)[i] != FREE) <==> id < MAX_IDS || lo > hi
    ensures id >= MAX_IDS ==> Claim(s, lo, hi, id) == s
  {
    var r := Claim(s, lo, hi, id);
    if id < MAX_IDS {
      assert forall i :: lo <= i <= hi ==> id in r[i].owners;
    } else if lo <= hi {
      assert r[lo] == FREE;
    }
  }

  /** The first ID without a bit reserves a page and does not get it. */
  lemma EightTakesNothing()
    ensures var s := [Page({0}, {0}), FREE];
            Claim(s, 1, 1, 8) == s && Claim(s, 1, 1, 7) == [Page({0}, {0}), Page({7}, {7})]
  {
  }

  /** Granting keeps chunks if and only if it grants at least one page, or ends a
      chunk on a page that the ID owns already. */
  lemma GrantKeepsChunks(s: seq<Page>, lo: nat, hi: int, id: nat)
    requires Chunked(s) && 0 < lo <= hi + 1 && 0 <= hi < |s| && lo < |s| && id !in s[lo].owners && id < MAX_IDS
    ensures Chunked(Grant(s, lo, hi, id)) <==> lo <= hi || id in s[hi].owners
  {
    var r := Grant(s, lo, hi, id);
    if lo <= hi || id in s[hi].owners {
      forall i, d: nat | 0 <= i < |r| ensures ChunkedAt(r, i, d) {
        assert ChunkedAt(s, i, d);
      }
    } else {
      assert !ChunkedAt(r, hi, id);
    }
  }

  /** Assigning no bytes at the start of page 2 to ID 2, which owns nothing,
      makes page 1 the end of a chunk of that ID. */
  lemma NothingGrantedBreaks()
    ensures var s := [Page({0}, {0}), Page({1}, {1}), Page({1}, {1})];
            Chunked(s) && Grant(s, 2, 1, 2)[1] == Page({1}, {1, 2}) && !Chunked(Grant(s, 2, 1, 2))
  {
    var s := [Page({0}, {0}), Page({1}, {1}), Page({1}, {1})];
    var r := Grant(s, 2, 1, 2);
    assert !ChunkedAt(r, 1, 2);
  }

  /** Pages lo to hi are the end of a chunk of `id`, or all of it. */
  ghost predicate IsTail(s: seq<Page>, lo: nat, hi: nat, id: nat) {
    lo <= hi < |s| && forall i :: lo <= i <= hi ==> id in s[i].owners && (id in s[i].lasts <==> i == hi)
  }

  /** Freeing from some page to the end of its chunk keeps chunks if and only if
      the chunk begins there. */
  lemma DropKeepsChunks(s: seq<Page>, lo: nat, hi: nat, id: nat)
    requires Chunked(s) && IsTail(s, lo, hi, id) && 0 < lo
    ensures Chunked(Drop(s, lo, hi, id)) <==> StartsChunk(s, lo, id)
  {
    var r := Drop(s, lo, hi, id);
    if StartsChunk(s, lo, id) {
      forall i, d: nat | 0 <= i < |r| ensures ChunkedAt(r, i, d) {
        assert ChunkedAt(s, i, d);
      }
    } else {
      assert !ChunkedAt(r, lo - 1, id);
    }
  }

  /** The second page of a chunk of two is freed alone. */
  lemma TailDroppedBreaks()
    ensures var s := [Page({0}, {0}), Page({1}, {}), Page({1}, {1})];
            Chunked(s) && Drop(s, 2, 2, 1) == [Page({0}, {0}), Page({1}, {}), FREE] && !Chunked(Drop(s, 2, 2, 1))
  {
    var s := [Page({0}, {0}), Page({1}, {}), Page({1}, {1})];
    var r := Drop(s, 2, 2, 1);
    assert s[2].owners - Bit(1) == {} && s[2].lasts - Bit(1) == {};
    assert r == [s[0], s[1], r[2]] && r[2] == FREE;
    assert !ChunkedAt(r, 1, 1);
  }

  lemma CutOutKeepsChunks(s: seq<Page>, lo: nat, hi: nat, id: nat)
    requires Chunked(s) && lo < |s| && hi < |s|
    ensures Chunked(CutOut(s, lo, hi, id))
  {
    var r := CutOut(s, lo, hi, id);
    forall i, d: nat | 0 <= i < |r| ensures ChunkedAt(r, i, d) {
      assert ChunkedAt(s, i, d);
    }
  }

  /** Reserving free pages and releasing them again restores everything. */
  lemma ReserveThenRelease(s: seq<Page>, lo: nat, hi: nat, id: nat)
    requires Chunked(s) && lo <= hi < |s| && AllFree(s, lo, hi + 1 - lo)
    ensures CutOut(Claim(s, lo, hi, id), lo, hi, id) == s
  {
    var r := CutOut(Claim(s, lo, hi, id), lo, hi, id);
    assert s[lo] == FREE;
    forall i | 0 <= i < |s| ensures r[i] == s[i] {
      if lo <= i <= hi {
        assert s[i] == FREE;
      } else if i == lo - 1 && id in s[i].owners {
        assert ChunkedAt(s, i, id);
        assert s[i].lasts + Bit(id) == s[i].lasts;
      }
    }
  }

  /** Claimed by one ID, granted to another, dropped by the first: the second
      owns the pages as one chunk, and nothing else has changed. */
  lemma Handover(s: seq<Page>, lo: nat, hi: nat, from: nat, to: nat)
    requires lo <= hi < |s| && from != to && from < MAX_IDS
    ensures Drop(Grant(Claim(s, lo, hi, from), lo, hi, to), lo, hi, from) == Claim(s, lo, hi, to)
  {
    var r := Drop(Grant(Claim(s, lo, hi, from), lo, hi, to), lo, hi, from);
    forall i | 0 <= i < |s| ensures r[i] == Claim(s, lo, hi, to)[i] {
    }
  }
}
