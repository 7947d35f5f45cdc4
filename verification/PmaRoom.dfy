/** When a split allocation succeeds: it is a matter of how many pages are free, not
    of where they are. */
module PmaRoom {
  import opened Arith
  import opened PmaAlign
  import opened PmaSpec
  import opened PmaSplit

  /** The number of free pages among the first `k`. */
  function FreeUpTo(s: seq<Page>, k: nat): (n: nat)
    requires k <= |s|
    ensures n <= k
  {
    if k == 0 then 0 else FreeUpTo(s, k - 1) + if s[k - 1] == FREE then 1 else 0
  }

  /** How many of the pages from `lo` on, `n` in all, are among the first `k`. */
  function Before(lo: nat, n: nat, k: nat): (c: nat) {
    if k <= lo then 0 else if k >= lo + n then n else k - lo
  }

  lemma {:induction false} ClaimUses(s: seq<Page>, lo: nat, n: nat, id: nat, k: nat)
    requires AllFree(s, lo, n) && n > 0 && id < MAX_IDS && k <= |s|
    ensures FreeUpTo(Claim(s, lo, lo + n - 1, id), k) + Before(lo, n, k) == FreeUpTo(s, k)
    decreases k
  {
    if k > 0 {
      ClaimUses(s, lo, n, id, k - 1);
      var r := Claim(s, lo, lo + n - 1, id);
      if lo <= k - 1 < lo + n {
        assert id in r[k - 1].owners && s[k - 1] == FREE;
      }
    }
  }

  /** Pieces use up as many free pages as they have. */
  lemma {:induction false} PiecesUse(s: seq<Page>, pieces: seq<Piece>, ipa: nat, k: nat, n: nat, id: nat)
    requires WereFree(s, pieces, id) && Placed(pieces, ipa, k, n, id) && id < MAX_IDS
    ensures FreeUpTo(ClaimAll(s, pieces, id), |s|) + n == FreeUpTo(s, |s|)
    decreases pieces
  {
    if pieces != [] {
      var p := pieces[0];
      ClaimUses(s, p.start, p.count, id, |s|);
      var t := Claim(s, p.start, p.start + p.count - 1, id);
      PiecesUse(t, pieces[1..], ipa, k + p.count, n - p.count, id);
    }
  }

  lemma {:induction false} SomeFree(s: seq<Page>, k: nat) returns (i: nat)
    requires k <= |s| && FreeUpTo(s, k) > 0
    ensures i < k && s[i] == FREE
  {
    if s[k - 1] == FREE {
      i := k - 1;
    } else {
      i := SomeFree(s, k - 1);
    }
  }

  /** A page or less finds a place if any page is free. */
  lemma OnePageFound(s: seq<Page>, max: nat, ipa: nat, size: nat, alignment: nat, id: nat)
    requires |s| > 0 && s[0] != FREE && 0 < size <= PAGE_SIZE && id < MAX_IDS && FreeUpTo(s, |s|) > 0
    requires alignment == 0 || alignment == AUTO_PAGE_LEVEL
    ensures Place(s, max, ipa, size, alignment, id).Some?
  {
    var t := SomeFree(s, |s|);
    SmallIsZero(Origin(ipa), size, max);
    PlaceExact(s, max, ipa, size, alignment, id);
    assert AllFree(s, t, BytesToPages(size));
  }

  lemma HalvesFit(size: nat, splits: nat)
    requires PAGE_SIZE < size <= PAGE_SIZE * Pow2(splits)
    ensures splits > 0
    ensures FirstHalf(size) <= PAGE_SIZE * Pow2(splits - 1) && size - FirstHalf(size) <= PAGE_SIZE * Pow2(splits - 1)
  {
    HalfExact(size);
    assert Pow2(splits) == 2 * Pow2(splits - 1);
  }

  /** Enough free pages are enough, wherever they are. */
  lemma {:induction false} EnoughFound(s: seq<Page>, max: nat, ipa: nat, size: nat, alignment: nat, id: nat,
                                       splits: nat)
    requires |s| > 0 && s[0] != FREE && ipa < UINT64 && id < MAX_IDS
    requires 0 < size <= PAGE_SIZE * Pow2(splits) && BytesToPages(size) <= FreeUpTo(s, |s|)
    requires alignment == 0 || alignment == AUTO_PAGE_LEVEL
    ensures SplitAlloc(s, max, ipa, size, alignment, id, splits).last.Some?
    decreases splits, 0
  {
    if Place(s, max, ipa, size, alignment, id).None? {
      if size <= PAGE_SIZE {
        OnePageFound(s, max, ipa, size, alignment, id);
      } else {
        HalvesFit(size, splits);
        HalvesFound(s, max, ipa, size, alignment, id, splits - 1);
      }
    }
  }

  lemma {:induction false} HalvesFound(s: seq<Page>, max: nat, ipa: nat, size: nat, alignment: nat, id: nat,
                                       splits: nat)
    requires |s| > 0 && s[0] != FREE && ipa < UINT64 && id < MAX_IDS
    requires PAGE_SIZE < size && BytesToPages(size) <= FreeUpTo(s, |s|)
    requires FirstHalf(size) <= PAGE_SIZE * Pow2(splits) && size - FirstHalf(size) <= PAGE_SIZE * Pow2(splits)
    requires alignment == 0 || alignment == AUTO_PAGE_LEVEL
    ensures var a := SplitAlloc(s, max, ipa, FirstHalf(size), alignment, id, splits);
            var s1, ipa1 := ClaimAll(s, a.pieces, id), Onward(ipa, FirstHalf(size));
            && a.last.Some?
            && SplitAlloc(s1, max, ipa1, size - FirstHalf(size), alignment, id, splits).last.Some?
    decreases splits, 2
  {
    HalvesAddUp(size);
    EnoughFound(s, max, ipa, FirstHalf(size), alignment, id, splits);
    SplitSound(s, max, ipa, FirstHalf(size), alignment, id, splits);
    var a := SplitAlloc(s, max, ipa, FirstHalf(size), alignment, id, splits);
    SecondFound(s, max, ipa, size, alignment, id, splits, a);
  }

  /** After the first half there is room for the second. */
  lemma {:induction false} SecondFound(s: seq<Page>, max: nat, ipa: nat, size: nat, alignment: nat, id: nat,
                                       splits: nat, a: Split)
    requires |s| > 0 && s[0] != FREE && id < MAX_IDS && PAGE_SIZE < size && BytesToPages(size) <= FreeUpTo(s, |s|)
    requires size - FirstHalf(size) <= PAGE_SIZE * Pow2(splits) && (alignment == 0 || alignment == AUTO_PAGE_LEVEL)
    requires a.last.Some? && Sound(s, a, ipa, BytesToPages(FirstHalf(size)), id)
    ensures var s1, ipa1 := ClaimAll(s, a.pieces, id), Onward(ipa, FirstHalf(size));
            SplitAlloc(s1, max, ipa1, size - FirstHalf(size), alignment, id, splits).last.Some?
    decreases splits, 1
  {
    HalvesAddUp(size);
    PiecesUse(s, a.pieces, ipa, 0, BytesToPages(FirstHalf(size)), id);
    ClaimAllKeepsUsed(s, a.pieces, id, 0);
    var s1, ipa1 := ClaimAll(s, a.pieces, id), Onward(ipa, FirstHalf(size));
    EnoughFound(s1, max, ipa1, size - FirstHalf(size), alignment, id, splits);
  }

  /** With automatic alignment or none, and splits enough to come down to single
      pages, a split allocation succeeds if and only if there are as many free pages
      as it needs, wherever they are; and it uses exactly so many. */
  lemma SplitSucceeds(s: seq<Page>, max: nat, ipa: nat, size: nat, alignment: nat, id: nat, splits: nat)
    requires |s| > 0 && s[0] != FREE && ipa < UINT64 && id < MAX_IDS && 0 < size <= PAGE_SIZE * Pow2(splits)
    requires alignment == 0 || alignment == AUTO_PAGE_LEVEL
    ensures var r := SplitAlloc(s, max, ipa, size, alignment, id, splits);
            && (r.last.Some? <==> BytesToPages(size) <= FreeUpTo(s, |s|))
            && (r.last.Some? ==> FreeUpTo(ClaimAll(s, r.pieces, id), |s|) + BytesToPages(size) == FreeUpTo(s, |s|))
  {
    var r := SplitAlloc(s, max, ipa, size, alignment, id, splits);
    SplitSound(s, max, ipa, size, alignment, id, splits);
    if r.last.Some? {
      PiecesUse(s, r.pieces, ipa, 0, BytesToPages(size), id);
    }
    if BytesToPages(size) <= FreeUpTo(s, |s|) {
      EnoughFound(s, max, ipa, size, alignment, id, splits);
    }
  }
}
