/** Allocations that are split when there is no room for the whole: which pieces
    they are made of, and at which guest pages the pieces are mapped. */
module PmaSplit {
  import opened Arith
  import opened PmaAlign
  import opened PmaSearch
  import opened PmaSpec
  import opened PoolSpec

  const START_ADDRESS: nat := 0x80000000

  /** The page frame of a page of the pages array. */
  function Frame(pn: nat): nat {
    START_ADDRESS / PAGE_SIZE + pn
  }

  /** A run of `count` pages from page `start` on, for the guest pages from
      `ipa` on. */
  datatype Piece = Piece(ipa: nat, start: nat, count: nat)

  /** The guest page that an allocation at `start` is mapped at. The hypervisor
      has every frame mapped to itself, whatever it asks for. */
  function MappedAt(ipa: nat, start: nat, id: nat): nat {
    if id == HYPERVISOR_ID || ipa == IDENTITY_MAP then Frame(start) else ipa / PAGE_SIZE
  }

  // ---------------------------------------------------------------- claiming pieces

  function ClaimAll(s: seq<Page>, pieces: seq<Piece>, id: nat): (r: seq<Page>)
    ensures |r| == |s|
    decreases pieces
  {
    if pieces == [] then s
    else
      var p := pieces[0];
      var hi := if p.count == 0 then p.start else p.start + p.count - 1;
      ClaimAll(Claim(s, p.start, hi, id), pieces[1..], id)
  }

  /** Every piece was made of free pages when it was claimed; so no two pieces
      have a page in common. */
  ghost predicate WereFree(s: seq<Page>, pieces: seq<Piece>, id: nat)
    decreases pieces
  {
    pieces != [] ==>
      var p := pieces[0];
      p.count > 0 && AllFree(s, p.start, p.count) && WereFree(Claim(s, p.start, p.start + p.count - 1, id),
          pieces[1..], id)
  }

  lemma OnePiece(s: seq<Page>, ipa: nat, start: nat, n: nat, id: nat)
    requires n > 0 && AllFree(s, start, n)
    ensures var ps := [Piece(ipa, start, n)];
            ClaimAll(s, ps, id) == Claim(s, start, start + n - 1, id) && WereFree(s, ps, id)
  {
    var ps := [Piece(ipa, start, n)];
    assert ps[1..] == [];
  }

  lemma {:induction false} ClaimAllTwice(s: seq<Page>, a: seq<Piece>, b: seq<Piece>, id: nat)
    ensures ClaimAll(s, a + b, id) == ClaimAll(ClaimAll(s, a, id), b, id)
    decreases a
  {
    if a == [] {
      assert a + b == b;
    } else {
      var p := a[0];
      var hi := if p.count == 0 then p.start else p.start + p.count - 1;
      assert (a + b)[1..] == a[1..] + b;
      ClaimAllTwice(Claim(s, p.start, hi, id), a[1..], b, id);
    }
  }

  lemma {:induction false} WereFreeTwice(s: seq<Page>, a: seq<Piece>, b: seq<Piece>, id: nat)
    requires WereFree(s, a, id) && WereFree(ClaimAll(s, a, id), b, id)
    ensures WereFree(s, a + b, id)
    decreases a
  {
    if a == [] {
      assert a + b == b;
    } else {
      var p := a[0];
      assert (a + b)[1..] == a[1..] + b;
      WereFreeTwice(Claim(s, p.start, p.start + p.count - 1, id), a[1..], b, id);
    }
  }

  /** Claiming free pages leaves the used ones alone. */
  lemma {:induction false} ClaimAllKeepsUsed(s: seq<Page>, pieces: seq<Piece>, id: nat, i: nat)
    requires WereFree(s, pieces, id) && i < |s| && s[i] != FREE
    ensures ClaimAll(s, pieces, id)[i] == s[i]
    decreases pieces
  {
    if pieces != [] {
      var p := pieces[0];
      ClaimAllKeepsUsed(Claim(s, p.start, p.start + p.count - 1, id), pieces[1..], id, i);
    }
  }

  // ---------------------------------------------------------------- splitting

  /** Half of the size in whole pages, one more if the number of pages is odd. */
  function FirstHalf(size: nat): (r: nat)
    ensures size > PAGE_SIZE ==> 0 < r < size
  {
    var half := size / 2 / PAGE_SIZE * PAGE_SIZE;
    if size / PAGE_SIZE % 2 == 1 then half + PAGE_SIZE else half
  }

  /** Half of the whole pages in the size, rounded up. */
  lemma HalfExact(size: nat)
    ensures FirstHalf(size) == (size / 4096 + 1) / 2 * 4096
  {
  }

  lemma HalvesAddUp(size: nat)
    requires size > PAGE_SIZE
    ensures FirstHalf(size) == BytesToPages(FirstHalf(size)) * PAGE_SIZE
    ensures BytesToPages(FirstHalf(size)) > 0 && BytesToPages(size - FirstHalf(size)) > 0
    ensures BytesToPages(FirstHalf(size)) + BytesToPages(size - FirstHalf(size)) == BytesToPages(size)
  {
  }

  /** The address `bytes` bytes after `ipa`. */
  function Onward(ipa: nat, bytes: nat): (a: nat)
    ensures a < UINT64
  {
    (ipa + bytes) % UINT64
  }

  /** The address that is asked for `k` pages after `ipa`. */
  function AskedAt(ipa: nat, k: nat): (a: nat)
    ensures a < UINT64
  {
    Onward(ipa, k * PAGE_SIZE)
  }

  /** The start of the piece allocated last, or nothing; and all pieces. */
  datatype Split = Split(last: Option<nat>, pieces: seq<Piece>)

  /** Both halves; when the second one fails, the pieces of the first stay. */
  function Joined(a: Split, b: Split): (r: Split) {
    if a.last.None? then a else Split(b.last, a.pieces + b.pieces)
  }

  /** What a split allocation allocates. */
  ghost function SplitAlloc(s: seq<Page>, max: nat, ipa: nat, size: nat, alignment: nat, id: nat,
                            splits: nat): (r: Split)
    decreases splits
  {
    var whole := Place(s, max, ipa, size, alignment, id);
    if whole.Some? then Split(whole, [Piece(MappedAt(ipa, whole.value, id), whole.value, BytesToPages(size))])
    else if splits == 0 || size <= PAGE_SIZE then Split(None, [])
    else
      var size1 := FirstHalf(size);
      var a := SplitAlloc(s, max, ipa, size1, alignment, id, splits - 1);
      var s1, ipa1 := ClaimAll(s, a.pieces, id), Onward(ipa, size1);
      Joined(a, SplitAlloc(s1, max, ipa1, size - size1, alignment, id, splits - 1))
  }

  /** The result `ret` and the pages `t` are those of a split allocation from the
      pages `s`. */
  ghost predicate Gives(r: Split, s: seq<Page>, t: seq<Page>, ret: nat, pieces: seq<Piece>, id: nat) {
    && pieces == r.pieces && ret == (if r.last.Some? then r.last.value else FAULT_PAGE_NUMBER)
    && t == ClaimAll(s, pieces, id) && (r.last.Some? ==> ret != FAULT_PAGE_NUMBER)
  }

  /** What the two halves of an allocation allocate. */
  ghost function HalvesAlloc(s: seq<Page>, max: nat, ipa: nat, size: nat, alignment: nat, id: nat,
                             splits: nat): (r: Split)
    requires size > PAGE_SIZE
  {
    var size1 := FirstHalf(size);
    var a := SplitAlloc(s, max, ipa, size1, alignment, id, splits);
    Joined(a, SplitAlloc(ClaimAll(s, a.pieces, id), max, Onward(ipa, size1), size - size1, alignment, id, splits))
  }

  lemma GivesFirst(a: Split, b: Split, s: seq<Page>, t: seq<Page>, id: nat)
    requires Gives(a, s, t, FAULT_PAGE_NUMBER, a.pieces, id)
    ensures Gives(Joined(a, b), s, t, FAULT_PAGE_NUMBER, a.pieces, id)
  {
  }

  lemma GivesBoth(a: Split, b: Split, s: seq<Page>, t: seq<Page>, u: seq<Page>, ret: nat, last: nat, id: nat)
    requires Gives(a, s, t, ret, a.pieces, id) && a.last.Some? && Gives(b, t, u, last, b.pieces, id)
    ensures Gives(Joined(a, b), s, u, last, a.pieces + b.pieces, id)
  {
    ClaimAllTwice(s, a.pieces, b.pieces, id);
  }

  /** The pieces are mapped one after the other at what is asked for from `k` pages
      after `ipa` on, `n` pages in all. */
  ghost predicate Placed(pieces: seq<Piece>, ipa: nat, k: nat, n: nat, id: nat)
    decreases pieces
  {
    if pieces == [] then n == 0
    else
      var p := pieces[0];
      && 0 < p.count <= n && p.ipa == MappedAt(AskedAt(ipa, k), p.start, id)
      && Placed(pieces[1..], ipa, k + p.count, n - p.count, id)
  }

  lemma {:induction false} PlacedTogether(a: seq<Piece>, b: seq<Piece>, ipa: nat, k: nat, n: nat, m: nat, id: nat)
    requires Placed(a, ipa, k, n, id) && Placed(b, ipa, k + n, m, id)
    ensures Placed(a + b, ipa, k, n + m, id)
    decreases a
  {
    if a == [] {
      assert a + b == b;
    } else {
      assert (a + b)[1..] == a[1..] + b;
      PlacedTogether(a[1..], b, ipa, k + a[0].count, n - a[0].count, m, id);
    }
  }

  lemma ModTwice(x: nat, y: nat)
    ensures (x % UINT64 + y) % UINT64 == (x + y) % UINT64
  {
    var q, r := x / UINT64, x % UINT64 + y;
    assert x + y == (q + r / UINT64) * UINT64 + r % UINT64;
    DivUnique(x + y, q + r / UINT64, r % UINT64, UINT64);
  }

  /** Counting from a later page. */
  lemma {:induction false} PlacedLater(pieces: seq<Piece>, ipa: nat, k: nat, j: nat, n: nat, id: nat)
    requires Placed(pieces, AskedAt(ipa, k), j, n, id)
    ensures Placed(pieces, ipa, k + j, n, id)
    decreases pieces
  {
    if pieces != [] {
      ModTwice(ipa + k * PAGE_SIZE, j * PAGE_SIZE);
      PlacedLater(pieces[1..], ipa, k, j + pieces[0].count, n - pieces[0].count, id);
    }
  }

  lemma HalvesTogether(a: seq<Piece>, b: seq<Piece>, ipa: nat, n: nat, m: nat, id: nat)
    requires Placed(a, ipa, 0, n, id) && Placed(b, Onward(ipa, n * PAGE_SIZE), 0, m, id)
    ensures Placed(a + b, ipa, 0, n + m, id)
  {
    PlacedLater(b, ipa, n, 0, m, id);
    PlacedTogether(a, b, ipa, 0, n, m, id);
  }

  /** The pieces consist of pages that were free. If the allocation succeeds, they
      make up the whole size, each mapped at what is asked for at its place. */
  ghost predicate Sound(s: seq<Page>, r: Split, ipa: nat, n: nat, id: nat) {
    && WereFree(s, r.pieces, id)
    && (r.last.Some? ==>
          && r.pieces != [] && r.last == Some(r.pieces[|r.pieces| - 1].start) && r.last.value > 0
          && Placed(r.pieces, ipa, 0, n, id))
  }

  lemma HalvesSound(s: seq<Page>, a: Split, b: Split, ipa: nat, size: nat, id: nat)
    requires size > PAGE_SIZE && a.last.Some? && Sound(s, a, ipa, BytesToPages(FirstHalf(size)), id)
    requires Sound(ClaimAll(s, a.pieces, id), b, Onward(ipa, FirstHalf(size)), BytesToPages(size - FirstHalf(size)), id)
    ensures Sound(s, Split(b.last, a.pieces + b.pieces), ipa, BytesToPages(size), id)
  {
    HalvesAddUp(size);
    WereFreeTwice(s, a.pieces, b.pieces, id);
    if b.last.Some? {
      HalvesTogether(a.pieces, b.pieces, ipa, BytesToPages(FirstHalf(size)), BytesToPages(size - FirstHalf(size)), id);
    }
  }

  /** Split allocations are sound; and there is only one piece if and only if there
      was room for the whole. */
  lemma {:induction false} SplitSound(s: seq<Page>, max: nat, ipa: nat, size: nat, alignment: nat, id: nat, splits: nat)
    requires |s| > 0 && s[0] != FREE && ipa < UINT64
    ensures var r := SplitAlloc(s, max, ipa, size, alignment, id, splits);
            && Sound(s, r, ipa, BytesToPages(size), id)
            && (r.last.Some? ==> (|r.pieces| == 1 <==> Place(s, max, ipa, size, alignment, id).Some?))
    decreases splits, 0
  {
    var whole := Place(s, max, ipa, size, alignment, id);
    PlaceIsFree(s, max, ipa, size, alignment, id);
    if whole.Some? {
      WholeSound(s, ipa, whole.value, BytesToPages(size), id);
    } else if splits > 0 && size > PAGE_SIZE {
      var size1 := FirstHalf(size);
      SplitSound(s, max, ipa, size1, alignment, id, splits - 1);
      var a := SplitAlloc(s, max, ipa, size1, alignment, id, splits - 1);
      if a.last.Some? {
        SecondSound(s, max, ipa, size, alignment, id, splits - 1, a);
      }
    }
  }

  lemma {:induction false} SecondSound(s: seq<Page>, max: nat, ipa: nat, size: nat, alignment: nat, id: nat,
                                       splits: nat, a: Split)
    requires |s| > 0 && s[0] != FREE && size > PAGE_SIZE
    requires a.last.Some? && Sound(s, a, ipa, BytesToPages(FirstHalf(size)), id)
    ensures var s1, ipa1 := ClaimAll(s, a.pieces, id), Onward(ipa, FirstHalf(size));
            var b := SplitAlloc(s1, max, ipa1, size - FirstHalf(size), alignment, id, splits);
            && Sound(s, Split(b.last, a.pieces + b.pieces), ipa, BytesToPages(size), id)
            && (b.last.Some? ==> b.pieces != [])
    decreases splits, 1
  {
    var s1, ipa1 := ClaimAll(s, a.pieces, id), Onward(ipa, FirstHalf(size));
    ClaimAllKeepsUsed(s, a.pieces, id, 0);
    SplitSound(s1, max, ipa1, size - FirstHalf(size), alignment, id, splits);
    var b := SplitAlloc(s1, max, ipa1, size - FirstHalf(size), alignment, id, splits);
    HalvesSound(s, a, b, ipa, size, id);
  }

  lemma WholeSound(s: seq<Page>, ipa: nat, start: nat, n: nat, id: nat)
    requires n > 0 && AllFree(s, start, n) && start > 0 && ipa < UINT64
    ensures Sound(s, Split(Some(start), [Piece(MappedAt(ipa, start, id), start, n)]), ipa, n, id)
  {
    OnePiece(s, MappedAt(ipa, start, id), start, n, id);
    DivUnique(ipa, 0, ipa, UINT64);
  }

  // ---------------------------------------------------------------- what the guest sees

  /** The pieces cover the guest pages [ipa, ipa + n) one after the other. */
  ghost predicate Tiles(pieces: seq<Piece>, ipa: nat, n: nat) {
    if pieces == [] then n == 0
    else pieces[0].ipa == ipa && pieces[0].count <= n && Tiles(pieces[1..], ipa + pieces[0].count, n - pieces[0].count)
  }

  /** A piece that is asked for at the number for the identity lies elsewhere. */
  ghost predicate Astray(pieces: seq<Piece>, ipa: nat, k: nat)
    decreases pieces
  {
    pieces != [] &&
    (|| (AskedAt(ipa, k) == IDENTITY_MAP && Frame(pieces[0].start) != IDENTITY_MAP / PAGE_SIZE)
     || Astray(pieces[1..], ipa, k + pieces[0].count))
  }

  /** The pieces of a VM cover the range that was asked for if and only if none of
      them goes astray because its address happens to be that number. */
  lemma {:induction false} TilesExact(pieces: seq<Piece>, ipa: nat, k: nat, n: nat, id: nat)
    requires Placed(pieces, ipa, k, n, id) && id != HYPERVISOR_ID && ipa + (k + n) * PAGE_SIZE <= UINT64 + PAGE_SIZE - 1
    ensures Tiles(pieces, ipa / PAGE_SIZE + k, n) <==> !Astray(pieces, ipa, k)
    decreases pieces
  {
    if pieces != [] {
      DivUnique(ipa + k * PAGE_SIZE, 0, ipa + k * PAGE_SIZE, UINT64);
      assert AskedAt(ipa, k) / PAGE_SIZE == ipa / PAGE_SIZE + k;
      TilesExact(pieces[1..], ipa, k + pieces[0].count, n - pieces[0].count, id);
    }
  }

  /** No page boundary of the range, counted from its start, is the number that
      asks for the identity; in particular not if it starts at a page boundary. */
  predicate NeverIdentity(ipa: nat, size: nat) {
    ipa > IDENTITY_MAP || ipa + size <= IDENTITY_MAP || ipa % PAGE_SIZE != IDENTITY_MAP % PAGE_SIZE
  }

  lemma {:induction false} NeverAstray(pieces: seq<Piece>, ipa: nat, size: nat, k: nat, n: nat, id: nat)
    requires Placed(pieces, ipa, k, n, id) && k + n == BytesToPages(size)
    requires NeverIdentity(ipa, size) && ipa + size <= UINT64
    ensures !Astray(pieces, ipa, k)
    decreases pieces
  {
    if pieces != [] {
      DivUnique(ipa + k * PAGE_SIZE, 0, ipa + k * PAGE_SIZE, UINT64);
      NeverAstray(pieces[1..], ipa, size, k + pieces[0].count, n - pieces[0].count, id);
    }
  }

  /** What a successful split allocation for a VM means for the guest. */
  lemma SplitMeans(s: seq<Page>, max: nat, ipa: nat, size: nat, alignment: nat, id: nat, splits: nat)
    requires |s| > 0 && s[0] != FREE && ipa < UINT64 && ipa + size <= UINT64 && id != HYPERVISOR_ID
    requires SplitAlloc(s, max, ipa, size, alignment, id, splits).last.Some?
    ensures var ps, n := SplitAlloc(s, max, ipa, size, alignment, id, splits).pieces, BytesToPages(size);
            && (Tiles(ps, ipa / PAGE_SIZE, n) <==> !Astray(ps, ipa, 0))
            && (NeverIdentity(ipa, size) ==> Tiles(ps, ipa / PAGE_SIZE, n))
  {
    SplitSound(s, max, ipa, size, alignment, id, splits);
    var ps, n := SplitAlloc(s, max, ipa, size, alignment, id, splits).pieces, BytesToPages(size);
    TilesExact(ps, ipa, 0, n, id);
    if NeverIdentity(ipa, size) {
      NeverAstray(ps, ipa, size, 0, n, id);
    }
  }

  /** A VM that asks for the identity gets it, as one piece, if and only if there
      is room for the whole. Otherwise the first piece is mapped to itself, and all
      others to the pages that follow the number. */
  lemma SplitIdentity(s: seq<Page>, max: nat, size: nat, alignment: nat, id: nat, splits: nat)
    requires |s| > 0 && s[0] != FREE && IDENTITY_MAP + size <= UINT64 && id != HYPERVISOR_ID
    requires SplitAlloc(s, max, IDENTITY_MAP, size, alignment, id, splits).last.Some?
    ensures var r, n := SplitAlloc(s, max, IDENTITY_MAP, size, alignment, id, splits), BytesToPages(size);
            && (Place(s, max, IDENTITY_MAP, size, alignment, id).Some? <==>
                  r.pieces == [Piece(Frame(r.last.value), r.last.value, n)])
            && (Place(s, max, IDENTITY_MAP, size, alignment, id).None? ==> Strays(r.pieces, n))
  {
    SplitSound(s, max, IDENTITY_MAP, size, alignment, id, splits);
    var ps := SplitAlloc(s, max, IDENTITY_MAP, size, alignment, id, splits).pieces;
    var n, p := BytesToPages(size), ps[0];
    assert AskedAt(IDENTITY_MAP, 0) == IDENTITY_MAP;
    if |ps| == 1 {
      assert ps == [p];
    } else {
      TilesExact(ps[1..], IDENTITY_MAP, p.count, n - p.count, id);
      NotAgain(ps[1..], p.count, n - p.count, id);
    }
  }

  ghost predicate Strays(pieces: seq<Piece>, n: nat) {
    && |pieces| > 1 && pieces[0].ipa == Frame(pieces[0].start) && pieces[0].count <= n
    && Tiles(pieces[1..], IDENTITY_MAP / PAGE_SIZE + pieces[0].count, n - pieces[0].count)
  }

  lemma {:induction false} NotAgain(pieces: seq<Piece>, k: nat, n: nat, id: nat)
    requires Placed(pieces, IDENTITY_MAP, k, n, id) && k > 0
    requires IDENTITY_MAP + (k + n) * PAGE_SIZE <= UINT64 + PAGE_SIZE - 1
    ensures !Astray(pieces, IDENTITY_MAP, k)
    decreases pieces
  {
    if pieces != [] {
      var at := IDENTITY_MAP + k * PAGE_SIZE;
      DivUnique(at, 0, at, UINT64);
      NotAgain(pieces[1..], k + pieces[0].count, n - pieces[0].count, id);
    }
  }

  /** All pieces of the hypervisor are mapped to themselves. */
  lemma {:induction false} HypervisorToItself(pieces: seq<Piece>, ipa: nat, k: nat, n: nat)
    requires Placed(pieces, ipa, k, n, 0)
    ensures forall i :: 0 <= i < |pieces| ==> pieces[i].ipa * 4096 == 0x8000_0000 + pieces[i].start * 4096
    decreases pieces
  {
    if pieces != [] {
      HypervisorToItself(pieces[1..], ipa, k + pieces[0].count, n - pieces[0].count);
      assert forall i :: 0 < i < |pieces| ==> pieces[i] == pieces[1..][i - 1];
    }
  }

  // ---------------------------------------------------------------- inputs that fail

  /** Two pages, with only single pages free, for a VM that asks for the identity;
      then for one whose second page is at the number that asks for it. */
  lemma SecondHalfStrays(max: nat)
    ensures var s := [Page({0}, {0}), FREE, Page({0}, {0}), FREE];
            var two := 2 * PAGE_SIZE;
            && SplitAlloc(s, max, IDENTITY_MAP, two, AUTO_PAGE_LEVEL, 1, 1) ==
               Split(Some(3), [Piece(Frame(1), 1, 1), Piece(0xDEADE, 3, 1)])
            && SplitAlloc(s, max, IDENTITY_MAP - PAGE_SIZE, two, AUTO_PAGE_LEVEL, 1, 1) ==
               Split(Some(3), [Piece(0xDEADC, 1, 1), Piece(Frame(3), 3, 1)])
  {
    SplitInTwo(max, IDENTITY_MAP);
    SplitInTwo(max, IDENTITY_MAP - PAGE_SIZE);
  }

  lemma SplitInTwo(max: nat, ipa: nat)
    requires ipa + PAGE_SIZE < UINT64
    ensures var s := [Page({0}, {0}), FREE, Page({0}, {0}), FREE];
            SplitAlloc(s, max, ipa, 2 * PAGE_SIZE, AUTO_PAGE_LEVEL, 1, 1) ==
            Split(Some(3), [Piece(MappedAt(ipa, 1, 1), 1, 1), Piece(MappedAt(ipa + PAGE_SIZE, 3, 1), 3, 1)])
  {
    var s := [Page({0}, {0}), FREE, Page({0}, {0}), FREE];
    var ipa1 := ipa + PAGE_SIZE;
    DivUnique(ipa1, 0, ipa1, UINT64);
    SmallIsZero(Origin(ipa), 2 * PAGE_SIZE, max);
    SmallIsZero(Origin(ipa), PAGE_SIZE, max);
    SmallIsZero(Origin(ipa1), PAGE_SIZE, max);
    assert Chosen(s, 4, 2, 1, 0).None?;
    assert Chosen(s, 3, 2, 1, 0).None?;
    assert Chosen(s, 1, 2, 1, 0).None?;
    assert Place(s, max, ipa, 2 * PAGE_SIZE, AUTO_PAGE_LEVEL, 1).None?;
    assert Chosen(s, 1, 1, 1, 0) == Some(1);
    assert Place(s, max, ipa, PAGE_SIZE, AUTO_PAGE_LEVEL, 1) == Some(1);
    var ps := [Piece(MappedAt(ipa, 1, 1), 1, 1)];
    assert SplitAlloc(s, max, ipa, PAGE_SIZE, AUTO_PAGE_LEVEL, 1, 0) == Split(Some(1), ps);
    OnePiece(s, MappedAt(ipa, 1, 1), 1, 1, 1);
    var s1 := ClaimAll(s, ps, 1);
    assert s1[1] == Page({1}, {1}) && s1[2] == s[2] && s1[3] == FREE;
    assert Chosen(s1, 3, 1, 1, 0) == Some(3);
    assert Chosen(s1, 2, 1, 1, 0) == Some(3);
    assert Chosen(s1, 1, 1, 1, 0) == Some(3);
    assert Place(s1, max, ipa1, PAGE_SIZE, AUTO_PAGE_LEVEL, 1) == Some(3);
    assert FirstHalf(2 * PAGE_SIZE) == PAGE_SIZE;
  }
}
