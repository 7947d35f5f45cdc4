/** No operation of the pool loses, invents or misaligns an entry. The
    statements are about how often an arbitrary address `x` is free. */
module PoolProofs {
  import opened Arith
  import opened PoolSpec

  lemma {:induction false} RunMembers(begin: nat, limit: nat, size: nat, x: nat)
    requires size > 0
    ensures InRun(begin, limit, size, x) ==
            One(begin <= x && x + size <= limit && Aligned(x - begin, size))
    decreases limit - begin
  {
    if begin + size <= limit {
      RunMembers(begin + size, limit, size, x);
    }
  }

  /** A run cut at an entry boundary is the two runs. */
  lemma {:induction false} RunSplit(begin: nat, mid: nat, limit: nat, size: nat, x: nat)
    requires size > 0 && begin <= mid <= limit && Aligned(mid - begin, size)
    ensures InRun(begin, limit, size, x) == InRun(begin, mid, size, x) + InRun(mid, limit, size, x)
    decreases mid - begin
  {
    if begin < mid {
      RunSplit(begin + size, mid, limit, size, x);
    }
  }

  /** Taking the first entry of a chunk. */
  lemma ChunkShrinks(c: Chunk, size: nat, x: nat)
    requires size > 0 && c.begin < c.limit && Aligned(c.begin, size) && Aligned(c.limit, size)
    ensures InRun(c.begin, c.limit, size, x) == One(x == c.begin) + InRun(c.begin + size, c.limit, size, x)
    ensures c.begin + size >= c.limit ==> InRun(c.begin + size, c.limit, size, x) == 0
    ensures Aligned(c.begin + size, size)
  {
    AlignedGap(c.begin, c.limit, size);
    AlignedSum(c.begin, size, size);
  }

  /** Removes exactly the entry it returns, which is aligned; fails only when
      nothing is left in the whole chain. */
  lemma {:induction false} AllocConserves(p: Pool, x: nat)
    requires Valid(p)
    ensures var r := Alloc(p);
            && Valid(r.pool) && r.pool.entrySize == p.entrySize
            && (r.ptr.Some? ==> 0 < r.ptr.value && Aligned(r.ptr.value, p.entrySize))
            && (r.ptr.None? ==> r.pool == p && Occurs(p, x) == 0)
            && Occurs(p, x) == Occurs(r.pool, x) + One(r.ptr == Some(x))
  {
    if p.free.Node? {
    } else if p.chunks.Node? {
      ChunkShrinks(p.chunks.head, p.entrySize, x);
    } else if p.fallback.Some? {
      AllocConserves(p.fallback.value, x);
    }
  }

  lemma FreeConserves(p: Pool, a: nat, x: nat)
    ensures Occurs(Free(p, a), x) == Occurs(p, x) + One(x == a)
    ensures Valid(p) && 0 < a && Aligned(a, p.entrySize) ==> Valid(Free(p, a))
  {
  }

  lemma RunInside(begin: nat, end: nat, b: nat, e: nat, n: nat, x: nat)
    requires n > 0 && Aligned(b, n) && Aligned(e, n)
    requires begin <= b < begin + n && e <= end < e + n
    ensures InRun(b, e, n, x) == One(Aligned(x, n) && begin <= x && x + n <= end)
    ensures b < e ==> b + n <= e
  {
    RunMembers(b, e, n, x);
    if b < e { AlignedGap(b, e, n); }
    if b <= x { AlignedSum(b, x - b, n); }
    if Aligned(x, n) && begin <= x && x + n <= end {
      AlignedSum(x, n, n);
      if x < b { AlignedGap(x, b, n); }
      if e < x + n { AlignedGap(e, x + n, n); }
    }
  }

  /** Adds exactly the aligned entries that lie wholly inside the given memory,
      and reports whether there was one. */
  lemma AddChunkConserves(p: Pool, begin: nat, size: nat, x: nat)
    requires Valid(p) && 0 < begin
    ensures var r := AddChunk(p, begin, size);
            && Valid(r.pool) && r.pool.entrySize == p.entrySize
            && Occurs(r.pool, x) == Occurs(p, x) +
                 One(Aligned(x, p.entrySize) && begin <= x && x + p.entrySize <= begin + size)
            && (!r.ok ==> r.pool == p)
            && (r.ok ==> RoundUp(begin, p.entrySize) + p.entrySize <= begin + size)
  {
    var n := p.entrySize;
    RunInside(begin, begin + size, RoundUp(begin, n), RoundDown(begin + size, n), n, x);
  }

  /** The carved run is aligned, and it is all that the chunks lose. */
  lemma {:induction false} CarveConserves(chunks: List<Chunk>, size: nat, bytes: nat, unit: nat, x: nat)
    requires size > 0 && unit > 0 && Aligned(bytes, size) && Aligned(unit, size)
    requires ValidChunks(chunks, size)
    ensures var r := Carve(chunks, size, bytes, unit);
            r.Carved? ==>
              && 0 < r.start && Aligned(r.start, unit) && ValidChunks(r.chunks, size)
              && InChunks(chunks, size, x) == InChunks(r.chunks, size, x) + InRun(r.start, r.start + bytes, size, x)
  {
    if chunks.Node? {
      var c := chunks.head;
      var start := RoundUp(c.begin, unit);
      if start + bytes <= c.limit {
        CarveOne(c, size, bytes, unit, start, x);
      } else {
        CarveConserves(chunks.tail, size, bytes, unit, x);
      }
    }
  }

  lemma CarveOne(c: Chunk, size: nat, bytes: nat, unit: nat, start: nat, x: nat)
    requires size > 0 && unit > 0 && Aligned(bytes, size) && Aligned(unit, size)
    requires 0 < c.begin < c.limit && Aligned(c.begin, size) && Aligned(c.limit, size)
    requires Aligned(start, unit) && c.begin <= start && start + bytes <= c.limit
    ensures var next := start + bytes;
            && Aligned(start, size) && Aligned(next, size)
            && (start - c.begin < size ==> start == c.begin)
            && InRun(c.begin, c.limit, size, x) ==
               InRun(c.begin, start, size, x) + InRun(start, next, size, x) + InRun(next, c.limit, size, x)
  {
    var next := start + bytes;
    AlignedTwice(start, unit, size);
    AlignedSum(start, bytes, size);
    AlignedSum(c.begin, start - c.begin, size);
    if c.begin < start { AlignedGap(c.begin, start, size); }
    RunSplit(c.begin, start, c.limit, size, x);
    RunSplit(start, next, c.limit, size, x);
  }

  /** Some chunk holds the whole of [s, e). */
  predicate InOneChunk(chunks: List<Chunk>, s: nat, e: nat) {
    chunks.Node? && ((chunks.head.begin <= s && e <= chunks.head.limit) || InOneChunk(chunks.tail, s, e))
  }

  predicate InSomeChunk(p: Pool, s: nat, e: nat) {
    InOneChunk(p.chunks, s, e) || (p.fallback.Some? && InSomeChunk(p.fallback.value, s, e))
  }

  lemma {:induction false} CarveFinds(chunks: List<Chunk>, size: nat, bytes: nat, unit: nat, s: nat)
    requires unit > 0 && Aligned(s, unit) && InOneChunk(chunks, s, s + bytes)
    ensures Carve(chunks, size, bytes, unit).Carved?
  {
    var c := chunks.head;
    var start := RoundUp(c.begin, unit);
    if c.begin <= s {
      if s < start { AlignedGap(s, start, unit); }
    }
    if !(c.begin <= s && s + bytes <= c.limit) {
      CarveFinds(chunks.tail, size, bytes, unit, s);
    }
  }

  /** A contiguous allocation is aligned and takes exactly the entries it
      returns. */
  lemma AllocContiguousConserves(p: Pool, count: nat, align: nat, x: nat)
    requires Valid(p) && align > 0
    ensures var r := AllocContiguous(p, count, align);
            && Valid(r.pool) && r.pool.entrySize == p.entrySize
            && (r.ptr.None? ==> r.pool == p)
            && (r.ptr.Some? ==>
                  && 0 < r.ptr.value && align * p.entrySize > 0 && Aligned(r.ptr.value, align * p.entrySize)
                  && Occurs(p, x) == Occurs(r.pool, x) +
                     InRun(r.ptr.value, r.ptr.value + count * p.entrySize, p.entrySize, x))
  {
    AlignedProduct(align, p.entrySize);
    AlignedProduct(count, p.entrySize);
    MulGap(0, align, p.entrySize);
    ContiguousConserves(p, count, align, count * p.entrySize, align * p.entrySize, x);
  }

  lemma {:induction false} ContiguousConserves(p: Pool, count: nat, align: nat, bytes: nat, unit: nat, x: nat)
    requires Valid(p) && align > 0 && bytes == count * p.entrySize && unit == align * p.entrySize
    requires unit > 0 && Aligned(bytes, p.entrySize) && Aligned(unit, p.entrySize)
    ensures var r := AllocContiguous(p, count, align);
            && Valid(r.pool) && r.pool.entrySize == p.entrySize
            && (r.ptr.None? ==> r.pool == p)
            && (r.ptr.Some? ==>
                  && 0 < r.ptr.value && Aligned(r.ptr.value, unit)
                  && Occurs(p, x) == Occurs(r.pool, x) + InRun(r.ptr.value, r.ptr.value + bytes, p.entrySize, x))
    decreases p
  {
    match Carve(p.chunks, p.entrySize, bytes, unit)
    case Carved(start, chunks) =>
      assert AllocContiguous(p, count, align) == Allocated(Some(start), p.(chunks := chunks));
      CarveConserves(p.chunks, p.entrySize, bytes, unit, x);
    case NotFound =>
      if p.fallback.Some? {
        ContiguousConserves(p.fallback.value, count, align, bytes, unit, x);
      }
  }

  /** A chunk of the chain holds `count` entries from the multiple `s` of `align`
      entries on. */
  predicate HasRun(p: Pool, count: nat, align: nat, s: nat)
    requires align * p.entrySize > 0
  {
    Aligned(s, align * p.entrySize) && InSomeChunk(p, s, s + count * p.entrySize)
  }

  /** It succeeds if and only if some chunk of the chain holds an aligned run. */
  lemma AllocContiguousFinds(p: Pool, count: nat, align: nat)
    requires Valid(p) && align > 0
    ensures align * p.entrySize > 0
    ensures AllocContiguous(p, count, align).ptr.Some? <==> exists s: nat :: HasRun(p, count, align, s)
  {
    MulGap(0, align, p.entrySize);
    var ptr := AllocContiguous(p, count, align).ptr;
    if ptr.Some? {
      FoundHasRun(p, count, align, ptr.value);
    }
    if s: nat :| HasRun(p, count, align, s) {
      RunFound(p, count, align, s);
    }
  }

  lemma FoundHasRun(p: Pool, count: nat, align: nat, s: nat)
    requires Valid(p) && align > 0 && align * p.entrySize > 0
    requires AllocContiguous(p, count, align).ptr == Some(s)
    ensures HasRun(p, count, align, s)
  {
    FoundInChunk(p, count, align, count * p.entrySize, align * p.entrySize);
  }

  lemma RunFound(p: Pool, count: nat, align: nat, s: nat)
    requires Valid(p) && align > 0 && align * p.entrySize > 0 && HasRun(p, count, align, s)
    ensures AllocContiguous(p, count, align).ptr.Some?
  {
    ChunkFound(p, count, align, count * p.entrySize, align * p.entrySize, s);
  }

  lemma {:induction false} ChunkFound(p: Pool, count: nat, align: nat, bytes: nat, unit: nat, s: nat)
    requires Valid(p) && align > 0 && bytes == count * p.entrySize && unit == align * p.entrySize && unit > 0
    requires Aligned(s, unit) && InSomeChunk(p, s, s + bytes)
    ensures AllocContiguous(p, count, align).ptr.Some?
    decreases p
  {
    if InOneChunk(p.chunks, s, s + bytes) {
      CarveFinds(p.chunks, p.entrySize, bytes, unit, s);
    } else {
      ChunkFound(p.fallback.value, count, align, bytes, unit, s);
    }
  }

  lemma {:induction false} CarvedInChunk(chunks: List<Chunk>, size: nat, bytes: nat, unit: nat)
    requires unit > 0
    ensures var r := Carve(chunks, size, bytes, unit);
            r.Carved? ==> Aligned(r.start, unit) && InOneChunk(chunks, r.start, r.start + bytes)
  {
    if chunks.Node? {
      CarvedInChunk(chunks.tail, size, bytes, unit);
    }
  }

  lemma {:induction false} FoundInChunk(p: Pool, count: nat, align: nat, bytes: nat, unit: nat)
    requires Valid(p) && align > 0 && bytes == count * p.entrySize && unit == align * p.entrySize && unit > 0
    requires AllocContiguous(p, count, align).ptr.Some?
    ensures var s := AllocContiguous(p, count, align).ptr.value;
            Aligned(s, unit) && InSomeChunk(p, s, s + bytes)
    decreases p
  {
    CarvedInChunk(p.chunks, p.entrySize, bytes, unit);
    if Carve(p.chunks, p.entrySize, bytes, unit).NotFound? {
      FoundInChunk(p.fallback.value, count, align, bytes, unit);
    }
  }

  lemma {:induction false} FreeAllConserves(p: Pool, free: List<nat>, x: nat)
    requires Valid(p) && ValidFree(free, p.entrySize)
    ensures Valid(FreeAll(p, free)) && Occurs(FreeAll(p, free), x) == Occurs(p, x) + InList(free, x)
    decreases free
  {
    if free.Node? {
      FreeConserves(p, free.head, x);
      FreeAllConserves(Free(p, free.head), free.tail, x);
    }
  }

  lemma {:induction false} AddChunksConserves(p: Pool, chunks: List<Chunk>, x: nat)
    requires Valid(p) && ValidChunks(chunks, p.entrySize)
    ensures Valid(AddChunks(p, chunks)) && Occurs(AddChunks(p, chunks), x) == Occurs(p, x) + InChunks(chunks,
        p.entrySize, x)
    decreases chunks
  {
    if chunks.Node? {
      var c := chunks.head;
      AddChunkConserves(p, c.begin, c.limit - c.begin, x);
      RunInside(c.begin, c.limit, c.begin, c.limit, p.entrySize, x);
      AddChunksConserves(AddChunk(p, c.begin, c.limit - c.begin).pool, chunks.tail, x);
    }
  }

  /** Finishing a pool hands everything it has to its fallback. */
  lemma FiniConserves(p: Pool, x: nat)
    requires Valid(p) && p.fallback.Some?
    ensures Valid(Fini(p)) && Occurs(Fini(p), x) == Occurs(p, x)
  {
    FreeAllConserves(p.fallback.value, p.free, x);
    AddChunksConserves(FreeAll(p.fallback.value, p.free), p.chunks, x);
  }
}
