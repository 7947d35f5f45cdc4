/** The memory pool as a value: a list of single free entries, a list of
    contiguous chunks of entries, and the pool it falls back to. Addresses are
    byte addresses. */
module PoolSpec {
  import opened Arith

  datatype Option<+T> = None | Some(value: T)
  datatype List<+T> = Empty | Node(head: T, tail: List<T>)

  /** A run of free entries [begin, limit). */
  datatype Chunk = Chunk(begin: nat, limit: nat)

  datatype Pool = Pool(entrySize: nat, chunks: List<Chunk>, free: List<nat>, fallback: Option<Pool>)

  datatype Allocated = Allocated(ptr: Option<nat>, pool: Pool)

  // ---------------------------------------------------------------- operations

  /** Takes a single entry, or else the first entry of the first chunk. */
  function AllocOwn(p: Pool): Allocated {
    if p.free.Node? then
      Allocated(Some(p.free.head), p.(free := p.free.tail))
    else if p.chunks.Node? then
      var Chunk(begin, limit) := p.chunks.head;
      var next := begin + p.entrySize;
      var rest := if next >= limit then p.chunks.tail else Node(Chunk(next, limit), p.chunks.tail);
      Allocated(Some(begin), p.(chunks := rest))
    else
      Allocated(None, p)
  }

  function Alloc(p: Pool): Allocated {
    var own := AllocOwn(p);
    if own.ptr.Some? then own
    else
      match p.fallback
      case None => Allocated(None, p)
      case Some(f) =>
        var r := Alloc(f);
        Allocated(r.ptr, p.(fallback := Some(r.pool)))
  }

  function Free(p: Pool, addr: nat): Pool {
    p.(free := Node(addr, p.free))
  }

  datatype Added = Added(ok: bool, pool: Pool)

  /** Adds the part of [begin, begin + size) that is made of aligned entries. */
  function AddChunk(p: Pool, begin: nat, size: nat): Added
    requires p.entrySize > 0
  {
    var newBegin := RoundUp(begin, p.entrySize);
    var newEnd := RoundDown(begin + size, p.entrySize);
    if newBegin >= newEnd || newEnd - newBegin < p.entrySize then Added(false, p)
    else Added(true, p.(chunks := Node(Chunk(newBegin, newEnd), p.chunks)))
  }

  datatype Carved = NotFound | Carved(start: nat, chunks: List<Chunk>)

  /** The first chunk that holds `bytes` bytes from a multiple of `unit` on gives
      them up; what lies before and after them stays in the list. */
  function Carve(chunks: List<Chunk>, size: nat, bytes: nat, unit: nat): Carved
    requires unit > 0
  {
    match chunks
    case Empty => NotFound
    case Node(c, t) =>
      var start := RoundUp(c.begin, unit);
      var next := start + bytes;
      if next <= c.limit then
        var rest := if next == c.limit then t else Node(Chunk(next, c.limit), t);
        Carved(start, if start - c.begin >= size then Node(Chunk(c.begin, start), rest) else rest)
      else
        match Carve(t, size, bytes, unit)
        case NotFound => NotFound
        case Carved(s, t') => Carved(s, Node(c, t'))
  }

  function AllocContiguous(p: Pool, count: nat, align: nat): Allocated
    requires Valid(p) && align > 0
  {
    match Carve(p.chunks, p.entrySize, count * p.entrySize, align * p.entrySize)
    case Carved(start, chunks) => Allocated(Some(start), p.(chunks := chunks))
    case NotFound =>
      match p.fallback
      case None => Allocated(None, p)
      case Some(f) =>
        var r := AllocContiguous(f, count, align);
        Allocated(r.ptr, p.(fallback := Some(r.pool)))
  }

  function FreeAll(p: Pool, free: List<nat>): (r: Pool)
    ensures r.entrySize == p.entrySize
    decreases free
  {
    match free
    case Empty => p
    case Node(a, t) => FreeAll(Free(p, a), t)
  }

  function AddChunks(p: Pool, chunks: List<Chunk>): Pool
    requires p.entrySize > 0
    decreases chunks
  {
    match chunks
    case Empty => p
    case Node(c, t) =>
      var size := if c.begin <= c.limit then c.limit - c.begin else 0;
      AddChunks(AddChunk(p, c.begin, size).pool, t)
  }

  /** The fallback after it has been given everything that is left in `p`. */
  function Fini(p: Pool): Pool
    requires Valid(p) && p.fallback.Some?
  {
    AddChunks(FreeAll(p.fallback.value, p.free), p.chunks)
  }

  // ---------------------------------------------------------------- what the pool holds

  function One(b: bool): nat {
    if b then 1 else 0
  }

  /** How often `x` is an entry of the run [begin, limit). */
  function InRun(begin: nat, limit: nat, size: nat, x: nat): nat
    decreases limit - begin
  {
    if size > 0 && begin + size <= limit then One(x == begin) + InRun(begin + size, limit, size, x) else 0
  }

  function InChunks(chunks: List<Chunk>, size: nat, x: nat): nat {
    match chunks
    case Empty => 0
    case Node(c, t) => InRun(c.begin, c.limit, size, x) + InChunks(t, size, x)
  }

  function InList(l: List<nat>, x: nat): nat {
    match l
    case Empty => 0
    case Node(a, t) => One(x == a) + InList(t, x)
  }

  /** How often `x` is free in the pool or in a pool it falls back to. The pool
      as a collection of entries is this count for every `x`. */
  function Occurs(p: Pool, x: nat): nat {
    InList(p.free, x) + InChunks(p.chunks, p.entrySize, x) +
    match p.fallback
    case None => 0
    case Some(f) => Occurs(f, x)
  }

  predicate ValidChunks(chunks: List<Chunk>, size: nat)
    requires size > 0
  {
    match chunks
    case Empty => true
    case Node(c, t) =>
      && 0 < c.begin < c.limit && Aligned(c.begin, size) && Aligned(c.limit, size)
      && ValidChunks(t, size)
  }

  predicate ValidFree(l: List<nat>, size: nat)
    requires size > 0
  {
    match l
    case Empty => true
    case Node(a, t) => 0 < a && Aligned(a, size) && ValidFree(t, size)
  }

  /** Everything in the pool is aligned to the entry size, down the chain. */
  predicate Valid(p: Pool) {
    && p.entrySize > 0
    && ValidChunks(p.chunks, p.entrySize)
    && ValidFree(p.free, p.entrySize)
    && (p.fallback.Some? ==> p.fallback.value.entrySize == p.entrySize && Valid(p.fallback.value))
  }
}
