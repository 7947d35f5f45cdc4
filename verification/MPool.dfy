/** The memory pool at work: both free lists are threaded through the free
    memory itself, the first words of a free entry or chunk being a node of the
    list. `View` is the pool as a value, and every method does to it what the
    function of the same name in `PoolSpec` does. */
module MPool {
  import opened Arith
  import P = PoolSpec
  import opened PoolProofs

  /** What lies at the start of a free entry or of a free chunk; a null pointer
      is 0. */
  datatype Node = EntryNode(next: nat) | ChunkNode(nextChunk: nat, limit: nat)
  type Nodes = map<nat, Node>

  ghost predicate EntriesAt(m: Nodes, head: nat, l: P.List<nat>)
    decreases l
  {
    match l
    case Empty => head == 0
    case Node(a, t) => head == a && a > 0 && a in m && m[a].EntryNode? && EntriesAt(m, m[a].next, t)
  }

  ghost predicate ChunksAt(m: Nodes, head: nat, l: P.List<P.Chunk>)
    decreases l
  {
    match l
    case Empty => head == 0
    case Node(c, t) =>
      && head == c.begin && c.begin > 0 && c.begin in m
      && m[c.begin].ChunkNode? && m[c.begin].limit == c.limit && ChunksAt(m, m[c.begin].nextChunk, t)
  }

  /** A chunk starts at `x`. */
  ghost predicate StartsChunk(l: P.List<P.Chunk>, x: nat) {
    l.Node? && (l.head.begin == x || StartsChunk(l.tail, x))
  }

  // ---------------------------------------------------------------- framing

  lemma {:induction false} EntriesFrame(m: Nodes, m': Nodes, head: nat, l: P.List<nat>)
    requires EntriesAt(m, head, l)
    requires forall x :: P.InList(l, x) > 0 && x in m ==> x in m' && m'[x] == m[x]
    ensures EntriesAt(m', head, l)
    decreases l
  {
    if l.Node? {
      assert P.InList(l, l.head) > 0;
      forall x | P.InList(l.tail, x) > 0 && x in m ensures x in m' && m'[x] == m[x] {
        assert P.InList(l, x) > 0;
      }
      EntriesFrame(m, m', m[l.head].next, l.tail);
    }
  }

  lemma {:induction false} ChunksFrame(m: Nodes, m': Nodes, head: nat, l: P.List<P.Chunk>)
    requires ChunksAt(m, head, l)
    requires forall x :: StartsChunk(l, x) && x in m ==> x in m' && m'[x] == m[x]
    ensures ChunksAt(m', head, l)
    decreases l
  {
    if l.Node? {
      assert StartsChunk(l, l.head.begin);
      forall x | StartsChunk(l.tail, x) && x in m ensures x in m' && m'[x] == m[x] {
        assert StartsChunk(l, x);
      }
      ChunksFrame(m, m', m[l.head.begin].nextChunk, l.tail);
    }
  }

  lemma {:induction false} ChunkStartIsFree(l: P.List<P.Chunk>, size: nat, x: nat)
    requires size > 0 && P.ValidChunks(l, size) && StartsChunk(l, x)
    ensures P.InChunks(l, size, x) > 0
    decreases l
  {
    if l.head.begin == x {
      AlignedGap(l.head.begin, l.head.limit, size);
    } else {
      ChunkStartIsFree(l.tail, size, x);
    }
  }

  /** Both lists, in memory; no entry is in them twice. */
  ghost predicate ListsAt(m: Nodes, chunkList: nat, entryList: nat, size: nat, chunks: P.List<P.Chunk>,
                          free: P.List<nat>) {
    && size > 0 && P.ValidChunks(chunks, size) && P.ValidFree(free, size)
    && EntriesAt(m, entryList, free) && ChunksAt(m, chunkList, chunks)
    && forall x :: P.InList(free, x) + P.InChunks(chunks, size, x) <= 1
  }

  /** Writing a node at an address that is not free. */
  lemma WriteOutside(m: Nodes, chunkList: nat, entryList: nat, size: nat, chunks: P.List<P.Chunk>, free: P.List<nat>,
                     a: nat, node: Node)
    requires ListsAt(m, chunkList, entryList, size, chunks, free)
    requires P.InList(free, a) + P.InChunks(chunks, size, a) == 0
    ensures EntriesAt(m[a := node], entryList, free) && ChunksAt(m[a := node], chunkList, chunks)
  {
    EntriesFrame(m, m[a := node], entryList, free);
    forall x | StartsChunk(chunks, x) ensures x != a {
      ChunkStartIsFree(chunks, size, x);
    }
    ChunksFrame(m, m[a := node], chunkList, chunks);
  }

  class MPool {
    var node: Nodes
    var chunkList: nat
    var entryList: nat
    var fallback: MPool?
    const entrySize: nat
    ghost var chunks: P.List<P.Chunk>
    ghost var free: P.List<nat>
    ghost var Repr: set<MPool>

    ghost predicate Valid()
      reads this, Repr
      decreases Repr
    {
      && this in Repr
      && ListsAt(node, chunkList, entryList, entrySize, chunks, free)
      && (fallback != null ==>
            && fallback in Repr && fallback.Repr < Repr && this !in fallback.Repr
            && fallback.entrySize == entrySize && fallback.Valid())
    }

    ghost function View(): (p: P.Pool)
      requires Valid()
      reads this, Repr
      decreases Repr
    {
      P.Pool(entrySize, chunks, free, if fallback == null then P.None else P.Some(fallback.View()))
    }

    constructor (size: nat)
      requires size > 0
      ensures Valid() && fresh(Repr) && entrySize == size
      ensures View() == P.Pool(size, P.Empty, P.Empty, P.None)
    {
      node := map[];
      entrySize, chunkList, entryList, fallback := size, 0, 0, null;
      chunks, free := P.Empty, P.Empty;
      Repr := {this};
    }

    constructor WithFallback(fallback: MPool)
      requires fallback.Valid()
      ensures Valid() && fresh(Repr - fallback.Repr) && this.fallback == fallback && entrySize == fallback.entrySize
      ensures View() == P.Pool(entrySize, P.Empty, P.Empty, P.Some(fallback.View()))
    {
      node := map[];
      entrySize, chunkList, entryList := fallback.entrySize, 0, 0;
      this.fallback := fallback;
      chunks, free := P.Empty, P.Empty;
      Repr := {this} + fallback.Repr;
    }

    /** Takes over everything another pool has, its fallback included. */
    constructor From(from: MPool)
      requires from.Valid()
      modifies from
      ensures Valid() && View() == old(from.View()) && fresh(Repr - old(from.Repr))
      ensures from.Valid() && from.View() == P.Pool(from.entrySize, P.Empty, P.Empty, P.None)
    {
      node, entrySize := from.node, from.entrySize;
      chunkList, entryList, fallback := from.chunkList, from.entryList, from.fallback;
      chunks, free := from.chunks, from.free;
      Repr := {this} + (from.Repr - {from});
      new;
      from.chunkList, from.entryList, from.fallback := 0, 0, null;
      from.chunks, from.free, from.Repr := P.Empty, P.Empty, {from};
    }

    /** Puts an entry in front of the list of free entries. */
    method Free(ptr: nat)
      requires Valid() && 0 < ptr && Aligned(ptr, entrySize)
      requires P.InList(free, ptr) + P.InChunks(chunks, entrySize, ptr) == 0
      modifies this`node, this`entryList, this`free
      ensures Valid() && View() == P.Free(old(View()), ptr)
    {
      WriteOutside(node, chunkList, entryList, entrySize, chunks, free, ptr, EntryNode(entryList));
      node := node[ptr := EntryNode(entryList)];
      entryList := ptr;
      free := P.Node(ptr, free);
    }

    method AddChunk(begin: nat, size: nat) returns (ok: bool)
      requires Valid() && 0 < begin
      requires forall x: nat :: Aligned(x, entrySize) && begin <= x && x + entrySize <= begin + size ==>
                 P.InList(free, x) + P.InChunks(chunks, entrySize, x) == 0
      modifies this`node, this`chunkList, this`chunks
      ensures Valid() && P.AddChunk(old(View()), begin, size) == P.Added(ok, View())
    {
      var newBegin := RoundedUp(begin, entrySize);
      var newEnd := RoundedDown(begin + size, entrySize);
      if newBegin >= newEnd || newEnd - newBegin < entrySize {
        return false;
      }
      WriteOutside(node, chunkList, entryList, entrySize, chunks, free, newBegin, ChunkNode(chunkList, newEnd));
      AddedOnce(begin, size, newBegin, newEnd, chunks, free, entrySize);
      SetChunks(node[newBegin := ChunkNode(chunkList, newEnd)], newBegin, P.Node(P.Chunk(newBegin, newEnd), chunks));
      ok := true;
    }

    /** Rewrites the nodes and the head of the chunk list. */
    method SetChunks(nodes: Nodes, head: nat, ghost list: P.List<P.Chunk>)
      requires Valid() && ListsAt(nodes, head, entryList, entrySize, list, free)
      modifies this`node, this`chunkList, this`chunks
      ensures Valid() && node == nodes && chunkList == head && chunks == list && View() == old(View()).(chunks := list)
    {
      node, chunkList, chunks := nodes, head, list;
    }

    /** One entry from this pool alone; 0 when it has none. */
    method AllocNoFallback() returns (ret: nat)
      requires Valid()
      modifies this`node, this`chunkList, this`entryList, this`chunks, this`free
      ensures Valid()
      ensures var a := P.AllocOwn(old(View()));
              View() == a.pool && (ret == 0 <==> a.ptr.None?) && (ret != 0 ==> a.ptr == P.Some(ret))
    {
      if entryList != 0 {
        ret := TakeEntry();
        return;
      }
      ret := chunkList;
      if ret != 0 {
        ShortenChunk();
      }
    }

    /** Unlinks the first free entry. */
    method TakeEntry() returns (ret: nat)
      requires Valid() && entryList != 0
      modifies this`entryList, this`free
      ensures Valid() && old(free).Node? && ret == old(free).head == old(entryList)
      ensures View() == old(View()).(free := old(free).tail)
    {
      ret := entryList;
      entryList := node[ret].next;
      forall x ensures P.InList(free.tail, x) <= P.InList(free, x) {
      }
      free := free.tail;
    }

    /** Takes the first entry off the first chunk. */
    method ShortenChunk()
      requires Valid() && entryList == 0 && chunkList != 0
      modifies this`node, this`chunkList, this`chunks
      ensures Valid() && old(View()).free.Empty?
      ensures P.AllocOwn(old(View())) == P.Allocated(P.Some(old(chunkList)), View())
    {
      ghost var c, t := chunks.head, chunks.tail;
      TakeFirst(c, t, free, entrySize);
      var newChunk := chunkList + entrySize;
      if newChunk >= node[chunkList].limit {
        SetChunks(node, node[chunkList].nextChunk, t);
      } else {
        WriteOutside(node, node[chunkList].nextChunk, entryList, entrySize, t, free, newChunk, node[chunkList]);
        SetChunks(node[newChunk := node[chunkList]], newChunk, P.Node(P.Chunk(newChunk, c.limit), t));
      }
    }

    /** One entry from the first pool of the chain that has one. */
    method Alloc() returns (ret: nat)
      requires Valid()
      modifies Repr
      ensures Valid() && Repr == old(Repr) && fallback == old(fallback)
      ensures var a := P.Alloc(old(View()));
              View() == a.pool && (ret == 0 <==> a.ptr.None?) && (ret != 0 ==> a.ptr == P.Some(ret))
      decreases Repr
    {
      ret := AllocNoFallback();
      if ret == 0 && fallback != null {
        ret := fallback.Alloc();
      }
    }

    /** A run of entries from a chunk of this pool alone; 0 when there is none. */
    method AllocContiguousNoFallback(count: nat, align: nat) returns (ret: nat)
      requires Valid() && align > 0
      modifies this`node, this`chunkList, this`chunks
      ensures Valid() && align * entrySize > 0
      ensures match P.Carve(old(chunks), entrySize, count * entrySize, align * entrySize)
              case NotFound => ret == 0 && chunks == old(chunks)
              case Carved(start, rest) => ret == start && ret != 0 && chunks == rest
    {
      MulGap(0, align, entrySize);
      AlignedProduct(align, entrySize);
      AlignedProduct(count, entrySize);
      ret := CarveChunk(count * entrySize, align * entrySize);
    }

    /** Goes through the chunk list in search of one with enough room. */
    method CarveChunk(bytes: nat, unit: nat) returns (ret: nat)
      requires Valid() && unit > 0 && Aligned(bytes, entrySize) && Aligned(unit, entrySize)
      modifies this`node, this`chunkList, this`chunks
      ensures Valid()
      ensures match P.Carve(old(chunks), entrySize, bytes, unit)
              case NotFound => ret == 0 && chunks == old(chunks)
              case Carved(start, rest) => ret == start && ret != 0 && chunks == rest
    {
      var prev: nat, chunk: nat := 0, chunkList;
      ghost var front, rest := P.Empty, chunks;
      while chunk != 0
        invariant node == old(node) && chunkList == old(chunkList) && chunks == old(chunks)
        invariant ChunksAt(node, chunk, rest) && chunks == Append(front, rest) && LastStart(front) == prev
        invariant P.Carve(chunks, entrySize, bytes, unit) == InFront(front, P.Carve(rest, entrySize, bytes, unit))
        decreases rest
      {
        var start := RoundedUp(chunk, unit);
        if start + bytes <= node[chunk].limit {
          CarveFrom(prev, chunk, start, start + bytes, unit, front, rest);
          return start;
        }
        AppendNext(front, rest);
        InFrontNext(front, rest.head, P.Carve(rest.tail, entrySize, bytes, unit));
        prev, chunk := chunk, node[chunk].nextChunk;
        front, rest := Append(front, P.Node(rest.head, P.Empty)), rest.tail;
      }
      ret := 0;
    }

    /** Takes [start, newChunk) out of a chunk; `prev` is the chunk before it in
        the list, or 0. */
    method CarveFrom(prev: nat, chunk: nat, start: nat, newChunk: nat, ghost unit: nat, ghost front: P.List<P.Chunk>,
                     ghost rest: P.List<P.Chunk>)
      requires Valid() && chunks == Append(front, rest) && LastStart(front) == prev
      requires rest.Node? && ChunksAt(node, chunk, rest)
      requires unit > 0 && Aligned(unit, entrySize) && Aligned(start, unit)
          && chunk <= start <= newChunk <= node[chunk].limit
      requires Aligned(newChunk - start, entrySize)
      modifies this`node, this`chunkList, this`chunks
      ensures Valid() && chunks == Append(front, Rest(rest, entrySize, start, newChunk))
    {
      CarveReady(node, chunkList, entrySize, front, rest, free, unit, start, newChunk);
      var limit, next := node[chunk].limit, node[chunk].nextChunk;
      var nodes, head := node, next;
      if newChunk != limit {
        nodes := nodes[newChunk := ChunkNode(next, limit)];
        head := newChunk;
      }
      if start - chunk >= entrySize {
        nodes := nodes[chunk := ChunkNode(head, start)];
        head := chunk;
      }
      ghost var m1, first := nodes, head;
      if prev != 0 {
        nodes := nodes[prev := ChunkNode(head, nodes[prev].limit)];
        head := chunkList;
      }
      CarvedLists(node, m1, nodes, chunkList, entryList, front, rest, free, entrySize, start, newChunk, first);
      SetChunks(nodes, head, Append(front, Rest(rest, entrySize, start, newChunk)));
    }

    /** A run of entries from the first pool of the chain that has one. */
    method AllocContiguous(count: nat, align: nat) returns (ret: nat)
      requires Valid() && align > 0
      modifies Repr
      ensures Valid() && Repr == old(Repr) && fallback == old(fallback) && P.Valid(old(View()))
      ensures var a := P.AllocContiguous(old(View()), count, align);
              View() == a.pool && (ret == 0 <==> a.ptr.None?) && (ret != 0 ==> a.ptr == P.Some(ret))
      decreases Repr
    {
      ViewValid();
      ret := AllocContiguousNoFallback(count, align);
      if ret == 0 && fallback != null {
        ret := fallback.AllocContiguous(count, align);
      }
    }

    lemma ViewValid()
      requires Valid()
      ensures P.Valid(View())
      decreases Repr
    {
      if fallback != null {
        fallback.ViewValid();
      }
    }

    /** How often `x` is free in this pool alone. */
    ghost function Own(x: nat): nat
      reads this
    {
      P.InList(free, x) + P.InChunks(chunks, entrySize, x)
    }

    /** Gives everything to the fallback, if there is one. */
    method Fini()
      requires Valid()
      requires fallback != null ==> forall x :: Own(x) + fallback.Own(x) <= 1
      modifies Repr
      ensures Valid() && P.Valid(old(View()))
      ensures old(fallback) == null ==> View() == old(View())
      ensures old(fallback) != null ==>
                && old(fallback).Valid() && old(fallback).View() == P.Fini(old(View()))
                && View() == P.Pool(entrySize, P.Empty, P.Empty, P.None)
    {
      ViewValid();
      if fallback == null {
        return;
      }
      ghost var v, f := View(), fallback.View();
      assert v.fallback == P.Some(f);
      GiveEntries();
      GiveChunks();
      assert fallback.View() == P.Fini(v);
      Reset();
    }

    method Reset()
      requires Valid()
      modifies this
      ensures Valid() && View() == P.Pool(entrySize, P.Empty, P.Empty, P.None)
    {
      chunkList, entryList, fallback := 0, 0, null;
      chunks, free := P.Empty, P.Empty;
      Repr := {this};
    }

    method GiveEntries()
      requires Valid() && fallback != null && forall x :: Own(x) + fallback.Own(x) <= 1
      modifies fallback.Repr
      ensures Valid() && fallback.View() == P.FreeAll(old(fallback.View()), free)
      ensures forall x :: P.InChunks(chunks, entrySize, x) + fallback.Own(x) <= 1
    {
      var entry := entryList;
      ghost var rest := free;
      while entry != 0
        invariant fallback.Valid() && fallback.Repr == old(fallback.Repr) && EntriesAt(node, entry, rest)
            && P.ValidFree(rest, entrySize)
        invariant P.FreeAll(fallback.View(), rest) == P.FreeAll(old(fallback.View()), free)
        invariant forall x :: P.InList(rest, x) + P.InChunks(chunks, entrySize, x) + fallback.Own(x) <= 1
        decreases rest
      {
        var ptr := entry;
        entry := node[entry].next;
        assert P.InList(rest, ptr) >= 1;
        fallback.Free(ptr);
        rest := rest.tail;
      }
    }

    /** Adding a chunk that is aligned adds all of it. */
    method AddAligned(begin: nat, size: nat)
      requires Valid() && 0 < begin && 0 < size && Aligned(begin, entrySize) && Aligned(begin + size, entrySize)
      requires forall x: nat :: Aligned(x, entrySize) && begin <= x && x + entrySize <= begin + size ==>
                 P.InList(free, x) + P.InChunks(chunks, entrySize, x) == 0
      modifies this`node, this`chunkList, this`chunks
      ensures Valid() && View() == P.AddChunk(old(View()), begin, size).pool
      ensures chunks == P.Node(P.Chunk(begin, begin + size), old(chunks))
    {
      RoundsToItself(begin, entrySize);
      RoundsToItself(begin + size, entrySize);
      AlignedGap(begin, begin + size, entrySize);
      var ok := AddChunk(begin, size);
    }

    method GiveChunks()
      requires Valid() && fallback != null && forall x :: P.InChunks(chunks, entrySize, x) + fallback.Own(x) <= 1
      modifies fallback.Repr
      ensures Valid() && fallback.View().entrySize > 0 && fallback.View() == P.AddChunks(old(fallback.View()), chunks)
    {
      var chunk := chunkList;
      ghost var rest := chunks;
      while chunk != 0
        invariant fallback.Valid() && fallback.Repr == old(fallback.Repr) && ChunksAt(node, chunk, rest)
            && P.ValidChunks(rest, entrySize)
        invariant P.AddChunks(fallback.View(), rest) == P.AddChunks(old(fallback.View()), chunks)
        invariant forall x :: P.InChunks(rest, entrySize, x) + fallback.Own(x) <= 1
        decreases rest
      {
        var ptr, size := chunk, node[chunk].limit - chunk;
        chunk := node[chunk].nextChunk;
        fallback.TakeChunk(ptr, size, rest);
        rest := rest.tail;
      }
    }

    /** Takes over the first of some chunks that are apart from this pool. */
    method TakeChunk(begin: nat, size: nat, ghost rest: P.List<P.Chunk>)
      requires Valid() && rest.Node? && rest.head == P.Chunk(begin, begin + size) && P.ValidChunks(rest, entrySize)
      requires forall x :: P.InChunks(rest, entrySize, x) + Own(x) <= 1
      modifies this`node, this`chunkList, this`chunks
      ensures Valid() && View() == P.AddChunk(old(View()), begin, size).pool
      ensures forall x :: P.InChunks(rest.tail, entrySize, x) + Own(x) <= 1
    {
      MovesOver(rest, chunks, free, entrySize);
      AddAligned(begin, size);
    }
  }

  lemma AddedOnce(begin: nat, size: nat, newBegin: nat, newEnd: nat, chunks: P.List<P.Chunk>, free: P.List<nat>, n: nat)
    requires n > 0 && newBegin == RoundUp(begin, n) && newEnd == RoundDown(begin + size, n)
    requires forall x :: P.InList(free, x) + P.InChunks(chunks, n, x) <= 1
    requires forall x: nat :: Aligned(x, n) && begin <= x && x + n <= begin + size ==>
               P.InList(free, x) + P.InChunks(chunks, n, x) == 0
    ensures forall x :: P.InList(free, x) + P.InChunks(P.Node(P.Chunk(newBegin, newEnd), chunks), n, x) <= 1
  {
    forall x ensures P.InList(free, x) + P.InChunks(P.Node(P.Chunk(newBegin, newEnd), chunks), n, x) <= 1 {
      RunInside(begin, begin + size, newBegin, newEnd, n, x);
    }
  }

  /** Rounding as the program computes it. */
  method RoundedUp(x: nat, unit: nat) returns (r: nat)
    requires unit > 0
    ensures r == RoundUp(x, unit)
  {
    RoundingFormulas(x, unit);
    r := (x + unit - 1) / unit * unit;
  }

  method RoundedDown(x: nat, unit: nat) returns (r: nat)
    requires unit > 0
    ensures r == RoundDown(x, unit)
  {
    RoundingFormulas(x, unit);
    r := x / unit * unit;
  }

  lemma MovesOver(rest: P.List<P.Chunk>, chunks: P.List<P.Chunk>, free: P.List<nat>, size: nat)
    requires rest.Node?
    requires forall x :: P.InChunks(rest, size, x) + (P.InList(free, x) + P.InChunks(chunks, size, x)) <= 1
    requires size > 0 && P.ValidChunks(rest, size)
    ensures forall x ::
              P.InChunks(rest.tail, size, x) + (P.InList(free, x) + P.InChunks(P.Node(rest.head, chunks), size, x)) <= 1
    ensures forall x: nat :: Aligned(x, size) && rest.head.begin <= x && x + size <= rest.head.limit ==>
              P.InList(free, x) + P.InChunks(chunks, size, x) == 0
  {
    var c := rest.head;
    forall x: nat | Aligned(x, size) && c.begin <= x && x + size <= c.limit ensures P.InChunks(rest, size, x) >= 1 {
      RunInside(c.begin, c.limit, c.begin, c.limit, size, x);
    }
  }

  lemma {:induction false} RoundsToItself(x: nat, unit: nat)
    requires unit > 0 && Aligned(x, unit)
    ensures RoundUp(x, unit) == x && RoundDown(x, unit) == x
  {
    if x > 0 {
      RoundsToItself(x - unit, unit);
    }
  }

  /** The list from the carved chunk on, without [start, next). */
  function Rest(rest: P.List<P.Chunk>, size: nat, start: nat, next: nat): P.List<P.Chunk>
    requires rest.Node? && rest.head.begin <= start
  {
    var c, t := rest.head, rest.tail;
    var after := if next == c.limit then t else P.Node(P.Chunk(next, c.limit), t);
    if start - c.begin >= size then P.Node(P.Chunk(c.begin, start), after) else after
  }

  function Append(a: P.List<P.Chunk>, b: P.List<P.Chunk>): P.List<P.Chunk> {
    match a
    case Empty => b
    case Node(c, t) => P.Node(c, Append(t, b))
  }

  /** Where the last chunk of a list starts; 0 for the empty list. */
  function LastStart(a: P.List<P.Chunk>): nat {
    match a
    case Empty => 0
    case Node(c, t) => if t.Empty? then c.begin else LastStart(t)
  }

  function InFront(front: P.List<P.Chunk>, r: P.Carved): P.Carved {
    match r
    case NotFound => P.NotFound
    case Carved(s, t) => P.Carved(s, Append(front, t))
  }

  lemma {:induction false} AppendNext(front: P.List<P.Chunk>, rest: P.List<P.Chunk>)
    requires rest.Node?
    ensures var front' := Append(front, P.Node(rest.head, P.Empty));
            Append(front', rest.tail) == Append(front, rest) && LastStart(front') == rest.head.begin
    decreases front
  {
    if front.Node? {
      AppendNext(front.tail, rest);
    }
  }

  lemma {:induction false} InFrontNext(front: P.List<P.Chunk>, c: P.Chunk, r: P.Carved)
    ensures InFront(Append(front, P.Node(c, P.Empty)), r) ==
            InFront(front, match r case NotFound => P.NotFound case Carved(s, t) => P.Carved(s, P.Node(c, t)))
    decreases front
  {
    if r.Carved? {
      AppendNext(front, P.Node(c, r.chunks));
    }
  }

  lemma {:induction false} AppendParts(a: P.List<P.Chunk>, b: P.List<P.Chunk>, size: nat, x: nat)
    requires size > 0
    ensures P.ValidChunks(Append(a, b), size) <==> P.ValidChunks(a, size) && P.ValidChunks(b, size)
    ensures P.InChunks(Append(a, b), size, x) == P.InChunks(a, size, x) + P.InChunks(b, size, x)
    ensures StartsChunk(Append(a, b), x) <==> StartsChunk(a, x) || StartsChunk(b, x)
    decreases a
  {
    if a.Node? {
      AppendParts(a.tail, b, size, x);
    }
  }

  /** Joins another list on behind `front`, by the link of its last chunk. */
  lemma {:induction false} Relink(m: Nodes, m': Nodes, head: nat, front: P.List<P.Chunk>, rest: P.List<P.Chunk>,
                                  newHead: nat, now: P.List<P.Chunk>)
    requires ChunksAt(m, head, Append(front, rest)) && ChunksAt(m', newHead, now)
    requires forall x :: StartsChunk(front, x) && x in m ==>
               x in m' && m'[x] == if x == LastStart(front) && m[x].ChunkNode? then ChunkNode(newHead,
                   m[x].limit) else m[x]
    requires NoRepeat(front)
    ensures ChunksAt(m', if front.Empty? then newHead else head, Append(front, now))
    decreases front
  {
    if front.Node? {
      var c := front.head;
      assert StartsChunk(front, c.begin);
      if front.tail.Node? {
        forall x | StartsChunk(front.tail, x) && x in m
          ensures x in m' && m'[x] == if x == LastStart(front.tail) && m[x].ChunkNode? then ChunkNode(newHead,
              m[x].limit) else m[x]
        {
          assert StartsChunk(front, x);
        }
        LastStarts(front.tail);
        Relink(m, m', m[c.begin].nextChunk, front.tail, rest, newHead, now);
      }
    }
  }

  ghost predicate NoRepeat(l: P.List<P.Chunk>) {
    l.Node? ==> !StartsChunk(l.tail, l.head.begin) && NoRepeat(l.tail)
  }

  lemma {:induction false} LastStarts(l: P.List<P.Chunk>)
    requires l.Node?
    ensures StartsChunk(l, LastStart(l))
  {
    if l.tail.Node? {
      LastStarts(l.tail);
    }
  }

  /** The free entries and the chunks, with one chunk singled out; no entry is
      counted twice. */
  ghost predicate Around(front: P.List<P.Chunk>, rest: P.List<P.Chunk>, free: P.List<nat>, size: nat) {
    && size > 0 && rest.Node? && P.ValidChunks(front, size) && P.ValidChunks(rest, size)
    && forall x ::
         P.InList(free, x) + P.InChunks(front, size, x) + P.InRun(rest.head.begin, rest.head.limit, size,
             x) + P.InChunks(rest.tail, size, x) <= 1
  }

  lemma IsAround(front: P.List<P.Chunk>, rest: P.List<P.Chunk>, free: P.List<nat>, size: nat)
    requires size > 0 && rest.Node? && P.ValidChunks(Append(front, rest), size)
    requires forall x :: P.InList(free, x) + P.InChunks(Append(front, rest), size, x) <= 1
    ensures Around(front, rest, free, size)
  {
    AppendParts(front, rest, size, 0);
    forall x ensures P.InChunks(Append(front, rest), size, x) == P.InChunks(front, size, x) + P.InChunks(rest, size,
        x) {
      AppendParts(front, rest, size, x);
    }
  }

  /** An entry of the chunk is nowhere else. */
  lemma EntryOfChunk(front: P.List<P.Chunk>, rest: P.List<P.Chunk>, free: P.List<nat>, size: nat, y: nat)
    requires Around(front, rest, free, size)
    requires rest.head.begin <= y < rest.head.limit && Aligned(y, size)
    ensures P.InList(free, y) == 0 && !StartsChunk(front, y) && !StartsChunk(rest.tail, y)
  {
    AlignedGap(y, rest.head.limit, size);
    AlignedSum(rest.head.begin, y - rest.head.begin, size);
    RunMembers(rest.head.begin, rest.head.limit, size, y);
    if StartsChunk(front, y) { ChunkStartIsFree(front, size, y); }
    if StartsChunk(rest.tail, y) { ChunkStartIsFree(rest.tail, size, y); }
  }

  /** The start of an earlier chunk is nowhere else. */
  lemma StartOfFront(front: P.List<P.Chunk>, rest: P.List<P.Chunk>, free: P.List<nat>, size: nat, y: nat)
    requires Around(front, rest, free, size) && StartsChunk(front, y)
    ensures P.InList(free, y) == 0 && !StartsChunk(rest.tail, y)
    ensures !(rest.head.begin <= y < rest.head.limit && Aligned(y, size))
  {
    ChunkStartIsFree(front, size, y);
    if StartsChunk(rest.tail, y) { ChunkStartIsFree(rest.tail, size, y); }
    if rest.head.begin <= y < rest.head.limit && Aligned(y, size) {
      EntryOfChunk(front, rest, free, size, y);
    }
  }

  lemma {:induction false} CountedOnceNoRepeat(l: P.List<P.Chunk>, size: nat)
    requires size > 0 && P.ValidChunks(l, size) && (forall x :: P.InChunks(l, size, x) <= 1)
    ensures NoRepeat(l)
    decreases l
  {
    if l.Node? {
      var b := l.head.begin;
      AlignedGap(b, l.head.limit, size);
      assert P.InRun(b, l.head.limit, size, b) >= 1;
      assert P.InChunks(l, size, b) <= 1;
      if StartsChunk(l.tail, b) {
        ChunkStartIsFree(l.tail, size, b);
      }
      forall x ensures P.InChunks(l.tail, size, x) <= 1 {
        assert P.InChunks(l, size, x) <= 1;
      }
      CountedOnceNoRepeat(l.tail, size);
    }
  }

  /** Before the carving: the lists that will result hold every entry at most
      once, and the node of the chunk before is not among those overwritten. */
  lemma CarveReady(m: Nodes, chunkList: nat, size: nat, front: P.List<P.Chunk>, rest: P.List<P.Chunk>,
                   free: P.List<nat>, unit: nat, start: nat, next: nat)
    requires size > 0 && rest.Node? && P.ValidChunks(Append(front, rest), size)
        && ChunksAt(m, chunkList, Append(front, rest))
    requires forall x :: P.InList(free, x) + P.InChunks(Append(front, rest), size, x) <= 1
    requires rest.head.begin <= start <= next <= rest.head.limit
    requires unit > 0 && Aligned(unit, size) && Aligned(start, unit) && Aligned(next - start, size)
    ensures Around(front, rest, free, size) && Aligned(next, size)
    ensures P.ValidChunks(Append(front, Rest(rest, size, start, next)), size)
    ensures forall x :: P.InList(free, x) + P.InChunks(Append(front, Rest(rest, size, start, next)), size, x) <= 1
    ensures var prev := LastStart(front);
            if front.Empty? then prev == 0
            else
              && prev > 0 && prev in m && m[prev].ChunkNode? && prev != rest.head.begin
              && (next < rest.head.limit ==> prev != next)
  {
    IsAround(front, rest, free, size);
    CarvedCounts(front, rest, free, size, unit, start, next);
    AlignedTwice(start, unit, size);
    AlignedSum(start, next - start, size);
    if front.Node? {
      LastStarts(front);
      StartOfFront(front, rest, free, size, LastStart(front));
      FrontNode(m, chunkList, front, rest, LastStart(front));
    }
  }

  lemma {:induction false} FrontNode(m: Nodes, head: nat, front: P.List<P.Chunk>, rest: P.List<P.Chunk>, x: nat)
    requires ChunksAt(m, head, Append(front, rest)) && StartsChunk(front, x)
    ensures x in m && m[x].ChunkNode? && x > 0
    decreases front
  {
    if front.head.begin != x {
      FrontNode(m, m[front.head.begin].nextChunk, front.tail, rest, x);
    }
  }

  /** What is left of the chunk and the chunks after it, in memory. */
  lemma CarvedTail(m: Nodes, m2: Nodes, front: P.List<P.Chunk>, rest: P.List<P.Chunk>, free: P.List<nat>, size: nat,
                   start: nat, next: nat, head: nat)
    requires Around(front, rest, free, size) && ChunksAt(m, rest.head.begin, rest)
    requires rest.head.begin <= start <= next <= rest.head.limit && Aligned(next, size)
    requires forall x :: StartsChunk(rest.tail, x) && x in m ==> x in m2 && m2[x] == m[x]
    requires var link := m[rest.head.begin].nextChunk;
             var after := if next == rest.head.limit then link else next;
             && (next < rest.head.limit ==> next in m2 && m2[next] == ChunkNode(link, rest.head.limit))
             && (if start - rest.head.begin >= size
                 then head == rest.head.begin && head in m2 && m2[head] == ChunkNode(after, start)
                 else head == after)
    ensures ChunksAt(m2, head, Rest(rest, size, start, next))
  {
    ChunksFrame(m, m2, m[rest.head.begin].nextChunk, rest.tail);
  }

  /** Memory after the carving: `m1` before the link to the chunk has been set,
      `m2` after. */
  ghost predicate CarveWrites(m: Nodes, m1: Nodes, m2: Nodes, front: P.List<P.Chunk>, rest: P.List<P.Chunk>,
                              size: nat, start: nat, next: nat, head: nat)
    requires rest.Node? && rest.head.begin <= start && rest.head.begin in m && m[rest.head.begin].ChunkNode?
  {
    var c := rest.head;
    var link := m[c.begin].nextChunk;
    var after := if next == c.limit then link else next;
    var ma := if next == c.limit then m else m[next := ChunkNode(link, c.limit)];
    && m1 == (if start - c.begin >= size then ma[c.begin := ChunkNode(after, start)] else ma)
    && head == (if start - c.begin >= size then c.begin else after)
    && if front.Empty? then m2 == m1
       else
         var prev := LastStart(front);
         prev in m && prev in m1 && m1[prev] == m[prev] && m[prev].ChunkNode?
             && m2 == m1[prev := ChunkNode(head, m[prev].limit)]
  }

  lemma CarvedLists(m: Nodes, m1: Nodes, m2: Nodes, chunkList: nat, entryList: nat, front: P.List<P.Chunk>,
                    rest: P.List<P.Chunk>,
                    free: P.List<nat>, size: nat, start: nat, next: nat, head: nat)
    requires Around(front, rest, free, size) && ChunksAt(m, chunkList, Append(front, rest))
        && ChunksAt(m, rest.head.begin, rest)
    requires EntriesAt(m, entryList, free)
    requires rest.head.begin <= start <= next <= rest.head.limit && Aligned(next, size)
    requires CarveWrites(m, m1, m2, front, rest, size, start, next, head)
    ensures EntriesAt(m2, entryList, free)
    ensures ChunksAt(m2, if front.Empty? then head else chunkList, Append(front, Rest(rest, size, start, next)))
  {
    EntryOfChunk(front, rest, free, size, rest.head.begin);
    if next < rest.head.limit { EntryOfChunk(front, rest, free, size, next); }
    if front.Node? {
      LastStarts(front);
      StartOfFront(front, rest, free, size, LastStart(front));
    }
    CarvedTail(m, m2, front, rest, free, size, start, next, head);
    EntriesFrame(m, m2, entryList, free);
    CarvedFront(m, m1, m2, chunkList, front, rest, free, size, start, next, head);
  }

  lemma CarvedFront(m: Nodes, m1: Nodes, m2: Nodes, chunkList: nat, front: P.List<P.Chunk>, rest: P.List<P.Chunk>,
                    free: P.List<nat>, size: nat, start: nat, next: nat, head: nat)
    requires Around(front, rest, free, size) && ChunksAt(m, chunkList, Append(front, rest))
        && ChunksAt(m, rest.head.begin, rest)
    requires rest.head.begin <= start <= next <= rest.head.limit && Aligned(next, size)
    requires CarveWrites(m, m1, m2, front, rest, size, start, next, head)
    requires ChunksAt(m2, head, Rest(rest, size, start, next))
    ensures ChunksAt(m2, if front.Empty? then head else chunkList, Append(front, Rest(rest, size, start, next)))
  {
    CountedOnceNoRepeat(front, size);
    forall x | StartsChunk(front, x) && x in m
      ensures x in m2 && m2[x] == if x == LastStart(front) && m[x].ChunkNode? then ChunkNode(head, m[x].limit) else m[x]
    {
      StartOfFront(front, rest, free, size, x);
    }
    Relink(m, m2, chunkList, front, rest, head, Rest(rest, size, start, next));
  }

  lemma CarvedCounts(front: P.List<P.Chunk>, rest: P.List<P.Chunk>, free: P.List<nat>, size: nat, unit: nat,
                     start: nat, next: nat)
    requires Around(front, rest, free, size)
    requires rest.head.begin <= start <= next <= rest.head.limit
    requires unit > 0 && Aligned(unit, size) && Aligned(start, unit) && Aligned(next - start, size)
    ensures P.ValidChunks(Append(front, Rest(rest, size, start, next)), size)
    ensures forall x :: P.InList(free, x) + P.InChunks(Append(front, Rest(rest, size, start, next)), size, x) <= 1
  {
    var now := Rest(rest, size, start, next);
    CarveOne(rest.head, size, next - start, unit, start, 0);
    AppendParts(front, now, size, 0);
    forall x ensures P.InList(free, x) + P.InChunks(Append(front, now), size, x) <= 1 {
      CarveOne(rest.head, size, next - start, unit, start, x);
      AppendParts(front, now, size, x);
    }
  }

  /** The first entry of the first chunk, and what is left. */
  lemma TakeFirst(c: P.Chunk, t: P.List<P.Chunk>, free: P.List<nat>, size: nat)
    requires size > 0 && P.ValidChunks(P.Node(c, t), size)
    requires forall x :: P.InList(free, x) + P.InChunks(P.Node(c, t), size, x) <= 1
    ensures forall x :: P.InList(free, x) + P.InChunks(t, size, x) <= 1
    ensures c.begin + size < c.limit ==>
              && P.ValidChunks(P.Node(P.Chunk(c.begin + size, c.limit), t), size)
              && P.InList(free, c.begin + size) + P.InChunks(t, size, c.begin + size) == 0
              && forall x :: P.InList(free, x) + P.InChunks(P.Node(P.Chunk(c.begin + size, c.limit), t), size, x) <= 1
  {
    ChunkShrinks(c, size, 0);
    forall x
      ensures P.InChunks(t, size, x) + P.InRun(c.begin + size, c.limit, size, x) <= P.InChunks(P.Node(c, t), size, x)
    {
      ChunkShrinks(c, size, x);
    }
    if c.begin + size < c.limit {
      AlignedGap(c.begin + size, c.limit, size);
      assert P.InRun(c.begin + size, c.limit, size, c.begin + size) >= 1;
    }
  }
}
