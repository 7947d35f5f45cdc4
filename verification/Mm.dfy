/** The memory manager at work on tables in memory. Every method is proved to do
    to memory, pool and log what the corresponding function of `PageTree` does
    to the tree, and to touch no page that is neither in that tree nor free. */
module Mm {
  import opened Arith
  import opened PoolSpec
  import opened PoolProofs
  import opened PageShape
  import opened PageTree
  import opened PageConserve
  import opened PageQuery
  import opened PageRange
  import opened PageTable
  import opened MmMemory
  import opened MmWalk

  /** Memory without the pages of the tree. */
  ghost predicate Without(m: Tables, m': Tables, t: Pte) {
    forall x :: (x in m' <==> x in m && Holds(t, x) == 0) && (x in m' ==> m'[x] == m[x])
  }

  ghost predicate WithoutFront(m: Tables, m': Tables, es: Entries, rest: Entries) {
    forall x ::
      && (x in m' <==> x in m && HoldsList(es, x) == HoldsList(rest, x))
      && (x in m' ==> m'[x] == m[x])
  }

  /** Pages that are neither the table, nor below it, nor free are as before. */
  ghost predicate OthersUnchanged(m: Tables, m': Tables, table: nat, es: Entries, pool: Pool) {
    forall x :: x in m && Total(table, es, pool, x) == 0 ==> x in m' && m'[x] == m[x]
  }

  lemma FreedOne(m0: Tables, m: Tables, m': Tables, es: Entries, i: nat, addr: nat)
    requires SoleList(es) && Drop(es, i).Cons? && HoldsList(es, addr) == 0 && addr in m && i < |m[addr]|
    requires WithoutFront(m0, m, es, Drop(es, i)) && Without(m, m', Drop(es, i).head)
    requires RepList(m, m[addr][i..], Drop(es, i))
    ensures WithoutFront(m0, m', es, Drop(es, i + 1))
    ensures addr in m' && m'[addr] == m[addr] && RepList(m', m'[addr][i + 1..], Drop(es, i + 1))
  {
    var d := Drop(es, i);
    DropNext(es, i);
    forall x ensures HoldsList(d, x) <= HoldsList(es, x) {
      HoldsAt(es, i, x);
    }
    forall x
      ensures (x in m' <==> x in m0 && HoldsList(es, x) == HoldsList(d.tail, x)) && (x in m' ==> m'[x] == m0[x])
    {
      HoldsAt(es, i, x);
    }
    assert m[addr][i..][1..] == m[addr][i + 1..];
    forall x | HoldsList(d.tail, x) > 0 && x in m ensures x in m' && m'[x] == m[x] {
      HoldsAt(es, i, x);
    }
    RepListFrame(m, m', m[addr][i + 1..], d.tail);
    HoldsAt(es, i, addr);
  }

  class MemoryManager {
    var mem: Tables
    var pool: Pool
    ghost var log: seq<Event>
    const flush: bool

    ghost function St(): State
      reads this
    {
      State(pool, log)
    }

    method FreePagePte(r: RawPte, level: nat, ghost t: Pte)
      requires Rep(mem, r, t) && Shaped(t, level) && Sole(t)
      modifies this`mem, this`pool
      ensures pool == FreePte(t, old(pool)) && Without(old(mem), mem, t)
      decreases level
    {
      if !r.RawTable? {
        return;
      }
      ghost var es := t.entries;
      assert forall x :: Holds(t, x) == One(x == r.addr) + HoldsList(es, x);
      assert Holds(t, r.addr) <= 1;
      assert mem[r.addr][0..] == mem[r.addr];
      RepLength(mem, mem[r.addr], es, PTES, level - 1);
      var i := 0;
      while i < PTES
        invariant 0 <= i <= PTES && r.addr in mem && |mem[r.addr]| == PTES
        invariant FreeList(Drop(es, i), pool) == FreeList(es, old(pool))
        invariant RepList(mem, mem[r.addr][i..], Drop(es, i)) && WithoutFront(old(mem), mem, es, Drop(es, i))
      {
        ghost var m := mem;
        ghost var d := Drop(es, i);
        ShapedAt(es, PTES, level - 1, i);
        forall x ensures Holds(d.head, x) <= 1 {
          HoldsAt(es, i, x);
          assert Holds(t, x) <= 1;
        }
        FreePagePte(mem[r.addr][i], level - 1, d.head);
        DropNext(es, i);
        FreedOne(old(mem), m, mem, es, i, r.addr);
        i := i + 1;
      }
      pool := Free(pool, r.addr);
      mem := mem - {r.addr};
    }

    /** Writes one entry; when the old one was valid and invalidation is on, it
        is first made absent and its range is invalidated. */
    method ReplaceEntry(begin: nat, table: nat, index: nat, pte: RawPte, level: nat,
                        ghost base: nat, ghost was: Pte, ghost now: Pte)
      requires table in mem && index < |mem[table]| && Rep(mem, mem[table][index], was)
      requires Shaped(was, level) && Sole(was) && Holds(was, table) == 0 && pte == Stored(now)
      modifies this`mem, this`pool, this`log
      ensures St() == Replace(was, now, level, base, begin, flush, old(St()))
      ensures table in mem && mem[table] == old(mem[table])[index := pte]
      ensures forall x :: x != table ==>
                (x in mem <==> x in old(mem) && Holds(was, x) == 0) && (x in mem ==> mem[x] == old(mem)[x])
    {
      var v := mem[table][index];
      if flush && (v.RawTable? || (v.RawBlock? && v.attrs.valid)) {
        mem := mem[table := mem[table][index := RawAbsent]];
        log := log + [Write(base, level, Absent), Invalidate(begin, begin + Span(level))];
      }
      mem := mem[table := mem[table][index := pte]];
      log := log + [Write(base, level, now)];
      RepFrame(old(mem), mem, v, was);
      FreePagePte(v, level, was);
    }

    /** The table an entry refers to, after one has been made for it if needed. */
    method PopulateTablePte(begin: nat, table: nat, index: nat, level: nat, ghost base: nat, ghost e: Pte)
      returns (nt: Option<nat>)
      requires table in mem && index < |mem[table]| && Rep(mem, mem[table][index], e)
      requires level > 0 && Shaped(e, level) && Valid(pool) && Occurs(pool, table) == 0
      modifies this`mem, this`pool, this`log
      ensures e.Table? ==> nt == Some(e.addr) && mem == old(mem) && St() == old(St())
      ensures !e.Table? && nt.None? ==> Alloc(old(pool)).ptr.None? && mem == old(mem) && St() == old(St())
      ensures !e.Table? && nt.Some? ==>
                var a := Alloc(old(pool));
                var t := Table(nt.value, Split(e, level));
                && a.ptr == nt && nt.value != table && nt.value in mem
                && St() == Replace(e, t, level, base, begin, flush, State(a.pool, old(log)))
                && mem == old(mem)[nt.value := mem[nt.value]][table := old(mem[table])[index := RawTable(nt.value)]]
                && Rep(mem, RawTable(nt.value), t)
    {
      var v := mem[table][index];
      if v.RawTable? {
        return Some(v.addr);
      }
      AllocConserves(pool, table);
      var a := Alloc(pool);
      if a.ptr.None? {
        return None;
      }
      pool := a.pool;
      nt := a.ptr;
      WriteTable(nt.value, v, level, e);
      ghost var m := mem;
      ReplaceEntry(begin, table, index, RawTable(nt.value), level, base, e, Table(nt.value, Split(e, level)));
      LeavesRep(m, mem, mem[nt.value], e, level);
      assert mem == old(mem)[nt.value := mem[nt.value]][table := old(mem[table])[index := RawTable(nt.value)]];
    }

    /** Fills a new table with what stands for the entry. */
    method WriteTable(addr: nat, v: RawPte, level: nat, ghost e: Pte)
      requires level > 0 && !e.Table? && Rep(map[], v, e)
      modifies this`mem
      ensures addr in mem && mem == old(mem)[addr := mem[addr]] && RepList(mem, mem[addr], Split(e, level))
    {
      var entries := NewEntries(v, level, e);
      mem := mem[addr := entries];
      LeavesRep(map[], mem, entries, e, level);
    }

    /** One entry of a table: left alone, replaced, or gone down into. */
    method MapEntry(begin: nat, end: nat, pa: nat, attrs: Attrs, table: nat, index: nat, level: nat, unmap: bool,
                    commit: bool,
                    ghost q: Request, ghost base: nat, ghost es: Entries, ghost n: nat)
      returns (ok: bool)
      requires Holding(mem, pool, table, es, n, level) && Asks(q, attrs, unmap, commit, flush)
      requires index < n && Touches(q, level, base) && Aligned(base, Span(level))
      requires PartOf(q, begin, end, pa, base, Span(level))
      modifies this`mem, this`pool, this`log
      ensures Drop(es, index).Cons?
      ensures var m := MapPte(Drop(es, index).head, level, base, q, old(St()));
              && St() == m.st && ok == m.ok
              && table in mem && RepList(mem, mem[table], SetAt(es, index, m.pte))
      ensures OthersUnchanged(old(mem), mem, table, es, old(pool))
      decreases level, 0
    {
      RepLength(mem, mem[table], es, n, level);
      RepAt(mem, mem[table], es, index);
      ShapedAt(es, n, level, index);
      NextBlock(begin, base, Span(level));
      ghost var e := Drop(es, index).head;
      EntryApart(table, es, index, pool);
      var size := Span(level);
      var v := mem[table][index];
      if (if unmap then v.RawAbsent? else v.RawBlock? && v.attrs == attrs) {
        ok := true;
        SetSame(es, index);
      } else if end - begin >= size && (unmap || level <= MAX_BLOCK_LEVEL) && Aligned(begin, size)
          && Aligned(pa, size) {
        assert Covers(q, level, base);
        if commit {
          var pte := if unmap then RawAbsent else RawBlock(pa, attrs);
          ReplaceEntry(begin, table, index, pte, level, base, e, NewPte(q, base));
          RepReplace(old(mem), mem, old(mem)[table], es, index, pte, NewPte(q, base));
        } else {
          SetSame(es, index);
        }
        ok := true;
      } else {
        assert level > 0 && !Covers(q, level, base) by {
          AlignedByOne(FrameFor(q, begin));
        }
        ok := MapBelow(begin, end, pa, attrs, table, index, level, unmap, commit, q, base, es, n);
      }
    }

    /** The part of the request that lies in one entry, done in the table below. */
    method MapBelow(begin: nat, end: nat, pa: nat, attrs: Attrs, table: nat, index: nat, level: nat, unmap: bool,
                    commit: bool,
                    ghost q: Request, ghost base: nat, ghost es: Entries, ghost n: nat)
      returns (ok: bool)
      requires Holding(mem, pool, table, es, n, level) && Asks(q, attrs, unmap, commit, flush)
      requires index < n && Touches(q, level, base) && Aligned(base, Span(level))
      requires PartOf(q, begin, end, pa, base, Span(level))
      requires Drop(es, index).Cons? && level > 0 && !Skips(q, Drop(es, index).head) && !Covers(q, level, base)
      modifies this`mem, this`pool, this`log
      ensures var m := MapPte(Drop(es, index).head, level, base, q, old(St()));
              && St() == m.st && ok == m.ok
              && table in mem && RepList(mem, mem[table], SetAt(es, index, m.pte))
      ensures OthersUnchanged(old(mem), mem, table, es, old(pool))
      decreases level - 1, 4
    {
      RepLength(mem, mem[table], es, n, level);
      RepAt(mem, mem[table], es, index);
      ShapedAt(es, n, level, index);
      EntryApart(table, es, index, pool);
      ghost var e := Drop(es, index).head;
      var nt := PopulateTablePte(begin, table, index, level, base, e);
      if nt.None? {
        SetSame(es, index);
        return false;
      }
      ghost var t := if e.Table? then e else Table(nt.value, Split(e, level));
      ghost var m1, pool1 := mem, pool;
      ghost var r := MapList(t.entries, level - 1, base, q, St());
      if !e.Table? { SplitShaped(e, level); }
      PopulatedApart(table, es, index, level, old(pool), pool1, e, t);
      PopulatedRep(old(mem), m1, table, es, index, level, old(pool), nt.value, e, t);
      ghost var below;
      ok, below := MapLevel(begin, end, pa, attrs, nt.value, 0, level - 1, unmap, commit, q, base, t.entries, PTES, r);
      SetGet(es, index, t, Table(nt.value, below));
      BelowRep(m1, mem, table, SetAt(es, index, t), index, pool1, t, below);
    }

    /** Maps or unmaps the part of the request that lies in one table: the
        entries from `first` on of those at `table`. */
    method MapLevel(begin: nat, end: nat, pa: nat, attrs: Attrs, table: nat, first: nat, level: nat, unmap: bool,
                    commit: bool,
                    ghost q: Request, ghost base: nat, ghost es: Entries, ghost n: nat, ghost r: MappedList)
      returns (ok: bool, ghost es': Entries)
      requires Holding(mem, pool, table, es, n, level) && Asks(q, attrs, unmap, commit, flush)
      requires first + PTES <= n && Continues(r, es, first, level, base, q, St())
      requires Touches(q, level + 1, base) && Aligned(base, Span(level + 1))
      requires PartOf(q, begin, end, pa, base, Span(level + 1))
      modifies this`mem, this`pool, this`log
      ensures Holding(mem, pool, table, es', n, level) && Kept(old(mem), old(pool), mem, pool, table, es, es')
      ensures !ok ==> r == MappedList(es', St(), false)
      ensures ok && q.end > base + Span(level + 1) ==> Continues(r, es', first + PTES, level, base + Span(level + 1),
          q, St())
      ensures ok && (q.end <= base + Span(level + 1) || first + PTES == n) ==> r == MappedList(es', St(), true)
      decreases level, 3
    {
      var index, levelEnd := Locate(begin, level, base);
      MapSkips(r, es, first, index, level, base, q, St());
      ok, es' := FillEntries(begin, if end > levelEnd then levelEnd else end, pa, attrs, table, first, index, level,
          unmap, commit,
                             q, base, base + Spans(index, level), es, n, r);
    }

    /** The loop over the entries of a table, from the entry `index0` on. */
    method FillEntries(begin0: nat, end: nat, pa0: nat, attrs: Attrs, table: nat, first: nat, index0: nat, level: nat,
                       unmap: bool, commit: bool,
                       ghost q: Request, ghost base: nat, ghost at0: nat, ghost es: Entries, ghost n: nat,
                           ghost r: MappedList)
      returns (ok: bool, ghost cur: Entries)
      requires Holding(mem, pool, table, es, n, level) && Asks(q, attrs, unmap, commit, flush)
      requires first + PTES <= n && Continues(r, es, first + index0, level, at0, q, St())
      requires Place(q, level, base, index0, PTES, at0, begin0, end, pa0)
      modifies this`mem, this`pool, this`log
      ensures Holding(mem, pool, table, cur, n, level) && Kept(old(mem), old(pool), mem, pool, table, es, cur)
      ensures !ok ==> r == MappedList(cur, St(), false)
      ensures ok && q.end > base + Spans(PTES, level) ==> Continues(r, cur, first + PTES, level, base + Spans(PTES,
          level), q, St())
      ensures ok && (q.end <= base + Spans(PTES, level) || first + PTES == n) ==> r == MappedList(cur, St(), true)
      decreases level, 2
    {
      var begin: nat, pa: nat, index: nat := begin0, pa0, index0;
      ghost var at: nat := at0;
      cur := es;
      while begin < end
        invariant Place(q, level, base, index, PTES, at, begin, end, pa)
        invariant Continues(r, cur, first + index, level, at, q, St()) && Holding(mem, pool, table, cur, n, level)
        invariant Kept(old(mem), old(pool), mem, pool, table, es, cur)
        decreases PTES - index
      {
        var next;
        ok, next, cur := FillNext(begin, end, pa, attrs, table, first, index, level, unmap, commit, q, base, at, cur,
            n, r, es, old(mem), old(pool));
        if !ok {
          return;
        }
        pa, begin, index, at := pa + (next - begin), next, index + 1, next;
      }
      FillEnds(r, cur, first, index, n, level, base, at, begin, end, pa, q, St());
      ok := true;
    }

    /** The next entry, and where the one after it starts. */
    method FillNext(begin: nat, end: nat, pa: nat, attrs: Attrs, table: nat, first: nat, index: nat, level: nat,
                    unmap: bool, commit: bool,
                    ghost q: Request, ghost base: nat, ghost at: nat, ghost cur: Entries, ghost n: nat,
                        ghost r: MappedList,
                    ghost es: Entries, ghost mem0: Tables, ghost pool0: Pool)
      returns (ok: bool, next: nat, ghost cur': Entries)
      requires Holding(mem, pool, table, cur, n, level) && Continues(r, cur, first + index, level, at, q, St())
      requires Kept(mem0, pool0, mem, pool, table, es, cur) && Asks(q, attrs, unmap, commit, flush)
      requires first + PTES <= n && begin < end && Place(q, level, base, index, PTES, at, begin, end, pa)
      modifies this`mem, this`pool, this`log
      ensures Holding(mem, pool, table, cur', n, level) && Kept(mem0, pool0, mem, pool, table, es, cur')
      ensures next > begin && Place(q, level, base, index + 1, PTES, next, next, end, pa + (next - begin))
      ensures if ok then Continues(r, cur', first + index + 1, level, next, q, St())
              else r == MappedList(cur', St(), false)
      decreases level, 1, 1
    {
      PlaceNext(q, level, base, index, PTES, at, begin, end, pa);
      ok, cur' := MapNext(begin, end, pa, attrs, table, first + index, level, unmap, commit, q, at, cur, n, r, es,
          mem0, pool0);
      next := Advance(begin, Span(level), at);
    }

    /** The next entry of the table, in the middle of working on the table. */
    method MapNext(begin: nat, end: nat, pa: nat, attrs: Attrs, table: nat, index: nat, level: nat, unmap: bool,
                   commit: bool,
                   ghost q: Request, ghost at: nat, ghost cur: Entries, ghost n: nat, ghost r: MappedList,
                   ghost es: Entries, ghost mem0: Tables, ghost pool0: Pool)
      returns (ok: bool, ghost cur': Entries)
      requires Holding(mem, pool, table, cur, n, level) && Continues(r, cur, index, level, at, q, St())
      requires Kept(mem0, pool0, mem, pool, table, es, cur) && Asks(q, attrs, unmap, commit, flush)
      requires index < n && Touches(q, level, at) && Aligned(at, Span(level))
      requires PartOf(q, begin, end, pa, at, Span(level))
      modifies this`mem, this`pool, this`log
      ensures Holding(mem, pool, table, cur', n, level) && Kept(mem0, pool0, mem, pool, table, es, cur')
      ensures if ok then Continues(r, cur', index + 1, level, at + Span(level), q, St())
              else r == MappedList(cur', St(), false)
      decreases level, 1, 0
    {
      ShapedAt(cur, n, level, index);
      MapAdvances(r, cur, index, level, at, q, St());
      MapPteKeepsTotal(table, cur, index, level, at, q, St());
      MapPteShaped(Drop(cur, index).head, level, at, q, St());
      ghost var m := MapPte(Drop(cur, index).head, level, at, q, St());
      ok := MapEntry(begin, end, pa, attrs, table, index, level, unmap, commit, q, at, cur, n);
      ShapedSet(cur, n, level, index, m.pte);
      cur' := SetAt(cur, index, m.pte);
    }

    /** Maps or unmaps a range, one of the `count` concatenated root tables
        after the other. */
    method MapRoot(root: nat, count: nat, begin0: nat, end: nat, pa0: nat, attrs: Attrs, level: nat, unmap: bool,
                   commit: bool,
                   ghost q: Request, ghost es: Entries)
      returns (ok: bool, ghost cur: Entries)
      requires Holding(mem, pool, root, es, count * PTES, level) && Asks(q, attrs, unmap, commit, flush)
          && count <= PTES
      requires q.begin == begin0 && q.end == end && q.pa == pa0 && end <= Spans(count, level + 1)
      modifies this`mem, this`pool, this`log
      ensures Holding(mem, pool, root, cur, count * PTES, level) && Kept(old(mem), old(pool), mem, pool, root, es, cur)
      ensures MapList(es, level, 0, q, old(St())) == MappedList(cur, St(), ok)
    {
      cur := es;
      ghost var r := MapList(es, level, 0, q, St());
      if begin0 >= end {
        EmptyRequest(es, level, 0, q, St());
        return true, es;
      }
      var index := LocateRoot(begin0, level, count);
      RootSkips(r, es, index, level, q, St());
      ok, cur := MapTables(root, count, index, begin0, end, pa0, attrs, level, unmap, commit, q, Spans(index,
          level + 1), es, r);
    }

    /** The loop over the root tables, from table `index0` on. */
    method MapTables(root: nat, count: nat, index0: nat, begin0: nat, end: nat, pa0: nat, attrs: Attrs, level: nat,
                     unmap: bool, commit: bool,
                     ghost q: Request, ghost at0: nat, ghost es: Entries, ghost r: MappedList)
      returns (ok: bool, ghost cur: Entries)
      requires Holding(mem, pool, root, es, count * PTES, level) && Asks(q, attrs, unmap, commit, flush)
          && count <= PTES
      requires q.end == end && begin0 < end && Place(q, level + 1, 0, index0, count, at0, begin0, end, pa0)
      requires Continues(r, es, index0 * PTES, level, at0, q, St())
      modifies this`mem, this`pool, this`log
      ensures Holding(mem, pool, root, cur, count * PTES, level) && Kept(old(mem), old(pool), mem, pool, root, es, cur)
      ensures r == MappedList(cur, St(), ok)
    {
      cur := es;
      var begin: nat, pa: nat, index: nat := begin0, pa0, index0;
      ghost var at: nat := at0;
      while begin < end
        invariant Place(q, level + 1, 0, index, count, at, begin, end, pa)
        invariant Holding(mem, pool, root, cur, count * PTES, level) && Kept(old(mem), old(pool), mem, pool, root, es,
            cur)
        invariant begin < end ==> Continues(r, cur, index * PTES, level, at, q, St())
        invariant begin >= end ==> r == MappedList(cur, St(), true)
        decreases count - index
      {
        var next;
        ok, next, cur := MapRootNext(begin, end, pa, attrs, root, index, count, level, unmap, commit, q, at, cur, r, es,
                                     old(mem), old(pool));
        if !ok {
          return;
        }
        pa, begin, index, at := pa + (next - begin), next, index + 1, next;
      }
      ok := true;
    }

    /** The next root table, in the middle of working on them. */
    method MapRootNext(begin: nat, end: nat, pa: nat, attrs: Attrs, root: nat, index: nat, count: nat, level: nat,
                       unmap: bool, commit: bool,
                       ghost q: Request, ghost at: nat, ghost cur: Entries, ghost r: MappedList,
                       ghost es: Entries, ghost mem0: Tables, ghost pool0: Pool)
      returns (ok: bool, next: nat, ghost cur': Entries)
      requires Holding(mem, pool, root, cur, count * PTES, level) && Kept(mem0, pool0, mem, pool, root, es, cur)
      requires Asks(q, attrs, unmap, commit, flush) && count <= PTES && q.end == end && begin < end
      requires Place(q, level + 1, 0, index, count, at, begin, end, pa)
          && Continues(r, cur, index * PTES, level, at, q, St())
      modifies this`mem, this`pool, this`log
      ensures Holding(mem, pool, root, cur', count * PTES, level) && Kept(mem0, pool0, mem, pool, root, es, cur')
      ensures next > begin && Place(q, level + 1, 0, index + 1, count, next, next, end, pa + (next - begin))
      ensures !ok ==> r == MappedList(cur', St(), false)
      ensures ok && next < end ==> Continues(r, cur', (index + 1) * PTES, level, next, q, St())
      ensures ok && next >= end ==> r == MappedList(cur', St(), true)
    {
      PlaceNext(q, level + 1, 0, index, count, at, begin, end, pa);
      ghost var m, p := mem, pool;
      ok, cur' := MapLevel(begin, end, pa, attrs, root, index * PTES, level, unmap, commit, q, at, cur, count * PTES,
          r);
      KeptTwice(mem0, pool0, m, p, mem, pool, root, es, cur, cur');
      next := Advance(begin, Span(level + 1), at);
    }

    /** Replaces a table by one entry where all its entries agree, after doing
        the same in the tables below it. */
    method DefragEntry(base: nat, table: nat, index: nat, level: nat, ghost es: Entries, ghost n: nat)
      requires Holding(mem, pool, table, es, n, level) && index < n
      requires Drop(es, index).Cons?
      modifies this`mem, this`pool, this`log
      ensures var d := DefragPte(Drop(es, index).head, level, base, flush, old(St()));
              St() == d.st && table in mem && RepList(mem, mem[table], SetAt(es, index, d.pte))
      ensures OthersUnchanged(old(mem), mem, table, es, old(pool))
      decreases level, 0
    {
      RepLength(mem, mem[table], es, n, level);
      RepAt(mem, mem[table], es, index);
      ShapedAt(es, n, level, index);
      EntryApart(table, es, index, pool);
      ghost var e := Drop(es, index).head;
      var v := mem[table][index];
      if !v.RawTable? {
        SetSame(es, index);
        return;
      }
      PopulatedApart(table, es, index, level, pool, pool, e, e);
      var mergeable; ghost var below;
      mergeable, below := DefragTable(base, v.addr, level - 1, e.entries);
      ghost var e1 := Table(v.addr, below);
      BelowRep(old(mem), mem, table, es, index, old(pool), e, below);
      BelowApart(table, es, index, n, level, old(pool), pool, e, e1);
      SetGet(es, index, e1, e1);
      if mergeable {
        MergeEntry(base, table, index, v.addr, level, SetAt(es, index, e1), n, below, es, old(mem), old(pool));
        SetGet(es, index, e1, Merge(e1, level));
      }
    }

    /** Replaces the reference to a table of mergeable entries. */
    method MergeEntry(base: nat, table: nat, index: nat, sub: nat, level: nat, ghost es: Entries, ghost n: nat,
                      ghost below: Entries,
                      ghost es0: Entries, ghost mem0: Tables, ghost pool0: Pool)
      requires Holding(mem, pool, table, es, n, level) && index < n && level > 0
      requires Drop(es, index).Cons? && Drop(es, index).head == Table(sub, below)
      requires below.Cons? && Mergeable(below.head, below.tail) && Kept(mem0, pool0, mem, pool, table, es0, es)
      modifies this`mem, this`pool, this`log
      ensures var t := Table(sub, below);
              var now := Merge(t, level);
              && St() == (if now != t then Replace(t, now, level, base, base, flush, old(St())) else old(St()))
              && table in mem && RepList(mem, mem[table], SetAt(es, index, now))
      ensures OthersUnchanged(mem0, mem, table, es0, pool0)
    {
      RepLength(mem, mem[table], es, n, level);
      RepAt(mem, mem[table], es, index);
      ShapedAt(es, n, level, index);
      EntryApart(table, es, index, pool);
      ghost var t := Table(sub, below);
      var first := mem[sub][0];
      var pte := if first.RawAbsent? then RawAbsent
                 else if level > MAX_BLOCK_LEVEL then RawTable(sub)
                 else RawBlock(StoredFrame(first), StoredAttrs(first));
      assert Rep(mem, mem[sub][0], below.head);
      assert pte == Stored(Merge(t, level));
      SetSame(es, index);
      if mem[table][index] != pte {
        ReplaceEntry(base, table, index, pte, level, base, t, Merge(t, level));
        RepReplace(old(mem), mem, old(mem)[table], es, index, pte, Merge(t, level));
      }
    }

    /** Every entry of a table, and whether they can all be merged. */
    method DefragTable(base: nat, table: nat, level: nat, ghost es: Entries)
      returns (mergeable: bool, ghost cur: Entries)
      requires Holding(mem, pool, table, es, PTES, level)
      modifies this`mem, this`pool, this`log
      ensures Holding(mem, pool, table, cur, PTES, level) && Kept(old(mem), old(pool), mem, pool, table, es, cur)
      ensures DefragList(es, level, base, flush, old(St())) == DefraggedList(cur, St())
      ensures mergeable <==> cur.Cons? && Mergeable(cur.head, cur.tail)
      decreases level, 2
    {
      ghost var r := DefragList(es, level, base, flush, St());
      var first;
      first, cur := DefragNext(base, table, 0, level, es, PTES, r, es, mem, pool);
      mergeable, cur := DefragRest(base, table, level, first, cur, r, es, old(mem), old(pool));
      DefragDone(r, cur, level, base + Spans(PTES, level), flush, St());
    }

    /** All entries of a table but the first, which has become `first`. */
    method DefragRest(base: nat, table: nat, level: nat, first: RawPte, ghost cur0: Entries, ghost r: DefraggedList,
                      ghost es: Entries, ghost mem0: Tables, ghost pool0: Pool)
      returns (mergeable: bool, ghost cur: Entries)
      requires Holding(mem, pool, table, cur0, PTES, level) && Kept(mem0, pool0, mem, pool, table, es, cur0)
      requires DefragContinues(r, cur0, 1, level, base + Span(level), flush, St())
      requires cur0.Cons? && first == Stored(cur0.head)
      modifies this`mem, this`pool, this`log
      ensures Holding(mem, pool, table, cur, PTES, level) && Kept(mem0, pool0, mem, pool, table, es, cur)
      ensures DefragContinues(r, cur, PTES, level, base + Spans(PTES, level), flush, St())
      ensures mergeable == MergesUpTo(cur, PTES)
      decreases level, 1, 1
    {
      cur, mergeable := cur0, true;
      var i, at: nat := 1, base + Span(level);
      while i < PTES
        invariant 1 <= i <= PTES && at == base + Spans(i, level)
        invariant Holding(mem, pool, table, cur, PTES, level) && Kept(mem0, pool0, mem, pool, table, es, cur)
        invariant DefragContinues(r, cur, i, level, at, flush, St())
        invariant cur.Cons? && first == Stored(cur.head) && mergeable == MergesUpTo(cur, i)
      {
        ghost var before := cur;
        var pte;
        pte, cur := DefragNext(at, table, i, level, cur, PTES, r, es, mem0, pool0);
        mergeable := Compare(first, pte, mergeable, before, i, cur);
        i, at := i + 1, at + Span(level);
      }
    }

    /** Whether the entries can be merged with one more of them looked at. */
    method Compare(first: RawPte, pte: RawPte, mergeable: bool, ghost before: Entries, ghost i: nat, ghost cur: Entries)
      returns (still: bool)
      requires i > 0 && Drop(before, i).Cons? && before.Cons? && first == Stored(before.head)
      requires Drop(cur, i).Cons? && pte == Stored(Drop(cur, i).head) && cur == SetAt(before, i, Drop(cur, i).head)
      requires mergeable == MergesUpTo(before, i)
      ensures cur.Cons? && cur.head == before.head && still == MergesUpTo(cur, i + 1)
    {
      MergesNext(before, i, Drop(cur, i).head);
      still := mergeable;
      var present := !pte.RawAbsent?;
      if present != !first.RawAbsent? {
        still := false;
      } else if present && (!pte.RawBlock? || pte.attrs != StoredAttrs(first)) {
        still := false;
      }
    }

    /** The next entry of a table, in the middle of working on the table. */
    method DefragNext(at: nat, table: nat, index: nat, level: nat, ghost cur: Entries, ghost n: nat,
                      ghost r: DefraggedList,
                      ghost es: Entries, ghost mem0: Tables, ghost pool0: Pool)
      returns (pte: RawPte, ghost cur': Entries)
      requires Holding(mem, pool, table, cur, n, level) && Kept(mem0, pool0, mem, pool, table, es, cur)
      requires index < n && DefragContinues(r, cur, index, level, at, flush, St())
      modifies this`mem, this`pool, this`log
      ensures Holding(mem, pool, table, cur', n, level) && Kept(mem0, pool0, mem, pool, table, es, cur')
      ensures DefragContinues(r, cur', index + 1, level, at + Span(level), flush, St())
      ensures Drop(cur', index).Cons? && cur' == SetAt(cur, index, Drop(cur', index).head)
          && pte == Stored(Drop(cur', index).head)
      ensures Drop(cur, index).Cons?
      decreases level, 1, 0
    {
      ShapedAt(cur, n, level, index);
      ghost var h := Drop(cur, index).head;
      ghost var d := DefragPte(h, level, at, flush, St());
      DefragAdvances(r, cur, index, level, at, flush, St());
      DefragPteKeepsTotal(table, cur, index, level, at, flush, St());
      DefragPteShaped(h, level, at, flush, St());
      DefragEntry(at, table, index, level, cur, n);
      cur' := SetAt(cur, index, d.pte);
      ShapedSet(cur, n, level, index, d.pte);
      SetGet(cur, index, d.pte, d.pte);
      SetThenDrop(cur, index, d.pte, Nil);
      DropNext(cur, index);
      RepLength(mem, mem[table], cur', n, level);
      RepAt(mem, mem[table], cur', index);
      pte := mem[table][index];
    }

    /** Maps or unmaps the bytes [paBegin, paEnd) at `ipaBegin`. */
    method PtableMap(root: nat, count: nat, level: nat, paBegin: nat, paEnd: nat, ipaBegin: nat, attrs: Attrs,
                     unmap: bool, commit: bool,
                     ghost es: Entries)
      returns (ok: bool, ghost es': Entries)
      requires Holding(mem, pool, root, es, count * PTES, level) && count <= PTES
      requires GoodRequest(ToRequest(paBegin, paEnd, ipaBegin, attrs, unmap, flush, Spans(count, level + 1)))
      modifies this`mem, this`pool, this`log
      ensures Holding(mem, pool, root, es', count * PTES, level) && Kept(old(mem), old(pool), mem, pool, root, es, es')
      ensures var q := ToRequest(paBegin, paEnd, ipaBegin, attrs, unmap, flush, Spans(count, level + 1));
              MapList(es, level, 0, q.(commit := commit), old(St())) == MappedList(es', St(), ok)
    {
      var q := ToRequest(paBegin, paEnd, ipaBegin, attrs, unmap, flush, count * Span(level + 1));
      SpansIsProduct(count, level + 1);
      ok, es' := MapRoot(root, count, q.begin, q.end, q.pa, attrs, level, unmap, commit, q.(commit := commit), es);
    }

    /** Prepares, then commits. The commit never fails. */
    method PtableUpdate(root: nat, count: nat, level: nat, paBegin: nat, paEnd: nat, ipaBegin: nat, attrs: Attrs,
                        unmap: bool,
                        ghost es: Entries)
      returns (ok: bool, ghost es': Entries)
      requires Holding(mem, pool, root, es, count * PTES, level) && 0 < count <= PTES
      requires GoodRequest(ToRequest(paBegin, paEnd, ipaBegin, attrs, unmap, flush, Spans(count, level + 1)))
      modifies this`mem, this`pool, this`log
      ensures Holding(mem, pool, root, es', count * PTES, level) && Kept(old(mem), old(pool), mem, pool, root, es, es')
      ensures var q := ToRequest(paBegin, paEnd, ipaBegin, attrs, unmap, flush, Spans(count, level + 1));
              Update(es, level, q, old(St())) == Updated(es', St(), if ok then Done else Refused)
    {
      ghost var q := ToRequest(paBegin, paEnd, ipaBegin, attrs, unmap, flush, Spans(count, level + 1));
      CommitSucceeds(es, level, q, St());
      ok, es' := PtableMap(root, count, level, paBegin, paEnd, ipaBegin, attrs, unmap, false, es);
      if !ok {
        return;
      }
      ghost var mem0, pool0, es0 := mem, pool, es';
      ok, es' := PtableMap(root, count, level, paBegin, paEnd, ipaBegin, attrs, unmap, true, es');
      KeptTwice(old(mem), old(pool), mem0, pool0, mem, pool, root, es, es0, es');
      assert ok;
    }

    /** Defragments every entry of the root tables. */
    method PtableDefrag(root: nat, count: nat, level: nat, ghost es: Entries) returns (ghost cur: Entries)
      requires Holding(mem, pool, root, es, count * PTES, level)
      modifies this`mem, this`pool, this`log
      ensures Holding(mem, pool, root, cur, count * PTES, level) && Kept(old(mem), old(pool), mem, pool, root, es, cur)
      ensures DefragList(es, level, 0, flush, old(St())) == DefraggedList(cur, St())
    {
      cur := es;
      ghost var r := DefragList(es, level, 0, flush, St());
      var n, i, at: nat := count * PTES, 0, 0;
      while i < n
        invariant i <= n && at == Spans(i, level) && Aligned(at, Span(level))
        invariant Holding(mem, pool, root, cur, n, level) && Kept(old(mem), old(pool), mem, pool, root, es, cur)
        invariant DefragContinues(r, cur, i, level, at, flush, St())
      {
        var pte;
        pte, cur := DefragNext(at, root, i, level, cur, n, r, es, old(mem), old(pool));
        at := Advance(at, Span(level), at);
        i := i + 1;
      }
      DropAll(cur, n, level);
      DefragEnds(r, cur, n, level, at, flush, St());
    }

    /** Allocates the root tables and makes all their entries absent. */
    method PtableInit(count: nat, level: nat) returns (root: Option<nat>)
      requires Valid(pool) && 0 < count && (forall x :: Occurs(pool, x) <= 1)
      modifies this`mem, this`pool
      ensures Init(count, old(pool)) == Created(root, pool)
      ensures root.None? ==> mem == old(mem)
      ensures root.Some? ==> Holding(mem, pool, root.value, Absents(count * PTES), count * PTES, level)
      ensures root.Some? ==> forall x :: x in old(mem) && x != root.value ==> x in mem && mem[x] == old(mem)[x]
    {
      var a := if count == 1 then Alloc(pool) else AllocContiguous(pool, count, count);
      pool, root := a.pool, a.ptr;
      if root.None? {
        return;
      }
      var n := count * PTES;
      var tables, j := [], 0;
      while j < n
        invariant j <= n && RepList(map[], tables, Absents(j))
      {
        tables := [RawAbsent] + tables;
        j := j + 1;
      }
      mem := mem[root.value := tables];
      NewRootHeld(mem, tables, root.value, n, level, old(pool), pool, count);
    }

    /** Frees every table below the root entries, then the root tables. */
    method PtableFini(root: nat, count: nat, level: nat, ghost es: Entries)
      requires Holding(mem, pool, root, es, count * PTES, level)
      modifies this`mem, this`pool
      ensures FreeList(es, old(pool)).entrySize > 0 && pool == PageTable.Fini(es, root, count, old(pool))
      ensures forall x :: x in old(mem) && Total(root, es, old(pool), x) == 0 ==> x in mem && mem[x] == old(mem)[x]
    {
      var n, i := count * PTES, 0;
      RepLength(mem, mem[root], es, n, level);
      assert mem[root][0..] == mem[root];
      assert Total(root, es, pool, root) <= 1;
      forall x ensures HoldsList(es, x) <= 1 {
        assert Total(root, es, pool, x) <= 1;
      }
      FreeListConserves(es, pool, 0);
      while i < n
        invariant 0 <= i <= n && root in mem && |mem[root]| == n
        invariant FreeList(Drop(es, i), pool) == FreeList(es, old(pool))
        invariant RepList(mem, mem[root][i..], Drop(es, i)) && WithoutFront(old(mem), mem, es, Drop(es, i))
      {
        ghost var m := mem;
        ghost var d := Drop(es, i);
        ShapedAt(es, n, level, i);
        forall x ensures Holds(d.head, x) <= 1 {
          HoldsAt(es, i, x);
        }
        FreePagePte(mem[root][i], level, d.head);
        DropNext(es, i);
        FreedOne(old(mem), m, mem, es, i, root);
        i := i + 1;
      }
      pool := AddChunk(pool, root, PAGE_SIZE * count).pool;
      mem := mem - {root};
    }
  }

  lemma {:induction false} AbsentsRep(m: Tables, m': Tables, s: seq<RawPte>, n: nat)
    requires RepList(m, s, Absents(n))
    ensures RepList(m', s, Absents(n))
    decreases n
  {
    if n > 0 {
      AbsentsRep(m, m', s[1..], n - 1);
    }
  }

  /** After the last entry of a table. */
  lemma DefragDone(r: DefraggedList, cur: Entries, level: nat, at: nat, flush: bool, st: State)
    requires ShapedList(cur, PTES, level) && DefragContinues(r, cur, PTES, level, at, flush, st)
    ensures r == DefraggedList(cur, st) && cur.Cons? && (MergesUpTo(cur, PTES) <==> Mergeable(cur.head, cur.tail))
  {
    DropAll(cur, PTES, level);
    DefragEnds(r, cur, PTES, level, at, flush, st);
    ShapedAt(cur, PTES, level, 0);
    DropAll(cur.tail, PTES - 1, level);
    SpliceDrop(cur.tail, PTES - 1);
  }

  /** After a prepare that succeeds the commit does. */
  lemma CommitSucceeds(es: Entries, level: nat, q: Request, st: State)
    ensures !Update(es, level, q, st).result.Panicked?
  {
    var p := Prepare(es, level, q, st);
    if p.ok {
      PreparedCommitsSucceed(es, level, [q], [q], st, p.st, 0);
      PrepareOne(es, level, q, st, p.st);
    }
  }

  lemma PrepareOne(es: Entries, level: nat, q: Request, st: State, later: State)
    requires Prepare(es, level, q, st).ok
    ensures var p := PrepareAll(es, level, [q], st);
            p.ok && p.entries == Prepare(es, level, q, st).entries
    ensures CommitAll(Prepare(es, level, q, st).entries, level, [q], later).ok ==>
            Commit(Prepare(es, level, q, st).entries, level, q, later).ok
  {
    assert [q][1..] == [];
  }

  /** The root tables, fresh out of the pool. */
  lemma NewRootHeld(m: Tables, tables: seq<RawPte>, root: nat, n: nat, level: nat, pool: Pool, pool1: Pool, count: nat)
    requires Valid(pool) && count > 0 && Init(count, pool) == Created(Some(root), pool1)
        && (forall x :: Occurs(pool, x) <= 1)
    requires root in m && m[root] == tables && RepList(map[], tables, Absents(n))
    ensures Holding(m, pool1, root, Absents(n), n, level)
  {
    AbsentsRep(map[], m, tables, n);
    AbsentsShaped(n, level);
    NewRootApart(root, n, pool, pool1, count);
  }

  lemma NewRootApart(root: nat, n: nat, pool: Pool, pool1: Pool, count: nat)
    requires Valid(pool) && count > 0 && Init(count, pool) == Created(Some(root), pool1)
        && (forall x :: Occurs(pool, x) <= 1)
    ensures Apart(root, Absents(n), pool1)
  {
    AllocConserves(pool, 0);
    AllocContiguousConserves(pool, count, count, 0);
    LeavesHoldNothing(Absents(n), n, 0, 0, NO_ATTRS, pool.entrySize, 0);
    forall x ensures Total(root, Absents(n), pool1, x) <= 1 {
      LeavesHoldNothing(Absents(n), n, 0, 0, NO_ATTRS, pool.entrySize, x);
      RootTaken(root, pool, pool1, count, x);
    }
  }

  lemma RootTaken(root: nat, pool: Pool, pool1: Pool, count: nat, x: nat)
    requires Valid(pool) && count > 0 && Init(count, pool) == Created(Some(root), pool1) && Occurs(pool, x) <= 1
    ensures Occurs(pool1, x) + One(x == root) <= 1
  {
    AllocConserves(pool, x);
    AllocContiguousConserves(pool, count, count, x);
    if count > 1 && x == root {
      MulGap(0, count, pool.entrySize);
      RunMembers(root, root + count * pool.entrySize, pool.entrySize, root);
    }
  }

  /** An entry whose table has been worked on, in the world of its own table. */
  lemma BelowApart(table: nat, es: Entries, i: nat, n: nat, level: nat, pool: Pool, pool1: Pool, e: Pte, e1: Pte)
    requires Apart(table, es, pool) && ShapedList(es, n, level) && i < n && Drop(es, i).Cons? && e == Drop(es, i).head
    requires e.Table? && e1.Table? && e1.addr == e.addr && level > 0 && ShapedList(e1.entries, PTES, level - 1)
    requires Apart(e1.addr, e1.entries, pool1) && pool1.entrySize == pool.entrySize
    requires forall x :: Total(e.addr, e1.entries, pool1, x) == Total(e.addr, e.entries, pool, x)
    ensures Apart(table, SetAt(es, i, e1), pool1) && ShapedList(SetAt(es, i, e1), n, level)
    ensures forall x :: Total(table, SetAt(es, i, e1), pool1, x) == Total(table, es, pool, x)
  {
    PlacedAt(es, i, pool.entrySize);
    PlacedSet(es, i, e1, pool.entrySize);
    ShapedSet(es, n, level, i, e1);
    forall x ensures Total(table, SetAt(es, i, e1), pool1, x) == Total(table, es, pool, x) {
      HoldsSet(es, i, e1, x);
      assert Total(e.addr, e1.entries, pool1, x) == Total(e.addr, e.entries, pool, x);
    }
  }

  /** The parameters that every step of a request passes on. */
  ghost predicate Asks(q: Request, attrs: Attrs, unmap: bool, commit: bool, flush: bool) {
    q == Request(q.begin, q.end, q.pa, attrs, unmap, commit, flush) && GoodRequest(q)
  }

  /** The part of a request that starts in the `span` pages from `base` on. */
  ghost predicate PartOf(q: Request, begin: nat, end: nat, pa: nat, base: nat, span: nat) {
    && begin == Max(base, q.begin) && pa == FrameFor(q, begin)
    && (end == q.end || base + span <= end <= q.end)
  }

  /** The table at `table` holds the entries, apart from everything free. */
  ghost predicate Holding(m: Tables, pool: Pool, table: nat, es: Entries, n: nat, level: nat) {
    table in m && RepList(m, m[table], es) && ShapedList(es, n, level) && Apart(table, es, pool)
  }

  /** Since the start, no page has appeared or vanished, and no page of anyone
      else has changed. */
  ghost predicate Kept(m0: Tables, pool0: Pool, m: Tables, pool: Pool, table: nat, es: Entries, cur: Entries) {
    && pool.entrySize == pool0.entrySize
    && (forall x :: Total(table, cur, pool, x) == Total(table, es, pool0, x))
    && OthersUnchanged(m0, m, table, es, pool0)
  }

  lemma KeptTwice(m0: Tables, pool0: Pool, m1: Tables, pool1: Pool, m2: Tables, pool2: Pool, table: nat, es0: Entries,
                  es1: Entries, es2: Entries)
    requires Kept(m0, pool0, m1, pool1, table, es0, es1) && Kept(m1, pool1, m2, pool2, table, es1, es2)
    ensures Kept(m0, pool0, m2, pool2, table, es0, es2)
  {
  }

  /** Where a loop over a table of `limit` entries stands: entry `index` starts
      at page `at`. */
  ghost predicate Place(q: Request, level: nat, base: nat, index: nat, limit: nat, at: nat, begin: nat, end: nat,
                        pa: nat) {
    && index <= limit && at == base + Spans(index, level) && Aligned(at, Span(level))
    && end <= q.end && end <= base + Spans(limit, level) && (end == q.end || end == base + Spans(limit, level))
    && (begin < end ==> index < limit && Touches(q, level, at) && begin == Max(at, q.begin))
    && (begin >= end ==> q.end <= at || index == limit)
    && q.begin <= begin && pa == FrameFor(q, begin)
  }

  lemma PlaceNext(q: Request, level: nat, base: nat, index: nat, limit: nat, at: nat, begin: nat, end: nat, pa: nat)
    requires Place(q, level, base, index, limit, at, begin, end, pa) && begin < end
    ensures PartOf(q, begin, end, pa, at, Span(level))
    ensures var next := at + Span(level);
            begin < next && Place(q, level, base, index + 1, limit, next, next, end, pa + (next - begin))
  {
    SpansMonotone(index + 1, limit, level);
    AlignedSum(at, Span(level), Span(level));
    var next := at + Span(level);
    assert next == base + Spans(index + 1, level);
    if index + 1 < limit {
      SpansMonotone(index + 2, limit, level);
    }
  }

  /** When the loop over a table stops, the table or the request is exhausted. */
  lemma FillEnds(r: MappedList, cur: Entries, first: nat, index: nat, n: nat, level: nat, base: nat, at: nat,
                 begin: nat, end: nat, pa: nat, q: Request, st: State)
    requires Place(q, level, base, index, PTES, at, begin, end, pa) && begin >= end
    requires first + PTES <= n && ShapedList(cur, n, level) && Continues(r, cur, first + index, level, at, q, st)
    ensures q.end > base + Spans(PTES, level) ==> Continues(r, cur, first + PTES, level, base + Spans(PTES, level), q,
        st)
    ensures q.end <= base + Spans(PTES, level) || first + PTES == n ==> r == MappedList(cur, st, true)
  {
    SpansMonotone(index, PTES, level);
    if q.end <= at {
      MapEnds(r, cur, first + index, level, at, q, st);
    } else if first + PTES == n {
      DropAll(cur, n, level);
      MapEnds(r, cur, first + index, level, at, q, st);
    }
  }

  lemma {:induction false} EmptyRequest(es: Entries, level: nat, base: nat, q: Request, st: State)
    requires q.begin >= q.end
    ensures MapList(es, level, base, q, st) == MappedList(es, st, true)
    decreases es
  {
    if es.Cons? {
      EmptyRequest(es.tail, level, base + Span(level), q, st);
    }
  }

  /** The root tables before the one the request starts in are passed over. */
  lemma RootSkips(r: MappedList, es: Entries, index: nat, level: nat, q: Request, st: State)
    requires r == MapList(es, level, 0, q, st) && Spans(index, level + 1) <= q.begin
    ensures Continues(r, es, index * PTES, level, Spans(index, level + 1), q, st)
  {
    SpansIsProduct(index, level + 1);
    SpansIsProduct(index * PTES, level);
    ProductAssoc(index, PTES, Span(level));
    MapStarts(es, index * PTES, level, 0, q, st);
  }

  /** The index of the entry for a page, and the end of the table it is in. */
  method Locate(page: nat, level: nat, ghost base: nat) returns (index: nat, levelEnd: nat)
    requires Aligned(base, Span(level + 1)) && base <= page < base + Span(level + 1)
    ensures index < PTES && base + Spans(index, level) <= page < base + Spans(index, level) + Span(level)
    ensures levelEnd == base + Spans(PTES, level) == base + Span(level + 1)
    ensures Aligned(base + Spans(index, level), Span(level))
  {
    index := IndexAt(page, level);
    levelEnd := LevelEnd(page, level);
    IndexSelects(page, base, level);
    AlignedFactor(base, PTES, Span(level));
    SpansAligned(base, index, level);
  }

  /** The root table for a page of the address space. */
  method LocateRoot(page: nat, level: nat, count: nat) returns (index: nat)
    requires page < Spans(count, level + 1) && count <= PTES
    ensures index < count && Spans(index, level + 1) <= page < Spans(index, level + 1) + Span(level + 1)
    ensures Aligned(Spans(index, level + 1), Span(level + 1))
  {
    SpansMonotone(count, PTES, level + 1);
    TableSpan(level + 2);
    index := IndexAt(page, level + 1);
    IndexSelects(page, 0, level + 1);
    SpansAligned(0, index, level + 1);
    if index >= count {
      SpansMonotone(count, index, level + 1);
    }
  }

  method Advance(page: nat, size: nat, ghost base: nat) returns (next: nat)
    requires size > 0 && Aligned(base, size) && base <= page < base + size
    ensures next == base + size && Aligned(next, size)
  {
    NextBlock(page, base, size);
    AlignedSum(base, size, size);
    next := StartOfNextBlock(page, size);
  }

  lemma {:induction false} DropAll(es: Entries, n: nat, level: nat)
    requires ShapedList(es, n, level)
    ensures Drop(es, n).Nil?
    decreases es
  {
    if es.Cons? {
      DropAll(es.tail, n - 1, level);
    }
  }

  /** Memory after an entry has been given a table. */
  lemma PopulatedRep(m: Tables, m1: Tables, table: nat, es: Entries, i: nat, level: nat, pool: Pool, nt: nat, e: Pte,
                     t: Pte)
    requires table in m && i < |m[table]| && RepList(m, m[table], es) && Apart(table, es, pool)
    requires Drop(es, i).Cons? && e == Drop(es, i).head && t.Table? && t.addr == nt && Rep(m, m[table][i], e)
    requires if e.Table? then t == e && m1 == m
             else
               && Alloc(pool).ptr == Some(nt) && nt in m1 && nt != table && Rep(m1, RawTable(nt), t)
               && m1 == m[nt := m1[nt]][table := m[table][i := RawTable(nt)]]
    ensures table in m1 && m1[table] == m[table][i := RawTable(nt)]
    ensures RepList(m1, m1[table], SetAt(es, i, t)) && nt in m1 && RepList(m1, m1[nt], t.entries)
    ensures OthersUnchanged(m, m1, table, es, pool)
  {
    EntryApart(table, es, i, pool);
    if e.Table? {
      SetSame(es, i);
      assert m[table][i := RawTable(nt)] == m[table];
    } else {
      AllocConserves(pool, nt);
      assert Total(table, es, pool, nt) <= 1;
      RepReplace(m, m1, m[table], es, i, RawTable(nt), t);
    }
  }

  /** Memory after the table below an entry has been worked on. */
  lemma BelowRep(m: Tables, m': Tables, table: nat, es: Entries, i: nat, pool: Pool, t: Pte, below: Entries)
    requires table in m && i < |m[table]| && RepList(m, m[table], es) && Apart(table, es, pool)
    requires Drop(es, i).Cons? && t == Drop(es, i).head && t.Table? && m[table][i] == RawTable(t.addr)
    requires OthersUnchanged(m, m', t.addr, t.entries, pool) && t.addr in m' && RepList(m', m'[t.addr], below)
    ensures table in m' && m'[table] == m[table] && RepList(m', m'[table], SetAt(es, i, Table(t.addr, below)))
    ensures OthersUnchanged(m, m', table, es, pool)
  {
    EntryApart(table, es, i, pool);
    assert Total(t.addr, t.entries, pool, table) == 0;
    forall x | x in m && HoldsList(es, x) > 0 && Holds(t, x) == 0 ensures x in m' && m'[x] == m[x] {
      assert Total(table, es, pool, x) <= 1;
      assert Total(t.addr, t.entries, pool, x) == 0;
    }
    RepReplace(m, m', m[table], es, i, RawTable(t.addr), Table(t.addr, below));
    assert m[table][i := RawTable(t.addr)] == m[table];
    forall x | x in m && Total(table, es, pool, x) == 0 ensures x in m' && m'[x] == m[x] {
      assert Total(t.addr, t.entries, pool, x) == 0;
    }
  }

  /** The new table comes out of the pool into the tree. */
  lemma PopulatedApart(table: nat, es: Entries, i: nat, level: nat, pool: Pool, pool1: Pool, e: Pte, t: Pte)
    requires Apart(table, es, pool) && Drop(es, i).Cons? && e == Drop(es, i).head && level > 0 && t.Table?
    requires if e.Table? then t == e && pool1 == pool
             else Alloc(pool) == Allocated(Some(t.addr), pool1) && t.entries == Split(e, level)
    ensures Apart(table, SetAt(es, i, t), pool1) && Apart(t.addr, t.entries, pool1)
    ensures forall x :: Total(table, SetAt(es, i, t), pool1, x) == Total(table, es, pool, x)
  {
    PlacedAt(es, i, pool.entrySize);
    PopulatedCount(level, pool, pool1, e, t, 0);
    PlacedSet(es, i, t, pool.entrySize);
    forall x
      ensures Total(table, SetAt(es, i, t), pool1, x) == Total(table, es, pool, x)
      ensures Total(t.addr, t.entries, pool1, x) <= 1
    {
      HoldsSet(es, i, t, x);
      HoldsAt(es, i, x);
      PopulatedCount(level, pool, pool1, e, t, x);
      assert Total(table, es, pool, x) <= 1;
    }
  }

  lemma PopulatedCount(level: nat, pool: Pool, pool1: Pool, e: Pte, t: Pte, x: nat)
    requires Valid(pool) && Placed(e, pool.entrySize) && level > 0 && t.Table?
    requires if e.Table? then t == e && pool1 == pool
             else Alloc(pool) == Allocated(Some(t.addr), pool1) && t.entries == Split(e, level)
    ensures Valid(pool1) && pool1.entrySize == pool.entrySize && Placed(t, pool.entrySize)
    ensures Holds(t, x) + Occurs(pool1, x) == Holds(e, x) + Occurs(pool, x)
  {
    if !e.Table? {
      AllocConserves(pool, x);
      SplitHoldsNothing(e, level, pool.entrySize, x);
    }
  }

  lemma {:induction false} SetSame(es: Entries, i: nat)
    requires Drop(es, i).Cons?
    ensures SetAt(es, i, Drop(es, i).head) == es
  {
    if i > 0 {
      SetSame(es.tail, i - 1);
    }
  }

  /** One entry in the world of its table. */
  lemma EntryApart(table: nat, es: Entries, i: nat, pool: Pool)
    requires Apart(table, es, pool) && Drop(es, i).Cons?
    ensures var e := Drop(es, i).head;
            && Sole(e) && SoleList(es) && Holds(e, table) == 0 && Occurs(pool, table) == 0
            && HoldsList(es, table) == 0 && Placed(e, pool.entrySize)
            && forall x :: Holds(e, x) <= HoldsList(es, x)
  {
    PlacedAt(es, i, pool.entrySize);
    forall x ensures Holds(Drop(es, i).head, x) <= HoldsList(es, x) <= 1 {
      HoldsAt(es, i, x);
      assert Total(table, es, pool, x) <= 1;
    }
    assert Total(table, es, pool, table) <= 1;
  }

  /** The entries of a new table: the block cut into smaller ones, or nothing. */
  method NewEntries(v: RawPte, level: nat, ghost e: Pte) returns (entries: seq<RawPte>)
    requires level > 0 && !v.RawTable? && Rep(map[], v, e)
    ensures RepList(map[], entries, Split(e, level))
  {
    var inc := if v.RawBlock? then Span(level - 1) else 0;
    var pte := v;
    entries := [];
    ghost var es := Split(e, level);
    var i := 0;
    while i < PTES
      invariant 0 <= i <= PTES && RepList(map[], entries, Splice(es, i, Nil))
      invariant if v.RawBlock? then pte.RawBlock? && pte.attrs == v.attrs else pte == RawAbsent
      invariant Drop(es, i) == if v.RawBlock? then Blocks(PTES - i, pte.pa, inc, v.attrs) else Absents(PTES - i)
    {
      RepSnoc(map[], entries, es, i, pte);
      DropNext(es, i);
      entries := entries + [pte];
      if pte.RawBlock? {
        pte := RawBlock(pte.pa + inc, pte.attrs);
      }
      i := i + 1;
    }
    SpliceDrop(es, PTES);
  }

  /** The entries of a new table refer to no other page. */
  lemma LeavesRep(m: Tables, m': Tables, s: seq<RawPte>, e: Pte, level: nat)
    requires level > 0 && !e.Table? && RepList(m, s, Split(e, level))
    ensures RepList(m', s, Split(e, level))
  {
    forall x ensures HoldsList(Split(e, level), x) == 0 {
      SplitHoldsNothing(e, level, 1, x);
    }
    RepListFrame(m, m', s, Split(e, level));
  }
}
