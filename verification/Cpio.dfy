/** The cpio reader as it walks over the bytes of an archive. */
module Cpio {
  import opened Arith
  import opened CpioSpec

  /** Addresses are 64-bit numbers. */
  /** A range of the bytes of the archive, from `next` up to `limit`; the archive
      begins at address `base`. */
  class MemIter {
    const base: nat
    var next: nat
    var limit: nat

    constructor (base: nat, data: nat, size: nat)
      ensures this.base == base && next == data && limit == data + size
    {
      this.base := base;
      next, limit := data, data + size;
    }

    method Init(data: nat, size: nat)
      modifies this`next, this`limit
      ensures next == data && limit == data + size
    {
      next, limit := data, data + size;
    }

    /** Moves on unless that would go over the limit, or around the end of the
        address space; no length is so large that it gets through. */
    method Advance(v: nat) returns (ok: bool)
      requires next <= limit && base + limit < UINT64 && v < UINT64
      modifies this`next
      ensures ok <==> old(next) + v <= limit
      ensures next == if ok then old(next) + v else old(next)
    {
      var p := base + next + v;
      if p >= UINT64 {
        p := p - UINT64;
      }
      if p < base + next || p > base + limit {
        return false;
      }
      next := p - base;
      ok := true;
    }
  }

  /** Compares two strings up to a NUL or `n` characters. */
  method Strncmp(a: seq<Byte>, i: nat, b: seq<Byte>, j: nat, n: nat) returns (r: int)
    requires Readable(a, i, b, j, n)
    ensures r == Difference(a, i, b, j, n) && (r == 0 <==> SameString(a, i, b, j, n))
  {
    var x, y: int := 0, 0;
    var k, left := 0, n;
    while left > 0
      invariant k + left == n && x == y && Readable(a, i + k, b, j + k, left)
      invariant Difference(a, i, b, j, n) == Difference(a, i + k, b, j + k, left)
    {
      x, y := a[i + k], b[j + k];
      k := k + 1;
      if x == 0 || x != y {
        return x - y;
      }
      left := left - 1;
    }
    r := x - y;
  }

  /** Reads the file at the iterator and moves the iterator past it. */
  method Next(s: seq<Byte>, iter: MemIter) returns (ok: bool, name: nat, contents: nat, size: nat, ghost nul: nat)
    requires iter.next <= iter.limit == |s| && iter.base + |s| < UINT64
    modifies iter`next
    ensures ok == Parse(s, old(iter.next)).Some?
    ensures if ok then Parse(s, old(iter.next)).value == Entry(name, nul, contents, size, iter.next)
            else iter.next == old(iter.next)
  {
    ok, name, contents, size, nul := false, 0, 0, 0, 0;
    var h := iter.next;
    var lit := new MemIter(iter.base, iter.next, iter.limit - iter.next);
    var fits := lit.Advance(HEADER);
    if !fits || U16(s, h) != MAGIC {
      return;
    }
    name := lit.next;
    var nameSize := U16(s, h + 20);
    fits := lit.Advance(Even(nameSize));
    if !fits || nameSize == 0 || s[name + nameSize - 1] != 0 {
      return;
    }
    nul := name + nameSize - 1;
    contents := lit.next;
    size := U16(s, h + 22) * 65536 + U16(s, h + 24);
    fits := lit.Advance(Even(size));
    if !fits {
      return;
    }
    ReadableToNul(s, name, TRAILER + [0], 0, |TRAILER| + 1, nul);
    var differs := Strncmp(s, name, TRAILER + [0], 0, |TRAILER| + 1);
    if differs == 0 {
      return;
    }
    iter.next := lit.next;
    ok := true;
  }

  /** Looks for a file in any bytes at all: the range it returns is inside the
      archive, and is the one of the first file of that name. */
  method GetFile(base: nat, s: seq<Byte>, name: seq<Byte>, it: MemIter) returns (ok: bool)
    requires |name| == NAME_MAX && base + |s| < UINT64
    modifies it
    ensures ok == Find(s, 0, name).Some?
    ensures ok ==> it.next <= it.limit <= |s| && Find(s, 0, name).value == (it.next, it.limit)
    ensures !ok ==> it.next == old(it.next) && it.limit == old(it.limit)
  {
    var iter := new MemIter(base, 0, |s|);
    while true
      invariant fresh(iter) && iter.base == base && iter.next <= iter.limit == |s|
      invariant Find(s, 0, name) == Find(s, iter.next, name)
      invariant it.next == old(it.next) && it.limit == old(it.limit)
      decreases |s| - iter.next
    {
      ghost var nul;
      var more, fname, contents, size;
      more, fname, contents, size, nul := Next(s, iter);
      if !more {
        return false;
      }
      ReadableToNul(s, fname, name, 0, NAME_MAX, nul);
      var differs := Strncmp(s, fname, name, 0, NAME_MAX);
      if differs == 0 {
        it.Init(contents, size);
        return true;
      }
    }
  }
}
