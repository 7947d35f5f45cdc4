/** Copying between ranges that may overlap. */
module MemMove {
  import opened Arith
  import opened MemCopy
  import opened MemSet
  import opened MemWords

  // ---------------------------------------------------------------- the overlap test

  function Sub64(a: nat, b: nat): (r: nat)
    requires a < UINT64 && b < UINT64
    ensures r < UINT64
  {
    if a >= b then a - b else a + UINT64 - b
  }

  function Double64(a: nat): (r: nat)
    requires a < UINT64
  {
    if 2 * a >= UINT64 then 2 * a - UINT64 else 2 * a
  }

  /** One unsigned comparison, meant to tell whether the ranges are apart. */
  predicate TestsApart(d: nat, s: nat, n: nat)
    requires d < UINT64 && s < UINT64 && n < UINT64
  {
    Sub64(Sub64(s, d), n) <= Double64(Sub64(0, n))
  }

  predicate Apart(d: nat, s: nat, n: nat) {
    d + n <= s || s + n <= d
  }

  /** For ranges inside the address space the test is right if and only if they
      are at most half of it; longer ones always overlap and always pass. */
  lemma OverlapTestExact(d: nat, s: nat, n: nat)
    requires d < UINT64 && s < UINT64 && n < UINT64 && d != s && d + n <= UINT64 && s + n <= UINT64 && n > 0
    ensures (TestsApart(d, s, n) <==> Apart(d, s, n)) <==> n <= UINT64 / 2
    ensures n > UINT64 / 2 ==> TestsApart(d, s, n) && !Apart(d, s, n)
  {
  }

  // ---------------------------------------------------------------- words

  method Load64(mem: array<bv8>, at: nat, ghost q: nat) returns (w: bv64)
    requires at == 8 * q && at + 8 <= mem.Length
    ensures w == Long(WordAt(mem[at..at + 8], 0), WordAt(mem[at..at + 8], 4))
  {
    w := Long(Word(mem[at], mem[at + 1], mem[at + 2], mem[at + 3]), Word(mem[at + 4], mem[at + 5], mem[at + 6],
        mem[at + 7]));
  }

  method Store64(mem: array<bv8>, at: nat, w: bv64, ghost b: seq<bv8>, ghost q: nat)
    requires at == 8 * q && at + 8 <= mem.Length && |b| == 8 && w == Long(WordAt(b, 0), WordAt(b, 4))
    modifies mem
    ensures forall i :: 0 <= i < mem.Length ==> mem[i] == if at <= i < at + 8 then b[i - at] else old(mem[i])
  {
    LongHalves(WordAt(b, 0), WordAt(b, 4));
    WordBytes(b[0], b[1], b[2], b[3]);
    WordBytes(b[4], b[5], b[6], b[7]);
    Store32(mem, at, LowHalf(w), 2 * q);
    Store32(mem, at + 4, HighHalf(w), 2 * q + 1);
  }

  // ---------------------------------------------------------------- from below

  /** The first `j` of `n` bytes have been moved down. */
  ghost predicate Rising(m: seq<bv8>, o: seq<bv8>, d: nat, s: nat, n: nat, j: nat) {
    j <= n && d < s && s + n <= |o| && Copied(m, o, d, s, j)
  }

  method MoveByteUp(mem: array<bv8>, d: nat, s: nat, j: nat, ghost o: seq<bv8>, ghost n: nat)
    requires Rising(mem[..], o, d, s, n, j) && j < n
    modifies mem
    ensures Rising(mem[..], o, d, s, n, j + 1)
  {
    ghost var m := mem[..];
    assert m[s + j] == o[s + j];
    mem[d + j] := mem[s + j];
    assert forall i :: 0 <= i < |o| && i != d + j ==> mem[..][i] == m[i];
  }

  method MoveLongUp(mem: array<bv8>, d: nat, s: nat, j: nat, ghost qd: nat, ghost qs: nat, ghost o: seq<bv8>,
                    ghost n: nat)
    requires Rising(mem[..], o, d, s, n, j) && j + 8 <= n && d + j == 8 * qd && s + j == 8 * qs
    modifies mem
    ensures Rising(mem[..], o, d, s, n, j + 8)
  {
    ghost var m := mem[..];
    ghost var b := mem[s + j..s + j + 8];
    assert forall k :: 0 <= k < 8 ==> b[k] == m[s + j + k];
    var w := Load64(mem, s + j, qs);
    Store64(mem, d + j, w, b, qd);
    forall i | 0 <= i < |o| ensures mem[..][i] == if d <= i < d + (j + 8) then o[s + (i - d)] else o[i] {
      if d + j <= i < d + j + 8 {
        assert b[i - (d + j)] == m[s + j + (i - (d + j))];
      } else {
        assert mem[..][i] == m[i];
      }
    }
  }

  method MoveUp(mem: array<bv8>, d: nat, s: nat, n: nat)
    requires d < s && s + n <= mem.Length
    modifies mem
    ensures Copied(mem[..], old(mem[..]), d, s, n)
  {
    ghost var o := mem[..];
    var j := 0;
    if s % 8 == d % 8 {
      while (d + j) % 8 != 0
        invariant Rising(mem[..], o, d, s, n, j)
        decreases n - j
      {
        if n - j == 0 {
          return;
        }
        MoveByteUp(mem, d, s, j, o, n);
        j := j + 1;
      }
      j := MoveLongsUp(mem, d, s, j, (d + j) / 8, (s + j) / 8, o, n);
    }
    while j < n
      invariant Rising(mem[..], o, d, s, n, j)
    {
      MoveByteUp(mem, d, s, j, o, n);
      j := j + 1;
    }
  }

  method MoveLongsUp(mem: array<bv8>, d: nat, s: nat, j0: nat, ghost qd: nat, ghost qs: nat, ghost o: seq<bv8>, n: nat)
    returns (j: nat)
    requires Rising(mem[..], o, d, s, n, j0) && d + j0 == 8 * qd && s + j0 == 8 * qs
    modifies mem
    ensures Rising(mem[..], o, d, s, n, j)
  {
    j := j0;
    ghost var k := 0;
    while n - j >= 8
      invariant j == j0 + 8 * k && Rising(mem[..], o, d, s, n, j)
      decreases n - j
    {
      MoveLongUp(mem, d, s, j, qd + k, qs + k, o, n);
      j := j + 8;
      k := k + 1;
    }
  }

  // ---------------------------------------------------------------- from above

  /** All but the first `j` of `n` bytes have been moved up. */
  ghost predicate Falling(m: seq<bv8>, o: seq<bv8>, d: nat, s: nat, n: nat, j: nat) {
    && j <= n && s < d && d + n <= |o| && |m| == |o|
    && forall i {:trigger m[i]} :: 0 <= i < |o| ==> m[i] == if d + j <= i < d + n then o[s + (i - d)] else o[i]
  }

  method MoveByteDown(mem: array<bv8>, d: nat, s: nat, j: nat, ghost o: seq<bv8>, ghost n: nat)
    requires Falling(mem[..], o, d, s, n, j) && j > 0
    modifies mem
    ensures Falling(mem[..], o, d, s, n, j - 1)
  {
    ghost var m := mem[..];
    assert m[s + j - 1] == o[s + j - 1];
    mem[d + j - 1] := mem[s + j - 1];
    assert forall i :: 0 <= i < |o| && i != d + j - 1 ==> mem[..][i] == m[i];
  }

  method MoveLongDown(mem: array<bv8>, d: nat, s: nat, j: nat, ghost qd: nat, ghost qs: nat, ghost o: seq<bv8>,
                      ghost n: nat)
    requires Falling(mem[..], o, d, s, n, j + 8) && d + j == 8 * qd && s + j == 8 * qs
    modifies mem
    ensures Falling(mem[..], o, d, s, n, j)
  {
    ghost var m := mem[..];
    ghost var b := mem[s + j..s + j + 8];
    assert forall k :: 0 <= k < 8 ==> b[k] == m[s + j + k];
    var w := Load64(mem, s + j, qs);
    Store64(mem, d + j, w, b, qd);
    forall i | 0 <= i < |o| ensures mem[..][i] == if d + j <= i < d + n then o[s + (i - d)] else o[i] {
      if d + j <= i < d + j + 8 {
        assert b[i - (d + j)] == m[s + j + (i - (d + j))];
      } else {
        assert mem[..][i] == m[i];
      }
    }
  }

  /** Goes down to where both ends are aligned, unless everything is moved
      before. */
  method AlignDown(mem: array<bv8>, d: nat, s: nat, n: nat, ghost o: seq<bv8>)
    returns (j: nat, ghost qd: nat, ghost qs: nat)
    requires Falling(mem[..], o, d, s, n, n) && s % 8 == d % 8
    modifies mem
    ensures Falling(mem[..], o, d, s, n, j) && (j == 0 || (d + j == 8 * qd && s + j == 8 * qs))
  {
    j, qd, qs := n, 0, 0;
    while (d + j) % 8 != 0
      invariant Falling(mem[..], o, d, s, n, j)
      decreases j
    {
      if j == 0 {
        return;
      }
      MoveByteDown(mem, d, s, j, o, n);
      j := j - 1;
    }
    qd, qs := (d + j) / 8, (s + j) / 8;
  }

  method MoveDown(mem: array<bv8>, d: nat, s: nat, n: nat)
    requires s < d && d + n <= mem.Length
    modifies mem
    ensures Copied(mem[..], old(mem[..]), d, s, n)
  {
    ghost var o := mem[..];
    var j := n;
    if s % 8 == d % 8 {
      ghost var qd, qs;
      j, qd, qs := AlignDown(mem, d, s, n, o);
      if j > 0 {
        j := MoveLongsDown(mem, d, s, j, qd, qs, o, n);
      }
    }
    while j > 0
      invariant Falling(mem[..], o, d, s, n, j)
    {
      MoveByteDown(mem, d, s, j, o, n);
      j := j - 1;
    }
    FallenIsCopied(mem[..], o, d, s, n);
  }

  lemma FallenIsCopied(m: seq<bv8>, o: seq<bv8>, d: nat, s: nat, n: nat)
    requires Falling(m, o, d, s, n, 0)
    ensures Copied(m, o, d, s, n)
  {
  }

  method MoveLongsDown(mem: array<bv8>, d: nat, s: nat, j0: nat, ghost qd: nat, ghost qs: nat, ghost o: seq<bv8>,
                       ghost n: nat)
    returns (j: nat)
    requires Falling(mem[..], o, d, s, n, j0) && d + j0 == 8 * qd && s + j0 == 8 * qs
    modifies mem
    ensures Falling(mem[..], o, d, s, n, j)
  {
    j := j0;
    ghost var k := 0;
    while j >= 8
      invariant j + 8 * k == j0 && k <= qd && k <= qs && Falling(mem[..], o, d, s, n, j)
      decreases j
    {
      j := j - 8;
      k := k + 1;
      MoveLongDown(mem, d, s, j, qd - k, qs - k, o, n);
    }
  }

  // ---------------------------------------------------------------- memmove

  /** Copies as if through a buffer, however the ranges overlap. */
  method Memmove(mem: array<bv8>, d: nat, s: nat, n: nat)
    requires mem.Length <= UINT64 && d + n <= mem.Length && s + n <= mem.Length
    requires d < UINT64 && s < UINT64 && n <= UINT64 / 2
    modifies mem
    ensures Copied(mem[..], old(mem[..]), d, s, n)
  {
    if d == s {
      return;
    }
    if n > 0 {
      OverlapTestExact(d, s, n);
    }
    if TestsApart(d, s, n) {
      Memcpy(mem, d, s, n);
    } else if d < s {
      MoveUp(mem, d, s, n);
    } else {
      MoveDown(mem, d, s, n);
    }
  }
}
