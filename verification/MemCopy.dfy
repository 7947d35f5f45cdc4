/** Copying memory: until the source is aligned a byte at a time, then by words,
    shifted and merged when the destination is aligned differently. */
module MemCopy {
  import opened MemSet
  import opened MemWords

  /** The memory `m` is `o` with `j` bytes copied from `s` to `d`. */
  ghost predicate Copied(m: seq<bv8>, o: seq<bv8>, d: nat, s: nat, j: nat) {
    && |m| == |o| && s + j <= |o|
    && forall i {:trigger m[i]} :: 0 <= i < |o| ==> m[i] == if d <= i < d + j then o[s + (i - d)] else o[i]
  }

  /** The first `j` of `n` bytes have been copied, between ranges that do not
      overlap. */
  ghost predicate Copying(m: seq<bv8>, o: seq<bv8>, d: nat, s: nat, n: nat, j: nat) {
    j <= n && d + n <= |o| && s + n <= |o| && (d + n <= s || s + n <= d) && Copied(m, o, d, s, j)
  }

  function WordAt(m: seq<bv8>, at: nat): (w: bv32)
    requires at + 4 <= |m|
  {
    Word(m[at], m[at + 1], m[at + 2], m[at + 3])
  }

  /** Loads a word from where it is aligned. */
  method Load32(mem: array<bv8>, at: nat, ghost q: nat) returns (w: bv32)
    requires at == 4 * q && at + 4 <= mem.Length
    ensures w == WordAt(mem[..], at)
  {
    w := Word(mem[at], mem[at + 1], mem[at + 2], mem[at + 3]);
  }

  /** The source is still as it was. */
  lemma SourceKept(m: seq<bv8>, o: seq<bv8>, d: nat, s: nat, n: nat, j: nat, at: nat)
    requires Copying(m, o, d, s, n, j) && s <= at && at + 4 <= s + n
    ensures WordAt(m, at) == WordAt(o, at)
  {
  }

  method CopyByte(mem: array<bv8>, d: nat, s: nat, j: nat, ghost o: seq<bv8>, ghost n: nat)
    requires Copying(mem[..], o, d, s, n, j) && j < n
    modifies mem
    ensures Copying(mem[..], o, d, s, n, j + 1)
  {
    ghost var m := mem[..];
    assert m[s + j] == o[s + j];
    mem[d + j] := mem[s + j];
    assert forall i :: 0 <= i < |o| && i != d + j ==> mem[..][i] == m[i];
  }

  method CopyBytes(mem: array<bv8>, d: nat, s: nat, j: nat, count: nat, ghost o: seq<bv8>, ghost n: nat)
    requires Copying(mem[..], o, d, s, n, j) && j + count <= n
    modifies mem
    ensures Copying(mem[..], o, d, s, n, j + count)
  {
    var k := 0;
    while k < count
      invariant k <= count && Copying(mem[..], o, d, s, n, j + k)
    {
      CopyByte(mem, d, s, j + k, o, n);
      k := k + 1;
    }
  }

  /** Four bytes of the destination become four bytes of the source. */
  method PutWord(mem: array<bv8>, d: nat, s: nat, j: nat, w: bv32, ghost q: nat, ghost o: seq<bv8>, ghost n: nat)
    requires Copying(mem[..], o, d, s, n, j) && j + 4 <= n && d + j == 4 * q
    requires ByteOf(w, 0) == o[s + j] && ByteOf(w, 1) == o[s + j + 1]
    requires ByteOf(w, 2) == o[s + j + 2] && ByteOf(w, 3) == o[s + j + 3]
    modifies mem
    ensures Copying(mem[..], o, d, s, n, j + 4)
  {
    ghost var m := mem[..];
    Store32(mem, d + j, w, q);
    PutWordCopies(m, mem[..], d, s, j, o);
  }

  lemma PutWordCopies(m: seq<bv8>, m': seq<bv8>, d: nat, s: nat, j: nat, o: seq<bv8>)
    requires Copied(m, o, d, s, j) && d + j + 4 <= |o| && s + j + 4 <= |o| && |m'| == |m|
    requires m'[d + j] == o[s + j] && m'[d + j + 1] == o[s + j + 1]
    requires m'[d + j + 2] == o[s + j + 2] && m'[d + j + 3] == o[s + j + 3]
    requires forall i :: 0 <= i < |m| && !(d + j <= i < d + j + 4) ==> m'[i] == m[i]
    ensures Copied(m', o, d, s, j + 4)
  {
    forall i | 0 <= i < |o| ensures m'[i] == if d <= i < d + (j + 4) then o[s + (i - d)] else o[i] {
      if d + j <= i < d + j + 4 {
        assert i == d + j || i == d + j + 1 || i == d + j + 2 || i == d + j + 3;
      } else {
        assert m'[i] == m[i];
      }
    }
  }

  /** Copies words where both places are aligned. */
  method CopyWords(mem: array<bv8>, d: nat, s: nat, j: nat, count: nat, ghost qd: nat, ghost qs: nat,
                   ghost o: seq<bv8>, ghost n: nat)
    requires Copying(mem[..], o, d, s, n, j) && j + 4 * count <= n && d + j == 4 * qd && s + j == 4 * qs
    modifies mem
    ensures Copying(mem[..], o, d, s, n, j + 4 * count)
  {
    var k := 0;
    while k < count
      invariant k <= count && Copying(mem[..], o, d, s, n, j + 4 * k)
    {
      var at := s + j + 4 * k;
      var w := Load32(mem, at, qs + k);
      SourceKept(mem[..], o, d, s, n, j + 4 * k, at);
      WordBytes(o[at], o[at + 1], o[at + 2], o[at + 3]);
      PutWord(mem, d, s, j + 4 * k, w, qd + k, o, n);
      k := k + 1;
    }
  }

  /** Stores the word that ends one word of the source and begins the next. */
  method MergeStep(mem: array<bv8>, d: nat, s: nat, j: nat, r: nat, w: bv32, ghost qd: nat, ghost qs: nat,
                   ghost o: seq<bv8>, ghost n: nat)
    returns (x: bv32)
    requires Copying(mem[..], o, d, s, n, j) && 1 <= r <= 3 && 4 - r <= j && j + 4 + r <= n
    requires d + j == 4 * qd && s + j + r == 4 * qs && w == WordAt(o, s + j + r - 4)
    modifies mem
    ensures Copying(mem[..], o, d, s, n, j + 4) && x == WordAt(o, s + j + r)
  {
    x := Load32(mem, s + j + r, qs);
    SourceKept(mem[..], o, d, s, n, j, s + j + r);
    MergedBytes(o, s + j, r, w, x);
    PutWord(mem, d, s, j, Merge(w, x, r), qd, o, n);
  }

  lemma MergedBytes(o: seq<bv8>, s: nat, r: nat, w: bv32, x: bv32)
    requires 1 <= r <= 3 && 4 - r <= s && s + 4 + r <= |o| && w == WordAt(o, s + r - 4) && x == WordAt(o, s + r)
    ensures ByteOf(Merge(w, x, r), 0) == o[s] && ByteOf(Merge(w, x, r), 1) == o[s + 1]
    ensures ByteOf(Merge(w, x, r), 2) == o[s + 2] && ByteOf(Merge(w, x, r), 3) == o[s + 3]
  {
    WordBytes(o[s + r - 4], o[s + r - 3], o[s + r - 2], o[s + r - 1]);
    WordBytes(o[s + r], o[s + r + 1], o[s + r + 2], o[s + r + 3]);
    MergeBytes1(w, x);
    MergeBytes2(w, x);
    MergeBytes3(w, x);
  }

  /** Sixteen bytes by merged words. */
  method MergeRound(mem: array<bv8>, d: nat, s: nat, j: nat, r: nat, w: bv32, ghost qd: nat, ghost qs: nat,
                    ghost o: seq<bv8>, ghost n: nat)
    returns (y: bv32)
    requires Copying(mem[..], o, d, s, n, j) && 1 <= r <= 3 && 4 - r <= j && j + 16 + r <= n
    requires d + j == 4 * qd && s + j + r == 4 * qs && w == WordAt(o, s + j + r - 4)
    modifies mem
    ensures Copying(mem[..], o, d, s, n, j + 16) && y == WordAt(o, s + j + r + 12)
  {
    var x := MergeStep(mem, d, s, j, r, w, qd, qs, o, n);
    y := MergeStep(mem, d, s, j + 4, r, x, qd + 1, qs + 1, o, n);
    x := MergeStep(mem, d, s, j + 8, r, y, qd + 2, qs + 2, o, n);
    y := MergeStep(mem, d, s, j + 12, r, x, qd + 3, qs + 3, o, n);
  }

  /** The source is aligned, the destination is `r` bytes past a multiple of
      four: copies up to that multiple and goes on by merged words, sixteen bytes
      a round, as long as the words to read lie inside the source. */
  method CopyMerged(mem: array<bv8>, d: nat, s: nat, j0: nat, r: nat, ghost qd0: nat, ghost qs0: nat,
                    ghost o: seq<bv8>, n: nat)
    returns (j: nat)
    requires Copying(mem[..], o, d, s, n, j0) && 1 <= r <= 3 && j0 + 32 <= n
    requires d + j0 == 4 * qd0 + r && s + j0 == 4 * qs0
    modifies mem
    ensures Copying(mem[..], o, d, s, n, j) && n - j < 16 + r
  {
    var w := Load32(mem, s + j0, qs0);
    SourceKept(mem[..], o, d, s, n, j0, s + j0);
    CopyBytes(mem, d, s, j0, 4 - r, o, n);
    j := j0 + 4 - r;
    ghost var qd, qs := qd0 + 1, qs0 + 1;
    while n - j >= 16 + r
      invariant j0 + 4 - r <= j && j + r <= n && Copying(mem[..], o, d, s, n, j)
      invariant d + j == 4 * qd && s + j + r == 4 * qs && w == WordAt(o, s + j + r - 4)
      decreases n - j
    {
      w := MergeRound(mem, d, s, j, r, w, qd, qs, o, n);
      j := j + 16;
      qd, qs := qd + 4, qs + 4;
    }
  }

  function Value(on: bool, bit: nat): (v: nat) {
    if on then bit else 0
  }

  /** The five binary digits of a number. */
  method LowBits(n: nat) returns (b16: bool, b8: bool, b4: bool, b2: bool, b1: bool)
    requires n < 32
    ensures n == Value(b16, 16) + Value(b8, 8) + Value(b4, 4) + Value(b2, 2) + Value(b1, 1)
  {
    var r := n;
    b16 := r >= 16;
    r := r - Value(b16, 16);
    b8 := r >= 8;
    r := r - Value(b8, 8);
    b4 := r >= 4;
    r := r - Value(b4, 4);
    b2 := r >= 2;
    r := r - Value(b2, 2);
    b1 := r >= 1;
  }

  /** What is left, less than 32 bytes, by the bits of its length. */
  method CopyRest(mem: array<bv8>, d: nat, s: nat, j0: nat, ghost o: seq<bv8>, n: nat)
    requires Copying(mem[..], o, d, s, n, j0) && n - j0 < 32
    modifies mem
    ensures Copying(mem[..], o, d, s, n, n)
  {
    var b16, b8, b4, b2, b1 := LowBits(n - j0);
    var j := j0;
    if b16 {
      CopyBytes(mem, d, s, j, 16, o, n);
      j := j + 16;
    }
    if b8 {
      CopyBytes(mem, d, s, j, 8, o, n);
      j := j + 8;
    }
    if b4 {
      CopyBytes(mem, d, s, j, 4, o, n);
      j := j + 4;
    }
    if b2 {
      CopyBytes(mem, d, s, j, 2, o, n);
      j := j + 2;
    }
    if b1 {
      CopyBytes(mem, d, s, j, 1, o, n);
      j := j + 1;
    }
  }

  /** Both aligned: words throughout, then the bits of what is left. */
  method CopyAligned(mem: array<bv8>, d: nat, s: nat, j0: nat, ghost qd0: nat, ghost qs0: nat, ghost o: seq<bv8>,
                     n: nat)
    requires Copying(mem[..], o, d, s, n, j0) && d + j0 == 4 * qd0 && s + j0 == 4 * qs0
    modifies mem
    ensures Copying(mem[..], o, d, s, n, n)
  {
    var j := j0;
    ghost var qd, qs := qd0, qs0;
    while n - j >= 16
      invariant j0 <= j <= n && Copying(mem[..], o, d, s, n, j) && d + j == 4 * qd && s + j == 4 * qs
      decreases n - j
    {
      CopyWords(mem, d, s, j, 4, qd, qs, o, n);
      j := j + 16;
      qd, qs := qd + 4, qs + 4;
    }
    CopyAlignedRest(mem, d, s, j, qd, qs, o, n);
  }

  method CopyAlignedRest(mem: array<bv8>, d: nat, s: nat, j0: nat, ghost qd: nat, ghost qs: nat, ghost o: seq<bv8>,
                         n: nat)
    requires Copying(mem[..], o, d, s, n, j0) && n - j0 < 16 && d + j0 == 4 * qd && s + j0 == 4 * qs
    modifies mem
    ensures Copying(mem[..], o, d, s, n, n)
  {
    var b16, b8, b4, b2, b1 := LowBits(n - j0);
    var j := j0;
    if b8 {
      CopyWords(mem, d, s, j, 2, qd, qs, o, n);
      j := j + 8;
    }
    if b4 {
      CopyWords(mem, d, s, j, 1, if b8 then qd + 2 else qd, if b8 then qs + 2 else qs, o, n);
      j := j + 4;
    }
    if b2 {
      CopyBytes(mem, d, s, j, 2, o, n);
      j := j + 2;
    }
    if b1 {
      CopyBytes(mem, d, s, j, 1, o, n);
      j := j + 1;
    }
  }

  /** Copies `n` bytes between ranges that do not overlap and writes nothing else,
      for every length and every pair of alignments. */
  method Memcpy(mem: array<bv8>, d: nat, s: nat, n: nat)
    requires d + n <= mem.Length && s + n <= mem.Length && (d + n <= s || s + n <= d)
    modifies mem
    ensures Copied(mem[..], old(mem[..]), d, s, n)
  {
    ghost var o := mem[..];
    var j := 0;
    while (s + j) % 4 != 0 && j < n
      invariant Copying(mem[..], o, d, s, n, j)
      decreases n - j
    {
      CopyByte(mem, d, s, j, o, n);
      j := j + 1;
    }
    var r := (d + j) % 4;
    ghost var qd, qs := (d + j) / 4, (s + j) / 4;
    if r == 0 && j < n {
      CopyAligned(mem, d, s, j, qd, qs, o, n);
      return;
    }
    if r > 0 && n - j >= 32 {
      j := CopyMerged(mem, d, s, j, r, qd, qs, o, n);
    }
    CopyRest(mem, d, s, j, o, n);
  }
}
