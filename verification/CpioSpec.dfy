/** Archives in the old binary cpio format: what a reader finds in any bytes,
    and what it finds in an archive that was written from a list of files. */
module CpioSpec {
  import opened PoolSpec

  type Byte = x: int | 0 <= x < 256

  const MAGIC: nat := 0x71C7
  const HEADER: nat := 26
  const NAME_MAX: nat := 32

  /** "TRAILER!!!" */
  const TRAILER: seq<Byte> := [84, 82, 65, 73, 76, 69, 82, 33, 33, 33]

  // ---------------------------------------------------------------- strings

  /** Comparing the strings at `i` and `j` stays within the two buffers. */
  predicate Readable(a: seq<Byte>, i: nat, b: seq<Byte>, j: nat, n: nat)
    decreases n
  {
    n == 0 || (i < |a| && j < |b| && (a[i] == 0 || a[i] != b[j] || Readable(a, i + 1, b, j + 1, n - 1)))
  }

  /** The two strings agree up to a NUL, or in their first `n` characters. */
  predicate SameString(a: seq<Byte>, i: nat, b: seq<Byte>, j: nat, n: nat)
    requires Readable(a, i, b, j, n)
    decreases n
  {
    n == 0 || (a[i] == b[j] && (a[i] == 0 || SameString(a, i + 1, b, j + 1, n - 1)))
  }

  /** The difference of the first characters that differ, as far as a NUL in the
      first string or the length. */
  function Difference(a: seq<Byte>, i: nat, b: seq<Byte>, j: nat, n: nat): (d: int)
    requires Readable(a, i, b, j, n)
    ensures d == 0 <==> SameString(a, i, b, j, n)
    decreases n
  {
    if n == 0 then 0
    else if a[i] == 0 || a[i] != b[j] then a[i] as int - b[j] as int
    else Difference(a, i + 1, b, j + 1, n - 1)
  }

  /** Strings that agree in `k` characters, none of them NUL, and differ in the next
      or end there. */
  lemma {:induction false} DifferenceAt(a: seq<Byte>, i: nat, b: seq<Byte>, j: nat, n: nat, k: nat)
    requires Readable(a, i, b, j, n) && k < n && i + k < |a| && j + k < |b|
    requires a[i..i + k] == b[j..j + k] && NoNul(a[i..i + k]) && (a[i + k] == 0 || a[i + k] != b[j + k])
    ensures Difference(a, i, b, j, n) == a[i + k] as int - b[j + k] as int
    decreases k
  {
    if k > 0 {
      assert a[i] == a[i..i + k][0] == b[j..j + k][0] == b[j];
      assert a[i + 1..i + k] == a[i..i + k][1..] == b[j..j + k][1..] == b[j + 1..j + k];
      DifferenceAt(a, i + 1, b, j + 1, n - 1, k - 1);
    }
  }

  lemma {:induction false} ReadableToNul(a: seq<Byte>, i: nat, b: seq<Byte>, j: nat, n: nat, nul: nat)
    requires i <= nul < |a| && a[nul] == 0 && (j + n <= |b| || NulFrom(b, j))
    ensures Readable(a, i, b, j, n)
    decreases n
  {
    if n > 0 && a[i] != 0 && a[i] == b[j] {
      ReadableToNul(a, i + 1, b, j + 1, n - 1, nul);
    }
  }

  predicate NulFrom(s: seq<Byte>, j: nat) {
    exists k :: j <= k < |s| && s[k] == 0
  }

  predicate NoNul(s: seq<Byte>) {
    forall i :: 0 <= i < |s| ==> s[i] != 0
  }

  /** The terminated string `a` stands at place `i`. */
  predicate StringAt(s: seq<Byte>, i: nat, a: seq<Byte>) {
    i + |a| < |s| && s[i + |a|] == 0 && NoNul(a) && forall k :: 0 <= k < |a| ==> s[i + k] == a[k]
  }

  /** Terminated strings are compared in full when one of them is short. */
  lemma {:induction false} SameNames(s: seq<Byte>, i: nat, a: seq<Byte>, t: seq<Byte>, b: seq<Byte>, n: nat, k: nat)
    requires StringAt(s, i, a) && StringAt(t, 0, b) && k <= |a| && k <= |b| < k + n
    requires forall m :: 0 <= m < k ==> a[m] == b[m]
    ensures Readable(s, i + k, t, k, n) && (SameString(s, i + k, t, k, n) <==> a == b)
    decreases n
  {
    assert k < |a| ==> s[i + k] == a[k];
    assert k < |b| ==> t[0 + k] == b[k];
    if k < |a| && k < |b| && a[k] == b[k] {
      SameNames(s, i, a, t, b, n - 1, k + 1);
    } else if k == |a| == |b| {
      assert a == b;
    } else if k < |a| && k < |b| {
      assert a[k] != b[k];
    }
  }

  // ---------------------------------------------------------------- reading

  function U16(s: seq<Byte>, i: nat): (r: nat)
    requires i + 2 <= |s|
  {
    s[i] as int + 256 * (s[i + 1] as int)
  }

  function Even(x: nat): (r: nat) {
    x + x % 2
  }

  /** The string at `i`, which ends at `nul` at the latest, is the one in `t`, as
      far as `n` characters tell. */
  predicate Matches(s: seq<Byte>, i: nat, nul: nat, t: seq<Byte>, n: nat)
    requires i <= nul < |s| && s[nul] == 0 && (n <= |t| || NulFrom(t, 0))
  {
    ReadableToNul(s, i, t, 0, n, nul);
    SameString(s, i, t, 0, n)
  }

  /** Where the parts of a file are in the archive. */
  datatype Entry = Entry(name: nat, nul: nat, contents: nat, size: nat, next: nat)

  /** The file whose header is at `at`: none if it does not fit, is malformed or
      is the trailer. */
  function Parse(s: seq<Byte>, at: nat): (r: Option<Entry>)
    ensures r.Some? ==>
              var e := r.value;
              && at + HEADER <= e.name <= e.nul < e.contents <= e.contents + e.size <= e.next <= |s|
              && s[e.nul] == 0
  {
    if at + HEADER > |s| || U16(s, at) != MAGIC then
      None
    else
      var nameSize, size := U16(s, at + 20), U16(s, at + 22) * 65536 + U16(s, at + 24);
      var name := at + HEADER;
      var contents := name + Even(nameSize);
      var next := contents + Even(size);
      if next > |s| || nameSize == 0 || s[name + nameSize - 1] != 0 then
        None
      else if Matches(s, name, name + nameSize - 1, TRAILER + [0], |TRAILER| + 1) then
        None
      else
        Some(Entry(name, name + nameSize - 1, contents, size, next))
  }

  /** The layout of a header: the magic number in bytes 0 and 1, the length of the
      name in 20 and 21, the size of the contents in 22 to 25 with its high half
      first; then the name and the contents, each padded to an even length. */
  lemma ParseExact(s: seq<Byte>, at: nat)
    ensures var r := Parse(s, at);
            if at + 26 > |s| || s[at] != 0xC7 || s[at + 1] != 0x71 then r == None
            else
              var length: nat := s[at + 20] as int + 256 * (s[at + 21] as int);
              var size: nat := (s[at + 22] as int + 256 * (s[at + 23] as int)) * 65536 +
                               s[at + 24] as int + 256 * (s[at + 25] as int);
              var contents := at + 26 + length + length % 2;
              var next := contents + size + size % 2;
              if next > |s| || length == 0 || s[at + 25 + length] != 0 || IsTrailer(s, at + 26) then r == None
              else r == Some(Entry(at + 26, at + 25 + length, contents, size, next))
  {
    if at + 26 <= |s| && s[at] == 0xC7 && s[at + 1] == 0x71 {
      var length: nat := s[at + 20] as int + 256 * (s[at + 21] as int);
      if length > 0 && at + 25 + length < |s| && s[at + 25 + length] == 0 {
        TrailerExact(s, at + 26, at + 25 + length);
      }
    }
  }

  /** The characters of "TRAILER!!!" and a NUL stand at place `i`. */
  predicate IsTrailer(s: seq<Byte>, i: nat) {
    i + 11 <= |s| && s[i..i + 11] == [84, 82, 65, 73, 76, 69, 82, 33, 33, 33, 0]
  }

  lemma TrailerExact(s: seq<Byte>, i: nat, nul: nat)
    requires i <= nul < |s| && s[nul] == 0
    ensures Matches(s, i, nul, TRAILER + [0], |TRAILER| + 1) <==> IsTrailer(s, i)
  {
    var t := TRAILER + [0];
    assert forall k :: 0 <= k < 10 ==> t[k] != 0;
    ReadableToNul(s, i, t, 0, 11, nul);
    SameExact(s, i, t, 0, 11);
    assert t == [84, 82, 65, 73, 76, 69, 82, 33, 33, 33, 0];
    assert t[0..11] == t;
  }

  /** Comparing with a string whose only NUL is its last character compares all. */
  lemma {:induction false} SameExact(s: seq<Byte>, i: nat, t: seq<Byte>, j: nat, n: nat)
    requires n > 0 && j + n == |t| && t[|t| - 1] == 0 && (forall k :: j <= k < |t| - 1 ==> t[k] != 0)
    requires Readable(s, i, t, j, n)
    ensures SameString(s, i, t, j, n) <==> i + n <= |s| && s[i..i + n] == t[j..j + n]
    decreases n
  {
    if n > 1 && s[i] == t[j] {
      SameExact(s, i + 1, t, j + 1, n - 1);
      if i + n <= |s| {
        assert s[i..i + n] == [s[i]] + s[i + 1..i + n] && t[j..j + n] == [t[j]] + t[j + 1..j + n];
      }
    } else if i + n <= |s| {
      assert s[i..i + n][0] == s[i] && t[j..j + n][0] == t[j];
      if n == 1 {
        assert s[i..i + n] == [s[i]] && t[j..j + n] == [t[j]];
      }
    }
  }

  /** The first file whose name is the string in the buffer `name`, from `at` on. */
  function Find(s: seq<Byte>, at: nat, name: seq<Byte>): (r: Option<(nat, nat)>)
    requires |name| == NAME_MAX
    ensures r.Some? ==> at < r.value.0 <= r.value.1 <= |s|
    decreases |s| - at
  {
    match Parse(s, at)
    case None => None
    case Some(e) =>
      if Matches(s, e.name, e.nul, name, NAME_MAX) then Some((e.contents, e.contents + e.size)) else Find(s, e.next,
          name)
  }

  // ---------------------------------------------------------------- writing

  /** A file: the header fields that no reader here looks at, name, contents. */
  datatype File = File(meta: seq<Byte>, name: seq<Byte>, contents: seq<Byte>)

  predicate IsFile(f: File) {
    |f.meta| == 18 && NoNul(f.name) && |f.name| < 0xffff && |f.contents| < 0x1_0000_0000
  }

  function Bytes16(x: nat): (r: seq<Byte>)
    requires x < 0x10000
    ensures |r| == 2
  {
    [x % 256, x / 256]
  }

  function Pad(x: nat): (r: seq<Byte>)
    ensures x + |r| == Even(x)
  {
    if x % 2 == 0 then [] else [0]
  }

  function Head(f: File): (r: seq<Byte>)
    requires IsFile(f)
    ensures |r| == HEADER
  {
    Bytes16(MAGIC) + f.meta + Bytes16(|f.name| + 1) + Bytes16(|f.contents| / 65536) + Bytes16(|f.contents| % 65536)
  }

  function Encode(f: File): (r: seq<Byte>)
    requires IsFile(f)
  {
    Head(f) + (f.name + [0] + Pad(|f.name| + 1)) + (f.contents + Pad(|f.contents|))
  }

  function EncodeAll(files: seq<File>, trailer: File): (r: seq<Byte>)
    requires IsFile(trailer) && forall f :: f in files ==> IsFile(f)
  {
    if files == [] then Encode(trailer) else Encode(files[0]) + EncodeAll(files[1..], trailer)
  }

  function FirstNamed(files: seq<File>, name: seq<Byte>): (r: Option<File>) {
    if files == [] then None else if files[0].name == name then Some(files[0]) else FirstNamed(files[1..], name)
  }

  // ---------------------------------------------------------------- round trip

  /** `part` stands at place `at` of `s`. */
  predicate PartAt(s: seq<Byte>, at: nat, part: seq<Byte>) {
    at + |part| <= |s| && forall i :: 0 <= i < |part| ==> s[at + i] == part[i]
  }

  lemma PartsAt(s: seq<Byte>, at: nat, a: seq<Byte>, b: seq<Byte>)
    requires PartAt(s, at, a + b)
    ensures PartAt(s, at, a) && PartAt(s, at + |a|, b)
  {
    forall i | 0 <= i < |a| ensures s[at + i] == a[i] {
      assert (a + b)[i] == a[i];
    }
    forall i | 0 <= i < |b| ensures s[at + |a| + i] == b[i] {
      assert (a + b)[|a| + i] == b[i] && s[at + (|a| + i)] == b[i];
    }
  }

  lemma U16At(s: seq<Byte>, at: nat, x: nat)
    requires x < 0x10000 && PartAt(s, at, Bytes16(x))
    ensures U16(s, at) == x
  {
    var part := Bytes16(x);
    assert part[0] == x % 256 && part[1] == x / 256;
  }

  lemma HeadAt(s: seq<Byte>, at: nat, f: File)
    requires IsFile(f) && PartAt(s, at, Head(f))
    ensures U16(s, at) == MAGIC && U16(s, at + 20) == |f.name| + 1
    ensures U16(s, at + 22) * 65536 + U16(s, at + 24) == |f.contents|
  {
    var m, n, hi, lo :=
      Bytes16(MAGIC), Bytes16(|f.name| + 1), Bytes16(|f.contents| / 65536), Bytes16(|f.contents| % 65536);
    PartsAt(s, at, m + f.meta + n + hi, lo);
    PartsAt(s, at, m + f.meta + n, hi);
    PartsAt(s, at, m + f.meta, n);
    PartsAt(s, at, m, f.meta);
    U16At(s, at, MAGIC);
    U16At(s, at + 20, |f.name| + 1);
    U16At(s, at + 22, |f.contents| / 65536);
    U16At(s, at + 24, |f.contents| % 65536);
  }

  /** The entry for an encoded file at place `at`. */
  function EntryOf(f: File, at: nat): (e: Entry) {
    var contents := at + HEADER + Even(|f.name| + 1);
    Entry(at + HEADER, at + HEADER + |f.name|, contents, |f.contents|, contents + Even(|f.contents|))
  }

  lemma EncodeAt(s: seq<Byte>, at: nat, f: File)
    requires IsFile(f) && PartAt(s, at, Encode(f))
    ensures var e := EntryOf(f, at);
            PartAt(s, at, Head(f)) && StringAt(s, e.name, f.name) && PartAt(s, e.contents, f.contents) && e.next <= |s|
  {
    var e := EntryOf(f, at);
    var named, filled := f.name + [0] + Pad(|f.name| + 1), f.contents + Pad(|f.contents|);
    PartsAt(s, at, Head(f) + named, filled);
    PartsAt(s, at, Head(f), named);
    PartsAt(s, e.name, f.name + [0], Pad(|f.name| + 1));
    PartsAt(s, e.name, f.name, [0]);
    assert [0][0] == 0;
    PartsAt(s, e.contents, f.contents, Pad(|f.contents|));
  }

  lemma TrailerName()
    ensures StringAt(TRAILER + [0], 0, TRAILER)
  {
  }

  lemma ParseEncoded(s: seq<Byte>, at: nat, f: File)
    requires IsFile(f) && PartAt(s, at, Encode(f))
    ensures Parse(s, at) == if f.name == TRAILER then None else Some(EntryOf(f, at))
  {
    EncodeAt(s, at, f);
    HeadAt(s, at, f);
    TrailerName();
    SameNames(s, at + HEADER, f.name, TRAILER + [0], TRAILER, |TRAILER| + 1, 0);
  }

  /** One step of the search, over an encoded file. */
  lemma FindOne(s: seq<Byte>, at: nat, f: File, name: seq<Byte>, buffer: seq<Byte>)
    requires IsFile(f) && f.name != TRAILER && PartAt(s, at, Encode(f))
    requires |buffer| == NAME_MAX && StringAt(buffer, 0, name)
    ensures var e := EntryOf(f, at);
            Find(s, at, buffer) == if f.name == name then Some((e.contents, e.contents + e.size)) else Find(s, e.next,
                buffer)
  {
    ParseEncoded(s, at, f);
    EncodeAt(s, at, f);
    SameNames(s, at + HEADER, f.name, buffer, name, NAME_MAX, 0);
  }

  /** Looking for a name in the archive of a list of files finds the contents of
      the first file of that name, and nothing if there is none. */
  lemma {:induction false} FindEncoded(files: seq<File>, trailer: File, s: seq<Byte>, at: nat, name: seq<Byte>,
                                       buffer: seq<Byte>)
    requires IsFile(trailer) && trailer.name == TRAILER
    requires forall f :: f in files ==> IsFile(f) && f.name != TRAILER
    requires PartAt(s, at, EncodeAll(files, trailer))
    requires |buffer| == 32 && StringAt(buffer, 0, name)
    ensures Find(s, at, buffer).None? <==> FirstNamed(files, name).None?
    ensures Find(s, at, buffer).Some? ==>
              s[Find(s, at, buffer).value.0..Find(s, at, buffer).value.1] == FirstNamed(files, name).value.contents
    decreases |files|
  {
    if files == [] {
      ParseEncoded(s, at, trailer);
    } else {
      var f := files[0];
      PartsAt(s, at, Encode(f), EncodeAll(files[1..], trailer));
      FindOne(s, at, f, name, buffer);
      var e := EntryOf(f, at);
      if f.name != name {
        FindEncoded(files[1..], trailer, s, e.next, name, buffer);
      } else {
        EncodeAt(s, at, f);
        assert s[e.contents..e.contents + e.size] == f.contents;
      }
    }
  }
}
