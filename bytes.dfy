/** Go strings and byte slices as sequences of bytes, with the library
    operations the client applies to them: trimming a cut set from both ends
    (bytes.Trim, strings.TrimSpace) and splitting on a separator (strings.Split). */
module Bytes {

  /** A Go byte. A Go string is a `seq<byte>`: `len(s)` counts bytes. */
  type byte = b: int | 0 <= b < 256

  /** The bytes of an ASCII text, so that `Ascii("OKAY")` is the Go string "OKAY". */
  function Ascii(s: string): (r: seq<byte>)
    requires forall i :: 0 <= i < |s| ==> s[i] as int < 128
    ensures |r| == |s|
    ensures forall i :: 0 <= i < |s| ==> r[i] == s[i] as int
  {
    seq(|s|, i requires 0 <= i < |s| => s[i] as int)
  }

  const Nul: byte := 0
  const Colon: byte := 58

  /** The bytes strings.TrimSpace removes from ASCII text: tab, line feed,
      vertical tab, form feed, carriage return and space. */
  const AsciiSpace: set<byte> := {9, 10, 11, 12, 13, 32}

  /** strings.HasPrefix. */
  predicate HasPrefix(s: seq<byte>, prefix: seq<byte>)
    ensures HasPrefix(s, prefix) <==>
      |prefix| <= |s| && forall i :: 0 <= i < |prefix| ==> s[i] == prefix[i]
    ensures HasPrefix(s, prefix) ==> s == prefix + s[|prefix|..]
  {
    |prefix| <= |s| && s[..|prefix|] == prefix
  }

  /** The end of the run of bytes in `cut` that starts at `i`. */
  function LeadEnd(b: seq<byte>, cut: set<byte>, i: nat): (k: nat)
    requires i <= |b|
    ensures i <= k <= |b| && (k == |b| || b[k] !in cut)
    ensures forall m :: i <= m < k ==> b[m] in cut
    decreases |b| - i
  {
    if i < |b| && b[i] in cut then LeadEnd(b, cut, i + 1) else i
  }

  /** The start of the run of bytes in `cut` that ends at `j`, not going below `lo`. */
  function TrailStart(b: seq<byte>, cut: set<byte>, lo: nat, j: nat): (k: nat)
    requires lo <= j <= |b|
    ensures lo <= k <= j && (k == lo || b[k - 1] !in cut)
    ensures forall m :: k <= m < j ==> b[m] in cut
    decreases j
  {
    if lo < j && b[j - 1] in cut then TrailStart(b, cut, lo, j - 1) else j
  }

  /** `r` is the slice b[i..j] of `b`, every byte around it is in `cut`, and it
      neither starts nor ends with a byte of `cut`. */
  predicate TrimAt(r: seq<byte>, b: seq<byte>, cut: set<byte>, i: nat, j: nat)
  {
    i <= j <= |b| && r == b[i..j]
    && (forall m :: 0 <= m < i ==> b[m] in cut)
    && (forall m :: j <= m < |b| ==> b[m] in cut)
    && (i < j ==> b[i] !in cut && b[j - 1] !in cut)
  }

  /** `r` is `b` with every leading and trailing byte of `cut` removed. */
  ghost predicate IsTrimOf(r: seq<byte>, b: seq<byte>, cut: set<byte>)
  {
    exists i: nat, j: nat :: TrimAt(r, b, cut, i, j)
  }

  /** bytes.Trim(b, cutset): drops the leading bytes in `cut`, then the
      trailing ones of what is left. */
  function Trim(b: seq<byte>, cut: set<byte>): (r: seq<byte>)
    ensures TrimAt(r, b, cut, LeadEnd(b, cut, 0), LeadEnd(b, cut, 0) + |r|)
  {
    var i := LeadEnd(b, cut, 0);
    var j := TrailStart(b, cut, i, |b|);
    b[i..j]
  }

  /** Where a run of cut bytes from `from` stops is determined by the first byte outside `cut`. */
  lemma {:induction false} LeadEndIs(b: seq<byte>, cut: set<byte>, from: nat, i: nat)
    requires from <= i <= |b| && (i == |b| || b[i] !in cut)
    requires forall m :: from <= m < i ==> b[m] in cut
    ensures LeadEnd(b, cut, from) == i
    decreases i - from
  {
    if from < i {
      LeadEndIs(b, cut, from + 1, i);
    }
  }

  /** Where a run of cut bytes back from `j` stops is determined by the last byte outside `cut`. */
  lemma {:induction false} TrailStartIs(b: seq<byte>, cut: set<byte>, lo: nat, j: nat, k: nat)
    requires lo <= k <= j <= |b| && (k == lo || b[k - 1] !in cut)
    requires forall m :: k <= m < j ==> b[m] in cut
    ensures TrailStart(b, cut, lo, j) == k
    decreases j - k
  {
    if k < j {
      TrailStartIs(b, cut, lo, j - 1, k);
    }
  }

  /** Any slice that meets the description of a trim is the one Trim computes. */
  lemma TrimAtIsTrim(r: seq<byte>, b: seq<byte>, cut: set<byte>, i: nat, j: nat)
    requires TrimAt(r, b, cut, i, j)
    ensures r == Trim(b, cut)
  {
    if i == j {
      LeadEndIs(b, cut, 0, |b|);
    } else {
      LeadEndIs(b, cut, 0, i);
      TrailStartIs(b, cut, i, |b|, j);
    }
  }

  /** There is only one way to trim a byte sequence. */
  lemma TrimUnique(b: seq<byte>, cut: set<byte>, r1: seq<byte>, r2: seq<byte>)
    requires IsTrimOf(r1, b, cut) && IsTrimOf(r2, b, cut)
    ensures r1 == r2
  {
    var i1: nat, j1: nat :| TrimAt(r1, b, cut, i1, j1);
    var i2: nat, j2: nat :| TrimAt(r2, b, cut, i2, j2);
    TrimAtIsTrim(r1, b, cut, i1, j1);
    TrimAtIsTrim(r2, b, cut, i2, j2);
  }

  /** Trimming twice is trimming once. */
  lemma TrimIdempotent(b: seq<byte>, cut: set<byte>)
    ensures Trim(Trim(b, cut), cut) == Trim(b, cut)
  {
    var r := Trim(b, cut);
    var i := LeadEnd(b, cut, 0);
    assert r != [] ==> r[0] == b[i] && r[|r| - 1] == b[i + |r| - 1];
    TrimAtIsTrim(r, r, cut, 0, |r|);
  }

  /** Cut bytes inside the kept slice survive: whenever only cut bytes lie
      outside b[i..j] and its end bytes are not cut, the trim is b[i..j]. */
  lemma TrimShape(b: seq<byte>, cut: set<byte>, i: nat, j: nat)
    requires i <= j <= |b|
    requires forall m :: 0 <= m < i ==> b[m] in cut
    requires forall m :: j <= m < |b| ==> b[m] in cut
    requires i < j ==> b[i] !in cut && b[j - 1] !in cut
    ensures Trim(b, cut) == b[i..j]
  {
    TrimAtIsTrim(b[i..j], b, cut, i, j);
  }

  /** bytes.Trim(b, "\x00"). */
  function TrimNul(b: seq<byte>): (r: seq<byte>)
    ensures r == [] || (r[0] != Nul && r[|r| - 1] != Nul)
    ensures IsTrimOf(r, b, {Nul})
  {
    Trim(b, {Nul})
  }

  /** strings.TrimSpace on ASCII text. */
  function TrimSpace(b: seq<byte>): (r: seq<byte>)
    ensures r == [] || (r[0] !in AsciiSpace && r[|r| - 1] !in AsciiSpace)
    ensures IsTrimOf(r, b, AsciiSpace)
  {
    Trim(b, AsciiSpace)
  }

  /** The index of the first `x` in `s`, or `|s|` when there is none. */
  function IndexOf(s: seq<byte>, x: byte): (i: nat)
    ensures i <= |s|
    ensures i < |s| ==> s[i] == x
    ensures x !in s[..i]
  {
    if s == [] then 0
    else if s[0] == x then 0
    else
      var i := 1 + IndexOf(s[1..], x);
      assert s[..i] == [s[0]] + s[1..][..i - 1];
      i
  }

  /** The number of times `x` occurs in `s`. */
  function Count(s: seq<byte>, x: byte): (n: nat)
    ensures n == 0 <==> x !in s
  {
    if s == [] then 0
    else (if s[0] == x then 1 else 0) + Count(s[1..], x)
  }

  /** strings.Join(parts, sep): the inverse of Split. */
  function Join(parts: seq<seq<byte>>, sep: byte): seq<byte>
    requires |parts| >= 1
  {
    if |parts| == 1 then parts[0] else parts[0] + [sep] + Join(parts[1..], sep)
  }

  /** strings.Split(s, sep) for a one-byte separator: the pieces between the
      separators, one more than there are separators; the first piece is what
      precedes the first separator, no piece contains the separator, and
      joining the pieces gives back `s`. */
  function Split(s: seq<byte>, sep: byte): (parts: seq<seq<byte>>)
    ensures |parts| == Count(s, sep) + 1
    ensures parts[0] == s[..IndexOf(s, sep)]
    ensures forall k :: 0 <= k < |parts| ==> sep !in parts[k]
    ensures Join(parts, sep) == s
    decreases |s|
  {
    var i := IndexOf(s, sep);
    if i == |s| then
      assert s[..i] == s;
      [s]
    else
      var rest := Split(s[i + 1..], sep);
      SplitCons(s, sep, i, rest);
      [s[..i]] + rest
  }

  /** The pieces of `s` are the piece before its first separator, then the
      pieces of what follows that separator. */
  lemma SplitCons(s: seq<byte>, sep: byte, i: nat, rest: seq<seq<byte>>)
    requires i == IndexOf(s, sep) < |s|
    requires |rest| == Count(s[i + 1..], sep) + 1 && Join(rest, sep) == s[i + 1..]
    requires forall k :: 0 <= k < |rest| ==> sep !in rest[k]
    ensures var parts := [s[..i]] + rest;
      |parts| == Count(s, sep) + 1 && parts[0] == s[..i] && Join(parts, sep) == s
      && forall k :: 0 <= k < |parts| ==> sep !in parts[k]
  {
    CountSplit(s, sep, i);
    var parts := [s[..i]] + rest;
    assert parts[1..] == rest;
    assert s == s[..i] + [sep] + s[i + 1..];
    assert forall k :: 1 <= k < |parts| ==> parts[k] == rest[k - 1];
  }

  /** Splitting at the first separator counts it once. */
  lemma {:induction false} CountSplit(s: seq<byte>, x: byte, i: nat)
    requires i < |s| && s[i] == x && x !in s[..i]
    ensures Count(s, x) == 1 + Count(s[i + 1..], x)
  {
    if i > 0 {
      assert s[0] == s[..i][0];
      assert s[1..][..i - 1] == s[..i][1..];
      assert s[1..][i..] == s[i + 1..];
      CountSplit(s[1..], x, i - 1);
    }
  }

  /** A text with exactly one separator splits into the two pieces around it. */
  lemma SplitTwo(a: seq<byte>, sep: byte, b: seq<byte>)
    requires sep !in a && sep !in b
    ensures Split(a + [sep] + b, sep) == [a, b]
  {
    var s := a + [sep] + b;
    IndexOfFirst(s, sep, |a|);
    assert s[..|a|] == a && s[|a| + 1..] == b;
    SplitNone(b, sep);
  }

  lemma SplitNone(s: seq<byte>, sep: byte)
    requires sep !in s
    ensures Split(s, sep) == [s]
  {
    assert s[..|s|] == s;
  }

  lemma IndexOfFirst(s: seq<byte>, x: byte, i: nat)
    requires i < |s| && s[i] == x && x !in s[..i]
    ensures IndexOf(s, x) == i
  {
  }
}
