/** Bytes, the newline byte, and the pieces of Go's `bytes` package and
    built-in `copy` that the line writers and readers rely on. */
module Bytes {

  newtype byte = b: int | 0 <= b < 256

  /** The ASCII line feed, `'\n'`. */
  const NL: byte := 10

  /** True when `s` is non-empty and its final byte is a newline. */
  predicate EndsInNewline(s: seq<byte>)
  {
    |s| > 0 && s[|s| - 1] == NL
  }

  /** True when `line` ends in its only newline. */
  predicate IsLine(line: seq<byte>)
  {
    EndsInNewline(line) && forall k :: 0 <= k < |line| - 1 ==> line[k] != NL
  }

  /** bytes.LastIndexByte: the index of the last `c` in `s`, or -1. */
  function LastIndexByte(s: seq<byte>, c: byte): (r: int)
    ensures -1 <= r < |s|
    ensures r >= 0 ==> s[r] == c
  {
    if s == [] then -1
    else if s[|s| - 1] == c then |s| - 1
    else LastIndexByte(s[..|s| - 1], c)
  }

  /** bytes.IndexByte: the index of the first `c` in `s`, or -1. */
  function IndexByte(s: seq<byte>, c: byte): (r: int)
    ensures -1 <= r < |s|
    ensures r >= 0 ==> s[r] == c
  {
    if s == [] then -1
    else if s[0] == c then 0
    else
      var i := IndexByte(s[1..], c);
      if i < 0 then -1 else i + 1
  }

  /** The number of occurrences of `c` in `s`. */
  function Count(s: seq<byte>, c: byte): nat
  {
    if s == [] then 0
    else Count(s[..|s| - 1], c) + (if s[|s| - 1] == c then 1 else 0)
  }

  /** The byte sequences of `ss`, one after the other. */
  function Concat(ss: seq<seq<byte>>): seq<byte>
  {
    if ss == [] then [] else Concat(ss[..|ss| - 1]) + ss[|ss| - 1]
  }

  /** No `c` follows the one LastIndexByte finds. */
  lemma {:induction false} LastIndexByteIsLast(s: seq<byte>, c: byte, k: int)
    requires LastIndexByte(s, c) < k < |s|
    ensures s[k] != c
  {
    if s[|s| - 1] != c && k < |s| - 1 {
      LastIndexByteIsLast(s[..|s| - 1], c, k);
    }
  }

  /** LastIndexByte finds a `c` exactly when `s` holds one. */
  lemma LastIndexByteFinds(s: seq<byte>, c: byte)
    ensures c in s <==> LastIndexByte(s, c) >= 0
  {
    if c in s {
      var i :| 0 <= i < |s| && s[i] == c;
      if LastIndexByte(s, c) < i {
        LastIndexByteIsLast(s, c, i);
      }
    }
  }

  /** The last `c` of `s` and nothing else satisfies LastIndexByte's
      contract: an index holding `c` (or -1) with no `c` after it. */
  lemma {:induction false} LastIndexByteUnique(s: seq<byte>, c: byte, r: int)
    requires -1 <= r < |s|
    requires r >= 0 ==> s[r] == c
    requires forall k :: r < k < |s| ==> s[k] != c
    ensures r == LastIndexByte(s, c)
  {
    if s != [] && s[|s| - 1] != c {
      LastIndexByteUnique(s[..|s| - 1], c, r);
    }
  }

  /** The last `c` of `a + b` lies in `b` if `b` has one, else it is `a`'s. */
  lemma LastIndexByteAppend(a: seq<byte>, b: seq<byte>, c: byte)
    ensures LastIndexByte(a + b, c) ==
              (var j := LastIndexByte(b, c); if j >= 0 then |a| + j else LastIndexByte(a, c))
  {
    var j := LastIndexByte(b, c);
    var r := if j >= 0 then |a| + j else LastIndexByte(a, c);
    var s := a + b;
    forall k | r < k < |s| ensures s[k] != c {
      if k >= |a| {
        assert s[k] == b[k - |a|];
        LastIndexByteIsLast(b, c, k - |a|);
      } else {
        assert s[k] == a[k];
        LastIndexByteIsLast(a, c, k);
      }
    }
    if r >= 0 {
      if j >= 0 { assert s[r] == b[j]; } else { assert s[r] == a[r]; }
    }
    LastIndexByteUnique(s, c, r);
  }

  /** The first `c` of `a + b` is `a`'s if `a` has one, else it lies in `b`. */
  lemma IndexByteAppend(a: seq<byte>, b: seq<byte>, c: byte)
    ensures IndexByte(a + b, c) ==
              (var i := IndexByte(a, c); if i >= 0 then i else
                 var j := IndexByte(b, c); if j >= 0 then |a| + j else -1)
  {
    if a != [] {
      assert (a + b)[1..] == a[1..] + b;
      IndexByteAppend(a[1..], b, c);
    } else {
      assert a + b == b;
    }
  }

  /** IndexByte finds the first `c`: none comes before it, and none at
      all when it answers -1. */
  lemma {:induction false} IndexByteFirst(s: seq<byte>, c: byte)
    ensures var r := IndexByte(s, c);
      forall k :: 0 <= k < |s| && (r < 0 || k < r) ==> s[k] != c
  {
    if s != [] && s[0] != c {
      IndexByteFirst(s[1..], c);
      forall k | 1 <= k < |s| ensures s[k] == s[1..][k - 1] { }
    }
  }

  /** Counting is additive over concatenation. */
  lemma {:induction false} CountAppend(a: seq<byte>, b: seq<byte>, c: byte)
    ensures Count(a + b, c) == Count(a, c) + Count(b, c)
  {
    if b == [] {
      assert a + b == a;
    } else {
      var b' := b[..|b| - 1];
      assert (a + b)[..|a + b| - 1] == a + b';
      CountAppend(a, b', c);
    }
  }

  /** A sequence with no `c` counts zero. */
  lemma {:induction false} CountNone(s: seq<byte>, c: byte)
    requires forall k :: 0 <= k < |s| ==> s[k] != c
    ensures Count(s, c) == 0
  {
    if s != [] {
      CountNone(s[..|s| - 1], c);
    }
  }

  /** Concat distributes over appending one more sequence. */
  lemma ConcatSnoc(ss: seq<seq<byte>>, s: seq<byte>)
    ensures Concat(ss + [s]) == Concat(ss) + s
  {
    assert (ss + [s])[..|ss|] == ss;
  }

  /** A sequence is its prefix followed by its suffix. */
  lemma SliceJoin<T>(s: seq<T>, i: nat)
    requires i <= |s|
    ensures s[..i] + s[i..] == s
  {
  }

  /** Concatenation is associative. */
  lemma Associate<T>(a: seq<T>, b: seq<T>, c: seq<T>)
    ensures (a + b) + c == a + (b + c)
  {
  }

  /** Two adjacent slices of an array make up the slice they span. */
  lemma ArrayJoin(a: array<byte>, i: nat, j: nat, k: nat, x: seq<byte>, y: seq<byte>)
    requires i <= j <= k <= a.Length && a[i..j] == x && a[j..k] == y
    ensures a[i..k] == x + y
  {
    assert a[i..k] == a[i..j] + a[j..k];
  }

  /** A slice of a slice of an array is a slice of the array. */
  lemma ArraySub(a: array<byte>, i: nat, j: nat, s: seq<byte>, x: nat, y: nat)
    requires i <= j <= a.Length && a[i..j] == s && x <= y <= |s|
    ensures a[i + x..i + y] == s[x..y]
  {
    forall k | 0 <= k < y - x ensures a[i + x..i + y][k] == s[x..y][k] {
      assert a[i..j][x + k] == a[i + x + k];
    }
  }

  /** Go's built-in copy(dst[at:], src) when dst has room for all of src. */
  method CopyInto(dst: array<byte>, at: nat, src: seq<byte>)
    requires at + |src| <= dst.Length
    modifies dst
    ensures dst[at..at + |src|] == src
    ensures dst[..at] == old(dst[..at])
    ensures dst[at + |src|..] == old(dst[at + |src|..])
  {
    var i := 0;
    while i < |src|
      invariant 0 <= i <= |src|
      invariant forall k :: 0 <= k < i ==> dst[at + k] == src[k]
      invariant forall k :: 0 <= k < dst.Length && (k < at || k >= at + i) ==> dst[k] == old(dst[k])
    {
      dst[at + i] := src[i];
      i := i + 1;
    }
    assert dst[at..at + |src|] == src by {
      forall k | 0 <= k < |src| ensures dst[at..at + |src|][k] == src[k] {
        assert dst[at..at + |src|][k] == dst[at + k];
      }
    }
  }

  /** Go's built-in copy(a, a[from:end]), which moves the bytes
      a[from..end] down to the front of the same array. */
  method SlideDown(a: array<byte>, from: nat, end: nat)
    requires from <= end <= a.Length
    modifies a
    ensures a[..end - from] == old(a[from..end])
  {
    var i := 0;
    while i < end - from
      invariant 0 <= i <= end - from
      invariant forall k :: 0 <= k < i ==> a[k] == old(a[from + k])
      invariant forall k :: from + i <= k < end ==> a[k] == old(a[k])
    {
      a[i] := a[from + i];
      i := i + 1;
    }
    assert a[..end - from] == old(a[from..end]) by {
      forall k | 0 <= k < end - from ensures a[..end - from][k] == old(a[from..end])[k] {
        assert a[..end - from][k] == a[k];
      }
    }
  }
}
