/** Bytes and the few byte-slice searches of Go's `bytes` package that the
    tokenizer relies on (IndexByte, IndexAny, Count), as total functions with
    their defining properties. */
module Bytes {

  newtype byte = x: int | 0 <= x < 256

  const LT: byte := '<' as byte
  const GT: byte := '>' as byte
  const QUESTION: byte := '?' as byte
  const BANG: byte := '!' as byte
  const DASH: byte := '-' as byte
  const QUOTE: byte := '"' as byte
  const EQUALS: byte := '=' as byte
  const SLASH: byte := '/' as byte
  const COLON: byte := ':' as byte
  const RBRACKET: byte := ']' as byte
  const SPACE: byte := ' ' as byte
  const TAB: byte := '\t' as byte
  const LF: byte := '\n' as byte
  const CR: byte := '\r' as byte

  const LBRACKET: byte := '[' as byte

  /** `<![CDATA[` and `]]>`. */
  const CDataOpen: seq<byte> :=
    [LT, BANG, LBRACKET, 'C' as byte, 'D' as byte, 'A' as byte, 'T' as byte, 'A' as byte, LBRACKET]
  const CDataClose: seq<byte> := [RBRACKET, RBRACKET, GT]

  /** n zero bytes, as Go's `make([]byte, n)` yields them. */
  function Zeros(n: nat): (z: seq<byte>)
    ensures |z| == n && forall i :: 0 <= i < n ==> z[i] == 0
  {
    seq(n, i => 0)
  }

  /** bytes.IndexByte: the index of the first c in s, or -1. */
  function IndexByte(s: seq<byte>, c: byte): (r: int)
    ensures -1 <= r < |s|
    ensures r >= 0 ==> s[r] == c
    ensures forall k :: 0 <= k < (if r == -1 then |s| else r) ==> s[k] != c
  {
    if |s| == 0 then -1
    else if s[0] == c then 0
    else
      var r := IndexByte(s[1..], c);
      assert forall k :: 1 <= k < |s| ==> s[k] == s[1..][k - 1];
      if r == -1 then -1 else r + 1
  }

  /** bytes.IndexByte(s[lo:hi], c) turned into an index of s: the first c in
      s[lo..hi], or -1. FindByteIs states which index that is, and
      FindByteIndexByte that it is bytes.IndexByte on the sub-slice. */
  function FindByte(s: seq<byte>, lo: nat, hi: nat, c: byte): (r: int)
    requires lo <= hi <= |s|
    ensures r == -1 || lo <= r < hi
    decreases hi - lo
  {
    if lo == hi then -1 else if s[lo] == c then lo else FindByte(s, lo + 1, hi, c)
  }

  /** FindByte finds the first c in s[lo..hi], and -1 means there is none. */
  lemma {:induction false} FindByteIs(s: seq<byte>, lo: nat, hi: nat, c: byte)
    requires lo <= hi <= |s|
    ensures var r := FindByte(s, lo, hi, c);
      && (r != -1 ==> s[r] == c)
      && forall k :: lo <= k < (if r == -1 then hi else r) ==> s[k] != c
    decreases hi - lo
  {
    if lo < hi && s[lo] != c {
      FindByteIs(s, lo + 1, hi, c);
    }
  }

  /** The first c in s[lo..hi] is what FindByte finds. */
  lemma {:induction false} FindByteFirst(s: seq<byte>, lo: nat, hi: nat, c: byte, i: nat)
    requires lo <= i < hi <= |s| && s[i] == c
    requires forall k :: lo <= k < i ==> s[k] != c
    ensures FindByte(s, lo, hi, c) == i
    decreases i - lo
  {
    if lo < i {
      FindByteFirst(s, lo + 1, hi, c, i);
    }
  }

  /** Without c in s[lo..hi], FindByte finds nothing. */
  lemma {:induction false} FindByteNone(s: seq<byte>, lo: nat, hi: nat, c: byte)
    requires lo <= hi <= |s|
    requires forall k :: lo <= k < hi ==> s[k] != c
    ensures FindByte(s, lo, hi, c) == -1
    decreases hi - lo
  {
    if lo < hi {
      FindByteNone(s, lo + 1, hi, c);
    }
  }

  lemma FindByteIndexByte(s: seq<byte>, lo: nat, hi: nat, c: byte)
    requires lo <= hi <= |s|
    ensures var p := IndexByte(s[lo..hi], c);
      FindByte(s, lo, hi, c) == if p == -1 then -1 else lo + p
  {
    var w := s[lo..hi];
    var p := IndexByte(w, c);
    FindByteIs(s, lo, hi, c);
    assert forall k :: lo <= k < hi ==> s[k] == w[k - lo];
    var r := FindByte(s, lo, hi, c);
    if r != -1 {
      assert w[r - lo] == c;
    }
    if p != -1 {
      assert s[lo + p] == c;
    }
  }

  /** bytes.IndexAny: the index of the first byte of s that is in cs, or -1. */
  function IndexAny(s: seq<byte>, cs: set<byte>): (r: int)
    ensures -1 <= r < |s|
    ensures r >= 0 ==> s[r] in cs
    ensures forall k :: 0 <= k < (if r == -1 then |s| else r) ==> s[k] !in cs
  {
    if |s| == 0 then -1
    else if s[0] in cs then 0
    else
      var r := IndexAny(s[1..], cs);
      assert forall k :: 1 <= k < |s| ==> s[k] == s[1..][k - 1];
      if r == -1 then -1 else r + 1
  }

  /** bytes.Count(s[lo:hi], []byte{c}): the number of c in s[lo..hi]. */
  function Count(s: seq<byte>, lo: nat, hi: nat, c: byte): (n: nat)
    requires lo <= hi <= |s|
    ensures n <= hi - lo
    decreases hi - lo
  {
    if lo == hi then 0 else Count(s, lo, hi - 1, c) + (if s[hi - 1] == c then 1 else 0)
  }

  /** Whether s[lo..hi] holds an odd number of c. It states the parity of
      Count without arithmetic, which is what the quote rule of the scanner
      needs; OddCount connects the two. */
  predicate Odd(s: seq<byte>, lo: nat, hi: nat, c: byte)
    requires lo <= hi <= |s|
    decreases hi - lo
  {
    if lo == hi then false else Odd(s, lo, hi - 1, c) != (s[hi - 1] == c)
  }

  lemma {:induction false} OddCount(s: seq<byte>, lo: nat, hi: nat, c: byte)
    requires lo <= hi <= |s|
    ensures Odd(s, lo, hi, c) <==> Count(s, lo, hi, c) % 2 == 1
    decreases hi - lo
  {
    if lo < hi {
      OddCount(s, lo, hi - 1, c);
    }
  }

  /** The parity over adjacent ranges combines by exclusive or. */
  lemma {:induction false} OddSplit(s: seq<byte>, i: nat, j: nat, k: nat, c: byte)
    requires i <= j <= k <= |s|
    ensures Odd(s, i, k, c) == (Odd(s, i, j, c) != Odd(s, j, k, c))
    decreases k - j
  {
    if j < k {
      OddSplit(s, i, j, k - 1, c);
    }
  }

  /** A range without c holds an even number (none) of them. */
  lemma {:induction false} OddNone(s: seq<byte>, lo: nat, hi: nat, c: byte)
    requires lo <= hi <= |s|
    requires forall k :: lo <= k < hi ==> s[k] != c
    ensures !Odd(s, lo, hi, c)
    decreases hi - lo
  {
    if lo < hi {
      OddNone(s, lo, hi - 1, c);
    }
  }

  /** FindByte and Odd only look at s[lo..hi]: two sequences that agree
      there give the same answers. */
  lemma {:induction false} FindByteAgree(s: seq<byte>, t: seq<byte>, lo: nat, hi: nat, c: byte)
    requires lo <= hi <= |s| && hi <= |t|
    requires forall k :: lo <= k < hi ==> s[k] == t[k]
    ensures FindByte(s, lo, hi, c) == FindByte(t, lo, hi, c)
    decreases hi - lo
  {
    if lo < hi {
      FindByteAgree(s, t, lo + 1, hi, c);
    }
  }

  lemma {:induction false} OddAgree(s: seq<byte>, t: seq<byte>, lo: nat, hi: nat, c: byte)
    requires lo <= hi <= |s| && hi <= |t|
    requires forall k :: lo <= k < hi ==> s[k] == t[k]
    ensures Odd(s, lo, hi, c) == Odd(t, lo, hi, c)
    decreases hi - lo
  {
    if lo < hi {
      OddAgree(s, t, lo, hi - 1, c);
    }
  }

  /** A hit in s is the same hit in any extension of s. */
  lemma {:induction false} FindByteExtend(s: seq<byte>, t: seq<byte>, lo: nat, c: byte)
    requires lo <= |s| <= |t|
    requires forall k :: lo <= k < |s| ==> s[k] == t[k]
    requires FindByte(s, lo, |s|, c) != -1
    ensures FindByte(t, lo, |t|, c) == FindByte(s, lo, |s|, c)
    decreases |s| - lo
  {
    if s[lo] != c {
      FindByteExtend(s, t, lo + 1, c);
    }
  }

  /** Searching t from d + lo, where t holds s from index d on, is searching
      s from lo, shifted by d. */
  lemma {:induction false} FindByteShift(s: seq<byte>, t: seq<byte>, d: nat, lo: nat, hi: nat, c: byte)
    requires lo <= hi <= |s| && d + hi <= |t|
    requires forall k :: lo <= k < hi ==> t[d + k] == s[k]
    ensures var r := FindByte(s, lo, hi, c);
      FindByte(t, d + lo, d + hi, c) == if r == -1 then -1 else d + r
    decreases hi - lo
  {
    if lo < hi {
      FindByteShift(s, t, d, lo + 1, hi, c);
    }
  }

  lemma {:induction false} OddShift(s: seq<byte>, t: seq<byte>, d: nat, lo: nat, hi: nat, c: byte)
    requires lo <= hi <= |s| && d + hi <= |t|
    requires forall k :: lo <= k < hi ==> t[d + k] == s[k]
    ensures Odd(t, d + lo, d + hi, c) == Odd(s, lo, hi, c)
    decreases hi - lo
  {
    if lo < hi {
      OddShift(s, t, d, lo, hi - 1, c);
    }
  }

  /** A search whose first part has no hit continues into the second part. */
  lemma IndexByteConcat(a: seq<byte>, b: seq<byte>, c: byte)
    requires c !in a
    ensures IndexByte(a + b, c) == if c in b then |a| + IndexByte(b, c) else -1
  {
    var r := IndexByte(a + b, c);
    if c in b {
      var q := IndexByte(b, c);
      assert (a + b)[|a| + q] == c;
      assert forall k :: 0 <= k < |a| ==> (a + b)[k] == a[k];
      assert forall k :: |a| <= k < |a| + |b| ==> (a + b)[k] == b[k - |a|];
    } else {
      assert forall k :: 0 <= k < |a + b| ==> (a + b)[k] != c;
    }
  }

  lemma IndexAnyConcat(a: seq<byte>, b: seq<byte>, cs: set<byte>)
    requires forall k :: 0 <= k < |a| ==> a[k] !in cs
    ensures IndexAny(a + b, cs) == if IndexAny(b, cs) == -1 then -1 else |a| + IndexAny(b, cs)
  {
    assert forall k :: 0 <= k < |a| ==> (a + b)[k] == a[k];
    assert forall k :: |a| <= k < |a| + |b| ==> (a + b)[k] == b[k - |a|];
    var q := IndexAny(b, cs);
    if q != -1 {
      assert (a + b)[|a| + q] in cs;
    }
  }
}
