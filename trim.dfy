/** The white-space trimming helpers `trimPrefix`, `trimSuffix` and `trim`.
    Each helper is a loop method, proved equal to a declarative function that
    says which bytes come off. The two helpers are not symmetric. `trimPrefix`
    skips over a lone CR without removing it. `trimSuffix` removes at most one
    CR LF pair and never removes a CR at index 0. */
module Trim {
  import opened Bytes

  /** The bytes `trimPrefix` steps over: space, tab, LF and CR. */
  predicate IsSpace(c: byte) {
    c == SPACE || c == TAB || c == LF || c == CR
  }

  /** The bytes `trimSuffix` removes on their own: space, tab and LF. */
  predicate IsBlank(c: byte) {
    c == SPACE || c == TAB || c == LF
  }

  /** Index of the first byte that is not IsSpace, or |b|. */
  function FirstNonSpace(b: seq<byte>): (k: nat)
    ensures k <= |b|
    ensures forall j :: 0 <= j < k ==> IsSpace(b[j])
    ensures k < |b| ==> !IsSpace(b[k])
  {
    if |b| == 0 || !IsSpace(b[0]) then 0
    else
      var k := FirstNonSpace(b[1..]);
      assert forall j :: 1 <= j < |b| ==> b[j] == b[1..][j - 1];
      k + 1
  }

  /** A CR that is not directly followed by LF. */
  predicate LoneCR(b: seq<byte>, j: nat)
    requires j < |b|
  {
    b[j] == CR && !(j + 1 < |b| && b[j + 1] == LF)
  }

  /** The number of lone CRs among b[..k]. */
  function LoneCRs(b: seq<byte>, k: nat): (n: nat)
    requires k <= |b|
    ensures n <= k
  {
    if k == 0 then 0 else LoneCRs(b, k - 1) + (if LoneCR(b, k - 1) then 1 else 0)
  }

  /** What `trimPrefix` returns. The leading white space ends at FirstNonSpace(b).
      Every white-space byte there is removed except a lone CR. A lone CR is skipped
      but not removed, so as many bytes as there are lone CRs stay at the end of
      that region. */
  function TrimmedPrefix(b: seq<byte>): (r: seq<byte>)
    ensures |r| <= |b| && r == b[|b| - |r|..]
    ensures forall j :: 0 <= j < |b| - |r| ==> IsSpace(b[j])
    ensures |b| > 0 && !IsSpace(b[0]) ==> r == b
  {
    var k := FirstNonSpace(b);
    b[k - LoneCRs(b, k)..]
  }

  /** Index of the last byte that is not IsBlank, or -1. */
  function LastNonBlank(b: seq<byte>): (j: int)
    ensures -1 <= j < |b|
    ensures forall i :: j < i < |b| ==> IsBlank(b[i])
    ensures j >= 0 ==> !IsBlank(b[j])
  {
    if |b| == 0 || !IsBlank(b[|b| - 1]) then |b| - 1
    else LastNonBlank(b[..|b| - 1])
  }

  /** What `trimSuffix` returns. Trailing spaces, tabs and LFs come off. If the last
      byte that stays is a CR at an index above 0 and an LF was removed right after
      it, that CR comes off as well. Scanning stops there. */
  function TrimmedSuffix(b: seq<byte>): (r: seq<byte>)
    ensures |r| <= |b| && r == b[..|r|]
    ensures forall j :: |r| <= j < |b| ==> IsSpace(b[j])
    ensures |b| > 0 && !IsBlank(b[|b| - 1]) ==> r == b
  {
    var j := LastNonBlank(b);
    var e := if j >= 1 && b[j] == CR && j + 1 < |b| && b[j + 1] == LF then j else j + 1;
    b[..e]
  }

  /** What `trim` returns: trimPrefix, then trimSuffix. */
  function Trimmed(b: seq<byte>): (r: seq<byte>)
    ensures |r| <= |b|
  {
    TrimmedSuffix(TrimmedPrefix(b))
  }

  method TrimPrefix(b: seq<byte>) returns (r: seq<byte>)
    ensures r == TrimmedPrefix(b)
  {
    var start := 0;
    var i := 0;
    while i < |b|
      invariant 0 <= i <= |b|
      invariant forall j :: 0 <= j < i ==> IsSpace(b[j])
      invariant start == i - LoneCRs(b, i)
    {
      if b[i] == CR {
        if i + 1 < |b| && b[i + 1] == LF {
          start := start + 2;
          i := i + 1;
        }
      } else if b[i] == LF || b[i] == SPACE || b[i] == TAB {
        start := start + 1;
      } else {
        return b[start..];
      }
      i := i + 1;
    }
    return b[start..];
  }

  method TrimSuffix(b: seq<byte>) returns (r: seq<byte>)
    ensures r == TrimmedSuffix(b)
  {
    var end := |b|;
    var i := |b| - 1;
    while i >= 0
      invariant -1 <= i < |b|
      invariant forall j :: i < j < |b| ==> IsBlank(b[j])
      invariant end == i + 1 - (if i >= 1 && b[i] == CR && i + 1 < |b| && b[i + 1] == LF then 1 else 0)
    {
      if b[i] == LF {
        end := end - 1;
        if i - 1 > 0 && b[i - 1] == CR {
          end := end - 1;
        }
      } else if b[i] == SPACE || b[i] == TAB {
        end := end - 1;
      } else {
        return b[..end];
      }
      i := i - 1;
    }
    return b[..end];
  }

  method Trim(b: seq<byte>) returns (r: seq<byte>)
    ensures r == Trimmed(b)
  {
    r := TrimPrefix(b);
    r := TrimSuffix(r);
  }

  /** `trim` yields a contiguous sub-slice of its argument: it starts where
      trimPrefix left off, and only white space is dropped on either side. */
  lemma TrimmedIsSubslice(b: seq<byte>)
    ensures var lo := |b| - |TrimmedPrefix(b)|;
      lo + |Trimmed(b)| <= |b| && Trimmed(b) == b[lo..lo + |Trimmed(b)|]
      && (forall j :: 0 <= j < lo ==> IsSpace(b[j]))
      && (forall j :: lo + |Trimmed(b)| <= j < |b| ==> IsSpace(b[j]))
  {
    var p := TrimmedPrefix(b);
    var lo := |b| - |p|;
    var r := TrimmedSuffix(p);
    assert forall j :: lo + |r| <= j < |b| ==> b[j] == p[j - lo];
  }

  /** Without CRs nothing is merely skipped: trimPrefix removes exactly the
      leading white space. */
  lemma {:induction false} NoLoneCRs(b: seq<byte>, k: nat)
    requires k <= |b|
    requires CR !in b
    ensures LoneCRs(b, k) == 0
  {
    if k > 0 {
      NoLoneCRs(b, k - 1);
    }
  }

  lemma TrimmedPrefixNoCR(b: seq<byte>)
    requires CR !in b
    ensures TrimmedPrefix(b) == b[FirstNonSpace(b)..]
  {
    NoLoneCRs(b, FirstNonSpace(b));
  }

  /** FirstNonSpace is pinned down by its two properties. */
  lemma FirstNonSpaceIs(b: seq<byte>, k: nat)
    requires k <= |b|
    requires forall j :: 0 <= j < k ==> IsSpace(b[j])
    requires k < |b| ==> !IsSpace(b[k])
    ensures FirstNonSpace(b) == k
  {
  }

  /** LastNonBlank is pinned down by its two properties. */
  lemma LastNonBlankIs(b: seq<byte>, j: int)
    requires -1 <= j < |b|
    requires forall i :: j < i < |b| ==> IsBlank(b[i])
    requires j >= 0 ==> !IsBlank(b[j])
    ensures LastNonBlank(b) == j
  {
  }

  /** Padding with spaces, tabs and LFs on both sides is undone by `trim` when
      the padded bytes themselves start and end with something else. */
  lemma TrimmedPadded(lead: seq<byte>, x: seq<byte>, trail: seq<byte>)
    requires forall j :: 0 <= j < |lead| ==> IsBlank(lead[j])
    requires forall j :: 0 <= j < |trail| ==> IsBlank(trail[j])
    requires |x| > 0 ==> !IsSpace(x[0]) && !IsSpace(x[|x| - 1])
    ensures Trimmed(lead + x + trail) == x
  {
    var b := lead + x + trail;
    if |x| > 0 {
      assert b == lead + (x + trail);
      var p := TrimmedPrefixPadded(lead, x + trail);
      TrimmedSuffixPadded(x, trail);
    } else {
      assert b == lead + trail;
      var p := TrimmedPrefixPadded(lead + trail, []);
      assert lead + trail + [] == lead + trail;
    }
  }

  lemma TrimmedPrefixPadded(lead: seq<byte>, y: seq<byte>) returns (p: seq<byte>)
    requires forall j :: 0 <= j < |lead| ==> IsBlank(lead[j])
    requires |y| > 0 ==> !IsSpace(y[0])
    ensures p == TrimmedPrefix(lead + y) == y
  {
    var b := lead + y;
    assert forall j :: 0 <= j < |lead| ==> b[j] == lead[j];
    if |y| > 0 { assert b[|lead|] == y[0]; }
    FirstNonSpaceIs(b, |lead|);
    assert CR !in b[..|lead|] by {
      assert b[..|lead|] == lead;
    }
    NoLoneCRsPrefix(b, |lead|);
    p := TrimmedPrefix(b);
  }

  lemma TrimmedSuffixPadded(x: seq<byte>, trail: seq<byte>)
    requires forall j :: 0 <= j < |trail| ==> IsBlank(trail[j])
    requires |x| > 0 && !IsSpace(x[|x| - 1])
    ensures TrimmedSuffix(x + trail) == x
  {
    var p := x + trail;
    assert forall j :: 0 <= j < |trail| ==> p[|x| + j] == trail[j];
    assert p[|x| - 1] == x[|x| - 1];
    LastNonBlankIs(p, |x| - 1);
    assert p[..|x|] == x;
  }

  /** Lone CRs are only counted among the first k bytes. */
  lemma {:induction false} NoLoneCRsPrefix(b: seq<byte>, k: nat)
    requires k <= |b|
    requires CR !in b[..k]
    ensures LoneCRs(b, k) == 0
  {
    if k > 0 {
      assert b[k - 1] == b[..k][k - 1];
      assert b[..k - 1] == b[..k][..k - 1];
      NoLoneCRsPrefix(b, k - 1);
    }
  }

  /** The lone-CR quirk of `trimPrefix`: "\r a" keeps one leading byte, so a
      second trim changes the result again (`trim` is not idempotent). */
  lemma LoneCRQuirk()
    ensures TrimmedPrefix([CR, SPACE, 'a' as byte]) == [SPACE, 'a' as byte]
    ensures Trimmed(Trimmed([CR, SPACE, 'a' as byte])) == ['a' as byte]
  {
    var b := [CR, SPACE, 'a' as byte];
    FirstNonSpaceIs(b, 2);
    assert LoneCRs(b, 2) == 1 by {
      assert LoneCR(b, 0) && !LoneCR(b, 1);
    }
    var c := [SPACE, 'a' as byte];
    LastNonBlankIs(c, 1);
    assert Trimmed(b) == c;
    FirstNonSpaceIs(c, 1);
    assert LoneCRs(c, 1) == 0;
  }

  /** The CR LF quirks of `trimSuffix`: only one pair comes off, and a CR at
      index 0 stays. */
  lemma CRLFQuirks()
    ensures TrimmedSuffix(['a' as byte, SPACE, CR, LF]) == ['a' as byte, SPACE]
    ensures TrimmedSuffix([CR, LF]) == [CR]
  {
    var b := ['a' as byte, SPACE, CR, LF];
    LastNonBlankIs(b, 2);
    var c := [CR, LF];
    LastNonBlankIs(c, 0);
  }

  /** Index of the last byte of s[lo..hi] that is not IsBlank, or lo - 1:
      LastNonBlank of the sub-slice, as an index of s. */
  function LastNonBlankIn(s: seq<byte>, lo: nat, hi: nat): (j: int)
    requires lo <= hi <= |s|
    ensures lo - 1 <= j < hi
    ensures forall i :: j < i < hi ==> IsBlank(s[i])
    ensures j >= lo ==> !IsBlank(s[j])
    decreases hi - lo
  {
    if hi == lo || !IsBlank(s[hi - 1]) then hi - 1 else LastNonBlankIn(s, lo, hi - 1)
  }

  /** Where `trimSuffix` of s[lo..hi] ends, as an index of s. What follows
      is white space, a span that starts with a byte other than a space, tab
      or LF keeps that byte, and one that ends with such a byte is kept
      whole. */
  function SuffixEnd(s: seq<byte>, lo: nat, hi: nat): (e: nat)
    requires lo <= hi <= |s|
    ensures lo <= e <= hi
    ensures forall k :: e <= k < hi ==> IsSpace(s[k])
    ensures lo < hi && !IsBlank(s[lo]) ==> lo < e
    ensures lo < hi && !IsBlank(s[hi - 1]) ==> e == hi
  {
    var j := LastNonBlankIn(s, lo, hi);
    if j >= lo + 1 && s[j] == CR && j + 1 < hi && s[j + 1] == LF then j else j + 1
  }

  /** SuffixEnd is what `trimSuffix` keeps of the sub-slice. */
  lemma TrimmedSuffixAt(s: seq<byte>, lo: nat, hi: nat)
    requires lo <= hi <= |s|
    ensures TrimmedSuffix(s[lo..hi]) == s[lo..SuffixEnd(s, lo, hi)]
  {
    var b := s[lo..hi];
    assert forall i :: 0 <= i < |b| ==> b[i] == s[lo + i];
    LastNonBlankIs(b, LastNonBlankIn(s, lo, hi) - lo);
  }

  /** A span that starts with a byte `trimPrefix` does not step over is
      trimmed at its end only. */
  lemma TrimmedAt(s: seq<byte>, lo: nat, hi: nat)
    requires lo < hi <= |s| && !IsSpace(s[lo])
    ensures Trimmed(s[lo..hi]) == s[lo..SuffixEnd(s, lo, hi)]
  {
    assert s[lo..hi][0] == s[lo];
    TrimmedSuffixAt(s, lo, hi);
  }

  /** `trim` of s[lo..hi], where s[lo] is a byte `trimPrefix` keeps. */
  method TrimFrom(s: seq<byte>, lo: nat, hi: nat) returns (r: seq<byte>)
    requires lo < hi <= |s| && !IsSpace(s[lo])
    ensures r == s[lo..SuffixEnd(s, lo, hi)]
  {
    r := Trim(s[lo..hi]);
    TrimmedAt(s, lo, hi);
  }

  /** LastNonBlankIn and SuffixEnd only look at s[lo..hi]: in t, which holds
      those bytes d further on, they are the same indices shifted by d. */
  lemma {:induction false} LastNonBlankInShift(s: seq<byte>, t: seq<byte>, d: nat, lo: nat, hi: nat)
    requires lo <= hi <= |s| && d + hi <= |t|
    requires forall k :: lo <= k < hi ==> t[d + k] == s[k]
    ensures LastNonBlankIn(t, d + lo, d + hi) == d + LastNonBlankIn(s, lo, hi)
    decreases hi - lo
  {
    if lo < hi {
      assert t[d + hi - 1] == s[hi - 1];
      if IsBlank(s[hi - 1]) {
        LastNonBlankInShift(s, t, d, lo, hi - 1);
      }
    }
  }

  lemma SuffixEndShift(s: seq<byte>, t: seq<byte>, d: nat, lo: nat, hi: nat)
    requires lo <= hi <= |s| && d + hi <= |t|
    requires forall k :: lo <= k < hi ==> t[d + k] == s[k]
    ensures SuffixEnd(t, d + lo, d + hi) == d + SuffixEnd(s, lo, hi)
  {
    LastNonBlankInShift(s, t, d, lo, hi);
    var j := LastNonBlankIn(s, lo, hi);
    if lo <= j {
      assert t[d + j] == s[j];
    }
    if lo <= j && j + 1 < hi {
      assert t[d + j + 1] == s[j + 1];
    }
  }

  lemma {:induction false} LastNonBlankInAgree(s: seq<byte>, t: seq<byte>, lo: nat, hi: nat)
    requires lo <= hi <= |s| && hi <= |t|
    requires forall k :: lo <= k < hi ==> s[k] == t[k]
    ensures LastNonBlankIn(t, lo, hi) == LastNonBlankIn(s, lo, hi)
    decreases hi - lo
  {
    if lo < hi && IsBlank(s[hi - 1]) {
      LastNonBlankInAgree(s, t, lo, hi - 1);
    }
  }

  /** SuffixEnd only looks at s[lo..hi]. */
  lemma SuffixEndAgree(s: seq<byte>, t: seq<byte>, lo: nat, hi: nat)
    requires lo <= hi <= |s| && hi <= |t|
    requires forall k :: lo <= k < hi ==> s[k] == t[k]
    ensures SuffixEnd(t, lo, hi) == SuffixEnd(s, lo, hi)
  {
    LastNonBlankInAgree(s, t, lo, hi);
  }
}
