/** What one `RawToken` call returns and leaves behind, as a function of the
    bytes the tokenizer has read since `Reset` (the stream), the stream
    index of the cursor when the call starts, and the read error that ended
    the input if the call ran out of it. The Tokenizer class proves that its
    RawToken method computes this outcome; the lemmas here state what the
    outcome is. */
module Outcome {
  import opened Bytes
  import opened Trim
  import opened Tokens
  import opened Scan

  /** The errors the tokenizer distinguishes: io.EOF, io.ErrUnexpectedEOF,
      the auto-grow limit, and any other error of the reader. Crash stands
      for a panic of the source (an index or slice out of range); the
      tokenizer stops there. */
  datatype Err = NoError | EOF | UnexpectedEOF | BufferLimit | ReadFailure | Crash

  /** The promotion of io.EOF to io.ErrUnexpectedEOF inside a construct. */
  function Unexpected(e: Err): Err {
    if e == EOF then UnexpectedEOF else e
  }

  /** The bytes returned (b), the error returned (e), the stream index the
      cursor moves to (cursor), the error stored for the next call (err),
      and whether the call ran out of input (stopped). */
  datatype Raw = Raw(b: Slice, e: Err, cursor: nat, err: Err, stopped: bool)

  /** `RawToken` from stream index c: the first '<' from c on, and what
      stands there. Without a '<' the call returns the read error re and no
      bytes. */
  function RawOutcome(s: seq<byte>, c: nat, re: Err): Raw
    requires c <= |s|
  {
    var p := FindByte(s, c, |s|, LT);
    if p == -1 then Raw(Nil, re, c, re, true) else OutcomeAt(s, p, re)
  }

  /** The construct whose '<' is at p. An unfinished one returns its bytes
      so far with io.EOF promoted to io.ErrUnexpectedEOF. A processing
      instruction, comment or declaration (`<?`, `<!`) is returned (trimmed)
      up to its end. After any other construct the character data that
      follows is taken along (DataOutcome). A returned span starts with its
      '<', so `trim` only takes white space off its end: the bytes are
      s[p..SuffixEnd(s, p, hi)] for the span's end hi, which
      RawOutcomeTrimmed states is the trim of s[p..hi]. */
  function OutcomeAt(s: seq<byte>, p: nat, re: Err): Raw
    requires p < |s|
  {
    match Scan.Scan(s, p, p + 1)
    case More => Raw(Of(s[p..]), Unexpected(re), p, Unexpected(re), true)
    case Panic => Raw(Nil, Crash, p, Crash, false)
    case Found(end) =>
      if s[p + 1] == QUESTION || s[p + 1] == BANG then Raw(Of(s[p..SuffixEnd(s, p, end)]), NoError, end, NoError, false)
      else DataOutcome(s, p, end, re)
  }

  /** A tag that ends at end, with the character data after it as DataScan
      delimits it. The call itself succeeds; when the data runs to the end
      of the input, the read error is stored for the next call, promoted to
      io.ErrUnexpectedEOF when a CDATA section may still be open. */
  function DataOutcome(s: seq<byte>, p: nat, end: nat, re: Err): Raw
    requires p < end <= |s|
  {
    var x := DataScan(s, end);
    var hi := match x case Stop(y) => y case Text => |s| case Open(l) => l;
    var stored := match x case Stop(_) => NoError case Text => re case Open(_) => Unexpected(re);
    Raw(Of(s[p..SuffixEnd(s, p, hi)]), NoError, hi, stored, !x.Stop?)
  }

  /** s agrees with t on the first |s| bytes. */
  predicate Prefix(s: seq<byte>, t: seq<byte>) {
    |s| <= |t| && forall k :: 0 <= k < |s| ==> s[k] == t[k]
  }

  /** Without a '<' from c on, the call returns the read error and no
      bytes, stores the error and leaves the cursor where it is. */
  lemma RawOutcomeNone(s: seq<byte>, c: nat, re: Err)
    requires c <= |s| && FindByte(s, c, |s|, LT) == -1
    ensures RawOutcome(s, c, re) == Raw(Nil, re, c, re, true)
    ensures Delivers(s, c, re, Nil, re, re, c)
  {
  }

  /** A call from c that returned b and e, left the stored error err and
      the cursor at stream index cursor, did what RawOutcome says. */
  predicate Delivers(s: seq<byte>, c: nat, re: Err, b: Slice, e: Err, err: Err, cursor: nat)
    requires c <= |s|
  {
    var r := RawOutcome(s, c, re);
    b == r.b && e == r.e && err == r.err && (r.e != Crash ==> cursor == r.cursor)
  }

  lemma NonTagDelivers(s: seq<byte>, c: nat, p: nat, end: nat, re: Err, b: seq<byte>)
    requires c <= p < |s| && FindByte(s, c, |s|, LT) == p && Scan.Scan(s, p, p + 1) == Found(end)
    requires s[p + 1] == QUESTION || s[p + 1] == BANG
    requires b == s[p..SuffixEnd(s, p, end)]
    ensures Delivers(s, c, re, Of(b), NoError, NoError, end)
    ensures !RawOutcome(s, c, re).stopped
  {
  }

  lemma MoreDelivers(s: seq<byte>, c: nat, p: nat, re: Err)
    requires c <= p < |s| && FindByte(s, c, |s|, LT) == p && Scan.Scan(s, p, p + 1) == More
    ensures Delivers(s, c, re, Of(s[p..]), Unexpected(re), Unexpected(re), p)
    ensures RawOutcome(s, c, re).stopped
  {
  }

  lemma PanicDelivers(s: seq<byte>, c: nat, p: nat, re: Err, cursor: nat)
    requires c <= p < |s| && FindByte(s, c, |s|, LT) == p && Scan.Scan(s, p, p + 1) == Panic
    ensures Delivers(s, c, re, Nil, Crash, Crash, cursor)
    ensures !RawOutcome(s, c, re).stopped
  {
  }

  /** With the first '<' from c on at p, the outcome is the construct's. */
  lemma OutcomeAtIs(s: seq<byte>, c: nat, p: nat, re: Err)
    requires c <= p < |s| && FindByte(s, c, |s|, LT) == p
    ensures RawOutcome(s, c, re) == OutcomeAt(s, p, re)
  {
  }

  /** DataOutcome case by case: the trimmed bytes up to hi, where the data
      stops or the input ends, and the error stored for the next call. */
  lemma DataOutcomeIs(s: seq<byte>, p: nat, end: nat, re: Err, x: DataEnd, hi: nat, stored: Err, b: seq<byte>)
    requires p < end <= |s| && x == DataScan(s, end)
    requires match x
      case Stop(y) => hi == y && stored == NoError
      case Text => hi == |s| && stored == re
      case Open(l) => hi == l && stored == Unexpected(re)
    requires p < hi <= |s| && b == s[p..SuffixEnd(s, p, hi)]
    ensures DataOutcome(s, p, end, re) == Raw(Of(b), NoError, hi, stored, !x.Stop?)
  {
  }

  /** An outcome that did not run out of input is final: reading more bytes,
      however the reader splits them, and whatever error ends them, gives
      the same outcome. */
  lemma RawOutcomeExtend(s: seq<byte>, t: seq<byte>, c: nat, re: Err, re2: Err)
    requires c <= |s| && Prefix(s, t)
    requires !RawOutcome(s, c, re).stopped
    ensures RawOutcome(t, c, re2) == RawOutcome(s, c, re)
  {
    var p := FindByte(s, c, |s|, LT);
    FindByteExtend(s, t, c, LT);
    OutcomeAtExtend(s, t, p, re, re2);
  }

  lemma OutcomeAtExtend(s: seq<byte>, t: seq<byte>, p: nat, re: Err, re2: Err)
    requires p < |s| && Prefix(s, t)
    requires !OutcomeAt(s, p, re).stopped
    ensures OutcomeAt(t, p, re2) == OutcomeAt(s, p, re)
  {
    ScanExtend(s, t, p, p + 1);
    match Scan.Scan(s, p, p + 1)
    case Found(end) =>
      if s[p + 1] == QUESTION || s[p + 1] == BANG {
        SuffixEndAgree(s, t, p, end);
        SlicePrefix(s, t, p, SuffixEnd(s, p, end));
      } else {
        DataOutcomeExtend(s, t, p, end, re, re2);
      }
    case Panic =>
  }

  lemma DataOutcomeExtend(s: seq<byte>, t: seq<byte>, p: nat, end: nat, re: Err, re2: Err)
    requires p < end <= |s| && Prefix(s, t)
    requires !DataOutcome(s, p, end, re).stopped
    ensures DataOutcome(t, p, end, re2) == DataOutcome(s, p, end, re)
  {
    DataScanExtend(s, t, end);
    var x := DataScan(s, end).end;
    SuffixEndAgree(s, t, p, x);
    SlicePrefix(s, t, p, SuffixEnd(s, p, x));
  }

  lemma SlicePrefix(s: seq<byte>, t: seq<byte>, lo: nat, hi: nat)
    requires Prefix(s, t) && lo <= hi <= |s|
    ensures t[lo..hi] == s[lo..hi]
  {
    assert forall k :: 0 <= k < hi - lo ==> t[lo..hi][k] == s[lo..hi][k];
  }

  /** The bytes r returns, if any, are the stream from the '<' at p on, less
      white space at their end that runs up to the cursor; a call that
      succeeds moves the cursor past them. */
  predicate SpanFrom(s: seq<byte>, p: nat, r: Raw) {
    r.b.Of? ==> (
      && |r.b.bytes| > 0 && r.b.bytes[0] == LT
      && p + |r.b.bytes| <= |s| && r.b.bytes == s[p..p + |r.b.bytes|]
      && (!r.stopped ==> p + |r.b.bytes| <= r.cursor)
      && forall k :: p + |r.b.bytes| <= k < r.cursor <= |s| ==> IsSpace(s[k]))
  }

  /** The bytes returned start at the first '<' from the cursor on: never
      anything before it, never a byte past the new cursor but white
      space. */
  lemma RawOutcomeBytes(s: seq<byte>, c: nat, re: Err)
    requires c <= |s|
    ensures var r := RawOutcome(s, c, re);
      var p := FindByte(s, c, |s|, LT);
      r.b.Of? ==> p != -1 && s[p] == LT && (forall k :: c <= k < p ==> s[k] != LT) && SpanFrom(s, p, r)
  {
    var p := FindByte(s, c, |s|, LT);
    FindByteIs(s, c, |s|, LT);
    if p != -1 {
      OutcomeAtBytes(s, p, re);
    }
  }

  lemma OutcomeAtBytes(s: seq<byte>, p: nat, re: Err)
    requires p < |s| && s[p] == LT
    ensures SpanFrom(s, p, OutcomeAt(s, p, re))
  {
    match Scan.Scan(s, p, p + 1)
    case More =>
    case Panic =>
    case Found(end) =>
      if s[p + 1] == QUESTION || s[p + 1] == BANG {
        TrimmedSpan(s, p, end, OutcomeAt(s, p, re));
      } else {
        DataOutcomeBytes(s, p, end, re);
      }
  }

  lemma DataOutcomeBytes(s: seq<byte>, p: nat, end: nat, re: Err)
    requires p < end <= |s| && s[p] == LT
    ensures SpanFrom(s, p, DataOutcome(s, p, end, re))
  {
    match DataScan(s, end)
    case Stop(x) => TrimmedSpan(s, p, x, DataOutcome(s, p, end, re));
    case Text => TrimmedSpan(s, p, |s|, DataOutcome(s, p, end, re));
    case Open(l) => TrimmedSpan(s, p, l, DataOutcome(s, p, end, re));
  }

  /** An outcome that returns the trimmed span from the '<' at p to the new
      cursor returns a span as SpanFrom states it. */
  lemma TrimmedSpan(s: seq<byte>, p: nat, hi: nat, r: Raw)
    requires p < hi <= |s| && s[p] == LT
    requires r.b == Of(s[p..SuffixEnd(s, p, hi)]) && r.cursor == hi
    ensures SpanFrom(s, p, r)
  {
  }

  /** Every outcome without an error returns `trim` of the stream from the
      first '<' from c on up to the new cursor. */
  lemma RawOutcomeTrimmed(s: seq<byte>, c: nat, re: Err)
    requires c <= |s| && re != NoError
    ensures var r := RawOutcome(s, c, re); var p := FindByte(s, c, |s|, LT);
      r.e == NoError ==> p != -1 && p < r.cursor <= |s| && r.b == Of(Trimmed(s[p..r.cursor]))
  {
    var r := RawOutcome(s, c, re);
    var p := FindByte(s, c, |s|, LT);
    RawOutcomeSpan(s, c, re);
    if r.e == NoError {
      TrimmedAt(s, p, r.cursor);
    }
  }

  /** The same with the trim's end as SuffixEnd states it. */
  lemma RawOutcomeSpan(s: seq<byte>, c: nat, re: Err)
    requires c <= |s| && re != NoError
    ensures var r := RawOutcome(s, c, re); var p := FindByte(s, c, |s|, LT);
      r.e == NoError ==> p != -1 && s[p] == LT && p < r.cursor <= |s| && r.b == Of(s[p..SuffixEnd(s, p, r.cursor)])
  {
    var p := FindByte(s, c, |s|, LT);
    FindByteIs(s, c, |s|, LT);
    if p != -1 {
      OutcomeAtIs(s, c, p, re);
      ScanEnds(s, p, p + 1);
    }
  }

  /** A processing instruction, comment or declaration comes back exactly:
      every byte from its '<' to its '>', and the cursor moves past the '>'.
      Nothing is stored. */
  lemma RawOutcomeNonTag(s: seq<byte>, c: nat, re: Err, p: nat, end: nat)
    requires c <= p < |s| && FindByte(s, c, |s|, LT) == p
    requires Scan.Scan(s, p, p + 1) == Found(end)
    requires s[p + 1] == QUESTION || s[p + 1] == BANG
    ensures RawOutcome(s, c, re) == Raw(Of(s[p..end]), NoError, end, NoError, false)
    ensures s[p] == LT && s[end - 1] == GT
  {
    FindByteIs(s, c, |s|, LT);
    ScanEnds(s, p, p + 1);
  }

  /** With io.EOF as the input's end: io.EOF is returned exactly when no '<'
      is left, and io.ErrUnexpectedEOF exactly when the input ends inside
      the construct of the first '<'; that construct's bytes come back with
      it. */
  lemma RawOutcomeEOF(s: seq<byte>, c: nat)
    requires c <= |s|
    ensures var r := RawOutcome(s, c, EOF);
      var p := FindByte(s, c, |s|, LT);
      && (r.e == EOF <==> p == -1)
      && (r.e == UnexpectedEOF <==> p != -1 && Scan.Scan(s, p, p + 1) == More)
      && (r.e == UnexpectedEOF ==> r.b == Of(s[p..]) && s[p] == LT && r.err == UnexpectedEOF)
  {
    FindByteIs(s, c, |s|, LT);
  }

  /** A returned error is also the one stored, whatever the read error. */
  lemma RawOutcomeError(s: seq<byte>, c: nat, re: Err)
    requires c <= |s|
    ensures var r := RawOutcome(s, c, re); r.e != NoError ==> r.err == r.e
  {
  }

  /** Which outcomes store an error for the next call: those that returned
      one (other than a crash, which stops the tokenizer as well), and those
      whose character data ran to the end of the input. All of them ran out
      of input, and every outcome that did not left no error. */
  lemma RawOutcomeStored(s: seq<byte>, c: nat, re: Err)
    requires c <= |s| && re != NoError && re != Crash
    ensures var r := RawOutcome(s, c, re);
      && (r.e != NoError ==> r.err == r.e)
      && (r.err != NoError && r.err != Crash <==> r.stopped)
      && (r.e == Crash <==> r.err == Crash)
      && (r.e == NoError ==> r.b.Of?)
  {
  }
}
