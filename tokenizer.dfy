/** The Tokenizer object: its buffer management (`Reset`,
    `memmoveRemainingBytes`, `manageBuffer`), the scanning loops of
    `RawToken` and `parseCharData`, and `Token` with the `consume…` steps
    that fill in the shared token.

    The io.Reader is a Reader value: the bytes it will deliver, then the
    error it reports once they are exhausted (io.EOF or a failure). Each
    read delivers between 1 and the requested number of bytes; how many is
    not fixed (`:|`), so every property proved holds for every way the
    reader may split its bytes. */
module Tokenizer {
  import opened Bytes
  import opened Trim
  import opened Tokens
  import opened Decompose
  import opened Scan
  import opened Outcome

  const DefaultReadBufferSize: int := 4096
  const DefaultAutoGrowBufferMaxLimitSize: int := 1024000
  const DefaultAttrsBufferSize: int := 16

  /** The data the reader will deliver and the error it reports after it. */
  datatype Reader = Reader(data: seq<byte>, end: Err)

  predicate ReaderEnd(e: Err) {
    e == EOF || e == ReadFailure
  }

  datatype Options = Options(readBufferSize: int, autoGrowBufferMaxLimitSize: int, attrsBufferSize: int)

  function DefaultOptions(): Options {
    Options(DefaultReadBufferSize, DefaultAutoGrowBufferMaxLimitSize, DefaultAttrsBufferSize)
  }

  /** Go's Option closures: each sets one field of the options. */
  datatype Knob = ReadBufferSize | AutoGrowBufferMaxLimitSize | AttrsBufferSize
  datatype Option = Option(knob: Knob, size: int)

  /** A size that is not positive falls back to the default of its field. */
  function Fallback(size: int, default: int): (r: int)
    ensures size > 0 ==> r == size
    ensures size <= 0 ==> r == default
  {
    if size <= 0 then default else size
  }

  function WithReadBufferSize(size: int): (o: Option)
    ensures o.knob == ReadBufferSize && o.size > 0
    ensures o.size == Fallback(size, DefaultReadBufferSize)
  {
    Option(ReadBufferSize, Fallback(size, DefaultReadBufferSize))
  }

  function WithAutoGrowBufferMaxLimitSize(size: int): (o: Option)
    ensures o.knob == AutoGrowBufferMaxLimitSize && o.size > 0
    ensures o.size == Fallback(size, DefaultAutoGrowBufferMaxLimitSize)
  {
    Option(AutoGrowBufferMaxLimitSize, Fallback(size, DefaultAutoGrowBufferMaxLimitSize))
  }

  function WithAttrBufferSize(size: int): (o: Option)
    ensures o.knob == AttrsBufferSize && o.size > 0
    ensures o.size == Fallback(size, DefaultAttrsBufferSize)
  {
    Option(AttrsBufferSize, Fallback(size, DefaultAttrsBufferSize))
  }

  /** Calling one Option closure on the options. */
  function Apply(o: Options, opt: Option): Options {
    match opt.knob
    case ReadBufferSize => o.(readBufferSize := opt.size)
    case AutoGrowBufferMaxLimitSize => o.(autoGrowBufferMaxLimitSize := opt.size)
    case AttrsBufferSize => o.(attrsBufferSize := opt.size)
  }

  /** The options after the loop of `Reset` has called every closure. */
  function ApplyAll(o: Options, opts: seq<Option>): Options
    decreases |opts|
  {
    if opts == [] then o else Apply(ApplyAll(o, opts[..|opts| - 1]), opts[|opts| - 1])
  }

  /** The field an Option sets. */
  function Field(o: Options, k: Knob): int {
    match k
    case ReadBufferSize => o.readBufferSize
    case AutoGrowBufferMaxLimitSize => o.autoGrowBufferMaxLimitSize
    case AttrsBufferSize => o.attrsBufferSize
  }

  /** The options `Reset` ends with: the closures applied to the defaults,
      and the grow limit raised to the read buffer size if it is below it. */
  function Configured(opts: seq<Option>): (o: Options) {
    var a := ApplyAll(DefaultOptions(), opts);
    if a.readBufferSize > a.autoGrowBufferMaxLimitSize then a.(autoGrowBufferMaxLimitSize := a.readBufferSize) else a
  }

  /** The options were built by the With… functions: every size positive. */
  predicate Positive(opts: seq<Option>) {
    forall i :: 0 <= i < |opts| ==> opts[i].size > 0
  }

  /** Without an Option of a kind, that field keeps its default. */
  lemma {:induction false} ApplyAllUntouched(o: Options, opts: seq<Option>, k: Knob)
    requires forall i :: 0 <= i < |opts| ==> opts[i].knob != k
    ensures Field(ApplyAll(o, opts), k) == Field(o, k)
    decreases |opts|
  {
    if opts != [] {
      var init := opts[..|opts| - 1];
      assert forall i :: 0 <= i < |init| ==> init[i] == opts[i];
      ApplyAllUntouched(o, init, k);
    }
  }

  /** The last Option of a kind decides that field. */
  lemma {:induction false} ApplyAllLastWins(o: Options, opts: seq<Option>, i: nat)
    requires i < |opts|
    requires forall j :: i < j < |opts| ==> opts[j].knob != opts[i].knob
    ensures Field(ApplyAll(o, opts), opts[i].knob) == opts[i].size
    decreases |opts|
  {
    var init := opts[..|opts| - 1];
    assert forall j :: 0 <= j < |init| ==> init[j] == opts[j];
    if i < |opts| - 1 {
      ApplyAllLastWins(o, init, i);
    }
  }

  /** With sizes from the With… functions, `Reset` leaves every size
      positive and the read buffer no larger than the grow limit. */
  lemma {:induction false} ConfiguredValid(opts: seq<Option>)
    requires Positive(opts)
    ensures var o := Configured(opts);
      0 < o.readBufferSize <= o.autoGrowBufferMaxLimitSize && 0 < o.attrsBufferSize
  {
    PositiveApplyAll(opts);
  }

  lemma {:induction false} PositiveApplyAll(opts: seq<Option>)
    requires Positive(opts)
    ensures var o := ApplyAll(DefaultOptions(), opts);
      o.readBufferSize > 0 && o.autoGrowBufferMaxLimitSize > 0 && o.attrsBufferSize > 0
    decreases |opts|
  {
    if opts != [] {
      var init := opts[..|opts| - 1];
      assert forall i :: 0 <= i < |init| ==> init[i] == opts[i];
      PositiveApplyAll(init);
    }
  }

  /** The option loop of `Reset` followed by the raise of the grow limit. */
  method Configure(opts: seq<Option>) returns (o: Options)
    requires Positive(opts)
    ensures o == Configured(opts)
    ensures 0 < o.readBufferSize <= o.autoGrowBufferMaxLimitSize && 0 < o.attrsBufferSize
  {
    o := DefaultOptions();
    for i := 0 to |opts|
      invariant o == ApplyAll(DefaultOptions(), opts[..i])
    {
      assert opts[..i + 1][..i] == opts[..i];
      o := Apply(o, opts[i]);
    }
    assert opts[..|opts|] == opts;
    if o.readBufferSize > o.autoGrowBufferMaxLimitSize {
      o := o.(autoGrowBufferMaxLimitSize := o.readBufferSize);
    }
    ConfiguredValid(opts);
  }

  /** `Reset` as written keeps the old buffer when it is large enough and
      reslices it to `size` bytes. Those are whatever the old backing array
      held there, not zeros. `backing` stands for the old backing array up
      to its capacity. */
  function ResetBufferAsWritten(backing: seq<byte>, size: nat): (b: seq<byte>)
    requires size <= |backing|
    ensures |b| == size
    ensures |backing| >= size + DefaultReadBufferSize ==> b == backing[..size]
    ensures |backing| < size + DefaultReadBufferSize ==> b == Zeros(size)
  {
    if |backing| >= size + DefaultReadBufferSize then backing[..size] else Zeros(size)
  }

  /** A tokenizer that has read `<a/>` has moved it to index 0 of its
      backing array. Reset with a new, empty reader then scans those stale
      bytes and finds `<a/>` again, a token the new input does not hold. */
  lemma ResetStaleBytes()
    ensures var backing := [LT, 'a' as byte, SLASH, GT] + Zeros(8188);
      var b := ResetBufferAsWritten(backing, 4096);
      FindByte(b, 0, |b|, LT) == 0 && Scan.Scan(b, 0, 1) == Found(4)
  {
    var backing := [LT, 'a' as byte, SLASH, GT] + Zeros(8188);
    var b := ResetBufferAsWritten(backing, 4096);
    assert b[0] == LT && b[1] == 'a' as byte && b[2] == SLASH && b[3] == GT;
    assert FindByte(b, 1, |b|, GT) == 3 by {
      assert FindByte(b, 3, |b|, GT) == 3;
      assert FindByte(b, 2, |b|, GT) == 3;
    }
    assert !Odd(b, 1, 4, QUOTE) by {
      assert b[1] != QUOTE && b[2] != QUOTE && b[3] != QUOTE;
    }
    StepTag(b, 0, 1);
    ScanDone(b, 0, 1, Found(4));
  }

  class Tokenizer {
    var reader: Reader
    /** Bytes read so far (Go's `t.n`); the reader has delivered data[..n]. */
    var n: nat
    var options: Options
    var buf: seq<byte>
    /** cap(t.buf). */
    var cap: nat
    var cur: nat
    var err: Err
    var token: Token

    /** The size of the zero-filled buffer that `Reset` starts with. */
    ghost var pad: nat
    /** The index in Stream() of buf[0]. */
    ghost var base: nat

    /** Everything the tokenizer has put in its buffer since `Reset`: the
        initial zero bytes, then what the reader has delivered. */
    ghost function Stream(): seq<byte>
      reads this`pad, this`reader, this`n
      requires n <= |reader.data|
    {
      Zeros(pad) + reader.data[..n]
    }

    /** Byte p of Stream(), for any p below its length. */
    ghost function StreamAt(p: nat): byte
      reads this`pad, this`reader
    {
      if p < pad then 0 else if p - pad < |reader.data| then reader.data[p - pad] else 0
    }

    /** The buffer holds the stream from index base on (StreamIs states it
        as a sequence equation). */
    ghost predicate Coherent()
      reads this`buf, this`pad, this`reader, this`n, this`base
    {
      && n <= |reader.data| && |buf| + base == pad + n
      && forall p {:trigger StreamAt(p)} :: base <= p < base + |buf| ==> StreamAt(p) == buf[p - base]
    }

    lemma StreamIs()
      requires Coherent()
      ensures base <= |Stream()| && buf == Stream()[base..]
    {
      var s := Stream();
      assert forall p :: 0 <= p < |s| ==> s[p] == StreamAt(p);
      assert forall k :: 0 <= k < |buf| ==> buf[k] == s[base..][k];
    }

    ghost predicate Valid()
      reads this`options, this`cur, this`buf, this`cap, this`pad, this`reader, this`n, this`base
    {
      && 0 < options.readBufferSize <= options.autoGrowBufferMaxLimitSize
      && 0 < options.attrsBufferSize
      && cur <= |buf| <= cap
      && ReaderEnd(reader.end)
      && Coherent()
    }

    /** New: a tokenizer reset onto r. */
    constructor (r: Reader, opts: seq<Option>)
      requires ReaderEnd(r.end) && Positive(opts)
      ensures Valid()
      ensures reader == r && n == 0 && cur == 0 && err == NoError
      ensures options == Configured(opts)
      ensures pad == options.readBufferSize && base == 0 && Stream() == Zeros(options.readBufferSize)
      ensures buf == Zeros(options.readBufferSize) && cap == options.readBufferSize + DefaultReadBufferSize
    {
      reader, err := r, NoError;
      n, cur := 0, 0;
      var o := Configure(opts);
      options := o;
      var size := o.readBufferSize;
      buf := Zeros(size);
      cap := size + DefaultReadBufferSize;
      token := ZeroToken;
      pad, base := size, 0;
    }

    /** `Reset`: a fresh reader and options, the read counter and cursor at
        0, no error, and a buffer of readBufferSize zero bytes. The old
        buffer's capacity is kept when it is large enough. Unlike the source
        (see ResetBufferAsWritten), the kept buffer is cleared. */
    method Reset(r: Reader, opts: seq<Option>)
      requires ReaderEnd(r.end) && Positive(opts)
      modifies this
      ensures Valid()
      ensures reader == r && n == 0 && cur == 0 && err == NoError && token == old(token)
      ensures options == Configured(opts)
      ensures pad == options.readBufferSize && base == 0 && Stream() == Zeros(options.readBufferSize)
      ensures buf == Zeros(options.readBufferSize)
      ensures cap == if old(cap) >= options.readBufferSize + DefaultReadBufferSize then old(cap)
        else options.readBufferSize + DefaultReadBufferSize
    {
      reader, err := r, NoError;
      n, cur := 0, 0;
      var o := Configure(opts);
      options := o;
      var size := o.readBufferSize;
      if cap >= size + DefaultReadBufferSize {
        buf := Zeros(size);
      } else {
        buf := Zeros(size);
        cap := size + DefaultReadBufferSize;
      }
      pad, base := size, 0;
    }

    /** `memmoveRemainingBytes`: moves buf[pivot..] to the front of the
        buffer and returns the new cursor and length. At pivot 0 nothing
        moves. */
    method Memmove(pivot: nat) returns (c: nat, last: nat)
      requires Valid() && cur <= pivot <= |buf|
      modifies this`buf, this`cur, this`base
      ensures Valid()
      ensures pivot == 0 ==> unchanged(this) && c == cur
      ensures pivot > 0 ==> buf == old(buf)[pivot..] && cur == 0 && c == 0 && base == old(base) + pivot
      ensures last == |buf|
    {
      if pivot == 0 {
        return cur, |buf|;
      }
      buf := buf[pivot..];
      cur := 0;
      base := base + pivot;
      return cur, |buf|;
    }

    /** `manageBuffer`: makes room for readBufferSize more bytes, by
        reslicing when the capacity allows it and otherwise by a new
        allocation of exactly that size, which the grow limit bounds. Then
        one read appends between 1 and readBufferSize bytes, or reports the
        reader's error and appends nothing. */
    method ManageBuffer() returns (e: Err)
      requires Valid()
      modifies this`buf, this`n, this`cap
      ensures Valid()
      ensures var grow := |old(buf)| + options.readBufferSize;
        && (e == BufferLimit <==> grow > old(cap) && grow > options.autoGrowBufferMaxLimitSize)
        && (e != BufferLimit ==> cap == if grow <= old(cap) then old(cap) else grow)
      ensures e == BufferLimit ==> unchanged(this)
      ensures e == NoError ==>
        old(n) < n <= old(n) + options.readBufferSize && buf == old(buf) + reader.data[old(n)..n]
      ensures e != NoError && e != BufferLimit ==>
        old(n) == |reader.data| && e == reader.end && buf == old(buf) && n == old(n)
      ensures e != NoError ==> Stopped(e)
    {
      var room := Reserve();
      if !room {
        return BufferLimit;
      }
      e := Fill();
    }

    /** The first half of `manageBuffer`: the capacity for readBufferSize
        more bytes, or false when that would pass the grow limit. */
    method Reserve() returns (room: bool)
      requires Valid()
      modifies this`cap
      ensures Valid()
      ensures var grow := |buf| + options.readBufferSize;
        && (!room <==> grow > old(cap) && grow > options.autoGrowBufferMaxLimitSize)
        && (room ==> cap == if grow <= old(cap) then old(cap) else grow)
      ensures !room ==> unchanged(this)
    {
      var grow := |buf| + options.readBufferSize;
      if grow <= cap {
        return true;
      }
      if grow > options.autoGrowBufferMaxLimitSize {
        return false;
      }
      cap := grow;
      return true;
    }

    /** The read of `manageBuffer`. */
    method Fill() returns (e: Err)
      requires Valid() && |buf| + options.readBufferSize <= cap
      modifies this`buf, this`n
      ensures Valid()
      ensures e == NoError || e == reader.end
      ensures e == NoError ==>
        old(n) < n <= old(n) + options.readBufferSize && buf == old(buf) + reader.data[old(n)..n]
      ensures e != NoError ==> old(n) == |reader.data| && n == old(n) && buf == old(buf)
    {
      if n == |reader.data| {
        return reader.end;
      }
      var k: nat :| 1 <= k <= options.readBufferSize && n + k <= |reader.data|;
      buf := buf + reader.data[n..n + k];
      n := n + k;
      return NoError;
    }

    /** `memmoveRemainingBytes(pivot)` followed by `manageBuffer`, as the
        scanning loops do when they reach the end of the buffer: the bytes
        from pivot on move to the front, and then more are read after them.
        The returned length is that of the moved bytes. */
    method Refill(pivot0: nat) returns (pivot: nat, last: nat, e: Err)
      requires Valid() && cur <= pivot0 <= |buf|
      modifies this`buf, this`cur, this`base, this`n, this`cap
      ensures Valid() && pivot == 0 && cur == 0 && last == |old(buf)| - pivot0 <= |buf|
      ensures MovedTo(old(buf), buf, pivot0)
      ensures base == old(base) + pivot0
      ensures e == NoError ==> last < |buf| && old(n) < n
      ensures e != NoError ==> last == |buf| && Stopped(e)
      ensures old(n) <= n
    {
      pivot, last := Memmove(pivot0);
      e := ManageBuffer();
    }

    /** The reader can give no more: the grow limit is reached, or all of
        the data is read and e is the reader's final error. */
    ghost predicate Stopped(e: Err)
      reads this`buf, this`options, this`cap, this`reader, this`n
    {
      || (e == BufferLimit && |buf| + options.readBufferSize > cap
          && |buf| + options.readBufferSize > options.autoGrowBufferMaxLimitSize)
      || (e == reader.end && n == |reader.data|)
    }

    /** `Token`. A stored error is returned again with the zero token, and
        nothing is read or changed. Otherwise the call is `RawToken` from
        the cursor's stream index, followed by what Cook says of its
        outcome: the token returned, the error returned and stored, and the
        shared token left behind (unspecified after a crash). */
    method Token() returns (t: Token, e: Err, ghost re: Err)
      requires Valid()
      modifies this`buf, this`cur, this`base, this`n, this`cap, this`err, this`token
      ensures Valid() && old(n) <= n
      ensures old(err) != NoError ==> t == ZeroToken && e == old(err) && unchanged(this)
      ensures old(err) == NoError ==> Served(old(base) + old(cur), old(token), t, e, re)
    {
      if err != NoError {
        return ZeroToken, err, err;
      }
      t, e, re := ReadAndCook();
    }

    /** The token, error and stored error Cook makes of the outcome of
        `RawToken` from stream index c, and the shared token it leaves (which
        a crash leaves unspecified); the cursor where that outcome leaves it;
        and, for an outcome that ran out of input, the read error re that
        ended it. */
    ghost predicate Served(c: nat, prev: Token, t: Token, e: Err, re: Err)
      reads this`buf, this`cur, this`err, this`pad, this`reader, this`n, this`base, this`options, this`cap, this`token
    {
      && n <= |reader.data| && c <= |Stream()|
      && var r := RawOutcome(Stream(), c, re);
         var k := Cook(r, prev);
         && t == k.t && e == k.e && err == k.err && (e != Crash ==> token == k.token)
         && (r.e != Crash ==> base + cur == r.cursor)
         && (r.stopped ==> Stopped(re))
    }

    method ReadAndCook() returns (t: Token, e: Err, ghost re: Err)
      requires Valid() && err == NoError
      modifies this`buf, this`cur, this`base, this`n, this`cap, this`err, this`token
      ensures Valid() && old(n) <= n
      ensures Served(old(base) + old(cur), old(token), t, e, re)
    {
      ghost var c, prev := base + cur, token;
      var b;
      b, e, re := ReadToken();
      ghost var r := RawOutcome(Stream(), c, re);
      RawOutcomeError(Stream(), c, re);
      t, e := Finish(b, e, r, prev);
    }

    /** What `Token` does with the result of its `RawToken` call. */
    method Finish(b: Slice, e0: Err, ghost r: Raw, ghost prev: Token) returns (t: Token, e: Err)
      requires b == r.b && e0 == r.e && err == r.err && token == prev
      requires r.e != NoError ==> r.err == r.e
      modifies this`err, this`token
      ensures var k := Cook(r, prev);
        t == k.t && e == k.e && err == k.err && (e != Crash ==> token == k.token)
    {
      e := e0;
      var x := b.View();
      if e != NoError {
        if |x| == 0 || e == UnexpectedEOF {
          return ZeroToken, e;
        }
        err := e;
      }
      var ok := Build(x);
      if !ok {
        err := Crash;
        return ZeroToken, Crash;
      }
      t := token;
      if |t.data.View()| == 0 {
        t := t.(data := Nil);
      }
      e := NoError;
    }

    /** `clearToken` and the `consume*` steps of `Token` on the span b; false
        where the source panics (a step whose bounds the span does not
        meet). */
    method Build(b: seq<byte>) returns (ok: bool)
      modifies this`token
      ensures ok == Decomposable(b)
      ensures ok ==> token == Decompose.Decompose(b)
    {
      ClearToken();
      var rest := ConsumeNonTagIdentifier(b);
      if |rest.View()| == 0 {
        return true;
      }
      ok := BuildTag(b);
    }

    /** The tag steps of Build, on the cleared token. */
    method BuildTag(b: seq<byte>) returns (ok: bool)
      requires token == ZeroToken && !IsNonTag(b) && |b| > 0
      modifies this`token
      ensures ok == (TagNameDefined(b) && AttrsDefined(TagName(b).rest))
      ensures ok ==> token == Decompose.Decompose(b)
    {
      if !TagNameDefined(b) {
        return false;
      }
      ghost var h := TagName(b);
      var afterName := ConsumeTagName(b);
      assert afterName == h.rest && token == ZeroToken.(name := h.name, isEndElement := h.isEnd);
      if !AttrsDefined(afterName) {
        return false;
      }
      ghost var a := ParseAttrs(h.rest);
      ghost var t1 := token;
      var afterAttrs := ConsumeAttrs(afterName);
      assert afterAttrs == a.rest && token == t1.(attrs := a.attrs, selfClosing := a.selfClosing);
      ghost var t3 := t1.(attrs := a.attrs, selfClosing := a.selfClosing, data := Of(CharDataPayload(a.rest)));
      DecomposeTag(b, t3);
      ConsumeCharData(afterAttrs);
      return true;
    }

    /** `RawToken`. A stored error is returned again, and nothing is read or
        changed. Otherwise the outcome is RawOutcome of the stream read so
        far, from the stream index of the cursor: the returned bytes and
        error, the error stored for the next call and the new cursor. An
        outcome that ran out of input names in re the read error that ended
        it. */
    method RawToken() returns (b: Slice, e: Err, ghost re: Err)
      requires Valid()
      modifies this`buf, this`cur, this`base, this`n, this`cap, this`err
      ensures Valid() && old(n) <= n
      ensures old(err) != NoError ==> b == Nil && e == old(err) && unchanged(this)
      ensures old(err) == NoError ==> Returned(old(base) + old(cur), b, e, re)
    {
      if err != NoError {
        return Nil, err, err;
      }
      b, e, re := ReadToken();
    }

    /** The outcome of a call that started with the cursor at stream index
        c, as this state and the results show it. */
    ghost predicate Returned(c: nat, b: Slice, e: Err, re: Err)
      reads this`buf, this`cur, this`err, this`pad, this`reader, this`n, this`base, this`options, this`cap
    {
      && n <= |reader.data| && c <= |Stream()|
      && Delivers(Stream(), c, re, b, e, err, base + cur)
      && (RawOutcome(Stream(), c, re).stopped ==> Stopped(re))
    }

    /** `RawToken` without a stored error. */
    method ReadToken() returns (b: Slice, e: Err, ghost re: Err)
      requires Valid() && err == NoError
      modifies this`buf, this`cur, this`base, this`n, this`cap, this`err
      ensures Valid() && old(n) <= n
      ensures Returned(old(base) + old(cur), b, e, re)
    {
      ghost var c := base + cur;
      var p;
      p, e := FindOpen();
      SearchInStream(cur);
      if e != NoError {
        err := e;
        RawOutcomeNone(Stream(), c, e);
        return Nil, e, e;
      }
      FindByteIs(buf, cur, |buf|, LT);
      b, e, re := ReadConstruct(c, p);
    }

    /** The first loop of `RawToken`: the first '<' from the cursor on (p),
        reading more while there is none, after moving the unread bytes to
        the front; or the read failure e with no '<' left. */
    method FindOpen() returns (p: nat, e: Err)
      requires Valid()
      modifies this`buf, this`cur, this`base, this`n, this`cap
      ensures Valid() && old(n) <= n && base + cur == old(base) + old(cur)
      ensures e == NoError ==> cur <= p < |buf| && FindByte(buf, cur, |buf|, LT) == p
      ensures e != NoError ==> FindByte(buf, cur, |buf|, LT) == -1 && Stopped(e)
    {
      while true
        invariant Valid() && old(n) <= n && base + cur == old(base) + old(cur)
        decreases |reader.data| - n
      {
        var i := FindByte(buf, cur, |buf|, LT);
        if i != -1 {
          return i, NoError;
        }
        ghost var b, d := buf, cur;
        FindByteIs(buf, cur, |buf|, LT);
        var c0, last := Memmove(cur);
        assert forall k :: 0 <= k < |buf| ==> buf[k] == b[k + d];
        FindByteNone(buf, cur, |buf|, LT);
        e := ManageBuffer();
        if e != NoError {
          return 0, e;
        }
      }
    }

    /** The second loop of `RawToken`: where the construct whose '<' is at
        pivot0 ends (r, as Scan states it), reading more while the scan
        needs more, after moving the construct to the front. A read failure
        leaves r == More and the construct at index 0. */
    method FindEnd(pivot0: nat) returns (pivot: nat, r: ScanResult, e: Err)
      requires Valid() && cur <= pivot0 < |buf| && buf[pivot0] == LT
      modifies this`buf, this`cur, this`base, this`n, this`cap
      ensures Valid() && old(n) <= n && cur <= pivot < |buf| && buf[pivot] == LT
      ensures base + pivot == old(base) + pivot0
      ensures r == Scan.Scan(buf, pivot, pivot + 1)
      ensures e == NoError ==> r != More
      ensures e != NoError ==> r == More && Stopped(e) && pivot == 0 && cur == 0 && base + |buf| == |Stream()|
    {
      pivot := pivot0;
      while true
        invariant Valid() && old(n) <= n && cur <= pivot < |buf| && buf[pivot] == LT
        invariant base + pivot == old(base) + pivot0
        decreases |reader.data| - n
      {
        r := FindTokenEnd(pivot);
        if r != More {
          return pivot, r, NoError;
        }
        ghost var b, d := buf, pivot;
        var last;
        pivot, last, e := Refill(pivot);
        Moved(b, buf, d, d, 0);
        if e != NoError {
          ScanMoved(b, buf, d);
          return;
        }
      }
    }

    /** `RawToken` once the '<' at p0 is found; c is where the search for it
        started. */
    method ReadConstruct(ghost c: nat, p0: nat) returns (b: Slice, e: Err, ghost re: Err)
      requires Valid() && err == NoError && cur <= p0 < |buf| && buf[p0] == LT
      requires c <= base + p0 && FindByte(Stream(), c, |Stream()|, LT) == base + p0
      modifies this`buf, this`cur, this`base, this`n, this`cap, this`err
      ensures Valid() && old(n) <= n && Returned(c, b, e, re)
    {
      ghost var s1, n1 := Stream(), n;
      var pivot, r;
      pivot, r, e := FindEnd(p0);
      Grown(s1, n1);
      FindByteExtend(s1, Stream(), c, LT);
      if e != NoError {
        b, e, re := Unfinished(c, pivot, e);
      } else if r.Panic? {
        err := Crash;
        PanicReturned(c, pivot, NoError);
        return Nil, Crash, NoError;
      } else if buf[pivot + 1] == QUESTION || buf[pivot + 1] == BANG {
        b := NonTag(c, pivot, r.end);
        return b, NoError, NoError;
      } else {
        ScanInStream(pivot);
        b, e, re := ReadCharData(c, pivot, r.end);
      }
    }

    /** The construct at pivot that the input ends in: its bytes so far come
        back with the read error, promoted to io.ErrUnexpectedEOF, which is
        stored as well. */
    method Unfinished(ghost c: nat, pivot: nat, e0: Err) returns (b: Slice, e: Err, ghost re: Err)
      requires Valid() && pivot == cur < |buf| && base + |buf| == |Stream()|
      requires c <= base + pivot && FindByte(Stream(), c, |Stream()|, LT) == base + pivot
      requires Scan.Scan(buf, pivot, pivot + 1) == More && Stopped(e0)
      modifies this`err
      ensures Valid() && Returned(c, b, e, re)
    {
      re := e0;
      e := Unexpected(e0);
      err := e;
      b := Of(buf[pivot..]);
      MoreReturned(c, pivot, b, re);
    }

    /** A processing instruction, comment or declaration that ends at end:
        returned trimmed, with the cursor past it. */
    method NonTag(ghost c: nat, pivot: nat, end: nat) returns (b: Slice)
      requires Valid() && err == NoError && cur <= pivot < end <= |buf|
      requires c <= base + pivot && FindByte(Stream(), c, |Stream()|, LT) == base + pivot
      requires Scan.Scan(buf, pivot, pivot + 1) == Found(end)
      requires buf[pivot] == LT && (buf[pivot + 1] == QUESTION || buf[pivot + 1] == BANG)
      modifies this`cur
      ensures Valid() && Returned(c, b, NoError, NoError)
    {
      var x := TrimFrom(buf, pivot, end);
      b := Of(x);
      cur := end;
      NonTagReturned(c, pivot, end, b, NoError);
    }

    /** `RawToken` after a tag that ends at end0: `parseCharData` takes the
        character data after it along. */
    method ReadCharData(ghost c: nat, pivot0: nat, end0: nat) returns (b: Slice, e: Err, ghost re: Err)
      requires Valid() && err == NoError && cur <= pivot0 && pivot0 + 1 < end0 <= |buf|
      requires buf[pivot0 + 1] != QUESTION && buf[pivot0 + 1] != BANG
      requires c <= base + pivot0 && FindByte(Stream(), c, |Stream()|, LT) == base + pivot0
      requires Scan.Scan(Stream(), base + pivot0, base + pivot0 + 1) == Found(base + end0)
      modifies this`buf, this`cur, this`base, this`n, this`cap, this`err
      ensures Valid() && old(n) <= n && Returned(c, b, e, re)
    {
      ghost var s2, n2 := Stream(), n;
      ghost var P, E := base + pivot0, base + end0;
      SliceInStream(pivot0, end0);
      assert s2[P + 1] == buf[pivot0..end0][1];
      FindByteIs(s2, c, |s2|, LT);
      var pivot, pos, from := ParseCharData(pivot0, end0);
      Grown(s2, n2);
      PivotInStream(s2, P, pivot);
      re := if err == UnexpectedEOF then EOF else err;
      b := TakeCharData(s2, c, P, E, pivot, from, pos + 1, re);
      e := NoError;
    }

    /** The end of `RawToken` after `parseCharData`: the bytes from pivot
        to pos, trimmed, with the cursor at pos. */
    method TakeCharData(ghost s2: seq<byte>, ghost c: nat, ghost P: nat, ghost E: nat, pivot: nat,
                        ghost from: nat, pos: nat, ghost re: Err) returns (b: Slice)
      requires Valid() && Prefix(s2, Stream())
      requires c <= P < E <= |s2| && FindByte(s2, c, |s2|, LT) == P && Scan.Scan(s2, P, P + 1) == Found(E)
      requires s2[P + 1] != QUESTION && s2[P + 1] != BANG
      requires pivot < from <= pos <= |buf| && base + pivot == P && base + from == E && buf[pivot] == LT
      requires match DataScan(buf, from)
        case Stop(x) => pos == x && err == NoError
        case Text => pos == |buf| && err == re && Stopped(re)
        case Open(l) => pos == l && err == Unexpected(re) && Stopped(re)
      modifies this`cur
      ensures Valid() && Returned(c, b, NoError, re)
    {
      var x := TrimFrom(buf, pivot, pos);
      b := Of(x);
      cur := pos;
      CharDataReturned(s2, c, P, E, pivot, from, b, re);
    }

    /** The outcome of a construct that the input ends in. */
    lemma MoreReturned(c: nat, pivot: nat, b: Slice, re: Err)
      requires Coherent() && pivot == cur < |buf| && base + |buf| == |Stream()|
      requires c <= base + pivot && FindByte(Stream(), c, |Stream()|, LT) == base + pivot
      requires Scan.Scan(buf, pivot, pivot + 1) == More && Stopped(re)
      requires b == Of(buf[pivot..]) && err == Unexpected(re)
      ensures Returned(c, b, Unexpected(re), re)
    {
      InStream();
      MoreDelivered(Stream(), buf, base, c, pivot, re);
    }

    /** The outcome of a construct whose scan panics. */
    lemma PanicReturned(c: nat, pivot: nat, re: Err)
      requires Coherent() && pivot < |buf| && err == Crash
      requires c <= base + pivot && FindByte(Stream(), c, |Stream()|, LT) == base + pivot
      requires Scan.Scan(buf, pivot, pivot + 1) == Panic
      ensures Returned(c, Nil, Crash, re)
    {
      InStream();
      PanicDelivered(Stream(), buf, base, c, pivot, re, base + cur);
    }

    /** The outcome of a processing instruction, comment or declaration. */
    lemma NonTagReturned(c: nat, pivot: nat, end: nat, b: Slice, re: Err)
      requires Coherent() && pivot < end == cur <= |buf| && err == NoError
      requires c <= base + pivot && FindByte(Stream(), c, |Stream()|, LT) == base + pivot
      requires Scan.Scan(buf, pivot, pivot + 1) == Found(end)
      requires buf[pivot + 1] == QUESTION || buf[pivot + 1] == BANG
      requires b == Of(buf[pivot..SuffixEnd(buf, pivot, end)])
      ensures Returned(c, b, NoError, re)
    {
      InStream();
      NonTagFromBuffer(Stream(), buf, base, c, pivot, end, re, b);
    }

    /** The outcome of a tag and the character data after it. */
    lemma CharDataReturned(s2: seq<byte>, c: nat, P: nat, E: nat, pivot: nat, from: nat, b: Slice, re: Err)
      requires Coherent() && Prefix(s2, Stream())
      requires c <= P < E <= |s2| && FindByte(s2, c, |s2|, LT) == P && Scan.Scan(s2, P, P + 1) == Found(E)
      requires s2[P + 1] != QUESTION && s2[P + 1] != BANG
      requires pivot < from <= cur <= |buf| && base + pivot == P && base + from == E
      requires b == Of(buf[pivot..SuffixEnd(buf, pivot, cur)])
      requires match DataScan(buf, from)
        case Stop(x) => cur == x && err == NoError
        case Text => cur == |buf| && err == re && Stopped(re)
        case Open(l) => cur == l && err == Unexpected(re) && Stopped(re)
      ensures Returned(c, b, NoError, re)
    {
      InStream();
      CharDataFromBuffer(s2, Stream(), buf, base, c, pivot, from, cur, P, E, err, re, b);
    }

    /** The byte at stream index P, read before, is still at pivot. */
    lemma PivotInStream(s2: seq<byte>, P: nat, pivot: nat)
      requires Coherent() && Prefix(s2, Stream()) && P < |s2| && base + pivot == P && pivot < |buf|
      ensures buf[pivot] == s2[P]
    {
      InStream();
    }

    /** The buffer is the stream from base on, index by index. */
    lemma InStream()
      requires Coherent()
      ensures |Stream()| == base + |buf| && forall k :: 0 <= k < |buf| ==> Stream()[base + k] == buf[k]
    {
      StreamIs();
    }

    /** Reading only appends to the stream. */
    lemma Grown(s1: seq<byte>, n1: nat)
      requires n1 <= n <= |reader.data| && s1 == Zeros(pad) + reader.data[..n1]
      ensures Prefix(s1, Stream())
    {
      var s := Stream();
      assert forall k :: 0 <= k < |s1| ==> s1[k] == (if k < pad then 0 else reader.data[k - pad]);
      assert forall k :: 0 <= k < |s| ==> s[k] == (if k < pad then 0 else reader.data[k - pad]);
    }

    /** A search of buf is a search of the stream from base on. */
    lemma SearchInStream(lo: nat)
      requires Coherent() && lo <= |buf|
      ensures var r := FindByte(buf, lo, |buf|, LT);
        FindByte(Stream(), base + lo, |Stream()|, LT) == if r == -1 then -1 else base + r
    {
      StreamIs();
      var s := Stream();
      assert forall k :: 0 <= k < |buf| ==> s[base + k] == buf[k];
      FindByteShift(buf, s, base, lo, |buf|, LT);
    }

    lemma ScanInStream(pivot: nat)
      requires Coherent() && pivot < |buf|
      ensures Scan.Scan(Stream(), base + pivot, base + pivot + 1) == Shifted(Scan.Scan(buf, pivot, pivot + 1), base)
    {
      StreamIs();
      var s := Stream();
      assert forall k :: 0 <= k < |buf| ==> s[base + k] == buf[k];
      ScanShift(buf, s, base, pivot, pivot + 1);
    }

    lemma SliceInStream(lo: nat, hi: nat)
      requires Coherent() && lo <= hi <= |buf|
      ensures base + hi <= |Stream()| && buf[lo..hi] == Stream()[base + lo..base + hi]
    {
      StreamIs();
    }

    /** `findTokenEnd`: where the construct whose '<' is at pivot ends, as
        Scan states it. A nested construct in `<!…>` is scanned by the
        recursive call before the search goes on after it. */
    method FindTokenEnd(pivot: nat) returns (r: ScanResult)
      requires pivot < |buf|
      ensures r == Scan.Scan(buf, pivot, pivot + 1)
      decreases |buf| - pivot
    {
      var left := pivot + 1;
      while true
        invariant pivot < left <= |buf|
        invariant Scan.Scan(buf, pivot, left) == Scan.Scan(buf, pivot, pivot + 1)
        decreases |buf| - left
      {
        var t := FindTokenEndTurn(pivot, left);
        match t {
          case Done(result) =>
            ScanDone(buf, pivot, left, result);
            return result;
          case Next(l) =>
            ScanNext(buf, pivot, left, l);
            left := l;
          case Nest(q) =>
            ScanNest(buf, pivot, left, q);
            var nested := FindTokenEnd(q);
            if !nested.Found? {
              return nested;
            }
            left := nested.end;
        }
      }
    }

    /** One turn of the loop of `findTokenEnd`: the next '>' from left on,
        and what the kind byte after the '<' makes of it. Each
        `bytes.IndexByte` on a sub-slice is FindByte, which gives the index
        in buf (FindByteIndexByte). Panic is the slice out of range that
        ends the Go program. */
    method FindTokenEndTurn(pivot: nat, left: nat) returns (t: Turn)
      requires pivot < left <= |buf|
      ensures t == Step(buf, pivot, left)
    {
      var g := FindByte(buf, left, |buf|, GT);
      if g == -1 {
        return Done(More);
      }
      var right := g + 1;
      var kind := buf[pivot + 1];
      if kind == QUESTION {
        if right >= pivot + 3 && buf[right - 2] == QUESTION {
          return Done(Found(right));
        }
        return Next(right);
      }
      if kind == BANG {
        if |buf| > pivot + 4 && buf[pivot + 2] == DASH && buf[pivot + 3] == DASH {
          if right >= pivot + 6 && buf[right - 3] == DASH && buf[right - 2] == DASH {
            return Done(Found(right));
          }
          return Next(right);
        }
        if right < left + 2 {
          return Done(Panic);
        }
        var q := FindByte(buf, left + 1, right - 1, LT);
        if q != -1 {
          return Nest(q);
        }
      }
      OddCount(buf, left, right, QUOTE);
      if Count(buf, left, right, QUOTE) % 2 == 0 {
        return Done(Found(right));
      }
      var w := FindByte(buf, right, |buf|, QUOTE);
      if w == -1 {
        return Done(More);
      }
      return Next(w + 1);
    }

    /** `parseCharData`: extends the token that ends at pos0 over the
        character data after it, up to the next '<', or over a whole
        `<![CDATA[ … ]]>` section that starts there, reading more bytes
        while the buffer runs out. The end it returns (one before the end of
        the span, as in the source) and the error it stores are those of
        DataScan on the final buffer: a read failure while the text runs on
        is stored and the span runs to the end of the buffer; one while a
        CDATA section may be open ends the span before its '<' and stores
        io.ErrUnexpectedEOF for io.EOF. */
    method ParseCharData(pivot0: nat, pos0: nat) returns (pivot: nat, pos: nat, ghost from: nat)
      requires Valid() && err == NoError && cur <= pivot0 < pos0 <= |buf|
      modifies this`buf, this`cur, this`base, this`n, this`cap, this`err
      ensures Valid() && cur <= pivot
      ensures old(n) <= n
      ensures base + pivot == old(base) + pivot0 && base + from == old(base) + pos0 && from <= |buf|
      ensures match DataScan(buf, from)
        case Stop(e) => pos + 1 == e && err == NoError
        case Text => pos + 1 == |buf| && err != NoError && Stopped(err)
        case Open(l) => (pos + 1 == l && err != NoError
          && ((err == UnexpectedEOF && Stopped(EOF)) || (err != EOF && Stopped(err))))
    {
      var i;
      pivot, i, from := SkipText(pivot0, pos0);
      if err != NoError {
        pos := i - 1;
        DataText(buf, from);
        return;
      }
      var e;
      pivot, pos, from, e := ProbeCData(pivot, from, i);
      if e != NoError {
        err := if e == EOF then UnexpectedEOF else e;
      }
    }

    /** The outer loop of `parseCharData`: the first '<' from pos0 on, read
        into the buffer as needed. It stops at that '<' (i) with no error,
        or at the end of the buffer (i == |buf|) with the read failure
        stored. */
    method SkipText(pivot0: nat, pos0: nat) returns (pivot: nat, i: nat, ghost from: nat)
      requires Valid() && err == NoError && cur <= pivot0 < pos0 <= |buf|
      modifies this`buf, this`cur, this`base, this`n, this`cap, this`err
      ensures Valid() && cur <= pivot < from <= i <= |buf|
      ensures old(n) <= n
      ensures base + pivot == old(base) + pivot0 && base + from == old(base) + pos0
      ensures forall k :: from <= k < i ==> buf[k] != LT
      ensures err == NoError ==> i < |buf| && buf[i] == LT
      ensures err != NoError ==> i == |buf| && Stopped(err)
    {
      pivot := pivot0;
      from := pos0;
      i := pos0;
      while true
        invariant Valid() && err == NoError && cur <= pivot < from <= i <= |buf|
        invariant old(n) <= n
        invariant base + pivot == old(base) + pivot0 && base + from == old(base) + pos0
        invariant forall k :: from <= k < i ==> buf[k] != LT
        decreases |reader.data| - n, |buf| - i
      {
        if i >= |buf| {
          var e;
          ghost var b, d, from', i' := buf, pivot, from, i;
          from := from - pivot;
          pivot, i, e := Refill(pivot);
          NoLTMoved(b, buf, d, from', i', from, i);
          if e != NoError {
            err := e;
            return;
          }
        }
        if buf[i] == LT {
          return;
        }
        i := i + 1;
      }
    }

    /** The inner loop of `parseCharData`, from the '<' at i0: the span
        stops before that '<' unless `<![CDATA[` follows, and then runs
        through the first `]]>`. The source's loop has two phases, while it
        matches `<![CDATA[` (k < 9) and then while it looks for `]]>`; they
        are MatchOpen and FindClose. A read failure in either is returned
        as e. */
    method ProbeCData(pivot0: nat, ghost from0: nat, i0: nat) returns (pivot: nat, pos: nat, ghost from: nat, e: Err)
      requires Valid() && cur <= pivot0 < from0 <= i0 < |buf| && buf[i0] == LT
      requires forall k :: from0 <= k < i0 ==> buf[k] != LT
      modifies this`buf, this`cur, this`base, this`n, this`cap
      ensures Valid() && cur <= pivot
      ensures old(n) <= n
      ensures base + pivot == old(base) + pivot0 && base + from == old(base) + from0 && from <= |buf|
      ensures match DataScan(buf, from)
        case Stop(end) => pos + 1 == end && e == NoError
        case Text => false
        case Open(l) => pos + 1 == l && e != NoError && Stopped(e)
    {
      var i, k;
      pivot, i, k, from, e := MatchOpen(pivot0, from0, i0, CDataOpen);
      if k < |CDataOpen| {
        pos := i - 1;
        if e == NoError {
          DataStopAtLT(buf, from, i, k);
        } else {
          DataOpenEarly(buf, from, i);
        }
        return;
      }
      var lt;
      pivot, pos, from, lt, e := FindClose(pivot, from, i);
      if e == NoError {
        DataClose(buf, from, lt, pos);
      } else {
        DataOpenLate(buf, from, lt);
      }
    }

    /** The first phase: `<![CDATA[` is matched byte by byte after the '<'
        at i0, reading more as needed; k counts the bytes matched, as in the
        source (prefix is `<![CDATA[`). It stops with k < 9 at a byte that differs, or at the end of
        the buffer with the read failure e, and with k == 9 on a whole
        match. */
    method MatchOpen(pivot0: nat, ghost from0: nat, i0: nat, prefix: seq<byte>)
      returns (pivot: nat, i: nat, k: nat, ghost from: nat, e: Err)
      requires 0 < |prefix|
      requires Valid() && cur <= pivot0 < from0 <= i0 < |buf| && buf[i0] == LT
      requires forall k :: from0 <= k < i0 ==> buf[k] != LT
      modifies this`buf, this`cur, this`base, this`n, this`cap
      ensures Valid() && cur <= pivot < from <= i < |buf| && buf[i] == LT
      ensures old(n) <= n
      ensures base + pivot == old(base) + pivot0 && base + from == old(base) + from0 && i - from == i0 - from0
      ensures forall k :: from <= k < i ==> buf[k] != LT
      ensures 0 < k <= |prefix| && i + k <= |buf|
      ensures forall m :: 0 < m < k ==> buf[i + m] == prefix[m]
      ensures k == |prefix| ==> e == NoError
      ensures k < |prefix| && e == NoError ==> i + k < |buf| && buf[i + k] != prefix[k]
      ensures e != NoError ==> i + k == |buf| && Stopped(e)
    {
      pivot, from, i := pivot0, from0, i0;
      k, e := 1, NoError;
      var j := i + 1;
      while k < |prefix|
        invariant Valid() && cur <= pivot < from <= i < j <= |buf| && buf[i] == LT
        invariant old(n) <= n
        invariant base + pivot == old(base) + pivot0 && base + from == old(base) + from0 && i - from == i0 - from0
        invariant forall k :: from <= k < i ==> buf[k] != LT
        invariant 0 < k <= |prefix| && j == i + k && e == NoError
        invariant forall m :: 0 < m < k ==> buf[i + m] == prefix[m]
        decreases |reader.data| - n, |prefix| - k
      {
        if j >= |buf| {
          pivot, from, i, j, e := RefillOpen(pivot, from, i, k, prefix);
          if e != NoError {
            return;
          }
        }
        if buf[j] != prefix[k] {
          return;
        }
        k, j := k + 1, j + 1;
      }
    }

    /** The second phase: the first `]]>` after `<![CDATA[` at i0. It stops
        at its '>' (pos) with no error, or at the end of the buffer with the
        read failure e and pos just before the '<' (lt). */
    method FindClose(pivot0: nat, ghost from0: nat, i0: nat)
      returns (pivot: nat, pos: nat, ghost from: nat, lt: nat, e: Err)
      requires Valid() && cur <= pivot0 < from0 <= i0 && i0 + |CDataOpen| <= |buf| && buf[i0] == LT
      requires forall k :: from0 <= k < i0 ==> buf[k] != LT
      requires forall m :: 0 < m < |CDataOpen| ==> buf[i0 + m] == CDataOpen[m]
      modifies this`buf, this`cur, this`base, this`n, this`cap
      ensures Valid() && cur <= pivot < from <= lt && lt + |CDataOpen| <= |buf| && buf[lt] == LT
      ensures old(n) <= n
      ensures base + pivot == old(base) + pivot0 && base + from == old(base) + from0
      ensures forall k :: from <= k < lt ==> buf[k] != LT
      ensures forall m :: 0 < m < |CDataOpen| ==> buf[lt + m] == CDataOpen[m]
      ensures e == NoError ==> (lt + |CDataOpen| <= pos < |buf| && ClosesCData(buf, pos)
        && forall m :: lt + |CDataOpen| <= m < pos ==> !ClosesCData(buf, m))
      ensures e != NoError ==> (pos + 1 == lt && Stopped(e)
        && forall m :: lt + |CDataOpen| <= m < |buf| ==> !ClosesCData(buf, m))
    {
      pivot, from := pivot0, from0;
      lt := i0;
      var j := SeekClose(buf, lt + |CDataOpen|);
      while j == |buf|
        invariant Valid() && cur <= pivot < from <= lt && lt + |CDataOpen| <= j <= |buf|
        invariant old(n) <= n
        invariant base + pivot == old(base) + pivot0 && base + from == old(base) + from0
        invariant buf[lt] == LT && forall k :: from <= k < lt ==> buf[k] != LT
        invariant forall m :: 0 < m < |CDataOpen| ==> buf[lt + m] == CDataOpen[m]
        invariant forall m :: lt + |CDataOpen| <= m < j ==> !ClosesCData(buf, m)
        invariant j < |buf| ==> ClosesCData(buf, j)
        decreases |reader.data| - n
      {
        pivot, from, lt, j, e := RefillClose(pivot, from, lt, j);
        if e != NoError {
          pos := lt - 1;
          return;
        }
        j := SeekClose(buf, j);
      }
      pos := j;
      e := NoError;
    }

    /** A Refill inside MatchOpen, which keeps its loop's facts about the
        moved bytes. */
    method RefillOpen(pivot0: nat, ghost from0: nat, i0: nat, k: nat, prefix: seq<byte>)
      returns (pivot: nat, ghost from: nat, i: nat, j: nat, e: Err)
      requires Valid() && cur <= pivot0 < from0 <= i0 && 0 < k <= |prefix| && i0 + k == |buf|
      requires buf[i0] == LT && forall k :: from0 <= k < i0 ==> buf[k] != LT
      requires forall m :: 0 < m < k ==> buf[i0 + m] == prefix[m]
      modifies this`buf, this`cur, this`base, this`n, this`cap
      ensures Valid() && cur <= pivot < from <= i && j == i + k <= |buf|
      ensures old(n) <= n
      ensures base + pivot == old(base) + pivot0 && base + from == old(base) + from0 && i - from == i0 - from0
      ensures buf[i] == LT && forall k :: from <= k < i ==> buf[k] != LT
      ensures forall m :: 0 < m < k ==> buf[i + m] == prefix[m]
      ensures e == NoError ==> j < |buf| && old(n) < n
      ensures e != NoError ==> j == |buf| && Stopped(e)
    {
      ghost var b, d := buf, pivot0;
      from, i := from0 - pivot0, i0 - pivot0;
      pivot, j, e := Refill(pivot0);
      NoLTMoved(b, buf, d, from0, i0, from, i);
      Moved(b, buf, d, i0, i);
      AgreesMoved(b, buf, d, i0, i, k, prefix);
    }

    /** A Refill inside FindClose, which keeps its loop's facts about the
        moved bytes. */
    method RefillClose(pivot0: nat, ghost from0: nat, lt0: nat, j0: nat)
      returns (pivot: nat, ghost from: nat, lt: nat, j: nat, e: Err)
      requires Valid() && cur <= pivot0 < from0 <= lt0 && lt0 + |CDataOpen| <= j0 == |buf|
      requires buf[lt0] == LT && forall k :: from0 <= k < lt0 ==> buf[k] != LT
      requires forall m :: 0 < m < |CDataOpen| ==> buf[lt0 + m] == CDataOpen[m]
      requires forall m :: lt0 + |CDataOpen| <= m < j0 ==> !ClosesCData(buf, m)
      modifies this`buf, this`cur, this`base, this`n, this`cap
      ensures Valid() && cur <= pivot < from <= lt && lt + |CDataOpen| <= j <= |buf|
      ensures old(n) <= n
      ensures base + pivot == old(base) + pivot0 && base + from == old(base) + from0
      ensures buf[lt] == LT && forall k :: from <= k < lt ==> buf[k] != LT
      ensures forall m :: 0 < m < |CDataOpen| ==> buf[lt + m] == CDataOpen[m]
      ensures forall m :: lt + |CDataOpen| <= m < j ==> !ClosesCData(buf, m)
      ensures e == NoError ==> j < |buf| && old(n) < n
      ensures e != NoError ==> j == |buf| && Stopped(e)
    {
      ghost var b, d := buf, pivot0;
      from, lt := from0 - pivot0, lt0 - pivot0;
      pivot, j, e := Refill(pivot0);
      NoLTMoved(b, buf, d, from0, lt0, from, lt);
      Moved(b, buf, d, lt0, lt);
      AgreesMoved(b, buf, d, lt0, lt, |CDataOpen|, CDataOpen);
      NoCloseMoved(b, buf, d, lt0 + |CDataOpen|, j0, lt + |CDataOpen|, j);
    }

    /** `clearToken`: no name, no attributes, no data, both flags false. */
    method ClearToken()
      modifies this`token
      ensures token == ZeroToken
    {
      token := token.(name := NoName, attrs := [], data := Nil, selfClosing := false, isEndElement := false);
    }

    /** `consumeNonTagIdentifier`: a `<?…` or `<!…` span becomes the data of
        a self-closing token and nothing is left; any other span is left
        as it is. */
    method ConsumeNonTagIdentifier(b: seq<byte>) returns (rest: Slice)
      modifies this`token
      ensures IsNonTag(b) ==> rest == Nil && token == old(token).(data := Of(b), selfClosing := true)
      ensures !IsNonTag(b) ==> rest == Of(b) && token == old(token)
    {
      if |b| < 2 || (b[..2] != [LT, QUESTION] && b[..2] != [LT, BANG]) {
        assert !IsNonTag(b) by {
          if |b| >= 2 {
            assert b[..2] == [b[0], b[1]];
          }
        }
        return Of(b);
      }
      assert b[..2] == [b[0], b[1]];
      token := token.(data := Of(b), selfClosing := true);
      return Nil;
    }

    /** `consumeTagName`: the name after '<' (and after the '/' of an end
        tag), as TagName states it. Like the source, it sets the prefix only
        when the name has a ':' and only ever sets the end-tag flag. */
    method ConsumeTagName(b: seq<byte>) returns (rest: seq<byte>)
      requires TagNameDefined(b)
      modifies this`token
      ensures var h := TagName(b);
        && token.name.full == h.name.full && token.name.local == h.name.local
        && token.name.prefix == (if h.name.prefix.Of? then h.name.prefix else old(token).name.prefix)
        && token.isEndElement == (old(token).isEndElement || h.isEnd)
        && token.attrs == old(token).attrs && token.data == old(token).data
        && token.selfClosing == old(token).selfClosing
        && rest == h.rest
    {
      var isEnd, full;
      isEnd, full, rest := ScanTagName(b);
      var name := token.name.(full := Of(full));
      var colon := IndexByte(full, COLON);
      if colon == -1 {
        name := name.(local := Of(full));
      } else {
        name := name.(prefix := Of(full[..colon]), local := Of(full[colon + 1..]));
      }
      SplitNameIs(full, colon);
      token := token.(name := name, isEndElement := token.isEndElement || isEnd);
    }

    /** `consumeAttrs`: the attributes, appended in order, and the
        self-closing flag, as ParseAttrs states them; the rest is what
        follows the '>'. */
    method ConsumeAttrs(b: seq<byte>) returns (rest: seq<byte>)
      requires AttrsDefined(b)
      modifies this`token
      ensures var a := ParseAttrs(b);
        && token.attrs == old(token).attrs + a.attrs
        && token.selfClosing == (old(token).selfClosing || a.selfClosing)
        && token.name == old(token).name && token.data == old(token).data
        && token.isEndElement == old(token).isEndElement
        && rest == a.rest
    {
      rest := b;
      while true
        invariant AttrsDefined(rest)
        invariant var a := ParseAttrs(b); var t := ParseAttrs(rest);
          && old(token).attrs + a.attrs == token.attrs + t.attrs
          && t.selfClosing == a.selfClosing && t.rest == a.rest
        invariant token.selfClosing == old(token).selfClosing
        invariant token.name == old(token).name && token.data == old(token).data
        invariant token.isEndElement == old(token).isEndElement
        decreases |rest|
      {
        var stop, selfClosing, full, value, next := ScanAttr(rest);
        if stop {
          ParseAttrsEnd(rest, selfClosing, next);
          if selfClosing {
            token := token.(selfClosing := true);
          }
          return next;
        }
        ghost var t := ParseAttrs(next);
        ParseAttrsPair(rest, StepAttr(rest).raw, value, next);
        AppendAttr(old(token).attrs + ParseAttrs(b).attrs, token.attrs, Attr(SplitName(full), value), t.attrs);
        rest := next;
        token := token.(attrs := token.attrs + [Attr(SplitName(full), value)]);
      }
    }

    /** `consumeCharData`: the data after the tag, as CharDataPayload
        states it. */
    method ConsumeCharData(b: seq<byte>)
      modifies this`token
      ensures token == old(token).(data := Of(CharDataPayload(b)))
    {
      var d := TrimPrefix(b);
      ghost var lead := d;
      if |d| >= |CDataOpen| && d[..|CDataOpen|] == CDataOpen {
        d := d[|CDataOpen|..];
      }
      assert d == DropCDataOpen(lead);
      ghost var body := d;
      var end := |d| - |CDataClose|;
      if end >= 0 && d[end..] == CDataClose {
        d := d[..end];
      }
      assert d == DropCDataClose(body);
      d := Trim.Trim(d);
      token := token.(data := Of(d));
    }
  }

  /** The index of the '>' of the first `]]>` in buf that ends at j0 or
      later, or |buf| when there is none. */
  method SeekClose(buf: seq<byte>, j0: nat) returns (j: nat)
    requires 2 <= j0 <= |buf|
    ensures j0 <= j <= |buf|
    ensures forall m :: j0 <= m < j ==> !ClosesCData(buf, m)
    ensures j < |buf| ==> ClosesCData(buf, j)
  {
    j := j0;
    while j < |buf| && !ClosesCData(buf, j)
      invariant j0 <= j <= |buf|
      invariant forall m :: j0 <= m < j ==> !ClosesCData(buf, m)
    {
      j := j + 1;
    }
  }

  /** A token with the name, attributes, flags and data of the tag b is
      its decomposition. */
  lemma DecomposeTag(b: seq<byte>, t: Token)
    requires !IsNonTag(b) && |b| > 0 && TagNameDefined(b) && AttrsDefined(TagName(b).rest)
    requires var h := TagName(b); var a := ParseAttrs(h.rest);
      && t.name == h.name && t.isEndElement == h.isEnd
      && t.attrs == a.attrs && t.selfClosing == a.selfClosing && t.data == Of(CharDataPayload(a.rest))
    ensures t == Decompose.Decompose(b)
  {
  }

  /** What `Token` makes of the outcome r of its `RawToken` call, with prev
      the shared token before the call: the token returned (t), the error
      returned (e) and stored (err), and the shared token afterwards. An
      error with no bytes, or io.ErrUnexpectedEOF, is returned with the zero
      token and leaves the shared token alone. Any other bytes are
      decomposed, even when an error came with them: that error is stored
      for the next call but not returned. Bytes the source would panic on
      give a Crash. */
  datatype Cooked = Cooked(t: Token, e: Err, err: Err, token: Token)

  function Cook(r: Raw, prev: Token): (k: Cooked)
    ensures k.e == NoError || k.e == r.e || k.e == Crash
    ensures k.e != NoError ==> k.t == ZeroToken
    ensures k.e != NoError && k.e != Crash ==> k.token == prev && k.err == r.err
    ensures k.e == NoError ==>
      (k.t.(data := k.token.data) == k.token && (k.t.data == Nil <==> |k.token.data.View()| == 0))
  {
    var x := r.b.View();
    if r.e != NoError && (|x| == 0 || r.e == UnexpectedEOF) then Cooked(ZeroToken, r.e, r.err, prev)
    else if Decomposable(x) then Cooked(Normalized(Decompose.Decompose(x)), NoError, r.err, Decompose.Decompose(x))
    else Cooked(ZeroToken, Crash, Crash, prev)
  }

  /** A processing instruction, comment or declaration becomes a token with
      no name whose data is every byte from its '<' to its '>', marked
      self-closing; nothing is stored. */
  lemma {:induction false} TokenNonTag(s: seq<byte>, c: nat, re: Err, p: nat, end: nat, prev: Token)
    requires c <= p < |s| && FindByte(s, c, |s|, LT) == p
    requires Scan.Scan(s, p, p + 1) == Found(end)
    requires s[p + 1] == QUESTION || s[p + 1] == BANG
    ensures var k := Cook(RawOutcome(s, c, re), prev);
      && k.t == ZeroToken.(data := Of(s[p..end]), selfClosing := true)
      && k.e == NoError && k.err == NoError && k.token == k.t
  {
    RawOutcomeNonTag(s, c, re, p, end);
    assert IsNonTag(s[p..end]);
  }

  /** With io.EOF as the input's end, `Token` returns io.EOF exactly when no
      '<' is left and io.ErrUnexpectedEOF exactly when the input ends inside
      the construct of the first '<'. Either comes with the zero token,
      leaves the shared token alone and is stored for the next call. */
  lemma TokenEOF(s: seq<byte>, c: nat, prev: Token)
    requires c <= |s|
    ensures var k := Cook(RawOutcome(s, c, EOF), prev);
      var p := FindByte(s, c, |s|, LT);
      && (k.e == EOF <==> p == -1)
      && (k.e == UnexpectedEOF <==> p != -1 && Scan.Scan(s, p, p + 1) == More)
      && (k.e == EOF || k.e == UnexpectedEOF ==> k.t == ZeroToken && k.token == prev && k.err == k.e)
  {
    RawOutcomeEOF(s, c);
  }

  /** A read error other than io.EOF inside an unfinished construct does not
      reach the caller of `Token`: the bytes so far are decomposed and
      returned without an error, and the read error is stored, so the next
      call returns it. */
  lemma TokenPartial(s: seq<byte>, c: nat, re: Err, p: nat, prev: Token)
    requires c <= p < |s| && FindByte(s, c, |s|, LT) == p
    requires Scan.Scan(s, p, p + 1) == More
    requires re != NoError && re != EOF && re != UnexpectedEOF && re != Crash
    ensures var k := Cook(RawOutcome(s, c, re), prev);
      && (k.e == NoError <==> Decomposable(s[p..]))
      && (k.e == NoError ==> k.t == Normalized(Decompose.Decompose(s[p..])) && k.err == re)
      && (k.e != NoError ==> k.e == Crash && k.err == Crash)
  {
    OutcomeAtIs(s, c, p, re);
    assert RawOutcome(s, c, re) == Raw(Of(s[p..]), re, p, re, true);
    assert |s[p..]| > 0;
  }

  /** A tag comes back without an error, as the decomposition of the trimmed
      span RawToken returns, or the call crashes where decomposing that span
      would panic. */
  lemma TokenTag(s: seq<byte>, c: nat, re: Err, p: nat, end: nat, prev: Token)
    requires c <= p < |s| && FindByte(s, c, |s|, LT) == p
    requires Scan.Scan(s, p, p + 1) == Found(end)
    requires s[p + 1] != QUESTION && s[p + 1] != BANG
    ensures var r := RawOutcome(s, c, re); var k := Cook(r, prev);
      && r.b.Of? && r.e == NoError
      && (k.e == NoError <==> Decomposable(r.b.bytes))
      && (k.e == NoError ==> k.token == Decompose.Decompose(r.b.bytes) && k.err == r.err)
      && (k.e != NoError ==> k.e == Crash && k.err == Crash)
  {
    OutcomeAtIs(s, c, p, re);
  }

  /** `New` over a reader with no bytes, then `Token`: the zeros of the new
      buffer hold no '<', so the call returns io.EOF with the zero token and
      stores io.EOF for the next call. */
  method TokenOfEmptyInput() returns (t: Token, e: Err, stored: Err)
    ensures t == ZeroToken && e == EOF && stored == EOF
  {
    var tk := new Tokenizer(Reader([], EOF), []);
    ConfiguredValid([]);
    FindByteNone(tk.Stream(), 0, |tk.Stream()|, LT);
    ghost var prev := tk.token;
    ghost var re;
    t, e, re := tk.Token();
    stored := tk.err;
    RawOutcomeNone(tk.Stream(), 0, re);
    TokenEOF(tk.Stream(), 0, prev);
  }

  /** After the bytes of b from d on moved to the front of c, index k of b
      is index k - d of c. The lemmas below move the invariants of the
      scanning loops along; they name the old and the new bounds so that
      their conclusions match the invariants term by term. */
  predicate MovedTo(b: seq<byte>, c: seq<byte>, d: nat) {
    d <= |b| && |b| - d <= |c| && forall k :: 0 <= k < |b| - d ==> c[k] == b[k + d]
  }

  /** The outcome of a processing instruction, comment or declaration at
      pivot in buf, which holds the stream s from base on. */
  lemma NonTagFromBuffer(s: seq<byte>, buf: seq<byte>, base: nat, c: nat, pivot: nat, end: nat, re: Err, b: Slice)
    requires |s| == base + |buf| && forall k :: 0 <= k < |buf| ==> s[base + k] == buf[k]
    requires pivot < end <= |buf| && c <= base + pivot && FindByte(s, c, |s|, LT) == base + pivot
    requires Scan.Scan(buf, pivot, pivot + 1) == Found(end)
    requires buf[pivot + 1] == QUESTION || buf[pivot + 1] == BANG
    requires b == Of(buf[pivot..SuffixEnd(buf, pivot, end)])
    ensures Delivers(s, c, re, b, NoError, NoError, base + end)
    ensures !RawOutcome(s, c, re).stopped
  {
    NonTagInStream(s, buf, base, pivot, end);
    NonTagDelivered(s, buf, base, c, pivot, end, re, b);
  }

  /** A processing instruction, comment or declaration at pivot in buf,
      whose bytes the stream s holds from base on. */
  lemma NonTagDelivered(s: seq<byte>, buf: seq<byte>, base: nat, c: nat, pivot: nat, end: nat, re: Err, b: Slice)
    requires pivot < end <= |buf| && base + pivot + 1 < |s| && c <= base + pivot
    requires FindByte(s, c, |s|, LT) == base + pivot
    requires Scan.Scan(s, base + pivot, base + pivot + 1) == Found(base + end)
    requires s[base + pivot + 1] == QUESTION || s[base + pivot + 1] == BANG
    requires buf[pivot..SuffixEnd(buf, pivot, end)] == s[base + pivot..SuffixEnd(s, base + pivot, base + end)]
    requires b == Of(buf[pivot..SuffixEnd(buf, pivot, end)])
    ensures Delivers(s, c, re, b, NoError, NoError, base + end)
    ensures !RawOutcome(s, c, re).stopped
  {
    NonTagDelivers(s, c, base + pivot, base + end, re, buf[pivot..SuffixEnd(buf, pivot, end)]);
  }

  /** The '<?' or '<!' construct at pivot in buf, seen in the stream s that
      holds buf from base on: it ends at the same place, and its trimmed span
      has the same bytes. */
  lemma NonTagInStream(s: seq<byte>, buf: seq<byte>, base: nat, pivot: nat, end: nat)
    requires |s| == base + |buf| && forall k :: 0 <= k < |buf| ==> s[base + k] == buf[k]
    requires pivot < end <= |buf| && Scan.Scan(buf, pivot, pivot + 1) == Found(end)
    ensures base + pivot + 1 < |s| && s[base + pivot + 1] == buf[pivot + 1]
    ensures Scan.Scan(s, base + pivot, base + pivot + 1) == Found(base + end)
    ensures buf[pivot..SuffixEnd(buf, pivot, end)] == s[base + pivot..SuffixEnd(s, base + pivot, base + end)]
  {
    ScanShift(buf, s, base, pivot, pivot + 1);
    SpanShift(s, buf, base, pivot, end);
  }

  /** The trimmed span lo..hi of buf is that of s base bytes further on. */
  lemma SpanShift(s: seq<byte>, buf: seq<byte>, base: nat, lo: nat, hi: nat)
    requires |s| == base + |buf| && forall k :: 0 <= k < |buf| ==> s[base + k] == buf[k]
    requires lo <= hi <= |buf|
    ensures SuffixEnd(s, base + lo, base + hi) == base + SuffixEnd(buf, lo, hi)
    ensures buf[lo..SuffixEnd(buf, lo, hi)] == s[base + lo..SuffixEnd(s, base + lo, base + hi)]
  {
    SuffixEndShift(buf, s, base, lo, hi);
    SliceShift(s, buf, base, lo, SuffixEnd(buf, lo, hi));
  }

  /** A slice of buf is the slice of s base bytes further on. */
  lemma SliceShift(s: seq<byte>, buf: seq<byte>, base: nat, lo: nat, hi: nat)
    requires |s| == base + |buf| && forall k :: 0 <= k < |buf| ==> s[base + k] == buf[k]
    requires lo <= hi <= |buf|
    ensures buf[lo..hi] == s[base + lo..base + hi]
  {
    assert forall k :: 0 <= k < hi - lo ==> buf[lo..hi][k] == s[base + lo..base + hi][k];
  }

  /** A construct at pivot in buf, which holds the stream s from base on,
      that the input ends in. */
  lemma MoreDelivered(s: seq<byte>, buf: seq<byte>, base: nat, c: nat, pivot: nat, re: Err)
    requires |s| == base + |buf| && forall k :: 0 <= k < |buf| ==> s[base + k] == buf[k]
    requires pivot < |buf| && c <= base + pivot && FindByte(s, c, |s|, LT) == base + pivot
    requires Scan.Scan(buf, pivot, pivot + 1) == More
    ensures Delivers(s, c, re, Of(buf[pivot..]), Unexpected(re), Unexpected(re), base + pivot)
    ensures RawOutcome(s, c, re).stopped
  {
    ScanShift(buf, s, base, pivot, pivot + 1);
    SliceShiftTail(s, buf, base, pivot);
    MoreDelivers(s, c, base + pivot, re);
  }

  /** A construct at pivot in buf whose scan panics. */
  lemma PanicDelivered(s: seq<byte>, buf: seq<byte>, base: nat, c: nat, pivot: nat, re: Err, cursor: nat)
    requires |s| == base + |buf| && forall k :: 0 <= k < |buf| ==> s[base + k] == buf[k]
    requires pivot < |buf| && c <= base + pivot && FindByte(s, c, |s|, LT) == base + pivot
    requires Scan.Scan(buf, pivot, pivot + 1) == Panic
    ensures Delivers(s, c, re, Nil, Crash, Crash, cursor)
    ensures !RawOutcome(s, c, re).stopped
  {
    ScanShift(buf, s, base, pivot, pivot + 1);
    PanicDelivers(s, c, base + pivot, re, cursor);
  }

  /** A tag that ends at E in the stream s2 read before `parseCharData`,
      with the character data after it ending in y in the stream s read by
      then, and the trimmed bytes from P to H. */
  lemma CharDataDelivered(s2: seq<byte>, s: seq<byte>, c: nat, P: nat, E: nat, H: nat,
                          stored: Err, re: Err, y: DataEnd, b: Slice)
    requires Prefix(s2, s)
    requires c <= P < E <= |s2| && FindByte(s2, c, |s2|, LT) == P && Scan.Scan(s2, P, P + 1) == Found(E)
    requires s2[P + 1] != QUESTION && s2[P + 1] != BANG
    requires E <= H <= |s| && DataScan(s, E) == y
    requires match y
      case Stop(z) => H == z && stored == NoError
      case Text => H == |s| && stored == re
      case Open(l) => H == l && stored == Unexpected(re)
    requires b == Of(s[P..SuffixEnd(s, P, H)])
    ensures Delivers(s, c, re, b, NoError, stored, H)
    ensures RawOutcome(s, c, re).stopped == !y.Stop?
  {
    DataOutcomeOf(s2, s, c, P, E, re);
    DataOutcomeIs(s, P, E, re, y, H, stored, s[P..SuffixEnd(s, P, H)]);
  }

  /** The outcome of a tag and the character data after it, for a buffer
      holding the stream s from base on. */
  lemma CharDataFromBuffer(s2: seq<byte>, s: seq<byte>, buf: seq<byte>, base: nat, c: nat, pivot: nat, from: nat,
                           hi: nat, P: nat, E: nat, stored: Err, re: Err, b: Slice)
    requires Prefix(s2, s)
    requires c <= P < E <= |s2| && FindByte(s2, c, |s2|, LT) == P && Scan.Scan(s2, P, P + 1) == Found(E)
    requires s2[P + 1] != QUESTION && s2[P + 1] != BANG
    requires |s| == base + |buf| && forall k :: 0 <= k < |buf| ==> s[base + k] == buf[k]
    requires pivot < from <= hi <= |buf| && base + pivot == P && base + from == E
    requires b == Of(buf[pivot..SuffixEnd(buf, pivot, hi)])
    requires match DataScan(buf, from)
      case Stop(x) => hi == x && stored == NoError
      case Text => hi == |buf| && stored == re
      case Open(l) => hi == l && stored == Unexpected(re)
    ensures Delivers(s, c, re, b, NoError, stored, base + hi)
    ensures RawOutcome(s, c, re).stopped == !DataScan(buf, from).Stop?
  {
    var H := base + hi;
    CharDataInStream(s, buf, base, pivot, from, hi, stored, re, P, E, H);
    SpanShiftAt(s, buf, base, pivot, hi, P, H);
    CharDataDelivered(s2, s, c, P, E, H, stored, re, ShiftedData(DataScan(buf, from), base), b);
  }

  /** The facts about character data delimited in buf, which holds the
      stream s from base on, restated about s. */
  lemma CharDataInStream(s: seq<byte>, buf: seq<byte>, base: nat, pivot: nat, from: nat, hi: nat,
                         stored: Err, re: Err, P: nat, E: nat, H: nat)
    requires |s| == base + |buf| && forall k :: 0 <= k < |buf| ==> s[base + k] == buf[k]
    requires pivot < from <= hi <= |buf| && P == base + pivot && E == base + from && H == base + hi
    requires match DataScan(buf, from)
      case Stop(x) => hi == x && stored == NoError
      case Text => hi == |buf| && stored == re
      case Open(l) => hi == l && stored == Unexpected(re)
    ensures E <= H <= |s|
    ensures DataScan(s, E) == ShiftedData(DataScan(buf, from), base)
    ensures ShiftedData(DataScan(buf, from), base).Stop? == DataScan(buf, from).Stop?
    ensures match ShiftedData(DataScan(buf, from), base)
      case Stop(z) => H == z && stored == NoError
      case Text => H == |s| && stored == re
      case Open(l) => H == l && stored == Unexpected(re)
  {
    DataScanShift(buf, s, base, from);
  }

  /** SpanShift, with the stream indices named. */
  lemma SpanShiftAt(s: seq<byte>, buf: seq<byte>, base: nat, lo: nat, hi: nat, P: nat, H: nat)
    requires |s| == base + |buf| && forall k :: 0 <= k < |buf| ==> s[base + k] == buf[k]
    requires lo <= hi <= |buf| && P == base + lo && H == base + hi
    ensures buf[lo..SuffixEnd(buf, lo, hi)] == s[P..SuffixEnd(s, P, H)]
  {
    SpanShift(s, buf, base, lo, hi);
  }

  lemma SliceShiftTail(s: seq<byte>, buf: seq<byte>, base: nat, lo: nat)
    requires |s| == base + |buf| && forall k :: 0 <= k < |buf| ==> s[base + k] == buf[k]
    requires lo <= |buf|
    ensures buf[lo..] == s[base + lo..]
  {
    assert forall k :: 0 <= k < |buf| - lo ==> buf[lo..][k] == s[base + lo..][k];
  }

  /** The scan of a construct moved to the front of c is its scan in b,
      shifted back. */
  lemma ScanMoved(b: seq<byte>, c: seq<byte>, d: nat)
    requires MovedTo(b, c, d) && |c| == |b| - d && d < |b|
    ensures Scan.Scan(b, d, d + 1) == Shifted(Scan.Scan(c, 0, 1), d)
  {
    ScanShift(c, b, d, 0, 1);
  }

  /** A tag found in s2 whose first '<' from c on is at P, and that ends at
      E, gives the outcome DataOutcome in every extension of s2. */
  lemma DataOutcomeOf(s2: seq<byte>, s: seq<byte>, c: nat, P: nat, E: nat, re: Err)
    requires c <= P < E <= |s2| && Prefix(s2, s)
    requires FindByte(s2, c, |s2|, LT) == P && Scan.Scan(s2, P, P + 1) == Found(E)
    requires s2[P + 1] != QUESTION && s2[P + 1] != BANG
    ensures RawOutcome(s, c, re) == DataOutcome(s, P, E, re)
  {
    FindByteExtend(s2, s, c, LT);
    ScanExtend(s2, s, P, P + 1);
  }

  lemma Moved(b: seq<byte>, c: seq<byte>, d: nat, k: nat, k2: nat)
    requires MovedTo(b, c, d) && d <= k < |b| && k2 + d == k
    ensures c[k2] == b[k]
  {
  }

  lemma NoLTMoved(b: seq<byte>, c: seq<byte>, d: nat, lo: nat, hi: nat, lo2: nat, hi2: nat)
    requires MovedTo(b, c, d) && d <= lo <= hi <= |b| && lo2 + d == lo && hi2 + d == hi
    requires forall k :: lo <= k < hi ==> b[k] != LT
    ensures forall k :: lo2 <= k < hi2 ==> c[k] != LT
  {
    forall k | lo2 <= k < hi2
      ensures c[k] != LT
    {
      Moved(b, c, d, k + d, k);
    }
  }

  lemma AgreesMoved(b: seq<byte>, c: seq<byte>, d: nat, i: nat, i2: nat, k: nat, p: seq<byte>)
    requires MovedTo(b, c, d) && d <= i && i + k <= |b| && k <= |p| && i2 + d == i
    requires forall m :: 0 < m < k ==> b[i + m] == p[m]
    ensures forall m :: 0 < m < k ==> c[i2 + m] == p[m]
  {
    forall m | 0 < m < k
      ensures c[i2 + m] == p[m]
    {
      Moved(b, c, d, i + m, i2 + m);
    }
  }

  lemma NoCloseMoved(b: seq<byte>, c: seq<byte>, d: nat, lo: nat, hi: nat, lo2: nat, hi2: nat)
    requires MovedTo(b, c, d) && d + 2 <= lo <= hi <= |b| && lo2 + d == lo && hi2 + d == hi
    requires forall m :: lo <= m < hi ==> !ClosesCData(b, m)
    ensures forall m :: lo2 <= m < hi2 ==> !ClosesCData(c, m)
  {
    forall m | lo2 <= m < hi2
      ensures !ClosesCData(c, m)
    {
      Moved(b, c, d, m + d, m);
      Moved(b, c, d, m + d - 1, m - 1);
      Moved(b, c, d, m + d - 2, m - 2);
      assert !ClosesCData(b, m + d);
    }
  }

  /** The byte work of `consumeTagName`: skip '<' and the '/' of an end tag,
      cut the name at the first delimiter (one byte earlier before "/>"),
      and trim it. */
  method ScanTagName(b: seq<byte>) returns (isEnd: bool, full: seq<byte>, rest: seq<byte>)
    requires TagNameDefined(b)
    ensures TagName(b) == TagHead(SplitName(full), isEnd, rest)
  {
    var start := 1;
    isEnd := false;
    if b[1] == SLASH {
      start, isEnd := 2, true;
    }
    var body := b[start..];
    var p := IndexAny(body, NameDelims);
    var pos := p;
    if body[p] == GT && |body| > 1 && body[p - 1] == SLASH {
      pos := p - 1;
    }
    full := Trim.Trim(body[..pos]);
    rest := body[pos..];
    TagNameIs(b, body, p, pos, full, rest);
  }

  /** One turn of `consumeAttrs` on its bytes: either the '>' that ends the
      scan, with whether a '/' comes right before it, or the trimmed name and
      the quoted value of one attribute, with the bytes after the closing
      '"'. */
  method ScanAttr(b: seq<byte>) returns (stop: bool, selfClosing: bool, full: seq<byte>, value: seq<byte>, rest: seq<byte>)
    requires !StepAttr(b).Stuck?
    ensures stop <==> StepAttr(b).End?
    ensures stop ==> StepAttr(b) == End(selfClosing, rest)
    ensures !stop ==> var s := StepAttr(b);
      full == Trimmed(s.raw) && value == s.value && rest == s.rest
  {
    var pos := IndexAny(b, AttrDelims);
    if b[pos] == GT {
      stop, selfClosing, full, value := true, pos > 0 && b[pos - 1] == SLASH, [], [];
      rest := b[pos + 1..];
      return;
    }
    stop, selfClosing := false, false;
    full := Trim.Trim(b[..pos]);
    var after := b[pos + 1..];
    var q := IndexByte(after, QUOTE);
    var tail := after[q + 1..];
    var width := IndexByte(tail, QUOTE);
    QuotedValueIs(b[..pos], after, q, tail, width);
    value := after[q + 1..q + 1 + width];
    rest := after[q + width + 2..];
  }

  lemma {:induction false} QuotedValueIs(raw: seq<byte>, v: seq<byte>, q: int, tail: seq<byte>, width: int)
    requires QuotedValue(raw, v).Pair?
    requires q == IndexByte(v, QUOTE) && 0 <= q && tail == v[q + 1..] && width == IndexByte(tail, QUOTE)
    ensures 0 <= width && q + 1 + width < |v|
    ensures QuotedValue(raw, v) == Pair(raw, v[q + 1..q + 1 + width], v[q + width + 2..])
  {
    assert IndexByte(v[q + 1..], QUOTE) == width;
  }

  /** The bookkeeping of one `consumeAttrs` turn: moving an attribute from the
      ones still to read to the ones read keeps the whole list. */
  lemma AppendAttr(all: seq<Attr>, done: seq<Attr>, x: Attr, todo: seq<Attr>)
    requires all == done + ([x] + todo)
    ensures all == (done + [x]) + todo
  {
  }

  /** The colon split of `consumeTagName` and `consumeAttrs`, as SplitName
      states it, for the first ':' at colon (or none). */
  lemma SplitNameIs(full: seq<byte>, colon: int)
    requires colon == IndexByte(full, COLON)
    ensures colon == -1 ==> SplitName(full) == Name(Nil, Of(full), Of(full))
    ensures colon != -1 ==> SplitName(full) == Name(Of(full[..colon]), Of(full[colon + 1..]), Of(full))
  {
  }

  /** The steps of `consumeTagName` compute TagName. */
  lemma {:induction false} TagNameIs(b: seq<byte>, body: seq<byte>, p: int, pos: nat, full: seq<byte>, rest: seq<byte>)
    requires TagNameDefined(b) && body == NameBody(b) && p == IndexAny(body, NameDelims)
    requires 0 <= p < |body|
    requires pos == if body[p] == GT && |body| > 1 && body[p - 1] == SLASH then p - 1 else p
    requires pos <= |body| && full == Trimmed(body[..pos]) && rest == body[pos..]
    ensures TagName(b) == TagHead(SplitName(full), b[1] == SLASH, rest)
  {
  }
}
