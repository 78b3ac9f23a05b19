/** The token decomposer: how `Token` splits one raw span into a name,
    attributes and character data (`consumeNonTagIdentifier`,
    `consumeTagName`, `consumeAttrs`, `consumeCharData`). Each piece is a
    function of the span. Where the Go code would index out of range, a
    precondition names the inputs it is defined on. */
module Decompose {
  import opened Bytes
  import opened Trim
  import opened Tokens

  /** The bytes that end a tag name: '>', space, tab, CR and LF. */
  const NameDelims: set<byte> := {GT, SPACE, TAB, CR, LF}

  /** The bytes the attribute scan stops at: '=' and '>'. */
  const AttrDelims: set<byte> := {EQUALS, GT}

  /** `<?…` and `<!…` spans are kept as raw data. */
  predicate IsNonTag(b: seq<byte>) {
    |b| >= 2 && b[0] == LT && (b[1] == QUESTION || b[1] == BANG)
  }

  /** The span after '<' and after the '/' of an end tag. */
  function NameBody(b: seq<byte>): seq<byte>
    requires |b| >= 2
  {
    if b[1] == SLASH then b[2..] else b[1..]
  }

  /** `consumeTagName` does not panic: the span has at least two bytes, a
      delimiter follows the name, and the '/' probe before a leading '>' stays
      in range. */
  predicate TagNameDefined(b: seq<byte>) {
    && |b| >= 2
    && var body := NameBody(b);
       var p := IndexAny(body, NameDelims);
       p != -1 && !(p == 0 && body[0] == GT && |body| > 1)
  }

  datatype TagHead = TagHead(name: Name, isEnd: bool, rest: seq<byte>)

  /** A byte sequence without any white space trims to itself. */
  lemma TrimmedNoSpace(x: seq<byte>)
    requires forall k :: 0 <= k < |x| ==> !IsSpace(x[k])
    ensures Trimmed(x) == x
  {
    TrimmedPadded([], x, []);
    assert [] + x + [] == x;
  }

  /** Where the name in a name body ends: at the first delimiter, or one
      byte earlier when that delimiter is a '>' right after a '/'. */
  function NameEnd(body: seq<byte>): (q: nat)
    requires var p := IndexAny(body, NameDelims); p != -1 && !(p == 0 && body[0] == GT && |body| > 1)
    ensures q < |body|
    ensures forall k :: 0 <= k < q ==> body[k] !in NameDelims
    ensures body[q] in NameDelims || (q + 1 < |body| && body[q] == SLASH && body[q + 1] == GT)
  {
    var p := IndexAny(body, NameDelims);
    if body[p] == GT && |body| > 1 && body[p - 1] == SLASH then p - 1 else p
  }

  /** The name bytes before NameEnd trim to themselves. */
  lemma NamePrefix(body: seq<byte>, q: nat)
    requires q <= |body|
    requires forall k :: 0 <= k < q ==> body[k] !in NameDelims
    ensures forall k :: 0 <= k < q ==> body[..q][k] !in NameDelims
    ensures Trimmed(body[..q]) == body[..q]
    ensures body == body[..q] + body[q..]
  {
    var x := body[..q];
    assert forall k :: 0 <= k < q ==> x[k] == body[k];
    TrimmedNoSpace(x);
  }

  /** `consumeTagName`. The name is the bytes before the first delimiter. When
      that delimiter is a '>' right after a '/', the '/' is left to the
      attribute scan, which then marks the token self-closing. */
  function TagName(b: seq<byte>): (h: TagHead)
    requires TagNameDefined(b)
    ensures h.isEnd <==> b[1] == SLASH
    ensures h.name.full.Of? && NameBody(b) == h.name.full.bytes + h.rest
    ensures forall k :: 0 <= k < |h.name.full.bytes| ==> h.name.full.bytes[k] !in NameDelims
    ensures |h.rest| > 0
    ensures h.rest[0] in NameDelims || (|h.rest| >= 2 && h.rest[0] == SLASH && h.rest[1] == GT)
    ensures h.name == SplitName(h.name.full.bytes)
  {
    var body := NameBody(b);
    var q := NameEnd(body);
    NamePrefix(body, q);
    TagHead(SplitName(Trimmed(body[..q])), b[1] == SLASH, body[q..])
  }

  /** One turn of the `consumeAttrs` loop: the '>' that ends the scan, or
      one attribute and the bytes after its closing quote. Stuck stands for
      the index out of range that Go would panic on (no '=' or '>', or fewer
      than two '"' after the '='). */
  datatype AttrStep =
    | End(selfClosing: bool, rest: seq<byte>)
    | Pair(raw: seq<byte>, value: seq<byte>, rest: seq<byte>)
    | Stuck

  function StepAttr(b: seq<byte>): (s: AttrStep)
    ensures !s.Stuck? ==> |s.rest| < |b|
  {
    var p := IndexAny(b, AttrDelims);
    if p == -1 then Stuck
    else if b[p] == GT then End(p > 0 && b[p - 1] == SLASH, b[p + 1..])
    else QuotedValue(b[..p], b[p + 1..])
  }

  /** The rest of a turn after the '=': the value is the bytes between the
      next two '"', and the scan resumes after the second one. */
  function QuotedValue(raw: seq<byte>, v: seq<byte>): (s: AttrStep)
    ensures s.Pair? || s.Stuck?
    ensures s.Pair? ==> |s.rest| < |v|
  {
    var q := IndexByte(v, QUOTE);
    if q == -1 then Stuck
    else
      var w := IndexByte(v[q + 1..], QUOTE);
      if w == -1 then Stuck
      else Pair(raw, v[q + 1..q + 1 + w], v[q + w + 2..])
  }

  /** An attribute value never contains '"'. */
  lemma StepAttrValue(b: seq<byte>)
    ensures StepAttr(b).Pair? ==> QUOTE !in StepAttr(b).value
  {
    var p := IndexAny(b, AttrDelims);
    if p != -1 && b[p] != GT {
      var v := b[p + 1..];
      var q := IndexByte(v, QUOTE);
      if q != -1 {
        var w := IndexByte(v[q + 1..], QUOTE);
        if w != -1 {
          var value := v[q + 1..q + 1 + w];
          var u := v[q + 1..];
          assert forall k :: 0 <= k < w ==> value[k] == u[k];
        }
      }
    }
  }

  /** `consumeAttrs` does not panic on b: every turn of the loop is defined
      until a '>' ends the scan. */
  predicate AttrsDefined(b: seq<byte>)
    decreases |b|
  {
    var s := StepAttr(b);
    s.End? || (s.Pair? && AttrsDefined(s.rest))
  }

  datatype AttrsTail = AttrsTail(attrs: seq<Attr>, selfClosing: bool, rest: seq<byte>)

  /** `consumeAttrs`: one attribute per '=' that the scan reaches, in order. The
      name is the trimmed text since the previous stop, and the value is the
      bytes strictly between the next two '"'. The scan resumes after the
      closing quote. A '>' ends the scan, and it marks the token self-closing
      when a '/' comes right before it. */
  function ParseAttrs(b: seq<byte>): (t: AttrsTail)
    requires AttrsDefined(b)
    ensures |t.rest| < |b|
    decreases |b|
  {
    match StepAttr(b)
    case End(sc, rest) => AttrsTail([], sc, rest)
    case Pair(raw, value, rest) =>
      var t := ParseAttrs(rest);
      AttrsTail([Attr(SplitName(Trimmed(raw)), value)] + t.attrs, t.selfClosing, t.rest)
  }

  /** An attribute as it would be written: its full name and its value. */
  datatype RawAttr = RawAttr(full: seq<byte>, value: seq<byte>)

  /** A name without white space, '=' or '>' and a value without '"' survive
      being written out and scanned again. */
  predicate Writable(a: RawAttr) {
    && (forall k :: 0 <= k < |a.full| ==> !IsSpace(a.full[k]) && a.full[k] !in AttrDelims)
    && QUOTE !in a.value
  }

  /** ` name="value"` for each attribute, in order. */
  function RenderAttrs(attrs: seq<RawAttr>): seq<byte> {
    if attrs == [] then [] else RenderAttr(attrs[0]) + RenderAttrs(attrs[1..])
  }

  /** ` name="value"`. */
  function RenderAttr(a: RawAttr): seq<byte> {
    [SPACE] + a.full + [EQUALS, QUOTE] + a.value + [QUOTE]
  }

  /** `/>` or `>`. */
  function Close(selfClosing: bool): seq<byte> {
    if selfClosing then [SLASH, GT] else [GT]
  }

  /** The attributes the tokenizer reports for written-out attributes. */
  function AttrsOf(attrs: seq<RawAttr>): (r: seq<Attr>)
    ensures |r| == |attrs|
  {
    if attrs == [] then [] else [Attr(SplitName(attrs[0].full), attrs[0].value)] + AttrsOf(attrs[1..])
  }

  /** Round trip of the attribute scan: written-out attributes and a closing
      `>` or `/>` are read back as those attributes, that self-closing flag, and
      the bytes after the '>'. So an '=' inside a value never starts an
      attribute, and a bare `="v"` reads as an attribute with an empty name. */
  lemma {:induction false} ParseAttrsRendered(attrs: seq<RawAttr>, selfClosing: bool, rest: seq<byte>)
    requires forall i :: 0 <= i < |attrs| ==> Writable(attrs[i])
    ensures AttrsDefined(RenderAttrs(attrs) + (Close(selfClosing) + rest))
    ensures ParseAttrs(RenderAttrs(attrs) + (Close(selfClosing) + rest))
         == AttrsTail(AttrsOf(attrs), selfClosing, rest)
    decreases |attrs|
  {
    var after := Close(selfClosing) + rest;
    var b := RenderAttrs(attrs) + after;
    if attrs == [] {
      assert b == after;
      ParseAttrsClose(selfClosing, rest);
    } else {
      var tail := RenderAttrs(attrs[1..]) + after;
      RenderAttrsCons(attrs, after);
      assert forall i :: 0 <= i < |attrs| - 1 ==> attrs[1..][i] == attrs[i + 1];
      ParseAttrsRendered(attrs[1..], selfClosing, rest);
      ParseAttrsStep(attrs[0], tail, AttrsTail(AttrsOf(attrs[1..]), selfClosing, rest));
      AttrsOfCons(attrs);
    }
  }

  /** One written-out attribute in front of bytes the scan reads as t. */
  lemma ParseAttrsStep(a: RawAttr, tail: seq<byte>, t: AttrsTail)
    requires Writable(a) && AttrsDefined(tail) && ParseAttrs(tail) == t
    ensures AttrsDefined(RenderAttr(a) + tail)
    ensures ParseAttrs(RenderAttr(a) + tail)
         == AttrsTail([Attr(SplitName(a.full), a.value)] + t.attrs, t.selfClosing, t.rest)
  {
    StepAttrRendered(a, tail);
    AttrNameRendered(a.full);
    ParseAttrsPair(RenderAttr(a) + tail, [SPACE] + a.full, a.value, tail);
  }

  /** The name of a written-out attribute is read back by `trim`. */
  lemma AttrNameRendered(full: seq<byte>)
    requires forall k :: 0 <= k < |full| ==> !IsSpace(full[k])
    ensures Trimmed([SPACE] + full) == full
  {
    TrimmedPadded([SPACE], full, []);
    assert [SPACE] + full + [] == [SPACE] + full;
  }

  /** Writing out the first attribute, then the rest. */
  lemma RenderAttrsCons(attrs: seq<RawAttr>, after: seq<byte>)
    requires attrs != []
    ensures RenderAttrs(attrs) + after == RenderAttr(attrs[0]) + (RenderAttrs(attrs[1..]) + after)
  {
  }

  lemma AttrsOfCons(attrs: seq<RawAttr>)
    requires attrs != []
    ensures AttrsOf(attrs) == [Attr(SplitName(attrs[0].full), attrs[0].value)] + AttrsOf(attrs[1..])
  {
  }

  /** A turn that meets the closing '>' ends the scan. */
  lemma ParseAttrsEnd(b: seq<byte>, selfClosing: bool, rest: seq<byte>)
    requires StepAttr(b) == End(selfClosing, rest)
    ensures AttrsDefined(b) && ParseAttrs(b) == AttrsTail([], selfClosing, rest)
  {
  }

  /** A turn that reads an attribute puts it in front of the ones after it. */
  lemma ParseAttrsPair(b: seq<byte>, raw: seq<byte>, value: seq<byte>, rest: seq<byte>)
    requires StepAttr(b) == Pair(raw, value, rest) && AttrsDefined(rest)
    ensures AttrsDefined(b)
    ensures var t := ParseAttrs(rest);
      ParseAttrs(b) == AttrsTail([Attr(SplitName(Trimmed(raw)), value)] + t.attrs, t.selfClosing, t.rest)
  {
  }

  /** The scan of a closing `>` or `/>` yields no attribute. */
  lemma ParseAttrsClose(selfClosing: bool, rest: seq<byte>)
    ensures AttrsDefined(Close(selfClosing) + rest)
    ensures ParseAttrs(Close(selfClosing) + rest) == AttrsTail([], selfClosing, rest)
  {
    StepAttrClose(selfClosing, rest);
    ParseAttrsEnd(Close(selfClosing) + rest, selfClosing, rest);
  }

  /** The closing `>` or `/>` ends the scan with that self-closing flag. */
  lemma StepAttrClose(selfClosing: bool, rest: seq<byte>)
    ensures StepAttr(Close(selfClosing) + rest) == End(selfClosing, rest)
  {
    var b := Close(selfClosing) + rest;
    if selfClosing {
      assert b[0] == SLASH && b[1] == GT;
      assert IndexAny(b, AttrDelims) == 1;
      assert b[2..] == rest;
    } else {
      assert IndexAny(b, AttrDelims) == 0;
      assert b[1..] == rest;
    }
  }

  /** One written-out attribute is read back by one turn of the scan. */
  lemma StepAttrRendered(a: RawAttr, tail: seq<byte>)
    requires Writable(a)
    ensures StepAttr(RenderAttr(a) + tail) == Pair([SPACE] + a.full, a.value, tail)
  {
    var head := [SPACE] + a.full;
    var v := [QUOTE] + (a.value + ([QUOTE] + tail));
    RenderAttrSplit(a, tail);
    StepAttrAtEquals(head, v);
    QuotedValueRendered(head, a.value, tail);
  }

  /** The written-out attribute, cut where the scan cuts it. */
  lemma RenderAttrSplit(a: RawAttr, tail: seq<byte>)
    ensures RenderAttr(a) + tail == ([SPACE] + a.full) + ([EQUALS] + ([QUOTE] + (a.value + ([QUOTE] + tail))))
  {
  }

  /** A turn whose first stop is an '=' reads a quoted value after it, with
      the bytes before the '=' as the raw name. */
  lemma StepAttrAtEquals(head: seq<byte>, v: seq<byte>)
    requires forall k :: 0 <= k < |head| ==> head[k] !in AttrDelims
    ensures StepAttr(head + ([EQUALS] + v)) == QuotedValue(head, v)
  {
    FirstStopAtEquals(head, v);
    Split3(head, EQUALS, v);
  }

  lemma FirstStopAtEquals(head: seq<byte>, v: seq<byte>)
    requires forall k :: 0 <= k < |head| ==> head[k] !in AttrDelims
    ensures var b := head + ([EQUALS] + v); IndexAny(b, AttrDelims) == |head| && b[|head|] == EQUALS
  {
    IndexAnyConcat(head, [EQUALS] + v, AttrDelims);
  }

  /** The parts of x + ([c] + y), read off by offset. */
  lemma Split3(x: seq<byte>, c: byte, y: seq<byte>)
    ensures var b := x + ([c] + y); b[..|x|] == x && b[|x| + 1..] == y
  {
  }

  /** A quoted value without '"' inside is read back, and the scan resumes
      right after its closing quote. */
  lemma QuotedValueRendered(raw: seq<byte>, value: seq<byte>, tail: seq<byte>)
    requires QUOTE !in value
    ensures QuotedValue(raw, [QUOTE] + (value + ([QUOTE] + tail))) == Pair(raw, value, tail)
  {
    var closing := [QUOTE] + tail;
    var v := [QUOTE] + (value + closing);
    assert IndexByte(v, QUOTE) == 0;
    assert v[1..] == value + closing;
    IndexByteConcat(value, closing, QUOTE);
    ValueSpan(value, closing);
  }

  /** The value and what follows its closing quote, read off by offset. */
  lemma ValueSpan(value: seq<byte>, closing: seq<byte>)
    requires |closing| > 0
    ensures var v := [QUOTE] + (value + closing);
      v[1..1 + |value|] == value && v[|value| + 2..] == closing[1..]
  {
    var v := [QUOTE] + (value + closing);
    assert forall k :: 0 <= k < |value| ==> v[1 + k] == value[k];
    assert forall k :: |value| + 2 <= k < |v| ==> v[k] == closing[k - |value| - 1];
  }

  /** A leading `<![CDATA[` comes off; anything else is left alone. */
  function DropCDataOpen(t: seq<byte>): (u: seq<byte>)
    ensures |t| >= |CDataOpen| && t[..|CDataOpen|] == CDataOpen ==> t == CDataOpen + u
    ensures !(|t| >= |CDataOpen| && t[..|CDataOpen|] == CDataOpen) ==> u == t
  {
    if |t| >= |CDataOpen| && t[..|CDataOpen|] == CDataOpen then
      assert t == t[..|CDataOpen|] + t[|CDataOpen|..];
      t[|CDataOpen|..]
    else t
  }

  /** A trailing `]]>` comes off; anything else is left alone. */
  function DropCDataClose(u: seq<byte>): (v: seq<byte>)
    ensures |u| >= |CDataClose| && u[|u| - |CDataClose|..] == CDataClose ==> u == v + CDataClose
    ensures !(|u| >= |CDataClose| && u[|u| - |CDataClose|..] == CDataClose) ==> v == u
  {
    if |u| >= |CDataClose| && u[|u| - |CDataClose|..] == CDataClose then
      assert u == u[..|u| - |CDataClose|] + u[|u| - |CDataClose|..];
      u[..|u| - |CDataClose|]
    else u
  }

  /** `consumeCharData`: trimPrefix, drop a leading `<![CDATA[` and a trailing
      `]]>`, then trim. */
  function CharDataPayload(b: seq<byte>): (d: seq<byte>)
  {
    Trimmed(DropCDataClose(DropCDataOpen(TrimmedPrefix(b))))
  }

  /** The markers are recognised where they are written. */
  lemma DropCDataMarkers(x: seq<byte>)
    ensures DropCDataClose(DropCDataOpen(CDataOpen + x + CDataClose)) == x
  {
    var y := x + CDataClose;
    assert CDataOpen + x + CDataClose == CDataOpen + y;
    assert (CDataOpen + y)[..|CDataOpen|] == CDataOpen;
    assert DropCDataOpen(CDataOpen + y) == y;
    assert y[|y| - |CDataClose|..] == CDataClose;
  }

  /** A CDATA section after white space yields its trimmed content. */
  lemma CharDataOfCData(lead: seq<byte>, x: seq<byte>)
    requires forall j :: 0 <= j < |lead| ==> IsBlank(lead[j])
    ensures CharDataPayload(lead + (CDataOpen + x + CDataClose)) == Trimmed(x)
  {
    var t := TrimmedPrefixPadded(lead, CDataOpen + x + CDataClose);
    DropCDataMarkers(x);
  }

  /** Text that does not start with `<![CDATA[` does not either once blanks
      follow it, and it never ends with `]]>` then. */
  lemma NoCDataMarkers(x: seq<byte>, trail: seq<byte>)
    requires forall j :: 0 <= j < |trail| ==> IsBlank(trail[j])
    requires |x| > 0
    requires !(|x| >= |CDataOpen| && x[..|CDataOpen|] == CDataOpen)
    requires !(|x| >= |CDataClose| && x[|x| - |CDataClose|..] == CDataClose)
    ensures DropCDataClose(DropCDataOpen(x + trail)) == x + trail
  {
    NoCDataOpen(x, trail);
    NoCDataClose(x, trail);
  }

  lemma NoCDataOpen(x: seq<byte>, trail: seq<byte>)
    requires forall j :: 0 <= j < |trail| ==> IsBlank(trail[j])
    requires !(|x| >= |CDataOpen| && x[..|CDataOpen|] == CDataOpen)
    ensures var t := x + trail; !(|t| >= |CDataOpen| && t[..|CDataOpen|] == CDataOpen)
  {
    var t := x + trail;
    assert |x| >= |CDataOpen| ==> x[..|CDataOpen|] == t[..|CDataOpen|];
    assert |x| < |t| ==> t[|x|] == trail[0] && !IsBlank(CDataOpen[|x| % |CDataOpen|]);
  }

  lemma NoCDataClose(x: seq<byte>, trail: seq<byte>)
    requires forall j :: 0 <= j < |trail| ==> IsBlank(trail[j])
    requires |x| > 0
    requires !(|x| >= |CDataClose| && x[|x| - |CDataClose|..] == CDataClose)
    ensures var t := x + trail; !(|t| >= |CDataClose| && t[|t| - |CDataClose|..] == CDataClose)
  {
    var t := x + trail;
    assert |trail| > 0 ==> t[|t| - 1] == trail[|trail| - 1];
    assert |trail| == 0 ==> t == x;
  }

  /** Plain text between white space yields itself. */
  lemma CharDataOfText(lead: seq<byte>, x: seq<byte>, trail: seq<byte>)
    requires forall j :: 0 <= j < |lead| ==> IsBlank(lead[j])
    requires forall j :: 0 <= j < |trail| ==> IsBlank(trail[j])
    requires |x| > 0 && !IsSpace(x[0]) && !IsSpace(x[|x| - 1])
    requires !(|x| >= |CDataOpen| && x[..|CDataOpen|] == CDataOpen)
    requires !(|x| >= |CDataClose| && x[|x| - |CDataClose|..] == CDataClose)
    ensures CharDataPayload(lead + (x + trail)) == x
  {
    var t := TrimmedPrefixPadded(lead, x + trail);
    NoCDataMarkers(x, trail);
    TrimmedPadded([], x, trail);
    assert [] + x + trail == x + trail;
  }

  /** `Token` does not panic while decomposing b. */
  predicate Decomposable(b: seq<byte>) {
    IsNonTag(b) || |b| == 0 || (TagNameDefined(b) && AttrsDefined(TagName(b).rest))
  }

  /** The shared token after `clearToken` and the `consume*` steps. A `<?` or
      `<!` span is raw data of a self-closing token with no name. Any other span
      is a tag: a name, its attributes, and the character data after the '>'. */
  function Decompose(b: seq<byte>): (t: Token)
    requires Decomposable(b)
    ensures IsNonTag(b) ==> t == ZeroToken.(data := Of(b), selfClosing := true)
    ensures !IsNonTag(b) && |b| > 0 ==>
      && t.name == TagName(b).name
      && t.isEndElement == (b[1] == SLASH)
      && var a := ParseAttrs(TagName(b).rest);
         t.attrs == a.attrs && t.selfClosing == a.selfClosing && t.data == Of(CharDataPayload(a.rest))
  {
    if IsNonTag(b) then ZeroToken.(data := Of(b), selfClosing := true)
    else if |b| == 0 then ZeroToken
    else
      var h := TagName(b);
      var a := ParseAttrs(h.rest);
      Token(h.name, a.attrs, Of(CharDataPayload(a.rest)), a.selfClosing, h.isEnd)
  }

  /** A name without delimiters, followed by a delimiter or by `/>`, is the
      tag name `consumeTagName` reads, and what follows it is left over. */
  lemma TagNameRendered(b: seq<byte>, name: seq<byte>, after: seq<byte>)
    requires |b| >= 2 && NameBody(b) == name + after
    requires |name| > 0 && name[|name| - 1] != SLASH
    requires forall k :: 0 <= k < |name| ==> name[k] !in NameDelims
    requires |after| > 0 && (after[0] in NameDelims || (|after| >= 2 && after[0] == SLASH && after[1] == GT))
    ensures TagNameDefined(b) && TagName(b) == TagHead(SplitName(name), b[1] == SLASH, after)
  {
    var body := NameBody(b);
    IndexAnyConcat(name, after, NameDelims);
    assert body[|name| - 1] == name[|name| - 1];
    if after[0] !in NameDelims {
      assert IndexAny(after, NameDelims) == 1;
      assert body[|name|] == SLASH && body[|name| + 1] == GT;
    } else {
      assert IndexAny(after, NameDelims) == 0;
    }
    assert NameEnd(body) == |name|;
    assert body[..|name|] == name;
    assert body[|name|..] == after;
    TrimmedNoSpace(name);
  }

  /** What follows a start tag's name begins with a space, a '>' or `/>`. */
  lemma AfterNameStarts(attrs: seq<RawAttr>, selfClosing: bool, text: seq<byte>)
    ensures var after := RenderAttrs(attrs) + (Close(selfClosing) + text);
      |after| > 0 && (after[0] in NameDelims || (|after| >= 2 && after[0] == SLASH && after[1] == GT))
  {
    if attrs != [] {
      RenderAttrsCons(attrs, Close(selfClosing) + text);
    }
  }

  /** A written-out start tag, followed by its text, decomposes into its name,
      attributes, self-closing flag and trimmed text. */
  lemma DecomposeStartTag(name: seq<byte>, attrs: seq<RawAttr>, selfClosing: bool, text: seq<byte>)
    requires |name| > 0 && name[0] != SLASH && name[0] != QUESTION && name[0] != BANG
    requires name[|name| - 1] != SLASH
    requires forall k :: 0 <= k < |name| ==> name[k] !in NameDelims
    requires forall i :: 0 <= i < |attrs| ==> Writable(attrs[i])
    ensures var b := [LT] + (name + (RenderAttrs(attrs) + (Close(selfClosing) + text)));
      && Decomposable(b)
      && Decompose(b) == Token(SplitName(name), AttrsOf(attrs), Of(CharDataPayload(text)), selfClosing, false)
  {
    var after := RenderAttrs(attrs) + (Close(selfClosing) + text);
    var b := [LT] + (name + after);
    assert b[1] == name[0];
    assert NameBody(b) == name + after;
    AfterNameStarts(attrs, selfClosing, text);
    TagNameRendered(b, name, after);
    ParseAttrsRendered(attrs, selfClosing, text);
    DecomposeOfParts(b, TagName(b), ParseAttrs(after));
  }

  /** An end tag, followed by its text, decomposes into its name, no
      attributes and the trimmed text. */
  lemma DecomposeEndTag(name: seq<byte>, text: seq<byte>)
    requires |name| > 0 && name[|name| - 1] != SLASH
    requires forall k :: 0 <= k < |name| ==> name[k] !in NameDelims
    ensures var b := [LT, SLASH] + (name + ([GT] + text));
      && Decomposable(b)
      && Decompose(b) == Token(SplitName(name), [], Of(CharDataPayload(text)), false, true)
  {
    var after := [GT] + text;
    var b := [LT, SLASH] + (name + after);
    assert NameBody(b) == name + after;
    TagNameRendered(b, name, after);
    ParseAttrsClose(false, text);
    DecomposeOfParts(b, TagName(b), AttrsTail([], false, text));
  }

  /** White space alone gives empty character data, which the
      nil-normalisation turns into nil. */
  lemma CharDataOfBlank(text: seq<byte>, t: Token)
    requires forall j :: 0 <= j < |text| ==> IsBlank(text[j])
    requires t.data == Of(CharDataPayload(text))
    ensures CharDataPayload(text) == [] && Normalized(t).data == Nil
  {
    var p := TrimmedPrefixPadded(text, []);
    assert text + [] == text;
    assert DropCDataClose(DropCDataOpen([])) == [];
    assert Trimmed([]) == [] by {
      assert TrimmedPrefix([]) == [];
    }
  }

  /** A tag span decomposes into its name, then the attributes after the
      name, then the character data after the '>'. */
  lemma DecomposeOfParts(b: seq<byte>, h: TagHead, a: AttrsTail)
    requires !IsNonTag(b) && TagNameDefined(b) && TagName(b) == h
    requires AttrsDefined(h.rest) && ParseAttrs(h.rest) == a
    ensures Decomposable(b)
    ensures Decompose(b) == Token(h.name, a.attrs, Of(CharDataPayload(a.rest)), a.selfClosing, h.isEnd)
  {
  }
}
