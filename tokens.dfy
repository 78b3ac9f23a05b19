/** The token model: Name, Attr and Token as the tokenizer fills them in.
    Go distinguishes a nil byte slice from an empty one, and so do the
    tokenizer's tests. A field that can be nil is therefore a Slice. Attrs is
    a plain sequence: the tokenizer's own list is never nil, and a returned
    token's list is nil exactly when it is empty. */
module Tokens {
  import opened Bytes

  /** A Go []byte that is either nil or a (possibly empty) view. */
  datatype Slice = Nil | Of(bytes: seq<byte>) {
    /** The bytes seen through the slice; nil reads as empty. */
    function View(): seq<byte> {
      if Nil? then [] else bytes
    }
  }

  /** A name split on its first ':' (the QName split of Namespaces in XML 1.0,
      section 4), without any namespace check. */
  datatype Name = Name(prefix: Slice, local: Slice, full: Slice)

  datatype Attr = Attr(name: Name, value: seq<byte>)

  datatype Token = Token(
    name: Name,
    attrs: seq<Attr>,
    data: Slice,
    selfClosing: bool,
    isEndElement: bool)

  const NoName: Name := Name(Nil, Nil, Nil)

  /** Go's zero Token, and also what `clearToken` leaves behind. */
  const ZeroToken: Token := Token(NoName, [], Nil, false, false)

  /** The split of a tag or attribute name. The prefix is the colon-free part
      before the first ':' and the local part is all that follows it. Without
      a ':' the prefix is nil and the local part is the whole name. */
  function SplitName(full: seq<byte>): (n: Name)
    ensures n.full == Of(full) && n.local.Of?
    ensures COLON in full ==>
      n.prefix.Of? && COLON !in n.prefix.bytes && full == n.prefix.bytes + [COLON] + n.local.bytes
    ensures COLON !in full ==> n.prefix == Nil && n.local == Of(full)
  {
    var c := IndexByte(full, COLON);
    if c == -1 then Name(Nil, Of(full), Of(full))
    else
      assert full == full[..c] + [COLON] + full[c + 1..];
      assert COLON !in full[..c] by {
        assert forall k :: 0 <= k < c ==> full[..c][k] == full[k];
      }
      Name(Of(full[..c]), Of(full[c + 1..]), Of(full))
  }

  /** The split is unambiguous: a colon-free prefix, ':' and a rest give back
      that prefix and that rest. */
  lemma SplitNameOfJoin(prefix: seq<byte>, local: seq<byte>)
    requires COLON !in prefix
    ensures SplitName(prefix + [COLON] + local) == Name(Of(prefix), Of(local), Of(prefix + [COLON] + local))
  {
    var full := prefix + [COLON] + local;
    assert forall k :: 0 <= k < |prefix| ==> full[k] == prefix[k];
    IndexByteConcat(prefix, [COLON] + local, COLON);
    assert full == prefix + ([COLON] + local);
    assert full[..|prefix|] == prefix;
    assert full[|prefix| + 1..] == local;
  }

  /** The nil-normalisation at the end of `Token`. Empty data becomes nil and
      non-empty data is left alone. (Attrs needs no such step in this model,
      because an empty attrs sequence already stands for nil.) */
  function Normalized(t: Token): (r: Token)
    ensures r.data == Nil <==> |t.data.View()| == 0
    ensures r.data.View() == t.data.View()
    ensures r.(data := t.data) == t
  {
    if |t.data.View()| == 0 then t.(data := Nil) else t
  }
}
