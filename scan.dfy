/** The boundary scanner: `findTokenEnd`, which finds where a construct that
    starts with '<' ends, and the end rule of `parseCharData`, which decides
    how much character data after a tag belongs to that tag's span.

    Both are specified as functions of the bytes buffered so far. "More"
    means the answer is not in the buffer yet, so the tokenizer reads more
    input and asks again. */
module Scan {
  import opened Bytes

  /** The outcome of `findTokenEnd`. Found(end) is the index one past the
      closing '>'. More is Go's -1. Panic stands for the index out of range at
      tokenizer.go:233, which the Go code does not guard against. */
  datatype ScanResult = Found(end: nat) | More | Panic

  /** `<!--` opens a comment. The length test comes first, as in the source. */
  predicate IsComment(buf: seq<byte>, pivot: nat) {
    |buf| > pivot + 4 && buf[pivot + 2] == DASH && buf[pivot + 3] == DASH
  }

  /** One turn of the `findTokenEnd` loop: it ends the scan, resumes the
      search at a later index, or scans a construct nested at q first. */
  datatype Turn = Done(result: ScanResult) | Next(left: nat) | Nest(q: nat)

  /** One turn of the loop of `findTokenEnd` for the construct opened at
      `pivot`, with the search resumed at `left`.
      - `<?`: a '>' with a '?' right before it, no earlier than pivot+2, ends
        the construct.
      - `<!--`: a `-->` at pivot+3 or later ends it.
      - other `<!`: a '<' after the search start and before the next '>' is a
        nested construct, scanned in full before the search goes on from its
        end. As in the source, that '<' is looked for from left+1 on, so a
        '<' right at the end of a nested construct is not taken for another
        one (AdjacentNestedQuirk).
      - otherwise (and for `<!` without a nested '<'): a '>' ends the
        construct when the bytes since the search start hold an even number
        of '"' (the source tests `bytes.Count(...) % 2 == 0`; Bytes.OddCount
        shows that Odd is that parity). Otherwise the search goes on after
        the next '"'. */
  function Step(buf: seq<byte>, pivot: nat, left: nat): (t: Turn)
    requires pivot < left <= |buf|
    ensures t.Done? && t.result.Found? ==> left < t.result.end <= |buf|
    ensures t.Next? ==> left < t.left <= |buf|
    ensures t.Nest? ==> left < t.q < |buf|
  {
    var g := FindByte(buf, left, |buf|, GT);
    if g == -1 then Done(More)
    else
      var right := g + 1;
      var kind := buf[pivot + 1];
      if kind == QUESTION then
        if right >= pivot + 3 && buf[right - 2] == QUESTION then Done(Found(right))
        else Next(right)
      else if kind == BANG && IsComment(buf, pivot) then
        if right >= pivot + 6 && buf[right - 3] == DASH && buf[right - 2] == DASH then Done(Found(right))
        else Next(right)
      else if kind == BANG && right < left + 2 then Done(Panic)
      else if kind == BANG && FindByte(buf, left + 1, right - 1, LT) != -1 then
        Nest(FindByte(buf, left + 1, right - 1, LT))
      else if !Odd(buf, left, right, QUOTE) then Done(Found(right))
      else
        var w := FindByte(buf, right, |buf|, QUOTE);
        if w == -1 then Done(More) else Next(w + 1)
  }

  /** `findTokenEnd` from the turn that resumes the search at `left`. */
  function Scan(buf: seq<byte>, pivot: nat, left: nat): (s: ScanResult)
    requires pivot < left <= |buf|
    ensures s.Found? ==> left < s.end <= |buf|
    decreases |buf| - pivot, |buf| - left
  {
    match Step(buf, pivot, left)
    case Done(r) => r
    case Next(l) => Scan(buf, pivot, l)
    case Nest(q) =>
      var nested := Scan(buf, q, q + 1);
      if nested.Found? then Scan(buf, pivot, nested.end) else nested
  }

  /** A turn that ends the scan gives its result. */
  lemma ScanDone(buf: seq<byte>, pivot: nat, left: nat, r: ScanResult)
    requires pivot < left <= |buf| && Step(buf, pivot, left) == Done(r)
    ensures Scan(buf, pivot, left) == r
  {
  }

  /** A turn that resumes the search leaves the result unchanged. */
  lemma ScanNext(buf: seq<byte>, pivot: nat, left: nat, l: nat)
    requires pivot < left <= |buf| && Step(buf, pivot, left) == Next(l)
    ensures Scan(buf, pivot, left) == Scan(buf, pivot, l)
  {
  }

  /** A nested construct that the scan gets through is skipped as a whole;
      one it does not get through decides the result. */
  lemma ScanNest(buf: seq<byte>, pivot: nat, left: nat, q: nat)
    requires pivot < left <= |buf| && Step(buf, pivot, left) == Nest(q)
    ensures var nested := Scan(buf, q, q + 1);
      && (nested.Found? ==> Scan(buf, pivot, left) == Scan(buf, pivot, nested.end))
      && (!nested.Found? ==> Scan(buf, pivot, left) == nested)
  {
  }

  /** The three rules by which `findTokenEnd` ends a construct: processing
      instructions (`<?`), comments (`<!--`) and tags. */
  datatype Shape = ProcInst | Comment | Tag

  predicate EndsAt(buf: seq<byte>, pivot: nat, shape: Shape, r: nat)
    requires pivot < r
  {
    match shape
    case ProcInst => PIEnd(buf, pivot, r)
    case Comment => CommentEnd(buf, pivot, r)
    case Tag => TagEnd(buf, pivot, r)
  }

  /** s is what a search from `left` for the first end by the rule of shape
      must give: that end if there is one in the buffer, else More. */
  predicate FirstEnd(buf: seq<byte>, pivot: nat, left: nat, shape: Shape, s: ScanResult)
    requires pivot < left <= |buf|
  {
    match s
    case Found(r) => left < r && EndsAt(buf, pivot, shape, r) && forall k :: left < k < r ==> !EndsAt(buf, pivot, shape, k)
    case More => forall k :: left < k <= |buf| ==> !EndsAt(buf, pivot, shape, k)
    case Panic => false
  }

  /** Where a processing instruction may end: one past a `?>` no earlier
      than pivot+3. The '?' may be the one of `<?`, so `<?>` is complete. */
  predicate PIEnd(buf: seq<byte>, pivot: nat, r: nat) {
    pivot + 3 <= r <= |buf| && buf[r - 1] == GT && buf[r - 2] == QUESTION
  }

  /** `<?` ends at the first `?>` after it. */
  lemma {:induction false} ScanPI(buf: seq<byte>, pivot: nat, left: nat)
    requires pivot < left <= |buf| && pivot + 1 < |buf| && buf[pivot + 1] == QUESTION
    ensures FirstEnd(buf, pivot, left, ProcInst, Scan(buf, pivot, left))
    decreases |buf| - left, 1
  {
    var g := FindByte(buf, left, |buf|, GT);
    if g == -1 || PIEnd(buf, pivot, g + 1) {
      PIStop(buf, pivot, left);
    } else {
      PISkip(buf, pivot, left);
    }
  }

  /** The turn of ScanPI that ends the scan. */
  lemma PIStop(buf: seq<byte>, pivot: nat, left: nat)
    requires pivot < left <= |buf| && pivot + 1 < |buf| && buf[pivot + 1] == QUESTION
    requires var g := FindByte(buf, left, |buf|, GT); g == -1 || PIEnd(buf, pivot, g + 1)
    ensures FirstEnd(buf, pivot, left, ProcInst, Scan(buf, pivot, left))
  {
    StepPI(buf, pivot, left);
    NoGTBefore(buf, left);
    ScanDone(buf, pivot, left, Step(buf, pivot, left).result);
  }

  /** The turn of ScanPI that steps over a '>' that does not close. */
  lemma {:induction false} PISkip(buf: seq<byte>, pivot: nat, left: nat)
    requires pivot < left <= |buf| && pivot + 1 < |buf| && buf[pivot + 1] == QUESTION
    requires var g := FindByte(buf, left, |buf|, GT); g != -1 && !PIEnd(buf, pivot, g + 1)
    ensures FirstEnd(buf, pivot, left, ProcInst, Scan(buf, pivot, left))
    decreases |buf| - left, 0
  {
    var g := FindByte(buf, left, |buf|, GT);
    StepPI(buf, pivot, left);
    NoGTBefore(buf, left);
    ScanNext(buf, pivot, left, g + 1);
    ScanPI(buf, pivot, g + 1);
  }

  /** A turn of `<?`. */
  lemma StepPI(buf: seq<byte>, pivot: nat, left: nat)
    requires pivot < left <= |buf| && pivot + 1 < |buf| && buf[pivot + 1] == QUESTION
    ensures var g := FindByte(buf, left, |buf|, GT);
      Step(buf, pivot, left) == if g == -1 then Done(More)
        else if PIEnd(buf, pivot, g + 1) then Done(Found(g + 1))
        else Next(g + 1)
  {
    FindByteIs(buf, left, |buf|, GT);
  }

  /** No construct ends before the next '>'. */
  lemma NoGTBefore(buf: seq<byte>, left: nat)
    requires left <= |buf|
    ensures var g := FindByte(buf, left, |buf|, GT);
      && (g != -1 ==> buf[g] == GT)
      && forall k :: left <= k < (if g == -1 then |buf| else g) ==> buf[k] != GT
  {
    FindByteIs(buf, left, |buf|, GT);
  }

  /** Where a comment may end: one past a `-->` no earlier than pivot+6. Its
      first dash may be the second one of `<!--`, so `<!--->` is complete. */
  predicate CommentEnd(buf: seq<byte>, pivot: nat, r: nat) {
    pivot + 6 <= r <= |buf| && buf[r - 1] == GT && buf[r - 2] == DASH && buf[r - 3] == DASH
  }

  /** `<!--` ends at the first `-->` after it. */
  lemma {:induction false} ScanComment(buf: seq<byte>, pivot: nat, left: nat)
    requires pivot < left <= |buf| && IsComment(buf, pivot) && buf[pivot + 1] == BANG
    ensures FirstEnd(buf, pivot, left, Comment, Scan(buf, pivot, left))
    decreases |buf| - left, 1
  {
    var g := FindByte(buf, left, |buf|, GT);
    if g == -1 || CommentEnd(buf, pivot, g + 1) {
      CommentStop(buf, pivot, left);
    } else {
      CommentSkip(buf, pivot, left);
    }
  }

  /** The turn of ScanComment that ends the scan. */
  lemma CommentStop(buf: seq<byte>, pivot: nat, left: nat)
    requires pivot < left <= |buf| && IsComment(buf, pivot) && buf[pivot + 1] == BANG
    requires var g := FindByte(buf, left, |buf|, GT); g == -1 || CommentEnd(buf, pivot, g + 1)
    ensures FirstEnd(buf, pivot, left, Comment, Scan(buf, pivot, left))
  {
    StepComment(buf, pivot, left);
    NoGTBefore(buf, left);
    ScanDone(buf, pivot, left, Step(buf, pivot, left).result);
  }

  /** The turn of ScanComment that steps over a '>' that does not close. */
  lemma {:induction false} CommentSkip(buf: seq<byte>, pivot: nat, left: nat)
    requires pivot < left <= |buf| && IsComment(buf, pivot) && buf[pivot + 1] == BANG
    requires var g := FindByte(buf, left, |buf|, GT); g != -1 && !CommentEnd(buf, pivot, g + 1)
    ensures FirstEnd(buf, pivot, left, Comment, Scan(buf, pivot, left))
    decreases |buf| - left, 0
  {
    var g := FindByte(buf, left, |buf|, GT);
    StepComment(buf, pivot, left);
    NoGTBefore(buf, left);
    ScanNext(buf, pivot, left, g + 1);
    ScanComment(buf, pivot, g + 1);
  }

  /** A turn of `<!--`. */
  lemma StepComment(buf: seq<byte>, pivot: nat, left: nat)
    requires pivot < left <= |buf| && IsComment(buf, pivot) && buf[pivot + 1] == BANG
    ensures var g := FindByte(buf, left, |buf|, GT);
      Step(buf, pivot, left) == if g == -1 then Done(More)
        else if CommentEnd(buf, pivot, g + 1) then Done(Found(g + 1))
        else Next(g + 1)
  {
    FindByteIs(buf, left, |buf|, GT);
  }

  /** Where an ordinary tag may end: one past a '>' with an even number of '"'
      since the '<'. */
  predicate TagEnd(buf: seq<byte>, pivot: nat, r: nat)
    requires pivot < r
  {
    pivot + 2 <= r <= |buf| && buf[r - 1] == GT && !Odd(buf, pivot + 1, r, QUOTE)
  }

  /** An ordinary tag ends at the first '>' outside double quotes, counting
      quotes from the byte after the '<'. */
  lemma {:induction false} ScanTag(buf: seq<byte>, pivot: nat, left: nat)
    requires pivot < left <= |buf| && pivot + 1 < |buf|
    requires buf[pivot + 1] != QUESTION && buf[pivot + 1] != BANG
    requires !Odd(buf, pivot + 1, left, QUOTE)
    ensures FirstEnd(buf, pivot, left, Tag, Scan(buf, pivot, left))
    decreases |buf| - left, 1
  {
    var g := FindByte(buf, left, |buf|, GT);
    if g == -1 || !Odd(buf, left, g + 1, QUOTE) {
      TagStop(buf, pivot, left);
    } else {
      TagQuoted(buf, pivot, left);
    }
  }

  /** The turn of ScanTag that ends the scan. */
  lemma TagStop(buf: seq<byte>, pivot: nat, left: nat)
    requires pivot < left <= |buf| && pivot + 1 < |buf|
    requires buf[pivot + 1] != QUESTION && buf[pivot + 1] != BANG
    requires !Odd(buf, pivot + 1, left, QUOTE)
    requires var g := FindByte(buf, left, |buf|, GT); g == -1 || !Odd(buf, left, g + 1, QUOTE)
    ensures FirstEnd(buf, pivot, left, Tag, Scan(buf, pivot, left))
  {
    var g := FindByte(buf, left, |buf|, GT);
    StepTag(buf, pivot, left);
    NoGTBefore(buf, left);
    if g != -1 {
      OddSplit(buf, pivot + 1, left, g + 1, QUOTE);
    }
    ScanDone(buf, pivot, left, Step(buf, pivot, left).result);
  }

  /** The turn of ScanTag at a '>' inside quotes. */
  lemma {:induction false} TagQuoted(buf: seq<byte>, pivot: nat, left: nat)
    requires pivot < left <= |buf| && pivot + 1 < |buf|
    requires buf[pivot + 1] != QUESTION && buf[pivot + 1] != BANG
    requires !Odd(buf, pivot + 1, left, QUOTE)
    requires var g := FindByte(buf, left, |buf|, GT); g != -1 && Odd(buf, left, g + 1, QUOTE)
    ensures FirstEnd(buf, pivot, left, Tag, Scan(buf, pivot, left))
    decreases |buf| - left, 0
  {
    var g := FindByte(buf, left, |buf|, GT);
    StepTag(buf, pivot, left);
    NoGTBefore(buf, left);
    OddSplit(buf, pivot + 1, left, g + 1, QUOTE);
    TagSkip(buf, pivot, g);
    var turn := Step(buf, pivot, left);
    if turn.Done? {
      ScanDone(buf, pivot, left, turn.result);
    } else {
      ScanNext(buf, pivot, left, turn.left);
      ScanTag(buf, pivot, turn.left);
    }
  }

  /** A turn of an ordinary tag. */
  lemma StepTag(buf: seq<byte>, pivot: nat, left: nat)
    requires pivot < left <= |buf| && pivot + 1 < |buf|
    requires buf[pivot + 1] != QUESTION && buf[pivot + 1] != BANG
    ensures var g := FindByte(buf, left, |buf|, GT);
      Step(buf, pivot, left) == if g == -1 then Done(More)
        else if !Odd(buf, left, g + 1, QUOTE) then Done(Found(g + 1))
        else if FindByte(buf, g + 1, |buf|, QUOTE) == -1 then Done(More)
        else Next(FindByte(buf, g + 1, |buf|, QUOTE) + 1)
  {
  }

  /** The '>' at g is inside quotes, and so is every '>' before the next '"'. */
  lemma TagSkip(buf: seq<byte>, pivot: nat, g: nat)
    requires pivot < g < |buf| && buf[g] == GT
    requires Odd(buf, pivot + 1, g + 1, QUOTE)
    ensures var w := FindByte(buf, g + 1, |buf|, QUOTE);
      && (forall k :: g + 1 <= k <= (if w == -1 then |buf| else w) ==> !TagEnd(buf, pivot, k))
      && (w != -1 ==> !TagEnd(buf, pivot, w + 1) && !Odd(buf, pivot + 1, w + 1, QUOTE))
  {
    var w := FindByte(buf, g + 1, |buf|, QUOTE);
    FindByteIs(buf, g + 1, |buf|, QUOTE);
    var hi := if w == -1 then |buf| else w;
    forall k | g + 1 <= k <= hi
      ensures !TagEnd(buf, pivot, k)
    {
      OddSplit(buf, pivot + 1, g + 1, k, QUOTE);
      OddNone(buf, g + 1, k, QUOTE);
    }
    if w != -1 {
      OddSplit(buf, pivot + 1, g + 1, w, QUOTE);
      OddNone(buf, g + 1, w, QUOTE);
      OddSplit(buf, pivot + 1, w, w + 1, QUOTE);
    }
  }

  /** Whatever the kind of construct, an end that the scan finds is one past
      a '>' and at least two bytes after the '<'. */
  lemma {:induction false} ScanEnds(buf: seq<byte>, pivot: nat, left: nat)
    requires pivot < left <= |buf|
    ensures var s := Scan(buf, pivot, left);
      s.Found? ==> pivot + 2 <= s.end && buf[s.end - 1] == GT
    decreases |buf| - pivot, |buf| - left
  {
    var turn := Step(buf, pivot, left);
    match turn {
      case Done(r) =>
        ScanDone(buf, pivot, left, r);
        StepFound(buf, pivot, left);
      case Next(l) =>
        ScanNext(buf, pivot, left, l);
        ScanEnds(buf, pivot, l);
      case Nest(q) =>
        ScanNest(buf, pivot, left, q);
        var nested := Scan(buf, q, q + 1);
        if nested.Found? {
          ScanEnds(buf, pivot, nested.end);
        }
    }
  }

  /** A turn that ends the construct ends it one past the '>' it found. */
  lemma StepFound(buf: seq<byte>, pivot: nat, left: nat)
    requires pivot < left <= |buf|
    ensures var t := Step(buf, pivot, left);
      t.Done? && t.result.Found? ==> buf[t.result.end - 1] == GT
  {
    FindByteIs(buf, left, |buf|, GT);
  }

  /** What one turn of `findTokenEnd` looks at in the buffer: the next '>'
      (g, or -1), the kind byte after the '<', whether the construct is a
      comment, the two bytes before the '>', the first '<' strictly between
      the search start and the '>', the parity of the quotes up to the '>',
      and the next '"' after it. Fields that the turn does not read (because
      there is no '>') hold 0, false or -1. */
  datatype View = View(g: int, kind: byte, comment: bool, b2: byte, b3: byte, lt: int, odd: bool, w: int)

  function Observe(buf: seq<byte>, pivot: nat, left: nat): (v: View)
    requires pivot < left <= |buf|
    ensures v.g == -1 || left <= v.g < |buf|
  {
    var g := FindByte(buf, left, |buf|, GT);
    if g == -1 then View(-1, 0, false, 0, 0, -1, false, -1) else Look(buf, pivot, left, g)
  }

  /** What a turn looks at once it has found the '>' at g. */
  function Look(buf: seq<byte>, pivot: nat, left: nat, g: nat): (v: View)
    requires pivot < left <= g < |buf|
    ensures v.g == g
  {
    View(g, buf[pivot + 1], buf[pivot + 1] == BANG && IsComment(buf, pivot),
      buf[g - 1], if g >= pivot + 2 then buf[g - 2] else 0,
      if g >= left + 1 then FindByte(buf, left + 1, g, LT) else -1,
      Odd(buf, left, g + 1, QUOTE), FindByte(buf, g + 1, |buf|, QUOTE))
  }

  /** The turn as a function of what it looked at. */
  function Decide(v: View, pivot: nat, left: nat): Turn
    requires pivot < left
  {
    if v.g < left then Done(More)
    else
      var right := v.g + 1;
      if v.kind == QUESTION then
        if right >= pivot + 3 && v.b2 == QUESTION then Done(Found(right)) else Next(right)
      else if v.comment then
        if right >= pivot + 6 && v.b3 == DASH && v.b2 == DASH then Done(Found(right)) else Next(right)
      else if v.kind == BANG && right < left + 2 then Done(Panic)
      else if v.kind == BANG && v.lt >= 0 then Nest(v.lt)
      else if !v.odd then Done(Found(right))
      else if v.w < 0 then Done(More)
      else Next(v.w + 1)
  }

  /** One turn is its decision on what it looked at. */
  lemma StepDecides(buf: seq<byte>, pivot: nat, left: nat)
    requires pivot < left <= |buf|
    ensures Step(buf, pivot, left) == Decide(Observe(buf, pivot, left), pivot, left)
  {
  }

  /** Once a turn has seen a '>', bytes that arrive later change at most
      where it finds the next '"', and only when it found none. */
  lemma ObserveExtend(buf: seq<byte>, ext: seq<byte>, pivot: nat, left: nat)
    requires pivot < left <= |buf| <= |ext|
    requires forall k :: 0 <= k < |buf| ==> ext[k] == buf[k]
    requires Observe(buf, pivot, left).g != -1
    ensures var v := Observe(buf, pivot, left);
      Observe(ext, pivot, left) == v.(w := Observe(ext, pivot, left).w)
      && (v.w != -1 ==> Observe(ext, pivot, left).w == v.w)
  {
    var g := FindByte(buf, left, |buf|, GT);
    FindByteIs(buf, left, |buf|, GT);
    FindByteExtend(buf, ext, left, GT);
    CommentExtend(buf, ext, pivot, g);
    if g >= left + 1 {
      FindByteAgree(buf, ext, left + 1, g, LT);
    }
    OddAgree(buf, ext, left, g + 1, QUOTE);
    if FindByte(buf, g + 1, |buf|, QUOTE) != -1 {
      FindByteExtend(buf, ext, g + 1, QUOTE);
    }
  }

  /** A '>' in buf lies past the "!--" of a comment, so the length test of
      IsComment has the same outcome on any extension of buf. */
  lemma CommentExtend(buf: seq<byte>, ext: seq<byte>, pivot: nat, g: nat)
    requires pivot < g < |buf| <= |ext| && buf[g] == GT
    requires forall k :: 0 <= k < |buf| ==> ext[k] == buf[k]
    ensures buf[pivot + 1] == BANG ==> IsComment(buf, pivot) == IsComment(ext, pivot)
  {
  }

  /** Bytes that arrive later do not change a turn that did not ask for
      them. */
  lemma StepExtend(buf: seq<byte>, ext: seq<byte>, pivot: nat, left: nat)
    requires pivot < left <= |buf| <= |ext|
    requires forall k :: 0 <= k < |buf| ==> ext[k] == buf[k]
    requires Step(buf, pivot, left) != Done(More)
    ensures Step(ext, pivot, left) == Step(buf, pivot, left)
  {
    StepDecides(buf, pivot, left);
    StepDecides(ext, pivot, left);
    ObserveExtend(buf, ext, pivot, left);
  }

  /** A scan that did not ask for more bytes gives the same result on any
      extension of the buffer: reading further never changes an end that
      was already found (nor a panic already reached). */
  lemma {:induction false} ScanExtend(buf: seq<byte>, ext: seq<byte>, pivot: nat, left: nat)
    requires pivot < left <= |buf| <= |ext|
    requires forall k :: 0 <= k < |buf| ==> ext[k] == buf[k]
    requires Scan(buf, pivot, left) != More
    ensures Scan(ext, pivot, left) == Scan(buf, pivot, left)
    decreases |buf| - pivot, |buf| - left
  {
    var turn := Step(buf, pivot, left);
    match turn {
      case Done(r) =>
        ScanDone(buf, pivot, left, r);
        StepExtend(buf, ext, pivot, left);
        ScanDone(ext, pivot, left, r);
      case Next(l) =>
        ScanNext(buf, pivot, left, l);
        StepExtend(buf, ext, pivot, left);
        ScanNext(ext, pivot, left, l);
        ScanExtend(buf, ext, pivot, l);
      case Nest(q) =>
        ScanNest(buf, pivot, left, q);
        StepExtend(buf, ext, pivot, left);
        ScanNest(ext, pivot, left, q);
        ScanExtend(buf, ext, q, q + 1);
        var nested := Scan(buf, q, q + 1);
        if nested.Found? {
          ScanExtend(buf, ext, pivot, nested.end);
        }
    }
  }

  /** A result seen from a buffer that has d more bytes in front. */
  function Shifted(s: ScanResult, d: nat): (t: ScanResult)
    ensures t.Found? <==> s.Found?
    ensures t.Found? ==> t.end == d + s.end
    ensures !t.Found? ==> t == s
  {
    if s.Found? then Found(d + s.end) else s
  }

  /** Bytes in front of the construct do not change where it ends: ext holds
      buf from index d on. This is what lets the tokenizer move the construct
      to the front of its buffer (`memmoveRemainingBytes`) between two
      scans. */
  lemma {:induction false} ScanShift(buf: seq<byte>, ext: seq<byte>, d: nat, pivot: nat, left: nat)
    requires pivot < left <= |buf| && |ext| == d + |buf|
    requires forall k :: 0 <= k < |buf| ==> ext[d + k] == buf[k]
    ensures Scan(ext, d + pivot, d + left) == Shifted(Scan(buf, pivot, left), d)
    decreases |buf| - pivot, |buf| - left, 2
  {
    match Step(buf, pivot, left) {
      case Done(r) =>
        StepShift(buf, ext, d, pivot, left);
        ScanDone(buf, pivot, left, r);
        ScanDone(ext, d + pivot, d + left, Shifted(r, d));
      case Next(l) =>
        ShiftNext(buf, ext, d, pivot, left, l);
      case Nest(q) =>
        ShiftNest(buf, ext, d, pivot, left, q);
    }
  }

  /** The step of ScanShift for a turn that resumes the search. */
  lemma {:induction false} ShiftNext(buf: seq<byte>, ext: seq<byte>, d: nat, pivot: nat, left: nat, l: nat)
    requires pivot < left <= |buf| && |ext| == d + |buf|
    requires forall k :: 0 <= k < |buf| ==> ext[d + k] == buf[k]
    requires Step(buf, pivot, left) == Next(l)
    ensures Scan(ext, d + pivot, d + left) == Shifted(Scan(buf, pivot, left), d)
    decreases |buf| - pivot, |buf| - left, 0
  {
    StepShift(buf, ext, d, pivot, left);
    ScanShift(buf, ext, d, pivot, l);
    ScanNext(buf, pivot, left, l);
    ScanNext(ext, d + pivot, d + left, d + l);
  }

  /** The step of ScanShift for a turn that scans a nested construct. */
  lemma {:induction false} ShiftNest(buf: seq<byte>, ext: seq<byte>, d: nat, pivot: nat, left: nat, q: nat)
    requires pivot < left <= |buf| && |ext| == d + |buf|
    requires forall k :: 0 <= k < |buf| ==> ext[d + k] == buf[k]
    requires Step(buf, pivot, left) == Nest(q)
    ensures Scan(ext, d + pivot, d + left) == Shifted(Scan(buf, pivot, left), d)
    decreases |buf| - pivot, |buf| - left, 1
  {
    StepShift(buf, ext, d, pivot, left);
    ShiftFirst(buf, ext, d, q);
    if Scan(buf, q, q + 1).Found? {
      ShiftPastNested(buf, ext, d, pivot, left, q);
    } else {
      ScanNest(buf, pivot, left, q);
      ScanNest(ext, d + pivot, d + left, d + q);
    }
  }

  /** ShiftNest once the nested construct has been scanned through. */
  lemma {:induction false} ShiftPastNested(buf: seq<byte>, ext: seq<byte>, d: nat, pivot: nat, left: nat, q: nat)
    requires pivot < left <= |buf| && |ext| == d + |buf|
    requires forall k :: 0 <= k < |buf| ==> ext[d + k] == buf[k]
    requires Step(buf, pivot, left) == Nest(q) && Step(ext, d + pivot, d + left) == Nest(d + q)
    requires Scan(buf, q, q + 1).Found?
    requires Scan(ext, d + q, d + q + 1) == Found(d + Scan(buf, q, q + 1).end)
    ensures Scan(ext, d + pivot, d + left) == Shifted(Scan(buf, pivot, left), d)
    decreases |buf| - pivot, |buf| - left, 0
  {
    var e := Scan(buf, q, q + 1).end;
    assert left < q < e <= |buf|;
    ScanNestFound(buf, pivot, left, q, e);
    ScanNestFound(ext, d + pivot, d + left, d + q, d + e);
    ScanShift(buf, ext, d, pivot, e);
  }

  /** ScanNest for a nested construct that ends at e. */
  lemma {:induction false} ScanNestFound(buf: seq<byte>, pivot: nat, left: nat, q: nat, e: nat)
    requires pivot < left <= |buf| && Step(buf, pivot, left) == Nest(q)
    requires Scan(buf, q, q + 1) == Found(e)
    ensures Scan(buf, pivot, left) == Scan(buf, pivot, e)
  {
    ScanNest(buf, pivot, left, q);
  }

  /** ScanShift for the first turn of a construct, with the indices written
      as ScanNest writes them. */
  lemma {:induction false} ShiftFirst(buf: seq<byte>, ext: seq<byte>, d: nat, q: nat)
    requires q < |buf| && |ext| == d + |buf|
    requires forall k :: 0 <= k < |buf| ==> ext[d + k] == buf[k]
    ensures Scan(ext, d + q, d + q + 1) == Shifted(Scan(buf, q, q + 1), d)
    decreases |buf| - q, |buf| - q - 1, 3
  {
    ScanShift(buf, ext, d, q, q + 1);
  }

  /** A turn seen from a buffer that has d more bytes in front. */
  function ShiftedTurn(t: Turn, d: nat): Turn {
    match t
    case Done(r) => Done(Shifted(r, d))
    case Next(l) => Next(l + d)
    case Nest(q) => Nest(q + d)
  }

  /** What a turn looks at, seen from a buffer with d more bytes in front. */
  function ShiftedView(v: View, d: nat): View {
    v.(g := if v.g == -1 then -1 else v.g + d,
       lt := if v.lt == -1 then -1 else v.lt + d,
       w := if v.w == -1 then -1 else v.w + d)
  }

  lemma ObserveShift(buf: seq<byte>, ext: seq<byte>, d: nat, pivot: nat, left: nat)
    requires pivot < left <= |buf| && |ext| == d + |buf|
    requires forall k :: 0 <= k < |buf| ==> ext[d + k] == buf[k]
    ensures Observe(ext, d + pivot, d + left) == ShiftedView(Observe(buf, pivot, left), d)
  {
    var g := FindByte(buf, left, |buf|, GT);
    FindByteShift(buf, ext, d, left, |buf|, GT);
    if g != -1 {
      LookShift(buf, ext, d, pivot, left, g);
    }
  }

  lemma LookShift(buf: seq<byte>, ext: seq<byte>, d: nat, pivot: nat, left: nat, g: nat)
    requires pivot < left <= g < |buf| && |ext| == d + |buf|
    requires forall k :: 0 <= k < |buf| ==> ext[d + k] == buf[k]
    ensures Look(ext, d + pivot, d + left, d + g) == ShiftedView(Look(buf, pivot, left, g), d)
  {
    LookShiftBytes(buf, ext, d, pivot, left, g);
    LookShiftSearches(buf, ext, d, pivot, left, g);
  }

  /** The bytes a turn reads, shifted. */
  lemma LookShiftBytes(buf: seq<byte>, ext: seq<byte>, d: nat, pivot: nat, left: nat, g: nat)
    requires pivot < left <= g < |buf| && |ext| == d + |buf|
    requires forall k :: 0 <= k < |buf| ==> ext[d + k] == buf[k]
    ensures var v := Look(buf, pivot, left, g); var u := Look(ext, d + pivot, d + left, d + g);
      u.kind == v.kind && u.b2 == v.b2 && u.b3 == v.b3 && u.comment == v.comment
  {
    assert ext[d + (pivot + 1)] == buf[pivot + 1];
    assert ext[d + (g - 1)] == buf[g - 1];
    if g >= pivot + 2 {
      assert ext[d + (g - 2)] == buf[g - 2];
    }
    if pivot + 4 < |buf| {
      assert ext[d + (pivot + 2)] == buf[pivot + 2];
      assert ext[d + (pivot + 3)] == buf[pivot + 3];
    }
  }

  /** The searches a turn makes, shifted. */
  lemma LookShiftSearches(buf: seq<byte>, ext: seq<byte>, d: nat, pivot: nat, left: nat, g: nat)
    requires pivot < left <= g < |buf| && |ext| == d + |buf|
    requires forall k :: 0 <= k < |buf| ==> ext[d + k] == buf[k]
    ensures var v := Look(buf, pivot, left, g); var u := Look(ext, d + pivot, d + left, d + g);
      && u.lt == (if v.lt == -1 then -1 else v.lt + d)
      && u.odd == v.odd
      && u.w == (if v.w == -1 then -1 else v.w + d)
  {
    if g >= left + 1 {
      FindByteShift(buf, ext, d, left + 1, g, LT);
    }
    OddShift(buf, ext, d, left, g + 1, QUOTE);
    FindByteShift(buf, ext, d, g + 1, |buf|, QUOTE);
  }

  lemma DecideShift(v: View, d: nat, pivot: nat, left: nat)
    requires pivot < left
    requires v.g == -1 || left <= v.g
    requires v.lt == -1 || 0 <= v.lt
    requires v.w == -1 || 0 <= v.w
    ensures Decide(ShiftedView(v, d), d + pivot, d + left) == ShiftedTurn(Decide(v, pivot, left), d)
  {
  }

  lemma StepShift(buf: seq<byte>, ext: seq<byte>, d: nat, pivot: nat, left: nat)
    requires pivot < left <= |buf| && |ext| == d + |buf|
    requires forall k :: 0 <= k < |buf| ==> ext[d + k] == buf[k]
    ensures Step(ext, d + pivot, d + left) == ShiftedTurn(Step(buf, pivot, left), d)
  {
    StepDecides(buf, pivot, left);
    StepDecides(ext, d + pivot, d + left);
    ObserveShift(buf, ext, d, pivot, left);
    ObserveBounds(buf, pivot, left);
    DecideShift(Observe(buf, pivot, left), d, pivot, left);
  }

  /** The indices a turn looks at are -1 or in the buffer. */
  lemma ObserveBounds(buf: seq<byte>, pivot: nat, left: nat)
    requires pivot < left <= |buf|
    ensures var v := Observe(buf, pivot, left);
      (v.lt == -1 || 0 <= v.lt) && (v.w == -1 || 0 <= v.w)
  {
  }

  /** Where the character data after a tag stops, as `parseCharData` decides
      it on the buffered bytes. Stop(end): the tag's span ends before `end`
      is reached (end is one past the last byte that belongs to it). Text:
      there is no '<' after the tag yet. Open(lt): the '<' at lt may open a
      CDATA section, and the buffer ends before that is settled. */
  datatype DataEnd = Stop(end: nat) | Text | Open(lt: nat)

  /** The first j in [from, min(i + 9, |buf|)) where buf[i..] departs from
      `<![CDATA[`, or -1. */
  function Mismatch(buf: seq<byte>, i: nat, from: nat): (j: int)
    requires i < from <= |buf|
    ensures j == -1 || (from <= j < |buf| && j < i + |CDataOpen|)
    decreases |buf| - from
  {
    if from == |buf| || from >= i + |CDataOpen| then -1
    else if buf[from] != CDataOpen[from - i] then from
    else Mismatch(buf, i, from + 1)
  }

  /** One past `]]>`: the first j >= from with buf[j-2..j+1] == "]]>", or -1. */
  function CloseAt(buf: seq<byte>, from: nat): (j: int)
    requires 2 <= from <= |buf|
    ensures j == -1 || from <= j < |buf|
    decreases |buf| - from
  {
    if from == |buf| then -1
    else if buf[from] == GT && buf[from - 1] == RBRACKET && buf[from - 2] == RBRACKET then from
    else CloseAt(buf, from + 1)
  }

  /** The end rule of `parseCharData` for the character data that starts at
      `from`. Text runs up to the next '<'. If that '<' opens `<![CDATA[`,
      the section is taken in whole, up to and including its first `]]>`. */
  function DataScan(buf: seq<byte>, from: nat): (d: DataEnd)
    requires from <= |buf|
    ensures d.Stop? ==> from <= d.end <= |buf|
    ensures d.Open? ==> from <= d.lt < |buf|
  {
    var i := FindByte(buf, from, |buf|, LT);
    if i == -1 then Text
    else if Mismatch(buf, i, i + 1) != -1 then Stop(i)
    else if i + |CDataOpen| > |buf| then Open(i)
    else
      var j := CloseAt(buf, i + |CDataOpen|);
      if j == -1 then Open(i) else Stop(j + 1)
  }

  /** buf[j] closes a CDATA section: it is the '>' of `]]>`. */
  predicate ClosesCData(buf: seq<byte>, j: nat)
    requires 2 <= j < |buf|
  {
    buf[j] == GT && buf[j - 1] == RBRACKET && buf[j - 2] == RBRACKET
  }

  /** buf[i..] agrees with `<![CDATA[` from index `from` on, as far as both go. */
  predicate AgreesWithOpen(buf: seq<byte>, i: nat, from: nat, to: nat)
    requires i < from <= to <= |buf| && to <= i + |CDataOpen|
  {
    forall j :: from <= j < to ==> buf[j] == CDataOpen[j - i]
  }

  lemma {:induction false} MismatchIs(buf: seq<byte>, i: nat, from: nat)
    requires i < from <= |buf|
    ensures var j := Mismatch(buf, i, from); var to := if |buf| < i + |CDataOpen| then |buf| else i + |CDataOpen|;
      && (j != -1 ==> buf[j] != CDataOpen[j - i] && (from <= j ==> AgreesWithOpen(buf, i, from, j)))
      && (j == -1 && from <= to ==> AgreesWithOpen(buf, i, from, to))
    decreases |buf| - from
  {
    if from < |buf| && from < i + |CDataOpen| && buf[from] == CDataOpen[from - i] {
      MismatchIs(buf, i, from + 1);
    }
  }

  lemma {:induction false} CloseAtIs(buf: seq<byte>, from: nat)
    requires 2 <= from <= |buf|
    ensures var j := CloseAt(buf, from);
      && (j != -1 ==> ClosesCData(buf, j))
      && forall k :: from <= k < (if j == -1 then |buf| else j) ==> !ClosesCData(buf, k)
    decreases |buf| - from
  {
    if from < |buf| && !ClosesCData(buf, from) {
      CloseAtIs(buf, from + 1);
    }
  }

  /** What DataScan's answers mean. Text: no '<' follows. Stop(i) for the
      first '<' at i: buf[i..] is not `<![CDATA[` (it departs from it
      within the buffer), and the span ends right before the '<'.
      Stop(j + 1) otherwise: `<![CDATA[` opens at the first '<' and j is the
      '>' of the first `]]>` after it. Open(i): the first '<' is at i and
      the buffer ends while it still may open, or has opened, a CDATA
      section that is not closed. */
  lemma DataScanIs(buf: seq<byte>, from: nat)
    requires from <= |buf|
    ensures var i := FindByte(buf, from, |buf|, LT);
      && (i != -1 ==> buf[i] == LT)
      && (forall k :: from <= k < (if i == -1 then |buf| else i) ==> buf[k] != LT)
      && match DataScan(buf, from)
        case Text => i == -1
        case Stop(e) =>
          i != -1 &&
          ((e == i && exists j :: i < j < |buf| && j < i + |CDataOpen| && buf[j] != CDataOpen[j - i])
           || (i + |CDataOpen| < e && OpensCData(buf, i) && ClosesCData(buf, e - 1)
               && forall k :: i + |CDataOpen| <= k < e - 1 ==> !ClosesCData(buf, k)))
        case Open(l) =>
          l == i &&
          ((l + |CDataOpen| > |buf| && AgreesWithOpen(buf, l, l + 1, |buf|))
           || (OpensCData(buf, l) && forall k :: l + |CDataOpen| <= k < |buf| ==> !ClosesCData(buf, k)))
  {
    var i := FindByte(buf, from, |buf|, LT);
    FindByteIs(buf, from, |buf|, LT);
    if i == -1 {
      assert DataScan(buf, from) == Text;
    } else {
      MismatchIs(buf, i, i + 1);
      if Mismatch(buf, i, i + 1) != -1 {
        assert DataScan(buf, from) == Stop(i);
      } else if i + |CDataOpen| > |buf| {
        assert DataScan(buf, from) == Open(i);
      } else {
        CloseAtIs(buf, i + |CDataOpen|);
        OpensFromAgree(buf, i);
        var j := CloseAt(buf, i + |CDataOpen|);
        assert DataScan(buf, from) == if j == -1 then Open(i) else Stop(j + 1);
      }
    }
  }

  /** `<![CDATA[` starts at i. */
  predicate OpensCData(buf: seq<byte>, i: nat) {
    i + |CDataOpen| <= |buf| && buf[i..i + |CDataOpen|] == CDataOpen
  }

  lemma OpensFromAgree(buf: seq<byte>, i: nat)
    requires i < |buf| && buf[i] == LT && i + |CDataOpen| <= |buf|
    requires AgreesWithOpen(buf, i, i + 1, i + |CDataOpen|)
    ensures OpensCData(buf, i)
  {
    assert forall j :: 0 <= j < |CDataOpen| ==> buf[i..i + |CDataOpen|][j] == CDataOpen[j] by {
      forall j | 0 <= j < |CDataOpen| ensures buf[i..i + |CDataOpen|][j] == CDataOpen[j] {
        if j > 0 { assert buf[i + j] == CDataOpen[i + j - i]; }
      }
    }
  }

  /** An end of character data that DataScan found does not move when more
      bytes arrive. */
  lemma DataScanExtend(buf: seq<byte>, ext: seq<byte>, from: nat)
    requires from <= |buf| <= |ext|
    requires forall k :: 0 <= k < |buf| ==> ext[k] == buf[k]
    requires DataScan(buf, from).Stop?
    ensures DataScan(ext, from) == DataScan(buf, from)
  {
    var i := FindByte(buf, from, |buf|, LT);
    FindByteExtend(buf, ext, from, LT);
    MismatchExtend(buf, ext, i, i + 1);
    if Mismatch(buf, i, i + 1) == -1 {
      CloseAtExtend(buf, ext, i + |CDataOpen|);
    }
  }

  lemma {:induction false} MismatchExtend(buf: seq<byte>, ext: seq<byte>, i: nat, from: nat)
    requires i < from <= |buf| <= |ext|
    requires forall k :: 0 <= k < |buf| ==> ext[k] == buf[k]
    requires Mismatch(buf, i, from) != -1 || i + |CDataOpen| <= |buf|
    ensures Mismatch(ext, i, from) == Mismatch(buf, i, from)
    decreases |buf| - from
  {
    if from < |buf| && from < i + |CDataOpen| && buf[from] == CDataOpen[from - i] {
      MismatchExtend(buf, ext, i, from + 1);
    }
  }

  lemma {:induction false} CloseAtExtend(buf: seq<byte>, ext: seq<byte>, from: nat)
    requires 2 <= from <= |buf| <= |ext|
    requires forall k :: 0 <= k < |buf| ==> ext[k] == buf[k]
    requires CloseAt(buf, from) != -1
    ensures CloseAt(ext, from) == CloseAt(buf, from)
    decreases |buf| - from
  {
    if !(buf[from] == GT && buf[from - 1] == RBRACKET && buf[from - 2] == RBRACKET) {
      CloseAtExtend(buf, ext, from + 1);
    }
  }

  /** A DataScan result seen from a buffer that has d more bytes in front. */
  function ShiftedData(r: DataEnd, d: nat): DataEnd {
    match r
    case Stop(e) => Stop(d + e)
    case Text => Text
    case Open(l) => Open(d + l)
  }

  /** Bytes in front of the character data do not change where it ends. */
  lemma DataScanShift(buf: seq<byte>, ext: seq<byte>, d: nat, from: nat)
    requires from <= |buf| && |ext| == d + |buf|
    requires forall k :: 0 <= k < |buf| ==> ext[d + k] == buf[k]
    ensures DataScan(ext, d + from) == ShiftedData(DataScan(buf, from), d)
  {
    FindByteShift(buf, ext, d, from, |buf|, LT);
    var i := FindByte(buf, from, |buf|, LT);
    if i != -1 {
      assert FindByte(ext, d + from, |ext|, LT) == d + i;
      DataScanShiftAt(buf, ext, d, from, i, d + from, d + i);
    }
  }

  /** DataScanShift once the first '<' is found, at i in buf and at i2 in
      ext. */
  lemma DataScanShiftAt(buf: seq<byte>, ext: seq<byte>, d: nat, from: nat, i: nat, from2: nat, i2: nat)
    requires from <= i < |buf| && |ext| == d + |buf| && from2 == d + from && i2 == d + i
    requires forall k :: 0 <= k < |buf| ==> ext[d + k] == buf[k]
    requires FindByte(buf, from, |buf|, LT) == i && FindByte(ext, from2, |ext|, LT) == i2
    ensures DataScan(ext, from2) == ShiftedData(DataScan(buf, from), d)
  {
    MismatchShift(buf, ext, d, i, i + 1, i2, i2 + 1);
    if Mismatch(buf, i, i + 1) == -1 && i + |CDataOpen| <= |buf| {
      DataScanShiftClose(buf, ext, d, from, i, from2, i2);
    }
  }

  /** DataScanShiftAt when `<![CDATA[` opens at the '<'. */
  lemma DataScanShiftClose(buf: seq<byte>, ext: seq<byte>, d: nat, from: nat, i: nat, from2: nat, i2: nat)
    requires from <= i && i + |CDataOpen| <= |buf| && |ext| == d + |buf| && from2 == d + from && i2 == d + i
    requires forall k :: 0 <= k < |buf| ==> ext[d + k] == buf[k]
    requires FindByte(buf, from, |buf|, LT) == i && FindByte(ext, from2, |ext|, LT) == i2
    requires Mismatch(buf, i, i + 1) == -1 && Mismatch(ext, i2, i2 + 1) == -1
    ensures DataScan(ext, from2) == ShiftedData(DataScan(buf, from), d)
  {
    CloseAtShift(buf, ext, d, i + |CDataOpen|, i2 + |CDataOpen|);
  }

  lemma {:induction false} MismatchShift(buf: seq<byte>, ext: seq<byte>, d: nat, i: nat, from: nat, i2: nat, from2: nat)
    requires i < from <= |buf| && |ext| == d + |buf| && i2 == d + i && from2 == d + from
    requires forall k :: 0 <= k < |buf| ==> ext[d + k] == buf[k]
    ensures var j := Mismatch(buf, i, from);
      Mismatch(ext, i2, from2) == if j == -1 then -1 else d + j
    decreases |buf| - from
  {
    if from < |buf| && from < i + |CDataOpen| {
      assert ext[from2] == buf[from];
      if buf[from] == CDataOpen[from - i] {
        MismatchShift(buf, ext, d, i, from + 1, i2, from2 + 1);
      }
    }
  }

  lemma {:induction false} CloseAtShift(buf: seq<byte>, ext: seq<byte>, d: nat, from: nat, from2: nat)
    requires 2 <= from <= |buf| && |ext| == d + |buf| && from2 == d + from
    requires forall k :: 0 <= k < |buf| ==> ext[d + k] == buf[k]
    ensures var j := CloseAt(buf, from);
      CloseAt(ext, from2) == if j == -1 then -1 else d + j
    decreases |buf| - from
  {
    if from < |buf| {
      assert ext[from2] == buf[from] && ext[from2 - 1] == buf[from - 1] && ext[from2 - 2] == buf[from - 2];
      if !(buf[from] == GT && buf[from - 1] == RBRACKET && buf[from - 2] == RBRACKET) {
        CloseAtShift(buf, ext, d, from + 1, from2 + 1);
      }
    }
  }

  lemma {:induction false} MismatchAt(buf: seq<byte>, i: nat, from: nat, j: nat)
    requires i < from <= j < |buf| && j < i + |CDataOpen|
    requires forall k :: from <= k < j ==> buf[k] == CDataOpen[k - i]
    requires buf[j] != CDataOpen[j - i]
    ensures Mismatch(buf, i, from) == j
    decreases j - from
  {
    if from < j {
      MismatchAt(buf, i, from + 1, j);
    }
  }

  lemma {:induction false} MismatchNone(buf: seq<byte>, i: nat, from: nat)
    requires i < from <= |buf|
    requires forall k :: from <= k < |buf| && k < i + |CDataOpen| ==> buf[k] == CDataOpen[k - i]
    ensures Mismatch(buf, i, from) == -1
    decreases |buf| - from
  {
    if from < |buf| && from < i + |CDataOpen| {
      MismatchNone(buf, i, from + 1);
    }
  }

  lemma {:induction false} CloseAtFirst(buf: seq<byte>, from: nat, j: nat)
    requires 2 <= from <= j < |buf| && ClosesCData(buf, j)
    requires forall k :: from <= k < j ==> !ClosesCData(buf, k)
    ensures CloseAt(buf, from) == j
    decreases j - from
  {
    if from < j {
      assert !ClosesCData(buf, from);
      CloseAtFirst(buf, from + 1, j);
    }
  }

  lemma {:induction false} CloseAtNone(buf: seq<byte>, from: nat)
    requires 2 <= from <= |buf|
    requires forall k :: from <= k < |buf| ==> !ClosesCData(buf, k)
    ensures CloseAt(buf, from) == -1
    decreases |buf| - from
  {
    if from < |buf| {
      assert !ClosesCData(buf, from);
      CloseAtNone(buf, from + 1);
    }
  }

  /** The cases of DataScan in the order `parseCharData` meets them. No '<'
      in the rest of the buffer: the text runs on. */
  lemma DataText(buf: seq<byte>, from: nat)
    requires from <= |buf|
    requires forall k :: from <= k < |buf| ==> buf[k] != LT
    ensures DataScan(buf, from) == Text
  {
    FindByteNone(buf, from, |buf|, LT);
  }

  /** The first '<' departs from `<![CDATA[` at its k-th byte: the text
      stops before it. Here and below a match of the first bytes is stated
      by their offsets from the '<'. */
  lemma DataStopAtLT(buf: seq<byte>, from: nat, i: nat, k: nat)
    requires from <= i && 0 < k < |CDataOpen| && i + k < |buf| && buf[i] == LT
    requires forall m :: from <= m < i ==> buf[m] != LT
    requires forall m :: 0 < m < k ==> buf[i + m] == CDataOpen[m]
    requires buf[i + k] != CDataOpen[k]
    ensures DataScan(buf, from) == Stop(i)
  {
    FindByteFirst(buf, from, |buf|, LT, i);
    forall m | i + 1 <= m < i + k
      ensures buf[m] == CDataOpen[m - i]
    {
      assert buf[i + (m - i)] == CDataOpen[m - i];
    }
    MismatchAt(buf, i, i + 1, i + k);
  }

  /** The buffer ends inside what may still become `<![CDATA[`. */
  lemma DataOpenEarly(buf: seq<byte>, from: nat, i: nat)
    requires from <= i < |buf| < i + |CDataOpen| && buf[i] == LT
    requires forall m :: from <= m < i ==> buf[m] != LT
    requires forall m :: 0 < m < |buf| - i ==> buf[i + m] == CDataOpen[m]
    ensures DataScan(buf, from) == Open(i)
  {
    FindByteFirst(buf, from, |buf|, LT, i);
    forall m | i + 1 <= m < |buf|
      ensures buf[m] == CDataOpen[m - i]
    {
      assert buf[i + (m - i)] == CDataOpen[m - i];
    }
    MismatchNone(buf, i, i + 1);
  }

  /** `<![CDATA[` opened at i and j is the '>' of its first `]]>`. */
  lemma DataClose(buf: seq<byte>, from: nat, i: nat, j: nat)
    requires from <= i && i + |CDataOpen| <= j < |buf| && buf[i] == LT
    requires forall m :: from <= m < i ==> buf[m] != LT
    requires forall m :: 0 < m < |CDataOpen| ==> buf[i + m] == CDataOpen[m]
    requires forall m :: i + |CDataOpen| <= m < j ==> !ClosesCData(buf, m)
    requires ClosesCData(buf, j)
    ensures DataScan(buf, from) == Stop(j + 1)
  {
    FindByteFirst(buf, from, |buf|, LT, i);
    OpenAgrees(buf, i);
    MismatchNone(buf, i, i + 1);
    CloseAtFirst(buf, i + |CDataOpen|, j);
  }

  /** `<![CDATA[` opened at i and is not closed in the buffer. */
  lemma DataOpenLate(buf: seq<byte>, from: nat, i: nat)
    requires from <= i && i + |CDataOpen| <= |buf| && buf[i] == LT
    requires forall m :: from <= m < i ==> buf[m] != LT
    requires forall m :: 0 < m < |CDataOpen| ==> buf[i + m] == CDataOpen[m]
    requires forall m :: i + |CDataOpen| <= m < |buf| ==> !ClosesCData(buf, m)
    ensures DataScan(buf, from) == Open(i)
  {
    FindByteFirst(buf, from, |buf|, LT, i);
    OpenAgrees(buf, i);
    MismatchNone(buf, i, i + 1);
    CloseAtNone(buf, i + |CDataOpen|);
  }

  lemma OpenAgrees(buf: seq<byte>, i: nat)
    requires i + |CDataOpen| <= |buf|
    requires forall m :: 0 < m < |CDataOpen| ==> buf[i + m] == CDataOpen[m]
    ensures forall m :: i + 1 <= m < i + |CDataOpen| ==> buf[m] == CDataOpen[m - i]
  {
    forall m | i + 1 <= m < i + |CDataOpen|
      ensures buf[m] == CDataOpen[m - i]
    {
      assert buf[i + (m - i)] == CDataOpen[m - i];
    }
  }
  /** Two nested constructs side by side in a declaration: the second '<'
      sits right where the first one ends, where the nested search does not
      look, so the declaration `<!D[<!--a--><!--b-->]>` ends at the '>' of
      the second comment, index 20, and not at its own '>'. */
  lemma AdjacentNestedQuirk()
    ensures var d := [LT, BANG, 'D' as byte, LBRACKET, LT, BANG, DASH, DASH, 'a' as byte, DASH, DASH, GT,
                      LT, BANG, DASH, DASH, 'b' as byte, DASH, DASH, GT, RBRACKET, GT];
      |d| == 22 && d[21] == GT && Scan(d, 0, 1) == Found(20)
  {
    var d := [LT, BANG, 'D' as byte, LBRACKET, LT, BANG, DASH, DASH, 'a' as byte, DASH, DASH, GT,
              LT, BANG, DASH, DASH, 'b' as byte, DASH, DASH, GT, RBRACKET, GT];
    FindByteFirst(d, 1, 22, GT, 11);
    FindByteFirst(d, 2, 11, LT, 4);
    assert Step(d, 0, 1) == Nest(4);
    FindByteFirst(d, 5, 22, GT, 11);
    assert IsComment(d, 4) && d[5] == BANG && d[9] == DASH && d[10] == DASH;
    assert Step(d, 4, 5) == Done(Found(12));
    assert Scan(d, 4, 5) == Found(12);
    FindByteFirst(d, 12, 22, GT, 19);
    FindByteNone(d, 13, 19, LT);
    assert d[13] != QUOTE && forall k :: 12 <= k < 20 ==> d[k] != QUOTE;
    OddNone(d, 12, 20, QUOTE);
    assert Step(d, 0, 12) == Done(Found(20));
  }
}
