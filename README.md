# xmltokenizer: a verified model of the streaming XML lexer

This project models the `Tokenizer` of the Go package `xmltokenizer`
(`tokenizer.go`) in Dafny and proves properties of the model. The Tokenizer
reads XML from an `io.Reader` through one growable buffer. `RawToken` returns
the bytes of the next construct, trimmed: a processing instruction, a comment
or declaration, or a tag followed by its character data. `Token` splits those
bytes into a name, the attributes, the character data and two flags.

The modules follow the structure of the source:

- `bytes.dfy` (`Bytes`): the byte type, the ASCII bytes the lexer tests, and
  `bytes.IndexByte`, `bytes.IndexAny` and `bytes.Count` on buffer ranges.
- `trim.dfy` (`Trim`): `trimPrefix`, `trimSuffix` and `trim`. Each is a loop
  method proved equal to a function that says which bytes come off.
- `tokens.dfy` (`Tokens`): `Name`, `Attr` and `Token`. A Go byte slice that
  can be nil is a `Slice` (`Nil` or `Of(bytes)`), because the tokenizer
  tells nil from empty.
- `decompose.dfy` (`Decompose`): `consumeNonTagIdentifier`,
  `consumeTagName`, `consumeAttrs` and `consumeCharData` as functions of the
  span. Round-trip lemmas show what they read back from tags written out.
- `scan.dfy` (`Scan`): `findTokenEnd` as the recursive function `Scan`, and
  the end rule of `parseCharData` as `DataScan`. Lemmas say where each kind
  of construct ends, and that an answer already found does not change when
  more bytes arrive or when the bytes move to the front of the buffer.
- `raw.dfy` (`Outcome`): what one `RawToken` call returns and leaves behind,
  as a function `RawOutcome` of the bytes read since `Reset`.
- `tokenizer.dfy` (`Tokenizer`): the options, and the `Tokenizer` class with
  the fields `buf`, `cap`, `cur`, `n`, `err` and `token`.
  - The class's methods are the source's loops: `Reset`,
    `memmoveRemainingBytes`, `manageBuffer`, `RawToken`, `findTokenEnd`,
    `parseCharData`, `Token` and the `consume…` steps.
  - `RawToken` is proved to compute `RawOutcome` of the stream, for every
    way the reader may split its input.
  - `Token` is proved to compute `Cook` of that outcome, with the same
    read error; TokenOfEmptyInput runs it on a fresh tokenizer.

`New` and `Reset` leave `readBufferSize` zero bytes in the buffer and the
first read appends after them, so the lexer scans those zeros as input; they
hold no '<' and never reach a token. The model's stream is therefore those
zeros followed by the bytes read so far, and every result is a function of it.

The reader is a value `Reader(data, end)`: the bytes it will deliver, then the
error it reports once they run out (`EOF` or `ReadFailure`). Each read
delivers between 1 and the requested number of bytes, chosen without
constraint (`:|`). A panic of the Go code is modelled in one of two ways:
- as a precondition, where the caller controls the input (the pure
  `consume…` functions);
- as the outcome `Crash`, where it depends on bytes not yet read.

## Model

| member | source | states |
|---|---|---|
| Bytes.FindByteIndexByte | tokenizer.go:208 | `bytes.IndexByte` on the sub-slice `buf[lo:hi]` is FindByte on the buffer, offset by lo |
| Bytes.OddCount | tokenizer.go:243 | the parity test `bytes.Count(...) % 2 == 0` is the predicate Odd used by the scan |
| Trim.TrimPrefix | tokenizer.go:428-444 | the loop returns TrimmedPrefix(b) |
| Trim.TrimmedPrefix | tokenizer.go:428-444 | the result is a suffix of b; only white space comes off; nothing comes off when b starts with another byte |
| Trim.TrimSuffix | tokenizer.go:446-462 | the loop returns TrimmedSuffix(b), including the `i-1 > 0` test that keeps a CR at index 0 |
| Trim.TrimmedSuffix | tokenizer.go:446-462 | the result is a prefix of b; only white space comes off; nothing comes off when b ends with a byte other than space, tab or LF |
| Trim.Trim | tokenizer.go:422-426 | `trim` returns Trimmed(b), trimSuffix after trimPrefix |
| Trim.TrimmedIsSubslice | tokenizer.go:422-426 | trim yields a contiguous sub-slice of its argument, with only white space dropped on either side |
| Trim.TrimmedPrefixNoCR | tokenizer.go:428-444 | without any CR, trimPrefix drops exactly the leading white space |
| Trim.LoneCRQuirk | tokenizer.go:432-436 | a lone CR is stepped over but not removed: `"\r a"` trims to `" a"`, and trimming again gives `"a"`, so trim is not idempotent |
| Trim.CRLFQuirks | tokenizer.go:450-454 | trimSuffix removes one CR LF pair and stops at its CR, so white space before it stays; a CR at index 0 is kept |
| Trim.TrimmedPadded | tokenizer.go:422-426 | spaces, tabs and LFs padded on both sides of bytes that start and end with something else are removed by trim |
| Trim.SuffixEnd | tokenizer.go:446-462 | where trimSuffix of s[lo..hi] ends, as an index of s: only white space follows it, and a span ending in a byte other than space, tab or LF is kept whole |
| Trim.TrimmedSuffixAt | tokenizer.go:446-462 | trimSuffix of s[lo..hi] is s[lo..SuffixEnd(s, lo, hi)] |
| Trim.TrimmedAt | tokenizer.go:195 | trim of a span whose first byte is not white space (as the '<' of a token) only takes white space off its end, as SuffixEnd says |
| Trim.TrimFrom | tokenizer.go:195 | `trim(t.buf[pivot:pos])`, with a '<' at pivot, returns buf[pivot..SuffixEnd(buf, pivot, pos)] |
| Trim.SuffixEndShift | tokenizer.go:304-312 | the trim end of a span moves with the span when the bytes move in the buffer |
| Tokens.SplitName | tokenizer.go:370-376 | with a ':' the name is a colon-free prefix, ':' and the local part; without one the prefix is nil and the local part is the full name |
| Tokens.SplitNameOfJoin | tokenizer.go:395-402 | the split is unambiguous: prefix ':' local splits back into that prefix and that local part |
| Tokens.Normalized | tokenizer.go:145-147 | data is nil exactly when it is empty; otherwise the token is unchanged |
| Decompose.NameEnd | tokenizer.go:364-367 | the name ends at the first '>', space, tab, CR or LF, or one byte earlier when that '>' follows a '/', so the name holds none of those bytes |
| Decompose.TagName | tokenizer.go:358-378 | the end-tag flag is set exactly for `</`; the name body is the full name followed by the rest; the name holds no delimiter; the rest starts with a delimiter or `/>`; the name is split on its first ':' |
| Decompose.TagNameRendered | tokenizer.go:358-369 | a delimiter-free name written after `<` or `</` is the name consumeTagName reads, and what follows it is left over |
| Decompose.StepAttrValue | tokenizer.go:391-393 | an attribute value never contains '"' |
| Decompose.StepAttrClose | tokenizer.go:382-388 | a closing `>` or `/>` ends the attribute scan with that self-closing flag |
| Decompose.StepAttrRendered | tokenizer.go:389-394 | one turn reads a written-out ` name="value"` back as its raw name (the space before it included, for trim to remove) and its value, and resumes after the closing quote |
| Decompose.ParseAttrsRendered | tokenizer.go:380-408 | round trip: written-out attributes and a closing `>` or `/>` are read back as those attributes in order, that flag and the bytes after the '>' |
| Decompose.DropCDataOpen | tokenizer.go:413-415 | a leading `<![CDATA[` comes off, and anything else is left alone |
| Decompose.DropCDataClose | tokenizer.go:416-418 | a trailing `]]>` comes off, and anything else is left alone |
| Decompose.DropCDataMarkers | tokenizer.go:410-420 | `<![CDATA[` x `]]>` loses both markers and keeps x exactly |
| Decompose.CharDataOfCData | tokenizer.go:410-420 | a CDATA section after spaces, tabs or LFs yields its content, trimmed |
| Decompose.CharDataOfText | tokenizer.go:410-420 | text between spaces, tabs or LFs, not itself beginning or ending with white space or a CDATA marker, yields itself |
| Decompose.CharDataOfBlank | tokenizer.go:145-147 | white space alone gives empty data, which becomes nil |
| Decompose.DecomposeStartTag | tokenizer.go:132-139 | a written-out start tag and its text decompose into that name, those attributes, that flag and the payload of the text |
| Decompose.DecomposeEndTag | tokenizer.go:132-139 | an end tag and its text decompose into the name, no attributes, the end flag and the payload |
| Scan.Step | tokenizer.go:205-252 | one turn of the findTokenEnd loop ends the scan inside the buffer, resumes it further on, or nests at a later '<' |
| Scan.Scan | tokenizer.go:204-253 | an end found lies after the search start and within the buffer |
| Scan.ScanPI | tokenizer.go:214-221 | `<?` ends one past the first `?>` at pivot+3 or later (so `<?>` is complete), or gives More when there is none |
| Scan.ScanComment | tokenizer.go:222-231 | `<!--` ends one past the first `-->` that starts at pivot+3 or later (so `<!--->` is complete), or gives More |
| Scan.AdjacentNestedQuirk | tokenizer.go:232-240 | the nested search starts one past where the last nested construct ended, so in `<!D[<!--a--><!--b-->]>` the second comment is not nested and the declaration ends at index 20, at that comment's '>' |
| Scan.ScanTag | tokenizer.go:243-251 | an ordinary tag ends one past the first '>' preceded by an even number of '"' since the '<', or gives More |
| Scan.ScanEnds | tokenizer.go:204-253 | every end found is one past a '>' and at least two bytes after the '<' |
| Scan.ScanExtend | tokenizer.go:177-183 | an answer other than More does not change when more bytes are read |
| Scan.ScanShift | tokenizer.go:179 | an answer does not change when the construct moves to the front of the buffer |
| Scan.DataScan | tokenizer.go:258-302 | where the character data after a tag stops lies between its start and the buffer's end; the '<' of a CDATA section still open lies inside the buffer |
| Scan.DataScanIs | tokenizer.go:258-302 | all four cases, for the first '<' from the start: Text exactly when there is none; Stop at that '<' when a later byte in the buffer departs from `<![CDATA[`; Stop one past the first `]]>` that follows a complete `<![CDATA[`; Open when the buffer ends inside the prefix, or after it with no `]]>` |
| Scan.DataText | tokenizer.go:259-269 | with no '<' in the rest of the buffer the result is Text: the data runs on |
| Scan.DataStopAtLT | tokenizer.go:287-290 | the first '<', when its k-th byte is the first to depart from `<![CDATA[`, stops the data at that '<' |
| Scan.DataOpenEarly | tokenizer.go:276-286 | a buffer that ends inside what may still become `<![CDATA[` gives Open |
| Scan.DataClose | tokenizer.go:294-297 | a CDATA section whose first `]]>` after `<![CDATA[` has its '>' at j stops at j + 1 |
| Scan.DataOpenLate | tokenizer.go:275-298 | a complete `<![CDATA[` with no `]]>` after it in the buffer gives Open |
| Scan.DataScanExtend | tokenizer.go:258-302 | an end of character data once found does not move when more bytes arrive |
| Scan.DataScanShift | tokenizer.go:261 | the end moves with the bytes when they move to the front of the buffer |
| Outcome.RawOutcomeExtend | tokenizer.go:156-199 | an outcome that did not run out of input is final: more input, split in any way and ended by any error, gives the same outcome |
| Outcome.RawOutcomeBytes | tokenizer.go:156-199 | the bytes returned start with the first '<' from the cursor, are the stream's bytes from there, and end before the new cursor with only white space between |
| Outcome.RawOutcomeTrimmed | tokenizer.go:195-197 | every outcome without an error is `trim` of the stream from the first '<' to the new cursor |
| Outcome.RawOutcomeSpan | tokenizer.go:195-197 | the same with the trim's end given by SuffixEnd |
| Outcome.RawOutcomeNonTag | tokenizer.go:189-197 | a PI, comment or declaration comes back exactly, every byte from its '<' to its '>', and nothing is stored |
| Outcome.RawOutcomeEOF | tokenizer.go:178-188 | with io.EOF as the input's end: io.EOF exactly when no '<' is left; io.ErrUnexpectedEOF exactly when the input ends inside the construct, which then comes back with it |
| Outcome.RawOutcomeError | tokenizer.go:166-187 | a returned error is also the one stored |
| Outcome.RawOutcomeStored | tokenizer.go:258-302 | a read error is stored exactly when the call ran out of input; a returned error is the stored one; a Crash is returned exactly when stored; a call with no error returns bytes |
| Tokenizer.Fallback | tokenizer.go:55-57 | a size that is not positive falls back to the default |
| Tokenizer.WithReadBufferSize | tokenizer.go:54-59 | sets the read buffer size, positive, defaulting to 4096 |
| Tokenizer.WithAutoGrowBufferMaxLimitSize | tokenizer.go:63-68 | sets the grow limit, positive, defaulting to 1000 << 10 |
| Tokenizer.WithAttrBufferSize | tokenizer.go:72-77 | sets the attrs buffer size, positive, defaulting to 16 |
| Tokenizer.ApplyAllUntouched | tokenizer.go:92-95 | a field that no option sets keeps its default |
| Tokenizer.ApplyAllLastWins | tokenizer.go:93-95 | the last option of a kind decides that field |
| Tokenizer.ConfiguredValid | tokenizer.go:92-102 | after Reset every size is positive and the read buffer size is at most the grow limit |
| Tokenizer.Configure | tokenizer.go:92-102 | the option loop and the raise of the grow limit compute Configured(opts) |
| Tokenizer.ResetBufferAsWritten | tokenizer.go:104-110 | Reset as written reslices a large enough old buffer, keeping its old bytes, and otherwise allocates zeros |
| Tokenizer.ResetStaleBytes | tokenizer.go:104-110 | a stale `<a/>` in the kept buffer is found again as a whole token after Reset |
| Tokenizer.Tokenizer.constructor | tokenizer.go:80-84 | New: the reader, no error, counters at 0, configured options, a zero buffer of the read size with the extra capacity; the stream so far is exactly those zeros, starting at buf[0] |
| Tokenizer.Tokenizer.Reset | tokenizer.go:88-111 | a fresh reader, options and counters, no error; the capacity kept when large enough; a cleared buffer (corrected), so the new stream is exactly readBufferSize zeros, starting at buf[0] |
| Tokenizer.Tokenizer.Memmove | tokenizer.go:304-312 | moves buf[pivot..] to the front and resets the cursor; nothing changes at pivot 0 |
| Tokenizer.Tokenizer.ManageBuffer | tokenizer.go:314-336 | the three outcomes: the grow limit error with nothing changed, exactly when neither the capacity nor the limit admits the growth; a read of 1 to readBufferSize bytes appended; the reader's final error with nothing read |
| Tokenizer.Tokenizer.Reserve | tokenizer.go:315-329 | reslice within the capacity, a new allocation of exactly the grown size, or the limit error |
| Tokenizer.Tokenizer.Fill | tokenizer.go:331-335 | one read appends between 1 and readBufferSize of the reader's next bytes, or returns its error and appends nothing |
| Tokenizer.Tokenizer.Refill | tokenizer.go:179-180 | the bytes from pivot on move to the front, then more are read after them |
| Tokenizer.Tokenizer.RawToken | tokenizer.go:156-199 | a stored error comes back with nothing read or changed; otherwise the call computes RawOutcome of the stream from the cursor's stream index |
| Tokenizer.Tokenizer.ReadToken | tokenizer.go:160-199 | RawToken without a stored error computes RawOutcome |
| Tokenizer.Tokenizer.FindOpen | tokenizer.go:161-174 | the first '<' from the cursor, reading more while there is none; or the read error with no '<' left |
| Tokenizer.Tokenizer.FindEnd | tokenizer.go:175-188 | where the construct ends as Scan states it, reading more while Scan says More; a read error leaves More with the construct at index 0 |
| Tokenizer.Tokenizer.ReadConstruct | tokenizer.go:175-198 | after the '<' is found, the call computes RawOutcome |
| Tokenizer.Tokenizer.Unfinished | tokenizer.go:184-187 | an unfinished construct returns buf[pivot..] with the promoted error, which is stored |
| Tokenizer.Tokenizer.NonTag | tokenizer.go:193-197 | a PI, comment or declaration returns its trimmed span and moves the cursor past it |
| Tokenizer.Tokenizer.ReadCharData | tokenizer.go:190-197 | a tag with its character data returns the trimmed span with no error, and stores parseCharData's error |
| Tokenizer.Tokenizer.TakeCharData | tokenizer.go:192-197 | `pos++`, the trim and the cursor update after parseCharData |
| Tokenizer.Tokenizer.FindTokenEnd | tokenizer.go:204-253 | the loop with its recursive call returns Scan(buf, pivot, pivot + 1) |
| Tokenizer.Tokenizer.FindTokenEndTurn | tokenizer.go:205-252 | one turn of the loop is Step |
| Tokenizer.Tokenizer.ParseCharData | tokenizer.go:258-302 | the end returned, one before the span's end, and the error stored are those of DataScan on the final buffer: a failure while the text runs on is stored as is; one while a CDATA section may be open promotes io.EOF |
| Tokenizer.Tokenizer.SkipText | tokenizer.go:259-269 | the first '<' after the tag, reading as needed, or the end of the buffer with the read error stored |
| Tokenizer.Tokenizer.ProbeCData | tokenizer.go:271-299 | the data stops at the '<' unless `<![CDATA[` follows, and then runs through the first `]]>`; when the input ends first, the read error is returned and the span ends before the '<' |
| Tokenizer.Tokenizer.MatchOpen | tokenizer.go:274-293 | matches `<![CDATA[` byte by byte, stopping at the first byte that differs or at the end of the input |
| Tokenizer.Tokenizer.FindClose | tokenizer.go:294-298 | the '>' of the first `]]>` after the opening, or the end of the input |
| Tokenizer.Tokenizer.RefillOpen | tokenizer.go:276-285 | the refill inside the CDATA probe keeps the bytes matched so far |
| Tokenizer.Tokenizer.RefillClose | tokenizer.go:276-285 | the refill inside the CDATA probe keeps the bytes searched so far |
| Tokenizer.SeekClose | tokenizer.go:294-297 | the first `]]>` in the buffer from j0 on, or none |
| Tokenizer.Tokenizer.ClearToken | tokenizer.go:338-346 | the shared token becomes the zero token |
| Tokenizer.Tokenizer.ConsumeNonTagIdentifier | tokenizer.go:349-356 | a `<?`/`<!` span becomes the data of a self-closing token and nothing is left; any other span is left as it is |
| Tokenizer.Tokenizer.ConsumeTagName | tokenizer.go:358-378 | sets the full and local name, the prefix only when there is a ':', and only ever sets the end flag; returns the rest as TagName states it |
| Tokenizer.ScanTagName | tokenizer.go:359-369 | the byte work of consumeTagName computes TagName |
| Tokenizer.Tokenizer.ConsumeAttrs | tokenizer.go:380-408 | appends the attributes of ParseAttrs in order, sets the self-closing flag it finds, leaves the rest of the token alone, and returns the bytes after the '>' |
| Tokenizer.ScanAttr | tokenizer.go:382-394 | one turn of the loop: the '>' with its flag, or the trimmed name, the quoted value and the bytes after it |
| Tokenizer.QuotedValueIs | tokenizer.go:391-394 | the two `IndexByte` calls and slices compute QuotedValue |
| Tokenizer.Tokenizer.ConsumeCharData | tokenizer.go:410-420 | the data becomes CharDataPayload of the bytes after the tag |
| Tokenizer.Tokenizer.Build | tokenizer.go:132-139 | clearToken and the consume steps leave Decompose(b) as the shared token, and fail exactly where the source panics |
| Tokenizer.Tokenizer.BuildTag | tokenizer.go:136-138 | the tag steps compute Decompose(b) on the cleared token |
| Tokenizer.Tokenizer.Finish | tokenizer.go:121-149 | what Token does with its RawToken results is Cook of the outcome |
| Tokenizer.Tokenizer.Token | tokenizer.go:116-150 | a stored error comes back with the zero token and nothing changed; otherwise the token, error and stored error are Cook of RawOutcome from the old cursor, the cursor moves where that outcome says, and an outcome that ran out of input names the reader's actual final error (or the grow limit) |
| Tokenizer.Tokenizer.ReadAndCook | tokenizer.go:121-149 | RawToken then Finish compute Cook of the outcome, with the cursor and the read error that ended it pinned as for RawToken |
| Tokenizer.Cook | tokenizer.go:116-150 | an error comes back only with the zero token; such a call leaves the shared token alone; a returned token is the shared one with its data nil-normalised |
| Tokenizer.TokenNonTag | tokenizer.go:134-135 | a PI, comment or declaration becomes a nameless self-closing token whose data is every byte from '<' to '>' |
| Tokenizer.TokenEOF | tokenizer.go:117-128 | with io.EOF as the input's end, Token returns io.EOF exactly when no '<' is left and io.ErrUnexpectedEOF exactly when the input ends in a construct; both with the zero token, and both stored |
| Tokenizer.TokenPartial | tokenizer.go:121-129 | another read error inside a construct is stored, and the bytes so far are decomposed and returned with no error |
| Tokenizer.TokenOfEmptyInput | tokenizer.go:79-84 | `New` over a reader with no bytes, then `Token`: io.EOF with the zero token, and io.EOF stored |
| Tokenizer.TokenTag | tokenizer.go:132-149 | a tag comes back with no error as the decomposition of the trimmed span, or crashes where decomposing it would panic |

## Left out

- The io.Reader is a value (data, then a final error). Partial reads with an
  error and the reader's own state are not modelled. Every error other than
  io.EOF is one value, `ReadFailure`.
- Error texts and wrapping (`fmt.Errorf("byte pos %d: %w", …)`,
  `errAutoGrowBufferExceedMaxLimit`) are not modelled. Only which error
  `errors.Is` would find is kept. Byte positions in messages are left out;
  `n` still counts the bytes read.
- Aliasing is not modelled. The slices `RawToken` and `Token` return are
  values here, not views of the buffer that the next call invalidates.
  Three-index slicing, the capacity of `Attrs` (`attrsBufferSize` only sets
  a capacity) and the nil-ness of `Attrs` are left out: an empty sequence
  stands for the nil list `Token` returns.
- `cap(t.buf)` is a number. The copy into a new allocation is not modelled
  apart from the bytes it keeps.
- `n` is unbounded; the int64 counter never overflows in the model.
- Tokenizer.Tokenizer.Token: the shared token after a Crash is left
  unspecified. The source panics there and the program usually stops.
- Tokenizer.Tokenizer.Build: the source panics where Build returns false and
  the model stores Crash. Which panic occurs, and whether a caller recovers
  from it, is not modelled.
- Decompose.ParseAttrs: its own ensures only bounds the rest. What it
  computes is stated by the round trip ParseAttrsRendered.
- Tokenizer.Tokenizer.Reset: it clears the kept buffer, unlike the source.
  The source's behaviour is ResetBufferAsWritten (see Findings).
- The package's tests and benchmarks (GPX and XLSX files, and comparisons
  with encoding/xml) are not part of this model.

## Findings

| source | as written | input that shows it | evidently intended | confidence | as-written member | corrected member |
|---|---|---|---|---|---|---|
| tokenizer.go:104-106 | `Reset` keeps a large enough old buffer with `t.buf[:size:cap(t.buf)]`. Its first `size` bytes are whatever the old backing array held. `RawToken` then scans them as input of the new reader | a tokenizer whose backing array (capacity 8192) holds `<a/>` at index 0 and zeros after it is reset with the default options onto an empty reader; the next `RawToken` finds the stale `<a/>` as a complete tag and returns it, with the stale zero bytes after it, though the new reader delivered nothing | Reset starts the new input on a buffer that holds none of the old bytes, as `New` does with the zeros of `make` | not executed | Tokenizer.ResetStaleBytes | Tokenizer.Tokenizer.Reset |
