/**
  The two chunked decoders on well-formed chunked bodies. Bodies are given by
  the grammar of section 4.1 of RFC 7230, written out as text: numerals with
  any number of leading zeros and either case, chunk extensions, trailers.
  */
module DecoderAgreement {
  import opened Bytes
  import opened Text
  import opened ChunkedDecoding
  import opened ChunkedEncoding
  import opened OneShotDecoding

  datatype Chunk = Chunk(digits: seq<byte>, extension: seq<byte>, data: seq<byte>)

  datatype Body = Body(chunks: seq<Chunk>, lastDigits: seq<byte>, lastExtension: seq<byte>, trailers: seq<seq<byte>>)

  predicate IsHex(s: seq<byte>) {
    forall i :: 0 <= i < |s| ==> IsHexDigit(s[i])
  }

  function HexNumber(s: seq<byte>): nat
    requires IsHex(s)
  {
    if s == [] then 0 else HexNumber(s[..|s| - 1]) * 16 + DigitOf(s[|s| - 1])
  }

  /** A hexadecimal numeral of value n, within 64 bits. */
  predicate Numeral(digits: seq<byte>, n: nat) {
    digits != [] && IsHex(digits) && HexNumber(digits) == n <= U64_MAX
  }

  /** `from_str_radix` reads hexadecimal digits as their number, and not at all if that does not fit. */
  lemma {:induction false} HexNumberValue(s: seq<byte>, max: nat)
    requires IsHex(s)
    ensures DigitsValue(s, 16, max) == if HexNumber(s) <= max then Some(HexNumber(s)) else None
    decreases |s|
  {
    if s != [] {
      HexNumberValue(s[..|s| - 1], max);
      assert IsHexDigit(s[|s| - 1]);
    }
  }

  /** Empty, or a semicolon and anything without a carriage return. */
  predicate Extension(e: seq<byte>) {
    e != [] ==> e[0] == SEMICOLON && CR !in e
  }

  predicate WellFormedChunk(c: Chunk) {
    Numeral(c.digits, |c.data|) && Extension(c.extension) && c.data != []
  }

  predicate WellFormedBody(b: Body) {
    && (forall c :: c in b.chunks ==> WellFormedChunk(c))
    && Numeral(b.lastDigits, 0) && Extension(b.lastExtension)
    && forall t :: t in b.trailers ==> t != [] && CR !in t
  }

  function Line(digits: seq<byte>, extension: seq<byte>): seq<byte> {
    digits + extension + CRLF
  }

  function PrintChunk(c: Chunk): seq<byte> {
    Line(c.digits, c.extension) + (c.data + CRLF)
  }

  function PrintChunks(chunks: seq<Chunk>): seq<byte> {
    if chunks == [] then [] else PrintChunk(chunks[0]) + PrintChunks(chunks[1..])
  }

  function PrintTrailers(trailers: seq<seq<byte>>): seq<byte> {
    if trailers == [] then CRLF else trailers[0] + CRLF + PrintTrailers(trailers[1..])
  }

  function PrintEnd(b: Body): seq<byte> {
    Line(b.lastDigits, b.lastExtension) + PrintTrailers(b.trailers)
  }

  function Print(b: Body): seq<byte> {
    PrintChunks(b.chunks) + PrintEnd(b)
  }

  function Payload(chunks: seq<Chunk>): seq<byte> {
    if chunks == [] then [] else chunks[0].data + Payload(chunks[1..])
  }

  // ---------------------------------------------------------------------------
  // The incremental decoder
  // ---------------------------------------------------------------------------

  lemma {:induction false} DigitsRun(d: Decoder, digits: seq<byte>, n: nat)
    requires AtChunkStart(d)
    requires IsHex(digits) && HexNumber(digits) == n <= U64_MAX
    ensures Run(d, digits) == d.(sizeAccumulator := n, sizeHasDigit := digits != [])
    ensures Emitted(d, digits) == []
    decreases |digits|
  {
    if digits != [] {
      var init, last := digits[..|digits| - 1], digits[|digits| - 1];
      DigitsRun(d, init, HexNumber(init));
      RunSnoc(d, init, last);
      assert IsHexDigit(last);
      SizeLineStep(Run(d, init), last);
      assert digits == init + [last];
    }
  }

  lemma {:induction false} InsideExtensionRun(d: Decoder, s: seq<byte>)
    requires d.state.ReadingChunkExtension? && CR !in s
    ensures Run(d, s) == d && Emitted(d, s) == []
    decreases |s|
  {
    if s != [] {
      InsideExtensionRun(d, s[1..]);
    }
  }

  lemma LineRun(d: Decoder, digits: seq<byte>, extension: seq<byte>, n: nat)
    requires AtChunkStart(d) && Numeral(digits, n) && Extension(extension)
    ensures Run(d, Line(digits, extension)) ==
            EndSizeLine(d.(state := ExpectingChunkSizeLF, sizeAccumulator := n, sizeHasDigit := true))
    ensures Emitted(d, Line(digits, extension)) == []
  {
    DigitsRun(d, digits, n);
    RunConcat(d, digits, extension);
    if extension != [] {
      InsideExtensionRun(Step(Run(d, digits), SEMICOLON), extension[1..]);
    }
    RunSnoc(d, digits + extension, CR);
    RunSnoc(d, digits + extension + [CR], LF);
    assert Line(digits, extension) == digits + extension + [CR] + [LF];
  }

  lemma {:induction false} ChunksRun(d: Decoder, chunks: seq<Chunk>)
    requires AtChunkStart(d) && d.maxBodySize == 0
    requires forall c :: c in chunks ==> WellFormedChunk(c)
    ensures Run(d, PrintChunks(chunks)) == d
    ensures Emitted(d, PrintChunks(chunks)) == Payload(chunks)
    decreases |chunks|
  {
    if chunks != [] {
      ChunkRun(d, chunks[0]);
      ChunksRun(d, chunks[1..]);
      RunConcat(d, PrintChunk(chunks[0]), PrintChunks(chunks[1..]));
    }
  }

  lemma ChunkRun(d: Decoder, c: Chunk)
    requires AtChunkStart(d) && d.maxBodySize == 0 && WellFormedChunk(c)
    ensures Run(d, PrintChunk(c)) == d
    ensures Emitted(d, PrintChunk(c)) == c.data
  {
    var line := Line(c.digits, c.extension);
    LineRun(d, c.digits, c.extension, |c.data|);
    DataAndCrlfRun(Run(d, line), c.data);
    RunConcat(d, line, c.data + CRLF);
  }

  lemma {:induction false} TrailerLineRun(d: Decoder, s: seq<byte>)
    requires d.state.ReadingTrailerLine? && CR !in s
    ensures Run(d, s) == d.(trailerLineEmpty := d.trailerLineEmpty && s == [])
    ensures Emitted(d, s) == []
    decreases |s|
  {
    if s != [] {
      TrailerLineRun(Step(d, s[0]), s[1..]);
    }
  }

  lemma {:induction false} TrailersRun(d: Decoder, trailers: seq<seq<byte>>)
    requires d.state.ReadingTrailerLine? && d.trailerLineEmpty
    requires forall t :: t in trailers ==> t != [] && CR !in t
    ensures Run(d, PrintTrailers(trailers)).state.Complete?
    ensures Emitted(d, PrintTrailers(trailers)) == []
    decreases |trailers|
  {
    var line := if trailers == [] then [] else trailers[0];
    TrailerLineRun(d, line);
    RunSnoc(d, line, CR);
    RunSnoc(d, line + [CR], LF);
    assert line + CRLF == line + [CR] + [LF];
    if trailers != [] {
      assert forall t :: t in trailers[1..] ==> t in trailers;
      TrailersRun(d, trailers[1..]);
      RunConcat(d, line + CRLF, PrintTrailers(trailers[1..]));
    } else {
      assert line + CRLF == CRLF;
    }
  }

  /** The incremental decoder accepts every well-formed body and returns its payload. */
  lemma IncrementalDecodes(b: Body)
    requires WellFormedBody(b)
    ensures Run(Initial(0), Print(b)).state.Complete?
    ensures Emitted(Initial(0), Print(b)) == Payload(b.chunks)
  {
    var d := Initial(0);
    var line := Line(b.lastDigits, b.lastExtension);
    ChunksRun(d, b.chunks);
    LineRun(d, b.lastDigits, b.lastExtension, 0);
    TrailersRun(Run(d, line), b.trailers);
    RunConcat(d, line, PrintTrailers(b.trailers));
    RunConcat(d, PrintChunks(b.chunks), PrintEnd(b));
  }

  // ---------------------------------------------------------------------------
  // The one-shot decoder
  // ---------------------------------------------------------------------------

  lemma HexIsGraphic(digits: seq<byte>)
    requires IsHex(digits)
    ensures AllAscii(digits)
    ensures forall i :: 0 <= i < |digits| ==> IsGraphic(digits[i]) && digits[i] != SEMICOLON
  {
    forall i | 0 <= i < |digits| ensures IsGraphic(digits[i]) && digits[i] != SEMICOLON {
      assert IsHexDigit(digits[i]);
    }
  }

  /** What stands in front of the first semicolon. */
  lemma {:induction false} UpToSemicolon(digits: seq<byte>, line: seq<byte>)
    requires SEMICOLON !in digits && (line == digits || digits + [SEMICOLON] <= line)
    ensures line[..IndexFrom(line, 0, SEMICOLON)] == digits
  {
    assert line != digits ==> line[|digits|] == SEMICOLON;
    assert forall k :: 0 <= k < |digits| ==> line[k] == digits[k];
    IndexFromIs(line, 0, SEMICOLON, |digits|);
  }

  lemma {:induction false} TrimmedPlain(digits: seq<byte>)
    requires digits != [] && IsHex(digits)
    ensures Trim(digits) == digits
  {
    HexIsGraphic(digits);
    TrimKeepsGraphicPrefix(digits, []);
    assert digits + [] == digits;
  }

  lemma {:induction false} TrimmedExtended(digits: seq<byte>, extension: seq<byte>)
    requires IsHex(digits) && extension != [] && extension[0] == SEMICOLON
    ensures digits + [SEMICOLON] <= Trim(digits + extension)
  {
    var kept := digits + [SEMICOLON];
    HexIsGraphic(digits);
    assert digits + extension == kept + extension[1..];
    TrimKeepsGraphicPrefix(kept, extension[1..]);
  }

  /** Trimming and cutting at the semicolon leaves the numeral. */
  lemma {:induction false} TrimmedSize(digits: seq<byte>, extension: seq<byte>)
    requires digits != [] && IsHex(digits) && Extension(extension)
    ensures var trimmed := Trim(digits + extension); trimmed[..IndexFrom(trimmed, 0, SEMICOLON)] == digits
  {
    HexIsGraphic(digits);
    if extension == [] {
      assert digits + extension == digits;
      TrimmedPlain(digits);
    } else {
      TrimmedExtended(digits, extension);
    }
    UpToSemicolon(digits, Trim(digits + extension));
  }

  /** A size line is read exactly when its extension is valid UTF-8. */
  lemma SizeLineParses(digits: seq<byte>, extension: seq<byte>, n: nat)
    requires Numeral(digits, n) && Extension(extension)
    ensures ParseSize(digits + extension) == if IsUtf8(extension) then Some(n) else None
  {
    HexIsGraphic(digits);
    AsciiPrefixUtf8(digits, extension);
    TrimmedSize(digits, extension);
    HexNumberValue(digits, U64_MAX);
    assert IsHexDigit(digits[0]);
  }

  lemma NoCrInLine(digits: seq<byte>, extension: seq<byte>)
    requires IsHex(digits) && Extension(extension)
    ensures forall k :: 0 <= k < |digits + extension| ==> (digits + extension)[k] != CR
  {
  }

  /** The decoder reads this size line as n, or cannot read it. */
  predicate Reads(parse: SizeParser, digits: seq<byte>, extension: seq<byte>, n: nat) {
    parse(digits + extension) == Some(n) || parse(digits + extension) == None
  }

  predicate Readable(parse: SizeParser, c: Chunk) {
    parse(c.digits + c.extension).Some?
  }

  /** What the one-shot decoder sees at the start of a size line. */
  lemma LookAtLine(parse: SizeParser, data: seq<byte>, pos: nat, text: seq<byte>, n: nat, tail: seq<byte>)
    requires pos <= |data| <= U64_MAX
    requires forall k :: 0 <= k < |text| ==> text[k] != CR
    requires parse(text) == Some(n) || parse(text) == None
    requires data[pos..] == text + CRLF + tail
    requires |tail| >= 2 + n
    ensures var start := pos + |text| + 2;
            Look(parse, data, pos) ==
            if parse(text) == None || n == 0 then Stop else NextChunk.Chunk(start, start + n, start + n + 2)
  {
    var cr := pos + |text|;
    assert forall k :: pos <= k < cr ==> data[k] == data[pos..][k - pos] == text[k - pos];
    assert data[cr] == data[pos..][|text|] == CR;
    assert data[pos..cr] == text;
    IndexFromIs(data, pos, CR, cr);
  }

  /** Where the parts of a printed chunk lie in the data. */
  lemma ChunkSlices(data: seq<byte>, pos: nat, text: seq<byte>, content: seq<byte>, tail: seq<byte>)
    requires pos <= |data| && data[pos..] == text + CRLF + content + CRLF + tail
    ensures data[pos..] == text + CRLF + (content + CRLF + tail)
    ensures var start := pos + |text| + 2;
            data[start..start + |content|] == content && data[start + |content| + 2..] == tail
  {
    var n := |text| + 2;
    SliceOfDrop(data, pos, n, n + |content|);
    SliceOfDrop(data, pos, n + |content| + 2, |data| - pos);
  }

  /** A printed chunk as the decoder finds it: its data and where the next one starts, or an unreadable size. */
  predicate SeesOne(parse: SizeParser, look: Lookup, data: seq<byte>, pos: nat, c: Chunk) {
    var start := pos + |c.digits| + |c.extension| + 2;
    var seen := NextChunk.Chunk(start, start + |c.data|, pos + |PrintChunk(c)|);
    && pos <= |data|
    && look(pos) == (if Readable(parse, c) then seen else Stop)
    && (Readable(parse, c) ==> Ahead(seen, pos, data) && data[seen.start..seen.end] == c.data)
  }

  lemma {:induction false} LookAtChunk(parse: SizeParser, data: seq<byte>, pos: nat, c: Chunk, tail: seq<byte>)
    requires pos <= |data| <= U64_MAX && WellFormedChunk(c) && Reads(parse, c.digits, c.extension, |c.data|)
    requires data[pos..] == PrintChunk(c) + tail
    ensures SeesOne(parse, LookIn(parse, data), data, pos, c)
    ensures pos + |PrintChunk(c)| <= |data| && data[pos + |PrintChunk(c)|..] == tail
  {
    var text := c.digits + c.extension;
    NoCrInLine(c.digits, c.extension);
    ChunkSlices(data, pos, text, c.data, tail);
    LookAtLine(parse, data, pos, text, |c.data|, c.data + CRLF + tail);
  }

  /** The chunks up to the first unreadable size line. */
  function ReadablePrefix(parse: SizeParser, chunks: seq<Chunk>): seq<Chunk> {
    if chunks == [] || !Readable(parse, chunks[0]) then [] else [chunks[0]] + ReadablePrefix(parse, chunks[1..])
  }

  lemma {:induction false} ReadablePrefixStep(parse: SizeParser, chunks: seq<Chunk>, result: seq<byte>)
    requires chunks != []
    ensures result + Payload(ReadablePrefix(parse, chunks)) ==
            if Readable(parse, chunks[0]) then result + chunks[0].data + Payload(ReadablePrefix(parse, chunks[1..]))
            else result
  {
    if Readable(parse, chunks[0]) {
      var rest := ReadablePrefix(parse, chunks[1..]);
      PayloadCons(chunks[0], rest);
      Associativity(result, chunks[0].data, Payload(rest));
    } else {
      assert result + [] == result;
    }
  }

  predicate ReadsAll(parse: SizeParser, chunks: seq<Chunk>) {
    forall c :: c in chunks ==> WellFormedChunk(c) && Reads(parse, c.digits, c.extension, |c.data|)
  }

  /** Where chunk i of the body starts. */
  function Offset(chunks: seq<Chunk>, i: nat): nat
    requires i <= |chunks|
  {
    if i == 0 then 0 else Offset(chunks, i - 1) + |PrintChunk(chunks[i - 1])|
  }

  /** The chunks, and after them the end, as the decoder finds them from `pos` on. */
  predicate Sees(parse: SizeParser, look: Lookup, data: seq<byte>, pos: nat, chunks: seq<Chunk>)
    decreases |chunks|
  {
    if chunks == [] then pos <= |data| && look(pos).Stop?
    else
      && SeesOne(parse, look, data, pos, chunks[0])
      && Sees(parse, look, data, pos + |PrintChunk(chunks[0])|, chunks[1..])
  }

  /** Chunks with readable size lines are decoded; the first unreadable one ends the decoding. */
  lemma {:induction false} SeenIsDecoded(
    parse: SizeParser, look: Lookup, data: seq<byte>, pos: nat, chunks: seq<Chunk>, result: seq<byte>)
    requires Sees(parse, look, data, pos, chunks)
    ensures OneShot(look, data, pos, result) == Decoded(result + Payload(ReadablePrefix(parse, chunks)))
    decreases |chunks|
  {
    if chunks == [] {
      assert result + [] == result;
    } else {
      var c := chunks[0];
      if Readable(parse, c) {
        SeenIsDecoded(parse, look, data, pos + |PrintChunk(c)|, chunks[1..], result + c.data);
      }
      ReadablePrefixStep(parse, chunks, result);
    }
  }

  /** Chunks found one by one are found in a row. */
  lemma {:induction false} SeesFrom(parse: SizeParser, look: Lookup, data: seq<byte>, chunks: seq<Chunk>, i: nat)
    requires i <= |chunks|
    requires forall k {:trigger SeesOne(parse, look, data, Offset(chunks, k), chunks[k])} ::
               0 <= k < |chunks| ==> SeesOne(parse, look, data, Offset(chunks, k), chunks[k])
    requires Offset(chunks, |chunks|) <= |data| && look(Offset(chunks, |chunks|)).Stop?
    ensures Sees(parse, look, data, Offset(chunks, i), chunks[i..])
    decreases |chunks| - i
  {
    if i < |chunks| {
      SeesFrom(parse, look, data, chunks, i + 1);
      assert chunks[i..][1..] == chunks[i + 1..];
      assert SeesOne(parse, look, data, Offset(chunks, i), chunks[i]);
    }
  }

  lemma {:induction false} SeenBody(parse: SizeParser, look: Lookup, data: seq<byte>, chunks: seq<Chunk>)
    requires forall k {:trigger SeesOne(parse, look, data, Offset(chunks, k), chunks[k])} ::
               0 <= k < |chunks| ==> SeesOne(parse, look, data, Offset(chunks, k), chunks[k])
    requires Offset(chunks, |chunks|) <= |data| && look(Offset(chunks, |chunks|)).Stop?
    ensures OneShot(look, data, 0, []) == Decoded(Payload(ReadablePrefix(parse, chunks)))
  {
    SeesFrom(parse, look, data, chunks, 0);
    assert chunks[0..] == chunks;
    SeenIsDecoded(parse, look, data, 0, chunks, []);
    assert [] + Payload(ReadablePrefix(parse, chunks)) == Payload(ReadablePrefix(parse, chunks));
  }

  /** The printed body from chunk i on. */
  lemma {:induction false} PrintedFrom(b: Body, i: nat)
    requires i <= |b.chunks|
    ensures Offset(b.chunks, i) <= |Print(b)|
    ensures Print(b)[Offset(b.chunks, i)..] == PrintChunks(b.chunks[i..]) + PrintEnd(b)
  {
    if i > 0 {
      PrintedFrom(b, i - 1);
      var c, rest := b.chunks[i - 1], PrintChunks(b.chunks[i..]) + PrintEnd(b);
      assert b.chunks[i - 1..][1..] == b.chunks[i..];
      Associativity(PrintChunk(c), PrintChunks(b.chunks[i..]), PrintEnd(b));
      DropMore(Print(b), Offset(b.chunks, i - 1), PrintChunk(c), rest);
    } else {
      assert b.chunks[0..] == b.chunks;
    }
  }

  lemma DropMore(data: seq<byte>, pos: nat, a: seq<byte>, rest: seq<byte>)
    requires pos <= |data| && data[pos..] == a + rest
    ensures pos + |a| <= |data| && data[pos + |a|..] == rest
  {
    SliceOfDrop(data, pos, |a|, |data| - pos);
  }

  lemma {:induction false} ChunkIsSeen(parse: SizeParser, b: Body, i: nat)
    requires i < |b.chunks| && |Print(b)| <= U64_MAX && ReadsAll(parse, b.chunks)
    ensures SeesOne(parse, LookIn(parse, Print(b)), Print(b), Offset(b.chunks, i), b.chunks[i])
  {
    var c, rest := b.chunks[i], PrintChunks(b.chunks[i + 1..]);
    PrintedFrom(b, i);
    assert b.chunks[i..][1..] == b.chunks[i + 1..];
    Associativity(PrintChunk(c), rest, PrintEnd(b));
    LookAtChunk(parse, Print(b), Offset(b.chunks, i), c, rest + PrintEnd(b));
  }

  lemma {:induction false} EndIsSeen(parse: SizeParser, b: Body)
    requires WellFormedBody(b) && |Print(b)| <= U64_MAX && Reads(parse, b.lastDigits, b.lastExtension, 0)
    ensures var end := Offset(b.chunks, |b.chunks|);
            end <= |Print(b)| && LookIn(parse, Print(b))(end).Stop?
  {
    PrintedFrom(b, |b.chunks|);
    assert [] + PrintEnd(b) == PrintEnd(b);
    LookAtEnd(parse, Print(b), Offset(b.chunks, |b.chunks|), b);
  }

  lemma {:induction false} OneShotDecodes(parse: SizeParser, b: Body)
    requires WellFormedBody(b) && |Print(b)| <= U64_MAX
    requires Reads(parse, b.lastDigits, b.lastExtension, 0) && ReadsAll(parse, b.chunks)
    ensures DecodedBy(parse, Print(b)) == Decoded(Payload(ReadablePrefix(parse, b.chunks)))
  {
    var look := LookIn(parse, Print(b));
    forall i | 0 <= i < |b.chunks| ensures SeesOne(parse, look, Print(b), Offset(b.chunks, i), b.chunks[i]) {
      ChunkIsSeen(parse, b, i);
    }
    EndIsSeen(parse, b);
    SeenBody(parse, look, Print(b), b.chunks);
  }

  /** Nothing is lost exactly when every size line is readable. */
  lemma {:induction false} ReadablePrefixPayload(parse: SizeParser, chunks: seq<Chunk>)
    requires ReadsAll(parse, chunks)
    ensures |Payload(ReadablePrefix(parse, chunks))| <= |Payload(chunks)|
    ensures Payload(ReadablePrefix(parse, chunks)) == Payload(chunks) <==>
            forall c :: c in chunks ==> Readable(parse, c)
  {
    if chunks != [] {
      var c, rest := chunks[0], ReadablePrefix(parse, chunks[1..]);
      assert c in chunks && forall x :: x in chunks <==> x == c || x in chunks[1..];
      assert WellFormedChunk(c);
      ReadablePrefixPayload(parse, chunks[1..]);
      if Readable(parse, c) {
        PayloadCons(c, rest);
        SamePrefix(c.data, Payload(rest), Payload(chunks[1..]));
      }
    }
  }

  lemma PayloadCons(c: Chunk, rest: seq<Chunk>)
    ensures Payload([c] + rest) == c.data + Payload(rest)
  {
    assert ([c] + rest)[1..] == rest;
  }

  lemma SamePrefix(a: seq<byte>, b: seq<byte>, c: seq<byte>)
    ensures a + b == a + c <==> b == c
  {
    assert (a + b)[|a|..] == b && (a + c)[|a|..] == c;
  }

  lemma {:induction false} LookAtEnd(parse: SizeParser, data: seq<byte>, pos: nat, b: Body)
    requires pos <= |data| <= U64_MAX && WellFormedBody(b) && Reads(parse, b.lastDigits, b.lastExtension, 0)
    requires data[pos..] == PrintEnd(b)
    ensures LookIn(parse, data)(pos).Stop?
  {
    TrailersLength(b.trailers);
    NoCrInLine(b.lastDigits, b.lastExtension);
    LookAtLine(parse, data, pos, b.lastDigits + b.lastExtension, 0, PrintTrailers(b.trailers));
  }

  lemma TrailersLength(trailers: seq<seq<byte>>)
    ensures |PrintTrailers(trailers)| >= 2
  {
  }

  predicate AllUtf8(chunks: seq<Chunk>) {
    forall c :: c in chunks ==> IsUtf8(c.extension)
  }

  /**
    On a well-formed chunked body the two decoders return the same bytes if and
    only if the extension of every data chunk is valid UTF-8. (An extension may
    hold any byte but CR, and the incremental decoder skips it unread.)
    */
  lemma DecodersAgreeExactly(b: Body)
    requires WellFormedBody(b) && |Print(b)| <= U64_MAX
    ensures Run(Initial(0), Print(b)).state.Complete?
    ensures DecodedBy(ParseSize, Print(b)).Decoded?
    ensures DecodedBy(ParseSize, Print(b)) == Decoded(Emitted(Initial(0), Print(b))) <==> AllUtf8(b.chunks)
  {
    IncrementalDecodes(b);
    forall c | c in b.chunks
      ensures Reads(ParseSize, c.digits, c.extension, |c.data|) && Readable(ParseSize, c) == IsUtf8(c.extension)
    {
      SizeLineParses(c.digits, c.extension, |c.data|);
    }
    SizeLineParses(b.lastDigits, b.lastExtension, 0);
    OneShotDecodes(ParseSize, b);
    ReadablePrefixPayload(ParseSize, b.chunks);
  }

  /** One chunk of one zero byte, under an extension that is not UTF-8. */
  function Unreadable(): Body {
    Body([Chunk.Chunk([49], [SEMICOLON, 0xFF], [0])], [48], [], [])
  }

  /** A body on which the decoders differ: the incremental one finds the byte, the one-shot one nothing. */
  lemma DecodersDiffer()
    ensures WellFormedBody(Unreadable()) && !AllUtf8(Unreadable().chunks)
    ensures Emitted(Initial(0), Print(Unreadable())) == [0]
    ensures DecodedBy(ParseSize, Print(Unreadable())) == Decoded([])
  {
    var b := Unreadable();
    var c := b.chunks[0];
    assert Numeral([49], 1) && Numeral([48], 0);
    assert !IsUtf8(c.extension) by {
      assert c.extension[1..] == [0xFF];
    }
    IncrementalDecodes(b);
    SizeLineParses(c.digits, c.extension, 1);
    SizeLineParses(b.lastDigits, b.lastExtension, 0);
    OneShotDecodes(ParseSize, b);
    assert Payload(b.chunks) == [0] + Payload([]);
  }

  function LetterFs(k: nat): (s: seq<byte>)
    ensures |s| == k && forall i :: 0 <= i < k ==> s[i] == 70
  {
    seq(k, _ => 70)
  }

  lemma {:induction false} LetterFsValue(k: nat)
    ensures IsHex(LetterFs(k)) && HexNumber(LetterFs(k)) == Pow16(k) - 1
  {
    if k > 0 {
      LetterFsValue(k - 1);
      assert LetterFs(k)[..k - 1] == LetterFs(k - 1);
    }
  }

  lemma {:induction false} LargestSizeRead()
    ensures ParseSize(LetterFs(16)) == Some(U64_MAX)
  {
    var digits := LetterFs(16);
    LetterFsValue(16);
    Pow16At16();
    assert Numeral(digits, U64_MAX);
    SizeLineParses(digits, [], U64_MAX);
    assert digits + [] == digits;
  }

  lemma {:induction false} PanicsAtOnce(parse: SizeParser, digits: seq<byte>)
    requires CR !in digits && parse(digits) == Some(U64_MAX)
    ensures DecodedBy(parse, digits + CRLF + [0]).Panics?
  {
    var data := digits + CRLF + [0];
    IndexFromIs(data, 0, CR, |digits|);
    assert data[0..|digits|] == digits;
    assert LookIn(parse, data)(0).Overflow?;
  }

  /** A size line of sixteen F digits and one byte more: the one-shot decoder panics. */
  lemma {:induction false} LargestSizePanics()
    ensures DecodedBy(ParseSize, LetterFs(16) + CRLF + [0]).Panics?
  {
    LargestSizeRead();
    PanicsAtOnce(ParseSize, LetterFs(16));
  }
}
