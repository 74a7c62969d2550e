/**
  What the one-shot decoder forgives: a body that is cut off anywhere, and blanks
  around the size of a chunk.
  */
module OneShotLeniency {
  import opened Bytes
  import opened Text
  import opened OneShotDecoding
  import opened ChunkedDecoding
  import opened DecoderAgreement

  // ---------------------------------------------------------------------------
  // A body cut off in a chunk
  // ---------------------------------------------------------------------------

  /** The decoder reads the size line of every chunk as the length of its data. */
  predicate ReadsSizes(parse: SizeParser, chunks: seq<Chunk>) {
    forall c :: c in chunks ==> WellFormedChunk(c) && parse(c.digits + c.extension) == Some(|c.data|)
  }

  lemma OnePassed(parse: SizeParser, look: Lookup, data: seq<byte>, pos: nat, c: Chunk, result: seq<byte>)
    requires SeesOne(parse, look, data, pos, c) && Readable(parse, c)
    ensures pos + |PrintChunk(c)| <= |data|
    ensures OneShot(look, data, pos, result) == OneShot(look, data, pos + |PrintChunk(c)|, result + c.data)
  {
  }

  /** The chunks as the decoder finds them from `pos` on, all readable. */
  predicate Passes(parse: SizeParser, look: Lookup, data: seq<byte>, pos: nat, chunks: seq<Chunk>)
    decreases |chunks|
  {
    if chunks == [] then pos <= |data|
    else
      && SeesOne(parse, look, data, pos, chunks[0]) && Readable(parse, chunks[0])
      && Passes(parse, look, data, pos + |PrintChunk(chunks[0])|, chunks[1..])
  }

  lemma PassesMore(parse: SizeParser, look: Lookup, data: seq<byte>, pos: nat, chunks: seq<Chunk>)
    requires chunks != [] && SeesOne(parse, look, data, pos, chunks[0]) && Readable(parse, chunks[0])
    requires Passes(parse, look, data, pos + |PrintChunk(chunks[0])|, chunks[1..])
    ensures Passes(parse, look, data, pos, chunks)
  {
  }

  lemma {:induction false} PassedOver(
    parse: SizeParser, look: Lookup, data: seq<byte>, pos: nat, chunks: seq<Chunk>, result: seq<byte>)
    requires Passes(parse, look, data, pos, chunks)
    ensures pos <= |data| && pos + |PrintChunks(chunks)| <= |data|
    ensures OneShot(look, data, pos, result) ==
            OneShot(look, data, pos + |PrintChunks(chunks)|, result + Payload(chunks))
    decreases |chunks|
  {
    if chunks == [] {
      assert result + [] == result;
    } else {
      var c, rest := chunks[0], chunks[1..];
      OnePassed(parse, look, data, pos, c, result);
      PassedOver(parse, look, data, pos + |PrintChunk(c)|, rest, result + c.data);
      Associativity(result, c.data, Payload(rest));
    }
  }

  lemma {:induction false} PrintedPasses(
    parse: SizeParser, look: Lookup, data: seq<byte>, pos: nat, chunks: seq<Chunk>, tail: seq<byte>)
    requires look == LookIn(parse, data) && pos <= |data| <= U64_MAX && ReadsSizes(parse, chunks)
    requires data[pos..] == PrintChunks(chunks) + tail
    ensures Passes(parse, look, data, pos, chunks)
    decreases |chunks|
  {
    if chunks != [] {
      var c, rest := chunks[0], chunks[1..];
      assert c in chunks && forall x :: x in rest ==> x in chunks;
      Associativity(PrintChunk(c), PrintChunks(rest), tail);
      LookAtChunk(parse, data, pos, c, PrintChunks(rest) + tail);
      PrintedPasses(parse, look, data, pos + |PrintChunk(c)|, rest, tail);
      PassesMore(parse, look, data, pos, chunks);
    }
  }

  /** A size line that is not followed by any data is not looked at. */
  lemma {:induction false} LookAtCutLine(parse: SizeParser, data: seq<byte>, pos: nat, text: seq<byte>, k: nat)
    requires pos <= |data| && CR !in text && k <= |text| + 2 && data[pos..] == (text + CRLF)[..k]
    ensures Look(parse, data, pos).Stop?
  {
    var cr := pos + Min(k, |text|);
    assert forall i :: pos <= i < cr ==> data[i] == data[pos..][i - pos] == text[i - pos];
    assert k > |text| ==> data[cr] == data[pos..][|text|] == CR;
    IndexFromIs(data, pos, CR, cr);
  }

  /** Data that ends before its chunk does is taken as far as it goes. */
  lemma {:induction false} LookAtCutData(
    parse: SizeParser, data: seq<byte>, pos: nat, text: seq<byte>, n: nat, part: seq<byte>)
    requires pos <= |data| && CR !in text && parse(text) == Some(n) && part != []
    requires data[pos..] == text + CRLF + part && pos + |text| + 2 + n <= U64_MAX && |part| <= n + 2
    ensures var start := pos + |text| + 2;
            n > 0 ==>
              Look(parse, data, pos) ==
              NextChunk.Chunk(start, start + Min(n, |part|), start + if |part| == n + 2 then n + 2 else Min(n, |part|))
  {
    var cr := pos + |text|;
    assert forall k :: pos <= k < cr ==> data[k] == data[pos..][k - pos] == text[k - pos];
    assert data[cr] == data[pos..][|text|] == CR;
    assert data[pos..cr] == text;
    IndexFromIs(data, pos, CR, cr);
  }

  /** At the end of the data, or at a last CR, decoding stops. */
  lemma LookAtNothing(parse: SizeParser, data: seq<byte>, pos: nat)
    requires pos <= |data| && (data[pos..] == [] || data[pos..] == [CR]) && parse([]) == None
    ensures Look(parse, data, pos).Stop?
  {
    if pos < |data| {
      assert data[pos] == data[pos..][0];
      assert data[pos..pos] == [];
    }
  }

  lemma StopsAt(look: Lookup, data: seq<byte>, pos: nat, result: seq<byte>)
    requires pos <= |data| && look(pos).Stop?
    ensures OneShot(look, data, pos, result) == Decoded(result)
  {
  }

  lemma TakesOne(look: Lookup, data: seq<byte>, pos: nat, c: NextChunk, result: seq<byte>)
    requires pos <= |data| && look(pos) == c && Ahead(c, pos, data) && look(c.next).Stop?
    ensures OneShot(look, data, pos, result) == Decoded(result + data[c.start..c.end])
  {
    StopsAt(look, data, c.next, result + data[c.start..c.end]);
  }

  lemma {:induction false} CutData(
    parse: SizeParser, data: seq<byte>, pos: nat, text: seq<byte>, content: seq<byte>, k: nat, result: seq<byte>)
    requires pos <= |data| && CR !in text && parse(text) == Some(|content|) && parse([]) == None
    requires 0 < k <= |content| + 2 && content != [] && data[pos..] == text + CRLF + (content + CRLF)[..k]
    requires pos + |text| + 2 + |content| <= U64_MAX
    ensures OneShot(LookIn(parse, data), data, pos, result) == Decoded(result + content[..Min(k, |content|)])
  {
    var n, part, start := |content|, (content + CRLF)[..k], pos + |text| + 2;
    LookAtCutData(parse, data, pos, text, n, part);
    var c := Look(parse, data, pos);
    SliceOfDrop(data, pos, |text| + 2, |text| + 2 + Min(k, n));
    SliceOfDrop(data, pos, c.next - pos, |data| - pos);
    assert data[c.start..c.end] == part[..Min(k, n)] == content[..Min(k, n)];
    assert data[c.next..] == if k == n + 1 then [CR] else [];
    LookAtNothing(parse, data, c.next);
    TakesOne(LookIn(parse, data), data, pos, c, result);
  }

  /** How much of the data of a chunk lies in its first k bytes. */
  function DataWithin(c: Chunk, k: nat): nat {
    Min(Max(k - |Line(c.digits, c.extension)|, 0), |c.data|)
  }

  /** The first k bytes of a printed chunk, by where the cut falls. */
  lemma PrefixOfChunk(c: Chunk, k: nat)
    requires k <= |PrintChunk(c)|
    ensures var line := Line(c.digits, c.extension);
            PrintChunk(c)[..k] == if k <= |line| then line[..k] else line + (c.data + CRLF)[..k - |line|]
  {
  }

  lemma {:induction false} CutChunk(
    parse: SizeParser, data: seq<byte>, pos: nat, c: Chunk, k: nat, result: seq<byte>)
    requires pos <= |data| && WellFormedChunk(c) && parse(c.digits + c.extension) == Some(|c.data|)
    requires parse([]) == None && k <= |PrintChunk(c)| && data[pos..] == PrintChunk(c)[..k]
    requires pos + |PrintChunk(c)| <= U64_MAX
    ensures OneShot(LookIn(parse, data), data, pos, result) == Decoded(result + c.data[..DataWithin(c, k)])
  {
    var text := c.digits + c.extension;
    NoCrInLine(c.digits, c.extension);
    PrefixOfChunk(c, k);
    if k <= |text| + 2 {
      LookAtCutLine(parse, data, pos, text, k);
      StopsAt(LookIn(parse, data), data, pos, result);
      assert result + [] == result;
    } else {
      CutData(parse, data, pos, text, c.data, k - |text| - 2, result);
    }
  }

  /**
    A body cut off anywhere in one of its chunks yields the chunks before it and as
    much of its data as is there.
    */
  lemma {:induction false} CutBody(parse: SizeParser, chunks: seq<Chunk>, c: Chunk, k: nat)
    requires ReadsSizes(parse, chunks + [c]) && parse([]) == None && k <= |PrintChunk(c)|
    requires |PrintChunks(chunks)| + |PrintChunk(c)| <= U64_MAX
    ensures DecodedBy(parse, PrintChunks(chunks) + PrintChunk(c)[..k]) ==
            Decoded(Payload(chunks) + c.data[..DataWithin(c, k)])
  {
    var front, part := PrintChunks(chunks), PrintChunk(c)[..k];
    var data := front + part;
    var look := LookIn(parse, data);
    assert c in chunks + [c] && forall x :: x in chunks ==> x in chunks + [c];
    assert data[0..] == data && data[|front|..] == part;
    PrintedPasses(parse, look, data, 0, chunks, part);
    CutChunk(parse, data, |front|, c, k, Payload(chunks));
    PassedThen(parse, look, data, chunks, Payload(chunks) + c.data[..DataWithin(c, k)]);
  }

  lemma {:induction false} PassedThen(
    parse: SizeParser, look: Lookup, data: seq<byte>, chunks: seq<Chunk>, body: seq<byte>)
    requires Passes(parse, look, data, 0, chunks) && |PrintChunks(chunks)| <= |data|
    requires OneShot(look, data, |PrintChunks(chunks)|, Payload(chunks)) == Decoded(body)
    ensures OneShot(look, data, 0, []) == Decoded(body)
  {
    PassedOver(parse, look, data, 0, chunks, []);
    assert [] + Payload(chunks) == Payload(chunks);
  }

  lemma NoSizeInNothing()
    ensures ParseSize([]) == None
  {
  }

  /** The same of the decoder as it is, when the extensions are valid UTF-8. */
  lemma {:induction false} CutBodyDecodes(chunks: seq<Chunk>, c: Chunk, k: nat)
    requires forall x :: x in chunks + [c] ==> WellFormedChunk(x) && IsUtf8(x.extension)
    requires k <= |PrintChunk(c)| && |PrintChunks(chunks)| + |PrintChunk(c)| <= U64_MAX
    ensures DecodedBy(ParseSize, PrintChunks(chunks) + PrintChunk(c)[..k]) ==
            Decoded(Payload(chunks) + c.data[..DataWithin(c, k)])
  {
    forall x | x in chunks + [c] ensures ParseSize(x.digits + x.extension) == Some(|x.data|) {
      SizeLineParses(x.digits, x.extension, |x.data|);
    }
    NoSizeInNothing();
    CutBody(ParseSize, chunks, c, k);
  }

  // ---------------------------------------------------------------------------
  // Blanks around the size
  // ---------------------------------------------------------------------------

  predicate Blanks(s: seq<byte>) {
    forall i :: 0 <= i < |s| ==> s[i] == 32 || s[i] == 9
  }

  lemma {:induction false} LeadingBlanks(a: seq<byte>, s: seq<byte>)
    requires Blanks(a)
    ensures TrimStart(a + s) == TrimStart(s)
  {
    if a == [] {
      assert a + s == s;
    } else {
      assert (a + s)[1..] == a[1..] + s;
      LeadingBlanks(a[1..], s);
    }
  }

  lemma {:induction false} TrailingBlanks(s: seq<byte>, b: seq<byte>)
    requires Blanks(b)
    ensures TrimEnd(s + b) == TrimEnd(s)
    decreases |b|
  {
    if b == [] {
      assert s + b == s;
    } else {
      var text, init := s + b, b[..|b| - 1];
      assert text[|text| - 1..] == [b[|b| - 1]];
      assert text[..|text| - 1] == s + init;
      TrailingBlanks(s, init);
    }
  }

  lemma BlanksAreAscii(s: seq<byte>)
    requires Blanks(s)
    ensures AllAscii(s) && SEMICOLON !in s
  {
  }

  /** A numeral with a blank behind it is none. */
  lemma {:induction false} BlankIsNoDigit(digits: seq<byte>, b: seq<byte>)
    requires Blanks(b) && b != [] && digits != [] && digits[0] != 43
    ensures ParseUnsigned(digits + b, 16, U64_MAX) == None
  {
    var s := digits + b;
    assert s[|s| - 1] == b[|b| - 1];
    assert DigitValue(s[|s| - 1], 16) == None;
  }

  lemma {:induction false} TrimmedBlanks(a: seq<byte>, digits: seq<byte>, b: seq<byte>)
    requires Blanks(a) && Blanks(b) && digits != [] && IsHex(digits)
    ensures Trim(a + digits + b) == digits
  {
    TrimmedPlain(digits);
    HexIsGraphic(digits);
    Associativity(a, digits, b);
    LeadingBlanks(a, digits + b);
    GraphicStartKept(digits + b);
    GraphicStartKept(digits);
    TrailingBlanks(digits, b);
  }

  lemma {:induction false} TrimmedBeforeSemicolon(a: seq<byte>, digits: seq<byte>, b: seq<byte>, extension: seq<byte>)
    requires Blanks(a) && Blanks(b) && digits != [] && IsHex(digits) && extension != [] && extension[0] == SEMICOLON
    ensures digits + b + [SEMICOLON] <= Trim(a + digits + b + extension)
  {
    HexIsGraphic(digits);
    var numeral, rest := digits + b, extension[1..];
    var s := numeral + [SEMICOLON] + rest;
    assert extension == [SEMICOLON] + rest;
    Associativity(numeral, [SEMICOLON], rest);
    Associativity(a, digits, b);
    Associativity(a, numeral, extension);
    LeadingBlanks(a, s);
    GraphicStartKept(s);
    TrimEndStops(numeral, SEMICOLON, rest);
  }

  /**
    Blanks in front of a size do not matter, and blanks behind it only when an
    extension follows: the line is trimmed before it is cut at the semicolon, so
    a blank in front of the semicolon makes the size unreadable.
    */
  lemma {:induction false} BlanksAroundSize(
    a: seq<byte>, digits: seq<byte>, b: seq<byte>, extension: seq<byte>, n: nat)
    requires Blanks(a) && Numeral(digits, n) && Blanks(b) && Extension(extension) && IsUtf8(extension)
    ensures ParseSize(a + digits + b + extension) == if b != [] && extension != [] then None else Some(n)
  {
    var line := a + digits + b + extension;
    HexIsGraphic(digits);
    BlanksAreAscii(a);
    BlanksAreAscii(b);
    AsciiPrefixUtf8(a + digits + b, extension);
    HexNumberValue(digits, U64_MAX);
    assert IsHexDigit(digits[0]);
    if extension == [] {
      assert line == a + digits + b;
      TrimmedBlanks(a, digits, b);
      UpToSemicolon(digits, digits);
    } else {
      TrimmedBeforeSemicolon(a, digits, b, extension);
      UpToSemicolon(digits + b, Trim(line));
      if b == [] {
        assert digits + b == digits;
      } else {
        BlankIsNoDigit(digits, b);
      }
    }
  }
}
