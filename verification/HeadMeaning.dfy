/**
  What the readers of a response head find in it, said position by position and
  letter by letter, without the functions that the program itself uses: which
  fields are passed on, how the body is framed, and the status.
  */
module HeadMeaning {
  import opened Bytes
  import opened Text
  import opened HeaderNames
  import opened ResponseHead
  import opened ResponseFields
  import opened HeadText
  import opened BackendTask

  // ---------------------------------------------------------------------------
  // Names
  // ---------------------------------------------------------------------------

  /** The names that the program compares with, letter by letter. */
  lemma FramingNamesSpelled(name: seq<byte>)
    ensures EqIgnoreCase(name, TRANSFER_ENCODING) <==> Spells(name, "transfer-encoding")
    ensures EqIgnoreCase(name, CONTENT_LENGTH) <==> Spells(name, "content-length")
  {
    SpellsExactly(name, "transfer-encoding");
    SpellsExactly(name, "content-length");
  }

  lemma ContentNamesSpelled(name: seq<byte>)
    ensures EqIgnoreCase(name, CONTENT_TYPE) <==> Spells(name, "content-type")
    ensures EqIgnoreCase(name, CONTENT_ENCODING) <==> Spells(name, "content-encoding")
  {
    SpellsExactly(name, "content-type");
    SpellsExactly(name, "content-encoding");
  }

  lemma HopNamesSpelled(name: seq<byte>)
    ensures EqIgnoreCase(name, CONNECTION) <==> Spells(name, "connection")
    ensures EqIgnoreCase(name, KEEP_ALIVE) <==> Spells(name, "keep-alive")
  {
    SpellsExactly(name, "connection");
    SpellsExactly(name, "keep-alive");
  }

  predicate IsHopByHop(f: Field) {
    Spells(f.name, "transfer-encoding") || Spells(f.name, "connection") || Spells(f.name, "keep-alive")
  }

  // ---------------------------------------------------------------------------
  // Which fields are passed on
  // ---------------------------------------------------------------------------

  /** `kept` is the fields at the positions `at`, in their order. */
  ghost predicate StandAt(fields: seq<Field>, kept: seq<Field>, at: seq<nat>) {
    && |at| == |kept|
    && (forall i, j :: 0 <= i < j < |at| ==> at[i] < at[j])
    && forall i :: 0 <= i < |at| ==> at[i] < |fields| && kept[i] == fields[at[i]]
  }

  /** One more field, kept or not. */
  lemma StandAtMore(fields: seq<Field>, kept: seq<Field>, at: seq<nat>, last: Field, keep: bool)
    returns (more: seq<nat>)
    requires StandAt(fields, kept, at)
    ensures StandAt(fields + [last], kept + (if keep then [last] else []), more)
    ensures (forall j :: 0 <= j < |fields| ==> (j in more <==> j in at)) && (|fields| in more <==> keep)
  {
    more := if keep then at + [|fields|] else at;
    assert kept + [] == kept;
  }

  /** The fields that are not dropped, in order. */
  function Kept(fields: seq<Field>, drop: Field -> bool): seq<Field> {
    if fields == [] then []
    else
      var init, last := fields[..|fields| - 1], fields[|fields| - 1];
      Kept(init, drop) + if !drop(last) then [last] else []
  }

  lemma {:induction false} KeptAt(fields: seq<Field>, drop: Field -> bool) returns (at: seq<nat>)
    ensures StandAt(fields, Kept(fields, drop), at)
    ensures forall j :: 0 <= j < |fields| ==> (j in at <==> !drop(fields[j]))
    decreases |fields|
  {
    at := [];
    if fields != [] {
      var init, last := fields[..|fields| - 1], fields[|fields| - 1];
      var before := KeptAt(init, drop);
      at := StandAtMore(init, Kept(init, drop), before, last, !drop(last));
      assert fields == init + [last];
      forall j | 0 <= j < |fields| ensures j in at <==> !drop(fields[j]) {
        if j < |init| {
          assert j in before <==> !drop(init[j]);
        }
      }
    }
  }

  lemma {:induction false} ForwardedIsKept(fields: seq<Field>)
    ensures Forwarded(fields) == Kept(fields, HopByHop)
    decreases |fields|
  {
    if fields != [] {
      ForwardedIsKept(fields[..|fields| - 1]);
    }
  }

  /** The program forwards the fields that are not hop-by-hop, all of them, in order. */
  lemma {:induction false} ForwardedExactly(fields: seq<Field>) returns (at: seq<nat>)
    ensures StandAt(fields, Summary(fields).headers, at)
    ensures forall j :: 0 <= j < |fields| ==> (j in at <==> !IsHopByHop(fields[j]))
  {
    at := KeptAt(fields, HopByHop);
    ForwardedIsKept(fields);
    forall j | 0 <= j < |fields| ensures j in at <==> !IsHopByHop(fields[j]) {
      FramingNamesSpelled(fields[j].name);
      HopNamesSpelled(fields[j].name);
    }
  }

  lemma {:induction false} WithoutSnoc(fields: seq<Field>, last: Field, name: seq<byte>)
    ensures Without(fields + [last], name) == Without(fields, name) + if Named(last, name) then [] else [last]
  {
    if fields == [] {
      assert [last][1..] == [];
    } else {
      WithoutSnoc(fields[1..], last, name);
      assert (fields + [last])[1..] == fields[1..] + [last];
      Associativity(if Named(fields[0], name) then [] else [fields[0]], Without(fields[1..], name),
                    if Named(last, name) then [] else [last]);
    }
  }

  lemma {:induction false} WithoutIsKept(fields: seq<Field>, name: seq<byte>)
    ensures Without(fields, name) == Kept(fields, f => Named(f, name))
    decreases |fields|
  {
    if fields != [] {
      var init, last := fields[..|fields| - 1], fields[|fields| - 1];
      WithoutIsKept(init, name);
      WithoutSnoc(init, last, name);
      assert fields == init + [last];
    }
  }

  /** Leaving out a name leaves all other fields, in order. */
  lemma {:induction false} WithoutExactly(fields: seq<Field>, name: seq<byte>) returns (at: seq<nat>)
    ensures StandAt(fields, Without(fields, name), at)
    ensures forall j :: 0 <= j < |fields| ==> (j in at <==> !EqIgnoreCase(fields[j].name, name))
  {
    at := KeptAt(fields, f => Named(f, name));
    WithoutIsKept(fields, name);
  }

  /**
    The head of a streamed answer: the forwarded fields, and of a chunked response
    all of them but Content-Length.
    */
  lemma {:induction false} StreamedHeadersExactly(parsed: Parsed) returns (at: seq<nat>)
    ensures StandAt(parsed.headers, StreamedHeaders(parsed), at)
    ensures forall j :: 0 <= j < |parsed.headers| ==>
              (j in at <==> !(parsed.isChunked && Spells(parsed.headers[j].name, "content-length")))
  {
    if parsed.isChunked {
      at := WithoutExactly(parsed.headers, CONTENT_LENGTH);
      forall j | 0 <= j < |parsed.headers|
        ensures j in at <==> !Spells(parsed.headers[j].name, "content-length")
      {
        FramingNamesSpelled(parsed.headers[j].name);
      }
    } else {
      at := seq(|parsed.headers|, i => i);
      forall j | 0 <= j < |parsed.headers| ensures j in at {
        assert at[j] == j;
      }
    }
  }

  /**
    The head of a compressed answer: the forwarded fields but Content-Length and
    Content-Encoding, in order, and then one Content-Encoding.
    */
  lemma {:induction false} CompressedHeadersExactly(parsed: Parsed, name: seq<byte>)
    returns (kept: seq<Field>, at: seq<nat>)
    ensures CompressedHeaders(parsed, name) == kept + [Field(Ascii("content-encoding"), name)]
    ensures StandAt(parsed.headers, kept, at)
    ensures forall j :: 0 <= j < |parsed.headers| ==>
              (j in at <==> !Spells(parsed.headers[j].name, "content-length")
                            && !Spells(parsed.headers[j].name, "content-encoding"))
  {
    var once := Without(parsed.headers, CONTENT_LENGTH);
    kept := Without(once, CONTENT_ENCODING);
    var outer := WithoutExactly(parsed.headers, CONTENT_LENGTH);
    var inner := WithoutExactly(once, CONTENT_ENCODING);
    at := seq(|inner|, i requires 0 <= i < |inner| => outer[inner[i]]);
    forall j | 0 <= j < |parsed.headers|
      ensures j in at <==> !Spells(parsed.headers[j].name, "content-length")
                           && !Spells(parsed.headers[j].name, "content-encoding")
    {
      FramingNamesSpelled(parsed.headers[j].name);
      ContentNamesSpelled(parsed.headers[j].name);
      ComposedAt(outer, inner, at, j);
      if j in outer {
        var k :| 0 <= k < |outer| && outer[k] == j;
        assert once[k] == parsed.headers[j];
        OnlyOnce(outer, inner, at, k);
      }
    }
  }

  lemma ComposedAt(outer: seq<nat>, inner: seq<nat>, at: seq<nat>, j: nat)
    requires |at| == |inner| && forall i :: 0 <= i < |inner| ==> inner[i] < |outer| && at[i] == outer[inner[i]]
    ensures j in at ==> j in outer
  {
  }

  lemma OnlyOnce(outer: seq<nat>, inner: seq<nat>, at: seq<nat>, k: nat)
    requires |at| == |inner| && forall i :: 0 <= i < |inner| ==> inner[i] < |outer| && at[i] == outer[inner[i]]
    requires (forall i, j :: 0 <= i < j < |outer| ==> outer[i] < outer[j]) && k < |outer|
    ensures outer[k] in at <==> k in inner
  {
    if k in inner {
      var i :| 0 <= i < |inner| && inner[i] == k;
      assert at[i] == outer[k];
    }
    if outer[k] in at {
      var i :| 0 <= i < |at| && at[i] == outer[k];
      assert inner[i] == k;
    }
  }

  // ---------------------------------------------------------------------------
  // How the body is framed
  // ---------------------------------------------------------------------------

  /** The last seven bytes spell "chunked". */
  predicate EndsInChunked(value: seq<byte>) {
    |value| >= 7 && Spells(value[|value| - 7..], "chunked")
  }

  lemma {:induction false} ChunkedSpelled(value: seq<byte>)
    ensures EndsWith(Lowercase(value), CHUNKED) <==> EndsInChunked(value)
  {
    assert |CHUNKED| == 7;
    if |value| >= 7 {
      var tail := value[|value| - 7..];
      assert Lowercase(value)[|value| - 7..] == Lowercase(tail);
      SpellsExactly(tail, "chunked");
      assert Lowercase(CHUNKED) == CHUNKED;
    }
  }

  predicate SaysChunked(f: Field) {
    Spells(f.name, "transfer-encoding") && EndsInChunked(f.value)
  }

  /** The body counts as chunked if and only if some Transfer-Encoding ends in "chunked". */
  lemma {:induction false} ChunkedExactly(fields: seq<Field>)
    ensures Summary(fields).isChunked <==>
            exists i :: 0 <= i < |fields| && SaysChunked(fields[i])
  {
    forall f: Field ensures AnnouncesChunked(f) <==> SaysChunked(f) {
      FramingNamesSpelled(f.name);
      ChunkedSpelled(f.value);
    }
    if Summary(fields).isChunked {
      var f :| f in fields && AnnouncesChunked(f);
      var i :| 0 <= i < |fields| && fields[i] == f;
      assert SaysChunked(fields[i]);
    }
    if i :| 0 <= i < |fields| && SaysChunked(fields[i]) {
      assert fields[i] in fields && AnnouncesChunked(fields[i]);
    }
  }

  /** A Content-Length that can be read as text at all. */
  predicate GivesLength(f: Field) {
    Spells(f.name, "content-length") && IsUtf8(f.value)
  }

  lemma LastLengthStep(fields: seq<Field>, last: Field)
    ensures LastLength(fields + [last]) ==
            if SetsLength(last) then ParseUnsigned(Trim(last.value), 10, U64_MAX) else LastLength(fields)
  {
    assert (fields + [last])[..|fields|] == fields;
  }

  lemma {:induction false} LastLengthIs(fields: seq<Field>, i: nat)
    requires i < |fields| && SetsLength(fields[i])
    requires forall j :: i < j < |fields| ==> !SetsLength(fields[j])
    ensures LastLength(fields) == ParseUnsigned(Trim(fields[i].value), 10, U64_MAX)
    decreases |fields|
  {
    var n := |fields| - 1;
    LastLengthStep(fields[..n], fields[n]);
    assert fields == fields[..n] + [fields[n]];
    if i < n {
      LastLengthIs(fields[..n], i);
    }
  }

  lemma {:induction false} NoLength(fields: seq<Field>)
    requires forall i :: 0 <= i < |fields| ==> !SetsLength(fields[i])
    ensures LastLength(fields) == None
    decreases |fields|
  {
    if fields != [] {
      var n := |fields| - 1;
      LastLengthStep(fields[..n], fields[n]);
      assert fields == fields[..n] + [fields[n]];
      NoLength(fields[..n]);
    }
  }

  lemma {:induction false} LengthSpelled(fields: seq<Field>)
    ensures forall i :: 0 <= i < |fields| ==> (GivesLength(fields[i]) <==> SetsLength(fields[i]))
  {
    forall i | 0 <= i < |fields| ensures GivesLength(fields[i]) <==> SetsLength(fields[i]) {
      FramingNamesSpelled(fields[i].name);
    }
  }

  /** The length is that of the last such field. */
  lemma {:induction false} LengthExactly(fields: seq<Field>, i: nat)
    requires i < |fields| && GivesLength(fields[i]) && forall j :: i < j < |fields| ==> !GivesLength(fields[j])
    ensures Summary(fields).contentLength == ParseUnsigned(Trim(fields[i].value), 10, U64_MAX)
  {
    LengthSpelled(fields);
    LastLengthIs(fields, i);
  }

  /** There is no length without such a field. */
  lemma {:induction false} LengthAbsent(fields: seq<Field>)
    requires forall i :: 0 <= i < |fields| ==> !GivesLength(fields[i])
    ensures Summary(fields).contentLength == None
  {
    LengthSpelled(fields);
    NoLength(fields);
  }

  /** The last Content-Length is this number. */
  predicate SaysLength(fields: seq<Field>, i: nat, n: nat) {
    && i < |fields| && Spells(fields[i].name, "content-length") && fields[i].value == Decimal(n)
    && forall j :: i < j < |fields| ==> !Spells(fields[j].name, "content-length")
  }

  /** A decimal number in the last Content-Length is the length, as far as it fits 64 bits. */
  lemma {:induction false} DecimalLength(fields: seq<Field>, i: nat, n: nat)
    requires SaysLength(fields, i, n)
    ensures Summary(fields).contentLength == if n <= U64_MAX then Some(n) else None
  {
    DecimalParses(n, U64_MAX);
    LengthExactly(fields, i);
  }

  /** The value kept of a name is that of the last field of this name. */
  lemma {:induction false} LastValueExactly(fields: seq<Field>, name: seq<byte>, i: nat)
    requires i < |fields| && EqIgnoreCase(fields[i].name, name)
    requires forall j :: i < j < |fields| ==> !EqIgnoreCase(fields[j].name, name)
    ensures LastValue(fields, name) == Some(fields[i].value)
    decreases |fields|
  {
    var n := |fields| - 1;
    if i < n {
      assert !EqIgnoreCase(fields[n].name, name);
      LastValueExactly(fields[..n], name, i);
    }
  }

  /** Chunked beats any length, and a length beats the end of the connection. */
  lemma FramingExactly(fields: seq<Field>)
    ensures var parsed := Summary(fields);
            parsed.Framing() == if parsed.isChunked then Framing.Chunked
                                else if parsed.contentLength.Some? then Length(parsed.contentLength.value)
                                else UntilEof
  {
  }

  // ---------------------------------------------------------------------------
  // The status
  // ---------------------------------------------------------------------------

  predicate IsDigit(b: byte) {
    48 <= b <= 57
  }

  lemma {:induction false} FirstWord(word: seq<byte>, rest: seq<byte>)
    requires SPACE !in word
    ensures Split(word + [SPACE] + rest, SPACE) == [word] + Split(rest, SPACE)
  {
    var s := word + [SPACE] + rest;
    IndexFromIs(s, 0, SPACE, |word|);
    assert s[..|word|] == word && s[|word| + 1..] == rest;
  }

  lemma {:induction false} FirstLineIs(line: seq<byte>, rest: seq<byte>)
    requires LF !in line
    ensures rest == [] || rest[0] == LF ==> Split(line + rest, LF)[0] == line
  {
    var s := line + rest;
    if rest == [] || rest[0] == LF {
      IndexFromIs(s, 0, LF, |line|);
      assert s[..|line|] == line;
    }
  }

  lemma NonEmptyFirst(word: seq<byte>, words: seq<seq<byte>>)
    requires word != []
    ensures NonEmpty([word] + words) == [word] + NonEmpty(words)
  {
    assert ([word] + words)[1..] == words;
  }

  lemma {:induction false} SecondOf(a: seq<byte>, b: seq<byte>, tail: seq<seq<byte>>)
    requires a != [] && b != []
    ensures var words := NonEmpty([a] + ([b] + tail)); |words| >= 2 && words[1] == b
  {
    NonEmptyFirst(a, [b] + tail);
    NonEmptyFirst(b, tail);
  }

  lemma {:induction false} TwoWords(a: seq<byte>, b: seq<byte>, rest: seq<byte>)
    requires SPACE !in a && SPACE !in b
    ensures Split(a + [SPACE] + (b + [SPACE] + rest), SPACE) == [a] + ([b] + Split(rest, SPACE))
  {
    FirstWord(a, b + [SPACE] + rest);
    FirstWord(b, rest);
  }

  lemma {:induction false} NextDigit(s: seq<byte>, b: byte, high: nat, max: nat)
    requires DigitsValue(s, 10, max) == Some(high) && IsDigit(b) && high * 10 + (b - 48) <= max
    ensures DigitsValue(s + [b], 10, max) == Some(high * 10 + (b - 48))
  {
    assert (s + [b])[..|s|] == s;
  }

  lemma {:induction false} DigitsAreText(s: seq<byte>)
    requires s != [] && forall i :: 0 <= i < |s| ==> IsDigit(s[i])
    ensures IsUtf8(s) && Trim(s) == s
    ensures ParseUnsigned(s, 10, U16_MAX) == DigitsValue(s, 10, U16_MAX)
  {
    AsciiPrefixUtf8(s, []);
    TrimKeepsGraphicPrefix(s, []);
    assert s + [] == s;
    assert IsDigit(s[0]);
  }

  lemma {:induction false} ThreeDigits(x: byte, y: byte, z: byte)
    requires IsDigit(x) && IsDigit(y) && IsDigit(z)
    ensures DigitsValue([x] + [y] + [z], 10, U16_MAX) == Some(100 * (x - 48) + 10 * (y - 48) + (z - 48))
  {
    NextDigit([], x, 0, U16_MAX);
    assert [] + [x] == [x];
    NextDigit([x], y, x - 48, U16_MAX);
    NextDigit([x] + [y], z, 10 * (x - 48) + (y - 48), U16_MAX);
  }

  /** "version ddd reason". */
  function StatusLine(version: seq<byte>, x: byte, y: byte, z: byte, reason: seq<byte>): seq<byte> {
    version + [SPACE] + ([x, y, z] + [SPACE] + reason)
  }

  /** The status is read from the second word of the first line. */
  lemma {:induction false} StatusWord(version: seq<byte>, word: seq<byte>, reason: seq<byte>, rest: seq<byte>)
    requires version != [] && SPACE !in version && LF !in version && LF !in reason
    requires word != [] && SPACE !in word && LF !in word && (rest == [] || rest[0] == LF)
    ensures ParseStatusCode(version + [SPACE] + (word + [SPACE] + reason) + rest) ==
            if IsUtf8(word) then ParseUnsigned(Trim(word), 10, U16_MAX) else None
  {
    FirstLineIs(version + [SPACE] + (word + [SPACE] + reason), rest);
    TwoWords(version, word, reason);
    SecondOf(version, word, Split(reason, SPACE));
  }

  /** The status of "version ddd reason" is ddd, whatever follows the line. */
  lemma {:induction false} StatusExactly(
    version: seq<byte>, x: byte, y: byte, z: byte, reason: seq<byte>, rest: seq<byte>)
    requires version != [] && SPACE !in version && LF !in version && LF !in reason
    requires IsDigit(x) && IsDigit(y) && IsDigit(z) && (rest == [] || rest[0] == LF)
    ensures StatusOf(StatusLine(version, x, y, z, reason) + rest) == 100 * (x - 48) + 10 * (y - 48) + (z - 48)
  {
    StatusWord(version, [x, y, z], reason, rest);
    ThreeDigits(x, y, z);
    assert [x] + [y] + [z] == [x, y, z];
    DigitsAreText([x, y, z]);
  }

  /** Any decimal number is the status, and one past 16 bits counts as unreadable, which gives 502. */
  lemma {:induction false} StatusDecimal(version: seq<byte>, n: nat, reason: seq<byte>)
    requires version != [] && SPACE !in version && LF !in version && LF !in reason
    ensures StatusOf(version + [SPACE] + (Decimal(n) + [SPACE] + reason)) == if n <= 65535 then n else 502
  {
    StatusWord(version, Decimal(n), reason, []);
    DecimalParses(n, U16_MAX);
    var line := version + [SPACE] + (Decimal(n) + [SPACE] + reason);
    assert line + [] == line;
  }

  /** The status of a whole head, up to its blank line. */
  lemma {:induction false} HeadStatus(
    version: seq<byte>, x: byte, y: byte, z: byte, reason: seq<byte>, lines: seq<seq<byte>>)
    requires version != [] && SPACE !in version && LF !in version && LF !in reason
    requires IsDigit(x) && IsDigit(y) && IsDigit(z)
    ensures StatusOf(Joined([StatusLine(version, x, y, z, reason)] + lines)) ==
            100 * (x - 48) + 10 * (y - 48) + (z - 48)
  {
    var line := StatusLine(version, x, y, z, reason);
    if lines == [] {
      assert Joined([line] + lines) == line == line + [];
      StatusExactly(version, x, y, z, reason, []);
    } else {
      assert ([line] + lines)[1..] == lines;
      assert Joined([line] + lines) == StatusLine(version, x, y, z, reason + [CR]) + ([LF] + Joined(lines));
      StatusExactly(version, x, y, z, reason + [CR], [LF] + Joined(lines));
    }
  }

  /** The head is dropped, and what follows it looked at in its place, exactly for 100 and 102 to 199. */
  ghost predicate DrainedOr(
    reader: StatusReader, line: seq<byte>, fields: seq<Field>, rest: seq<byte>, status: nat)
  {
    var text := line + CRLF + Lines(FieldTexts(fields));
    Settle(reader, text + CRLF + rest) ==
    if status == 100 || 102 <= status <= 199 then Settle(reader, rest)
    else Settled(text + CRLF + rest, Some(|text| - 2))
  }

  lemma SettleOne(reader: StatusReader, data: seq<byte>, p: nat, rest: seq<byte>, status: nat)
    requires HeaderEnd(data) == Some(p) && reader(data[..p]) == status && data[p + 4..] == rest
    ensures Settle(reader, data) ==
            if status == 100 || 102 <= status <= 199 then Settle(reader, rest) else Settled(data, Some(p))
  {
  }

  lemma {:induction false} DrainedOrKept(
    reader: StatusReader, line: seq<byte>, fields: seq<Field>, rest: seq<byte>, status: nat)
    requires LF !in line && (forall i :: 0 <= i < |fields| ==> IsField(fields[i]))
    requires reader(Joined([line] + FieldTexts(fields))) == status
    ensures DrainedOr(reader, line, fields, rest, status)
  {
    var text := line + CRLF + Lines(FieldTexts(fields));
    PrintedHeadCut(line, fields, rest);
    SettleOne(reader, text + CRLF + rest, |text| - 2, rest, status);
  }

  lemma StatusLineUnbroken(version: seq<byte>, x: byte, y: byte, z: byte, reason: seq<byte>)
    requires LF !in version && LF !in reason && IsDigit(x) && IsDigit(y) && IsDigit(z)
    ensures LF !in StatusLine(version, x, y, z, reason)
  {
  }

  /** A response head is drained as interim exactly for the statuses 100 and 102 to 199. */
  lemma {:induction false} DrainedExactly(
    version: seq<byte>, x: byte, y: byte, z: byte, reason: seq<byte>, fields: seq<Field>, rest: seq<byte>)
    requires version != [] && SPACE !in version && LF !in version && LF !in reason
    requires IsDigit(x) && IsDigit(y) && IsDigit(z) && forall i :: 0 <= i < |fields| ==> IsField(fields[i])
    ensures DrainedOr(StatusOf, StatusLine(version, x, y, z, reason), fields, rest,
                      100 * (x - 48) + 10 * (y - 48) + (z - 48))
  {
    var line := StatusLine(version, x, y, z, reason);
    StatusLineUnbroken(version, x, y, z, reason);
    HeadStatus(version, x, y, z, reason, FieldTexts(fields));
    DrainedOrKept(StatusOf, line, fields, rest, 100 * (x - 48) + 10 * (y - 48) + (z - 48));
  }

  /**
    What the parser makes of a printed head: the fields that are not hop-by-hop,
    in order; whether a Transfer-Encoding ends in "chunked"; and the length in the
    last Content-Length, if it is a decimal number.
    */
  lemma {:induction false} PrintedHeadMeaning(start: seq<byte>, fields: seq<Field>) returns (at: seq<nat>)
    requires LF !in start && forall i :: 0 <= i < |fields| ==> IsField(fields[i])
    ensures var parsed := ParsedHead(start + CRLF + Lines(FieldTexts(fields)));
            && StandAt(fields, parsed.headers, at)
            && (forall j :: 0 <= j < |fields| ==> (j in at <==> !IsHopByHop(fields[j])))
            && (parsed.isChunked <==> exists i :: 0 <= i < |fields| && SaysChunked(fields[i]))
            && (forall i: nat, n: nat :: SaysLength(fields, i, n) ==>
                  parsed.contentLength == if n <= U64_MAX then Some(n) else None)
  {
    ParserRoundTrip(start, fields);
    at := ForwardedExactly(fields);
    ChunkedExactly(fields);
    forall i: nat, n: nat | SaysLength(fields, i, n)
      ensures Summary(fields).contentLength == if n <= U64_MAX then Some(n) else None
    {
      DecimalLength(fields, i, n);
    }
  }
}
