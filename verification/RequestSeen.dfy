/**
  What a backend makes of a request that the HTTP/3 backend task has written,
  reading the wire on its own: it looks for the blank line, reads the fields,
  decides the framing, and decodes what follows.
  */
module RequestSeen {
  import opened Bytes
  import opened ResponseHead
  import opened ResponseFields
  import opened HeadText
  import opened RequestFraming
  import opened ChunkedDecoding
  import opened ChunkedEncoding
  import ChunkedLimits
  import opened BackendUpload

  function HeadersOf(fields: seq<Field>): (headers: seq<Header>)
    ensures |headers| == |fields|
    ensures forall i :: 0 <= i < |fields| ==> headers[i] == Header(fields[i].name, fields[i].value)
  {
    seq(|fields|, i requires 0 <= i < |fields| => Header(fields[i].name, fields[i].value))
  }

  /** None of these lines says anything about the framing. */
  predicate LeavesFramingOpen(lines: seq<seq<byte>>) {
    forall f :: f in Fields(lines) ==> !Spells(f.name, "content-length") && !Spells(f.name, "transfer-encoding")
  }

  /**
    A backend finds the end of the head and in it the fields of the given lines. A
    request with a first frame is chunked, and what decodes is a prefix of the
    frames, complete if and only if the body ended and all of it arrived; any other
    request has no body and ends with its head.
    */
  ghost predicate Understood(
    wire: seq<byte>, lines: seq<seq<byte>>, hasRequestBody: bool, frames: seq<seq<byte>>, closed: bool)
  {
    && HeaderEnd(wire).Some?
    && var p := HeaderEnd(wire).value;
       var fields, body := Fields(FieldLines(wire[..p])), wire[p + 4..];
       && Fields(lines) <= fields
       && if hasRequestBody && frames != [] then
            && Classify(HeadersOf(fields)) == Accept(RequestFraming.Chunked)
            && Emitted(Initial(0), body) <= Flatten(frames)
            && !Run(Initial(0), body).state.SizeLimitExceeded?
            && (Run(Initial(0), body).state.Complete? <==> closed && body == Encode(frames))
            && (Run(Initial(0), body).state.Complete? ==> Emitted(Initial(0), body) == Flatten(frames))
          else Classify(HeadersOf(fields)) == Accept(ContentLength) && fields == Fields(lines) && body == []
  }

  // ---------------------------------------------------------------------------
  // The header that announces the chunks
  // ---------------------------------------------------------------------------

  lemma ChunkedHeaderLine()
    ensures var f := Field(Ascii("Transfer-Encoding"), Ascii("chunked"));
            && CHUNKED_HEADER == FieldLine(f) + CRLF + CRLF && IsField(f)
            && Spells(f.name, "transfer-encoding")
  {
  }

  lemma {:induction false} ChunkedValue()
    ensures EndsInChunked(Ascii("chunked")) && !NoToken(Ascii("chunked"))
  {
    var value := Ascii("chunked");
    assert LastTokenAt(value, 0, 0, 7);
    assert value[0..7] == value;
  }

  lemma {:induction false} ChunkedHeadText(lines: seq<seq<byte>>, f: Field)
    ensures Lines(lines + [FieldLine(f)]) + CRLF == Lines(lines) + (FieldLine(f) + CRLF + CRLF)
  {
    LinesConcat(lines, [FieldLine(f)]);
    assert [FieldLine(f)][1..] == [];
    assert Lines([FieldLine(f)]) == FieldLine(f) + CRLF + [] == FieldLine(f) + CRLF;
    Associativity(Lines(lines), FieldLine(f) + CRLF, CRLF);
  }

  // ---------------------------------------------------------------------------
  // The framing that the fields announce
  // ---------------------------------------------------------------------------

  lemma {:induction false} OpenFraming(fields: seq<Field>)
    requires forall f :: f in fields ==> !Spells(f.name, "content-length") && !Spells(f.name, "transfer-encoding")
    ensures Classify(HeadersOf(fields)) == Accept(ContentLength)
    ensures !SomeLength(HeadersOf(fields)) && !SomeEncoding(HeadersOf(fields))
  {
    var headers := HeadersOf(fields);
    forall i | 0 <= i < |headers| ensures !NamesLength(headers[i]) && !NamesEncoding(headers[i]) {
      assert fields[i] in fields;
    }
    VerdictExactly(headers);
  }

  lemma {:induction false} ChunkedFraming(fields: seq<Field>, f: Field)
    requires forall g :: g in fields ==> !Spells(g.name, "content-length") && !Spells(g.name, "transfer-encoding")
    requires Spells(f.name, "transfer-encoding") && !NoToken(f.value) && EndsInChunked(f.value)
    ensures Classify(HeadersOf(fields + [f])) == Accept(RequestFraming.Chunked)
  {
    var headers, n := HeadersOf(fields + [f]), |fields|;
    OpenFraming(fields);
    HeaderNamed(headers[n]);
    forall i | 0 <= i < n ensures !NamesLength(headers[i]) {
      assert headers[i] == HeadersOf(fields)[i];
    }
    assert DecidesEncoding(headers, n);
    VerdictExactly(headers);
  }

  // ---------------------------------------------------------------------------
  // The whole request
  // ---------------------------------------------------------------------------

  lemma {:induction false} PlainUnderstood(
    start: seq<byte>, lines: seq<seq<byte>>, hasRequestBody: bool, frames: seq<seq<byte>>, closed: bool)
    requires LF !in start && AreLines(lines) && LeavesFramingOpen(lines) && !HasBody(hasRequestBody, frames)
    ensures Understood(Lines([start] + lines) + CRLF, lines, hasRequestBody, frames, closed)
  {
    var all := [start] + lines;
    assert all[1..] == lines;
    LinesRoundTrip(all, []);
    assert Lines(all) + CRLF + [] == Lines(all) + CRLF;
    OpenFraming(Fields(lines));
  }

  /** A head with one more field, as it is read. */
  lemma {:induction false} OneMoreField(start: seq<byte>, lines: seq<seq<byte>>, f: Field, rest: seq<byte>)
    requires LF !in start && AreLines(lines) && IsField(f)
    ensures var data := Lines([start] + lines) + (FieldLine(f) + CRLF + CRLF) + rest;
            && HeaderEnd(data).Some?
            && var p := HeaderEnd(data).value;
               Fields(FieldLines(data[..p])) == Fields(lines) + [f] && data[p + 4..] == rest
  {
    var all := [start] + lines;
    ChunkedHeadText(all, f);
    FieldRoundTrip(f);
    assert (all + [FieldLine(f)])[1..] == lines + [FieldLine(f)];
    LinesRoundTrip(all + [FieldLine(f)], rest);
    FieldsConcat(lines, [FieldLine(f)]);
    FieldsOfOne(FieldLine(f));
  }

  lemma {:induction false} ChunkedUnderstood(
    start: seq<byte>, lines: seq<seq<byte>>, frames: seq<seq<byte>>, closed: bool, sent: seq<byte>)
    requires LF !in start && AreLines(lines) && LeavesFramingOpen(lines) && frames != [] && Sized(frames)
    requires sent <= UploadText(frames, closed)
    ensures Understood(Lines([start] + lines) + CHUNKED_HEADER + sent, lines, true, frames, closed)
  {
    var f := Field(Ascii("Transfer-Encoding"), Ascii("chunked"));
    ChunkedHeaderLine();
    ChunkedValue();
    OneMoreField(start, lines, f, sent);
    ChunkedFraming(Fields(lines), f);
    UploadDecodes(frames, closed, sent);
  }

  lemma {:induction false} UploadDecodes(frames: seq<seq<byte>>, closed: bool, sent: seq<byte>)
    requires Sized(frames) && sent <= UploadText(frames, closed)
    ensures Emitted(Initial(0), sent) <= Flatten(frames)
    ensures !Run(Initial(0), sent).state.SizeLimitExceeded?
    ensures Run(Initial(0), sent).state.Complete? <==> closed && sent == Encode(frames)
    ensures Run(Initial(0), sent).state.Complete? ==> Emitted(Initial(0), sent) == Flatten(frames)
  {
    assert sent <= Encode(frames);
    TruncatedUpload(frames, sent);
    ChunkedLimits.UnlimitedNeverRefuses(Initial(0), sent);
    RoundTrip(frames, 0);
    assert !closed ==> |sent| <= |EncodeFrames(frames)| < |Encode(frames)|;
  }

  lemma StartInFront(head: seq<byte>, hasRequestBody: bool, frames: seq<seq<byte>>)
    ensures var front := if HasBody(hasRequestBody, frames) then head + CHUNKED_HEADER else head + CRLF;
            front <= Flatten(StartBuffers(head, hasRequestBody, frames))
  {
    if !HasBody(hasRequestBody, frames) {
      FlattenSingleton(head + CRLF);
    }
  }

  /** What is on the wire when the response is awaited: the head, and some of the chunks if there is a body. */
  lemma {:induction false} SentBehindHead(
    writes: seq<WriteEvent>, head: seq<byte>, hasRequestBody: bool, frames: seq<seq<byte>>, closed: bool)
    returns (sent: seq<byte>)
    requires StageOf(writes, head, hasRequestBody, frames, closed).AwaitResponse?
    ensures var wire := RequestSent(writes, head, hasRequestBody, frames, closed).wire;
            if HasBody(hasRequestBody, frames) then
              wire == head + CHUNKED_HEADER + sent && sent <= UploadText(frames, closed)
            else wire == head + CRLF
  {
    var wire := RequestSent(writes, head, hasRequestBody, frames, closed).wire;
    RequestOnWire(writes, head, hasRequestBody, frames, closed);
    StartInFront(head, hasRequestBody, frames);
    sent := [];
    if HasBody(hasRequestBody, frames) {
      sent := BehindFront(head + CHUNKED_HEADER, wire, UploadText(frames, closed));
    }
  }

  lemma BehindFront(front: seq<byte>, wire: seq<byte>, rest: seq<byte>) returns (sent: seq<byte>)
    requires front <= wire <= front + rest
    ensures wire == front + sent && sent <= rest
  {
    sent := wire[|front|..];
    assert (front + rest)[|front|..|wire|] == rest[..|sent|];
  }

  /** In every run that comes to await the response, the backend understands the request. */
  lemma {:induction false} RequestUnderstood(
    writes: seq<WriteEvent>, start: seq<byte>, lines: seq<seq<byte>>,
    hasRequestBody: bool, frames: seq<seq<byte>>, closed: bool)
    requires LF !in start && AreLines(lines) && LeavesFramingOpen(lines) && Sized(frames)
    ensures var head := Lines([start] + lines);
            StageOf(writes, head, hasRequestBody, frames, closed).AwaitResponse? ==>
              Understood(RequestSent(writes, head, hasRequestBody, frames, closed).wire,
                         lines, hasRequestBody, frames, closed)
  {
    var head := Lines([start] + lines);
    if StageOf(writes, head, hasRequestBody, frames, closed).AwaitResponse? {
      var sent := SentBehindHead(writes, head, hasRequestBody, frames, closed);
      if HasBody(hasRequestBody, frames) {
        ChunkedUnderstood(start, lines, frames, closed, sent);
      } else {
        PlainUnderstood(start, lines, hasRequestBody, frames, closed);
      }
    }
  }

  /**
    The request side over a new connection, for every head of complete lines, every
    body and every sequence of write outcomes.
    */
  method ForwardRequest(
    writes: seq<WriteEvent>, start: seq<byte>, lines: seq<seq<byte>>,
    hasRequestBody: bool, frames: seq<seq<byte>>, closed: bool)
    returns (stage: Stage, wire: seq<byte>)
    requires LF !in start && AreLines(lines) && LeavesFramingOpen(lines) && Sized(frames)
    ensures stage.AwaitResponse? ==> Understood(wire, lines, hasRequestBody, frames, closed)
    ensures stage.Rejected? ==> stage.status == 502
  {
    var connection := new Connection(writes);
    var channel := new BodyChannel(frames, closed);
    var head := Lines([start] + lines);
    stage := RunRequest(connection, channel, head, hasRequestBody);
    wire := connection.wire;
    RequestUnderstood(writes, start, lines, hasRequestBody, frames, closed);
    RequestOnWire(writes, head, hasRequestBody, frames, closed);
  }
}
