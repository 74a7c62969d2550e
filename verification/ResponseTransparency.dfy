/**
  The two ways of answering, compared over whole runs of the response side
  (src/http3_stream.rs): a response that is compressed carries the compression
  of exactly the body that the streamed response carries.
  */
module ResponseTransparency {
  import opened Bytes
  import opened ResponseHead
  import opened ResponseFields
  import opened ResponseBody
  import opened ResponseBuffering
  import opened BackendTask

  /**
    The answer to a response with this head and these bytes behind it, to a
    client that takes everything. A chunked body under Content-Length 0 is
    compressed as far as it came with the head, so nothing is said of that case.
    */
  predicate FullAnswer(
    compression: Compression, status: nat, parsed: Parsed, stream: seq<byte>, offered: seq<Message>)
  {
    if compression.applies(parsed) then
      || StopsEarly(parsed)
      || offered == [Head(status, CompressedHeaders(parsed, compression.name)),
                     Body(compression.compress(Framed(parsed.Framing(), stream)))]
    else
      && HeadThenBodies(Head(status, StreamedHeaders(parsed)), offered)
      && BodyOf(offered) == Framed(parsed.Framing(), stream)
  }

  /** From an answer over part of the stream to the full answer, if the body was whole or the stream at its end. */
  lemma {:induction false} AnswerIsFull(
    compression: Compression, status: nat, parsed: Parsed, stream: seq<byte>, full: seq<byte>, stop: Stop,
    offered: seq<Message>)
    requires AnsweredWith(compression, status, parsed, stream, stop, offered)
    requires !ClientStopped(stop) && (compression.applies(parsed) ==> !StopsEarly(parsed))
    requires stream <= full && (stop.Finished? || stream == full)
    ensures FullAnswer(compression, status, parsed, full, offered)
  {
    BodyDetermined(parsed.Framing(), stream, full);
  }

  /** Reading that ended at the close of the peer has read everything. */
  lemma ReadAll(incoming: Incoming, stop: Stop)
    requires EndsInClose(incoming.events) && ReadCaused(stop, incoming) && !ClientStopped(stop)
    ensures incoming.Received() <= DataOf(incoming.events)
    ensures stop.Finished? || incoming.Received() == DataOf(incoming.events)
  {
    DataPrefix(incoming.events, incoming.next, |incoming.events|);
    assert !stop.Finished? ==> incoming.next == |incoming.events|;
  }

  /** The head of everything the backend sends. */
  ghost function HeadIn(data: seq<byte>): Option<seq<byte>> {
    var settled := Settle(StatusOf, data);
    if settled.end.Some? then Some(HeadOf(settled)) else None
  }

  /** The full answer to everything the backend sends. */
  ghost predicate AnswerTo(compression: Compression, data: seq<byte>, offered: seq<Message>) {
    var settled := Settle(StatusOf, data);
    && settled.end.Some?
    && var head := HeadOf(settled);
       FullAnswer(compression, StatusOf(head), ParsedHead(head), StreamOf(settled), offered)
  }

  lemma {:induction false} RestOf(received: seq<byte>, data: seq<byte>) returns (rest: seq<byte>)
    requires received <= data
    ensures data == received + rest
  {
    rest := data[|received|..];
  }

  /** However the reads were split, the answer is the full answer to all the bytes. */
  lemma {:induction false} AnswerDetermined(
    compression: Compression, received: seq<byte>, data: seq<byte>, stop: Stop, offered: seq<Message>)
    requires Answered(compression, received, stop, offered) && !ClientStopped(stop)
    requires received <= data && (stop.Finished? || received == data)
    ensures AnswerTo(compression, data, offered)
  {
    var rest := RestOf(received, data);
    SettledGrows(StatusOf, received, rest);
    var s, t := Settle(StatusOf, received), Settle(StatusOf, data);
    assert received == data ==> StreamOf(s) == StreamOf(t);
    var parsed := ParsedHead(HeadOf(s));
    if compression.applies(parsed) ==> !StopsEarly(parsed) {
      AnswerIsFull(compression, StatusOf(HeadOf(s)), parsed, StreamOf(s), StreamOf(t), stop, offered);
    }
  }

  /** No answer can be given: there is no head, or after some read there is too long a one. */
  ghost predicate Unanswerable(events: seq<ReadEvent>) {
    HeadIn(DataOf(events)).None? || !WithinLimit(StatusOf, events, |events|)
  }

  lemma RefusedFor(incoming: Incoming, status: nat)
    requires EndsInClose(incoming.events) && Refusal(StatusOf, status, incoming)
    ensures Unanswerable(incoming.events)
  {
    if incoming.Ended() {
      assert incoming.next == |incoming.events|;
    } else {
      assert TooLongAfter(StatusOf, incoming.events, incoming.next);
    }
  }

  /**
    One run of the response side until the peer closes, to a client that takes
    everything: the full answer to all the bytes, however they were split into
    reads, or an error if there is none.
    */
  method RespondToTheEnd(events: seq<ReadEvent>, compression: Compression) returns (offered: Option<seq<Message>>)
    requires EndsInClose(events)
    ensures offered.Some? ==> AnswerTo(compression, DataOf(events), offered.value)
    ensures offered.None? <==> Unanswerable(events)
  {
    var incoming := new Incoming(events);
    var outgoing := new Outgoing(_ => Sent);
    var outcome := StreamResponse(incoming, outgoing, compression);
    match outcome {
      case Failed(status) =>
        RefusedFor(incoming, status);
        offered := None;
      case Ended(stop) =>
        ReadAll(incoming, stop);
        AnswerDetermined(compression, incoming.Received(), DataOf(events), stop, outgoing.offered);
        offered := Some(outgoing.offered);
    }
  }

  /**
    Two runs over the same bytes, with any two splits, one that streams and one
    that compresses: the status is the same, and the compressed body is the
    compression of the streamed body.
    */
  method StreamedAndCompressed(
    streamEvents: seq<ReadEvent>, compressEvents: seq<ReadEvent>, compression: Compression)
    returns (streamed: Option<seq<Message>>, compressed: Option<seq<Message>>)
    requires EndsInClose(streamEvents) && EndsInClose(compressEvents)
    requires DataOf(streamEvents) == DataOf(compressEvents)
    ensures streamed.Some? && compressed.Some? ==>
              && HeadIn(DataOf(streamEvents)).Some?
              && var parsed := ParsedHead(HeadIn(DataOf(streamEvents)).value);
                 compression.applies(parsed) && !StopsEarly(parsed) ==>
                   && streamed.value != [] && streamed.value[0].Head?
                   && compressed.value ==
                      [Head(streamed.value[0].status, CompressedHeaders(parsed, compression.name)),
                       Body(compression.compress(BodyOf(streamed.value)))]
    ensures streamed.None? <==> Unanswerable(streamEvents)
    ensures compressed.None? <==> Unanswerable(compressEvents)
  {
    streamed := RespondToTheEnd(streamEvents, compression.(applies := _ => false));
    compressed := RespondToTheEnd(compressEvents, compression);
  }
}
