/**
  The compression path (src/http3_stream.rs): the whole body is read before the
  head is sent. It sees the same body as the streaming path, except in the one
  case spelled out by `BufferedExactly`.
  */
module ResponseBuffering {
  import opened Bytes
  import opened ChunkedDecoding
  import opened ChunkedEncoding
  import opened ResponseFields
  import opened ResponseBody

  /** What the loop of this path takes for the end of the body. */
  predicate StopsEarly(parsed: Parsed) {
    parsed.isChunked && parsed.contentLength == Some(0)
  }

  /** The body so far: `remaining` counts down under Content-Length framing only. */
  predicate Accumulated(parsed: Parsed, body: seq<byte>, remaining: Option<nat>, stream: seq<byte>) {
    && body == Framed(parsed.Framing(), stream)
    && match parsed.Framing()
       case Length(total) => remaining == Some(total - Min(total, |stream|))
       case Chunked => remaining == parsed.contentLength
       case UntilEof => remaining == None
  }

  method AccumulateBody(
    decoder: ChunkedDecoder?, body: seq<byte>, remaining: Option<nat>, data: seq<byte>,
    ghost parsed: Parsed, ghost stream: seq<byte>)
    returns (out: seq<byte>, left: Option<nat>)
    requires decoder != null <==> parsed.isChunked
    requires decoder != null ==> DecodedTo(decoder, stream)
    requires Accumulated(parsed, body, remaining, stream)
    modifies decoder
    ensures decoder != null ==> DecodedTo(decoder, stream + data)
    ensures Accumulated(parsed, out, left, stream + data)
  {
    left := remaining;
    if decoder != null {
      RunConcat(Initial(0), stream, data);
      out := decoder.Drain(data, body);
    } else if remaining.Some? {
      var take := Min(|data|, remaining.value);
      out := body + data[..take];
      left := Some(remaining.value - take);
    } else {
      out := body + data;
    }
  }

  /**
    Reads the body to its end. What comes out is the body of everything
    received, and reading is finished exactly when the body is whole; but if the
    response is chunked and also says Content-Length: 0, reading is finished at
    once, with what came along with the head.
    */
  method BufferBody(incoming: Incoming, leftover: seq<byte>, parsed: Parsed)
    returns (body: seq<byte>, stop: Stop, ghost got: seq<byte>)
    requires incoming.Open()
    modifies incoming
    ensures incoming.Received() == old(incoming.Received()) + got
    ensures body == Framed(parsed.Framing(), leftover + got)
    ensures !ClientStopped(stop) && ReadCaused(stop, incoming)
    ensures if StopsEarly(parsed) then stop.Finished? && got == []
            else stop.Finished? <==> WholeBody(parsed.Framing(), leftover + got)
  {
    var decoder: ChunkedDecoder? := null;
    if parsed.isChunked {
      decoder := new ChunkedDecoder(0);
    }
    var remaining := parsed.contentLength;
    got := [];
    ghost var stream := leftover;
    assert [] + leftover == leftover == leftover + [];
    body, remaining := AccumulateBody(decoder, [], remaining, leftover, parsed, []);
    var done := (decoder != null && decoder.state.Complete?) || remaining == Some(0);
    stop := Finished;
    while !done
      invariant incoming.Received() == old(incoming.Received()) + got && stream == leftover + got
      invariant incoming.Open()
      invariant decoder != null <==> parsed.isChunked
      invariant decoder != null ==> fresh(decoder) && DecodedTo(decoder, stream)
      invariant Accumulated(parsed, body, remaining, stream)
      invariant done == ((decoder != null && decoder.state.Complete?) || remaining == Some(0))
      invariant StopsEarly(parsed) ==> done && got == []
      invariant stop.Finished?
      decreases !done, |incoming.events| - incoming.next
    {
      var ended, data := ReadTurn(incoming);
      Associativity(leftover, got, data);
      Associativity(old(incoming.Received()), got, data);
      if ended.Some? {
        stop := ended.value;
        break;
      } else if data != [] {
        ghost var before := stream;
        got, stream := got + data, stream + data;
        body, remaining := AccumulateBody(decoder, body, remaining, data, parsed, before);
        done := (decoder != null && decoder.state.Complete?) || remaining == Some(0);
      }
    }
  }

  // ---------------------------------------------------------------------------
  // Streaming and buffering see the same body
  // ---------------------------------------------------------------------------

  /** A script of reads that go on until the peer closes. */
  predicate EndsInClose(events: seq<ReadEvent>) {
    && events != [] && events[|events| - 1].Closes()
    && forall i :: 0 <= i < |events| - 1 ==> events[i].Flows()
  }

  /** All the bytes of a script. */
  function DataOf(events: seq<ReadEvent>): seq<byte> {
    DataTo(events, |events|)
  }

  lemma {:induction false} DataPrefix(events: seq<ReadEvent>, n: nat, m: nat)
    requires n <= m <= |events|
    ensures DataTo(events, n) <= DataTo(events, m)
    decreases m
  {
    if n < m {
      DataPrefix(events, n, m - 1);
    }
  }

  /** A stream that holds the whole body, or everything, has the body of everything. */
  lemma BodyDetermined(framing: Framing, stream: seq<byte>, full: seq<byte>)
    requires stream <= full && (stream == full || WholeBody(framing, stream))
    ensures Framed(framing, stream) == Framed(framing, full)
  {
    assert full == stream + full[|stream|..];
    FramedExtends(framing, stream, full[|stream|..]);
  }

  /** However the reads are split and wherever reading ended, the body is that of all the backend's bytes. */
  lemma ReadToTheEnd(incoming: Incoming, stop: Stop, framing: Framing, leftover: seq<byte>)
    requires EndsInClose(incoming.events) && ReadCaused(stop, incoming) && !ClientStopped(stop)
    requires stop.Finished? ==> WholeBody(framing, leftover + incoming.Received())
    ensures Framed(framing, leftover + incoming.Received()) == Framed(framing, leftover + DataOf(incoming.events))
  {
    var events, n := incoming.events, incoming.next;
    DataPrefix(events, n, |events|);
    if stop.Finished? {
      BodyDetermined(framing, leftover + incoming.Received(), leftover + DataOf(events));
    } else {
      assert n == |events|;
    }
  }

  /** What buffering makes of a response whose head came with `leftover`. */
  function Buffered(parsed: Parsed, leftover: seq<byte>, full: seq<byte>): seq<byte> {
    Framed(parsed.Framing(), if StopsEarly(parsed) then leftover else full)
  }

  /** One run of the streaming path, to a client that takes everything, until the peer closes. */
  method StreamToTheEnd(events: seq<ReadEvent>, leftover: seq<byte>, framing: Framing, status: nat)
    returns (body: seq<byte>)
    requires EndsInClose(events)
    ensures body == Framed(framing, leftover + DataOf(events))
  {
    var incoming := new Incoming(events);
    var outgoing := new Outgoing(_ => Sent);
    var _ := outgoing.Send(Head(status, []));
    var stop;
    ghost var got;
    stop, got := StreamBody(incoming, outgoing, leftover, framing, Head(status, []));
    assert incoming.Received() == [] + got == got;
    ReadToTheEnd(incoming, stop, framing, leftover);
    body := BodyOf(outgoing.offered);
  }

  /** One run of the buffering path until the peer closes. */
  method BufferToTheEnd(events: seq<ReadEvent>, leftover: seq<byte>, parsed: Parsed) returns (body: seq<byte>)
    requires EndsInClose(events)
    ensures body == Buffered(parsed, leftover, leftover + DataOf(events))
  {
    var incoming := new Incoming(events);
    var stop;
    ghost var got;
    body, stop, got := BufferBody(incoming, leftover, parsed);
    assert incoming.Received() == [] + got == got;
    if StopsEarly(parsed) {
      assert leftover + [] == leftover;
    } else {
      ReadToTheEnd(incoming, stop, parsed.Framing(), leftover);
    }
  }

  /**
    A run of each path over the same bytes, cut into reads and into what came
    with the head in any two ways: the bodies are equal, for every framing,
    unless the response is chunked and of Content-Length 0.
    */
  method StreamAndBuffer(
    streamEvents: seq<ReadEvent>, streamLeftover: seq<byte>,
    bufferEvents: seq<ReadEvent>, bufferLeftover: seq<byte>, parsed: Parsed)
    returns (streamed: seq<byte>, buffered: seq<byte>)
    requires EndsInClose(streamEvents) && EndsInClose(bufferEvents)
    requires streamLeftover + DataOf(streamEvents) == bufferLeftover + DataOf(bufferEvents)
    ensures streamed == Framed(parsed.Framing(), bufferLeftover + DataOf(bufferEvents))
    ensures buffered == Buffered(parsed, bufferLeftover, bufferLeftover + DataOf(bufferEvents))
    ensures !StopsEarly(parsed) ==> buffered == streamed
  {
    streamed := StreamToTheEnd(streamEvents, streamLeftover, parsed.Framing(), 200);
    buffered := BufferToTheEnd(bufferEvents, bufferLeftover, parsed);
  }

  lemma OneByteBody()
    ensures Framed(Chunked, Encode([[0]])) == [0] && Framed(Chunked, []) == []
  {
    RoundTrip([[0]], 0);
    FlattenSingleton([0]);
  }

  /**
    The failing case, as a run of both paths: a chunked body of one byte under
    Content-Length 0, of which nothing came with the head. The streamed body has
    the byte, the buffered one is empty.
    */
  method StopEarlyRun() returns (streamed: seq<byte>, buffered: seq<byte>)
    ensures streamed == [0] && buffered == []
  {
    var events := [Read(Encode([[0]])), Read([])];
    var parsed := Parsed([], true, Some(0), None, None);
    OneByteBody();
    assert DataTo(events, 1) == [] + Encode([[0]]) == Encode([[0]]);
    assert [] + DataOf(events) == Encode([[0]]) + [] == Encode([[0]]);
    streamed, buffered := StreamAndBuffer(events, [], events, [], parsed);
  }

  /**
    What buffering makes of a response is the streamed body, for all bytes and
    however much came with the head, if and only if the response is not both
    chunked and of Content-Length 0.
    */
  lemma BufferedExactly(parsed: Parsed)
    ensures (forall leftover: seq<byte>, rest: seq<byte> ::
               Buffered(parsed, leftover, leftover + rest) == Framed(parsed.Framing(), leftover + rest))
            <==> !StopsEarly(parsed)
  {
    if StopsEarly(parsed) {
      OneByteBody();
      assert [] + Encode([[0]]) == Encode([[0]]);
      assert Buffered(parsed, [], [] + Encode([[0]])) == [];
    }
  }
}
