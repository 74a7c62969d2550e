/**
  The HTTP/3 backend task as a whole (src/http3_stream.rs): connect, send the
  request, and answer the main loop over the response channel.

  The upload and the response run side by side on one connection. They share no
  state: one direction of the connection each. A run is therefore given by a
  script for each direction, and the response finishing first is a write script
  that ends in a drop; `Interleaving` shows that this covers every interleaving.
  */
module BackendTask {
  import opened Bytes
  import opened ChunkedEncoding
  import opened BackendUpload
  import opened HeaderNames
  import opened ResponseHead
  import opened ResponseFields
  import opened ResponseBody
  import opened ResponseBuffering

  const MAX_RESPONSE_HEADER: nat := 262144

  /** Whether and how a response is compressed; what the compressor does is left open. */
  datatype Compression = Compression(applies: Parsed -> bool, compress: seq<byte> -> seq<byte>, name: seq<byte>)

  // ---------------------------------------------------------------------------
  // Reading the head
  // ---------------------------------------------------------------------------

  datatype HeadResult = Found(buffer: seq<byte>, end: nat) | HeadFailed(status: nat) | HeadSuspended

  /** More bytes than the header limit, and no complete final head in them. */
  ghost predicate TooLong(reader: StatusReader, received: seq<byte>) {
    var settled := Settle(reader, received);
    settled.end.None? && |settled.buffer| > MAX_RESPONSE_HEADER
  }

  /** After none of the first n reads is there too long a head. */
  ghost predicate WithinLimit(reader: StatusReader, events: seq<ReadEvent>, n: nat) {
    n <= |events| && forall k: nat :: k <= n ==> !TooLongAfter(reader, events, k)
  }

  ghost predicate TooLongAfter(reader: StatusReader, events: seq<ReadEvent>, n: nat) {
    n <= |events| && TooLong(reader, DataTo(events, n))
  }

  /**
    Why the response is refused, no final head having arrived: the deadline
    (504), or the backend closed or failed (502), all within the limit; or the
    latest read is the first one to exceed the limit (502).
    */
  ghost predicate Refusal(reader: StatusReader, status: nat, incoming: Incoming)
    reads incoming
  {
    && Settle(reader, incoming.Received()).end.None?
    && if incoming.Ended() then
         var e := incoming.events[incoming.next - 1];
         && WithinLimit(reader, incoming.events, incoming.next)
         && if e.Expired? then status == 504 else status == 502 && (e.ReadError? || e.Closes())
       else
         && status == 502 && incoming.Open() && 0 < incoming.next
         && WithinLimit(reader, incoming.events, incoming.next - 1)
         && TooLongAfter(reader, incoming.events, incoming.next)
  }

  /** Reading goes on: the buffer holds what is left of the bytes received, without a final head. */
  ghost predicate HeadPending(reader: StatusReader, incoming: Incoming, buffer: seq<byte>)
    reads incoming
  {
    && incoming.Open() && WithinLimit(reader, incoming.events, incoming.next)
    && Settle(reader, incoming.Received()) == Settled(buffer, None)
  }

  /** What reading the head comes to, with the limit checked after every read. */
  ghost predicate HeadRead(reader: StatusReader, r: HeadResult, incoming: Incoming)
    reads incoming
  {
    match r
    case HeadFailed(status) => Refusal(reader, status, incoming)
    case HeadSuspended =>
      && incoming.Silent() && WithinLimit(reader, incoming.events, incoming.next)
      && Settle(reader, incoming.Received()).end.None?
    case Found(buffer, end) =>
      && incoming.Open() && WithinLimit(reader, incoming.events, incoming.next)
      && Settle(reader, incoming.Received()) == Settled(buffer, Some(end))
  }

  lemma LimitStep(reader: StatusReader, events: seq<ReadEvent>, n: nat)
    requires n < |events| && WithinLimit(reader, events, n) && !TooLongAfter(reader, events, n + 1)
    ensures WithinLimit(reader, events, n + 1)
  {
  }

  /** The bytes of one read: interim heads are drained, and then there is a final head, too much, or more to read. */
  method AbsorbRead(reader: StatusReader, buffer: seq<byte>, data: seq<byte>, ghost before: seq<byte>)
    returns (r: Option<HeadResult>, rest: seq<byte>)
    requires Settle(reader, before) == Settled(buffer, None)
    ensures var settled := Settle(reader, before + data);
            && rest == settled.buffer
            && r == if settled.end.Some? then Some(Found(rest, settled.end.value))
                    else if TooLong(reader, before + data) then Some(HeadFailed(502)) else None
  {
    SettleConfluent(reader, before, data);
    var settled := DrainInterimAndFindHeaderEnd(reader, buffer + data);
    rest := settled.buffer;
    if settled.end.Some? {
      r := Some(Found(rest, settled.end.value));
    } else {
      r := if |rest| > MAX_RESPONSE_HEADER then Some(HeadFailed(502)) else None;
    }
  }

  lemma {:induction false} ReadLeads(reader: StatusReader, incoming: Incoming, r: Option<HeadResult>, settled: Settled)
    requires incoming.Open() && 0 < incoming.next && WithinLimit(reader, incoming.events, incoming.next - 1)
    requires settled == Settle(reader, incoming.Received())
    requires r == if settled.end.Some? then Some(Found(settled.buffer, settled.end.value))
                  else if TooLong(reader, incoming.Received()) then Some(HeadFailed(502)) else None
    ensures r.Some? ==> HeadRead(reader, r.value, incoming)
    ensures r.None? ==> HeadPending(reader, incoming, settled.buffer)
  {
    if r != Some(HeadFailed(502)) {
      LimitStep(reader, incoming.events, incoming.next - 1);
    }
  }

  /** A turn without data, after which the same bytes have been received. */
  lemma {:induction false} EndLeads(reader: StatusReader, incoming: Incoming, n: nat)
    requires n <= incoming.next <= n + 1 && incoming.next <= |incoming.events|
    requires WithinLimit(reader, incoming.events, n) && DataTo(incoming.events, n) == incoming.Received()
    ensures WithinLimit(reader, incoming.events, incoming.next)
  {
    assert !TooLongAfter(reader, incoming.events, n);
    if n < incoming.next {
      LimitStep(reader, incoming.events, n);
    }
  }

  /** One turn of the loop that reads the head. */
  method ReadHeadTurn(reader: StatusReader, incoming: Incoming, buffer: seq<byte>)
    returns (r: Option<HeadResult>, rest: seq<byte>)
    requires HeadPending(reader, incoming, buffer)
    modifies incoming
    ensures r.Some? ==> HeadRead(reader, r.value, incoming)
    ensures r.None? ==> HeadPending(reader, incoming, rest) && incoming.next == old(incoming.next) + 1
  {
    ghost var before, n := incoming.Received(), incoming.next;
    var ended, data := ReadTurn(incoming);
    if data != [] {
      r, rest := AbsorbRead(reader, buffer, data, before);
      ReadLeads(reader, incoming, r, Settle(reader, before + data));
    } else {
      assert before + data == before;
      EndLeads(reader, incoming, n);
      rest := buffer;
      if ended == Some(Stop.Suspended) {
        r := Some(HeadSuspended);
      } else {
        r := if ended.None? then None else Some(HeadFailed(if ended.value.TimedOut? then 504 else 502));
      }
    }
  }

  /** Reads until a final head is complete; interim heads are drained after every read. */
  method ReadHead(reader: StatusReader, incoming: Incoming) returns (r: HeadResult)
    requires incoming.next == 0
    modifies incoming
    ensures HeadRead(reader, r, incoming)
  {
    var buffer := [];
    while true
      invariant HeadPending(reader, incoming, buffer)
      decreases |incoming.events| - incoming.next
    {
      var done;
      done, buffer := ReadHeadTurn(reader, incoming, buffer);
      if done.Some? {
        return done.value;
      }
    }
  }

  // ---------------------------------------------------------------------------
  // The response as a function of the bytes received
  // ---------------------------------------------------------------------------

  function Without(fields: seq<Field>, name: seq<byte>): seq<Field> {
    if fields == [] then []
    else (if Named(fields[0], name) then [] else [fields[0]]) + Without(fields[1..], name)
  }

  /** The head sent when streaming: a chunked response has no length to announce. */
  function StreamedHeaders(parsed: Parsed): seq<Field> {
    if parsed.isChunked then Without(parsed.headers, CONTENT_LENGTH) else parsed.headers
  }

  /** The head sent when compressing: length and encoding are those of the compressed body. */
  function CompressedHeaders(parsed: Parsed, name: seq<byte>): seq<Field> {
    Without(Without(parsed.headers, CONTENT_LENGTH), CONTENT_ENCODING) + [Field(CONTENT_ENCODING, name)]
  }

  /** The final head within a settled buffer, and the body bytes behind it. */
  function HeadOf(s: Settled): seq<byte>
    requires s.end.Some? && EndsHeadAt(s.buffer, s.end.value)
  {
    s.buffer[..s.end.value]
  }

  function StreamOf(s: Settled): seq<byte>
    requires s.end.Some? && EndsHeadAt(s.buffer, s.end.value)
  {
    s.buffer[s.end.value + 4..]
  }

  /** The compressed answer: the head, and the whole body in one message. */
  predicate DeliveredCompressed(head: Message, body: seq<byte>, stop: Stop, offered: seq<Message>) {
    && head.Head?
    && (offered == [head] || offered == [head, Body(body)])
    && (offered == [head] ==> ClientStopped(stop))
  }

  /** What the client has been told of a response with this head and these bytes behind it. */
  predicate AnsweredWith(
    compression: Compression, status: nat, parsed: Parsed, stream: seq<byte>, stop: Stop, offered: seq<Message>)
  {
    if compression.applies(parsed) then
      && DeliveredCompressed(
           Head(status, CompressedHeaders(parsed, compression.name)),
           compression.compress(Framed(parsed.Framing(), stream)), stop, offered)
      && (ClientStopped(stop) || StopsEarly(parsed) || (stop.Finished? <==> WholeBody(parsed.Framing(), stream)))
    else
      Delivered(Head(status, StreamedHeaders(parsed)), parsed.Framing(), stop, offered, stream)
  }

  /** What a run that sent a head has told the client, from the bytes it received. */
  ghost predicate Answered(compression: Compression, received: seq<byte>, stop: Stop, offered: seq<Message>) {
    var settled := Settle(StatusOf, received);
    && settled.end.Some?
    && var head := HeadOf(settled);
       AnsweredWith(compression, StatusOf(head), ParsedHead(head), StreamOf(settled), stop, offered)
  }

  /** Nothing can be said yet: no final head has come, or the body to be compressed is not whole. */
  ghost predicate Awaiting(compression: Compression, received: seq<byte>) {
    var settled := Settle(StatusOf, received);
    || settled.end.None?
    || AwaitingBody(compression, ParsedHead(HeadOf(settled)), StreamOf(settled))
  }

  predicate AwaitingBody(compression: Compression, parsed: Parsed, stream: seq<byte>) {
    compression.applies(parsed) && !StopsEarly(parsed) && !WholeBody(parsed.Framing(), stream)
  }

  /** Bytes read after the head leave the head alone and extend the body. */
  lemma {:induction false} SettledGrows(status: StatusReader, before: seq<byte>, got: seq<byte>)
    requires Settle(status, before).end.Some?
    ensures var s, t := Settle(status, before), Settle(status, before + got);
            t.end.Some? && HeadOf(t) == HeadOf(s) && StreamOf(t) == StreamOf(s) + got
  {
    SettleConfluent(status, before, got);
    GrownSlices(Settle(status, before).buffer, Settle(status, before).end.value, got);
  }

  lemma GrownSlices(buffer: seq<byte>, end: nat, got: seq<byte>)
    requires end + 4 <= |buffer|
    ensures (buffer + got)[..end] == buffer[..end] && (buffer + got)[end + 4..] == buffer[end + 4..] + got
  {
  }

  lemma {:induction false} DataFrom(events: seq<ReadEvent>, n: nat, m: nat) returns (got: seq<byte>)
    requires n <= m <= |events|
    ensures DataTo(events, m) == DataTo(events, n) + got
  {
    DataPrefix(events, n, m);
    got := DataTo(events, m)[|DataTo(events, n)|..];
  }

  /** Once there is a final head, later reads cannot exceed the limit. */
  lemma {:induction false} StaysWithinLimit(events: seq<ReadEvent>, n: nat)
    requires WithinLimit(StatusOf, events, n) && Settle(StatusOf, DataTo(events, n)).end.Some?
    ensures WithinLimit(StatusOf, events, |events|)
  {
    forall k: nat | k <= |events| ensures !TooLongAfter(StatusOf, events, k) {
      if k > n {
        var got := DataFrom(events, n, k);
        SettledGrows(StatusOf, DataTo(events, n), got);
      }
    }
  }

  lemma {:induction false} AnsweredThen(
    compression: Compression, before: seq<byte>, got: seq<byte>, stop: Stop, offered: seq<Message>)
    requires Settle(StatusOf, before).end.Some?
    requires var s := Settle(StatusOf, before);
             AnsweredWith(compression, StatusOf(HeadOf(s)), ParsedHead(HeadOf(s)), StreamOf(s) + got, stop, offered)
    ensures Answered(compression, before + got, stop, offered)
  {
    SettledGrows(StatusOf, before, got);
  }

  lemma {:induction false} AwaitingThen(compression: Compression, before: seq<byte>, got: seq<byte>)
    requires Settle(StatusOf, before).end.Some?
    requires var s := Settle(StatusOf, before); AwaitingBody(compression, ParsedHead(HeadOf(s)), StreamOf(s) + got)
    ensures Awaiting(compression, before + got)
  {
    SettledGrows(StatusOf, before, got);
  }

  // ---------------------------------------------------------------------------
  // The response side
  // ---------------------------------------------------------------------------

  method StreamResponseCompressed(
    incoming: Incoming, outgoing: Outgoing, status: nat, parsed: Parsed, leftover: seq<byte>, compression: Compression)
    returns (stop: Stop, ghost got: seq<byte>)
    requires incoming.Open() && outgoing.offered == [] && compression.applies(parsed)
    modifies incoming, outgoing
    ensures incoming.Received() == old(incoming.Received()) + got && Caused(stop, incoming, outgoing)
    ensures if stop.Suspended? then outgoing.offered == [] && AwaitingBody(compression, parsed, leftover + got)
            else AnsweredWith(compression, status, parsed, leftover + got, stop, outgoing.offered)
  {
    var body;
    body, stop, got := BufferBody(incoming, leftover, parsed);
    if stop.Suspended? {
      return;
    }
    var sent := outgoing.Send(Head(status, CompressedHeaders(parsed, compression.name)));
    if !sent.Sent? {
      stop := StoppedBy(sent);
      return;
    }
    sent := outgoing.Send(Body(compression.compress(body)));
    if sent.Stuck? {
      stop := ClientStuck;
    }
  }

  /** How the response side ended: an error before any head, or the end of a transfer. */
  datatype Outcome = Failed(status: nat) | Ended(stop: Stop)

  /** From the complete head on. */
  method Answer(
    incoming: Incoming, outgoing: Outgoing, compression: Compression, status: nat, parsed: Parsed, leftover: seq<byte>)
    returns (stop: Stop, ghost got: seq<byte>)
    requires incoming.Open() && outgoing.offered == []
    modifies incoming, outgoing
    ensures incoming.Received() == old(incoming.Received()) + got && Caused(stop, incoming, outgoing)
    ensures if outgoing.offered == [] then stop.Suspended? && AwaitingBody(compression, parsed, leftover + got)
            else AnsweredWith(compression, status, parsed, leftover + got, stop, outgoing.offered)
  {
    if compression.applies(parsed) {
      stop, got := StreamResponseCompressed(incoming, outgoing, status, parsed, leftover, compression);
    } else {
      stop, got := AnswerStreaming(incoming, outgoing, status, parsed, leftover);
    }
  }

  method AnswerStreaming(incoming: Incoming, outgoing: Outgoing, status: nat, parsed: Parsed, leftover: seq<byte>)
    returns (stop: Stop, ghost got: seq<byte>)
    requires incoming.Open() && outgoing.offered == []
    modifies incoming, outgoing
    ensures incoming.Received() == old(incoming.Received()) + got && Caused(stop, incoming, outgoing)
    ensures Delivered(Head(status, StreamedHeaders(parsed)), parsed.Framing(), stop, outgoing.offered, leftover + got)
  {
    ghost var head := Head(status, StreamedHeaders(parsed));
    var sent := outgoing.Send(Head(status, StreamedHeaders(parsed)));
    assert outgoing.offered == [head];
    if !sent.Sent? {
      BodyOfHead(head);
      stop, got := StoppedBy(sent), [];
    } else {
      stop, got := StreamBody(incoming, outgoing, leftover, parsed.Framing(), head);
    }
  }

  /** With the final head in the buffer: parse it and answer. */
  method AnswerHead(incoming: Incoming, outgoing: Outgoing, compression: Compression, buffer: seq<byte>, end: nat)
    returns (stop: Stop)
    requires incoming.Open() && outgoing.offered == []
    requires EndsHeadAt(buffer, end) && Settle(StatusOf, incoming.Received()) == Settled(buffer, Some(end))
    requires WithinLimit(StatusOf, incoming.events, incoming.next)
    modifies incoming, outgoing
    ensures Caused(stop, incoming, outgoing) && WithinLimit(StatusOf, incoming.events, |incoming.events|)
    ensures if outgoing.offered == [] then stop.Suspended? && Awaiting(compression, incoming.Received())
            else Answered(compression, incoming.Received(), stop, outgoing.offered)
  {
    ghost var before, got := incoming.Received(), [];
    StaysWithinLimit(incoming.events, incoming.next);
    var status := StatusOf(buffer[..end]);
    var parsed := ParseResponseHeaders(buffer[..end]);
    stop, got := Answer(incoming, outgoing, compression, status, parsed, buffer[end + 4..]);
    if outgoing.offered == [] {
      AwaitingThen(compression, before, got);
    } else {
      AnsweredThen(compression, before, got, stop, outgoing.offered);
    }
  }

  /**
    The response side. In every run, with the script of reads given: an error
    before any message, for cause; or silence, which means that the backend said
    all it ever says and no answer can be given yet; or the messages that the
    bytes received determine, ended for cause.
    */
  method StreamResponse(incoming: Incoming, outgoing: Outgoing, compression: Compression) returns (outcome: Outcome)
    requires incoming.next == 0 && outgoing.offered == []
    modifies incoming, outgoing
    ensures outcome.Failed? ==> outgoing.offered == [] && Refusal(StatusOf, outcome.status, incoming)
    ensures outcome.Ended? ==>
              Caused(outcome.stop, incoming, outgoing) && WithinLimit(StatusOf, incoming.events, |incoming.events|)
    ensures outcome.Ended? ==>
              if outgoing.offered == [] then outcome.stop.Suspended? && Awaiting(compression, incoming.Received())
              else Answered(compression, incoming.Received(), outcome.stop, outgoing.offered)
  {
    var r := ReadHead(StatusOf, incoming);
    match r {
      case HeadFailed(status) => return Outcome.Failed(status);
      case HeadSuspended => return Ended(Stop.Suspended);
      case Found(buffer, end) =>
        var stop := AnswerHead(incoming, outgoing, compression, buffer, end);
        return Ended(stop);
    }
  }

  // ---------------------------------------------------------------------------
  // The backend task
  // ---------------------------------------------------------------------------

  datatype Connect = Connected | Refused | TimedOutConnecting

  /** The messages of every run: nothing, one error, or one head and then only bodies. */
  predicate Protocol(offered: seq<Message>) {
    || offered == []
    || (|offered| == 1 && offered[0].Error?)
    || HeadThenBodies(offered[0], offered)
  }

  /**
    What the main loop can rely on: an error stands alone, a head stands first, and
    a body has a head in front of it.
    */
  lemma ProtocolMeaning(offered: seq<Message>)
    ensures Protocol(offered) <==>
            forall i :: 0 <= i < |offered| ==>
              match offered[i]
              case Error(_) => |offered| == 1
              case Head(_, _) => i == 0
              case Body(_) => i > 0 && offered[0].Head?
  {
    if Protocol(offered) {
    } else {
      var first := offered[0];
      if first.Head? {
        var i :| 1 <= i < |offered| && !offered[i].Body?;
        assert !(match offered[i] case Error(_) => |offered| == 1 case Head(_, _) => i == 0
                                  case Body(_) => i > 0 && offered[0].Head?);
      }
    }
  }

  /** An error is sent only for cause, and with the status that belongs to it. */
  ghost predicate ErrorCaused(status: nat, connect: Connect, stage: Stage, incoming: Incoming)
    reads incoming
  {
    match connect
    case Refused => status == 502
    case TimedOutConnecting => status == 504
    case Connected => if stage.AwaitResponse? then Refusal(StatusOf, status, incoming) else stage == Rejected(status)
  }

  /** Nothing is sent only while there is nothing to say: the request is being started or the response awaited. */
  ghost predicate SilenceCaused(connect: Connect, stage: Stage, incoming: Incoming, compression: Compression)
    reads incoming
  {
    && connect.Connected?
    && (stage.Suspended? || (stage.AwaitResponse? && incoming.Silent() && Awaiting(compression, incoming.Received())))
  }

  lemma {:induction false} AnsweredWithIsProtocol(
    compression: Compression, status: nat, parsed: Parsed, stream: seq<byte>, stop: Stop, offered: seq<Message>)
    requires AnsweredWith(compression, status, parsed, stream, stop, offered)
    ensures Protocol(offered) && offered != [] && offered[0].Head?
  {
  }

  lemma {:induction false} AnsweredIsProtocol(
    compression: Compression, received: seq<byte>, stop: Stop, offered: seq<Message>)
    requires Answered(compression, received, stop, offered)
    ensures Protocol(offered) && offered != [] && offered[0].Head?
  {
    var settled := Settle(StatusOf, received);
    var head := HeadOf(settled);
    AnsweredWithIsProtocol(compression, StatusOf(head), ParsedHead(head), StreamOf(settled), stop, offered);
  }

  /**
    The whole backend task, in every run. What the backend received is what the
    outcomes of the writes bring to the wire (`RequestOnWire` says what that is).
    The main loop was offered nothing, one error, or one head and then bodies,
    each for cause; and once a head was offered, the request had been started
    and the messages are what the bytes received say.
    */
  method RunBackendTask(
    connect: Connect, connection: Connection, channel: BodyChannel, incoming: Incoming, outgoing: Outgoing,
    head: seq<byte>, hasRequestBody: bool, compression: Compression)
    returns (stop: Option<Stop>)
    requires connection.After(Done) == START && incoming.next == 0 && outgoing.offered == []
    requires Sized(channel.frames)
    modifies connection, channel`frames, incoming, outgoing
    ensures var s := if connect.Connected?
                     then RequestSent(connection.writes, head, hasRequestBody, old(channel.frames), channel.closed)
                     else START;
            connection.After(s.result) == s
    ensures Protocol(outgoing.offered)
    ensures var stage := StageOf(connection.writes, head, hasRequestBody, old(channel.frames), channel.closed);
            if outgoing.offered == [] then SilenceCaused(connect, stage, incoming, compression)
            else if outgoing.offered[0].Error? then
              ErrorCaused(outgoing.offered[0].status, connect, stage, incoming)
            else
              && connect.Connected? && stage.AwaitResponse?
              && stop.Some? && Caused(stop.value, incoming, outgoing)
              && Answered(compression, incoming.Received(), stop.value, outgoing.offered)
  {
    stop := None;
    var status := 502;
    match connect {
      case Refused =>
      case TimedOutConnecting => status := 504;
      case Connected =>
        var stage := RunRequest(connection, channel, head, hasRequestBody);
        match stage {
          case Suspended => return;
          case Rejected(s) => status := s;
          case AwaitResponse =>
            var outcome := StreamResponse(incoming, outgoing, compression);
            if outcome.Ended? {
              stop := Some(outcome.stop);
              if outgoing.offered != [] {
                AnsweredIsProtocol(compression, incoming.Received(), outcome.stop, outgoing.offered);
              }
              return;
            }
            status := outcome.status;
        }
    }
    var _ := outgoing.Send(Error(status));
  }
}
