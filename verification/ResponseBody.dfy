/**
  Forwarding the body of the backend's response as it arrives
  (src/http3_stream.rs), for each kind of framing.

  Reads and sends are driven by scripts of outcomes, so each contract speaks
  about every run: short reads, would-block, end of stream, errors, the
  deadline, and the client going away.
  */
module ResponseBody {
  import opened Bytes
  import opened ChunkedDecoding
  import opened ResponseFields

  // ---------------------------------------------------------------------------
  // The environment
  // ---------------------------------------------------------------------------

  /** One turn of a read loop. */
  datatype ReadEvent =
    | Expired               // the deadline has passed
    | Blocked               // nothing to read yet
    | ReadError
    | Read(data: seq<byte>) // zero bytes means the peer closed
  {
    predicate Closes() {
      Read? && data == []
    }

    /** Reading goes on after this turn. */
    predicate Flows() {
      Blocked? || (Read? && data != [])
    }
  }

  /** The bytes that the first n turns bring. */
  function DataTo(events: seq<ReadEvent>, n: nat): seq<byte>
    requires n <= |events|
  {
    if n == 0 then [] else DataTo(events, n - 1) + if events[n - 1].Read? then events[n - 1].data else []
  }

  /** The backend's side of the connection: a script of turns, and how many of them have happened. */
  class Incoming {
    const events: seq<ReadEvent>
    var next: nat

    constructor (events: seq<ReadEvent>)
      ensures this.events == events && next == 0
    {
      this.events := events;
      next := 0;
    }

    /** Everything read so far. */
    ghost function Received(): seq<byte>
      reads this
    {
      DataTo(events, Min(next, |events|))
    }

    ghost predicate FlowsTo(n: nat) {
      n <= |events| && forall i :: 0 <= i < n ==> events[i].Flows()
    }

    /** Nothing has ended the reading so far. */
    ghost predicate Open()
      reads this
    {
      FlowsTo(next)
    }

    /** The latest turn is the first one that ends the reading. */
    ghost predicate Ended()
      reads this
    {
      0 < next <= |events| && FlowsTo(next - 1) && !events[next - 1].Flows()
    }

    /** All turns have happened, and none ended the reading: the backend says nothing more. */
    ghost predicate Silent()
      reads this
    {
      Open() && next == |events|
    }

    /** The next turn; None if there is none, and the backend task stays suspended. */
    method Next() returns (e: Option<ReadEvent>)
      requires Open()
      modifies this`next
      ensures e.None? ==> Silent() && next == old(next) && Received() == old(Received())
      ensures e.Some? ==> next == old(next) + 1 <= |events| && e.value == events[next - 1]
      ensures e.Some? ==> if e.value.Flows() then Open() else Ended()
      ensures e.Some? ==> Received() == old(Received()) + if e.value.Read? then e.value.data else []
    {
      if next == |events| {
        return None;
      }
      e := Some(events[next]);
      next := next + 1;
    }
  }

  datatype Message = Head(status: nat, headers: seq<Field>) | Body(data: seq<byte>) | Error(status: nat)

  datatype SendResult = Sent | Gone | Stuck

  /** The response channel towards the main loop: what becomes of each message, and the messages so far. */
  class Outgoing {
    const fates: nat -> SendResult
    var offered: seq<Message>

    constructor (fates: nat -> SendResult)
      ensures this.fates == fates && offered == []
    {
      this.fates := fates;
      offered := [];
    }

    ghost predicate TakenTo(n: nat) {
      forall i: nat :: i < n ==> fates(i).Sent?
    }

    /** Every message was taken. */
    ghost predicate AllTaken()
      reads this
    {
      TakenTo(|offered|)
    }

    /** What became of the latest message, all earlier ones having been taken. */
    ghost predicate Latest(r: SendResult)
      reads this
    {
      offered != [] && TakenTo(|offered| - 1) && r == fates(|offered| - 1)
    }

    method Send(m: Message) returns (r: SendResult)
      requires AllTaken()
      modifies this`offered
      ensures offered == old(offered) + [m]
      ensures Latest(r) && (r.Sent? ==> AllTaken())
    {
      offered := offered + [m];
      r := fates(|offered| - 1);
    }
  }

  // ---------------------------------------------------------------------------
  // What a body is
  // ---------------------------------------------------------------------------

  /** The body carried by the bytes after the head. */
  function Framed(framing: Framing, stream: seq<byte>): seq<byte> {
    match framing
    case Length(total) => stream[..Min(total, |stream|)]
    case Chunked => Emitted(Initial(0), stream)
    case UntilEof => stream
  }

  /** The bytes after the head already hold the whole body. */
  predicate WholeBody(framing: Framing, stream: seq<byte>) {
    match framing
    case Length(total) => |stream| >= total
    case Chunked => Run(Initial(0), stream).state.Complete?
    case UntilEof => false
  }

  /** A body of known length is whole exactly when no further bytes can extend it. */
  lemma {:induction false} LengthWhole(total: nat, s: seq<byte>)
    ensures WholeBody(Length(total), s) <==>
            forall t: seq<byte> :: Framed(Length(total), s + t) == Framed(Length(total), s)
  {
    if |s| >= total {
      forall t: seq<byte> ensures Framed(Length(total), s + t) == Framed(Length(total), s) {
        assert (s + t)[..total] == s[..total];
      }
    } else {
      assert |Framed(Length(total), s + [0])| == |s| + 1;
    }
  }

  /** More bytes only extend the body, and not once it is whole. */
  lemma FramedExtends(framing: Framing, s: seq<byte>, t: seq<byte>)
    ensures Framed(framing, s) <= Framed(framing, s + t)
    ensures WholeBody(framing, s) ==> Framed(framing, s + t) == Framed(framing, s)
  {
    if framing.Chunked? {
      RunConcat(Initial(0), s, t);
      if WholeBody(framing, s) {
        TerminalAbsorbs(Run(Initial(0), s), t);
      }
    }
  }

  /** The body bytes among the messages. */
  function BodyOf(messages: seq<Message>): seq<byte> {
    if messages == [] then []
    else
      var last := messages[|messages| - 1];
      BodyOf(messages[..|messages| - 1]) + if last.Body? then last.data else []
  }

  /** The given head, then only bodies. */
  predicate HeadThenBodies(head: Message, messages: seq<Message>) {
    && messages != [] && messages[0] == head && head.Head?
    && forall i :: 1 <= i < |messages| ==> messages[i].Body?
  }

  lemma BodyOfSnoc(messages: seq<Message>, m: Message)
    ensures BodyOf(messages + [m]) == BodyOf(messages) + if m.Body? then m.data else []
  {
    assert (messages + [m])[..|messages|] == messages;
  }

  /** So far the client was offered exactly the body that has arrived. */
  predicate UpToDate(head: Message, framing: Framing, offered: seq<Message>, stream: seq<byte>) {
    HeadThenBodies(head, offered) && BodyOf(offered) == Framed(framing, stream)
  }

  lemma BodyOfHead(head: Message)
    requires head.Head?
    ensures HeadThenBodies(head, [head]) && BodyOf([head]) == []
  {
  }

  /** Hands one piece of body to the channel. */
  method SendBody(outgoing: Outgoing, chunk: seq<byte>, ghost head: Message) returns (r: SendResult)
    requires HeadThenBodies(head, outgoing.offered) && outgoing.AllTaken()
    modifies outgoing
    ensures HeadThenBodies(head, outgoing.offered)
    ensures BodyOf(outgoing.offered) == BodyOf(old(outgoing.offered)) + chunk
    ensures outgoing.Latest(r) && (r.Sent? ==> outgoing.AllTaken())
  {
    BodyOfSnoc(outgoing.offered, Body(chunk));
    r := outgoing.Send(Body(chunk));
  }

  /** Why a body transfer ended. */
  datatype Stop =
    | Finished      // the framing says the body is over
    | PeerClosed
    | ReadFailed
    | TimedOut
    | Suspended     // waiting for the backend for ever
    | ClientGone
    | ClientStuck

  predicate ClientStopped(stop: Stop) {
    stop.ClientGone? || stop.ClientStuck?
  }

  /**
    The outcome of a transfer: one head followed by bodies that make up a prefix
    of the body received. Unless the client stopped taking it, they make up all
    of it, and the transfer is finished exactly when the body is whole.
    */
  predicate Delivered(head: Message, framing: Framing, stop: Stop, offered: seq<Message>, stream: seq<byte>) {
    && HeadThenBodies(head, offered)
    && BodyOf(offered) <= Framed(framing, stream)
    && (!ClientStopped(stop) ==>
          BodyOf(offered) == Framed(framing, stream) && (stop.Finished? <==> WholeBody(framing, stream)))
  }

  /** A transfer ends for cause: the turn that ended the reading, or the message that was not taken. */
  ghost predicate Caused(stop: Stop, incoming: Incoming, outgoing: Outgoing)
    reads incoming, outgoing
  {
    if ClientStopped(stop) then
      outgoing.Latest(if stop.ClientGone? then Gone else Stuck) && (incoming.Open() || incoming.Ended())
    else
      ReadCaused(stop, incoming)
  }

  ghost predicate ReadCaused(stop: Stop, incoming: Incoming)
    reads incoming
  {
    match stop
    case PeerClosed => incoming.Ended() && incoming.events[incoming.next - 1].Closes()
    case ReadFailed => incoming.Ended() && incoming.events[incoming.next - 1].ReadError?
    case TimedOut => incoming.Ended() && incoming.events[incoming.next - 1].Expired?
    case Suspended => incoming.Silent()
    case _ => incoming.Open()
  }

  function StoppedBy(r: SendResult): Stop {
    if r.Gone? then ClientGone else ClientStuck
  }

  // ---------------------------------------------------------------------------
  // Streaming
  // ---------------------------------------------------------------------------

  /** One turn of a read loop: why reading ended, or what was read, nothing if it would block. */
  method ReadTurn(incoming: Incoming) returns (ended: Option<Stop>, data: seq<byte>)
    requires incoming.Open()
    modifies incoming
    ensures incoming.Received() == old(incoming.Received()) + data
    ensures ended.None? ==> incoming.Open()
    ensures incoming.next == old(incoming.next) + if ended == Some(Suspended) then 0 else 1
    ensures ended.Some? ==>
              && data == [] && ReadCaused(ended.value, incoming)
              && !ClientStopped(ended.value) && !ended.value.Finished?
  {
    data := [];
    var event := incoming.Next();
    match event {
      case None => ended := Some(Suspended);
      case Some(Expired) => ended := Some(TimedOut);
      case Some(Blocked) => ended := None;
      case Some(ReadError) => ended := Some(ReadFailed);
      case Some(Read(chunk)) =>
        data := chunk;
        ended := if chunk == [] then Some(PeerClosed) else None;
    }
  }

  lemma DeliveredIfUpToDate(head: Message, framing: Framing, stop: Stop, offered: seq<Message>, stream: seq<byte>)
    requires UpToDate(head, framing, offered, stream)
    requires !ClientStopped(stop) ==> (stop.Finished? <==> WholeBody(framing, stream))
    ensures Delivered(head, framing, stop, offered, stream)
  {
  }

  lemma LengthGrows(total: nat, stream: seq<byte>, data: seq<byte>)
    requires |stream| <= total
    ensures Framed(Length(total), stream + data) ==
            Framed(Length(total), stream) + data[..Min(|data|, total - |stream|)]
  {
  }

  /** Sends on what the length still allows of `data`. */
  method SendWithinLength(
    outgoing: Outgoing, data: seq<byte>, sent: nat, total: nat, ghost head: Message, ghost stream: seq<byte>)
    returns (r: SendResult, sent': nat)
    requires UpToDate(head, Length(total), outgoing.offered, stream) && outgoing.AllTaken()
    requires sent == |stream| <= total
    modifies outgoing
    ensures UpToDate(head, Length(total), outgoing.offered, stream + data)
    ensures sent' == Min(total, |stream + data|)
    ensures outgoing.Latest(r) && (r.Sent? ==> outgoing.AllTaken())
  {
    var take := Min(|data|, total - sent);
    LengthGrows(total, stream, data);
    r := SendBody(outgoing, data[..take], head);
    sent' := sent + take;
  }

  /** Content-Length framing: at most `total` bytes. */
  method StreamBodyLength(incoming: Incoming, outgoing: Outgoing, leftover: seq<byte>, total: nat, ghost head: Message)
    returns (stop: Stop, ghost got: seq<byte>)
    requires incoming.Open() && outgoing.offered == [head] && head.Head? && outgoing.AllTaken()
    modifies incoming, outgoing
    ensures incoming.Received() == old(incoming.Received()) + got
    ensures Delivered(head, Length(total), stop, outgoing.offered, leftover + got) && Caused(stop, incoming, outgoing)
  {
    var sent := 0;
    got := [];
    ghost var stream := leftover;
    BodyOfHead(head);
    stop := Finished;
    if leftover != [] {
      var r;
      assert [] + leftover == leftover;
      r, sent := SendWithinLength(outgoing, leftover, sent, total, head, []);
      if !r.Sent? {
        stop := StoppedBy(r);
      }
    }
    while stop.Finished? && sent < total
      invariant incoming.Received() == old(incoming.Received()) + got && stream == leftover + got
      invariant UpToDate(head, Length(total), outgoing.offered, stream)
      invariant sent == Min(total, |stream|) && Caused(stop, incoming, outgoing)
      invariant stop.Finished? ==> outgoing.AllTaken()
      invariant stop.Finished? || ClientStopped(stop) || sent < total
      decreases stop.Finished?, |incoming.events| - incoming.next
    {
      var ended, data := ReadTurn(incoming);
      Associativity(leftover, got, data);
      Associativity(old(incoming.Received()), got, data);
      if ended.Some? {
        stop := ended.value;
      } else if data != [] {
        var r;
        r, sent := SendWithinLength(outgoing, data, sent, total, head, stream);
        got, stream := got + data, stream + data;
        if !r.Sent? {
          stop := StoppedBy(r);
        }
      }
    }
    DeliveredIfUpToDate(head, Length(total), stop, outgoing.offered, stream);
  }

  /** No framing: everything until the peer closes. */
  method StreamBodyEof(incoming: Incoming, outgoing: Outgoing, leftover: seq<byte>, ghost head: Message)
    returns (stop: Stop, ghost got: seq<byte>)
    requires incoming.Open() && outgoing.offered == [head] && head.Head? && outgoing.AllTaken()
    modifies incoming, outgoing
    ensures incoming.Received() == old(incoming.Received()) + got
    ensures Delivered(head, UntilEof, stop, outgoing.offered, leftover + got) && Caused(stop, incoming, outgoing)
  {
    got := [];
    ghost var stream := leftover;
    BodyOfHead(head);
    if leftover != [] {
      var r := SendBody(outgoing, leftover, head);
      if !r.Sent? {
        stop := StoppedBy(r);
        DeliveredIfUpToDate(head, UntilEof, stop, outgoing.offered, stream);
        assert leftover + got == stream;
        return;
      }
    }
    while true
      invariant incoming.Received() == old(incoming.Received()) + got && stream == leftover + got
      invariant UpToDate(head, UntilEof, outgoing.offered, stream)
      invariant incoming.Open() && outgoing.AllTaken()
      decreases |incoming.events| - incoming.next
    {
      var ended, data := ReadTurn(incoming);
      Associativity(leftover, got, data);
      Associativity(old(incoming.Received()), got, data);
      if ended.Some? {
        stop := ended.value;
        break;
      } else if data != [] {
        got, stream := got + data, stream + data;
        var r := SendBody(outgoing, data, head);
        if !r.Sent? {
          stop := StoppedBy(r);
          break;
        }
      }
    }
    DeliveredIfUpToDate(head, UntilEof, stop, outgoing.offered, stream);
  }

  /** The decoder stands after `stream`. */
  predicate DecodedTo(decoder: ChunkedDecoder, stream: seq<byte>)
    reads decoder
  {
    decoder.Valid() && decoder.View() == Run(Initial(0), stream)
  }

  datatype DrainResult = Drained(complete: bool) | Interrupted(stop: Stop)

  /** The client was offered the given body so far, and all the data that the decoder found in the buffer since. */
  predicate OfferedFrom(head: Message, offered: seq<Message>, body: seq<byte>, before: Decoder, data: seq<byte>) {
    HeadThenBodies(head, offered) && BodyOf(offered) == body + Emitted(before, data)
  }

  /** One turn of the loop of `DrainChunked`: the next span, sent on if it holds data. */
  method DrainSpan(
    decoder: ChunkedDecoder, data: seq<byte>, pos: nat, outgoing: Outgoing,
    ghost head: Message, ghost body: seq<byte>, ghost before: Decoder)
    returns (span: Span, sent: SendResult)
    requires pos < |data| && decoder.Valid() && decoder.View() == Run(before, data[..pos])
    requires OfferedFrom(head, outgoing.offered, body, before, data[..pos]) && outgoing.AllTaken()
    modifies decoder, outgoing
    ensures pos + span.consumed <= |data| && decoder.Valid()
    ensures decoder.View() == Run(before, data[..pos + span.consumed])
    ensures OfferedFrom(head, outgoing.offered, body, before, data[..pos + span.consumed])
    ensures span.complete == decoder.state.Complete?
    ensures span.consumed == 0 ==> decoder.state.Terminal()
    ensures if sent.Sent? then outgoing.AllTaken() else outgoing.Latest(sent)
  {
    var piece;
    span, piece := decoder.NextPiece(before, data, pos);
    Associativity(body, Emitted(before, data[..pos]), piece);
    sent := Sent;
    if span.dataLen > 0 {
      sent := SendBody(outgoing, piece, head);
    }
  }

  /** Decodes one buffer span by span and sends each span on. */
  method DrainChunked(
    decoder: ChunkedDecoder, data: seq<byte>, outgoing: Outgoing, ghost head: Message, ghost stream: seq<byte>)
    returns (r: DrainResult)
    requires DecodedTo(decoder, stream) && UpToDate(head, Chunked, outgoing.offered, stream) && outgoing.AllTaken()
    modifies decoder, outgoing
    ensures HeadThenBodies(head, outgoing.offered)
    ensures r.Drained? ==>
              && DecodedTo(decoder, stream + data) && UpToDate(head, Chunked, outgoing.offered, stream + data)
              && outgoing.AllTaken() && r.complete == (data != [] && WholeBody(Chunked, stream + data))
    ensures r.Interrupted? ==>
              && ClientStopped(r.stop) && outgoing.Latest(if r.stop.ClientGone? then Gone else Stuck)
              && BodyOf(outgoing.offered) <= Framed(Chunked, stream + data)
  {
    ghost var before, body := decoder.View(), BodyOf(outgoing.offered);
    RunConcat(Initial(0), stream, data);
    var pos := 0;
    while pos < |data|
      invariant 0 <= pos <= |data| && decoder.Valid() && decoder.View() == Run(before, data[..pos])
      invariant OfferedFrom(head, outgoing.offered, body, before, data[..pos]) && outgoing.AllTaken()
      invariant pos > 0 ==> !decoder.state.Complete?
    {
      var span, sent := DrainSpan(decoder, data, pos, outgoing, head, body, before);
      pos := pos + span.consumed;
      if !sent.Sent? {
        EmittedPrefix(before, data, pos);
        return Interrupted(StoppedBy(sent));
      }
      if span.complete || span.consumed == 0 {
        RestAbsorbed(before, data, pos);
        return Drained(span.complete);
      }
    }
    assert data[..pos] == data;
    return Drained(false);
  }

  lemma NothingDecoded(head: Message)
    requires head.Head?
    ensures UpToDate(head, Chunked, [head], [])
    ensures Run(Initial(0), []) == Initial(0)
  {
    BodyOfHead(head);
  }

  /** Chunked framing. */
  method StreamBodyChunked(incoming: Incoming, outgoing: Outgoing, leftover: seq<byte>, ghost head: Message)
    returns (stop: Stop, ghost got: seq<byte>)
    requires incoming.Open() && outgoing.offered == [head] && head.Head? && outgoing.AllTaken()
    modifies incoming, outgoing
    ensures incoming.Received() == old(incoming.Received()) + got
    ensures Delivered(head, Chunked, stop, outgoing.offered, leftover + got) && Caused(stop, incoming, outgoing)
  {
    var decoder := new ChunkedDecoder(0);
    got := [];
    ghost var stream := leftover;
    NothingDecoded(head);
    assert leftover == [] + leftover == leftover + [];
    if leftover != [] {
      var r := DrainChunked(decoder, leftover, outgoing, head, []);
      if r.Interrupted? || r.complete {
        stop := if r.Interrupted? then r.stop else Finished;
        return;
      }
    }
    while true
      invariant incoming.Received() == old(incoming.Received()) + got && stream == leftover + got
      invariant DecodedTo(decoder, stream) && UpToDate(head, Chunked, outgoing.offered, stream)
      invariant incoming.Open() && outgoing.AllTaken() && !WholeBody(Chunked, stream)
      decreases |incoming.events| - incoming.next
    {
      var ended, data := ReadTurn(incoming);
      Associativity(leftover, got, data);
      Associativity(old(incoming.Received()), got, data);
      if ended.Some? {
        stop := ended.value;
        break;
      } else if data != [] {
        ghost var before := stream;
        got, stream := got + data, stream + data;
        var r := DrainChunked(decoder, data, outgoing, head, before);
        if r.Interrupted? || r.complete {
          stop := if r.Interrupted? then r.stop else Finished;
          return;
        }
      }
    }
    DeliveredIfUpToDate(head, Chunked, stop, outgoing.offered, stream);
  }

  /** The streaming path for any framing. */
  method StreamBody(incoming: Incoming, outgoing: Outgoing, leftover: seq<byte>, framing: Framing, ghost head: Message)
    returns (stop: Stop, ghost got: seq<byte>)
    requires incoming.Open() && outgoing.offered == [head] && head.Head? && outgoing.AllTaken()
    modifies incoming, outgoing
    ensures incoming.Received() == old(incoming.Received()) + got
    ensures Delivered(head, framing, stop, outgoing.offered, leftover + got) && Caused(stop, incoming, outgoing)
  {
    match framing {
      case Length(total) => stop, got := StreamBodyLength(incoming, outgoing, leftover, total, head);
      case Chunked => stop, got := StreamBodyChunked(incoming, outgoing, leftover, head);
      case UntilEof => stop, got := StreamBodyEof(incoming, outgoing, leftover, head);
    }
  }
}
