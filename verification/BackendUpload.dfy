/**
  The request side of the HTTP/3 backend task (src/http3_stream.rs): writing the
  head, forwarding request frames as chunks, and the terminator.

  The connection is driven by a script of write outcomes: short writes,
  would-block, errors, and the upload being dropped because the response
  finished first. A script that runs out leaves the upload suspended for good,
  so the theorems quantify over every run, cut anywhere. A script is never
  changed; an object only counts how much of it has happened.
  */
module BackendUpload {
  import opened Bytes
  import opened ChunkedDecoding
  import opened ChunkedEncoding
  import opened ChunkedLimits

  /** One write, from submission to whatever happens next. */
  datatype WriteEvent =
    | Wrote(n: nat)             // the socket took n bytes
    | WouldBlock(ready: bool)   // nothing taken; waiting for writability succeeds or fails
    | WriteError
    | Dropped(n: nat)           // the upload is dropped with the write in flight; n bytes still went out
  {
    /** The write takes something, or becomes possible. */
    predicate Progresses() {
      (Wrote? && n > 0) || (WouldBlock? && ready)
    }

    predicate Fails() {
      (Wrote? && n == 0) || (WouldBlock? && !ready) || WriteError?
    }
  }

  datatype WriteResult = Done | Failed | Cancelled

  /** Where writing stands: how many outcomes have happened, what is on the wire, and how the latest buffer fared. */
  datatype Sending = Sending(taken: nat, wire: seq<byte>, result: WriteResult)

  const START: Sending := Sending(0, [], Done)

  /** What becomes of one buffer: every outcome takes as much of it as it says. */
  function Write(writes: seq<WriteEvent>, taken: nat, wire: seq<byte>, data: seq<byte>): Sending
    decreases |writes| - taken
  {
    if data == [] then Sending(taken, wire, Done)
    else if taken >= |writes| then Sending(taken, wire, Cancelled)
    else
      match writes[taken]
      case Wrote(n) =>
        if n == 0 then Sending(taken + 1, wire, Failed)
        else if n >= |data| then Sending(taken + 1, wire + data, Done)
        else Write(writes, taken + 1, wire + data[..n], data[n..])
      case WouldBlock(ready) =>
        if ready then Write(writes, taken + 1, wire, data) else Sending(taken + 1, wire, Failed)
      case WriteError => Sending(taken + 1, wire, Failed)
      case Dropped(n) => Sending(taken + 1, wire + data[..Min(n, |data|)], Cancelled)
  }

  /** What becomes of several buffers: each is written once the one before it is out. */
  function WriteBuffers(writes: seq<WriteEvent>, s: Sending, buffers: seq<seq<byte>>): Sending
    decreases |buffers|
  {
    if buffers == [] || !s.result.Done? then s
    else WriteBuffers(writes, Write(writes, s.taken, s.wire, buffers[0]), buffers[1..])
  }

  class Connection {
    const writes: seq<WriteEvent>     // the outcome of every write, in order
    var taken: nat                    // how many of them have happened
    var wire: seq<byte>               // everything the backend has received

    constructor (writes: seq<WriteEvent>)
      ensures wire == [] && this.writes == writes && taken == 0
    {
      this.writes := writes;
      taken := 0;
      wire := [];
    }

    function After(r: WriteResult): Sending
      reads this
    {
      Sending(taken, wire, r)
    }

    /** Writes the whole buffer, as far as the outcomes allow. */
    method WriteAll(data: seq<byte>) returns (r: WriteResult)
      modifies this
      ensures After(r) == Write(writes, old(taken), old(wire), data)
    {
      ghost var end := Write(writes, taken, wire, data);
      var buf := data;
      while buf != []
        invariant Write(writes, taken, wire, buf) == end
        decreases |writes| - taken
      {
        if taken >= |writes| {
          return Cancelled;
        }
        var event := writes[taken];
        taken := taken + 1;
        match event {
          case Wrote(n) =>
            if n == 0 {
              return Failed;
            } else if n >= |buf| {
              wire := wire + buf;
              return Done;
            } else {
              wire := wire + buf[..n];
              buf := buf[n..];
            }
          case WouldBlock(ready) =>
            if !ready {
              return Failed;
            }
          case WriteError =>
            return Failed;
          case Dropped(n) =>
            wire := wire + buf[..Min(n, |buf|)];
            return Cancelled;
        }
      }
      return Done;
    }
  }

  // ---------------------------------------------------------------------------
  // Laws of writing
  // ---------------------------------------------------------------------------

  /** A prefix of the buffer reaches the wire, all of it on success, and not all of it on failure. */
  lemma {:induction false} WritePrefix(writes: seq<WriteEvent>, taken: nat, wire: seq<byte>, data: seq<byte>)
    ensures var s := Write(writes, taken, wire, data);
            && wire <= s.wire <= wire + data && taken <= s.taken
            && (s.result.Done? ==> s.wire == wire + data)
            && (s.result.Failed? ==> s.wire != wire + data)
    decreases |writes| - taken
  {
    if data != [] && taken < |writes| {
      match writes[taken]
      case Wrote(n) =>
        if 0 < n < |data| {
          WritePrefix(writes, taken + 1, wire + data[..n], data[n..]);
          Associativity(wire, data[..n], data[n..]);
          assert data == data[..n] + data[n..];
        }
      case WouldBlock(ready) => WritePrefix(writes, taken + 1, wire, data);
      case WriteError =>
      case Dropped(n) =>
    }
  }

  /** The same over several buffers: a prefix of their concatenation. */
  lemma {:induction false} BuffersPrefix(writes: seq<WriteEvent>, s: Sending, buffers: seq<seq<byte>>)
    requires s.result.Done?
    ensures var t := WriteBuffers(writes, s, buffers);
            && s.wire <= t.wire <= s.wire + Flatten(buffers)
            && (t.result.Done? ==> t.wire == s.wire + Flatten(buffers))
            && (t.result.Failed? ==> t.wire != s.wire + Flatten(buffers))
    decreases |buffers|
  {
    if buffers != [] {
      var next := Write(writes, s.taken, s.wire, buffers[0]);
      var rest := Flatten(buffers[1..]);
      WritePrefix(writes, s.taken, s.wire, buffers[0]);
      Associativity(s.wire, buffers[0], rest);
      if next.result.Done? {
        BuffersPrefix(writes, next, buffers[1..]);
      }
    }
  }

  /** Buffers may be written in two goes. */
  lemma {:induction false} BuffersConcat(writes: seq<WriteEvent>, s: Sending, a: seq<seq<byte>>, b: seq<seq<byte>>)
    ensures WriteBuffers(writes, s, a + b) == WriteBuffers(writes, WriteBuffers(writes, s, a), b)
    decreases |a|
  {
    if a == [] {
      assert a + b == b;
    } else if s.result.Done? {
      assert (a + b)[1..] == a[1..] + b;
      BuffersConcat(writes, Write(writes, s.taken, s.wire, a[0]), a[1..], b);
    }
  }

  ghost predicate ProgressBetween(writes: seq<WriteEvent>, from: nat, to: nat) {
    to <= |writes| && forall i :: from <= i < to ==> writes[i].Progresses()
  }

  /**
    Why writing ended. Until then every outcome made progress; failure is the
    latest outcome, and what is cancelled was dropped with the latest outcome or
    waits at the end of the script.
    */
  ghost predicate Because(writes: seq<WriteEvent>, from: nat, s: Sending) {
    match s.result
    case Done => ProgressBetween(writes, from, s.taken)
    case Failed =>
      from < s.taken <= |writes| && ProgressBetween(writes, from, s.taken - 1) && writes[s.taken - 1].Fails()
    case Cancelled =>
      || (s.taken == |writes| && ProgressBetween(writes, from, s.taken))
      || (from < s.taken <= |writes| && ProgressBetween(writes, from, s.taken - 1) && writes[s.taken - 1].Dropped?)
  }

  lemma {:induction false} WriteBecause(writes: seq<WriteEvent>, taken: nat, wire: seq<byte>, data: seq<byte>)
    requires taken <= |writes|
    ensures Because(writes, taken, Write(writes, taken, wire, data))
    ensures taken <= Write(writes, taken, wire, data).taken <= |writes|
    decreases |writes| - taken
  {
    if data != [] && taken < |writes| {
      match writes[taken]
      case Wrote(n) =>
        if 0 < n < |data| {
          WriteBecause(writes, taken + 1, wire + data[..n], data[n..]);
        }
      case WouldBlock(ready) => WriteBecause(writes, taken + 1, wire, data);
      case WriteError =>
      case Dropped(n) =>
    }
  }

  lemma {:induction false} BuffersBecause(writes: seq<WriteEvent>, s: Sending, buffers: seq<seq<byte>>)
    requires s.result.Done? && s.taken <= |writes|
    ensures Because(writes, s.taken, WriteBuffers(writes, s, buffers))
    decreases |buffers|
  {
    if buffers != [] {
      var next := Write(writes, s.taken, s.wire, buffers[0]);
      WriteBecause(writes, s.taken, s.wire, buffers[0]);
      if next.result.Done? {
        BuffersBecause(writes, next, buffers[1..]);
      }
    }
  }

  /** A script of outcomes that all make progress, with as many writes as bytes, is enough for any buffers. */
  lemma {:induction false} RoomForAll(writes: seq<WriteEvent>, s: Sending, buffers: seq<seq<byte>>)
    requires s.result.Done? && s.taken + |Flatten(buffers)| <= |writes|
    requires forall i :: s.taken <= i < |writes| ==> writes[i].Wrote? && writes[i].n > 0
    ensures WriteBuffers(writes, s, buffers).result.Done?
    decreases |buffers|
  {
    if buffers != [] {
      RoomForOne(writes, s.taken, s.wire, buffers[0]);
      RoomForAll(writes, Write(writes, s.taken, s.wire, buffers[0]), buffers[1..]);
    }
  }

  lemma {:induction false} RoomForOne(writes: seq<WriteEvent>, taken: nat, wire: seq<byte>, data: seq<byte>)
    requires taken + |data| <= |writes|
    requires forall i :: taken <= i < |writes| ==> writes[i].Wrote? && writes[i].n > 0
    ensures var s := Write(writes, taken, wire, data); s.result.Done? && taken <= s.taken <= taken + |data|
    decreases |data|
  {
    if data != [] && writes[taken].n < |data| {
      RoomForOne(writes, taken + 1, wire + data[..writes[taken].n], data[writes[taken].n..]);
    }
  }

  /** What receiving from the request-body channel gives: a frame, the end of the body, or nothing yet. */
  datatype Received = Frame(data: seq<byte>) | EndOfBody | Pending

  /** The receiving end of the request-body channel: frames in order, then closed or left open. */
  class BodyChannel {
    var frames: seq<seq<byte>>
    var closed: bool

    constructor (frames: seq<seq<byte>>, closed: bool)
      ensures this.frames == frames && this.closed == closed
    {
      this.frames := frames;
      this.closed := closed;
    }

    method Receive() returns (r: Received)
      modifies this`frames
      ensures old(frames) != [] ==> r == Frame(old(frames)[0]) && frames == old(frames)[1..]
      ensures old(frames) == [] ==> r == (if closed then EndOfBody else Pending) && frames == []
    {
      if frames != [] {
        r := Frame(frames[0]);
        frames := frames[1..];
      } else {
        r := if closed then EndOfBody else Pending;
      }
    }
  }

  /** One request frame as the three buffers of a chunk. */
  function FrameBuffers(data: seq<byte>): seq<seq<byte>> {
    if data == [] then [] else [HexNumeral(|data|) + CRLF, data, CRLF]
  }

  /** The buffers of an upload: those of each frame, and the terminator if the body ends. */
  function UploadBuffers(frames: seq<seq<byte>>, closed: bool): seq<seq<byte>> {
    if frames == [] then if closed then [TERMINATOR] else []
    else FrameBuffers(frames[0]) + UploadBuffers(frames[1..], closed)
  }

  /** What an upload of these frames puts on the wire. */
  function UploadText(frames: seq<seq<byte>>, closed: bool): seq<byte> {
    if closed then Encode(frames) else EncodeFrames(frames)
  }

  lemma FrameBuffersText(data: seq<byte>)
    ensures Flatten(FrameBuffers(data)) == EncodeFrame(data)
  {
    if data != [] {
      var line := HexNumeral(|data|) + CRLF;
      FlattenSingleton(CRLF);
      assert [data, CRLF][1..] == [CRLF];
      assert Flatten([data, CRLF]) == data + CRLF;
      assert [line, data, CRLF][1..] == [data, CRLF];
      Associativity(line, data, CRLF);
    }
  }

  lemma {:induction false} UploadBuffersText(frames: seq<seq<byte>>, closed: bool)
    ensures Flatten(UploadBuffers(frames, closed)) == UploadText(frames, closed)
  {
    if frames == [] {
      FlattenSingleton(TERMINATOR);
      assert [] + TERMINATOR == TERMINATOR;
    } else {
      FrameBuffersText(frames[0]);
      FlattenConcat(FrameBuffers(frames[0]), UploadBuffers(frames[1..], closed));
      UploadBuffersText(frames[1..], closed);
      Associativity(EncodeFrame(frames[0]), EncodeFrames(frames[1..]), TERMINATOR);
    }
  }

  /** One request frame as a chunk, in three writes. */
  method SendBackendChunk(connection: Connection, data: seq<byte>) returns (r: WriteResult)
    requires |data| <= U64_MAX
    modifies connection
    ensures connection.After(r) == WriteBuffers(connection.writes, old(connection.After(Done)), FrameBuffers(data))
  {
    if data == [] {
      return Done;
    }
    var header := PushChunkSizeLine([], |data|);
    ghost var line := HexNumeral(|data|) + CRLF;
    assert header == line;
    WriteThree(connection.writes, connection.After(Done), line, data, CRLF);
    r := connection.WriteAll(header);
    if !r.Done? {
      return;
    }
    r := connection.WriteAll(data);
    if !r.Done? {
      return;
    }
    r := connection.WriteAll(CRLF);
  }

  lemma {:induction false} WriteThree(
    writes: seq<WriteEvent>, s: Sending, a: seq<byte>, b: seq<byte>, c: seq<byte>)
    requires s.result.Done?
    ensures var x := Write(writes, s.taken, s.wire, a);
            var y := Write(writes, x.taken, x.wire, b);
            WriteBuffers(writes, s, [a, b, c]) ==
            if !x.result.Done? then x else if !y.result.Done? then y else Write(writes, y.taken, y.wire, c)
  {
    var x := Write(writes, s.taken, s.wire, a);
    assert [a, b, c][1..] == [b, c] && [b, c][1..] == [c];
    assert WriteBuffers(writes, s, [a, b, c]) == WriteBuffers(writes, x, [b, c]);
    if x.result.Done? {
      var y := Write(writes, x.taken, x.wire, b);
      assert WriteBuffers(writes, x, [b, c]) == WriteBuffers(writes, y, [c]);
      if y.result.Done? {
        WriteLast(writes, y, c);
      }
    }
  }

  lemma {:induction false} WriteLast(writes: seq<WriteEvent>, s: Sending, a: seq<byte>)
    requires s.result.Done?
    ensures WriteBuffers(writes, s, [a]) == Write(writes, s.taken, s.wire, a)
  {
    assert [a][1..] == [];
  }

  /** How the upload ended: all sent, nothing more to send for now, or writing broke off. */
  datatype UploadEnd = Uploaded | NoMoreFrames | WritingEnded(r: WriteResult)

  function EndOf(s: Sending, closed: bool): UploadEnd {
    if !s.result.Done? then WritingEnded(s.result) else if closed then Uploaded else NoMoreFrames
  }

  /** The upload future: frames until the body ends, then the terminator, as far as the outcomes allow. */
  method Upload(connection: Connection, channel: BodyChannel) returns (end: UploadEnd)
    requires Sized(channel.frames)
    modifies connection, channel`frames
    ensures var s := WriteBuffers(connection.writes, old(connection.After(Done)),
                                  UploadBuffers(old(channel.frames), channel.closed));
            end == EndOf(s, channel.closed) && connection.After(s.result) == s
  {
    ghost var last :=
      WriteBuffers(connection.writes, connection.After(Done), UploadBuffers(channel.frames, channel.closed));
    while true
      invariant Sized(channel.frames)
      invariant last ==
        WriteBuffers(connection.writes, connection.After(Done), UploadBuffers(channel.frames, channel.closed))
      decreases |channel.frames|
    {
      ghost var before := connection.After(Done);
      var received := channel.Receive();
      match received {
        case Frame(data) =>
          BuffersConcat(connection.writes, before, FrameBuffers(data), UploadBuffers(channel.frames, channel.closed));
          var r := SendBackendChunk(connection, data);
          if !r.Done? {
            return WritingEnded(r);
          }
        case EndOfBody =>
          WriteLast(connection.writes, before, TERMINATOR);
          var r := connection.WriteAll(TERMINATOR);
          return if r.Done? then Uploaded else WritingEnded(r);
        case Pending =>
          return NoMoreFrames;
      }
    }
  }

  // ---------------------------------------------------------------------------
  // The request side of the backend task
  // ---------------------------------------------------------------------------

  const CHUNKED_HEADER: seq<byte> := Ascii("Transfer-Encoding: chunked\r\n\r\n")

  /** How far the request side got before the response is awaited. */
  datatype Stage = Rejected(status: int) | AwaitResponse | Suspended

  /** The framing is decided by whether a first frame actually arrives. */
  predicate HasBody(hasRequestBody: bool, frames: seq<seq<byte>>) {
    hasRequestBody && frames != []
  }

  /** The whole request as the backend should see it. */
  function RequestText(head: seq<byte>, hasRequestBody: bool, frames: seq<seq<byte>>, closed: bool): seq<byte> {
    if HasBody(hasRequestBody, frames) then head + CHUNKED_HEADER + UploadText(frames, closed)
    else head + CRLF
  }

  /** A body was announced, and nothing of it has come. */
  predicate AwaitsBody(hasRequestBody: bool, frames: seq<seq<byte>>, closed: bool) {
    hasRequestBody && frames == [] && !closed
  }

  /** What is written before the response is awaited: the head, and the first chunk if there is a body. */
  function StartBuffers(head: seq<byte>, hasRequestBody: bool, frames: seq<seq<byte>>): seq<seq<byte>> {
    if HasBody(hasRequestBody, frames) then [head + CHUNKED_HEADER] + FrameBuffers(frames[0]) else [head + CRLF]
  }

  /** All that is written, the upload included. */
  function RequestBuffers(
    head: seq<byte>, hasRequestBody: bool, frames: seq<seq<byte>>, closed: bool): seq<seq<byte>>
  {
    StartBuffers(head, hasRequestBody, frames)
    + if HasBody(hasRequestBody, frames) then UploadBuffers(frames[1..], closed) else []
  }

  lemma {:induction false} RequestBuffersText(
    head: seq<byte>, hasRequestBody: bool, frames: seq<seq<byte>>, closed: bool)
    ensures Flatten(RequestBuffers(head, hasRequestBody, frames, closed)) ==
            RequestText(head, hasRequestBody, frames, closed)
  {
    if HasBody(hasRequestBody, frames) {
      var first, upload := head + CHUNKED_HEADER, UploadBuffers(frames, closed);
      Associativity([first], FrameBuffers(frames[0]), UploadBuffers(frames[1..], closed));
      FlattenConcat([first], upload);
      FlattenSingleton(first);
      UploadBuffersText(frames, closed);
    } else {
      assert RequestBuffers(head, hasRequestBody, frames, closed) == [head + CRLF];
      FlattenSingleton(head + CRLF);
    }
  }

  /** The stage that the outcomes of the writes lead to. */
  function StageOf(
    writes: seq<WriteEvent>, head: seq<byte>, hasRequestBody: bool, frames: seq<seq<byte>>, closed: bool): Stage
  {
    if AwaitsBody(hasRequestBody, frames, closed) then Suspended
    else
      StageAfter(WriteBuffers(writes, START, StartBuffers(head, hasRequestBody, frames)).result)
  }

  function StageAfter(r: WriteResult): Stage {
    match r
    case Done => AwaitResponse
    case Failed => Rejected(502)
    case Cancelled => Suspended
  }

  /** What the outcomes of the writes bring to the wire. */
  function RequestSent(
    writes: seq<WriteEvent>, head: seq<byte>, hasRequestBody: bool, frames: seq<seq<byte>>, closed: bool): Sending
  {
    if AwaitsBody(hasRequestBody, frames, closed) then START
    else WriteBuffers(writes, START, RequestBuffers(head, hasRequestBody, frames, closed))
  }

  /**
    What the wire holds, in any run: a prefix of the request, with the cause of
    anything less; all of it when every buffer got out, unless the body is still
    awaited, and not all of it when a write failed; and the start of the request
    when the response is awaited.
    */
  lemma {:induction false} RequestOnWire(
    writes: seq<WriteEvent>, head: seq<byte>, hasRequestBody: bool, frames: seq<seq<byte>>, closed: bool)
    ensures var s := RequestSent(writes, head, hasRequestBody, frames, closed);
            var text := RequestText(head, hasRequestBody, frames, closed);
            var stage := StageOf(writes, head, hasRequestBody, frames, closed);
            && s.wire <= text && Because(writes, 0, s)
            && (s.result.Done? && !AwaitsBody(hasRequestBody, frames, closed) ==> s.wire == text)
            && (s.result.Failed? ==> s.wire != text)
            && (stage.AwaitResponse? ==> Flatten(StartBuffers(head, hasRequestBody, frames)) <= s.wire)
            && (stage.Rejected? ==> stage.status == 502 && s.result.Failed?)
            && (s.result.Done? && !AwaitsBody(hasRequestBody, frames, closed) ==> stage.AwaitResponse?)
  {
    var start, all := StartBuffers(head, hasRequestBody, frames), RequestBuffers(head, hasRequestBody, frames, closed);
    RequestBuffersText(head, hasRequestBody, frames, closed);
    BuffersPrefix(writes, START, all);
    BuffersBecause(writes, START, all);
    assert [] + Flatten(all) == Flatten(all);
    var rest := all[|start|..];
    assert all == start + rest;
    BuffersConcat(writes, START, start, rest);
    BuffersPrefix(writes, START, start);
    var t := WriteBuffers(writes, START, start);
    if t.result.Done? {
      BuffersPrefix(writes, t, rest);
      assert [] + Flatten(start) == Flatten(start);
    }
  }

  /** The chunked head and the first chunk, which are written before the response is awaited. */
  method StartChunkedRequest(connection: Connection, head: seq<byte>, first: seq<byte>) returns (r: WriteResult)
    requires |first| <= U64_MAX
    modifies connection
    ensures connection.After(r) ==
            WriteBuffers(connection.writes, old(connection.After(Done)), [head + CHUNKED_HEADER] + FrameBuffers(first))
  {
    BuffersConcat(connection.writes, connection.After(Done), [head + CHUNKED_HEADER], FrameBuffers(first));
    WriteLast(connection.writes, connection.After(Done), head + CHUNKED_HEADER);
    r := connection.WriteAll(head + CHUNKED_HEADER);
    if r.Done? {
      r := SendBackendChunk(connection, first);
    }
  }

  /** A request with a body: chunked head, first chunk, then the upload next to the response. */
  method RunChunkedRequest(connection: Connection, channel: BodyChannel, head: seq<byte>, first: seq<byte>)
    returns (stage: Stage)
    requires connection.After(Done) == START && Sized([first] + channel.frames)
    modifies connection, channel`frames
    ensures var frames := [first] + old(channel.frames);
            var s := RequestSent(connection.writes, head, true, frames, channel.closed);
            && stage == StageOf(connection.writes, head, true, frames, channel.closed)
            && connection.After(s.result) == s
  {
    ghost var frames := [first] + channel.frames;
    assert |first| <= U64_MAX && Sized(channel.frames) by {
      assert frames[0] == first;
      assert forall i :: 0 <= i < |channel.frames| ==> channel.frames[i] == frames[i + 1];
    }
    assert frames[1..] == channel.frames;
    BuffersConcat(connection.writes, START, StartBuffers(head, true, frames),
                  UploadBuffers(channel.frames, channel.closed));
    var r := StartChunkedRequest(connection, head, first);
    if !r.Done? {
      return if r.Failed? then Rejected(502) else Suspended;
    }
    var _ := Upload(connection, channel);
    return AwaitResponse;
  }

  /** A request without a body: the head and a blank line. */
  method RunPlainRequest(connection: Connection, head: seq<byte>) returns (stage: Stage)
    requires connection.After(Done) == START
    modifies connection
    ensures var s := WriteBuffers(connection.writes, START, [head + CRLF]);
            stage == StageAfter(s.result) && connection.After(s.result) == s
  {
    WriteLast(connection.writes, START, head + CRLF);
    var r := connection.WriteAll(head + CRLF);
    match r {
      case Done => return AwaitResponse;
      case Failed => return Rejected(502);
      case Cancelled => return Suspended;
    }
  }

  /**
    The request side of the backend task. A failed head or first chunk rejects
    the request; a later upload failure does not, because the response decides.
    In every run the stage reached and the bytes on the wire are those that the
    outcomes of the writes lead to.
    */
  method RunRequest(connection: Connection, channel: BodyChannel, head: seq<byte>, hasRequestBody: bool)
    returns (stage: Stage)
    requires connection.After(Done) == START && Sized(channel.frames)
    modifies connection, channel`frames
    ensures var s := RequestSent(connection.writes, head, hasRequestBody, old(channel.frames), channel.closed);
            && stage == StageOf(connection.writes, head, hasRequestBody, old(channel.frames), channel.closed)
            && connection.After(s.result) == s
  {
    ghost var all := channel.frames;
    var first := EndOfBody;
    if hasRequestBody {
      first := channel.Receive();
    }
    match first {
      case Pending =>
        return Suspended;
      case EndOfBody =>
        assert [head + CRLF] + [] == [head + CRLF];
        stage := RunPlainRequest(connection, head);
      case Frame(data) =>
        assert all == [data] + channel.frames;
        stage := RunChunkedRequest(connection, channel, head, data);
    }
  }

  /**
    The safety of every run of the upload, aborted or not: what the backend
    decodes after the head is a prefix of the body, and it sees a complete body
    exactly when the body ended and every byte of it was written.
    */
  lemma AbortedUploadNeverCompletes(head: seq<byte>, frames: seq<seq<byte>>, closed: bool, wire: seq<byte>)
    requires Sized(frames) && frames != []
    requires wire <= RequestText(head, true, frames, closed)
    requires |head + CHUNKED_HEADER| <= |wire|
    ensures var sent := wire[|head + CHUNKED_HEADER|..];
            && Emitted(Initial(0), sent) <= Flatten(frames)
            && !Run(Initial(0), sent).state.SizeLimitExceeded?
            && (Run(Initial(0), sent).state.Complete? <==> closed && wire == RequestText(head, true, frames, closed))
  {
    var text := head + CHUNKED_HEADER;
    var sent := wire[|text|..];
    assert RequestText(head, true, frames, closed)[|text|..] == UploadText(frames, closed);
    assert sent <= UploadText(frames, closed) <= Encode(frames);
    TruncatedUpload(frames, sent);
    UnlimitedNeverRefuses(Initial(0), sent);
    assert wire == text + sent;
    assert !closed ==> |sent| <= |EncodeFrames(frames)| < |Encode(frames)|;
  }
}
