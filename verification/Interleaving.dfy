/**
  The upload and the response side by side, as the backend task polls them
  (`run_backend_task` of src/http3_stream.rs): step by step, in any order. Once
  the request is started, a step is one outcome of a write of the upload or one
  turn of the response. The turn that ends the response drops the upload, with
  any part of a write in flight still going out.

  Every run of this system leaves on the wire what the request side alone
  leaves for some script of writes. That is why the contracts of `BackendUpload`
  and `BackendTask`, which take one script for each direction, speak about every
  interleaving.
  */
module Interleaving {
  import opened Bytes
  import opened ChunkedDecoding
  import opened ChunkedEncoding
  import opened BackendUpload

  // ---------------------------------------------------------------------------
  // The upload, one outcome at a time
  // ---------------------------------------------------------------------------

  /** The buffers that are left, the first one perhaps partly written, and the result once there is one. */
  datatype Uploader = Uploader(taken: nat, wire: seq<byte>, left: seq<seq<byte>>, result: Option<WriteResult>)

  function Unwritten(buffers: seq<seq<byte>>): seq<seq<byte>> {
    if buffers != [] && buffers[0] == [] then Unwritten(buffers[1..]) else buffers
  }

  /** A write is in flight. */
  predicate Busy(u: Uploader) {
    u.result.None? && Unwritten(u.left) != []
  }

  function Push(u: Uploader, e: WriteEvent): Uploader
    requires Busy(u)
  {
    var buffer, rest := Unwritten(u.left)[0], Unwritten(u.left)[1..];
    if e.Fails() then u.(taken := u.taken + 1, result := Some(Failed))
    else
      match e
      case Wrote(n) =>
        var m := Min(n, |buffer|);
        u.(taken := u.taken + 1, wire := u.wire + buffer[..m], left := [buffer[m..]] + rest)
      case Dropped(n) =>
        u.(taken := u.taken + 1, wire := u.wire + buffer[..Min(n, |buffer|)], result := Some(Cancelled))
      case _ => u.(taken := u.taken + 1)
  }

  /** What the rest of a script makes of the upload from here. */
  function Finish(script: seq<WriteEvent>, u: Uploader): Sending {
    match u.result
    case Some(r) => Sending(u.taken, u.wire, r)
    case None => WriteBuffers(script, Sending(u.taken, u.wire, Done), u.left)
  }

  lemma {:induction false} UnwrittenIsAll(script: seq<WriteEvent>, s: Sending, buffers: seq<seq<byte>>)
    requires s.result.Done?
    ensures WriteBuffers(script, s, buffers) == WriteBuffers(script, s, Unwritten(buffers))
    ensures Unwritten(buffers) != [] ==> Unwritten(buffers)[0] != []
    decreases |buffers|
  {
    if buffers != [] && buffers[0] == [] {
      UnwrittenIsAll(script, s, buffers[1..]);
    }
  }

  /** One outcome less of the script, one step further of the upload. */
  lemma {:induction false} PushAgrees(script: seq<WriteEvent>, u: Uploader)
    requires Busy(u) && u.taken < |script|
    ensures Finish(script, u) == Finish(script, Push(u, script[u.taken]))
  {
    var s, e := Sending(u.taken, u.wire, Done), script[u.taken];
    var buffer, rest := Unwritten(u.left)[0], Unwritten(u.left)[1..];
    UnwrittenIsAll(script, s, u.left);
    var next := Write(script, s.taken, s.wire, buffer);
    assert Finish(script, u) == WriteBuffers(script, next, rest);
    if e.Wrote? && e.n > 0 {
      var m := Min(e.n, |buffer|);
      assert m == |buffer| ==> buffer[..m] == buffer;
      assert ([buffer[m..]] + rest)[1..] == rest;
    } else if e.WouldBlock? && e.ready {
      UnwrittenIsAll(script, Sending(u.taken + 1, u.wire, Done), u.left);
    }
  }

  // ---------------------------------------------------------------------------
  // Both futures
  // ---------------------------------------------------------------------------

  datatype System = System(upload: Uploader, turns: nat, over: bool)

  function Initially(buffers: seq<seq<byte>>): System {
    System(Uploader(0, [], buffers, None), 0, false)
  }

  predicate UploadMoves(writes: seq<WriteEvent>, s: System, t: System) {
    && !s.over && Busy(s.upload) && s.upload.taken < |writes|
    && t == s.(upload := Push(s.upload, writes[s.upload.taken]))
  }

  /** The upload dropped, with n bytes of a write in flight still going out. */
  function Cut(u: Uploader, n: nat): Uploader {
    if Busy(u) then Push(u, Dropped(n)) else u
  }

  /** The response is polled once the start of the request, of this length, is out. */
  ghost predicate ResponseMoves(ends: nat -> bool, start: nat, s: System, t: System) {
    && !s.over && |s.upload.wire| >= start
    && t.turns == s.turns + 1 && t.over == ends(t.turns)
    && if t.over then exists n: nat :: t.upload == Cut(s.upload, n) else t.upload == s.upload
  }

  ghost predicate Moves(writes: seq<WriteEvent>, ends: nat -> bool, start: nat, s: System, t: System) {
    UploadMoves(writes, s, t) || ResponseMoves(ends, start, s, t)
  }

  /** Any order of steps, from the beginning. */
  ghost predicate IsRun(
    writes: seq<WriteEvent>, buffers: seq<seq<byte>>, ends: nat -> bool, start: nat, run: seq<System>)
  {
    && run != [] && run[0] == Initially(buffers)
    && forall i :: 0 < i < |run| ==> Moves(writes, ends, start, run[i - 1], run[i])
  }

  /** Whatever follows in the script, it goes on from this state of the upload. */
  ghost predicate LeadsTo(script: seq<WriteEvent>, buffers: seq<seq<byte>>, u: Uploader) {
    && |script| == u.taken
    && forall more: seq<WriteEvent> :: WriteBuffers(script + more, START, buffers) == Finish(script + more, u)
  }

  /** The script that a state of the system stands for: the outcomes so far, and the drop if there was one. */
  ghost predicate StandsFor(
    writes: seq<WriteEvent>, buffers: seq<seq<byte>>, script: seq<WriteEvent>, s: System)
  {
    && LeadsTo(script, buffers, s.upload)
    && if s.upload.result == Some(Cancelled) then
         s.over && s.upload.taken > 0 && s.upload.taken - 1 <= |writes|
         && script[..s.upload.taken - 1] == writes[..s.upload.taken - 1] && script[s.upload.taken - 1].Dropped?
       else
         && s.upload.taken <= |writes| && script == writes[..s.upload.taken]
         && (s.upload.result.Some? ==>
               s.upload.result == Some(Failed) && s.upload.taken > 0 && writes[s.upload.taken - 1].Fails())
  }

  lemma {:induction false} LeadsOn(script: seq<WriteEvent>, buffers: seq<seq<byte>>, u: Uploader, e: WriteEvent)
    requires LeadsTo(script, buffers, u) && Busy(u)
    ensures LeadsTo(script + [e], buffers, Push(u, e))
  {
    forall more: seq<WriteEvent>
      ensures WriteBuffers(script + [e] + more, START, buffers) == Finish(script + [e] + more, Push(u, e))
    {
      Associativity(script, [e], more);
      assert WriteBuffers(script + ([e] + more), START, buffers) == Finish(script + ([e] + more), u);
      PushAgrees(script + [e] + more, u);
    }
  }

  lemma LeadsFromStart(buffers: seq<seq<byte>>)
    ensures LeadsTo([], buffers, Initially(buffers).upload)
  {
    forall more: seq<WriteEvent>
      ensures WriteBuffers([] + more, START, buffers) == Finish([] + more, Initially(buffers).upload)
    {
    }
  }

  lemma {:induction false} StepStandsFor(
    writes: seq<WriteEvent>, buffers: seq<seq<byte>>, ends: nat -> bool, start: nat,
    script: seq<WriteEvent>, s: System, t: System)
    returns (script': seq<WriteEvent>)
    requires (forall e :: e in writes ==> !e.Dropped?) && StandsFor(writes, buffers, script, s)
    requires Moves(writes, ends, start, s, t)
    ensures StandsFor(writes, buffers, script', t)
  {
    script' := script;
    if UploadMoves(writes, s, t) {
      var e := writes[s.upload.taken];
      assert e in writes;
      script' := script + [e];
      LeadsOn(script, buffers, s.upload, e);
      assert writes[..s.upload.taken + 1] == writes[..s.upload.taken] + [e];
    } else if t.over && Busy(s.upload) {
      var n: nat :| t.upload == Cut(s.upload, n);
      script' := script + [Dropped(n)];
      LeadsOn(script, buffers, s.upload, Dropped(n));
      assert script'[..s.upload.taken] == script;
    }
  }

  /**
    Every interleaving stands for a script. In particular the upload is cut off
    only by its own write, or by the end of the response.
    */
  lemma {:induction false} EveryRunStandsFor(
    writes: seq<WriteEvent>, buffers: seq<seq<byte>>, ends: nat -> bool, start: nat, run: seq<System>)
    returns (script: seq<WriteEvent>)
    requires (forall e :: e in writes ==> !e.Dropped?) && IsRun(writes, buffers, ends, start, run)
    ensures StandsFor(writes, buffers, script, run[|run| - 1])
    decreases |run|
  {
    if |run| == 1 {
      LeadsFromStart(buffers);
      script := [];
      assert writes[..0] == [];
    } else {
      var before := run[..|run| - 1];
      var earlier := EveryRunStandsFor(writes, buffers, ends, start, before);
      script := StepStandsFor(writes, buffers, ends, start, earlier, before[|before| - 1], run[|run| - 1]);
    }
  }

  /** With its script used up, the upload stays where it is. */
  lemma {:induction false} WireOf(script: seq<WriteEvent>, buffers: seq<seq<byte>>, u: Uploader)
    requires LeadsTo(script, buffers, u)
    ensures WriteBuffers(script, START, buffers).wire == u.wire
  {
    assert script + [] == script;
    assert WriteBuffers(script + [], START, buffers) == Finish(script + [], u);
    UnwrittenIsAll(script, Sending(u.taken, u.wire, Done), u.left);
  }

  /**
    In every state of every interleaving the wire holds a prefix of the request,
    and what the backend decodes of the body is a prefix of it, complete exactly
    when the body ended and every byte was written.
    */
  lemma {:induction false} EveryRunIsSafe(
    writes: seq<WriteEvent>, head: seq<byte>, frames: seq<seq<byte>>, closed: bool, ends: nat -> bool, start: nat,
    run: seq<System>)
    requires Sized(frames) && frames != [] && forall e :: e in writes ==> !e.Dropped?
    requires IsRun(writes, RequestBuffers(head, true, frames, closed), ends, start, run)
    ensures var wire := run[|run| - 1].upload.wire;
            && wire <= RequestText(head, true, frames, closed)
            && (|head + CHUNKED_HEADER| <= |wire| ==>
                  var sent := wire[|head + CHUNKED_HEADER|..];
                  && Emitted(Initial(0), sent) <= Flatten(frames)
                  && (Run(Initial(0), sent).state.Complete? <==>
                        closed && wire == RequestText(head, true, frames, closed)))
  {
    var buffers := RequestBuffers(head, true, frames, closed);
    var script := EveryRunStandsFor(writes, buffers, ends, start, run);
    WireOf(script, buffers, run[|run| - 1].upload);
    OnWire(script, head, frames, closed);
    var wire := run[|run| - 1].upload.wire;
    if |head + CHUNKED_HEADER| <= |wire| {
      AbortedUploadNeverCompletes(head, frames, closed, wire);
    }
  }

  lemma {:induction false} OnWire(script: seq<WriteEvent>, head: seq<byte>, frames: seq<seq<byte>>, closed: bool)
    ensures WriteBuffers(script, START, RequestBuffers(head, true, frames, closed)).wire <=
            RequestText(head, true, frames, closed)
  {
    var buffers := RequestBuffers(head, true, frames, closed);
    BuffersPrefix(script, START, buffers);
    RequestBuffersText(head, true, frames, closed);
    assert [] + Flatten(buffers) == Flatten(buffers);
  }

  // ---------------------------------------------------------------------------
  // Every script is a run
  // ---------------------------------------------------------------------------

  /** The upload alone makes k steps, or as many as it has something to write for. */
  lemma {:induction false} UploadAlone(
    writes: seq<WriteEvent>, buffers: seq<seq<byte>>, ends: nat -> bool, start: nat, k: nat)
    returns (run: seq<System>)
    requires k <= |writes|
    ensures IsRun(writes, buffers, ends, start, run)
    ensures var last := run[|run| - 1];
            && !last.over && last.turns == 0 && last.upload.taken <= k
            && (last.upload.taken == k || !Busy(last.upload))
  {
    run := [Initially(buffers)];
    if k > 0 {
      run := UploadAlone(writes, buffers, ends, start, k - 1);
      var last := run[|run| - 1];
      if Busy(last.upload) {
        var next := last.(upload := Push(last.upload, writes[last.upload.taken]));
        assert UploadMoves(writes, last, next);
        run := Extended(writes, buffers, ends, start, run, next);
      }
    }
  }

  lemma Extended(
    writes: seq<WriteEvent>, buffers: seq<seq<byte>>, ends: nat -> bool, start: nat, run: seq<System>, next: System)
    returns (longer: seq<System>)
    requires IsRun(writes, buffers, ends, start, run) && Moves(writes, ends, start, run[|run| - 1], next)
    ensures IsRun(writes, buffers, ends, start, longer) && longer == run + [next]
  {
    longer := run + [next];
  }

  /** An upload with nothing in flight stays as it is under any further outcomes. */
  lemma {:induction false} IdleStays(
    script: seq<WriteEvent>, more: seq<WriteEvent>, buffers: seq<seq<byte>>, u: Uploader)
    requires LeadsTo(script, buffers, u) && !Busy(u)
    ensures WriteBuffers(script + more, START, buffers).wire == u.wire
  {
    assert WriteBuffers(script + more, START, buffers) == Finish(script + more, u);
    UnwrittenIsAll(script + more, Sending(u.taken, u.wire, Done), u.left);
  }

  /**
    Conversely, outcomes of writes and then a drop are a run of the system, as soon
    as the start of the request is out and the first turn ends the response.
    */
  lemma {:induction false} EveryScriptIsARun(
    writes: seq<WriteEvent>, buffers: seq<seq<byte>>, ends: nat -> bool, start: nat, k: nat, n: nat)
    returns (run: seq<System>)
    requires (forall e :: e in writes ==> !e.Dropped?) && k <= |writes| && ends(1)
    requires start <= |WriteBuffers(writes[..k], START, buffers).wire|
    ensures IsRun(writes, buffers, ends, start, run) && run[|run| - 1].over
    ensures run[|run| - 1].upload.wire == WriteBuffers(writes[..k] + [Dropped(n)], START, buffers).wire
  {
    var before := UploadAlone(writes, buffers, ends, start, k);
    var last := before[|before| - 1];
    var script := EveryRunStandsFor(writes, buffers, ends, start, before);
    var u := last.upload;
    assert writes[..k] == script + writes[u.taken..k];
    if Busy(u) {
      assert writes[..k] == script;
      WireOf(script, buffers, u);
      LeadsOn(script, buffers, u, Dropped(n));
      WireOf(script + [Dropped(n)], buffers, Cut(u, n));
    } else {
      IdleStays(script, writes[u.taken..k], buffers, u);
      IdleStays(script, writes[u.taken..k] + [Dropped(n)], buffers, u);
      Associativity(script, writes[u.taken..k], [Dropped(n)]);
    }
    var next := System(Cut(u, n), 1, true);
    assert ResponseMoves(ends, start, last, next);
    run := Extended(writes, buffers, ends, start, before, next);
  }

  /** Replaying that script through the request side alone brings the same bytes to the wire. */
  method Replay(
    script: seq<WriteEvent>, head: seq<byte>, hasRequestBody: bool, frames: seq<seq<byte>>, closed: bool,
    ghost writes: seq<WriteEvent>, ghost last: System)
    returns (wire: seq<byte>)
    requires Sized(frames) && !AwaitsBody(hasRequestBody, frames, closed)
    requires StandsFor(writes, RequestBuffers(head, hasRequestBody, frames, closed), script, last)
    ensures wire == last.upload.wire
  {
    var connection := new Connection(script);
    var channel := new BodyChannel(frames, closed);
    var _ := RunRequest(connection, channel, head, hasRequestBody);
    WireOf(script, RequestBuffers(head, hasRequestBody, frames, closed), last.upload);
    wire := connection.wire;
  }
}
