/**
  The chunked encoder of the upload path (src/http3_stream.rs): the size line,
  one chunk per non-empty request frame, and the terminator. Its output is
  decoded back by `ChunkedDecoding`.
  */
module ChunkedEncoding {
  import opened Bytes
  import opened ChunkedDecoding

  function HexDigit(d: int): byte
    requires 0 <= d < 16
  {
    if d < 10 then 48 + d else 97 + (d - 10)
  }

  /** The lower-case hexadecimal numeral of n, without leading zeros. */
  function HexNumeral(n: nat): (s: seq<byte>)
    ensures s != []
  {
    if n < 16 then [HexDigit(n)] else HexNumeral(n / 16) + [HexDigit(n % 16)]
  }

  function Pow16(k: nat): nat {
    if k == 0 then 1 else 16 * Pow16(k - 1)
  }

  lemma Pow16At16()
    ensures Pow16(16) == U64_MAX + 1
  {
    assert Pow16(4) == 0x1_0000;
    assert Pow16(8) == 0x1_0000_0000;
    assert Pow16(12) == 0x1_0000_0000_0000;
  }

  /** Appends the size line, filling a 16-digit buffer from its end. */
  method PushChunkSizeLine(buf: seq<byte>, n: u64) returns (out: seq<byte>)
    ensures out == buf + HexNumeral(n) + CRLF
  {
    if n == 0 {
      out := buf + [48];
    } else {
      var tmp := new byte[16](_ => 0);
      var i := 16;
      var left: u64 := n;
      Pow16At16();
      while left > 0
        invariant 0 <= i <= 16
        invariant left < Pow16(i)
        invariant HexNumeral(n) == (if left > 0 then HexNumeral(left) + tmp[i..] else tmp[i..])
      {
        ghost var tail := tmp[i..];
        i := i - 1;
        var d := left % 16;
        tmp[i] := if d < 10 then 48 + d else 97 + (d - 10);
        assert tmp[i..] == [HexDigit(d)] + tail;
        assert left >= 16 ==> HexNumeral(left) + tail == HexNumeral(left / 16) + ([HexDigit(d)] + tail);
        left := left / 16;
      }
      out := buf + tmp[i..];
    }
    out := out + CRLF;
  }

  /** One request frame on the wire. Empty frames are skipped: a zero-size chunk would end the body. */
  function EncodeFrame(data: seq<byte>): seq<byte> {
    if data == [] then [] else HexNumeral(|data|) + CRLF + data + CRLF
  }

  function EncodeFrames(frames: seq<seq<byte>>): seq<byte> {
    if frames == [] then [] else EncodeFrame(frames[0]) + EncodeFrames(frames[1..])
  }

  const TERMINATOR: seq<byte> := [48, CR, LF, CR, LF]

  function Encode(frames: seq<seq<byte>>): seq<byte> {
    EncodeFrames(frames) + TERMINATOR
  }

  /** Frame lengths are `usize` values. */
  predicate Sized(frames: seq<seq<byte>>) {
    forall i :: 0 <= i < |frames| ==> |frames[i]| <= U64_MAX
  }

  lemma {:induction false} EncodeFramesConcat(a: seq<seq<byte>>, b: seq<seq<byte>>)
    ensures EncodeFrames(a + b) == EncodeFrames(a) + EncodeFrames(b)
  {
    if a == [] {
      assert a + b == b;
    } else {
      EncodeFramesConcat(a[1..], b);
      assert (a + b)[1..] == a[1..] + b;
      Associativity(EncodeFrame(a[0]), EncodeFrames(a[1..]), EncodeFrames(b));
    }
  }

  lemma EncodeFramesSnoc(frames: seq<seq<byte>>, frame: seq<byte>)
    ensures EncodeFrames(frames + [frame]) == EncodeFrames(frames) + EncodeFrame(frame)
  {
    EncodeFramesConcat(frames, [frame]);
    assert EncodeFrames([frame]) == EncodeFrame(frame) + EncodeFrames([]);
  }

  // ---------------------------------------------------------------------------
  // Decoding what was encoded
  // ---------------------------------------------------------------------------

  /** The decoder is between two chunks. */
  predicate AtChunkStart(d: Decoder) {
    d.state.ReadingChunkSize? && d.sizeAccumulator == 0 && !d.sizeHasDigit && d.chunkRemaining == 0
  }

  /** A numeral is read back exactly: the saturating accumulator never saturates. */
  lemma {:induction false} NumeralRun(d: Decoder, n: u64)
    requires AtChunkStart(d)
    ensures Run(d, HexNumeral(n)) == d.(sizeAccumulator := n, sizeHasDigit := true)
    ensures Emitted(d, HexNumeral(n)) == []
    decreases n
  {
    if n < 16 {
      RunOne(d, HexDigit(n));
    } else {
      NumeralRun(d, n / 16);
      RunSnoc(d, HexNumeral(n / 16), HexDigit(n % 16));
    }
  }

  lemma SizeLineRun(d: Decoder, n: u64)
    requires AtChunkStart(d)
    ensures Run(d, HexNumeral(n) + CRLF) ==
            EndSizeLine(d.(state := ExpectingChunkSizeLF, sizeAccumulator := n, sizeHasDigit := true))
    ensures Emitted(d, HexNumeral(n) + CRLF) == []
  {
    NumeralRun(d, n);
    RunSnoc(d, HexNumeral(n), CR);
    RunSnoc(d, HexNumeral(n) + [CR], LF);
    assert HexNumeral(n) + CRLF == HexNumeral(n) + [CR] + [LF];
  }

  /** Whether a body of this size gets past the limit, with the saturation of the 64-bit counter. */
  predicate Admits(maxBodySize: u64, size: nat) {
    maxBodySize == 0 || Min(size, U64_MAX) <= maxBodySize
  }

  /** The decoder after a whole admitted chunk. */
  function AfterChunk(d: Decoder, size: nat): Decoder {
    if d.maxBodySize > 0 then d.(totalBodySize := Min(d.totalBodySize + size, U64_MAX)) else d
  }

  lemma DataAndCrlfRun(d: Decoder, data: seq<byte>)
    requires d.state.ReadingChunkData? && d.chunkRemaining == |data| > 0
    ensures Run(d, data + CRLF) == d.(state := ReadingChunkSize, chunkRemaining := 0)
    ensures Emitted(d, data + CRLF) == data
  {
    RunData(d, data);
    RunSnoc(d, data, CR);
    RunSnoc(d, data + [CR], LF);
    assert data + CRLF == data + [CR] + [LF];
  }

  /** One frame: either it passes the limit and its data comes out, or it is refused whole. */
  lemma FrameRun(d: Decoder, data: seq<byte>)
    requires AtChunkStart(d) && |data| <= U64_MAX
    ensures data != [] && !Admits(d.maxBodySize, d.totalBodySize + |data|) ==>
              Run(d, EncodeFrame(data)).state.SizeLimitExceeded? && Emitted(d, EncodeFrame(data)) == []
    ensures data == [] || Admits(d.maxBodySize, d.totalBodySize + |data|) ==>
              Run(d, EncodeFrame(data)) == AfterChunk(d, |data|) && Emitted(d, EncodeFrame(data)) == data
  {
    if data != [] {
      var line := HexNumeral(|data|) + CRLF;
      SizeLineRun(d, |data|);
      assert EncodeFrame(data) == line + (data + CRLF);
      RunConcat(d, line, data + CRLF);
      if Admits(d.maxBodySize, d.totalBodySize + |data|) {
        DataAndCrlfRun(Run(d, line), data);
      } else {
        TerminalAbsorbs(Run(d, line), data + CRLF);
      }
    }
  }

  /** All frames of an admitted body. */
  lemma {:induction false} FramesRun(d: Decoder, frames: seq<seq<byte>>)
    requires AtChunkStart(d) && Sized(frames)
    requires Admits(d.maxBodySize, d.totalBodySize + |Flatten(frames)|)
    ensures Run(d, EncodeFrames(frames)) == AfterChunk(d, |Flatten(frames)|)
    ensures Emitted(d, EncodeFrames(frames)) == Flatten(frames)
    decreases |frames|
  {
    if frames != [] {
      FrameRun(d, frames[0]);
      FramesRun(AfterChunk(d, |frames[0]|), frames[1..]);
      RunConcat(d, EncodeFrame(frames[0]), EncodeFrames(frames[1..]));
    }
  }

  /** The frames of a body over the limit: refused at a chunk boundary. */
  lemma {:induction false} FramesRefused(d: Decoder, frames: seq<seq<byte>>)
    requires AtChunkStart(d) && Sized(frames)
    requires Admits(d.maxBodySize, d.totalBodySize)
    requires !Admits(d.maxBodySize, d.totalBodySize + |Flatten(frames)|)
    ensures Run(d, EncodeFrames(frames)).state.SizeLimitExceeded?
    ensures exists k :: 0 <= k < |frames| && Emitted(d, EncodeFrames(frames)) == Flatten(frames[..k])
    decreases |frames|
  {
    var first, rest := frames[0], frames[1..];
    FrameRun(d, first);
    RunConcat(d, EncodeFrame(first), EncodeFrames(rest));
    if first != [] && !Admits(d.maxBodySize, d.totalBodySize + |first|) {
      TerminalAbsorbs(Run(d, EncodeFrame(first)), EncodeFrames(rest));
      assert Emitted(d, EncodeFrames(frames)) == Flatten(frames[..0]);
    } else {
      FramesRefused(AfterChunk(d, |first|), rest);
      var k :| 0 <= k < |rest| && Emitted(AfterChunk(d, |first|), EncodeFrames(rest)) == Flatten(rest[..k]);
      assert Flatten(frames[..k + 1]) == first + Flatten(rest[..k]) by {
        assert frames[..k + 1][1..] == rest[..k];
      }
      assert Emitted(d, EncodeFrames(frames)) == Flatten(frames[..k + 1]);
    }
  }

  /** The terminator completes the transfer with its last byte. */
  lemma TerminatorRun(d: Decoder)
    requires AtChunkStart(d)
    ensures !Run(d, TERMINATOR[..4]).state.Terminal()
    ensures Run(d, TERMINATOR).state.Complete?
    ensures Emitted(d, TERMINATOR) == []
  {
    SizeLineRun(d, 0);
    assert HexNumeral(0) + CRLF == TERMINATOR[..3];
    RunSnoc(d, TERMINATOR[..3], CR);
    assert TERMINATOR[..4] == TERMINATOR[..3] + [CR];
    RunSnoc(d, TERMINATOR[..4], LF);
    assert TERMINATOR == TERMINATOR[..4] + [LF];
  }

  /**
    Round trip. For every list of frames, decoding the encoder's output either
    returns their concatenation, completing on exactly the last byte, or, when
    the body is over the limit, refuses it at a chunk boundary.
    */
  lemma RoundTrip(frames: seq<seq<byte>>, maxBodySize: u64)
    requires Sized(frames)
    ensures var d := Run(Initial(maxBodySize), Encode(frames));
            && (d.state.Complete? <==> Admits(maxBodySize, |Flatten(frames)|))
            && (d.state.SizeLimitExceeded? <==> !Admits(maxBodySize, |Flatten(frames)|))
    ensures Admits(maxBodySize, |Flatten(frames)|) ==>
              && Emitted(Initial(maxBodySize), Encode(frames)) == Flatten(frames)
              && forall k :: 0 <= k < |Encode(frames)| ==>
                   !Run(Initial(maxBodySize), Encode(frames)[..k]).state.Terminal()
    ensures !Admits(maxBodySize, |Flatten(frames)|) ==>
              exists k :: 0 <= k < |frames| && Emitted(Initial(maxBodySize), Encode(frames)) == Flatten(frames[..k])
  {
    var d := Initial(maxBodySize);
    RunConcat(d, EncodeFrames(frames), TERMINATOR);
    if Admits(maxBodySize, |Flatten(frames)|) {
      FramesRun(d, frames);
      TerminatorRun(Run(d, EncodeFrames(frames)));
      CompleteOnlyAtEnd(d, frames);
    } else {
      FramesRefused(d, frames);
      TerminalAbsorbs(Run(d, EncodeFrames(frames)), TERMINATOR);
    }
  }

  lemma CompleteOnlyAtEnd(d: Decoder, frames: seq<seq<byte>>)
    requires AtChunkStart(d) && Sized(frames)
    requires Admits(d.maxBodySize, d.totalBodySize + |Flatten(frames)|)
    ensures forall k :: 0 <= k < |Encode(frames)| ==> !Run(d, Encode(frames)[..k]).state.Terminal()
  {
    var almost := EncodeFrames(frames) + TERMINATOR[..4];
    FramesRun(d, frames);
    TerminatorRun(Run(d, EncodeFrames(frames)));
    RunConcat(d, EncodeFrames(frames), TERMINATOR[..4]);
    forall k | 0 <= k < |Encode(frames)| ensures !Run(d, Encode(frames)[..k]).state.Terminal() {
      NoEarlyTermination(d, almost, k);
      assert Encode(frames)[..k] == almost[..k];
    }
  }

  /**
    What a backend sees of an upload that stopped anywhere: a prefix of the
    body, and completion only if every byte of the terminator arrived.
    */
  lemma TruncatedUpload(frames: seq<seq<byte>>, sent: seq<byte>)
    requires Sized(frames)
    requires sent <= Encode(frames)
    ensures Emitted(Initial(0), sent) <= Flatten(frames)
    ensures Run(Initial(0), sent).state.Complete? <==> sent == Encode(frames)
  {
    RoundTrip(frames, 0);
    assert sent == Encode(frames)[..|sent|];
    EmittedPrefix(Initial(0), Encode(frames), |sent|);
  }
}
