/**
  The incremental chunked-transfer decoder (section 4.1 of RFC 7230):
  `ChunkedDecoder` of src/http_utils.rs, a byte-driven state machine with a
  span-returning fast path.

  `Step`, `Run` and `Emitted` are the specification: one byte, a whole stream,
  and the body bytes a stream carries. The class is the program. Its fast path
  is proved to agree with the byte-at-a-time machine for every input and every
  split of the stream.
  */
module ChunkedDecoding {
  import opened Bytes

  datatype State =
    | ReadingChunkSize
    | ReadingChunkExtension
    | ExpectingChunkSizeLF
    | ReadingChunkData
    | ExpectingChunkDataCR
    | ExpectingChunkDataLF
    | ReadingTrailerLine
    | ExpectingTrailerLF
    | Complete
    | SizeLimitExceeded
  {
    predicate Terminal() {
      Complete? || SizeLimitExceeded?
    }
  }

  datatype FeedResult = Continue | Completed | LimitExceeded

  /** The value of all decoder fields. */
  datatype Decoder = Decoder(
    state: State,
    chunkRemaining: u64,
    sizeAccumulator: u64,
    sizeHasDigit: bool,
    trailerLineEmpty: bool,
    totalBodySize: u64,
    maxBodySize: u64)

  function Initial(maxBodySize: u64): Decoder {
    Decoder(ReadingChunkSize, 0, 0, false, true, 0, maxBodySize)
  }

  /** The value of a hexadecimal digit of either case. */
  function HexValue(b: byte): (v: Option<int>)
    ensures v.Some? ==> 0 <= v.value < 16
  {
    if 48 <= b <= 57 then Some(b - 48)
    else if 97 <= b <= 102 then Some(b - 97 + 10)
    else if 65 <= b <= 70 then Some(b - 65 + 10)
    else None
  }

  function PushDigit(accumulator: u64, digit: int): u64
    requires 0 <= digit < 16
  {
    SaturatingAdd64(SaturatingMul64(accumulator, 16), digit)
  }

  /** The transition at the line feed that ends a size line. */
  function EndSizeLine(d: Decoder): Decoder {
    if !d.sizeHasDigit then
      d.(state := ReadingChunkSize, sizeAccumulator := 0, sizeHasDigit := false)
    else if d.sizeAccumulator == 0 then
      d.(state := ReadingTrailerLine, trailerLineEmpty := true, sizeAccumulator := 0, sizeHasDigit := false)
    else
      var newTotal := SaturatingAdd64(d.totalBodySize, d.sizeAccumulator);
      if d.maxBodySize > 0 && newTotal > d.maxBodySize then
        d.(state := SizeLimitExceeded)
      else
        d.(state := ReadingChunkData,
           totalBodySize := if d.maxBodySize > 0 then newTotal else d.totalBodySize,
           chunkRemaining := d.sizeAccumulator,
           sizeAccumulator := 0,
           sizeHasDigit := false)
  }

  /** One byte. */
  function Step(d: Decoder, b: byte): Decoder {
    match d.state
    case ReadingChunkSize =>
      (match HexValue(b)
       case Some(digit) => d.(sizeAccumulator := PushDigit(d.sizeAccumulator, digit), sizeHasDigit := true)
       case None =>
         if b == SEMICOLON then d.(state := ReadingChunkExtension)
         else if b == CR then d.(state := ExpectingChunkSizeLF)
         else d)
    case ReadingChunkExtension =>
      if b == CR then d.(state := ExpectingChunkSizeLF) else d
    case ExpectingChunkSizeLF =>
      if b == LF then EndSizeLine(d)
      else d.(state := ReadingChunkSize, sizeAccumulator := 0, sizeHasDigit := false)
    case ReadingChunkData =>
      var left := Max(d.chunkRemaining - 1, 0);
      d.(chunkRemaining := left, state := if left == 0 then ExpectingChunkDataCR else ReadingChunkData)
    case ExpectingChunkDataCR =>
      d.(state := if b == CR then ExpectingChunkDataLF else ReadingChunkSize)
    case ExpectingChunkDataLF =>
      d.(state := ReadingChunkSize)
    case ReadingTrailerLine =>
      if b == CR then d.(state := ExpectingTrailerLF) else d.(trailerLineEmpty := false)
    case ExpectingTrailerLF =>
      if b == LF then
        if d.trailerLineEmpty then d.(state := Complete)
        else d.(state := ReadingTrailerLine, trailerLineEmpty := true)
      else
        d.(state := ReadingTrailerLine, trailerLineEmpty := false)
    case Complete => d
    case SizeLimitExceeded => d
  }

  /** '0' to '9', 'a' to 'f', 'A' to 'F'. */
  predicate IsHexDigit(b: byte) {
    48 <= b <= 57 || 97 <= b <= 102 || 65 <= b <= 70
  }

  function DigitOf(b: byte): nat
    requires IsHexDigit(b)
  {
    if b <= 57 then b - 48 else if b >= 97 then b - 87 else b - 55
  }

  /** Every byte of a size line: a digit counts sixteenfold, ';' and CR end the numeral, any other is skipped. */
  lemma SizeLineStep(d: Decoder, b: byte)
    requires d.state.ReadingChunkSize?
    ensures var next := Step(d, b);
            && (next.sizeHasDigit <==> d.sizeHasDigit || IsHexDigit(b))
            && next.sizeAccumulator ==
               (if IsHexDigit(b) then Min(d.sizeAccumulator * 16 + DigitOf(b), U64_MAX) else d.sizeAccumulator)
            && next.state == (if b == 59 then ReadingChunkExtension
                              else if b == 13 then ExpectingChunkSizeLF
                              else ReadingChunkSize)
            && next == d.(sizeHasDigit := next.sizeHasDigit, sizeAccumulator := next.sizeAccumulator,
                          state := next.state)
  {
  }

  /** A whole stream, one byte at a time. */
  function Run(d: Decoder, s: seq<byte>): Decoder
    decreases |s|
  {
    if s == [] then d else Run(Step(d, s[0]), s[1..])
  }

  /** The body bytes of a stream: those met while in ReadingChunkData. */
  function Emitted(d: Decoder, s: seq<byte>): seq<byte>
    decreases |s|
  {
    if s == [] then []
    else (if d.state.ReadingChunkData? then [s[0]] else []) + Emitted(Step(d, s[0]), s[1..])
  }

  /** What one `feed_byte` reports. */
  function Report(s: State): FeedResult {
    match s
    case Complete => Completed
    case SizeLimitExceeded => LimitExceeded
    case _ => Continue
  }

  // ---------------------------------------------------------------------------
  // Laws of Run and Emitted
  // ---------------------------------------------------------------------------

  /** Split invariance: a stream may be cut anywhere. */
  lemma {:induction false} RunConcat(d: Decoder, s: seq<byte>, t: seq<byte>)
    ensures Run(d, s + t) == Run(Run(d, s), t)
    ensures Emitted(d, s + t) == Emitted(d, s) + Emitted(Run(d, s), t)
    decreases |s|
  {
    if s == [] {
      assert s + t == t;
    } else {
      RunConcat(Step(d, s[0]), s[1..], t);
      assert (s + t)[1..] == s[1..] + t;
      var first: seq<byte> := if d.state.ReadingChunkData? then [s[0]] else [];
      Associativity(first, Emitted(Step(d, s[0]), s[1..]), Emitted(Run(d, s), t));
    }
  }

  lemma RunOne(d: Decoder, b: byte)
    ensures Run(d, [b]) == Step(d, b)
    ensures Emitted(d, [b]) == if d.state.ReadingChunkData? then [b] else []
  {
    assert [b][1..] == [];
  }

  lemma RunSnoc(d: Decoder, s: seq<byte>, b: byte)
    ensures Run(d, s + [b]) == Step(Run(d, s), b)
    ensures Emitted(d, s + [b]) == Emitted(d, s) + if Run(d, s).state.ReadingChunkData? then [b] else []
  {
    RunConcat(d, s, [b]);
    RunOne(Run(d, s), b);
  }

  /** Complete and SizeLimitExceeded are absorbing, and emit nothing. */
  lemma {:induction false} TerminalAbsorbs(d: Decoder, s: seq<byte>)
    requires d.state.Terminal()
    ensures Run(d, s) == d
    ensures Emitted(d, s) == []
    decreases |s|
  {
    if s != [] {
      TerminalAbsorbs(d, s[1..]);
    }
  }

  /** A stream that has not terminated has no prefix that has. */
  lemma NoEarlyTermination(d: Decoder, s: seq<byte>, k: nat)
    requires k <= |s|
    requires !Run(d, s).state.Terminal()
    ensures !Run(d, s[..k]).state.Terminal()
  {
    assert s == s[..k] + s[k..];
    RunConcat(d, s[..k], s[k..]);
    if Run(d, s[..k]).state.Terminal() {
      TerminalAbsorbs(Run(d, s[..k]), s[k..]);
    }
  }

  /** The body bytes of a prefix are a prefix of the body bytes. */
  lemma EmittedPrefix(d: Decoder, s: seq<byte>, k: nat)
    requires k <= |s|
    ensures Emitted(d, s[..k]) <= Emitted(d, s)
  {
    assert s == s[..k] + s[k..];
    RunConcat(d, s[..k], s[k..]);
  }

  /** A run of chunk data taken in one piece. */
  lemma {:induction false} RunData(d: Decoder, data: seq<byte>)
    requires d.state.ReadingChunkData?
    requires 0 < |data| <= d.chunkRemaining
    ensures Run(d, data) ==
            d.(chunkRemaining := d.chunkRemaining - |data|,
               state := if d.chunkRemaining == |data| then ExpectingChunkDataCR else ReadingChunkData)
    ensures Emitted(d, data) == data
    decreases |data|
  {
    var d' := Step(d, data[0]);
    if |data| == 1 {
      RunOne(d, data[0]);
      assert data == [data[0]];
    } else {
      RunData(d', data[1..]);
      assert data == [data[0]] + data[1..];
    }
  }

  /** Extending a stream by some of the chunk data that is due. */
  lemma RunThenData(d: Decoder, s: seq<byte>, data: seq<byte>)
    requires Run(d, s).state.ReadingChunkData?
    requires 0 < |data| <= Run(d, s).chunkRemaining
    ensures var at := Run(d, s);
            Run(d, s + data) ==
            at.(chunkRemaining := at.chunkRemaining - |data|,
                state := if at.chunkRemaining == |data| then ExpectingChunkDataCR else ReadingChunkData)
    ensures Emitted(d, s + data) == Emitted(d, s) + data
  {
    RunConcat(d, s, data);
    RunData(Run(d, s), data);
  }

  /** Running on from the middle of a buffer. */
  lemma {:induction false} RunFrom(d: Decoder, s: seq<byte>, pos: nat, n: nat)
    requires pos + n <= |s|
    ensures Run(d, s[..pos + n]) == Run(Run(d, s[..pos]), s[pos..][..n])
    ensures Emitted(d, s[..pos + n]) == Emitted(d, s[..pos]) + Emitted(Run(d, s[..pos]), s[pos..][..n])
  {
    assert s[..pos + n] == s[..pos] + s[pos..][..n];
    RunConcat(d, s[..pos], s[pos..][..n]);
  }

  /** Once terminal, the rest of a buffer changes nothing. */
  lemma {:induction false} RestAbsorbed(d: Decoder, s: seq<byte>, pos: nat)
    requires pos <= |s| && Run(d, s[..pos]).state.Terminal()
    ensures Run(d, s) == Run(d, s[..pos]) && Emitted(d, s) == Emitted(d, s[..pos])
  {
    assert s == s[..pos] + s[pos..];
    RunConcat(d, s[..pos], s[pos..]);
    TerminalAbsorbs(Run(d, s[..pos]), s[pos..]);
  }

  /** Folding over any partition into buffers equals running the whole stream. */
  function RunBuffers(d: Decoder, buffers: seq<seq<byte>>): Decoder
    decreases |buffers|
  {
    if buffers == [] then d else RunBuffers(Run(d, buffers[0]), buffers[1..])
  }

  function EmittedBuffers(d: Decoder, buffers: seq<seq<byte>>): seq<byte>
    decreases |buffers|
  {
    if buffers == [] then [] else Emitted(d, buffers[0]) + EmittedBuffers(Run(d, buffers[0]), buffers[1..])
  }

  lemma {:induction false} PartitionInvariance(d: Decoder, buffers: seq<seq<byte>>)
    ensures RunBuffers(d, buffers) == Run(d, Flatten(buffers))
    ensures EmittedBuffers(d, buffers) == Emitted(d, Flatten(buffers))
    decreases |buffers|
  {
    if buffers != [] {
      PartitionInvariance(Run(d, buffers[0]), buffers[1..]);
      RunConcat(d, buffers[0], Flatten(buffers[1..]));
    }
  }

  // ---------------------------------------------------------------------------
  // What every reachable decoder satisfies
  // ---------------------------------------------------------------------------

  /** Data is being read exactly while some of the chunk is still missing. */
  predicate WellFormed(d: Decoder) {
    d.state.ReadingChunkData? <==> d.chunkRemaining > 0
  }

  lemma StepWellFormed(d: Decoder, b: byte)
    requires WellFormed(d)
    ensures WellFormed(Step(d, b))
    ensures Step(d, b).maxBodySize == d.maxBodySize
  {
  }

  lemma {:induction false} RunWellFormed(d: Decoder, s: seq<byte>)
    requires WellFormed(d)
    ensures WellFormed(Run(d, s))
    ensures Run(d, s).maxBodySize == d.maxBodySize
    decreases |s|
  {
    if s != [] {
      StepWellFormed(d, s[0]);
      RunWellFormed(Step(d, s[0]), s[1..]);
    }
  }

  // ---------------------------------------------------------------------------
  // The program
  // ---------------------------------------------------------------------------

  /** A contiguous piece of body data found in an input buffer, and how far the buffer was consumed. */
  datatype Span = Span(dataStart: nat, dataLen: nat, consumed: nat, complete: bool, limitExceeded: bool)

  class ChunkedDecoder {
    var state: State
    var chunkRemaining: u64
    var sizeAccumulator: u64
    var sizeHasDigit: bool
    var trailerLineEmpty: bool
    var totalBodySize: u64
    var maxBodySize: u64

    function View(): Decoder
      reads this
    {
      Decoder(state, chunkRemaining, sizeAccumulator, sizeHasDigit, trailerLineEmpty, totalBodySize, maxBodySize)
    }

    predicate Valid()
      reads this
    {
      WellFormed(View())
    }

    constructor (maxBodySize: u64)
      ensures View() == Initial(maxBodySize) && Valid()
    {
      this.state := ReadingChunkSize;
      this.chunkRemaining := 0;
      this.sizeAccumulator := 0;
      this.sizeHasDigit := false;
      this.trailerLineEmpty := true;
      this.totalBodySize := 0;
      this.maxBodySize := maxBodySize;
    }

    method FeedByte(b: byte) returns (r: FeedResult)
      modifies this
      ensures View() == Step(old(View()), b)
      ensures r == Report(state)
    {
      match state {
        case ReadingChunkSize =>
          if 48 <= b <= 57 {
            sizeAccumulator := SaturatingAdd64(SaturatingMul64(sizeAccumulator, 16), b - 48);
            sizeHasDigit := true;
          } else if 97 <= b <= 102 {
            sizeAccumulator := SaturatingAdd64(SaturatingMul64(sizeAccumulator, 16), b - 97 + 10);
            sizeHasDigit := true;
          } else if 65 <= b <= 70 {
            sizeAccumulator := SaturatingAdd64(SaturatingMul64(sizeAccumulator, 16), b - 65 + 10);
            sizeHasDigit := true;
          } else if b == SEMICOLON {
            state := ReadingChunkExtension;
          } else if b == CR {
            state := ExpectingChunkSizeLF;
          }
        case ReadingChunkExtension =>
          if b == CR {
            state := ExpectingChunkSizeLF;
          }
        case ExpectingChunkSizeLF =>
          if b == LF {
            if !sizeHasDigit {
              state := ReadingChunkSize;
            } else if sizeAccumulator == 0 {
              state := ReadingTrailerLine;
              trailerLineEmpty := true;
            } else {
              if maxBodySize > 0 {
                var newTotal := SaturatingAdd64(totalBodySize, sizeAccumulator);
                if newTotal > maxBodySize {
                  state := SizeLimitExceeded;
                  return LimitExceeded;
                }
                totalBodySize := newTotal;
              }
              chunkRemaining := sizeAccumulator;
              state := ReadingChunkData;
            }
          } else {
            state := ReadingChunkSize;
          }
          sizeAccumulator := 0;
          sizeHasDigit := false;
        case ReadingChunkData =>
          chunkRemaining := Max(chunkRemaining - 1, 0);
          if chunkRemaining == 0 {
            state := ExpectingChunkDataCR;
          }
        case ExpectingChunkDataCR =>
          if b == CR {
            state := ExpectingChunkDataLF;
          } else {
            state := ReadingChunkSize;
          }
        case ExpectingChunkDataLF =>
          state := ReadingChunkSize;
        case ReadingTrailerLine =>
          if b == CR {
            state := ExpectingTrailerLF;
          } else {
            trailerLineEmpty := false;
          }
        case ExpectingTrailerLF =>
          if b == LF {
            if trailerLineEmpty {
              state := Complete;
              return Completed;
            } else {
              state := ReadingTrailerLine;
              trailerLineEmpty := true;
            }
          } else {
            state := ReadingTrailerLine;
            trailerLineEmpty := false;
          }
        case Complete => return Completed;
        case SizeLimitExceeded => return LimitExceeded;
      }
      return Continue;
    }

    /** Stops at the first byte after which the decoder is terminal; the rest would change nothing. */
    method Feed(data: seq<byte>) returns (r: FeedResult)
      modifies this
      ensures View() == Run(old(View()), data)
      ensures data != [] ==> r == Report(state)
      ensures data == [] ==> r == Continue
    {
      ghost var before := View();
      for i := 0 to |data|
        invariant View() == Run(before, data[..i])
        invariant i > 0 ==> !state.Terminal()
      {
        RunSnoc(before, data[..i], data[i]);
        assert data[..i + 1] == data[..i] + [data[i]];
        var result := FeedByte(data[i]);
        if result != Continue {
          RestAbsorbed(before, data, i + 1);
          return result;
        }
      }
      assert data[..|data|] == data;
      return Continue;
    }

    /** One framing byte of `NextDataSpan`: `FeedByte` seen from the start of the call. */
    method FeedFraming(ghost before: Decoder, input: seq<byte>, i: nat) returns (r: FeedResult)
      requires i < |input|
      requires Valid() && !state.Terminal() && !state.ReadingChunkData?
      requires View() == Run(before, input[..i]) && Emitted(before, input[..i]) == []
      modifies this
      ensures Valid()
      ensures View() == Run(before, input[..i + 1]) && Emitted(before, input[..i + 1]) == []
      ensures r == Report(state)
    {
      RunSnoc(before, input[..i], input[i]);
      assert input[..i + 1] == input[..i] + [input[i]];
      StepWellFormed(View(), input[i]);
      r := FeedByte(input[i]);
    }

    /** The data run of `NextDataSpan`: everything of the chunk that the buffer holds, in one piece. */
    method TakeData(ghost before: Decoder, input: seq<byte>, i: nat) returns (span: Span)
      requires i < |input|
      requires Valid() && state.ReadingChunkData?
      requires View() == Run(before, input[..i]) && Emitted(before, input[..i]) == []
      modifies this
      ensures Valid() && !state.Terminal()
      ensures span == Span(i, span.dataLen, i + span.dataLen, false, false)
      ensures 0 < span.dataLen <= |input| - i
      ensures View() == Run(before, input[..span.consumed])
      ensures input[i..i + span.dataLen] == Emitted(before, input[..span.consumed])
    {
      var take := Min(chunkRemaining, |input| - i);
      assert input[..i + take] == input[..i] + input[i..i + take];
      RunThenData(before, input[..i], input[i..i + take]);
      chunkRemaining := chunkRemaining - take;
      if chunkRemaining == 0 {
        state := ExpectingChunkDataCR;
      }
      return Span(i, take, i + take, false, false);
    }

    /**
      The fast path: consumes framing bytes up to and including the first
      contiguous run of body data. It agrees with the byte-at-a-time machine on
      the bytes it consumed, the span is exactly the body data among them, and
      it always makes progress until the decoder is terminal.
      */
    method NextDataSpan(input: seq<byte>) returns (span: Span)
      requires Valid()
      modifies this
      ensures Valid()
      ensures span.consumed <= |input| && span.dataStart + span.dataLen <= |input|
      ensures View() == Run(old(View()), input[..span.consumed])
      ensures input[span.dataStart..span.dataStart + span.dataLen] == Emitted(old(View()), input[..span.consumed])
      ensures span.complete == state.Complete? && span.limitExceeded == state.SizeLimitExceeded?
      ensures input != [] && !old(state).Terminal() ==> span.consumed > 0
      ensures old(state).Terminal() ==> span.consumed == 0
      ensures span.dataLen == 0 && !state.Terminal() ==> span.consumed == |input|
    {
      ghost var before := View();
      match state {
        case Complete => return Span(0, 0, 0, true, false);
        case SizeLimitExceeded => return Span(0, 0, 0, false, true);
        case _ =>
      }
      var i := 0;
      while i < |input|
        invariant 0 <= i <= |input|
        invariant View() == Run(before, input[..i]) && Emitted(before, input[..i]) == []
        invariant Valid() && !state.Terminal()
      {
        if state.ReadingChunkData? {
          span := TakeData(before, input, i);
          return;
        }
        var result := FeedFraming(before, input, i);
        i := i + 1;
        match result {
          case Continue =>
          case Completed => return Span(0, 0, i, true, false);
          case LimitExceeded => return Span(0, 0, i, false, true);
        }
      }
      return Span(0, 0, i, false, false);
    }

    /** The next span of a buffer read up to `pos`, and the piece of the buffer that it delimits. */
    method NextPiece(ghost before: Decoder, input: seq<byte>, pos: nat) returns (span: Span, piece: seq<byte>)
      requires Valid() && pos < |input| && View() == Run(before, input[..pos])
      modifies this
      ensures Valid() && pos + span.consumed <= |input| && |piece| == span.dataLen
      ensures View() == Run(before, input[..pos + span.consumed])
      ensures Emitted(before, input[..pos + span.consumed]) == Emitted(before, input[..pos]) + piece
      ensures span.complete == state.Complete?
      ensures span.consumed == 0 ==> state.Terminal()
    {
      span := NextDataSpan(input[pos..]);
      var start := pos + span.dataStart;
      piece := input[start..start + span.dataLen];
      SliceOfDrop(input, pos, span.dataStart, span.dataStart + span.dataLen);
      assert piece == Emitted(Run(before, input[..pos]), input[pos..][..span.consumed]);
      RunFrom(before, input, pos, span.consumed);
    }

    /**
      The caller's loop over one buffer, as in the buffering path: span after
      span until the buffer is used up or the decoder is terminal. For any
      decoder and any limit the result is that of feeding every byte.
      */
    method Drain(input: seq<byte>, body: seq<byte>) returns (out: seq<byte>)
      requires Valid()
      modifies this
      ensures Valid() && View() == Run(old(View()), input)
      ensures out == body + Emitted(old(View()), input)
    {
      ghost var before := View();
      out := body;
      var pos := 0;
      while pos < |input|
        invariant 0 <= pos <= |input| && Valid()
        invariant View() == Run(before, input[..pos])
        invariant out == body + Emitted(before, input[..pos])
      {
        var span, piece := NextPiece(before, input, pos);
        Associativity(body, Emitted(before, input[..pos]), piece);
        if span.dataLen > 0 {
          out := out + piece;
        }
        pos := pos + span.consumed;
        if span.complete || span.consumed == 0 {
          RestAbsorbed(before, input, pos);
          return;
        }
      }
      assert input[..pos] == input;
    }

    /** The same over any partition of a stream into buffers: only the stream matters. */
    method DrainAll(buffers: seq<seq<byte>>) returns (out: seq<byte>)
      requires Valid()
      modifies this
      ensures Valid() && View() == Run(old(View()), Flatten(buffers))
      ensures out == Emitted(old(View()), Flatten(buffers))
    {
      ghost var before := View();
      out := [];
      for i := 0 to |buffers|
        invariant Valid() && View() == Run(before, Flatten(buffers[..i]))
        invariant out == Emitted(before, Flatten(buffers[..i]))
      {
        RunConcat(before, Flatten(buffers[..i]), buffers[i]);
        FlattenSnoc(buffers[..i], buffers[i]);
        assert buffers[..i + 1] == buffers[..i] + [buffers[i]];
        out := Drain(buffers[i], out);
      }
      assert buffers[..|buffers|] == buffers;
    }
  }
}
