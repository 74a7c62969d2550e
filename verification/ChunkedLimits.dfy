/**
  The body-size limit of the chunked decoder over whole streams.
  */
module ChunkedLimits {
  import opened Bytes
  import opened ChunkedDecoding
  import opened ChunkedEncoding

  /** Every admitted byte has either been emitted or is still due, and the total is within the limit. */
  ghost predicate Conserved(d: Decoder, emitted: nat) {
    && WellFormed(d)
    && emitted + d.chunkRemaining == d.totalBodySize <= d.maxBodySize
  }

  lemma {:induction false} RunConserves(d: Decoder, s: seq<byte>, emitted: nat)
    requires d.maxBodySize < U64_MAX
    requires Conserved(d, emitted) && d.maxBodySize > 0
    ensures Conserved(Run(d, s), emitted + |Emitted(d, s)|)
    decreases |s|
  {
    if s != [] {
      var now := emitted + if d.state.ReadingChunkData? then 1 else 0;
      assert Conserved(Step(d, s[0]), now);
      RunConserves(Step(d, s[0]), s[1..], now);
    }
  }

  ghost predicate AlwaysConserved(maxBodySize: u64) {
    forall s: seq<byte> :: Conserved(Run(Initial(maxBodySize), s), |Emitted(Initial(maxBodySize), s)|)
  }

  /**
    A stream on which the accounting breaks for the largest limit: a one-byte
    chunk, then a size line announcing 2^64 - 1 more bytes. The saturating sum
    equals the limit, so the second chunk is let in.
    */
  lemma SaturationBreaksConservation()
    ensures exists s: seq<byte> ::
              && Run(Initial(U64_MAX), s).state.ReadingChunkData?
              && |Emitted(Initial(U64_MAX), s)| + Run(Initial(U64_MAX), s).chunkRemaining > U64_MAX
  {
    var d := Initial(U64_MAX);
    var first, line := EncodeFrame([0]), HexNumeral(U64_MAX) + CRLF;
    FrameRun(d, [0]);
    SizeLineRun(AfterChunk(d, 1), U64_MAX);
    RunConcat(d, first, line);
    assert Run(d, first + line).chunkRemaining == U64_MAX;
    assert |Emitted(d, first + line)| == 1;
  }

  /** For a non-zero limit the accounting is exact on every stream if and only if the limit is below 2^64 - 1. */
  lemma ConservationExactly(maxBodySize: u64)
    requires maxBodySize > 0
    ensures AlwaysConserved(maxBodySize) <==> maxBodySize < U64_MAX
  {
    var d := Initial(maxBodySize);
    if maxBodySize < U64_MAX {
      forall s: seq<byte> ensures Conserved(Run(d, s), |Emitted(d, s)|) {
        RunConserves(d, s, 0);
      }
    } else {
      SaturationBreaksConservation();
      var s :| |Emitted(d, s)| + Run(d, s).chunkRemaining > U64_MAX;
      assert !Conserved(Run(d, s), |Emitted(d, s)|);
    }
  }

  /** The decoder stands before the line feed of a size line whose chunk is too large. */
  predicate AtOversizeLine(d: Decoder) {
    && d.state.ExpectingChunkSizeLF? && d.sizeHasDigit && d.sizeAccumulator > 0
    && d.maxBodySize > 0 && SaturatingAdd64(d.totalBodySize, d.sizeAccumulator) > d.maxBodySize
  }

  /** The limit state is entered only from an oversize size line, and nothing is emitted from there on. */
  lemma {:induction false} RefusedBeforeData(d: Decoder, s: seq<byte>) returns (k: nat)
    requires !d.state.SizeLimitExceeded?
    requires Run(d, s).state.SizeLimitExceeded?
    ensures k < |s| && s[k] == LF && AtOversizeLine(Run(d, s[..k]))
    ensures Emitted(d, s) == Emitted(d, s[..k])
    decreases |s|
  {
    var next := Step(d, s[0]);
    if next.state.SizeLimitExceeded? {
      TerminalAbsorbs(next, s[1..]);
      k := 0;
      assert s[..0] == [];
    } else {
      var j := RefusedBeforeData(next, s[1..]);
      k := j + 1;
      assert s[..k][1..] == s[1..][..j];
    }
  }

  /** Without a limit the limit state is unreachable and nothing is counted. */
  lemma {:induction false} UnlimitedNeverRefuses(d: Decoder, s: seq<byte>)
    requires d.maxBodySize == 0 && d.totalBodySize == 0 && !d.state.SizeLimitExceeded?
    ensures !Run(d, s).state.SizeLimitExceeded?
    ensures Run(d, s).totalBodySize == 0
    decreases |s|
  {
    if s != [] {
      UnlimitedNeverRefuses(Step(d, s[0]), s[1..]);
    }
  }
}
