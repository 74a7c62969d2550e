/**
  What the incremental decoder makes of framing that is not as it should be: it
  skips what it does not know and starts over, and never emits any of it.
  */
module ChunkedRecovery {
  import opened Bytes
  import opened ChunkedDecoding
  import opened ChunkedEncoding
  import opened DecoderAgreement

  /** The decoder is inside a size line, in front of the numeral or behind it. */
  predicate InSizeLine(d: Decoder) {
    d.state.ReadingChunkSize? || d.state.ReadingChunkExtension?
  }

  /** Anything but CR keeps the decoder in the size line, and only the size changes. */
  lemma {:induction false} StaysInSizeLine(d: Decoder, line: seq<byte>)
    requires InSizeLine(d) && CR !in line
    ensures var r := Run(d, line);
            && InSizeLine(r) && Emitted(d, line) == []
            && r == d.(state := r.state, sizeAccumulator := r.sizeAccumulator, sizeHasDigit := r.sizeHasDigit)
    decreases |line|
  {
    if line != [] {
      StaysInSizeLine(Step(d, line[0]), line[1..]);
    }
  }

  lemma {:induction false} NoDigitSeen(d: Decoder, line: seq<byte>)
    requires InSizeLine(d) && CR !in line && !d.sizeHasDigit
    requires forall i :: 0 <= i < |line| && SEMICOLON !in line[..i] ==> !IsHexDigit(line[i])
    ensures !Run(d, line).sizeHasDigit
    decreases |line|
  {
    if line != [] {
      var next := Step(d, line[0]);
      if d.state.ReadingChunkExtension? {
        InsideExtensionRun(d, line);
      } else {
        assert line[..0] == [];
        SizeLineStep(d, line[0]);
        if line[0] == SEMICOLON {
          InsideExtensionRun(next, line[1..]);
        } else {
          forall i | 0 <= i < |line[1..]| && SEMICOLON !in line[1..][..i] ensures !IsHexDigit(line[1..][i]) {
            assert line[..i + 1] == [line[0]] + line[1..][..i];
          }
          NoDigitSeen(next, line[1..]);
        }
      }
    }
  }

  /** A size line that ends in CR and anything but LF is forgotten, whatever it says. */
  lemma {:induction false} BrokenLineForgotten(d: Decoder, line: seq<byte>, x: byte)
    requires AtChunkStart(d) && CR !in line && x != 10
    ensures Run(d, line + [13] + [x]) == d && Emitted(d, line + [13] + [x]) == []
  {
    StaysInSizeLine(d, line);
    RunSnoc(d, line, 13);
    RunSnoc(d, line + [13], x);
  }

  /** A size line without any digit in front of its extension is skipped. */
  lemma {:induction false} EmptyLineSkipped(d: Decoder, line: seq<byte>)
    requires AtChunkStart(d) && CR !in line
    requires forall i :: 0 <= i < |line| && SEMICOLON !in line[..i] ==> !IsHexDigit(line[i])
    ensures Run(d, line + [13] + [10]) == d && Emitted(d, line + [13] + [10]) == []
  {
    StaysInSizeLine(d, line);
    NoDigitSeen(d, line);
    RunSnoc(d, line, 13);
    RunSnoc(d, line + [13], 10);
  }

  /**
    Behind the data of a chunk one byte is skipped, and a second one if the first is
    CR; then the next size line starts.
    */
  lemma {:induction false} BehindData(d: Decoder, x: byte, y: byte)
    requires d.state.ExpectingChunkDataCR?
    ensures x != 13 ==> Run(d, [x]) == d.(state := ReadingChunkSize)
    ensures x == 13 ==> !Run(d, [x]).state.ReadingChunkSize? && Run(d, [x, y]) == d.(state := ReadingChunkSize)
    ensures Emitted(d, [x, y]) == []
  {
    RunOne(d, x);
    RunSnoc(d, [x], y);
    assert [x] + [y] == [x, y];
  }

  /** In the trailers, CR and anything but LF is part of a line that is not empty. */
  lemma {:induction false} BrokenTrailer(d: Decoder, line: seq<byte>, x: byte)
    requires d.state.ReadingTrailerLine? && CR !in line && x != 10
    ensures Run(d, line + [13] + [x]) == d.(trailerLineEmpty := false)
    ensures Emitted(d, line + [13] + [x]) == []
  {
    TrailerLineRun(d, line);
    RunSnoc(d, line, 13);
    RunSnoc(d, line + [13], x);
  }

  /** A trailer line that is not empty is skipped, and the first empty one completes the body. */
  lemma {:induction false} TrailerLineEnds(d: Decoder, line: seq<byte>)
    requires d.state.ReadingTrailerLine? && d.trailerLineEmpty && CR !in line
    ensures Run(d, line + [13] + [10]) == if line == [] then d.(state := Complete) else d
    ensures Emitted(d, line + [13] + [10]) == []
  {
    TrailerLineRun(d, line);
    RunSnoc(d, line, 13);
    RunSnoc(d, line + [13], 10);
  }
}
