/**
  The one-shot chunked decoder, `decode_chunked_body` of src/http_utils.rs.
  */
module OneShotDecoding {
  import opened Bytes
  import opened Text

  /** Adding a chunk size to a position past 2^64 - 1 panics, with and without overflow checks. */
  datatype Outcome = Decoded(body: seq<byte>) | Panics

  /** The size of a size line without its CR. */
  function ParseSize(line: seq<byte>): Option<nat> {
    if !IsUtf8(line) then None
    else
      var trimmed := Trim(line);
      ParseUnsigned(trimmed[..IndexFrom(trimmed, 0, SEMICOLON)], 16, U64_MAX)
  }

  /** The decoding loop does not depend on how a size line is read. */
  type SizeParser = seq<byte> -> Option<nat>

  /** The chunk whose size line starts at `pos`: its data is data[start..end], and decoding goes on at `next`. */
  datatype NextChunk = Stop | Overflow | Chunk(start: nat, end: nat, next: nat)

  function Look(parse: SizeParser, data: seq<byte>, pos: nat): (c: NextChunk)
    requires pos <= |data|
    ensures c.Chunk? ==> pos < c.start < c.end <= c.next <= |data|
  {
    var cr := IndexFrom(data, pos, CR);
    if cr == |data| || parse(data[pos..cr]) == None then Stop
    else
      var size := parse(data[pos..cr]).value;
      if size == 0 || cr + 2 >= |data| then Stop
      else if cr + 2 + size > U64_MAX then Overflow
      else
        var end := Min(cr + 2 + size, |data|);
        Chunk(cr + 2, end, if end + 2 <= |data| then end + 2 else end)
  }

  /** What the loop finds at each position. */
  type Lookup = nat -> NextChunk

  function LookIn(parse: SizeParser, data: seq<byte>): Lookup {
    (pos: nat) => if pos <= |data| then Look(parse, data, pos) else Stop
  }

  /** The chunk lies ahead of `pos` and inside the data, as all that `Look` finds do. */
  predicate Ahead(c: NextChunk, pos: nat, data: seq<byte>) {
    c.Chunk? && pos < c.start < c.end <= c.next <= |data|
  }

  /** The decoding loop from `pos` on, with the `result` so far. */
  function OneShot(look: Lookup, data: seq<byte>, pos: nat, result: seq<byte>): Outcome
    requires pos <= |data|
    decreases |data| - pos
  {
    var c := look(pos);
    if c.Overflow? then Panics
    else if !Ahead(c, pos, data) then Decoded(result)
    else OneShot(look, data, c.next, result + data[c.start..c.end])
  }

  /** The whole of the decoder. */
  function DecodedBy(parse: SizeParser, data: seq<byte>): Outcome {
    OneShot(LookIn(parse, data), data, 0, [])
  }

  method ScanToCr(data: seq<byte>, start: nat) returns (pos: nat)
    requires start <= |data|
    ensures pos == IndexFrom(data, start, CR)
  {
    pos := start;
    while pos < |data| && data[pos] != CR
      invariant start <= pos <= |data|
      invariant IndexFrom(data, start, CR) == IndexFrom(data, pos, CR)
    {
      pos := pos + 1;
    }
  }

  method DecodeWith(parse: SizeParser, data: seq<byte>) returns (r: Outcome)
    ensures r == DecodedBy(parse, data)
  {
    ghost var look := LookIn(parse, data);
    ghost var final := OneShot(look, data, 0, []);
    var result := [];
    var pos := 0;
    while pos < |data|
      invariant 0 <= pos <= |data|
      invariant final == OneShot(look, data, pos, result)
    {
      var sizeStart := pos;
      pos := ScanToCr(data, sizeStart);
      if pos >= |data| {
        return Decoded(result);
      }
      var size := parse(data[sizeStart..pos]);
      if size == None || size.value == 0 {
        return Decoded(result);
      }
      pos := pos + 2;
      if pos >= |data| {
        return Decoded(result);
      }
      if pos + size.value > U64_MAX {
        return Panics;
      }
      var end := Min(pos + size.value, |data|);
      assert Look(parse, data, sizeStart) == Chunk(pos, end, if end + 2 <= |data| then end + 2 else end);
      result := result + data[pos..end];
      pos := end;
      if pos + 2 <= |data| {
        pos := pos + 2;
      }
    }
    return Decoded(result);
  }

  method DecodeChunkedBody(data: seq<byte>) returns (r: Outcome)
    ensures r == DecodedBy(ParseSize, data)
  {
    r := DecodeWith(ParseSize, data);
  }

  // ---------------------------------------------------------------------------
  // Panics
  // ---------------------------------------------------------------------------

  /** Some chunk that the loop gets to has a size that takes its end past 2^64 - 1. */
  predicate ReachesOverflow(look: Lookup, data: seq<byte>, pos: nat)
    requires pos <= |data|
    decreases |data| - pos
  {
    look(pos).Overflow? || (Ahead(look(pos), pos, data) && ReachesOverflow(look, data, look(pos).next))
  }

  lemma {:induction false} PanicsExactly(look: Lookup, data: seq<byte>, pos: nat, result: seq<byte>)
    requires pos <= |data|
    ensures OneShot(look, data, pos, result).Panics? <==> ReachesOverflow(look, data, pos)
    decreases |data| - pos
  {
    var c := look(pos);
    if Ahead(c, pos, data) {
      PanicsExactly(look, data, c.next, result + data[c.start..c.end]);
    }
  }

  /** No text within the data reads as a size that, added to the length of the data, passes 2^64 - 1. */
  ghost predicate SizesFit(parse: SizeParser, data: seq<byte>) {
    forall i: nat, j: nat :: i <= j <= |data| && parse(data[i..j]).Some? ==> parse(data[i..j]).value + |data| <= U64_MAX
  }

  lemma {:induction false} FitNeverOverflows(parse: SizeParser, data: seq<byte>, pos: nat)
    requires pos <= |data| && SizesFit(parse, data)
    ensures !ReachesOverflow(LookIn(parse, data), data, pos)
    decreases |data| - pos
  {
    var c := LookIn(parse, data)(pos);
    assert !c.Overflow? by {
      var cr := IndexFrom(data, pos, CR);
      assert parse(data[pos..cr]).Some? ==> parse(data[pos..cr]).value + |data| <= U64_MAX;
    }
    if Ahead(c, pos, data) {
      FitNeverOverflows(parse, data, c.next);
    }
  }

  /** Data that announces no such size is decoded without panic, however malformed. */
  lemma {:induction false} NeverPanics(parse: SizeParser, data: seq<byte>)
    requires SizesFit(parse, data)
    ensures DecodedBy(parse, data).Decoded?
  {
    FitNeverOverflows(parse, data, 0);
    PanicsExactly(LookIn(parse, data), data, 0, []);
  }
}
