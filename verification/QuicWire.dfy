/**
  HTTP/3 wire parsing (src/http3_wire.rs): QUIC variable-length integers
  (section 16 of RFC 9000), HTTP/3 frame headers and the frame walker
  (section 7.1 of RFC 9114).
  */
module QuicWire {
  import opened Bytes

  datatype WireError = BufferTooShort | IntegerOverflow

  datatype Result<+T> = Ok(value: T) | Err(error: WireError)

  // ---------------------------------------------------------------------------
  // Big-endian numbers
  // ---------------------------------------------------------------------------

  function Pow256(n: nat): (p: nat)
    ensures p >= 1
  {
    if n == 0 then 1 else 256 * Pow256(n - 1)
  }

  function BigEndian(s: seq<byte>): nat {
    if s == [] then 0 else BigEndian(s[..|s| - 1]) * 256 + s[|s| - 1]
  }

  /** The n low bytes of v, most significant first. */
  function ToBytes(v: nat, n: nat): (s: seq<byte>)
    ensures |s| == n
  {
    if n == 0 then [] else ToBytes(v / 256, n - 1) + [v % 256]
  }

  lemma {:induction false} ToBytesValue(v: nat, n: nat)
    requires v < Pow256(n)
    ensures BigEndian(ToBytes(v, n)) == v
    decreases n
  {
    if n > 0 {
      ToBytesValue(v / 256, n - 1);
      assert ToBytes(v, n)[..n - 1] == ToBytes(v / 256, n - 1);
    }
  }

  lemma {:induction false} BigEndianBytes(s: seq<byte>)
    ensures BigEndian(s) < Pow256(|s|)
    ensures ToBytes(BigEndian(s), |s|) == s
    decreases |s|
  {
    if s != [] {
      var init, last := s[..|s| - 1], s[|s| - 1];
      BigEndianBytes(init);
      assert BigEndian(s) / 256 == BigEndian(init) && BigEndian(s) % 256 == last;
      assert s == init + [last];
    }
  }

  /** The first byte is below 64 exactly when the number is below 64 * 256^(n - 1). */
  lemma {:induction false} TopByte(v: nat, n: nat)
    requires n > 0 && v < Pow256(n)
    ensures ToBytes(v, n)[0] < 64 <==> v < 64 * Pow256(n - 1)
    decreases n
  {
    if n == 1 {
      assert Pow256(0) == 1 && ToBytes(v / 256, 0) == [];
    } else {
      TopByte(v / 256, n - 1);
      assert ToBytes(v, n)[0] == ToBytes(v / 256, n - 1)[0];
      assert Pow256(n - 1) == 256 * Pow256(n - 2);
    }
  }

  // ---------------------------------------------------------------------------
  // Variable-length integers
  // ---------------------------------------------------------------------------

  /** The length announced by the two top bits of the first byte. */
  function Width(prefix: nat): (w: nat)
    requires prefix < 4
    ensures 1 <= w <= 8
  {
    match prefix
    case 0 => 1
    case 1 => 2
    case 2 => 4
    case _ => 8
  }

  /** The integer at the start of buf and its length. */
  function VarintAt(buf: seq<byte>): Result<(nat, nat)> {
    if buf == [] then Err(BufferTooShort)
    else
      var w := Width(buf[0] / 64);
      if |buf| < w then Err(BufferTooShort) else Ok((BigEndian([buf[0] % 64] + buf[1..w]), w))
  }

  /** Shifting a 64-bit value left by eight and setting the low byte. */
  function ShiftIn(value: u64, b: byte): u64 {
    var shifted := (value * 256) % (U64_MAX + 1);
    assert shifted % 256 == 0;
    shifted + b
  }

  method DecodeQuicVarint(buf: seq<byte>) returns (r: Result<(nat, nat)>)
    ensures r == VarintAt(buf)
  {
    if buf == [] {
      return Err(BufferTooShort);
    }
    var len := Width(buf[0] / 64);
    if |buf| < len {
      return Err(BufferTooShort);
    }
    var value: u64 := buf[0] % 64;
    assert BigEndian([buf[0] % 64]) == value by {
      assert [buf[0] % 64][..0] == [];
    }
    assert [buf[0] % 64] + buf[1..1] == [buf[0] % 64];
    for i := 1 to len
      invariant value == BigEndian([buf[0] % 64] + buf[1..i])
      invariant value < Pow256(i)
    {
      ghost var s := [buf[0] % 64] + buf[1..i];
      assert ([buf[0] % 64] + buf[1..i + 1])[..i] == s;
      PowBound(i);
      value := ShiftIn(value, buf[i]);
    }
    return Ok((value, len));
  }

  lemma PowBound(i: nat)
    requires i < 8
    ensures Pow256(i) * 256 <= U64_MAX + 1
  {
    assert Pow256(1) == 0x100 && Pow256(2) == 0x1_0000 && Pow256(3) == 0x100_0000;
    assert Pow256(4) == 0x1_0000_0000 && Pow256(5) == 0x100_0000_0000;
    assert Pow256(6) == 0x1_0000_0000_0000 && Pow256(7) == 0x100_0000_0000_0000;
  }

  /** A value that the given width can hold: 6, 14, 30 or 62 bits. */
  predicate Fits(v: nat, prefix: nat) {
    prefix < 4 && v < 64 * Pow256(Width(prefix) - 1)
  }

  function EncodeVarint(v: nat, prefix: nat): seq<byte>
    requires Fits(v, prefix)
  {
    var raw := ToBytes(v, Width(prefix));
    TopByteFits(v, prefix);
    [raw[0] + 64 * prefix] + raw[1..]
  }

  lemma TopByteFits(v: nat, prefix: nat)
    requires Fits(v, prefix)
    ensures v < Pow256(Width(prefix)) && ToBytes(v, Width(prefix))[0] < 64
  {
    var w := Width(prefix);
    assert Pow256(w) == 256 * Pow256(w - 1);
    TopByte(v, w);
  }

  /** Every legal encoding, in any width, is read back, whatever follows. */
  lemma VarintRoundTrip(v: nat, prefix: nat, rest: seq<byte>)
    requires Fits(v, prefix)
    ensures VarintAt(EncodeVarint(v, prefix) + rest) == Ok((v, Width(prefix)))
  {
    var w := Width(prefix);
    var raw, buf := ToBytes(v, w), EncodeVarint(v, prefix) + rest;
    TopByteFits(v, prefix);
    assert buf[0] / 64 == prefix && buf[0] % 64 == raw[0];
    assert [buf[0] % 64] + buf[1..w] == raw;
    ToBytesValue(v, w);
  }

  /** Whatever is read is the encoding, in the width announced, of a value that fits it. */
  lemma VarintExact(buf: seq<byte>)
    requires VarintAt(buf).Ok?
    ensures var (v, w) := VarintAt(buf).value;
            var prefix := buf[0] / 64;
            w == Width(prefix) <= |buf| && Fits(v, prefix) && EncodeVarint(v, prefix) == buf[..w]
  {
    var prefix := buf[0] / 64;
    var w := Width(prefix);
    var raw := [buf[0] % 64] + buf[1..w];
    BigEndianBytes(raw);
    TopByte(BigEndian(raw), w);
  }

  lemma {:induction false} BigEndianSnoc(s: seq<byte>, b: byte)
    ensures BigEndian(s + [b]) == BigEndian(s) * 256 + b
  {
    assert (s + [b])[..|s|] == s;
  }

  lemma {:induction false} BigEndianOfTwo(a: byte, b: byte)
    ensures BigEndian([a]) == a && BigEndian([a, b]) == a * 256 + b
  {
    BigEndianSnoc([], a);
    BigEndianSnoc([a], b);
    assert [] + [a] == [a] && [a] + [b] == [a, b];
  }

  lemma {:induction false} BigEndianMore(s: seq<byte>, a: byte, b: byte)
    ensures BigEndian(s + [a, b]) == BigEndian(s) * 0x1_0000 + a * 0x100 + b
  {
    BigEndianSnoc(s, a);
    BigEndianSnoc(s + [a], b);
    assert s + [a] + [b] == s + [a, b];
  }

  /** The four forms of section 16 of RFC 9000, told by the range of the first byte. */
  lemma {:induction false} VarintByFirstByte(buf: seq<byte>)
    requires buf != []
    ensures buf[0] < 64 ==> VarintAt(buf) == Ok((buf[0], 1))
    ensures 64 <= buf[0] < 128 ==>
              if |buf| < 2 then VarintAt(buf) == Err(BufferTooShort)
              else
                var n: int := (buf[0] as int - 64) * 256 + buf[1] as int;
                VarintAt(buf) == Ok((n, 2))
    ensures 128 <= buf[0] < 192 ==>
              if |buf| < 4 then VarintAt(buf) == Err(BufferTooShort)
              else
                var n: int := (buf[0] as int - 128) * 0x100_0000 + (buf[1] as int) * 0x1_0000
                              + (buf[2] as int) * 0x100 + buf[3] as int;
                VarintAt(buf) == Ok((n, 4))
    ensures 192 <= buf[0] ==>
              if |buf| < 8 then VarintAt(buf) == Err(BufferTooShort)
              else
                var n: int := (buf[0] as int - 192) * 0x100_0000_0000_0000 + (buf[1] as int) * 0x1_0000_0000_0000
                              + (buf[2] as int) * 0x100_0000_0000 + (buf[3] as int) * 0x1_0000_0000
                              + (buf[4] as int) * 0x100_0000 + (buf[5] as int) * 0x1_0000
                              + (buf[6] as int) * 0x100 + buf[7] as int;
                VarintAt(buf) == Ok((n, 8))
  {
    var top := buf[0] % 64;
    if |buf| < Width(buf[0] / 64) {
    } else if buf[0] < 64 {
      BigEndianOfTwo(top, 0);
      assert [top] + buf[1..1] == [top];
    } else {
      BigEndianOfTwo(top, buf[1]);
      if buf[0] < 128 {
        assert [top] + buf[1..2] == [top, buf[1]];
      } else {
        BigEndianMore([top, buf[1]], buf[2], buf[3]);
        var four := [top, buf[1]] + [buf[2], buf[3]];
        if buf[0] < 192 {
          assert [top] + buf[1..4] == four;
        } else {
          BigEndianMore(four, buf[4], buf[5]);
          BigEndianMore(four + [buf[4], buf[5]], buf[6], buf[7]);
          assert [top] + buf[1..8] == four + [buf[4], buf[5]] + [buf[6], buf[7]];
        }
      }
    }
  }

  // ---------------------------------------------------------------------------
  // Frames
  // ---------------------------------------------------------------------------

  /** A frame, with the widths chosen for its type and length. */
  datatype Frame = Frame(kind: nat, kindPrefix: nat, payload: seq<byte>, lengthPrefix: nat)

  predicate Legal(f: Frame) {
    Fits(f.kind, f.kindPrefix) && Fits(|f.payload|, f.lengthPrefix)
  }

  function Serialize(f: Frame): seq<byte>
    requires Legal(f)
  {
    EncodeVarint(f.kind, f.kindPrefix) + EncodeVarint(|f.payload|, f.lengthPrefix) + f.payload
  }

  /** Type, payload length and header length of the frame at the start of buf. */
  function HeaderAt(buf: seq<byte>): Result<(nat, nat, nat)> {
    match VarintAt(buf)
    case Err(e) => Err(e)
    case Ok((kind, t)) =>
      if t > |buf| then Err(BufferTooShort)
      else
        match VarintAt(buf[t..])
        case Err(e) => Err(e)
        case Ok((length, l)) => Ok((kind, length, t + l))
  }

  method DecodeHttp3FrameHeader(buf: seq<byte>) returns (r: Result<(nat, nat, nat)>)
    ensures r == HeaderAt(buf)
  {
    var kind := DecodeQuicVarint(buf);
    if kind.Err? {
      return Err(kind.error);
    }
    var length := DecodeQuicVarint(buf[kind.value.1..]);
    if length.Err? {
      return Err(length.error);
    }
    return Ok((kind.value.0, length.value.0, kind.value.1 + length.value.1));
  }

  /** The length of the complete frame at the start of buf, if there is one. */
  function FrameLength(buf: seq<byte>): (n: Option<nat>)
    ensures n.Some? ==> 0 < n.value <= |buf|
  {
    match HeaderAt(buf)
    case Err(_) => None
    case Ok((_, length, header)) => if header + length <= |buf| then Some(header + length) else None
  }

  /** How the length of the frame at the start of a buffer is found. */
  type FrameMeasure = seq<byte> -> Option<nat>

  /** The walk, for any way of measuring frames. */
  function Walk(measure: FrameMeasure, buf: seq<byte>, maxFrames: nat): nat
    decreases maxFrames
  {
    if maxFrames == 0 || measure(buf).None? || measure(buf).value > |buf| then 0
    else 1 + Walk(measure, buf[measure(buf).value..], maxFrames - 1)
  }

  /** The body of the walker's loop: the length of the next frame, if it is complete. */
  method NextFrame(buf: seq<byte>) returns (n: Option<nat>)
    ensures n == FrameLength(buf)
  {
    var header := DecodeHttp3FrameHeader(buf);
    if header.Err? {
      return None;
    }
    var (_, length, hlen) := header.value;
    if hlen + length > U64_MAX {
      LengthBound(buf);
      return None;
    }
    if |buf| < hlen + length {
      return None;
    }
    return Some(hlen + length);
  }

  lemma WalkStep(measure: FrameMeasure, buf: seq<byte>, maxFrames: nat)
    ensures measure(buf) == None ==> Walk(measure, buf, maxFrames) == 0
    ensures maxFrames > 0 && measure(buf).Some? && measure(buf).value <= |buf| ==>
              Walk(measure, buf, maxFrames) == 1 + Walk(measure, buf[measure(buf).value..], maxFrames - 1)
  {
  }

  lemma NothingToWalk()
    ensures FrameLength([]) == None
  {
  }

  method WalkHttp3Frames(data: seq<byte>, maxFrames: u64) returns (count: nat)
    ensures count == Walk(FrameLength, data, maxFrames)
  {
    var buf := data;
    count := 0;
    ghost var total := Walk(FrameLength, data, maxFrames);
    while count < maxFrames && buf != []
      invariant count <= maxFrames
      invariant total == count + Walk(FrameLength, buf, maxFrames - count)
      decreases maxFrames - count
    {
      var n := NextFrame(buf);
      WalkStep(FrameLength, buf, maxFrames - count);
      if n == None {
        return;
      }
      buf := buf[n.value..];
      count := count + 1;
    }
    NothingToWalk();
    WalkStep(FrameLength, [], maxFrames - count);
  }

  /** The checked addition in the walker cannot fail: a length has at most 62 bits. */
  lemma LengthBound(buf: seq<byte>)
    requires HeaderAt(buf).Ok?
    ensures HeaderAt(buf).value.1 + HeaderAt(buf).value.2 <= U64_MAX
  {
    var (kind, t) := VarintAt(buf).value;
    VarintExact(buf);
    VarintExact(buf[t..]);
    assert Pow256(0) == 1 && Pow256(1) == 0x100 && Pow256(3) == 0x100_0000;
    assert Pow256(5) == 0x100_0000_0000;
    assert Pow256(7) == 0x100_0000_0000_0000;
  }

  // ---------------------------------------------------------------------------
  // The walker counts exactly the complete frames
  // ---------------------------------------------------------------------------

  predicate AllLegal(frames: seq<Frame>) {
    forall i :: 0 <= i < |frames| ==> Legal(frames[i])
  }

  /** A serialized frame is found complete, with its exact length, whatever follows. */
  lemma {:induction false} FrameFound(f: Frame, rest: seq<byte>)
    requires Legal(f)
    ensures FrameLength(Serialize(f) + rest) == Some(|Serialize(f)|)
  {
    var kind, length := EncodeVarint(f.kind, f.kindPrefix), EncodeVarint(|f.payload|, f.lengthPrefix);
    VarintRoundTrip(f.kind, f.kindPrefix, length + f.payload + rest);
    VarintRoundTrip(|f.payload|, f.lengthPrefix, f.payload + rest);
    FrameSlices(kind, length, f.payload, rest);
    FrameLengthIs(Serialize(f) + rest, f.kind, |kind|, |f.payload|, |length|);
  }

  /** The header of a serialized frame: its type, its length, and where the payload starts. */
  lemma {:induction false} HeaderFound(f: Frame, rest: seq<byte>)
    requires Legal(f)
    ensures HeaderAt(Serialize(f) + rest) == Ok((f.kind, |f.payload|, |Serialize(f)| - |f.payload|))
  {
    var kind, length := EncodeVarint(f.kind, f.kindPrefix), EncodeVarint(|f.payload|, f.lengthPrefix);
    VarintRoundTrip(f.kind, f.kindPrefix, length + f.payload + rest);
    VarintRoundTrip(|f.payload|, f.lengthPrefix, f.payload + rest);
    FrameSlices(kind, length, f.payload, rest);
    HeaderIs(Serialize(f) + rest, f.kind, |kind|, |f.payload|, |length|);
  }

  lemma HeaderIs(buf: seq<byte>, kind: nat, t: nat, length: nat, l: nat)
    requires t <= |buf| && VarintAt(buf) == Ok((kind, t)) && VarintAt(buf[t..]) == Ok((length, l))
    ensures HeaderAt(buf) == Ok((kind, length, t + l))
  {
  }

  lemma FrameSlices(kind: seq<byte>, length: seq<byte>, payload: seq<byte>, rest: seq<byte>)
    ensures var buf := kind + length + payload + rest;
            buf == kind + (length + payload + rest) && buf[|kind|..] == length + (payload + rest)
  {
  }

  lemma FrameLengthIs(buf: seq<byte>, kind: nat, t: nat, length: nat, l: nat)
    requires 0 < t && t + l + length <= |buf|
    requires VarintAt(buf) == Ok((kind, t)) && VarintAt(buf[t..]) == Ok((length, l))
    ensures FrameLength(buf) == Some(t + l + length)
  {
  }

  lemma CutInThree(buf: seq<byte>, t: nat, l: nat, n: nat)
    requires t + l + n <= |buf|
    ensures buf[t..][..l] == buf[t..t + l]
    ensures buf[..t] + buf[t..t + l] + buf[t + l..t + l + n] == buf[..t + l + n]
  {
  }

  /** A complete frame is the serialization of a legal frame. */
  lemma {:induction false} FrameRead(buf: seq<byte>) returns (f: Frame)
    requires FrameLength(buf).Some?
    ensures Legal(f) && Serialize(f) == buf[..FrameLength(buf).value]
  {
    var (kind, t) := VarintAt(buf).value;
    var (length, l) := VarintAt(buf[t..]).value;
    VarintExact(buf);
    VarintExact(buf[t..]);
    f := Frame(kind, buf[0] / 64, buf[t + l..t + l + length], buf[t] / 64);
    assert EncodeVarint(kind, buf[0] / 64) == buf[..t];
    CutInThree(buf, t, l, length);
    assert EncodeVarint(length, buf[t] / 64) == buf[t..t + l];
  }

  /** The walk over pieces that each delimit themselves. */
  ghost predicate SelfDelimiting(measure: FrameMeasure, piece: seq<byte>) {
    forall rest: seq<byte> :: measure(piece + rest) == Some(|piece|)
  }

  lemma {:induction false} WalkPieces(measure: FrameMeasure, pieces: seq<seq<byte>>, tail: seq<byte>, maxFrames: nat)
    requires forall i :: 0 <= i < |pieces| ==> SelfDelimiting(measure, pieces[i])
    requires measure(tail).None?
    ensures Walk(measure, Flatten(pieces) + tail, maxFrames) == Min(|pieces|, maxFrames)
    decreases maxFrames
  {
    if pieces == [] {
      assert Flatten(pieces) + tail == tail;
    } else if maxFrames > 0 {
      var first, rest := pieces[0], Flatten(pieces[1..]) + tail;
      Associativity(first, Flatten(pieces[1..]), tail);
      assert SelfDelimiting(measure, first);
      assert measure(first + rest) == Some(|first|);
      assert (first + rest)[|first|..] == rest;
      WalkPieces(measure, pieces[1..], tail, maxFrames - 1);
    }
  }

  /** What the walk passed over: pieces measured in place, up to the limit or to where measuring fails. */
  lemma {:induction false} WalkCuts(measure: FrameMeasure, buf: seq<byte>, maxFrames: nat)
    returns (pieces: seq<seq<byte>>, rests: seq<seq<byte>>, tail: seq<byte>)
    ensures |pieces| == |rests| == Walk(measure, buf, maxFrames) <= maxFrames
    ensures forall i :: 0 <= i < |pieces| ==> measure(pieces[i] + rests[i]) == Some(|pieces[i]|)
    ensures buf == Flatten(pieces) + tail
    ensures |pieces| == maxFrames || measure(tail).None? || measure(tail).value > |tail|
    decreases maxFrames
  {
    if maxFrames == 0 || measure(buf).None? || measure(buf).value > |buf| {
      pieces, rests, tail := [], [], buf;
    } else {
      var n := measure(buf).value;
      var first, rest := buf[..n], buf[n..];
      assert buf == first + rest;
      var more, moreRests;
      more, moreRests, tail := WalkCuts(measure, rest, maxFrames - 1);
      pieces, rests := [first] + more, [rest] + moreRests;
      assert pieces[1..] == more;
      Associativity(first, Flatten(more), tail);
    }
  }

  function Pieces(frames: seq<Frame>): (pieces: seq<seq<byte>>)
    requires AllLegal(frames)
    ensures |pieces| == |frames| && forall i :: 0 <= i < |frames| ==> pieces[i] == Serialize(frames[i])
  {
    seq(|frames|, i requires 0 <= i < |frames| => Serialize(frames[i]))
  }

  /** On n frames, in any widths, followed by something that is not a complete frame: min(n, maxFrames). */
  lemma WalkSerialized(frames: seq<Frame>, tail: seq<byte>, maxFrames: nat)
    requires AllLegal(frames) && FrameLength(tail).None?
    ensures Walk(FrameLength, Flatten(Pieces(frames)) + tail, maxFrames) == Min(|frames|, maxFrames)
  {
    forall i | 0 <= i < |frames| ensures SelfDelimiting(FrameLength, Pieces(frames)[i]) {
      forall rest: seq<byte> ensures FrameLength(Pieces(frames)[i] + rest) == Some(|Pieces(frames)[i]|) {
        FrameFound(frames[i], rest);
      }
    }
    WalkPieces(FrameLength, Pieces(frames), tail, maxFrames);
  }

  /**
    On arbitrary input: a count of k means that the input starts with exactly k
    complete frames, and that the walk stopped for the limit or because no
    complete frame follows.
    */
  lemma WalkExact(buf: seq<byte>, maxFrames: nat) returns (frames: seq<Frame>, tail: seq<byte>)
    ensures AllLegal(frames) && buf == Flatten(Pieces(frames)) + tail
    ensures |frames| == Walk(FrameLength, buf, maxFrames) <= maxFrames
    ensures |frames| == maxFrames || FrameLength(tail).None?
  {
    var pieces, rests;
    pieces, rests, tail := WalkCuts(FrameLength, buf, maxFrames);
    frames := FramesOf(pieces, rests);
    assert Pieces(frames) == pieces;
  }

  lemma FramesOf(pieces: seq<seq<byte>>, rests: seq<seq<byte>>) returns (frames: seq<Frame>)
    requires |pieces| == |rests|
    requires forall i :: 0 <= i < |pieces| ==> FrameLength(pieces[i] + rests[i]) == Some(|pieces[i]|)
    ensures AllLegal(frames) && |frames| == |pieces|
    ensures forall i :: 0 <= i < |frames| ==> Serialize(frames[i]) == pieces[i]
  {
    frames := [];
    for i := 0 to |pieces|
      invariant |frames| == i && AllLegal(frames)
      invariant forall k :: 0 <= k < i ==> Serialize(frames[k]) == pieces[k]
    {
      var f := FrameOfPiece(pieces[i], rests[i]);
      frames := frames + [f];
    }
  }

  lemma FrameOfPiece(piece: seq<byte>, rest: seq<byte>) returns (f: Frame)
    requires FrameLength(piece + rest) == Some(|piece|)
    ensures Legal(f) && Serialize(f) == piece
  {
    f := FrameRead(piece + rest);
    assert (piece + rest)[..|piece|] == piece;
  }
}
