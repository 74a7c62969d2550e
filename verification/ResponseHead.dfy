/**
  Finding and reading the head of the backend's response (src/http3_stream.rs):
  the end of the header section, the status code, and discarding interim (1xx)
  responses.
  */
module ResponseHead {
  import opened Bytes
  import opened Text

  const BLANK_LINE: seq<byte> := [CR, LF, CR, LF]

  predicate EndsHeadAt(data: seq<byte>, p: nat) {
    p + 4 <= |data| && data[p..p + 4] == BLANK_LINE
  }

  /** The least position from `from` on where the header section ends. */
  function HeaderEndFrom(data: seq<byte>, from: nat): (r: Option<nat>)
    requires from <= |data|
    ensures r.Some? ==> from <= r.value && EndsHeadAt(data, r.value)
    ensures forall p :: from <= p < (if r.Some? then r.value else |data|) ==> !EndsHeadAt(data, p)
    decreases |data| - from
  {
    if from == |data| then None
    else if EndsHeadAt(data, from) then Some(from)
    else HeaderEndFrom(data, from + 1)
  }

  function HeaderEnd(data: seq<byte>): (r: Option<nat>)
    ensures r.Some? ==> EndsHeadAt(data, r.value)
  {
    HeaderEndFrom(data, 0)
  }

  lemma HeaderEndIs(data: seq<byte>, pos: nat)
    requires EndsHeadAt(data, pos) && forall q :: 0 <= q < pos ==> !EndsHeadAt(data, q)
    ensures HeaderEnd(data) == Some(pos)
  {
  }

  lemma {:induction false} SkipTo(data: seq<byte>, from: nat, to: nat)
    requires from <= to <= |data|
    requires forall p :: from <= p < to ==> data[p] != CR
    ensures HeaderEndFrom(data, from) == HeaderEndFrom(data, to)
    decreases |data| - from
  {
    if from < to {
      assert EndsHeadAt(data, from) ==> data[from..from + 4][0] == CR;
      SkipTo(data, from + 1, to);
    }
  }

  /** Searches carriage return by carriage return. */
  method FindHeaderEnd(data: seq<byte>) returns (r: Option<nat>)
    ensures r == HeaderEnd(data)
  {
    var searchFrom := 0;
    while searchFrom < |data|
      invariant 0 <= searchFrom <= |data|
      invariant HeaderEnd(data) == HeaderEndFrom(data, searchFrom)
    {
      var pos := IndexFrom(data, searchFrom, CR);
      SkipTo(data, searchFrom, pos);
      if pos == |data| {
        return None;
      }
      if |data| >= pos + 4 && data[pos..pos + 4] == BLANK_LINE {
        return Some(pos);
      }
      searchFrom := pos + 1;
    }
    return None;
  }

  /** An end of the header section stays where it is when more bytes arrive. */
  lemma {:induction false} HeaderEndStable(a: seq<byte>, b: seq<byte>, from: nat)
    requires from <= |a|
    requires HeaderEndFrom(a, from).Some?
    ensures HeaderEndFrom(a + b, from) == HeaderEndFrom(a, from)
    decreases |a| - from
  {
    if from + 4 <= |a| {
      assert (a + b)[from..from + 4] == a[from..from + 4];
    }
    if !EndsHeadAt(a, from) {
      assert EndsHeadAt(a, HeaderEndFrom(a, from).value);
      HeaderEndStable(a, b, from + 1);
    }
  }

  // ---------------------------------------------------------------------------
  // Status code
  // ---------------------------------------------------------------------------

  function NonEmpty(pieces: seq<seq<byte>>): seq<seq<byte>> {
    if pieces == [] then []
    else (if pieces[0] == [] then [] else [pieces[0]]) + NonEmpty(pieces[1..])
  }

  /** The second space-separated word of the first line, as a number. */
  function ParseStatusCode(head: seq<byte>): Option<nat> {
    var words := NonEmpty(Split(Split(head, LF)[0], SPACE));
    if |words| < 2 || !IsUtf8(words[1]) then None else ParseUnsigned(Trim(words[1]), 10, U16_MAX)
  }

  function StatusOf(head: seq<byte>): nat {
    match ParseStatusCode(head)
    case Some(code) => code
    case None => 502
  }

  // ---------------------------------------------------------------------------
  // Interim responses
  // ---------------------------------------------------------------------------

  type StatusReader = seq<byte> -> nat

  predicate IsInterim(status: nat) {
    100 <= status <= 199 && status != 101
  }

  /** A buffer and where its header section ends, if it does. */
  datatype Settled = Settled(buffer: seq<byte>, end: Option<nat>)

  /** Interim heads dropped from the front, for any way of reading the status. */
  function Settle(status: StatusReader, buffer: seq<byte>): (r: Settled)
    ensures r.end.Some? ==> EndsHeadAt(r.buffer, r.end.value)
    decreases |buffer|
  {
    match HeaderEnd(buffer)
    case None => Settled(buffer, None)
    case Some(pos) =>
      if IsInterim(status(buffer[..pos])) then Settle(status, buffer[pos + 4..]) else Settled(buffer, Some(pos))
  }

  method DrainInterimAndFindHeaderEnd(status: StatusReader, headBuf: seq<byte>) returns (r: Settled)
    ensures r == Settle(status, headBuf)
  {
    var buffer := headBuf;
    while true
      invariant Settle(status, headBuf) == Settle(status, buffer)
      decreases |buffer|
    {
      var pos := FindHeaderEnd(buffer);
      if pos == None {
        return Settled(buffer, None);
      }
      if IsInterim(status(buffer[..pos.value])) {
        buffer := buffer[pos.value + 4..];
      } else {
        return Settled(buffer, pos);
      }
    }
  }

  /** What is left is a suffix of the input; its head, if complete, is the first one and not interim. */
  lemma {:induction false} SettleIsSuffix(status: StatusReader, buffer: seq<byte>) returns (k: nat)
    ensures k <= |buffer| && Settle(status, buffer).buffer == buffer[k..]
    ensures var r := Settle(status, buffer);
            && r.end == HeaderEnd(r.buffer)
            && (r.end.Some? ==> !IsInterim(status(r.buffer[..r.end.value])))
    decreases |buffer|
  {
    k := 0;
    assert buffer[0..] == buffer;
    match HeaderEnd(buffer)
    case None =>
    case Some(pos) =>
      if IsInterim(status(buffer[..pos])) {
        var j := SettleIsSuffix(status, buffer[pos + 4..]);
        k := pos + 4 + j;
        SliceOfDrop(buffer, pos + 4, j, |buffer| - pos - 4);
      }
  }

  /**
    Confluence: draining after each read leaves the same buffer and header end
    as draining once over everything, and a header end once found stays.
    */
  lemma {:induction false} SettleConfluent(status: StatusReader, a: seq<byte>, b: seq<byte>)
    ensures Settle(status, Settle(status, a).buffer + b) == Settle(status, a + b)
    ensures Settle(status, a).end.Some? ==>
              Settle(status, a + b) == Settled(Settle(status, a).buffer + b, Settle(status, a).end)
    decreases |a|
  {
    match HeaderEnd(a)
    case None =>
    case Some(pos) =>
      HeaderEndStable(a, b, 0);
      assert (a + b)[..pos] == a[..pos];
      if IsInterim(status(a[..pos])) {
        assert (a + b)[pos + 4..] == a[pos + 4..] + b;
        SettleConfluent(status, a[pos + 4..], b);
      }
  }

  /** Draining after each of a series of reads. */
  function SettleReads(status: StatusReader, buffer: seq<byte>, pieces: seq<seq<byte>>): seq<byte>
    decreases |pieces|
  {
    if pieces == [] then buffer else SettleReads(status, Settle(status, buffer + pieces[0]).buffer, pieces[1..])
  }

  /** Draining after every read leaves the buffer, and finds the head, that draining once over all reads does. */
  lemma {:induction false} SettleAnySplit(status: StatusReader, buffer: seq<byte>, pieces: seq<seq<byte>>)
    ensures Settle(status, SettleReads(status, buffer, pieces)) == Settle(status, buffer + Flatten(pieces))
    ensures pieces != [] ==> SettleReads(status, buffer, pieces) == Settle(status, buffer + Flatten(pieces)).buffer
    decreases |pieces|
  {
    if pieces == [] {
      assert buffer + Flatten(pieces) == buffer;
    } else {
      var rest := Flatten(pieces[1..]);
      SettleAnySplit(status, Settle(status, buffer + pieces[0]).buffer, pieces[1..]);
      SettleConfluent(status, buffer + pieces[0], rest);
      Associativity(buffer, pieces[0], rest);
      assert |pieces| == 1 ==> pieces[1..] == [] && buffer + pieces[0] + [] == buffer + pieces[0];
    }
  }
}
