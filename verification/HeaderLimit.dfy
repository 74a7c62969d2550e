/**
  The limit on response heads (src/http3_stream.rs). It is checked after every
  read, against the bytes that no complete head accounts for. So whether a
  response is refused may depend on where the reads end; it does not, exactly
  when every head of the response, interim or final, ends within the limit.
  */
module HeaderLimit {
  import opened Bytes
  import opened Text
  import opened ResponseHead
  import opened ResponseBody
  import opened ResponseBuffering
  import opened BackendTask
  import opened ResponseTransparency

  /** Every head, but for the last byte of its blank line, is within the limit, and so is a rest without a head. */
  predicate HeadsFit(reader: StatusReader, data: seq<byte>)
    decreases |data|
  {
    match HeaderEnd(data)
    case None => |data| <= 256 * 1024
    case Some(pos) =>
      && pos + 3 <= 256 * 1024
      && (IsInterim(reader(data[..pos])) ==> HeadsFit(reader, data[pos + 4..]))
  }

  /** A blank line is in a prefix exactly when the prefix reaches behind it. */
  lemma EndsInPrefix(data: seq<byte>, n: nat, q: nat)
    requires n <= |data|
    ensures EndsHeadAt(data[..n], q) <==> EndsHeadAt(data, q) && q + 4 <= n
  {
    if q + 4 <= n {
      assert data[..n][q..q + 4] == data[q..q + 4];
    }
  }

  /** The end of the head, seen in a prefix. */
  lemma {:induction false} HeaderEndOfPrefix(data: seq<byte>, n: nat)
    requires n <= |data|
    ensures var end := HeaderEnd(data);
            HeaderEnd(data[..n]) == if end.Some? && end.value + 4 <= n then end else None
  {
    var end := HeaderEnd(data);
    forall q: nat ensures EndsHeadAt(data[..n], q) <==> EndsHeadAt(data, q) && q + 4 <= n {
      EndsInPrefix(data, n, q);
    }
    if end.Some? && end.value + 4 <= n {
      HeaderEndIs(data[..n], end.value);
    }
  }

  lemma PrefixOfRest(data: seq<byte>, n: nat, k: nat)
    requires k <= n <= |data|
    ensures data[..n][k..] == data[k..][..n - k]
  {
  }

  /** If the heads fit, no prefix is too long. */
  lemma {:induction false} FitEveryPrefix(reader: StatusReader, data: seq<byte>, n: nat)
    requires HeadsFit(reader, data) && n <= |data|
    ensures !TooLong(reader, data[..n])
    decreases |data|
  {
    HeaderEndOfPrefix(data, n);
    if HeaderEnd(data[..n]).Some? {
      var pos := HeaderEnd(data).value;
      assert data[..n][..pos] == data[..pos];
      if IsInterim(reader(data[..pos])) {
        FitEveryPrefix(reader, data[pos + 4..], n - pos - 4);
        PrefixOfRest(data, n, pos + 4);
      }
    }
  }

  /** If they do not, some prefix is. */
  lemma {:induction false} UnfitPrefix(reader: StatusReader, data: seq<byte>) returns (n: nat)
    requires !HeadsFit(reader, data)
    ensures n <= |data| && TooLong(reader, data[..n])
    decreases |data|
  {
    match HeaderEnd(data)
    case None =>
      n := |data|;
      assert data[..n] == data;
    case Some(pos) =>
      if pos + 3 > MAX_RESPONSE_HEADER {
        n := pos + 3;
        HeaderEndOfPrefix(data, n);
      } else {
        var m := UnfitPrefix(reader, data[pos + 4..]);
        n := pos + 4 + m;
        HeaderEndOfPrefix(data, n);
        assert data[..n][..pos] == data[..pos];
        PrefixOfRest(data, n, pos + 4);
      }
  }

  /** The bytes in two reads, and then the close. */
  function TwoReads(data: seq<byte>, n: nat): seq<ReadEvent>
    requires n <= |data|
  {
    [if n == 0 then Blocked else Read(data[..n]), if n == |data| then Blocked else Read(data[n..]), Read([])]
  }

  lemma TwoReadsData(data: seq<byte>, n: nat)
    requires n <= |data|
    ensures EndsInClose(TwoReads(data, n)) && DataOf(TwoReads(data, n)) == data
    ensures DataTo(TwoReads(data, n), 1) == data[..n]
  {
    var events := TwoReads(data, n);
    assert DataTo(events, 1) == [] + data[..n] == data[..n];
    assert DataTo(events, 2) == data[..n] + data[n..] == data;
    assert DataTo(events, 3) == data + [] == data;
  }

  /** No split of these bytes into reads exceeds the limit. */
  ghost predicate NeverTooLong(data: seq<byte>) {
    forall events: seq<ReadEvent> :: EndsInClose(events) && DataOf(events) == data ==>
      WithinLimit(StatusOf, events, |events|)
  }

  /**
    Whether a response is within the limit does not depend on where the reads
    end if and only if all its heads fit. For bytes with a final head that says:
    every split is answered, by `RespondToTheEnd`, if and only if they do.
    */
  lemma {:induction false} NeverTooLongExactly(data: seq<byte>)
    ensures NeverTooLong(data) <==> HeadsFit(StatusOf, data)
  {
    if HeadsFit(StatusOf, data) {
      forall events: seq<ReadEvent> | EndsInClose(events) && DataOf(events) == data
        ensures WithinLimit(StatusOf, events, |events|)
      {
        FitEverySplit(events);
      }
    } else {
      var n := UnfitPrefix(StatusOf, data);
      TwoReadsData(data, n);
      assert TooLongAfter(StatusOf, TwoReads(data, n), 1);
    }
  }

  lemma {:induction false} FitEverySplit(events: seq<ReadEvent>)
    requires HeadsFit(StatusOf, DataOf(events))
    ensures WithinLimit(StatusOf, events, |events|)
  {
    forall k: nat | k <= |events| ensures !TooLongAfter(StatusOf, events, k) {
      DataPrefix(events, k, |events|);
      FitEveryPrefix(StatusOf, DataOf(events), |DataTo(events, k)|);
      assert DataOf(events)[..|DataTo(events, k)|] == DataTo(events, k);
    }
  }

  // ---------------------------------------------------------------------------
  // A response that is answered or refused according to the split
  // ---------------------------------------------------------------------------

  function Letters(n: nat): (s: seq<byte>)
    ensures |s| == n && forall i :: 0 <= i < n ==> s[i] == 65
  {
    seq(n, _ => 65)
  }

  /** A head without a status, as long as the limit. */
  function LongHead(): seq<byte> {
    Letters(MAX_RESPONSE_HEADER) + BLANK_LINE
  }

  lemma {:induction false} LettersHaveNoStatus(n: nat)
    requires n > 0
    ensures StatusOf(Letters(n)) == 502
  {
    var s := Letters(n);
    IndexFromIs(s, 0, LF, n);
    IndexFromIs(s, 0, SPACE, n);
    assert Split(s, LF) == [s] && Split(s, SPACE) == [s];
    var one: seq<seq<byte>> := [s];
    assert one[1..] == [] && NonEmpty(one) == [s] + NonEmpty([]);
  }

  lemma {:induction false} LongHeadEnds()
    ensures HeaderEnd(LongHead()) == Some(MAX_RESPONSE_HEADER)
    ensures Settle(StatusOf, LongHead()) == Settled(LongHead(), Some(MAX_RESPONSE_HEADER))
  {
    var data := LongHead();
    assert data[MAX_RESPONSE_HEADER..MAX_RESPONSE_HEADER + 4] == BLANK_LINE;
    forall q | 0 <= q < MAX_RESPONSE_HEADER ensures !EndsHeadAt(data, q) {
      assert data[q..q + 4][0] == 65;
    }
    HeaderEndIs(data, MAX_RESPONSE_HEADER);
    assert data[..MAX_RESPONSE_HEADER] == Letters(MAX_RESPONSE_HEADER);
    LettersHaveNoStatus(MAX_RESPONSE_HEADER);
  }

  /** In one read the head is found. */
  lemma {:induction false} AnsweredAtOnce()
    ensures !Unanswerable(TwoReads(LongHead(), |LongHead()|))
  {
    LongHeadEnds();
    TwoReadsData(LongHead(), |LongHead()|);
    FoundAtOnce(LongHead());
  }

  lemma {:induction false} FoundAtOnce(data: seq<byte>)
    requires Settle(StatusOf, data).end.Some?
    ensures WithinLimit(StatusOf, TwoReads(data, |data|), 3)
  {
    var events := TwoReads(data, |data|);
    TwoReadsData(data, |data|);
    assert data[..|data|] == data;
    assert DataTo(events, 0) == [] && Settle(StatusOf, []).buffer == [];
    assert !TooLongAfter(StatusOf, events, 0);
    LimitStep(StatusOf, events, 0);
    StaysWithinLimit(events, 1);
  }

  /** With a read that ends in front of its last byte, it is refused. */
  lemma {:induction false} RefusedInTwo()
    ensures Unanswerable(TwoReads(LongHead(), |LongHead()| - 1))
  {
    var data := LongHead();
    var n := |data| - 1;
    LongHeadEnds();
    HeaderEndOfPrefix(data, n);
    TwoReadsData(data, n);
    assert TooLongAfter(StatusOf, TwoReads(data, n), 1);
  }

  /** The same bytes in two runs: answered in one read, refused in two. */
  method SplitMatters(compression: Compression) returns (once: Option<seq<Message>>, twice: Option<seq<Message>>)
    ensures once.Some? && twice.None?
  {
    var data := LongHead();
    TwoReadsData(data, |data|);
    TwoReadsData(data, |data| - 1);
    AnsweredAtOnce();
    RefusedInTwo();
    once := RespondToTheEnd(TwoReads(data, |data|), compression);
    twice := RespondToTheEnd(TwoReads(data, |data| - 1), compression);
  }
}
