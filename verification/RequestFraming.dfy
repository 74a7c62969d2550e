/**
  Request body framing (`classify_request_framing` of src/http_utils.rs),
  section 3.3.3 of RFC 7230. The classifier makes one pass over the headers; its
  meaning is stated over the whole header list.
  */
module RequestFraming {
  import opened Bytes
  import opened Text
  import opened HeaderNames

  const COMMA: byte := 44

  datatype Header = Header(name: seq<byte>, value: seq<byte>)

  datatype Framing = ContentLength | Chunked

  datatype Rejection = MultipleContentLength | LengthAndEncoding | NoTerminalChunked

  datatype Verdict = Accept(framing: Framing) | Reject(reason: Rejection)

  predicate IsContentLength(h: Header) {
    EqIgnoreCase(h.name, CONTENT_LENGTH)
  }

  predicate IsTransferEncoding(h: Header) {
    !IsContentLength(h) && EqIgnoreCase(h.name, TRANSFER_ENCODING)
  }

  // ---------------------------------------------------------------------------
  // Tokens
  // ---------------------------------------------------------------------------

  predicate IsBlank(b: byte) {
    b == SPACE || b == TAB
  }

  /** From the first byte that is not blank on. */
  function SkipBlanks(s: seq<byte>): seq<byte> {
    if s == [] || !IsBlank(s[0]) then s else SkipBlanks(s[1..])
  }

  /** Up to the last byte that is not blank. */
  function SkipBlanksBack(s: seq<byte>): seq<byte> {
    if s == [] || !IsBlank(s[|s| - 1]) then s else SkipBlanksBack(s[..|s| - 1])
  }

  function TrimAsciiWhitespace(s: seq<byte>): seq<byte> {
    SkipBlanksBack(SkipBlanks(s))
  }

  predicate AllBlank(s: seq<byte>) {
    forall b :: b in s ==> IsBlank(b)
  }

  lemma {:induction false} SkipBlanksCuts(s: seq<byte>) returns (front: seq<byte>)
    ensures s == front + SkipBlanks(s) && AllBlank(front)
    ensures SkipBlanks(s) != [] ==> !IsBlank(SkipBlanks(s)[0])
  {
    front := [];
    if s != [] && IsBlank(s[0]) {
      var more := SkipBlanksCuts(s[1..]);
      front := [s[0]] + more;
      Associativity([s[0]], more, SkipBlanks(s));
      assert s == [s[0]] + s[1..];
    }
  }

  lemma {:induction false} SkipBlanksBackCuts(s: seq<byte>) returns (back: seq<byte>)
    ensures s == SkipBlanksBack(s) + back && AllBlank(back)
    ensures var t := SkipBlanksBack(s); t != [] ==> !IsBlank(t[|t| - 1])
  {
    back := [];
    if s != [] && IsBlank(s[|s| - 1]) {
      var init, last := s[..|s| - 1], s[|s| - 1];
      var more := SkipBlanksBackCuts(init);
      back := more + [last];
      Associativity(SkipBlanksBack(s), more, [last]);
      assert s == init + [last];
    }
  }

  /** Blanks, and only blanks, are taken off at either end. */
  lemma {:induction false} TrimIsMiddle(s: seq<byte>) returns (front: seq<byte>, back: seq<byte>)
    ensures s == front + TrimAsciiWhitespace(s) + back && AllBlank(front) && AllBlank(back)
    ensures var t := TrimAsciiWhitespace(s); t != [] ==> !IsBlank(t[0]) && !IsBlank(t[|t| - 1])
  {
    front := SkipBlanksCuts(s);
    back := SkipBlanksBackCuts(SkipBlanks(s));
    Associativity(front, TrimAsciiWhitespace(s), back);
  }

  /** Whether the last non-empty token is "chunked"; `before` if there is none. */
  function LastIsChunked(parts: seq<seq<byte>>, before: bool): bool {
    if parts == [] then before
    else
      var token := TrimAsciiWhitespace(parts[|parts| - 1]);
      if token != [] then EqIgnoreCase(token, CHUNKED) else LastIsChunked(parts[..|parts| - 1], before)
  }

  lemma {:induction false} LastIsChunkedConcat(a: seq<seq<byte>>, b: seq<seq<byte>>, before: bool)
    ensures LastIsChunked(a + b, before) == LastIsChunked(b, LastIsChunked(a, before))
    decreases |b|
  {
    if b == [] {
      assert a + b == a;
    } else {
      assert (a + b)[..|a + b| - 1] == a + b[..|b| - 1];
      LastIsChunkedConcat(a, b[..|b| - 1], before);
    }
  }

  // ---------------------------------------------------------------------------
  // The meaning, over the whole header list
  // ---------------------------------------------------------------------------

  function ContentLengths(headers: seq<Header>): nat {
    if headers == [] then 0
    else ContentLengths(headers[..|headers| - 1]) + if IsContentLength(headers[|headers| - 1]) then 1 else 0
  }

  /** The values of all Transfer-Encoding headers, in order. */
  function Encodings(headers: seq<Header>): seq<seq<byte>> {
    if headers == [] then []
    else
      var last := headers[|headers| - 1];
      Encodings(headers[..|headers| - 1]) + if IsTransferEncoding(last) then [last.value] else []
  }

  /** Several headers of one name are one list: their values joined by commas. */
  function Joined(values: seq<seq<byte>>): seq<byte>
    requires values != []
  {
    if |values| == 1 then values[0] else Joined(values[..|values| - 1]) + [COMMA] + values[|values| - 1]
  }

  function VerdictFor(lengths: nat, encodings: seq<seq<byte>>): Verdict {
    if lengths > 1 then Reject(MultipleContentLength)
    else if lengths == 1 && encodings != [] then Reject(LengthAndEncoding)
    else if encodings == [] then Accept(ContentLength)
    else if LastIsChunked(Split(Joined(encodings), COMMA), false) then Accept(Chunked)
    else Reject(NoTerminalChunked)
  }

  /** Count of Content-Length headers, presence of Transfer-Encoding, and the last token of its joined values. */
  function Classify(headers: seq<Header>): Verdict {
    VerdictFor(ContentLengths(headers), Encodings(headers))
  }

  // ---------------------------------------------------------------------------
  // Joining and splitting
  // ---------------------------------------------------------------------------

  lemma {:induction false} SplitAtSeparator(a: seq<byte>, b: seq<byte>)
    ensures Split(a + [COMMA] + b, COMMA) == Split(a, COMMA) + Split(b, COMMA)
    decreases |a|
  {
    var s := a + [COMMA] + b;
    var i := IndexFrom(a, 0, COMMA);
    IndexFromIs(s, 0, COMMA, i);
    if i == |a| {
      assert s[..i] == a && s[i + 1..] == b;
    } else {
      assert s[..i] == a[..i];
      assert s[i + 1..] == a[i + 1..] + [COMMA] + b;
      SplitAtSeparator(a[i + 1..], b);
    }
  }

  /** The tokens of all values in order are the tokens of the joined value. */
  function Parts(values: seq<seq<byte>>): seq<seq<byte>> {
    if values == [] then [] else Parts(values[..|values| - 1]) + Split(values[|values| - 1], COMMA)
  }

  lemma {:induction false} PartsOfJoined(values: seq<seq<byte>>)
    requires values != []
    ensures Split(Joined(values), COMMA) == Parts(values)
    decreases |values|
  {
    if |values| == 1 {
      var only := Split(values[0], COMMA);
      assert Parts(values) == [] + only == only;
    } else {
      PartsOfJoined(values[..|values| - 1]);
      SplitAtSeparator(Joined(values[..|values| - 1]), values[|values| - 1]);
    }
  }

  // ---------------------------------------------------------------------------
  // The meaning, position by position
  // ---------------------------------------------------------------------------

  /** Space, tab or comma: what may surround tokens. */
  predicate IsFiller(b: byte) {
    b == 32 || b == 9 || b == 44
  }

  /** A value without any token. */
  predicate NoToken(value: seq<byte>) {
    forall i :: 0 <= i < |value| ==> IsFiller(value[i])
  }

  /**
    The last token of a value stands at from..to: it begins behind blanks that begin
    the value or follow a comma, it has no comma in it and no blank at its ends, and
    nothing but blanks and commas follows.
    */
  predicate LastTokenAt(value: seq<byte>, start: nat, from: nat, to: nat) {
    && start <= from < to <= |value|
    && (start == 0 || value[start - 1] == 44)
    && (forall i :: start <= i < from ==> value[i] == 32 || value[i] == 9)
    && (forall i :: from <= i < to ==> value[i] != 44)
    && !IsFiller(value[from]) && !IsFiller(value[to - 1])
    && (forall i :: to <= i < |value| ==> IsFiller(value[i]))
  }

  ghost predicate EndsInChunked(value: seq<byte>) {
    exists start: nat, from: nat, to: nat ::
      LastTokenAt(value, start, from, to) && Spells(value[from..to], "chunked")
  }

  lemma LastTokenEnds(value: seq<byte>, start: nat, from: nat, to: nat, start': nat, from': nat, to': nat)
    requires LastTokenAt(value, start, from, to) && LastTokenAt(value, start', from', to')
    ensures to <= to'
  {
    assert !IsFiller(value[to - 1]);
  }

  /** There is at most one last token. */
  lemma LastTokenUnique(value: seq<byte>, start: nat, from: nat, to: nat, start': nat, from': nat, to': nat)
    requires LastTokenAt(value, start, from, to) && LastTokenAt(value, start', from', to')
    ensures from == from' && to == to'
  {
    LastTokenEnds(value, start, from, to, start', from', to');
    LastTokenEnds(value, start', from', to', start, from, to);
  }

  lemma TokenOfPiece(b: seq<byte>, front: seq<byte>, token: seq<byte>, back: seq<byte>)
    requires b == front + token + back && COMMA !in b && AllBlank(front) && AllBlank(back)
    requires token != [] && !IsBlank(token[0]) && !IsBlank(token[|token| - 1])
    ensures LastTokenAt(b, 0, |front|, |front| + |token|) && b[|front|..|front| + |token|] == token
  {
    var to := |front| + |token|;
    assert b[|front|] == token[0] && b[to - 1] == token[|token| - 1];
    assert b[|front|] in b && b[to - 1] in b;
    forall i | 0 <= i < |front| ensures b[i] == 32 || b[i] == 9 {
      assert b[i] == front[i] && front[i] in front;
    }
    forall i | to <= i < |b| ensures IsFiller(b[i]) {
      assert b[i] == back[i - to] && back[i - to] in back;
    }
    forall i | 0 <= i < |b| ensures b[i] != 44 {
      assert b[i] in b;
    }
  }

  lemma TokenBehind(a: seq<byte>, b: seq<byte>, from: nat, to: nat)
    requires (a == [] || a[|a| - 1] == 44) && LastTokenAt(b, 0, from, to)
    ensures LastTokenAt(a + b, |a|, |a| + from, |a| + to) && (a + b)[|a| + from..|a| + to] == b[from..to]
  {
    var value, n := a + b, |a|;
    assert forall i :: n <= i < |value| ==> value[i] == b[i - n];
    assert value[n + from] == b[from] && value[n + to - 1] == b[to - 1];
    assert a != [] ==> value[n - 1] == a[n - 1];
    assert value[n + from..n + to] == b[from..to];
  }

  lemma TokenInFront(a: seq<byte>, b: seq<byte>, start: nat, from: nat, to: nat)
    requires NoToken(b)
    ensures LastTokenAt(a + b, start, from, to) <==> LastTokenAt(a, start, from, to)
    ensures LastTokenAt(a, start, from, to) ==> (a + b)[from..to] == a[from..to]
  {
    var value := a + b;
    assert forall i :: 0 <= i < |a| ==> value[i] == a[i];
    assert forall i :: |a| <= i < |value| ==> value[i] == b[i - |a|];
  }

  /** The part of a value behind its last comma. */
  lemma {:induction false} LastComma(value: seq<byte>) returns (a: seq<byte>, b: seq<byte>)
    requires COMMA in value
    ensures value == a + [COMMA] + b && COMMA !in b
    decreases |value|
  {
    var init, last := value[..|value| - 1], value[|value| - 1];
    assert value == init + [last];
    if last == COMMA {
      a, b := init, [];
    } else {
      a, b := LastComma(init);
      assert a + [COMMA] + b + [last] == a + [COMMA] + (b + [last]);
      b := b + [last];
    }
  }

  lemma BlankPiece(b: seq<byte>)
    requires COMMA !in b
    ensures TrimAsciiWhitespace(b) == [] ==> NoToken(b)
  {
    var front, back := TrimIsMiddle(b);
    if TrimAsciiWhitespace(b) == [] {
      assert b == front + back;
      assert AllBlank(b);
      forall i | 0 <= i < |b| ensures IsFiller(b[i]) {
        assert b[i] in b;
      }
    }
  }

  lemma TokenDecides(value: seq<byte>, start: nat, from: nat, to: nat, token: seq<byte>)
    requires LastTokenAt(value, start, from, to) && value[from..to] == token
    ensures !NoToken(value) && (EndsInChunked(value) <==> EqIgnoreCase(token, CHUNKED))
  {
    SpellsExactly(token, "chunked");
    if EndsInChunked(value) {
      var start': nat, from': nat, to': nat :|
        LastTokenAt(value, start', from', to') && Spells(value[from'..to'], "chunked");
      LastTokenUnique(value, start, from, to, start', from', to');
    }
  }

  /** Blanks and commas behind a value change nothing. */
  lemma Shorter(a: seq<byte>, b: seq<byte>)
    requires NoToken(b)
    ensures NoToken(a + b) <==> NoToken(a)
    ensures EndsInChunked(a + b) <==> EndsInChunked(a)
  {
    assert forall i :: 0 <= i < |a| ==> (a + b)[i] == a[i];
    assert forall i :: |a| <= i < |a + b| ==> (a + b)[i] == b[i - |a|];
    assert EndsInChunked(a + b) <==> EndsInChunked(a) by {
      forall start: nat, from: nat, to: nat
        ensures LastTokenAt(a + b, start, from, to) <==> LastTokenAt(a, start, from, to)
        ensures LastTokenAt(a, start, from, to) ==> (a + b)[from..to] == a[from..to]
      {
        TokenInFront(a, b, start, from, to);
      }
    }
  }

  lemma PieceOf(b: seq<byte>)
    requires COMMA !in b
    ensures Split(b, COMMA) == [b]
  {
    IndexFromIs(b, 0, COMMA, |b|);
  }

  lemma LastOfPieces(parts: seq<seq<byte>>, b: seq<byte>, before: bool)
    ensures var token := TrimAsciiWhitespace(b);
            LastIsChunked(parts + [b], before) ==
            if token != [] then EqIgnoreCase(token, CHUNKED) else LastIsChunked(parts, before)
  {
    assert (parts + [b])[..|parts|] == parts;
  }

  lemma TokenPlaced(a: seq<byte>, b: seq<byte>, front: seq<byte>, token: seq<byte>, back: seq<byte>)
    requires (a == [] || a[|a| - 1] == 44) && COMMA !in b
    requires b == front + token + back && AllBlank(front) && AllBlank(back)
    requires token != [] && !IsBlank(token[0]) && !IsBlank(token[|token| - 1])
    ensures !NoToken(a + b) && (EndsInChunked(a + b) <==> EqIgnoreCase(token, CHUNKED))
  {
    TokenOfPiece(b, front, token, back);
    TokenBehind(a, b, |front|, |front| + |token|);
    TokenDecides(a + b, |a|, |a| + |front|, |a| + |front| + |token|, token);
  }

  /** A last piece with a token in it decides. */
  lemma PieceDecides(a: seq<byte>, b: seq<byte>)
    requires (a == [] || a[|a| - 1] == 44) && COMMA !in b
    ensures var token := TrimAsciiWhitespace(b);
            token != [] ==> !NoToken(a + b) && (EndsInChunked(a + b) <==> EqIgnoreCase(token, CHUNKED))
  {
    var front, back := TrimIsMiddle(b);
    if TrimAsciiWhitespace(b) != [] {
      TokenPlaced(a, b, front, TrimAsciiWhitespace(b), back);
    }
  }

  /** The verdict on a value of one piece more. */
  lemma PieceMore(a: seq<byte>, b: seq<byte>, earlier: bool, before: bool)
    requires COMMA !in b && earlier == if NoToken(a) then before else EndsInChunked(a)
    ensures var value, token := a + [COMMA] + b, TrimAsciiWhitespace(b);
            (if token != [] then EqIgnoreCase(token, CHUNKED) else earlier) ==
            if NoToken(value) then before else EndsInChunked(value)
  {
    PieceDecides(a + [COMMA], b);
    if TrimAsciiWhitespace(b) == [] {
      BlankPiece(b);
      Shorter(a, [COMMA] + b);
      Associativity(a, [COMMA], b);
    }
  }

  lemma PieceOnly(b: seq<byte>, before: bool)
    requires COMMA !in b
    ensures var token := TrimAsciiWhitespace(b);
            (if token != [] then EqIgnoreCase(token, CHUNKED) else before) ==
            if NoToken(b) then before else EndsInChunked(b)
  {
    PieceDecides([], b);
    assert [] + b == b;
    BlankPiece(b);
  }

  /** What the tokens of one value come to: its last token decides, and without one nothing changes. */
  lemma {:induction false} ValueDecides(value: seq<byte>, before: bool)
    ensures LastIsChunked(Split(value, COMMA), before) == if NoToken(value) then before else EndsInChunked(value)
    decreases |value|
  {
    if COMMA in value {
      var a, b := LastComma(value);
      SplitAtSeparator(a, b);
      PieceOf(b);
      LastOfPieces(Split(a, COMMA), b, before);
      ValueDecides(a, before);
      PieceMore(a, b, LastIsChunked(Split(a, COMMA), before), before);
    } else {
      PieceOf(value);
      LastOfPieces([], value, before);
      assert [] + [value] == [value];
      PieceOnly(value, before);
    }
  }

  predicate NamesLength(h: Header) {
    Spells(h.name, "content-length")
  }

  predicate NamesEncoding(h: Header) {
    Spells(h.name, "transfer-encoding")
  }

  ghost predicate SomeLength(headers: seq<Header>) {
    exists i :: 0 <= i < |headers| && NamesLength(headers[i])
  }

  ghost predicate TwoLengths(headers: seq<Header>) {
    exists i, j :: 0 <= i < j < |headers| && NamesLength(headers[i]) && NamesLength(headers[j])
  }

  ghost predicate SomeEncoding(headers: seq<Header>) {
    exists i :: 0 <= i < |headers| && NamesEncoding(headers[i])
  }

  /** The last Transfer-Encoding header that has a token at all. */
  predicate DecidesEncoding(headers: seq<Header>, i: nat) {
    && i < |headers| && NamesEncoding(headers[i]) && !NoToken(headers[i].value)
    && forall j :: i < j < |headers| && NamesEncoding(headers[j]) ==> NoToken(headers[j].value)
  }

  ghost predicate LastEncodingIsChunked(headers: seq<Header>) {
    exists i: nat :: DecidesEncoding(headers, i) && EndsInChunked(headers[i].value)
  }

  lemma HeaderNamed(h: Header)
    ensures IsContentLength(h) <==> NamesLength(h)
    ensures IsTransferEncoding(h) <==> NamesEncoding(h)
    ensures !(NamesLength(h) && NamesEncoding(h))
  {
    SpellsExactly(h.name, "content-length");
    SpellsExactly(h.name, "transfer-encoding");
  }

  lemma {:induction false} LengthsCounted(headers: seq<Header>)
    ensures ContentLengths(headers) > 0 <==> SomeLength(headers)
    ensures ContentLengths(headers) > 1 <==> TwoLengths(headers)
    decreases |headers|
  {
    if headers != [] {
      var n := |headers| - 1;
      var init := headers[..n];
      LengthsCounted(init);
      HeaderNamed(headers[n]);
      assert forall i :: 0 <= i < n ==> init[i] == headers[i];
      if NamesLength(headers[n]) && SomeLength(init) {
        var i :| 0 <= i < |init| && NamesLength(init[i]);
        assert i < n && NamesLength(headers[i]) && NamesLength(headers[n]);
      }
      if TwoLengths(init) {
        var i, j :| 0 <= i < j < |init| && NamesLength(init[i]) && NamesLength(init[j]);
        assert NamesLength(headers[i]) && NamesLength(headers[j]);
      }
    }
  }

  lemma {:induction false} EncodingsPresent(headers: seq<Header>)
    ensures Encodings(headers) != [] <==> SomeEncoding(headers)
    decreases |headers|
  {
    if headers != [] {
      var n := |headers| - 1;
      var init := headers[..n];
      EncodingsPresent(init);
      HeaderNamed(headers[n]);
      assert forall i :: 0 <= i < n ==> init[i] == headers[i];
    }
  }

  lemma {:induction false} LastEncodingDecides(headers: seq<Header>)
    ensures LastIsChunked(Parts(Encodings(headers)), false) <==> LastEncodingIsChunked(headers)
    decreases |headers|
  {
    if headers != [] {
      var n := |headers| - 1;
      var init, last := headers[..n], headers[n];
      LastEncodingDecides(init);
      HeaderNamed(last);
      assert headers == init + [last];
      LastHeaderDecides(init, last);
      var values := Encodings(init);
      if NamesEncoding(last) {
        assert (values + [last.value])[..|values|] == values;
        LastIsChunkedConcat(Parts(values), Split(last.value, COMMA), false);
        ValueDecides(last.value, LastIsChunked(Parts(values), false));
      } else {
        assert values + [] == values;
      }
    }
  }

  /** One more header decides if it is a Transfer-Encoding with a token, and changes nothing otherwise. */
  lemma LastHeaderDecides(init: seq<Header>, last: Header)
    ensures LastEncodingIsChunked(init + [last]) <==>
            if NamesEncoding(last) && !NoToken(last.value) then EndsInChunked(last.value)
            else LastEncodingIsChunked(init)
  {
    var headers, n := init + [last], |init|;
    assert headers[n] == last && forall i :: 0 <= i < n ==> headers[i] == init[i];
    if NamesEncoding(last) && !NoToken(last.value) {
      assert DecidesEncoding(headers, n);
      assert forall i: nat :: DecidesEncoding(headers, i) ==> i == n;
    } else {
      assert forall i: nat :: DecidesEncoding(headers, i) <==> DecidesEncoding(init, i);
    }
  }

  /** When each verdict is given, in terms of the positions of the headers alone. */
  lemma VerdictExactly(headers: seq<Header>)
    ensures Classify(headers) == Accept(Chunked) <==>
            !SomeLength(headers) && SomeEncoding(headers) && LastEncodingIsChunked(headers)
    ensures Classify(headers) == Accept(ContentLength) <==> !TwoLengths(headers) && !SomeEncoding(headers)
    ensures Classify(headers) == Reject(MultipleContentLength) <==> TwoLengths(headers)
    ensures Classify(headers) == Reject(LengthAndEncoding) <==>
            SomeLength(headers) && !TwoLengths(headers) && SomeEncoding(headers)
    ensures Classify(headers) == Reject(NoTerminalChunked) <==>
            !SomeLength(headers) && SomeEncoding(headers) && !LastEncodingIsChunked(headers)
  {
    LengthsCounted(headers);
    EncodingsPresent(headers);
    LastEncodingDecides(headers);
    if Encodings(headers) != [] {
      PartsOfJoined(Encodings(headers));
    }
  }

  // ---------------------------------------------------------------------------
  // The program
  // ---------------------------------------------------------------------------

  /** The inner loop: the tokens of one value. */
  method ScanValue(value: seq<byte>, before: bool) returns (last: bool)
    ensures last == LastIsChunked(Split(value, COMMA), before)
  {
    last := before;
    var parts := Split(value, COMMA);
    for i := 0 to |parts|
      invariant last == LastIsChunked(parts[..i], before)
    {
      assert parts[..i + 1][..i] == parts[..i];
      var token := TrimAsciiWhitespace(parts[i]);
      if token != [] {
        last := EqIgnoreCase(token, CHUNKED);
      }
    }
    assert parts[..|parts|] == parts;
  }

  method ClassifyRequestFraming(headers: seq<Header>) returns (r: Verdict)
    ensures r == Classify(headers)
    ensures r == Accept(Chunked) <==>
            !SomeLength(headers) && SomeEncoding(headers) && LastEncodingIsChunked(headers)
    ensures r == Accept(ContentLength) <==> !TwoLengths(headers) && !SomeEncoding(headers)
    ensures r == Reject(MultipleContentLength) <==> TwoLengths(headers)
    ensures r == Reject(LengthAndEncoding) <==>
            SomeLength(headers) && !TwoLengths(headers) && SomeEncoding(headers)
    ensures r == Reject(NoTerminalChunked) <==>
            !SomeLength(headers) && SomeEncoding(headers) && !LastEncodingIsChunked(headers)
  {
    VerdictExactly(headers);
    var lengths, hasEncoding, lastIsChunked := 0, false, false;
    for i := 0 to |headers|
      invariant lengths == ContentLengths(headers[..i])
      invariant hasEncoding <==> Encodings(headers[..i]) != []
      invariant lastIsChunked == LastIsChunked(Parts(Encodings(headers[..i])), false)
    {
      var h := headers[i];
      ghost var values := Encodings(headers[..i]);
      assert headers[..i + 1][..i] == headers[..i];
      assert Encodings(headers[..i + 1]) == (if IsTransferEncoding(h) then values + [h.value] else values);
      if IsContentLength(h) {
        lengths := lengths + 1;
      } else if EqIgnoreCase(h.name, TRANSFER_ENCODING) {
        hasEncoding := true;
        lastIsChunked := ScanValue(h.value, lastIsChunked);
        assert (values + [h.value])[..|values|] == values;
        LastIsChunkedConcat(Parts(values), Split(h.value, COMMA), false);
      }
    }
    assert headers[..|headers|] == headers;
    if Encodings(headers) != [] {
      PartsOfJoined(Encodings(headers));
    }
    if lengths > 1 {
      return Reject(MultipleContentLength);
    }
    if lengths == 1 && hasEncoding {
      return Reject(LengthAndEncoding);
    }
    if hasEncoding {
      if !lastIsChunked {
        return Reject(NoTerminalChunked);
      }
      return Accept(Chunked);
    }
    return Accept(ContentLength);
  }

  // ---------------------------------------------------------------------------
  // What does not change the verdict
  // ---------------------------------------------------------------------------

  lemma {:induction false} Concat(a: seq<Header>, b: seq<Header>)
    ensures ContentLengths(a + b) == ContentLengths(a) + ContentLengths(b)
    ensures Encodings(a + b) == Encodings(a) + Encodings(b)
    decreases |b|
  {
    if b == [] {
      assert a + b == a;
    } else {
      assert (a + b)[..|a + b| - 1] == a + b[..|b| - 1];
      Concat(a, b[..|b| - 1]);
    }
  }

  lemma One(h: Header)
    ensures ContentLengths([h]) == if IsContentLength(h) then 1 else 0
    ensures Encodings([h]) == if IsTransferEncoding(h) then [h.value] else []
  {
    assert [h][..0] == [];
  }

  /** Unrelated headers may be added anywhere. */
  lemma UnrelatedHeadersIgnored(a: seq<Header>, h: Header, b: seq<Header>)
    requires !IsContentLength(h) && !IsTransferEncoding(h)
    ensures Classify(a + [h] + b) == Classify(a + b)
  {
    Concat(a + [h], b);
    Concat(a, [h]);
    One(h);
    assert Encodings(a) + [] == Encodings(a);
    Concat(a, b);
  }

  /** A Content-Length header may stand anywhere. */
  lemma ContentLengthMoves(a: seq<Header>, h: Header, b: seq<Header>, c: seq<Header>)
    requires IsContentLength(h)
    ensures Classify(a + [h] + b + c) == Classify(a + b + [h] + c)
  {
    One(h);
    Concat(a, [h]);
    Concat(a + [h], b);
    Concat(a + [h] + b, c);
    Concat(a, b);
    Concat(a + b, [h]);
    Concat(a + b + [h], c);
  }

  lemma {:induction false} PartsConcat(a: seq<seq<byte>>, b: seq<seq<byte>>)
    ensures Parts(a + b) == Parts(a) + Parts(b)
    decreases |b|
  {
    if b == [] {
      assert a + b == a;
    } else {
      assert (a + b)[..|a + b| - 1] == a + b[..|b| - 1];
      PartsConcat(a, b[..|b| - 1]);
      Associativity(Parts(a), Parts(b[..|b| - 1]), Split(b[|b| - 1], COMMA));
    }
  }

  lemma PartsOfTwo(x: seq<byte>, y: seq<byte>)
    ensures Parts([x, y]) == Parts([x + [COMMA] + y])
  {
    SplitAtSeparator(x, y);
    assert [x, y][..1] == [x] && [x][..0] == [] && [x + [COMMA] + y][..0] == [];
  }

  /** Two Transfer-Encoding headers may be merged with a comma, whatever stands between them. */
  lemma EncodingsMerge(a: seq<Header>, x: Header, b: seq<Header>, y: Header, c: seq<Header>)
    requires IsTransferEncoding(x) && IsTransferEncoding(y) && Encodings(b) == []
    ensures Classify(a + [x] + b + [y] + c) ==
            Classify(a + [Header(x.name, x.value + [COMMA] + y.value)] + b + c)
  {
    var merged := Header(x.name, x.value + [COMMA] + y.value);
    var before, after := a + [x] + b + [y] + c, a + [merged] + b + c;
    Spread(a, x, b);
    Concat(a + [x] + b, [y]);
    Concat(a + [x] + b + [y], c);
    Spread(a, merged, b);
    Concat(a + [merged] + b, c);
    One(y);
    var ea, ec := Encodings(a), Encodings(c);
    assert Encodings(before) == ea + [x.value, y.value] + ec;
    assert Encodings(after) == ea + [merged.value] + ec;
    JoinedMerge(ea, x.value, y.value, ec);
  }

  lemma JoinedMerge(a: seq<seq<byte>>, x: seq<byte>, y: seq<byte>, c: seq<seq<byte>>)
    ensures Split(Joined(a + [x, y] + c), COMMA) == Split(Joined(a + [x + [COMMA] + y] + c), COMMA)
  {
    var merged := x + [COMMA] + y;
    PartsOfTwo(x, y);
    PartsConcat(a + [x, y], c);
    PartsConcat(a, [x, y]);
    PartsConcat(a + [merged], c);
    PartsConcat(a, [merged]);
    PartsOfJoined(a + [x, y] + c);
    PartsOfJoined(a + [merged] + c);
  }

  lemma Spread(a: seq<Header>, x: Header, b: seq<Header>)
    requires IsTransferEncoding(x) && Encodings(b) == []
    ensures Encodings(a + [x] + b) == Encodings(a) + [x.value]
    ensures ContentLengths(a + [x] + b) == ContentLengths(a) + ContentLengths(b)
  {
    One(x);
    Concat(a, [x]);
    Concat(a + [x], b);
  }
}
