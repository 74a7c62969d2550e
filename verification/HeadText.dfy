/**
  Message heads as text: a start line and header lines, each ended by CRLF, and
  a blank line. What the model's own readers find in such a text is what was
  printed: where the head ends, and which fields it has.
  */
module HeadText {
  import opened Bytes
  import opened Text
  import opened ResponseHead
  import opened ResponseFields

  predicate IsLine(line: seq<byte>) {
    line != [] && CR !in line && LF !in line
  }

  predicate AreLines(lines: seq<seq<byte>>) {
    forall i :: 0 <= i < |lines| ==> IsLine(lines[i])
  }

  /** A start line and header lines. */
  predicate IsHead(lines: seq<seq<byte>>) {
    lines != [] && LF !in lines[0] && AreLines(lines[1..])
  }

  /** The lines, each with its line end. */
  function Lines(lines: seq<seq<byte>>): seq<byte> {
    if lines == [] then [] else lines[0] + CRLF + Lines(lines[1..])
  }

  /** The lines with line ends between them only. */
  function Joined(lines: seq<seq<byte>>): seq<byte>
    requires lines != []
  {
    if |lines| == 1 then lines[0] else lines[0] + CRLF + Joined(lines[1..])
  }

  lemma {:induction false} LinesAreJoined(lines: seq<seq<byte>>)
    requires lines != []
    ensures Lines(lines) == Joined(lines) + CRLF
  {
    if |lines| == 1 {
      assert lines[1..] == [];
      assert lines[0] + CRLF + [] == lines[0] + CRLF;
    } else {
      LinesAreJoined(lines[1..]);
      Associativity(lines[0] + CRLF, Joined(lines[1..]), CRLF);
    }
  }

  lemma {:induction false} LinesConcat(a: seq<seq<byte>>, b: seq<seq<byte>>)
    ensures Lines(a + b) == Lines(a) + Lines(b)
  {
    if a == [] {
      assert a + b == b;
    } else {
      LinesConcat(a[1..], b);
      assert (a + b)[1..] == a[1..] + b;
      Associativity(a[0] + CRLF, Lines(a[1..]), Lines(b));
    }
  }

  // ---------------------------------------------------------------------------
  // Where the head ends
  // ---------------------------------------------------------------------------

  lemma NoEndHere(data: seq<byte>, q: nat, k: nat)
    requires k < 4 && q + k < |data| && data[q + k] != BLANK_LINE[k]
    ensures !EndsHeadAt(data, q)
  {
    if q + 4 <= |data| {
      assert data[q..q + 4][k] == data[q + k];
    }
  }

  lemma ShiftedEnd(a: seq<byte>, b: seq<byte>, i: nat)
    ensures EndsHeadAt(a + b, |a| + i) <==> EndsHeadAt(b, i)
  {
    if i + 4 <= |b| {
      assert (a + b)[|a| + i..|a| + i + 4] == b[i..i + 4];
    }
  }

  /** A line that a further line follows does not end the head. */
  lemma {:induction false} EndsBehindLine(line: seq<byte>, more: seq<byte>, q: nat)
    requires LF !in line && more != [] && more[0] != CR
    ensures EndsHeadAt(line + CRLF + more, q) <==> q >= |line| + 2 && EndsHeadAt(more, q - |line| - 2)
  {
    var data, n := line + CRLF + more, |line|;
    if q < n {
      assert data[q + 1] == if q + 1 < n then line[q + 1] else CR;
      NoEndHere(data, q, 1);
    } else if q == n {
      assert data[q + 2] == more[0];
      NoEndHere(data, q, 2);
    } else if q == n + 1 {
      assert data[q] == LF;
      NoEndHere(data, q, 0);
    } else {
      ShiftedEnd(line + CRLF, more, q - n - 2);
      assert |line + CRLF| + (q - n - 2) == q;
    }
  }

  lemma {:induction false} LinePassed(line: seq<byte>, more: seq<byte>)
    requires LF !in line && more != [] && more[0] != CR && HeaderEnd(more).Some?
    ensures HeaderEnd(line + CRLF + more) == Some(|line| + 2 + HeaderEnd(more).value)
  {
    var data, p := line + CRLF + more, HeaderEnd(more).value;
    EndsBehindLine(line, more, |line| + 2 + p);
    forall q | 0 <= q < |line| + 2 + p ensures !EndsHeadAt(data, q) {
      EndsBehindLine(line, more, q);
    }
    HeaderEndIs(data, |line| + 2 + p);
  }

  lemma {:induction false} LastLineEnds(line: seq<byte>, rest: seq<byte>)
    requires LF !in line
    ensures HeaderEnd(line + CRLF + CRLF + rest) == Some(|line|)
  {
    var data := line + CRLF + CRLF + rest;
    assert data[|line|..|line| + 4] == BLANK_LINE;
    forall q | 0 <= q < |line| ensures !EndsHeadAt(data, q) {
      assert data[q + 1] == if q + 1 < |line| then line[q + 1] else CR;
      NoEndHere(data, q, 1);
    }
    HeaderEndIs(data, |line|);
  }

  lemma {:induction false} FirstByte(lines: seq<seq<byte>>, rest: seq<byte>)
    requires lines != [] && AreLines(lines)
    ensures Lines(lines) != [] && (Lines(lines) + rest)[0] == lines[0][0] != CR
  {
    assert IsLine(lines[0]);
  }

  /** The head ends at the line end in front of the blank line, whatever follows. */
  lemma {:induction false} LinesEndHead(lines: seq<seq<byte>>, rest: seq<byte>)
    requires IsHead(lines)
    ensures |Lines(lines)| >= 2 && HeaderEnd(Lines(lines) + CRLF + rest) == Some(|Lines(lines)| - 2)
  {
    var line := lines[0];
    if |lines| == 1 {
      assert lines[1..] == [];
      assert Lines(lines) == line + CRLF + [] == line + CRLF;
      LastLineEnds(line, rest);
    } else {
      var others := Lines(lines[1..]);
      assert IsLine(lines[1..][0]);
      LinesEndHead(lines[1..], rest);
      FirstByte(lines[1..], CRLF + rest);
      Associativity(others, CRLF, rest);
      LinePassed(line, others + CRLF + rest);
      Associativity(line + CRLF, others, CRLF);
      Associativity(line + CRLF, others + CRLF, rest);
    }
  }

  // ---------------------------------------------------------------------------
  // Which fields it has
  // ---------------------------------------------------------------------------

  lemma {:induction false} FieldsConcat(a: seq<seq<byte>>, b: seq<seq<byte>>)
    ensures Fields(a + b) == Fields(a) + Fields(b)
    decreases |b|
  {
    if b == [] {
      assert a + b == a;
    } else {
      var init, last := b[..|b| - 1], b[|b| - 1];
      FieldsConcat(a, init);
      assert (a + b)[..|a + b| - 1] == a + init;
      if FieldOf(last).Some? {
        Associativity(Fields(a), Fields(init), [FieldOf(last).value]);
      }
    }
  }

  lemma FieldsOfOne(line: seq<byte>)
    ensures Fields([line]) == if FieldOf(line).Some? then [FieldOf(line).value] else []
  {
    assert [line][..0] == [];
  }

  /** The pieces between the line feeds of joined lines: all but the last keep their carriage return. */
  function WithCr(lines: seq<seq<byte>>): seq<seq<byte>>
    requires lines != []
  {
    if |lines| == 1 then [lines[0]] else [lines[0] + [CR]] + WithCr(lines[1..])
  }

  predicate Unbroken(lines: seq<seq<byte>>) {
    forall i :: 0 <= i < |lines| ==> CR !in lines[i] && LF !in lines[i]
  }

  lemma {:induction false} SplitJoined(lines: seq<seq<byte>>)
    requires lines != [] && Unbroken(lines)
    ensures Split(Joined(lines), LF) == WithCr(lines)
  {
    var s, line := Joined(lines), lines[0];
    if |lines| == 1 {
      IndexFromIs(s, 0, LF, |s|);
    } else {
      IndexFromIs(s, 0, LF, |line| + 1);
      assert s[..|line| + 1] == line + [CR] && s[|line| + 2..] == Joined(lines[1..]);
      SplitJoined(lines[1..]);
    }
  }

  lemma CrStripped(line: seq<byte>)
    requires CR !in line
    ensures FieldOf(line + [CR]) == FieldOf(line)
  {
    assert (line + [CR])[..|line|] == line;
  }

  lemma {:induction false} FieldsWithCr(lines: seq<seq<byte>>)
    requires lines != [] && Unbroken(lines)
    ensures Fields(WithCr(lines)) == Fields(lines)
  {
    if |lines| == 1 {
      assert WithCr(lines) == lines;
    } else {
      var line, rest := lines[0], lines[1..];
      FieldsWithCr(rest);
      FieldsConcat([line + [CR]], WithCr(rest));
      FieldsConcat([line], rest);
      assert lines == [line] + rest;
      FieldsOfOne(line);
      FieldsOfOne(line + [CR]);
      CrStripped(line);
    }
  }

  /** The fields of a head are those of its lines behind the start line. */
  lemma {:induction false} FieldsOfJoined(lines: seq<seq<byte>>)
    requires lines != [] && LF !in lines[0] && Unbroken(lines[1..])
    ensures Fields(FieldLines(Joined(lines))) == Fields(lines[1..])
  {
    var s, line := Joined(lines), lines[0];
    if |lines| == 1 {
      IndexFromIs(s, 0, LF, |s|);
      assert Split([], LF) == [[]];
      FieldsOfOne([]);
      assert lines[1..] == [];
    } else {
      IndexFromIs(s, 0, LF, |line| + 1);
      assert s[|line| + 2..] == Joined(lines[1..]);
      SplitJoined(lines[1..]);
      FieldsWithCr(lines[1..]);
    }
  }

  /** A printed head, cut where the search for its end cuts it. */
  lemma {:induction false} HeadCut(lines: seq<seq<byte>>, rest: seq<byte>)
    requires IsHead(lines)
    ensures var data, p := Lines(lines) + CRLF + rest, |Lines(lines)| - 2;
            p >= 0 && HeaderEnd(data) == Some(p) && data[..p] == Joined(lines) && data[p + 4..] == rest
  {
    LinesEndHead(lines, rest);
    LinesAreJoined(lines);
  }

  /** Reading a printed head: where it ends, the fields of its lines, and what follows. */
  lemma {:induction false} LinesRoundTrip(lines: seq<seq<byte>>, rest: seq<byte>)
    requires IsHead(lines)
    ensures var data := Lines(lines) + CRLF + rest;
            && HeaderEnd(data).Some?
            && var p := HeaderEnd(data).value;
               Fields(FieldLines(data[..p])) == Fields(lines[1..]) && data[p + 4..] == rest
  {
    HeadCut(lines, rest);
    FieldsOfJoined(lines);
  }

  // ---------------------------------------------------------------------------
  // Printed fields
  // ---------------------------------------------------------------------------

  predicate IsField(f: Field) {
    COLON !in f.name && CR !in f.name && LF !in f.name && CR !in f.value && LF !in f.value
  }

  function FieldLine(f: Field): seq<byte> {
    f.name + [COLON, SPACE] + f.value
  }

  function FieldTexts(fields: seq<Field>): (lines: seq<seq<byte>>)
    ensures |lines| == |fields| && forall i :: 0 <= i < |fields| ==> lines[i] == FieldLine(fields[i])
  {
    seq(|fields|, i requires 0 <= i < |fields| => FieldLine(fields[i]))
  }

  lemma FieldRoundTrip(f: Field)
    requires IsField(f)
    ensures IsLine(FieldLine(f)) && FieldOf(FieldLine(f)) == Some(f)
  {
    var line, n := FieldLine(f), |f.name|;
    assert line[n] == COLON && line[n + 1] == SPACE;
    assert forall k :: 0 <= k < n ==> line[k] == f.name[k];
    assert forall k :: n + 2 <= k < |line| ==> line[k] == f.value[k - n - 2];
    IndexFromIs(line, 0, COLON, n);
    assert line[..n] == f.name && line[n + 1..] == [SPACE] + f.value;
    assert ([SPACE] + f.value)[1..] == f.value;
  }

  /** `Fields` for any reader of lines. */
  function FieldsBy(reader: seq<byte> -> Option<Field>, lines: seq<seq<byte>>): seq<Field> {
    if lines == [] then []
    else
      var init, last := lines[..|lines| - 1], lines[|lines| - 1];
      match reader(last)
      case None => FieldsBy(reader, init)
      case Some(f) => FieldsBy(reader, init) + [f]
  }

  lemma {:induction false} FieldsByFieldOf(lines: seq<seq<byte>>)
    ensures Fields(lines) == FieldsBy(FieldOf, lines)
    decreases |lines|
  {
    if lines != [] {
      FieldsByFieldOf(lines[..|lines| - 1]);
    }
  }

  lemma {:induction false} FieldsByAre(reader: seq<byte> -> Option<Field>, lines: seq<seq<byte>>, fields: seq<Field>)
    requires |lines| == |fields| && forall i :: 0 <= i < |lines| ==> reader(lines[i]) == Some(fields[i])
    ensures FieldsBy(reader, lines) == fields
    decreases |lines|
  {
    if lines != [] {
      var n := |lines| - 1;
      FieldsByAre(reader, lines[..n], fields[..n]);
      assert fields == fields[..n] + [fields[n]];
    }
  }

  lemma {:induction false} TextsAreLines(fields: seq<Field>)
    requires forall i :: 0 <= i < |fields| ==> IsField(fields[i])
    ensures AreLines(FieldTexts(fields))
  {
    forall i | 0 <= i < |fields| ensures IsLine(FieldTexts(fields)[i]) {
      FieldRoundTrip(fields[i]);
    }
  }

  lemma {:induction false} FieldsRoundTrip(fields: seq<Field>)
    requires forall i :: 0 <= i < |fields| ==> IsField(fields[i])
    ensures Fields(FieldTexts(fields)) == fields
  {
    var lines := FieldTexts(fields);
    forall i | 0 <= i < |fields| ensures FieldOf(lines[i]) == Some(fields[i]) {
      FieldRoundTrip(fields[i]);
    }
    FieldsByAre(FieldOf, lines, fields);
    FieldsByFieldOf(lines);
  }

  /** The same of a start line and printed fields. */
  lemma {:induction false} PrintedHeadCut(start: seq<byte>, fields: seq<Field>, rest: seq<byte>)
    requires LF !in start && forall i :: 0 <= i < |fields| ==> IsField(fields[i])
    ensures var text := start + CRLF + Lines(FieldTexts(fields));
            var data, p := text + CRLF + rest, |text| - 2;
            && p >= 0 && HeaderEnd(data) == Some(p)
            && data[..p] == Joined([start] + FieldTexts(fields)) && data[p + 4..] == rest
  {
    var lines := [start] + FieldTexts(fields);
    TextsAreLines(fields);
    assert lines[1..] == FieldTexts(fields);
    HeadCut(lines, rest);
  }

  /**
    The printer and the parser: in a start line, any fields and a blank line, the
    head is found to end at the blank line and to have exactly these fields.
    */
  lemma {:induction false} HeadRoundTrip(start: seq<byte>, fields: seq<Field>, rest: seq<byte>)
    requires LF !in start && forall i :: 0 <= i < |fields| ==> IsField(fields[i])
    ensures var data := start + CRLF + Lines(FieldTexts(fields)) + CRLF + rest;
            && HeaderEnd(data).Some?
            && var p := HeaderEnd(data).value;
               && Fields(FieldLines(data[..p])) == fields && ParsedHead(data[..p]) == Summary(fields)
               && data[p + 4..] == rest
  {
    var lines := [start] + FieldTexts(fields);
    TextsAreLines(fields);
    FieldsRoundTrip(fields);
    assert lines[1..] == FieldTexts(fields);
    LinesRoundTrip(lines, rest);
  }

  lemma {:induction false} JoinedWithEmpty(lines: seq<seq<byte>>)
    requires lines != []
    ensures Joined(lines + [[]]) == Lines(lines)
  {
    if |lines| == 1 {
      assert (lines + [[]])[1..] == [[]] && lines[1..] == [];
    } else {
      JoinedWithEmpty(lines[1..]);
      assert (lines + [[]])[1..] == lines[1..] + [[]];
    }
  }

  /** The line end behind the last field makes no difference to the parser. */
  lemma {:induction false} ParserRoundTrip(start: seq<byte>, fields: seq<Field>)
    requires LF !in start && forall i :: 0 <= i < |fields| ==> IsField(fields[i])
    ensures var head := start + CRLF + Lines(FieldTexts(fields));
            Fields(FieldLines(head)) == fields && ParsedHead(head) == Summary(fields)
  {
    var texts := FieldTexts(fields);
    var lines := [start] + texts;
    TextsAreLines(fields);
    FieldsRoundTrip(fields);
    JoinedWithEmpty(lines);
    assert lines[1..] == texts && (lines + [[]])[1..] == texts + [[]];
    FieldsOfJoined(lines + [[]]);
    FieldsConcat(texts, [[]]);
    FieldsOfOne([]);
    assert fields + [] == fields;
  }
}
