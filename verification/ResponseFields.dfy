/**
  The header fields of the backend's response and the body framing they
  announce (`parse_response_headers` of src/http3_stream.rs).
  */
module ResponseFields {
  import opened Bytes
  import opened Text
  import opened HeaderNames

  const COLON: byte := 58

  datatype Field = Field(name: seq<byte>, value: seq<byte>)

  datatype Framing = Length(total: nat) | Chunked | UntilEof

  datatype Parsed = Parsed(
    headers: seq<Field>,
    isChunked: bool,
    contentLength: Option<nat>,
    contentType: Option<seq<byte>>,
    contentEncoding: Option<seq<byte>>)
  {
    function Framing(): Framing {
      if isChunked then Chunked
      else match contentLength
        case Some(n) => Length(n)
        case None => UntilEof
    }
  }

  predicate EndsWith(s: seq<byte>, suffix: seq<byte>) {
    |suffix| <= |s| && s[|s| - |suffix|..] == suffix
  }

  /** The lines after the status line. */
  function FieldLines(head: seq<byte>): seq<seq<byte>> {
    var i := IndexFrom(head, 0, LF);
    Split(if i == |head| then [] else head[i + 1..], LF)
  }

  /** One line as a field; a line without a colon is skipped. */
  function FieldOf(line: seq<byte>): Option<Field> {
    var l := if line != [] && line[|line| - 1] == CR then line[..|line| - 1] else line;
    var colon := IndexFrom(l, 0, COLON);
    if colon == |l| then None
    else
      var rest := l[colon + 1..];
      Some(Field(l[..colon], if rest != [] && rest[0] == SPACE then rest[1..] else rest))
  }

  function Fields(lines: seq<seq<byte>>): seq<Field> {
    if lines == [] then []
    else
      var init, last := lines[..|lines| - 1], lines[|lines| - 1];
      match FieldOf(last)
      case None => Fields(init)
      case Some(f) => Fields(init) + [f]
  }

  predicate Named(f: Field, name: seq<byte>) {
    EqIgnoreCase(f.name, name)
  }

  predicate AnnouncesChunked(f: Field) {
    Named(f, TRANSFER_ENCODING) && EndsWith(Lowercase(f.value), CHUNKED)
  }

  predicate HopByHop(f: Field) {
    Named(f, TRANSFER_ENCODING) || Named(f, CONNECTION) || Named(f, KEEP_ALIVE)
  }

  function Forwarded(fields: seq<Field>): seq<Field> {
    if fields == [] then []
    else
      var init, last := fields[..|fields| - 1], fields[|fields| - 1];
      Forwarded(init) + if HopByHop(last) then [] else [last]
  }

  /** A Content-Length field sets the length, to nothing if it is not a number, unless it is not UTF-8. */
  predicate SetsLength(f: Field) {
    Named(f, CONTENT_LENGTH) && IsUtf8(f.value)
  }

  function LastLength(fields: seq<Field>): Option<nat> {
    if fields == [] then None
    else
      var init, last := fields[..|fields| - 1], fields[|fields| - 1];
      if SetsLength(last) then ParseUnsigned(Trim(last.value), 10, U64_MAX) else LastLength(init)
  }

  /** The value of the last field of this name. */
  function LastValue(fields: seq<Field>, name: seq<byte>): Option<seq<byte>> {
    if fields == [] then None
    else
      var init, last := fields[..|fields| - 1], fields[|fields| - 1];
      if Named(last, name) then Some(last.value) else LastValue(init, name)
  }

  /** What the fields say: what is forwarded, whether the body is chunked, its length, type and encoding. */
  ghost function Summary(fields: seq<Field>): Parsed {
    Parsed(Forwarded(fields), exists f :: f in fields && AnnouncesChunked(f), LastLength(fields),
           LastValue(fields, CONTENT_TYPE), LastValue(fields, CONTENT_ENCODING))
  }

  ghost function ParsedHead(head: seq<byte>): Parsed {
    Summary(Fields(FieldLines(head)))
  }

  lemma {:induction false} SummaryStep(fields: seq<Field>, f: Field)
    ensures var p := Summary(fields);
            Summary(fields + [f]) ==
            Parsed(p.headers + (if HopByHop(f) then [] else [f]),
                   p.isChunked || AnnouncesChunked(f),
                   if SetsLength(f) then ParseUnsigned(Trim(f.value), 10, U64_MAX) else p.contentLength,
                   if Named(f, CONTENT_TYPE) then Some(f.value) else p.contentType,
                   if Named(f, CONTENT_ENCODING) then Some(f.value) else p.contentEncoding)
  {
    assert (fields + [f])[..|fields|] == fields;
    assert f in fields + [f] && forall g :: g in fields ==> g in fields + [f];
  }

  /** One more field. */
  method Absorb(p: Parsed, f: Field, ghost fields: seq<Field>) returns (r: Parsed)
    requires p == Summary(fields)
    ensures r == Summary(fields + [f])
  {
    NamesDiffer(f);
    SummaryStep(fields, f);
    if Named(f, TRANSFER_ENCODING) {
      if EqIgnoreCase(f.value, CHUNKED) || EndsWith(Lowercase(f.value), CHUNKED) {
        r := p.(isChunked := true);
      } else {
        r := p;
      }
      assert p.headers + [] == p.headers;
      return;
    }
    if Named(f, CONNECTION) || Named(f, KEEP_ALIVE) {
      assert p.headers + [] == p.headers;
      return p;
    }
    r := p.(headers := p.headers + [f]);
    if Named(f, CONTENT_LENGTH) {
      if IsUtf8(f.value) {
        r := r.(contentLength := ParseUnsigned(Trim(f.value), 10, U64_MAX));
      }
    }
    if Named(f, CONTENT_TYPE) {
      r := r.(contentType := Some(f.value));
    }
    if Named(f, CONTENT_ENCODING) {
      r := r.(contentEncoding := Some(f.value));
    }
  }

  lemma {:induction false} FieldsNext(lines: seq<seq<byte>>, i: nat)
    requires i < |lines|
    ensures var field := FieldOf(lines[i]);
            Fields(lines[..i + 1]) ==
            if field.Some? then Fields(lines[..i]) + [field.value] else Fields(lines[..i])
  {
    assert lines[..i + 1][..i] == lines[..i];
  }

  method ParseResponseHeaders(head: seq<byte>) returns (p: Parsed)
    ensures p == ParsedHead(head)
  {
    p := Parsed([], false, None, None, None);
    var lines := FieldLines(head);
    for i := 0 to |lines|
      invariant p == Summary(Fields(lines[..i]))
    {
      var field := FieldOf(lines[i]);
      ghost var before := Fields(lines[..i]);
      FieldsNext(lines, i);
      if field.Some? {
        p := Absorb(p, field.value, before);
      }
    }
    assert lines[..|lines|] == lines;
  }

  lemma NamesDiffer(f: Field)
    ensures Named(f, CONTENT_LENGTH) || Named(f, CONTENT_TYPE) || Named(f, CONTENT_ENCODING) ==> !HopByHop(f)
    ensures EqIgnoreCase(f.value, CHUNKED) ==> EndsWith(Lowercase(f.value), CHUNKED)
  {
    assert |CONTENT_TYPE| == 12 && |CONTENT_ENCODING| == 16;
    assert |CONTENT_LENGTH| == 14 && |TRANSFER_ENCODING| == 17 && |CONNECTION| == 10 && |KEEP_ALIVE| == 10;
    if EqIgnoreCase(f.value, CHUNKED) {
      assert Lowercase(CHUNKED) == CHUNKED;
    }
  }
}
