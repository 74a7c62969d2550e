/**
  The Rust standard-library text operations that the parsers lean on, on bytes:
  UTF-8 validation (`str::from_utf8`), `str::trim`, and `from_str_radix` for
  unsigned integers.
  */
module Text {
  import opened Bytes

  predicate IsContinuation(b: byte) {
    0x80 <= b <= 0xBF
  }

  /** The length of the well-formed UTF-8 character at the start of s; 0 if there is none. */
  function CharLength(s: seq<byte>): (n: nat)
    ensures n <= |s| && n <= 4
  {
    if s == [] then 0
    else if s[0] < 0x80 then 1
    else if |s| >= 2 && 0xC2 <= s[0] <= 0xDF && IsContinuation(s[1]) then 2
    else if |s| >= 3 && IsContinuation(s[2]) &&
            ((s[0] == 0xE0 && 0xA0 <= s[1] <= 0xBF) ||
             ((0xE1 <= s[0] <= 0xEC || 0xEE <= s[0] <= 0xEF) && IsContinuation(s[1])) ||
             (s[0] == 0xED && 0x80 <= s[1] <= 0x9F)) then 3
    else if |s| >= 4 && IsContinuation(s[2]) && IsContinuation(s[3]) &&
            ((s[0] == 0xF0 && 0x90 <= s[1] <= 0xBF) ||
             (0xF1 <= s[0] <= 0xF3 && IsContinuation(s[1])) ||
             (s[0] == 0xF4 && 0x80 <= s[1] <= 0x8F)) then 4
    else 0
  }

  predicate IsUtf8(s: seq<byte>) {
    s == [] || (CharLength(s) > 0 && IsUtf8(s[CharLength(s)..]))
  }

  /** The length of the encoded Unicode White_Space character at the start of s; 0 if there is none. */
  function WhitespaceLength(s: seq<byte>): (n: nat)
    ensures n <= |s| && n <= 3
  {
    if s == [] then 0
    else if 9 <= s[0] <= 13 || s[0] == SPACE then 1
    else if |s| >= 2 && s[0] == 0xC2 && (s[1] == 0x85 || s[1] == 0xA0) then 2
    else if |s| >= 3 &&
            ((s[0] == 0xE1 && s[1] == 0x9A && s[2] == 0x80) ||
             (s[0] == 0xE2 && s[1] == 0x80 && (0x80 <= s[2] <= 0x8A || s[2] == 0xA8 || s[2] == 0xA9 || s[2] == 0xAF)) ||
             (s[0] == 0xE2 && s[1] == 0x81 && s[2] == 0x9F) ||
             (s[0] == 0xE3 && s[1] == 0x80 && s[2] == 0x80)) then 3
    else 0
  }

  /** The length of the White_Space character at the end of s; 0 if there is none. */
  function WhitespaceTail(s: seq<byte>): (n: nat)
    ensures n <= |s| && (n > 0 ==> WhitespaceLength(s[|s| - n..]) == n)
  {
    if |s| >= 1 && WhitespaceLength(s[|s| - 1..]) == 1 then 1
    else if |s| >= 2 && WhitespaceLength(s[|s| - 2..]) == 2 then 2
    else if |s| >= 3 && WhitespaceLength(s[|s| - 3..]) == 3 then 3
    else 0
  }

  function TrimStart(s: seq<byte>): seq<byte> {
    if WhitespaceLength(s) == 0 then s else TrimStart(s[WhitespaceLength(s)..])
  }

  function TrimEnd(s: seq<byte>): seq<byte> {
    if WhitespaceTail(s) == 0 then s else TrimEnd(s[..|s| - WhitespaceTail(s)])
  }

  /** `str::trim` of valid UTF-8. */
  function Trim(s: seq<byte>): seq<byte> {
    TrimEnd(TrimStart(s))
  }

  /** `char::to_digit`. */
  function DigitValue(b: byte, radix: nat): (v: Option<int>)
    requires 2 <= radix <= 36
    ensures v.Some? ==> 0 <= v.value < radix
  {
    var d := if 48 <= b <= 57 then b - 48
             else if 97 <= b <= 122 then b - 97 + 10
             else if 65 <= b <= 90 then b - 65 + 10
             else 36;
    if d < radix then Some(d) else None
  }

  function AppendDigit(high: nat, radix: nat, d: nat, max: nat): (v: Option<nat>)
    ensures v.Some? ==> v.value <= max
  {
    if high * radix + d <= max then Some(high * radix + d) else None
  }

  /** The digits of s as a number of at most `max`, with the checked arithmetic of the standard library. */
  function DigitsValue(s: seq<byte>, radix: nat, max: nat): (v: Option<nat>)
    requires 2 <= radix <= 36
    ensures v.Some? ==> v.value <= max
  {
    if s == [] then Some(0)
    else
      match DigitsValue(s[..|s| - 1], radix, max)
      case None => None
      case Some(high) =>
        match DigitValue(s[|s| - 1], radix)
        case None => None
        case Some(d) => AppendDigit(high, radix, d, max)
  }

  /** `from_str_radix` for an unsigned type: a leading plus sign is allowed, an empty numeral is not. */
  function ParseUnsigned(s: seq<byte>, radix: nat, max: nat): (v: Option<nat>)
    requires 2 <= radix <= 36
    ensures v.Some? ==> v.value <= max
  {
    var digits := if s != [] && s[0] == 43 then s[1..] else s;
    if digits == [] then None else DigitsValue(digits, radix, max)
  }

  /** The position of the first `b` in s, at or after `from`; |s| if there is none. */
  function IndexFrom(s: seq<byte>, from: nat, b: byte): (i: nat)
    requires from <= |s|
    ensures from <= i <= |s|
    ensures i < |s| ==> s[i] == b
    ensures forall k :: from <= k < i ==> s[k] != b
    decreases |s| - from
  {
    if from == |s| || s[from] == b then from else IndexFrom(s, from + 1, b)
  }

  /** `slice::split`: the pieces between separators, at least one. */
  function Split(s: seq<byte>, separator: byte): (pieces: seq<seq<byte>>)
    ensures pieces != []
  {
    var i := IndexFrom(s, 0, separator);
    if i == |s| then [s] else [s[..i]] + Split(s[i + 1..], separator)
  }

  // ---------------------------------------------------------------------------
  // Facts the parsers need
  // ---------------------------------------------------------------------------

  predicate AllAscii(s: seq<byte>) {
    forall i :: 0 <= i < |s| ==> s[i] < 0x80
  }

  lemma {:induction false} AsciiPrefixUtf8(a: seq<byte>, s: seq<byte>)
    requires AllAscii(a)
    ensures IsUtf8(a + s) == IsUtf8(s)
  {
    if a == [] {
      assert a + s == s;
    } else {
      AsciiPrefixUtf8(a[1..], s);
      assert (a + s)[1..] == a[1..] + s;
    }
  }

  /** Bytes that occur in no White_Space encoding: printable ASCII. */
  predicate IsGraphic(b: byte) {
    33 <= b <= 126
  }

  lemma GraphicInNoWhitespace(s: seq<byte>, i: nat)
    requires i < |s| && IsGraphic(s[i])
    ensures WhitespaceLength(s) <= i
  {
  }

  lemma {:induction false} GraphicNotInTail(a: seq<byte>, x: byte, b: seq<byte>)
    requires IsGraphic(x)
    ensures WhitespaceTail(a + [x] + b) <= |b|
  {
    var s := a + [x] + b;
    var n := WhitespaceTail(s);
    if n > |b| {
      var tail := s[|s| - n..];
      assert tail[n - 1 - |b|] == x;
      GraphicInNoWhitespace(tail, n - 1 - |b|);
    }
  }

  /** Trimming the end never reaches past a graphic byte. */
  lemma {:induction false} TrimEndStops(a: seq<byte>, x: byte, b: seq<byte>)
    requires IsGraphic(x)
    ensures a + [x] <= TrimEnd(a + [x] + b) <= a + [x] + b
    decreases |b|
  {
    var s := a + [x] + b;
    var n := WhitespaceTail(s);
    GraphicNotInTail(a, x, b);
    if n > 0 {
      assert s[..|s| - n] == a + [x] + b[..|b| - n];
      TrimEndStops(a, x, b[..|b| - n]);
    }
  }

  lemma GraphicStartKept(s: seq<byte>)
    requires s != [] && IsGraphic(s[0])
    ensures TrimStart(s) == s
  {
  }

  /** What `trim` leaves of a text that starts with the graphic bytes a: they all stay in front. */
  lemma {:induction false} TrimKeepsGraphicPrefix(a: seq<byte>, b: seq<byte>)
    requires a != [] && forall i :: 0 <= i < |a| ==> IsGraphic(a[i])
    ensures a <= Trim(a + b) <= a + b
  {
    GraphicStartKept(a + b);
    var init, last := a[..|a| - 1], a[|a| - 1];
    TrimEndStops(init, last, b);
    assert init + [last] == a;
  }

  lemma IndexFromIs(s: seq<byte>, from: nat, b: byte, i: nat)
    requires from <= i <= |s| && (i < |s| ==> s[i] == b)
    requires forall k :: from <= k < i ==> s[k] != b
    ensures IndexFrom(s, from, b) == i
  {
  }

  // ---------------------------------------------------------------------------
  // Numerals
  // ---------------------------------------------------------------------------

  /** The decimal numeral of n, without leading zeros. */
  function Decimal(n: nat): (s: seq<byte>)
    ensures s != [] && forall i :: 0 <= i < |s| ==> 48 <= s[i] <= 57
  {
    if n < 10 then [48 + n] else Decimal(n / 10) + [48 + n % 10]
  }

  lemma {:induction false} DecimalValue(n: nat, max: nat)
    ensures DigitsValue(Decimal(n), 10, max) == if n <= max then Some(n) else None
    decreases n
  {
    var s := Decimal(n);
    if n < 10 {
      assert s[..0] == [];
    } else {
      DecimalValue(n / 10, max);
      assert s[..|s| - 1] == Decimal(n / 10);
    }
  }

  /** A decimal numeral is read as its number, and not at all if that does not fit. */
  lemma {:induction false} DecimalParses(n: nat, max: nat)
    ensures IsUtf8(Decimal(n)) && Trim(Decimal(n)) == Decimal(n)
    ensures ParseUnsigned(Decimal(n), 10, max) == if n <= max then Some(n) else None
  {
    var s := Decimal(n);
    DecimalValue(n, max);
    TrimKeepsGraphicPrefix(s, []);
    AsciiPrefixUtf8(s, []);
    assert s + [] == s;
  }
}
