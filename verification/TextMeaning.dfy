/**
  The text functions in terms of Unicode: which bytes are UTF-8, what trimming
  takes off, and which texts are numbers.
  */
module TextMeaning {
  import opened Bytes
  import opened Text

  // ---------------------------------------------------------------------------
  // UTF-8
  // ---------------------------------------------------------------------------

  /** The Unicode scalar values. */
  predicate IsScalar(c: nat) {
    c < 0xD800 || 0xE000 <= c < 0x11_0000
  }

  /** The table of section 3 of RFC 3629. */
  function Utf8(c: nat): seq<byte>
    requires IsScalar(c)
  {
    if c < 0x80 then [c]
    else if c < 0x800 then [0xC0 + c / 64, 0x80 + c % 64]
    else if c < 0x1_0000 then [0xE0 + c / 4096, 0x80 + c / 64 % 64, 0x80 + c % 64]
    else [0xF0 + c / 0x4_0000, 0x80 + c / 4096 % 64, 0x80 + c / 64 % 64, 0x80 + c % 64]
  }

  function Encoded(text: seq<nat>): seq<byte>
    requires forall c :: c in text ==> IsScalar(c)
  {
    if text == [] then [] else Utf8(text[0]) + Encoded(text[1..])
  }

  lemma CharOf(c: nat, rest: seq<byte>)
    requires IsScalar(c)
    ensures CharLength(Utf8(c) + rest) == |Utf8(c)|
  {
  }

  /** Whatever is encoded is valid. */
  lemma {:induction false} EncodedIsUtf8(text: seq<nat>)
    requires forall c :: c in text ==> IsScalar(c)
    ensures IsUtf8(Encoded(text))
  {
    if text != [] {
      var s, rest := Encoded(text), Encoded(text[1..]);
      assert text[0] in text;
      CharOf(text[0], rest);
      assert s[|Utf8(text[0])|..] == rest;
      EncodedIsUtf8(text[1..]);
    }
  }

  lemma SixBits(high: nat, low: nat)
    requires low < 64
    ensures (high * 64 + low) / 64 == high && (high * 64 + low) % 64 == low
  {
  }

  lemma TwelveBits(high: nat, low: nat)
    requires low < 4096
    ensures (high * 4096 + low) / 4096 == high
  {
  }

  lemma EighteenBits(high: nat, low: nat)
    requires low < 0x4_0000
    ensures (high * 0x4_0000 + low) / 0x4_0000 == high
  {
  }

  lemma TwoBytes(a: nat, b: nat) returns (c: nat)
    requires 2 <= a < 32 && b < 64
    ensures IsScalar(c) && Utf8(c) == [0xC0 + a, 0x80 + b]
  {
    c := a * 64 + b;
    SixBits(a, b);
  }

  lemma ThreeBytes(a: nat, b: nat, x: nat) returns (c: nat)
    requires a < 16 && b < 64 && x < 64 && (a == 0 ==> b >= 32) && (a == 13 ==> b < 32)
    ensures IsScalar(c) && Utf8(c) == [0xE0 + a, 0x80 + b, 0x80 + x]
  {
    c := a * 4096 + b * 64 + x;
    SixBits(a * 64 + b, x);
    SixBits(a, b);
    TwelveBits(a, b * 64 + x);
    assert c == (a * 64 + b) * 64 + x;
  }

  lemma FourBytes(a: nat, b: nat, x: nat, y: nat) returns (c: nat)
    requires a <= 4 && b < 64 && x < 64 && y < 64 && (a == 0 ==> b >= 16) && (a == 4 ==> b < 16)
    ensures IsScalar(c) && Utf8(c) == [0xF0 + a, 0x80 + b, 0x80 + x, 0x80 + y]
  {
    c := a * 0x4_0000 + b * 4096 + x * 64 + y;
    SixBits(a * 4096 + b * 64 + x, y);
    SixBits(a * 64 + b, x);
    SixBits(a, b);
    TwelveBits(a * 64 + b, x * 64 + y);
    EighteenBits(a, b * 4096 + x * 64 + y);
    assert c == (a * 4096 + b * 64 + x) * 64 + y == (a * 64 + b) * 4096 + (x * 64 + y);
    assert a * 4096 + b * 64 + x == (a * 64 + b) * 64 + x;
  }

  lemma FirstChar(s: seq<byte>) returns (c: nat)
    requires CharLength(s) > 0
    ensures IsScalar(c) && Utf8(c) == s[..CharLength(s)]
  {
    var n := CharLength(s);
    if n == 1 {
      c := s[0];
    } else if n == 2 {
      c := TwoBytes(s[0] - 0xC0, s[1] - 0x80);
    } else if n == 3 {
      c := ThreeBytes(s[0] - 0xE0, s[1] - 0x80, s[2] - 0x80);
    } else {
      c := FourBytes(s[0] - 0xF0, s[1] - 0x80, s[2] - 0x80, s[3] - 0x80);
    }
  }

  /** Whatever is valid is the encoding of a text. */
  lemma {:induction false} Utf8IsEncoded(s: seq<byte>) returns (text: seq<nat>)
    requires IsUtf8(s)
    ensures (forall c :: c in text ==> IsScalar(c)) && Encoded(text) == s
  {
    text := [];
    if s != [] {
      var n := CharLength(s);
      var c := FirstChar(s);
      var rest := Utf8IsEncoded(s[n..]);
      text := [c] + rest;
      assert text[1..] == rest;
      assert s == s[..n] + s[n..];
    }
  }

  // ---------------------------------------------------------------------------
  // Trimming
  // ---------------------------------------------------------------------------

  /** The characters of the Unicode property White_Space. */
  predicate IsWhiteSpace(c: nat) {
    || 9 <= c <= 13 || c == 0x20 || c == 0x85 || c == 0xA0 || c == 0x1680 || 0x2000 <= c <= 0x200A
    || c == 0x2028 || c == 0x2029 || c == 0x202F || c == 0x205F || c == 0x3000
  }

  lemma WhiteSpaceInFront(c: nat, rest: seq<byte>)
    requires IsScalar(c)
    ensures WhitespaceLength(Utf8(c) + rest) == if IsWhiteSpace(c) then |Utf8(c)| else 0
  {
  }

  lemma {:induction false} WhiteSpaceBehind(s: seq<byte>, c: nat)
    requires IsScalar(c)
    ensures WhitespaceTail(s + Utf8(c)) == if IsWhiteSpace(c) then |Utf8(c)| else 0
  {
    var u := Utf8(c);
    var all, n := s + u, |u|;
    assert all[|all| - n..] == u == u + [];
    WhiteSpaceInFront(c, []);
    assert all[|all| - 1..] == [u[n - 1]];
    if |all| >= 2 {
      var two := all[|all| - 2..];
      assert two[1] == u[n - 1] && (n >= 2 ==> two[0] == u[n - 2]);
    }
    if |all| >= 3 {
      var three := all[|all| - 3..];
      assert three[2] == u[n - 1] && (n >= 2 ==> three[1] == u[n - 2]) && (n >= 3 ==> three[0] == u[n - 3]);
    }
  }

  predicate AllWhiteSpace(text: seq<nat>) {
    forall i :: 0 <= i < |text| ==> IsWhiteSpace(text[i])
  }

  predicate AllScalar(text: seq<nat>) {
    forall c :: c in text ==> IsScalar(c)
  }

  lemma {:induction false} FrontTrimmed(a: seq<nat>, text: seq<nat>)
    requires AllScalar(a) && AllScalar(text) && AllWhiteSpace(a)
    requires text == [] || !IsWhiteSpace(text[0])
    ensures AllScalar(a + text) && TrimStart(Encoded(a + text)) == Encoded(text)
    decreases |a|
  {
    if a == [] {
      assert a + text == text;
      if text != [] {
        WhiteSpaceInFront(text[0], Encoded(text[1..]));
      }
    } else {
      assert (a + text)[1..] == a[1..] + text;
      FrontTrimmed(a[1..], text);
      var rest := Encoded(a[1..] + text);
      WhiteSpaceInFront(a[0], rest);
      assert (Utf8(a[0]) + rest)[|Utf8(a[0])|..] == rest;
    }
  }

  lemma {:induction false} EncodedSnoc(text: seq<nat>, c: nat)
    requires AllScalar(text) && IsScalar(c)
    ensures AllScalar(text + [c]) && Encoded(text + [c]) == Encoded(text) + Utf8(c)
  {
    if text == [] {
      assert [c][1..] == [];
      assert [] + [c] == [c] && Utf8(c) + [] == Utf8(c) && [] + Utf8(c) == Utf8(c);
    } else {
      assert (text + [c])[1..] == text[1..] + [c];
      EncodedSnoc(text[1..], c);
      Associativity(Utf8(text[0]), Encoded(text[1..]), Utf8(c));
    }
  }

  lemma {:induction false} BackTrimmed(text: seq<nat>, b: seq<nat>)
    requires AllScalar(text) && AllScalar(b) && AllWhiteSpace(b)
    requires text == [] || !IsWhiteSpace(text[|text| - 1])
    ensures AllScalar(text + b) && TrimEnd(Encoded(text + b)) == Encoded(text)
    decreases |b|
  {
    if b == [] {
      assert text + b == text;
      if text != [] {
        var init, last := text[..|text| - 1], text[|text| - 1];
        assert text == init + [last];
        EncodedSnoc(init, last);
        WhiteSpaceBehind(Encoded(init), last);
      }
    } else {
      var init, last := b[..|b| - 1], b[|b| - 1];
      assert text + b == text + init + [last];
      BackTrimmed(text, init);
      EncodedSnoc(text + init, last);
      WhiteSpaceBehind(Encoded(text + init), last);
      var s := Encoded(text + init);
      assert (s + Utf8(last))[..|s|] == s;
    }
  }

  /** Trimming takes the White_Space off both ends of a text, and nothing else. */
  lemma {:induction false} Trimmed(a: seq<nat>, text: seq<nat>, b: seq<nat>)
    requires AllScalar(a) && AllScalar(text) && AllScalar(b) && AllWhiteSpace(a) && AllWhiteSpace(b)
    requires text != [] ==> !IsWhiteSpace(text[0]) && !IsWhiteSpace(text[|text| - 1])
    ensures AllScalar(a + text + b) && Trim(Encoded(a + text + b)) == Encoded(text)
  {
    Associativity(a, text, b);
    if text == [] {
      assert a + (text + b) == (a + b) + [];
      FrontTrimmed(a + b, []);
      BackTrimmed([], []);
    } else {
      FrontTrimmed(a, text + b);
      BackTrimmed(text, b);
    }
  }

  // ---------------------------------------------------------------------------
  // Numbers
  // ---------------------------------------------------------------------------

  /** One plus sign in front is accepted, and nothing else that is not a digit. */
  lemma PlusSign(digits: seq<byte>, radix: nat, max: nat)
    requires 2 <= radix <= 36 && digits != [] && digits[0] != 43
    ensures ParseUnsigned([43] + digits, radix, max) == ParseUnsigned(digits, radix, max)
  {
    assert ([43] + digits)[1..] == digits;
  }

  lemma {:induction false} NoNumber(s: seq<byte>, i: nat, radix: nat, max: nat)
    requires 2 <= radix <= 36 && i < |s| && DigitValue(s[i], radix) == None
    ensures DigitsValue(s, radix, max) == None
    decreases |s|
  {
    if i < |s| - 1 {
      NoNumber(s[..|s| - 1], i, radix, max);
    }
  }

  /** A byte that is not a digit, other than a plus sign in front, makes a text no number. */
  lemma {:induction false} NotANumber(s: seq<byte>, i: nat, radix: nat, max: nat)
    requires 2 <= radix <= 36 && i < |s| && DigitValue(s[i], radix) == None
    requires i == 0 ==> s[0] != 43 || |s| == 1
    ensures ParseUnsigned(s, radix, max) == None
  {
    if s[0] == 43 {
      if i > 0 {
        NoNumber(s[1..], i - 1, radix, max);
      }
    } else {
      NoNumber(s, i, radix, max);
    }
  }
}
