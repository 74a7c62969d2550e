/**
  Bytes, machine integers and the few sequence operations that every other
  module of the model uses.
  */
module Bytes {

  datatype Option<+T> = None | Some(value: T)

  type byte = b: int | 0 <= b < 256

  const U16_MAX: int := 0xFFFF
  const U32_MAX: int := 0xFFFF_FFFF
  const U64_MAX: int := 0xFFFF_FFFF_FFFF_FFFF

  type u32 = n: int | 0 <= n <= U32_MAX
  /** Also the model of `usize`: the proxy targets 64-bit platforms. */
  type u64 = n: int | 0 <= n <= U64_MAX

  const CR: byte := 13
  const LF: byte := 10
  const SPACE: byte := 32
  const TAB: byte := 9
  const SEMICOLON: byte := 59
  const CRLF: seq<byte> := [CR, LF]

  function Min(a: int, b: int): int {
    if a <= b then a else b
  }

  function Max(a: int, b: int): int {
    if a >= b then a else b
  }

  function SaturatingAdd64(a: u64, b: u64): u64 {
    Min(a + b, U64_MAX)
  }

  function SaturatingMul64(a: u64, b: u64): u64 {
    assert 0 <= a * b;
    Min(a * b, U64_MAX)
  }

  function SaturatingAdd32(a: u32, b: u32): u32 {
    Min(a + b, U32_MAX)
  }

  predicate IsAscii(s: string) {
    forall i :: 0 <= i < |s| ==> s[i] < 128 as char
  }

  /** The bytes of an ASCII literal, Rust's `b"..."`. */
  function Ascii(s: string): (r: seq<byte>)
    requires IsAscii(s)
    ensures |r| == |s|
    ensures forall i :: 0 <= i < |s| ==> r[i] == s[i] as int
  {
    seq(|s|, i requires 0 <= i < |s| => s[i] as int)
  }

  /** `u8::to_ascii_lowercase`. */
  function ToLower(b: byte): byte {
    if 65 <= b <= 90 then b + 32 else b
  }

  function Lowercase(s: seq<byte>): (r: seq<byte>)
    ensures |r| == |s|
    ensures forall i :: 0 <= i < |s| ==> r[i] == ToLower(s[i])
  {
    seq(|s|, i requires 0 <= i < |s| => ToLower(s[i]))
  }

  /** `eq_ignore_ascii_case`. */
  predicate EqIgnoreCase(a: seq<byte>, b: seq<byte>) {
    Lowercase(a) == Lowercase(b)
  }

  /** The bytes spell this word, given in lower case, with letters of either case. */
  predicate Spells(s: seq<byte>, word: string) {
    && |s| == |word|
    && forall i :: 0 <= i < |s| ==> s[i] == word[i] as int || (65 <= s[i] <= 90 && s[i] + 32 == word[i] as int)
  }

  /** Comparing without regard to case, said letter by letter. */
  lemma SpellsExactly(s: seq<byte>, word: string)
    requires IsAscii(word) && forall i :: 0 <= i < |word| ==> !(65 <= word[i] as int <= 90)
    ensures EqIgnoreCase(s, Ascii(word)) <==> Spells(s, word)
  {
    var a, b := Lowercase(s), Lowercase(Ascii(word));
    if a == b {
      forall i | 0 <= i < |s|
        ensures s[i] == word[i] as int || (65 <= s[i] <= 90 && s[i] + 32 == word[i] as int)
      {
        assert a[i] == b[i];
      }
    }
  }

  lemma Associativity<T>(a: seq<T>, b: seq<T>, c: seq<T>)
    ensures a + b + c == a + (b + c)
  {
  }

  lemma SliceOfDrop<T>(s: seq<T>, n: nat, i: nat, j: nat)
    requires n <= |s| && i <= j <= |s| - n
    ensures s[n..][i..j] == s[n + i..n + j]
    ensures s[n..][i..] == s[n + i..]
  {
  }

  function Flatten(parts: seq<seq<byte>>): seq<byte> {
    if parts == [] then [] else parts[0] + Flatten(parts[1..])
  }

  lemma {:induction false} FlattenConcat(a: seq<seq<byte>>, b: seq<seq<byte>>)
    ensures Flatten(a + b) == Flatten(a) + Flatten(b)
  {
    if a == [] {
      assert a + b == b;
    } else {
      FlattenConcat(a[1..], b);
      assert (a + b)[1..] == a[1..] + b;
      Associativity(a[0], Flatten(a[1..]), Flatten(b));
    }
  }

  lemma FlattenSingleton(part: seq<byte>)
    ensures Flatten([part]) == part
  {
    assert Flatten([part]) == part + Flatten([]);
  }

  /** Appending one part appends its bytes. */
  lemma FlattenSnoc(parts: seq<seq<byte>>, part: seq<byte>)
    ensures Flatten(parts + [part]) == Flatten(parts) + part
  {
    FlattenConcat(parts, [part]);
    FlattenSingleton(part);
  }
}
