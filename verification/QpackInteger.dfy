/**
  Prefix integers of HPACK and QPACK (`decode_qpack_integer` of
  src/http3_wire.rs): section 5.1 of RFC 7541, section 4.1.1 of RFC 9204.

  The decoder shifts with `checked_shl`, which refuses a shift by 64 or more but
  silently drops bits shifted out of the word. The theorems say that no accepted
  value lost any.
  */
module QpackInteger {
  import opened Bytes
  import opened Arithmetic
  import opened QuicWire

  /** The largest value of a prefix, which announces continuation octets. */
  function Mask(prefixBits: nat): nat {
    Pow2(prefixBits) - 1
  }

  // ---------------------------------------------------------------------------
  // The standard's value
  // ---------------------------------------------------------------------------

  /** The unbounded value of the first n continuation octets, least significant group first. */
  function Groups(octets: seq<byte>, n: nat): nat
    requires n <= |octets|
  {
    if n == 0 then 0 else octets[0] % 128 + 128 * Groups(octets[1..], n - 1)
  }

  /** The number of octets before the first one without the continuation bit. */
  function Continued(octets: seq<byte>): (t: nat)
    ensures t <= |octets|
    ensures forall i :: 0 <= i < t ==> octets[i] >= 128
    ensures t < |octets| ==> octets[t] < 128
  {
    if octets == [] || octets[0] < 128 then 0 else 1 + Continued(octets[1..])
  }

  const MAX_OCTETS: nat := 9

  /** The continuation octets: their value and number, or which error. */
  function Continuation(octets: seq<byte>): Result<(nat, nat)> {
    var t := Continued(octets);
    if t < |octets| && t < MAX_OCTETS then Ok((Groups(octets, t + 1), t + 1))
    else if |octets| <= MAX_OCTETS then Err(BufferTooShort)
    else Err(IntegerOverflow)
  }

  /** Every outcome of the decoder: the standard's value and the octets consumed, or which error. */
  function Decoded(buf: seq<byte>, prefixBits: nat): Result<(nat, nat)> {
    if !(1 <= prefixBits <= 8) || buf == [] then Err(BufferTooShort)
    else if buf[0] % Pow2(prefixBits) < Mask(prefixBits) then Ok((buf[0] % Pow2(prefixBits), 1))
    else
      match Continuation(buf[1..])
      case Ok((value, n)) => Ok((Mask(prefixBits) + value, 1 + n))
      case Err(e) => Err(e)
  }

  lemma Pow2Shift7(n: nat)
    ensures Pow2(7 * (n + 1)) == 128 * Pow2(7 * n)
  {
    Pow2Add(7, 7 * n);
    Pow2At8();
    assert 7 + 7 * n == 7 * (n + 1);
  }

  /** n groups hold 7 n bits. */
  lemma {:induction false} GroupsBound(octets: seq<byte>, n: nat)
    requires n <= |octets|
    ensures Groups(octets, n) < Pow2(7 * n)
    decreases n
  {
    if n > 0 {
      GroupsBound(octets[1..], n - 1);
      Pow2Shift7(n - 1);
    }
  }

  /** One more group adds its bits above those so far. */
  lemma {:induction false} GroupsNext(octets: seq<byte>, n: nat)
    requires n < |octets|
    ensures Groups(octets, n + 1) == Groups(octets, n) + octets[n] % 128 * Pow2(7 * n)
    decreases n
  {
    if n == 0 {
      assert Groups(octets[1..], 0) == 0 && Pow2(0) == 1;
    } else {
      var d, p := octets[n] % 128, Pow2(7 * (n - 1));
      GroupsNext(octets[1..], n - 1);
      assert octets[1..][n - 1] == octets[n];
      Pow2Shift7(n - 1);
      ScaleBy128(d, p);
    }
  }

  lemma ScaleBy128(d: nat, p: nat)
    ensures 128 * (d * p) == d * (128 * p)
  {
  }

  // ---------------------------------------------------------------------------
  // The program
  // ---------------------------------------------------------------------------

  /** `checked_shl`: None for 64 or more; bits shifted out are lost. */
  function CheckedShl(x: u64, m: nat): Option<u64> {
    if m >= 64 then None else Some((x * Pow2(m)) % (U64_MAX + 1))
  }

  function CheckedAdd(a: u64, b: u64): Option<u64> {
    if a + b <= U64_MAX then Some(a + b) else None
  }

  /** How reading the octet at position n, all before it continued, settles the outcome. */
  lemma {:induction false} OutcomeAt(octets: seq<byte>, n: nat)
    requires n <= Continued(octets) && n <= MAX_OCTETS
    ensures n == |octets| ==> Continuation(octets) == Err(BufferTooShort)
    ensures n < |octets| && n == MAX_OCTETS ==> Continuation(octets) == Err(IntegerOverflow)
    ensures n < |octets| && n < MAX_OCTETS && octets[n] < 128 ==>
              Continuation(octets) == Ok((Groups(octets, n + 1), n + 1))
    ensures n < |octets| && octets[n] >= 128 ==> n + 1 <= Continued(octets)
  {
  }

  method DecodeQpackInteger(buf: seq<byte>, prefixBits: byte) returns (r: Result<(nat, nat)>)
    ensures r == Decoded(buf, prefixBits)
  {
    if !(1 <= prefixBits <= 8) || buf == [] {
      return Err(BufferTooShort);
    }
    var mask := Mask(prefixBits);
    MaskBound(prefixBits);
    var value: u64 := buf[0] % Pow2(prefixBits);
    if value < mask {
      return Ok((value, 1));
    }
    r := DecodeContinuation(buf, mask);
  }

  /** The loop over the continuation octets. */
  method DecodeContinuation(buf: seq<byte>, mask: u64) returns (r: Result<(nat, nat)>)
    requires buf != [] && mask <= 255
    ensures r == match Continuation(buf[1..])
                 case Ok((value, n)) => Ok((mask + value, 1 + n))
                 case Err(e) => Err(e)
  {
    var value: u64 := mask;
    var m, i := 0, 1;
    ghost var octets := buf[1..];
    while true
      invariant 1 <= i <= |buf| && m == 7 * (i - 1) <= 63
      invariant i - 1 <= Continued(octets)
      invariant value == mask + Groups(octets, i - 1)
      decreases |buf| - i
    {
      OutcomeAt(octets, i - 1);
      if i >= |buf| {
        return Err(BufferTooShort);
      }
      var b := buf[i];
      assert octets[i - 1] == b;
      if m < 63 {
        NoBitLost(octets, i - 1, mask);
      }
      i := i + 1;
      var shifted := CheckedShl(b % 128, m);
      if shifted == None {
        return Err(IntegerOverflow);
      }
      var sum := CheckedAdd(value, shifted.value);
      if sum == None {
        return Err(IntegerOverflow);
      }
      value := sum.value;
      m := m + 7;
      if m > 63 {
        return Err(IntegerOverflow);
      }
      if b < 128 {
        return Ok((value, i));
      }
    }
  }

  lemma MaskBound(prefixBits: nat)
    requires prefixBits <= 8
    ensures Mask(prefixBits) <= 255 && Pow2(prefixBits) <= 256
  {
    Pow2At8();
    Pow2Monotone(prefixBits, 8);
  }

  /** For the first nine octets neither the shift nor the addition overflows. */
  lemma {:induction false} NoBitLost(octets: seq<byte>, n: nat, mask: nat)
    requires n < |octets| && n < MAX_OCTETS && mask <= 255
    ensures CheckedShl(octets[n] % 128, 7 * n) == Some(Groups(octets, n + 1) - Groups(octets, n))
    ensures mask + Groups(octets, n + 1) <= U64_MAX
  {
    assert Groups(octets, n + 1) < 0x8000_0000_0000_0000 by {
      GroupsBound(octets, n + 1);
      Pow2Monotone(7 * (n + 1), 63);
      Pow2At64();
    }
    GroupsNext(octets, n);
    ShlExact(octets[n] % 128, 7 * n, Groups(octets, n + 1) - Groups(octets, n));
  }

  lemma ShlExact(x: u64, m: nat, shifted: int)
    requires m < 64 && shifted == x * Pow2(m) <= U64_MAX
    ensures CheckedShl(x, m) == Some(shifted)
  {
  }

  // ---------------------------------------------------------------------------
  // Round trip
  // ---------------------------------------------------------------------------

  function EncodeGroups(x: nat): (s: seq<byte>)
    ensures s != []
  {
    if x < 128 then [x] else [x % 128 + 128] + EncodeGroups(x / 128)
  }

  /** The canonical encoding, with the bits above the prefix set to `high`. */
  function EncodeInteger(v: nat, prefixBits: nat, high: nat): (s: seq<byte>)
    requires 1 <= prefixBits <= 8 && high % Pow2(prefixBits) == 0 && high + Mask(prefixBits) <= 255
  {
    if v < Mask(prefixBits) then [high + v] else [high + Mask(prefixBits)] + EncodeGroups(v - Mask(prefixBits))
  }

  lemma {:induction false} EncodedGroups(x: nat, rest: seq<byte>)
    ensures var e := EncodeGroups(x);
            Continued(e + rest) == |e| - 1 && Groups(e + rest, |e|) == x
    decreases x
  {
    var e := EncodeGroups(x);
    var all := e + rest;
    if x < 128 {
      assert all[0] == x && Groups(all[1..], 0) == 0;
    } else {
      var tail := EncodeGroups(x / 128);
      EncodedGroups(x / 128, rest);
      assert all[1..] == tail + rest;
      assert all[0] == x % 128 + 128 && |e| == |tail| + 1;
      assert Groups(all[1..], |tail|) == x / 128;
    }
  }

  /** k octets hold exactly the numbers of 7 k bits. */
  lemma {:induction false} EncodedLength(x: nat, k: nat)
    requires k >= 1
    ensures |EncodeGroups(x)| <= k <==> x < Pow2(7 * k)
    decreases k
  {
    Pow2At8();
    if k == 1 {
      assert x >= 128 ==> |EncodeGroups(x / 128)| >= 1;
    } else {
      Pow2Shift7(k - 1);
      Pow2Monotone(7, 7 * k);
      EncodedLength(x / 128, k - 1);
    }
  }

  lemma PrefixKept(b: nat, high: nat, low: nat, p: nat)
    requires p > 0 && high % p == 0 && low < p && b == high + low
    ensures b % p == low
  {
    var q := high / p;
    assert high == p * q;
    DivModUnique(b, p, q, low);
  }

  /** Encoded groups are read back when nine octets suffice, and rejected otherwise. */
  lemma {:induction false} GroupsDecoded(x: nat, rest: seq<byte>)
    ensures Continuation(EncodeGroups(x) + rest) ==
            if x < Pow2(63) then Ok((x, |EncodeGroups(x)|)) else Err(IntegerOverflow)
  {
    EncodedGroups(x, rest);
    EncodedLength(x, MAX_OCTETS);
  }

  lemma {:induction false} DecodedLong(buf: seq<byte>, prefixBits: nat, x: nat, rest: seq<byte>)
    requires 1 <= prefixBits <= 8 && buf != [] && buf[0] % Pow2(prefixBits) == Mask(prefixBits)
    requires buf[1..] == EncodeGroups(x) + rest
    ensures Decoded(buf, prefixBits) ==
            if x < Pow2(63) then Ok((Mask(prefixBits) + x, 1 + |EncodeGroups(x)|)) else Err(IntegerOverflow)
  {
    GroupsDecoded(x, rest);
  }

  lemma {:induction false} DecodedShort(buf: seq<byte>, prefixBits: nat, v: nat)
    requires 1 <= prefixBits <= 8 && buf != [] && buf[0] % Pow2(prefixBits) == v < Mask(prefixBits)
    ensures Decoded(buf, prefixBits) == Ok((v, 1))
  {
  }

  /**
    Canonical encodings round-trip, with the exact length and whatever follows,
    if and only if the value is below 2^prefix - 1 + 2^63; all others are
    rejected as too large.
    */
  lemma {:induction false} RoundTripExactly(v: nat, prefixBits: nat, high: nat, rest: seq<byte>)
    requires 1 <= prefixBits <= 8 && high % Pow2(prefixBits) == 0 && high + Mask(prefixBits) <= 255
    ensures var e := EncodeInteger(v, prefixBits, high);
            Decoded(e + rest, prefixBits) ==
            if v < Mask(prefixBits) + Pow2(63) then Ok((v, |e|)) else Err(IntegerOverflow)
  {
    var mask := Mask(prefixBits);
    var first := high + Min(v, mask);
    PrefixKept(first, high, Min(v, mask), Pow2(prefixBits));
    if v >= mask {
      RoundTripLong(first, prefixBits, v - mask, rest);
    } else {
      DecodedShort([first] + rest, prefixBits, v);
    }
  }

  lemma {:induction false} RoundTripLong(first: byte, prefixBits: nat, x: nat, rest: seq<byte>)
    requires 1 <= prefixBits <= 8 && first % Pow2(prefixBits) == Mask(prefixBits)
    ensures var e := [first] + EncodeGroups(x);
            Decoded(e + rest, prefixBits) ==
            if x < Pow2(63) then Ok((Mask(prefixBits) + x, |e|)) else Err(IntegerOverflow)
  {
    var buf := [first] + EncodeGroups(x) + rest;
    assert buf[1..] == EncodeGroups(x) + rest;
    DecodedLong(buf, prefixBits, x, rest);
  }
}
