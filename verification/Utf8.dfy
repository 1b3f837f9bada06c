/**
 * JavaScript strings as UTF-16 code units, and the UTF-8 encoder and fatal decoder that
 * packages/identity/src/canonical-json.ts uses on them.
 */
module Utf8 {
  import opened Wrappers
  import opened ByteStrings

  /** A JavaScript string: its UTF-16 code units. */
  type Text = seq<int>

  predicate IsHighSurrogate(unit: int) { 0xD800 <= unit <= 0xDBFF }
  predicate IsLowSurrogate(unit: int) { 0xDC00 <= unit <= 0xDFFF }

  /** Every unit is a code unit and every surrogate is in a high-low pair. */
  predicate WellFormed(t: Text) {
    if t == [] then true
    else if !(0 <= t[0] < 0x10000) || IsLowSurrogate(t[0]) then false
    else if !IsHighSurrogate(t[0]) then WellFormed(t[1..])
    else |t| >= 2 && IsLowSurrogate(t[1]) && WellFormed(t[2..])
  }

  /** The index loop of `hasWellFormedUnicode`. */
  method HasWellFormedUnicode(value: Text) returns (wellFormed: bool)
    requires forall i :: 0 <= i < |value| ==> 0 <= value[i] < 0x10000
    ensures wellFormed == WellFormed(value)
  {
    var index := 0;
    while index < |value|
      invariant 0 <= index <= |value|
      invariant WellFormed(value) == WellFormed(value[index..])
    {
      var unit := value[index];
      if IsLowSurrogate(unit) {
        return false;
      }
      assert value[index..][1..] == value[index + 1..];
      if IsHighSurrogate(unit) {
        index := index + 1;
        if index >= |value| || !IsLowSurrogate(value[index]) {
          return false;
        }
        assert value[index - 1..][2..] == value[index + 1..];
      }
      index := index + 1;
    }
    return true;
  }

  /** The UTF-8 bytes of one scalar value. */
  function ScalarBytes(p: int): Bytes
    requires 0 <= p < 0x110000
  {
    if p < 0x80 then [p]
    else if p < 0x800 then [0xC0 + p / 64, 0x80 + p % 64]
    else if p < 0x10000 then [0xE0 + p / 4096, 0x80 + p / 64 % 64, 0x80 + p % 64]
    else [0xF0 + p / 262144, 0x80 + p / 4096 % 64, 0x80 + p / 64 % 64, 0x80 + p % 64]
  }

  function PairScalar(high: int, low: int): int {
    0x10000 + (high - 0xD800) * 0x400 + (low - 0xDC00)
  }

  /** `TextEncoder.encode`: a surrogate outside a pair becomes U+FFFD. */
  function Encode(t: Text): Bytes {
    if t == [] then []
    else if IsHighSurrogate(t[0]) && |t| >= 2 && IsLowSurrogate(t[1]) then
      ScalarBytes(PairScalar(t[0], t[1])) + Encode(t[2..])
    else
      var lone := IsHighSurrogate(t[0]) || IsLowSurrogate(t[0]) || !(0 <= t[0] < 0x10000);
      ScalarBytes(if lone then 0xFFFD else t[0]) + Encode(t[1..])
  }

  predicate IsContinuation(byte: int) { 0x80 <= byte <= 0xBF }

  /**
   * The scalar a byte string starts with and how many bytes spell it; overlong forms, surrogates and
   * values past 0x10FFFF fail.
   */
  function FirstScalar(b: Bytes): Option<(int, nat)>
    requires b != []
    ensures var r := FirstScalar(b);
      r.Some? ==> 0 < r.value.1 <= |b| && 0 <= r.value.0 < 0x110000 && !(0xD800 <= r.value.0 <= 0xDFFF)
  {
    if 0 <= b[0] < 0x80 then Some((b[0], 1))
    else if 0xC2 <= b[0] <= 0xDF then
      if |b| >= 2 && IsContinuation(b[1]) then Some(((b[0] - 0xC0) * 64 + b[1] - 0x80, 2)) else None
    else if 0xE0 <= b[0] <= 0xEF then
      if |b| >= 3 && IsContinuation(b[1]) && IsContinuation(b[2])
         && (b[0] == 0xE0 ==> b[1] >= 0xA0) && (b[0] == 0xED ==> b[1] <= 0x9F)
      then Some(((b[0] - 0xE0) * 4096 + (b[1] - 0x80) * 64 + b[2] - 0x80, 3))
      else None
    else if 0xF0 <= b[0] <= 0xF4 then
      if |b| >= 4 && IsContinuation(b[1]) && IsContinuation(b[2]) && IsContinuation(b[3])
         && (b[0] == 0xF0 ==> b[1] >= 0x90) && (b[0] == 0xF4 ==> b[1] <= 0x8F)
      then Some(((b[0] - 0xF0) * 262144 + (b[1] - 0x80) * 4096 + (b[2] - 0x80) * 64 + b[3] - 0x80, 4))
      else None
    else None
  }

  function ScalarUnits(p: int): Text
    requires 0 <= p < 0x110000
  {
    if p < 0x10000 then [p] else [0xD800 + (p - 0x10000) / 0x400, 0xDC00 + (p - 0x10000) % 0x400]
  }

  function DecodeBody(b: Bytes): Option<Text>
    decreases |b|
  {
    if b == [] then Some([])
    else
      match FirstScalar(b)
      case None => None
      case Some((p, n)) =>
        match DecodeBody(b[n..])
        case None => None
        case Some(rest) => Some(ScalarUnits(p) + rest)
  }

  const BYTE_ORDER_MARK: Bytes := [0xEF, 0xBB, 0xBF]

  /** `new TextDecoder("utf-8", { fatal: true }).decode`, which drops one leading byte-order mark. */
  function Decode(b: Bytes): Option<Text> {
    DecodeBody(if BYTE_ORDER_MARK <= b then b[3..] else b)
  }

  /** A scalar is put together again from its six-bit groups. */
  lemma SixBitGroups(p: int)
    requires 0 <= p < 0x110000
    ensures p == p / 64 * 64 + p % 64
    ensures p / 64 == p / 4096 * 64 + p / 64 % 64
    ensures p / 4096 == p / 262144 * 64 + p / 4096 % 64
  {
  }

  lemma FirstScalarOfShortBytes(p: int, rest: Bytes)
    requires 0 <= p < 0x10000 && !(0xD800 <= p <= 0xDFFF)
    ensures FirstScalar(ScalarBytes(p) + rest) == Some((p, |ScalarBytes(p)|))
  {
    SixBitGroups(p);
    var b := ScalarBytes(p) + rest;
    if p >= 0x800 {
      assert b[0] == 0xE0 + p / 4096 && b[1] == 0x80 + p / 64 % 64 && b[2] == 0x80 + p % 64;
    }
  }

  lemma FirstScalarOfLongBytes(p: int, rest: Bytes)
    requires 0x10000 <= p < 0x110000
    ensures FirstScalar(ScalarBytes(p) + rest) == Some((p, 4))
  {
    SixBitGroups(p);
    var b := ScalarBytes(p) + rest;
    assert b[0] == 0xF0 + p / 262144 && b[1] == 0x80 + p / 4096 % 64;
    assert b[2] == 0x80 + p / 64 % 64 && b[3] == 0x80 + p % 64;
  }

  lemma FirstScalarOfBytes(p: int, rest: Bytes)
    requires 0 <= p < 0x110000 && !(0xD800 <= p <= 0xDFFF)
    ensures FirstScalar(ScalarBytes(p) + rest) == Some((p, |ScalarBytes(p)|))
    ensures (ScalarBytes(p) + rest)[|ScalarBytes(p)|..] == rest
  {
    if p < 0x10000 {
      FirstScalarOfShortBytes(p, rest);
    } else {
      FirstScalarOfLongBytes(p, rest);
    }
  }

  lemma PairRoundTrip(high: int, low: int)
    requires IsHighSurrogate(high) && IsLowSurrogate(low)
    ensures 0x10000 <= PairScalar(high, low) < 0x110000
    ensures ScalarUnits(PairScalar(high, low)) == [high, low]
  {
  }

  /** The decoder undoes the encoder on well-formed text. */
  lemma {:induction false} DecodeBodyOfEncode(t: Text)
    requires WellFormed(t)
    ensures DecodeBody(Encode(t)) == Some(t)
  {
    if t != [] {
      if IsHighSurrogate(t[0]) {
        PairRoundTrip(t[0], t[1]);
        FirstScalarOfBytes(PairScalar(t[0], t[1]), Encode(t[2..]));
        DecodeBodyOfEncode(t[2..]);
        assert t == [t[0], t[1]] + t[2..];
      } else {
        FirstScalarOfBytes(t[0], Encode(t[1..]));
        DecodeBodyOfEncode(t[1..]);
        assert t == [t[0]] + t[1..];
      }
    }
  }

  /** Text that starts with an ASCII character survives the byte-order-mark rule. */
  lemma DecodeOfEncode(t: Text)
    requires WellFormed(t) && (t != [] ==> t[0] < 0x80)
    ensures Decode(Encode(t)) == Some(t)
  {
    DecodeBodyOfEncode(t);
    if t != [] { assert Encode(t)[0] == t[0]; }
  }

  predicate IsAscii(t: Text) {
    forall i :: 0 <= i < |t| ==> 0 <= t[i] < 0x80
  }

  lemma {:induction false} AsciiEncodesToItself(t: Text)
    requires IsAscii(t)
    ensures WellFormed(t) && Encode(t) == t
  {
    if t != [] {
      AsciiEncodesToItself(t[1..]);
      assert t == [t[0]] + t[1..];
    }
  }

  lemma DropOfAppend(a: Text, b: Text, n: nat)
    requires n <= |a|
    ensures (a + b)[n..] == a[n..] + b
    ensures forall i :: 0 <= i < n ==> (a + b)[i] == a[i]
  {
  }

  lemma {:induction false} WellFormedAppend(a: Text, b: Text)
    requires WellFormed(a) && WellFormed(b)
    ensures WellFormed(a + b)
  {
    if a == [] {
      assert a + b == b;
    } else if IsHighSurrogate(a[0]) {
      WellFormedAppend(a[2..], b);
      DropOfAppend(a, b, 2);
    } else {
      WellFormedAppend(a[1..], b);
      DropOfAppend(a, b, 1);
    }
  }
}
