/**
 * Base64url text (section 5 of RFC 4648, unpadded) and the identifiers built from it in
 * packages/identity/src/identifiers.ts.
 */
module Identifiers {
  import opened Wrappers
  import opened ByteStrings
  import opened Lexicographic
  import opened Utf8
  import opened Json

  ghost predicate IsBytes(b: Bytes) {
    forall i :: 0 <= i < |b| ==> 0 <= b[i] < 256
  }

  // --------------------------------------------------------------- encoding

  function SextetUnit(n: int): int
    requires 0 <= n < 64
  {
    if n < 26 then 'A' as int + n
    else if n < 52 then 'a' as int + n - 26
    else if n < 62 then '0' as int + n - 52
    else if n == 62 then '-' as int
    else '_' as int
  }

  /** The six bits of a base64url character, or -1. */
  function UnitSextet(unit: int): (n: int)
    ensures -1 <= n < 64
    ensures n >= 0 ==> SextetUnit(n) == unit
  {
    if 'A' as int <= unit <= 'Z' as int then unit - 'A' as int
    else if 'a' as int <= unit <= 'z' as int then unit - 'a' as int + 26
    else if '0' as int <= unit <= '9' as int then unit - '0' as int + 52
    else if unit == '-' as int then 62
    else if unit == '_' as int then 63
    else -1
  }

  function EncodeGroup(x: int, y: int, z: int): Text
    requires 0 <= x < 256 && 0 <= y < 256 && 0 <= z < 256
  {
    [SextetUnit(x / 4), SextetUnit(x % 4 * 16 + y / 16), SextetUnit(y % 16 * 4 + z / 64), SextetUnit(z % 64)]
  }

  /** `Encoding.encodeBase64Url`. */
  function EncodeBase64Url(b: Bytes): Text
    requires IsBytes(b)
  {
    if b == [] then []
    else if |b| == 1 then [SextetUnit(b[0] / 4), SextetUnit(b[0] % 4 * 16)]
    else if |b| == 2 then
      [SextetUnit(b[0] / 4), SextetUnit(b[0] % 4 * 16 + b[1] / 16), SextetUnit(b[1] % 16 * 4)]
    else
      EncodeGroup(b[0], b[1], b[2]) + EncodeBase64Url(b[3..])
  }

  function DecodeGroup(p: int, q: int, r: int, t: int): Bytes {
    [p * 4 + q / 16, q % 16 * 16 + r / 4, r % 4 * 64 + t]
  }

  /** A lenient decoder: it drops the bits that do not fill a byte. */
  function DecodeBase64Url(s: Text): (r: Option<Bytes>)
    ensures r.Some? ==> IsBytes(r.value)
  {
    if s == [] then Some([])
    else if |s| == 1 then None
    else
      var (p, q) := (UnitSextet(s[0]), UnitSextet(s[1]));
      if p < 0 || q < 0 then None
      else if |s| == 2 then Some([p * 4 + q / 16])
      else
        var r := UnitSextet(s[2]);
        if r < 0 then None
        else if |s| == 3 then Some([p * 4 + q / 16, q % 16 * 16 + r / 4])
        else
          var t := UnitSextet(s[3]);
          if t < 0 then None
          else
            match DecodeBase64Url(s[4..])
            case None => None
            case Some(rest) => Some(DecodeGroup(p, q, r, t) + rest)
  }

  /** `decodeCanonicalBase64Url`: bytes only for their own spelling. */
  function DecodeCanonicalBase64Url(value: Text): Option<Bytes> {
    match DecodeBase64Url(value)
    case None => None
    case Some(decoded) => if EncodeBase64Url(decoded) == value then Some(decoded) else None
  }

  predicate HasCanonicalBase64UrlLength(value: Text, byteLength: nat) {
    DecodeCanonicalBase64Url(value).Some? && |DecodeCanonicalBase64Url(value).value| == byteLength
  }

  lemma SextetRoundTrip(n: int)
    requires 0 <= n < 64
    ensures UnitSextet(SextetUnit(n)) == n
  {
  }

  lemma GroupRoundTrip(x: int, y: int, z: int)
    requires 0 <= x < 256 && 0 <= y < 256 && 0 <= z < 256
    ensures var (p, q, r, t) := (x / 4, x % 4 * 16 + y / 16, y % 16 * 4 + z / 64, z % 64);
      && 0 <= p < 64 && 0 <= q < 64 && 0 <= r < 64 && 0 <= t < 64
      && p * 4 + q / 16 == x && q % 16 * 16 + r / 4 == y && r % 4 * 64 + t == z
  {
  }

  lemma DecodeStep(s: Text, rest: Text)
    requires |s| == 4 && UnitSextet(s[0]) >= 0 && UnitSextet(s[1]) >= 0 && UnitSextet(s[2]) >= 0
      && UnitSextet(s[3]) >= 0
    ensures var (p, q, r, t) := (UnitSextet(s[0]), UnitSextet(s[1]), UnitSextet(s[2]), UnitSextet(s[3]));
      DecodeBase64Url(s + rest) ==
        match DecodeBase64Url(rest)
        case None => None
        case Some(more) => Some(DecodeGroup(p, q, r, t) + more)
  {
    assert (s + rest)[4..] == rest;
  }

  lemma DecodeOfOne(x: int)
    requires 0 <= x < 256
    ensures DecodeBase64Url([SextetUnit(x / 4), SextetUnit(x % 4 * 16)]) == Some([x])
  {
    var p, q := x / 4, x % 4 * 16;
    SextetRoundTrip(p);
    SextetRoundTrip(q);
    assert p * 4 + q / 16 == x;
  }

  lemma DecodeOfTwo(x: int, y: int)
    requires 0 <= x < 256 && 0 <= y < 256
    ensures DecodeBase64Url([SextetUnit(x / 4), SextetUnit(x % 4 * 16 + y / 16), SextetUnit(y % 16 * 4)]) ==
      Some([x, y])
  {
    var p, q, r := x / 4, x % 4 * 16 + y / 16, y % 16 * 4;
    SextetRoundTrip(p);
    SextetRoundTrip(q);
    SextetRoundTrip(r);
    assert p * 4 + q / 16 == x && q % 16 * 16 + r / 4 == y;
  }

  lemma GroupDecodes(x: int, y: int, z: int)
    requires 0 <= x < 256 && 0 <= y < 256 && 0 <= z < 256
    ensures var g := EncodeGroup(x, y, z);
      var (p, q, r, t) := (UnitSextet(g[0]), UnitSextet(g[1]), UnitSextet(g[2]), UnitSextet(g[3]));
      p >= 0 && q >= 0 && r >= 0 && t >= 0 && DecodeGroup(p, q, r, t) == [x, y, z]
  {
    GroupRoundTrip(x, y, z);
    SextetRoundTrip(x / 4);
    SextetRoundTrip(x % 4 * 16 + y / 16);
    SextetRoundTrip(y % 16 * 4 + z / 64);
    SextetRoundTrip(z % 64);
  }

  lemma DecodeOfGroup(x: int, y: int, z: int, rest: Text)
    requires 0 <= x < 256 && 0 <= y < 256 && 0 <= z < 256
    requires DecodeBase64Url(rest).Some?
    ensures DecodeBase64Url(EncodeGroup(x, y, z) + rest) == Some([x, y, z] + DecodeBase64Url(rest).value)
  {
    GroupDecodes(x, y, z);
    DecodeStep(EncodeGroup(x, y, z), rest);
  }

  lemma EncodeStep(b: Bytes)
    requires IsBytes(b) && |b| >= 3
    ensures IsBytes(b[3..]) && EncodeBase64Url(b) == EncodeGroup(b[0], b[1], b[2]) + EncodeBase64Url(b[3..])
  {
  }

  lemma SplitThree(b: Bytes)
    requires |b| >= 3
    ensures b == [b[0], b[1], b[2]] + b[3..]
  {
  }

  /** Decoding undoes encoding, for every byte string. */
  lemma {:induction false} DecodeOfEncodeBase64Url(b: Bytes)
    requires IsBytes(b)
    ensures DecodeBase64Url(EncodeBase64Url(b)) == Some(b)
  {
    if b == [] {
    } else if |b| == 1 {
      DecodeOfOne(b[0]);
      assert b == [b[0]];
    } else if |b| == 2 {
      DecodeOfTwo(b[0], b[1]);
      assert b == [b[0], b[1]];
    } else {
      EncodeStep(b);
      SplitThree(b);
      DecodeOfEncodeBase64Url(b[3..]);
      DecodeOfGroup(b[0], b[1], b[2], EncodeBase64Url(b[3..]));
    }
  }

  /** Exactly the encodings are canonical, each of one byte string. */
  lemma CanonicalIffEncoding(value: Text, b: Bytes)
    ensures DecodeCanonicalBase64Url(value) == Some(b) <==> IsBytes(b) && value == EncodeBase64Url(b)
  {
    if IsBytes(b) { DecodeOfEncodeBase64Url(b); }
  }

  /**
   * The check does not depend on the library's leniency: with any decoder that undoes the encoder,
   * decoding and comparing the re-encoding accepts the same text with the same bytes.
   */
  lemma AnyDecoderGivesTheSame(decode: Text -> Option<Bytes>, value: Text)
    requires forall b :: IsBytes(b) ==> decode(EncodeBase64Url(b)) == Some(b)
    requires decode(value).Some? ==> IsBytes(decode(value).value)
    ensures DecodeCanonicalBase64Url(value) ==
      match decode(value)
      case None => None
      case Some(b) => if EncodeBase64Url(b) == value then Some(b) else None
  {
    if DecodeCanonicalBase64Url(value).Some? {
      CanonicalIffEncoding(value, DecodeCanonicalBase64Url(value).value);
    }
    if decode(value).Some? { CanonicalIffEncoding(value, decode(value).value); }
  }

  /** `ceil(4n / 3)`, the unpadded length. */
  function Base64UrlLength(n: nat): nat {
    n + n / 3 + (if n % 3 == 0 then 0 else 1)
  }

  lemma {:induction false} EncodedLength(b: Bytes)
    requires IsBytes(b)
    ensures |EncodeBase64Url(b)| == Base64UrlLength(|b|)
  {
    if |b| >= 3 { EncodedLength(b[3..]); }
  }

  // ------------------------------------------------------- the generated pattern

  function WholeCharacters(byteLength: nat): nat { byteLength * 8 / 6 }

  function RemainingBits(byteLength: nat): (bits: nat)
    ensures bits == 0 || bits == 2 || bits == 4
  {
    byteLength * 8 % 6
  }

  /** `2 ** remainingBits` and `2 ** (8 - remainingBits)`. */
  function FinalValues(remainingBits: nat): nat { if remainingBits == 2 then 4 else 16 }

  function FinalShift(remainingBits: nat): nat { if remainingBits == 2 then 64 else 16 }

  /** The first character of the byte `value << (8 - remainingBits)`. */
  function FinalCharacter(value: nat, remainingBits: nat): int
    requires remainingBits == 2 || remainingBits == 4
    requires value < FinalValues(remainingBits)
  {
    EncodeBase64Url([value * FinalShift(remainingBits)])[0]
  }

  /** Whether `unit` is in the generated class of final characters. */
  predicate IsFinalCharacter(unit: int, remainingBits: nat)
    requires remainingBits == 2 || remainingBits == 4
  {
    exists value :: 0 <= value < FinalValues(remainingBits) && FinalCharacter(value, remainingBits) == unit
  }

  /** The pattern after the prefix, with the length check beside it. */
  predicate MatchesPayloadPattern(s: Text, byteLength: nat) {
    var whole, bits := WholeCharacters(byteLength), RemainingBits(byteLength);
    && |s| == whole + (if bits == 0 then 0 else 1)
    && (forall i :: 0 <= i < whole ==> UnitSextet(s[i]) >= 0)
    && (bits != 0 ==> IsFinalCharacter(s[whole], bits))
  }

  /** `canonicalIdentifier(name, prefix, byteLength)` accepts `s`. */
  predicate IsIdentifier(s: Text, prefix: Text, byteLength: nat) {
    prefix <= s && MatchesPayloadPattern(s[|prefix|..], byteLength)
  }

  lemma PatternShape(n: nat)
    ensures WholeCharacters(n + 3) == WholeCharacters(n) + 4 && RemainingBits(n + 3) == RemainingBits(n)
  {
  }

  lemma FinalCharacterIs(value: nat, bits: nat)
    requires bits == 2 || bits == 4
    requires value < FinalValues(bits)
    ensures FinalCharacter(value, bits) == SextetUnit(if bits == 2 then value * 16 else value * 4)
  {
  }

  /** The final class is the characters whose last bits are zero. */
  lemma FinalCharacterClass(unit: int, bits: nat)
    requires bits == 2 || bits == 4
    ensures IsFinalCharacter(unit, bits) <==>
      UnitSextet(unit) >= 0 && UnitSextet(unit) % (if bits == 2 then 16 else 4) == 0
  {
    var step := if bits == 2 then 16 else 4;
    if value :| 0 <= value < FinalValues(bits) && FinalCharacter(value, bits) == unit {
      FinalCharacterIs(value, bits);
      SextetRoundTrip(if bits == 2 then value * 16 else value * 4);
    }
    var sextet := UnitSextet(unit);
    if sextet >= 0 && sextet % step == 0 {
      FinalCharacterIs(sextet / step, bits);
      assert FinalCharacter(sextet / step, bits) == unit;
    }
  }

  lemma MatchesStep(group: Text, rest: Text, n: nat)
    requires |group| == 4
    ensures MatchesPayloadPattern(group + rest, n + 3) <==>
      UnitSextet(group[0]) >= 0 && UnitSextet(group[1]) >= 0 && UnitSextet(group[2]) >= 0 && UnitSextet(group[3]) >= 0
      && MatchesPayloadPattern(rest, n)
  {
    PatternShape(n);
    var s := group + rest;
    assert forall i :: 0 <= i < 4 ==> s[i] == group[i];
    assert forall i :: 0 <= i < |rest| ==> s[i + 4] == rest[i];
    if MatchesPayloadPattern(s, n + 3) {
      forall i | 0 <= i < WholeCharacters(n) ensures UnitSextet(rest[i]) >= 0 {
        assert UnitSextet(s[i + 4]) >= 0;
      }
    }
    if UnitSextet(group[0]) >= 0 && UnitSextet(group[1]) >= 0 && UnitSextet(group[2]) >= 0
      && UnitSextet(group[3]) >= 0 && MatchesPayloadPattern(rest, n)
    {
      forall i | 0 <= i < WholeCharacters(n + 3) ensures UnitSextet(s[i]) >= 0 {
        if i >= 4 { assert s[i] == rest[i - 4]; }
      }
    }
  }

  lemma EncodeOfGroup(p: int, q: int, r: int, t: int, more: Bytes)
    requires 0 <= p < 64 && 0 <= q < 64 && 0 <= r < 64 && 0 <= t < 64 && IsBytes(more)
    ensures var b := DecodeGroup(p, q, r, t) + more;
      IsBytes(b) && EncodeBase64Url(b) ==
        [SextetUnit(p), SextetUnit(q), SextetUnit(r), SextetUnit(t)] + EncodeBase64Url(more)
  {
    SextetsRoundTrip(p, q, r, t);
    var b := DecodeGroup(p, q, r, t) + more;
    assert b[3..] == more;
  }

  lemma SamePrefix(group: Text, left: Text, right: Text)
    ensures group + left == group + right <==> left == right
  {
    if group + left == group + right {
      assert (group + left)[|group|..] == left && (group + right)[|group|..] == right;
    }
  }

  lemma GroupText(group: Text)
    requires |group| == 4
    requires UnitSextet(group[0]) >= 0 && UnitSextet(group[1]) >= 0 && UnitSextet(group[2]) >= 0
      && UnitSextet(group[3]) >= 0
    ensures group == [SextetUnit(UnitSextet(group[0])), SextetUnit(UnitSextet(group[1])),
                      SextetUnit(UnitSextet(group[2])), SextetUnit(UnitSextet(group[3]))]
  {
  }

  lemma EncodesToSameText(p: int, q: int, r: int, t: int, more: Bytes, rest: Text)
    requires 0 <= p < 64 && 0 <= q < 64 && 0 <= r < 64 && 0 <= t < 64 && IsBytes(more)
    ensures var b := DecodeGroup(p, q, r, t) + more;
      IsBytes(b) && |b| == |more| + 3 &&
      (EncodeBase64Url(b) == [SextetUnit(p), SextetUnit(q), SextetUnit(r), SextetUnit(t)] + rest <==>
        EncodeBase64Url(more) == rest)
  {
    EncodeOfGroup(p, q, r, t, more);
    SamePrefix([SextetUnit(p), SextetUnit(q), SextetUnit(r), SextetUnit(t)], EncodeBase64Url(more), rest);
  }

  lemma GoodGroup(group: Text, rest: Text)
    requires |group| == 4
    requires UnitSextet(group[0]) >= 0 && UnitSextet(group[1]) >= 0 && UnitSextet(group[2]) >= 0
      && UnitSextet(group[3]) >= 0
    ensures DecodeBase64Url(group + rest).Some? == DecodeBase64Url(rest).Some?
    ensures DecodeBase64Url(rest).Some? ==>
      var (b, more) := (DecodeBase64Url(group + rest).value, DecodeBase64Url(rest).value);
      |b| == |more| + 3 && (EncodeBase64Url(b) == group + rest <==> EncodeBase64Url(more) == rest)
  {
    DecodeStep(group, rest);
    GroupText(group);
    if DecodeBase64Url(rest).Some? {
      EncodesToSameText(UnitSextet(group[0]), UnitSextet(group[1]), UnitSextet(group[2]), UnitSextet(group[3]),
                        DecodeBase64Url(rest).value, rest);
    }
  }

  lemma CanonicalStep(group: Text, rest: Text, n: nat)
    requires |group| == 4
    ensures HasCanonicalBase64UrlLength(group + rest, n + 3) <==>
      UnitSextet(group[0]) >= 0 && UnitSextet(group[1]) >= 0 && UnitSextet(group[2]) >= 0 && UnitSextet(group[3]) >= 0
      && HasCanonicalBase64UrlLength(rest, n)
  {
    if UnitSextet(group[0]) >= 0 && UnitSextet(group[1]) >= 0 && UnitSextet(group[2]) >= 0
      && UnitSextet(group[3]) >= 0 {
      GoodGroup(group, rest);
    } else {
      BadGroup(group, rest);
    }
  }

  lemma BadGroup(group: Text, rest: Text)
    requires |group| == 4
    requires UnitSextet(group[0]) < 0 || UnitSextet(group[1]) < 0 || UnitSextet(group[2]) < 0
      || UnitSextet(group[3]) < 0
    ensures DecodeBase64Url(group + rest) == None
  {
    var s := group + rest;
    assert s[0] == group[0] && s[1] == group[1] && s[2] == group[2] && s[3] == group[3];
  }

  lemma SextetsRoundTrip(p: int, q: int, r: int, t: int)
    requires 0 <= p < 64 && 0 <= q < 64 && 0 <= r < 64 && 0 <= t < 64
    ensures var (x, y, z) := (p * 4 + q / 16, q % 16 * 16 + r / 4, r % 4 * 64 + t);
      && 0 <= x < 256 && 0 <= y < 256 && 0 <= z < 256
      && x / 4 == p && x % 4 * 16 + y / 16 == q && y % 16 * 4 + z / 64 == r && z % 64 == t
  {
  }

  lemma ShortPattern(s: Text, n: nat)
    requires n < 3
    ensures MatchesPayloadPattern(s, n) <==> HasCanonicalBase64UrlLength(s, n)
  {
    if n == 1 && |s| == 2 {
      FinalCharacterClass(s[1], 2);
      ShortText1(s);
    } else if n == 2 && |s| == 3 {
      FinalCharacterClass(s[2], 4);
      ShortText2(s);
    } else {
      ShortLengths(s, n);
    }
  }

  lemma ShortLengths(s: Text, n: nat)
    requires n < 3 && !(n == 1 && |s| == 2) && !(n == 2 && |s| == 3)
    ensures MatchesPayloadPattern(s, n) <==> HasCanonicalBase64UrlLength(s, n)
  {
    if DecodeCanonicalBase64Url(s).Some? { EncodedLength(DecodeBase64Url(s).value); }
  }

  lemma ShortText1(s: Text)
    requires |s| == 2
    ensures HasCanonicalBase64UrlLength(s, 1) <==>
      UnitSextet(s[0]) >= 0 && UnitSextet(s[1]) >= 0 && UnitSextet(s[1]) % 16 == 0
  {
    var p, q := UnitSextet(s[0]), UnitSextet(s[1]);
    if p >= 0 && q >= 0 {
      SextetsRoundTrip(p, q, 0, 0);
      var x := p * 4 + q / 16;
      assert EncodeBase64Url([x]) == [SextetUnit(p), SextetUnit(q / 16 * 16)];
      SextetRoundTrip(q / 16 * 16);
      assert s == [s[0], s[1]];
    }
  }

  lemma SextetEncodes(unit: int, n: int)
    requires 0 <= n < 64
    ensures unit == SextetUnit(n) <==> UnitSextet(unit) == n
  {
    SextetRoundTrip(n);
  }

  lemma LastSextet(r: int)
    requires 0 <= r < 64
    ensures 0 <= r / 4 * 4 < 64 && (r / 4 * 4 == r <==> r % 4 == 0)
  {
  }

  lemma DecodeOfThree(s: Text)
    requires |s| == 3
    ensures var (p, q, r) := (UnitSextet(s[0]), UnitSextet(s[1]), UnitSextet(s[2]));
      DecodeBase64Url(s) == if p >= 0 && q >= 0 && r >= 0 then Some([p * 4 + q / 16, q % 16 * 16 + r / 4]) else None
  {
  }

  lemma SameTriple(a: Text, b: Text)
    requires |a| == 3 && |b| == 3 && a[0] == b[0] && a[1] == b[1]
    ensures a == b <==> a[2] == b[2]
  {
  }

  lemma CanonicalWhen(s: Text, b: Bytes, encoded: Text)
    requires DecodeBase64Url(s) == Some(b) && IsBytes(b) && EncodeBase64Url(b) == encoded
    ensures HasCanonicalBase64UrlLength(s, |b|) <==> encoded == s
  {
  }

  lemma ShortText2(s: Text)
    requires |s| == 3
    ensures HasCanonicalBase64UrlLength(s, 2) <==>
      UnitSextet(s[0]) >= 0 && UnitSextet(s[1]) >= 0 && UnitSextet(s[2]) >= 0 && UnitSextet(s[2]) % 4 == 0
  {
    var p, q, r := UnitSextet(s[0]), UnitSextet(s[1]), UnitSextet(s[2]);
    DecodeOfThree(s);
    if p >= 0 && q >= 0 && r >= 0 {
      LastSextet(r);
      EncodeOfTwo(p, q, r);
      SextetEncodes(s[2], r / 4 * 4);
      var encoded := [SextetUnit(p), SextetUnit(q), SextetUnit(r / 4 * 4)];
      SameTriple(encoded, s);
      CanonicalWhen(s, [p * 4 + q / 16, q % 16 * 16 + r / 4], encoded);
    }
  }

  lemma EncodeOfTwo(p: int, q: int, r: int)
    requires 0 <= p < 64 && 0 <= q < 64 && 0 <= r < 64
    ensures var b := [p * 4 + q / 16, q % 16 * 16 + r / 4];
      IsBytes(b) && 0 <= r / 4 * 4 < 64 && EncodeBase64Url(b) == [SextetUnit(p), SextetUnit(q), SextetUnit(r / 4 * 4)]
  {
    SextetsRoundTrip(p, q, r, 0);
    assert (q % 16 * 16 + r / 4) % 16 * 4 == r / 4 * 4;
  }

  /** For every byte length, the generated pattern is canonicality: it accepts what decodes and re-encodes to itself. */
  lemma {:induction false} PatternIsCanonicality(s: Text, byteLength: nat)
    ensures MatchesPayloadPattern(s, byteLength) <==> HasCanonicalBase64UrlLength(s, byteLength)
    decreases byteLength
  {
    if byteLength < 3 {
      ShortPattern(s, byteLength);
    } else if |s| < 4 {
      PatternShape(byteLength - 3);
      if DecodeCanonicalBase64Url(s).Some? { EncodedLength(DecodeBase64Url(s).value); }
    } else {
      PatternIsCanonicality(s[4..], byteLength - 3);
      assert s == s[..4] + s[4..];
      MatchesStep(s[..4], s[4..], byteLength - 3);
      CanonicalStep(s[..4], s[4..], byteLength - 3);
    }
  }

  /** An identifier is the prefix and the encoding of exactly one byte string of its length. */
  lemma IdentifierIffEncoded(s: Text, prefix: Text, byteLength: nat)
    ensures IsIdentifier(s, prefix, byteLength) <==>
      exists b :: IsBytes(b) && |b| == byteLength && s == prefix + EncodeBase64Url(b)
    ensures forall b, c :: IsBytes(b) && IsBytes(c) && EncodeBase64Url(b) == EncodeBase64Url(c) ==> b == c
  {
    if prefix <= s {
      var payload := s[|prefix|..];
      assert s == prefix + payload;
      PatternIsCanonicality(payload, byteLength);
      if HasCanonicalBase64UrlLength(payload, byteLength) {
        CanonicalIffEncoding(payload, DecodeCanonicalBase64Url(payload).value);
      }
    }
    if b :| IsBytes(b) && |b| == byteLength && s == prefix + EncodeBase64Url(b) {
      assert s[|prefix|..] == EncodeBase64Url(b);
      CanonicalIffEncoding(EncodeBase64Url(b), b);
    }
    forall b, c | IsBytes(b) && IsBytes(c) && EncodeBase64Url(b) == EncodeBase64Url(c) ensures b == c {
      CanonicalIffEncoding(EncodeBase64Url(b), b);
      CanonicalIffEncoding(EncodeBase64Url(b), c);
    }
  }

  // ------------------------------------------------------------- the order

  const AGENT_ID_PREFIX: Text := Ascii("agt_")

  predicate IsAgentId(s: Text) {
    IsIdentifier(s, AGENT_ID_PREFIX, 16)
  }

  /** The decoded bytes of an AgentId's text. */
  function AgentIdBytes(s: Text): Bytes
    requires IsAgentId(s)
    ensures |AgentIdBytes(s)| == 16
  {
    PatternIsCanonicality(s[4..], 16);
    DecodeCanonicalBase64Url(s[4..]).value
  }

  /** `compareAgentIds`: its sign is the order of the decoded bytes. */
  method CompareAgentIds(left: Text, right: Text) returns (order: int)
    requires IsAgentId(left) && IsAgentId(right)
    ensures order < 0 <==> Less(AgentIdBytes(left), AgentIdBytes(right))
    ensures order > 0 <==> Less(AgentIdBytes(right), AgentIdBytes(left))
    ensures order == 0 <==> left == right
  {
    var l, r := AgentIdBytes(left), AgentIdBytes(right);
    EqualBytesEqualIds(left, right);
    order := CompareBytes(l, r);
    LessIsTotal(l, r);
  }

  method CompareBytes(l: Bytes, r: Bytes) returns (order: int)
    requires |l| == |r|
    ensures order < 0 <==> Less(l, r)
    ensures order > 0 <==> Less(r, l)
    ensures order == 0 <==> l == r
  {
    LessIsTotal(l, r);
    for index := 0 to |l|
      invariant l[..index] == r[..index]
    {
      var difference := l[index] - r[index];
      if difference != 0 {
        LessAtDifference(l, r, index);
        LessAtDifference(r, l, index);
        return difference;
      }
    }
    assert l == r by { assert l[..|l|] == l && r[..|l|] == r; }
    order := |l| - |r|;
  }

  lemma {:induction false} LessAtDifference(l: Bytes, r: Bytes, index: nat)
    requires index < |l| && index < |r| && l[..index] == r[..index] && l[index] != r[index]
    ensures Less(l, r) <==> l[index] < r[index]
  {
    if index > 0 {
      assert l[0] == l[..index][0] && r[0] == r[..index][0];
      assert l[1..][..index - 1] == l[..index][1..] && r[1..][..index - 1] == r[..index][1..];
      LessAtDifference(l[1..], r[1..], index - 1);
    }
  }

  lemma EqualBytesEqualIds(left: Text, right: Text)
    requires IsAgentId(left) && IsAgentId(right)
    ensures AgentIdBytes(left) == AgentIdBytes(right) <==> left == right
  {
    PatternIsCanonicality(left[4..], 16);
    PatternIsCanonicality(right[4..], 16);
    CanonicalIffEncoding(left[4..], AgentIdBytes(left));
    CanonicalIffEncoding(right[4..], AgentIdBytes(right));
    assert left == AGENT_ID_PREFIX + left[4..] && right == AGENT_ID_PREFIX + right[4..];
  }

  /** On accepted AgentIds the order is strict and total, and transitive. */
  lemma AgentIdOrderIsTotal(a: Text, b: Text, c: Text)
    requires IsAgentId(a) && IsAgentId(b) && IsAgentId(c)
    ensures Less(AgentIdBytes(a), AgentIdBytes(b)) || a == b || Less(AgentIdBytes(b), AgentIdBytes(a))
    ensures !(Less(AgentIdBytes(a), AgentIdBytes(b)) && Less(AgentIdBytes(b), AgentIdBytes(a)))
    ensures Less(AgentIdBytes(a), AgentIdBytes(b)) && Less(AgentIdBytes(b), AgentIdBytes(c)) ==>
      Less(AgentIdBytes(a), AgentIdBytes(c))
  {
    EqualBytesEqualIds(a, b);
    LessIsTotal(AgentIdBytes(a), AgentIdBytes(b));
    if Less(AgentIdBytes(a), AgentIdBytes(b)) && Less(AgentIdBytes(b), AgentIdBytes(c)) {
      LessIsTransitive(AgentIdBytes(a), AgentIdBytes(b), AgentIdBytes(c));
    }
  }
}
