/** The Ed25519 encodings that packages/identity/src/agent-key.ts accepts. */
module KeyEncoding {
  import opened Wrappers
  import opened ByteStrings
  import opened Json
  import opened Utf8
  import opened Identifiers

  // Sections 5.1.2 and 5.1.7 of RFC 8032: byte loops and tables, and the numbers they decide.

  const PUBLIC_KEY_BYTE_LENGTH := 32
  const SIGNATURE_BYTE_LENGTH := 64

  const TWO_255: int := 0x80000000_00000000_00000000_00000000_00000000_00000000_00000000_00000000
  /** `2^255 - 19`. */
  const FIELD_ORDER: int := 0x7fffffff_ffffffff_ffffffff_ffffffff_ffffffff_ffffffff_ffffffff_ffffffed
  /** `2^252 + 27742317777372353535851937790883648493`. */
  const GROUP_ORDER: int := 0x10000000_00000000_00000000_00000000_14def9de_a2f79cd6_5812631a_5cf5d3ed

  function Repeat(byte: int, n: nat): Bytes {
    seq(n, _ => byte)
  }

  const FIELD_MODULUS: Bytes := [0xed] + Repeat(0xff, 30) + [0x7f]

  const SCALAR_ORDER: Bytes :=
    [0xed, 0xd3, 0xf5, 0x5c, 0x1a, 0x63, 0x12, 0x58] +
    [0xd6, 0x9c, 0xf7, 0xa2, 0xde, 0xf9, 0xde, 0x14] +
    [0x00, 0x00, 0x00, 0x00, 0x00, 0x00, 0x00, 0x00] +
    [0x00, 0x00, 0x00, 0x00, 0x00, 0x00, 0x00, 0x10]

  const ORDER_FOUR_POINT: Bytes := Repeat(0, 32)
  const IDENTITY_POINT: Bytes := [0x01] + Repeat(0, 31)
  const ORDER_EIGHT_POINT: Bytes :=
    [0x26, 0xe8, 0x95, 0x8f, 0xc2, 0xb2, 0x27, 0xb0] +
    [0x45, 0xc3, 0xf4, 0x89, 0xf2, 0xef, 0x98, 0xf0] +
    [0xd5, 0xdf, 0xac, 0x05, 0xd3, 0xc6, 0x33, 0x39] +
    [0xb1, 0x38, 0x02, 0x88, 0x6d, 0x53, 0xfc, 0x05]
  const OTHER_ORDER_EIGHT_POINT: Bytes :=
    [0xc7, 0x17, 0x6a, 0x70, 0x3d, 0x4d, 0xd8, 0x4f] +
    [0xba, 0x3c, 0x0b, 0x76, 0x0d, 0x10, 0x67, 0x0f] +
    [0x2a, 0x20, 0x53, 0xfa, 0x2c, 0x39, 0xcc, 0xc6] +
    [0x4e, 0xc7, 0xfd, 0x77, 0x92, 0xac, 0x03, 0x7a]
  const ORDER_TWO_POINT: Bytes := [0xec] + Repeat(0xff, 30) + [0x7f]
  const ORDER_FOUR_RESPELLED: Bytes := [0xed] + Repeat(0xff, 30) + [0x7f]
  const IDENTITY_RESPELLED: Bytes := [0xee] + Repeat(0xff, 30) + [0x7f]

  const SMALL_ORDER_POINTS: seq<Bytes> :=
    [ORDER_FOUR_POINT, IDENTITY_POINT, ORDER_EIGHT_POINT, OTHER_ORDER_EIGHT_POINT, ORDER_TWO_POINT,
     ORDER_FOUR_RESPELLED, IDENTITY_RESPELLED]

  // ------------------------------------------------------ numbers in bytes

  /** The number a byte string spells, least significant byte first. */
  function LittleEndian(b: Bytes): int {
    if b == [] then 0 else b[0] + 256 * LittleEndian(b[1..])
  }

  lemma {:induction false} LessAtHighestDifference(a: Bytes, b: Bytes, i: nat)
    requires IsBytes(a) && IsBytes(b) && |a| == |b| && i < |a|
    requires AgreeAbove(a, b, i) && a[i] < b[i]
    ensures LittleEndian(a) < LittleEndian(b)
  {
    if i == 0 {
      assert a[1..] == b[1..];
    } else {
      assert AgreeAbove(a[1..], b[1..], i - 1);
      LessAtHighestDifference(a[1..], b[1..], i - 1);
    }
  }

  ghost predicate AgreeAbove(a: Bytes, b: Bytes, i: int)
    requires |a| == |b| && i >= -1
  {
    forall j :: i < j < |a| ==> a[j] == b[j]
  }

  /** `isLessThanLittleEndian`: from the last byte down, the comparison is numeric less-than. */
  method IsLessThanLittleEndian(value: Bytes, upperBound: Bytes) returns (less: bool)
    requires IsBytes(value) && IsBytes(upperBound)
    ensures less <==> |value| == |upperBound| && LittleEndian(value) < LittleEndian(upperBound)
  {
    if |value| != |upperBound| {
      return false;
    }
    var index := |value| - 1;
    while index >= 0
      invariant -1 <= index < |value|
      invariant AgreeAbove(value, upperBound, index)
    {
      if value[index] != upperBound[index] {
        DecidedByHighest(value, upperBound, index);
        return value[index] < upperBound[index];
      }
      index := index - 1;
    }
    assert value == upperBound;
    return false;
  }

  lemma DecidedByHighest(a: Bytes, b: Bytes, i: nat)
    requires IsBytes(a) && IsBytes(b) && |a| == |b| && i < |a|
    requires AgreeAbove(a, b, i) && a[i] != b[i]
    ensures a[i] < b[i] <==> LittleEndian(a) < LittleEndian(b)
  {
    if a[i] < b[i] {
      LessAtHighestDifference(a, b, i);
    } else {
      LessAtHighestDifference(b, a, i);
    }
  }

  /** Two byte strings of one length that spell one number are equal. */
  lemma {:induction false} LittleEndianIsInjective(a: Bytes, b: Bytes)
    requires IsBytes(a) && IsBytes(b) && |a| == |b| && LittleEndian(a) == LittleEndian(b)
    ensures a == b
  {
    if a != [] {
      LastByteFirst(a[0], LittleEndian(a[1..]), b[0], LittleEndian(b[1..]));
      LittleEndianIsInjective(a[1..], b[1..]);
      assert a == [a[0]] + a[1..] && b == [b[0]] + b[1..];
    }
  }

  lemma LastByteFirst(x: int, m: int, y: int, n: int)
    requires 0 <= x < 256 && 0 <= y < 256 && x + 256 * m == y + 256 * n
    ensures x == y && m == n
  {
  }

  function Power256(n: nat): (p: nat)
    ensures p > 0
  {
    if n == 0 then 1 else 256 * Power256(n - 1)
  }

  lemma Distribute(p: int, x: int, y: int)
    ensures 256 * (x + p * y) == 256 * x + 256 * p * y
  {
  }

  /** The number of a concatenation. */
  lemma {:induction false} LittleEndianOfAppend(a: Bytes, b: Bytes)
    ensures LittleEndian(a + b) == LittleEndian(a) + Power256(|a|) * LittleEndian(b)
  {
    if a == [] {
      assert a + b == b;
    } else {
      assert (a + b)[1..] == a[1..] + b;
      LittleEndianOfAppend(a[1..], b);
      Distribute(Power256(|a| - 1), LittleEndian(a[1..]), LittleEndian(b));
    }
  }

  lemma {:induction false} LittleEndianBelow(b: Bytes)
    requires IsBytes(b)
    ensures 0 <= LittleEndian(b) < Power256(|b|)
  {
    if b != [] { LittleEndianBelow(b[1..]); }
  }

  lemma LittleEndianOfOne(x: int)
    ensures LittleEndian([x]) == x
  {
    assert [x][1..] == [];
  }

  lemma LittleEndianOf4(b0: int, b1: int, b2: int, b3: int)
    ensures LittleEndian([b0, b1, b2, b3]) == b0 + 256 * (b1 + 256 * (b2 + 256 * b3))
  {
    assert [b0, b1, b2, b3][1..] == [b1, b2, b3] && [b1, b2, b3][1..] == [b2, b3] && [b2, b3][1..] == [b3];
    LittleEndianOfOne(b3);
    assert LittleEndian([b2, b3]) == b2 + 256 * b3;
    assert LittleEndian([b1, b2, b3]) == b1 + 256 * LittleEndian([b2, b3]);
  }

  lemma LittleEndianOf8(b0: int, b1: int, b2: int, b3: int, b4: int, b5: int, b6: int, b7: int)
    ensures LittleEndian([b0, b1, b2, b3, b4, b5, b6, b7]) ==
      b0 + 256 * (b1 + 256 * (b2 + 256 * (b3 + 256 * (b4 + 256 * (b5 + 256 * (b6 + 256 * b7))))))
  {
    Power256s();
    LittleEndianOf4(b0, b1, b2, b3);
    LittleEndianOf4(b4, b5, b6, b7);
    assert [b0, b1, b2, b3, b4, b5, b6, b7] == [b0, b1, b2, b3] + [b4, b5, b6, b7];
    LittleEndianOfAppend([b0, b1, b2, b3], [b4, b5, b6, b7]);
  }

  lemma Power256s()
    ensures Power256(1) == 256 && Power256(4) == 0x1_0000_0000
  {
    assert Power256(4) == 256 * Power256(3) && Power256(3) == 256 * Power256(2) && Power256(2) == 256 * Power256(1);
    assert Power256(1) == 256 * Power256(0) && Power256(0) == 1;
  }

  lemma Eight(n: nat)
    ensures Power256(n + 8) == 0x1_00000000_00000000 * Power256(n)
  {
    assert Power256(n + 8) == 256 * Power256(n + 7) && Power256(n + 7) == 256 * Power256(n + 6);
    assert Power256(n + 6) == 256 * Power256(n + 5) && Power256(n + 5) == 256 * Power256(n + 4);
    assert Power256(n + 4) == 256 * Power256(n + 3) && Power256(n + 3) == 256 * Power256(n + 2);
    assert Power256(n + 2) == 256 * Power256(n + 1) && Power256(n + 1) == 256 * Power256(n);
  }

  lemma LargePower256s()
    ensures Power256(8) == 0x1_00000000_00000000
      && Power256(31) == 0x1000000_00000000_00000000_00000000_00000000_00000000_00000000_00000000
    ensures Power256(32) == 2 * TWO_255
  {
    assert Power256(0) == 1;
    Eight(0);
    Eight(8);
    assert Power256(16) == 0x1_00000000_00000000_00000000_00000000;
    Eight(16);
    assert Power256(24) == 0x1_00000000_00000000_00000000_00000000_00000000_00000000;
    Eight(24);
    assert Power256(32) == 256 * Power256(31);
  }

  /** 32 bytes by eight. */
  lemma LittleEndianOfWords(a: Bytes, b: Bytes, c: Bytes, d: Bytes)
    requires |a| == 8 && |b| == 8 && |c| == 8 && |d| == 8
    ensures LittleEndian(a + b + c + d) ==
      LittleEndian(a) + 0x1_00000000_00000000 * LittleEndian(b)
        + 0x1_00000000_00000000_00000000_00000000 * LittleEndian(c)
        + 0x1_00000000_00000000_00000000_00000000_00000000_00000000 * LittleEndian(d)
  {
    LargePower256s();
    Eight(8);
    Eight(16);
    LittleEndianOfAppend(a, b);
    LittleEndianOfAppend(a + b, c);
    LittleEndianOfAppend(a + b + c, d);
  }

  lemma {:induction false} LittleEndianOfZeros(n: nat)
    ensures LittleEndian(Repeat(0, n)) == 0
  {
    if n > 0 {
      assert Repeat(0, n)[1..] == Repeat(0, n - 1);
      LittleEndianOfZeros(n - 1);
    }
  }

  lemma {:induction false} LittleEndianOfOnes(n: nat)
    ensures LittleEndian(Repeat(0xff, n)) == Power256(n) - 1
  {
    if n > 0 {
      assert Repeat(0xff, n)[1..] == Repeat(0xff, n - 1);
      LittleEndianOfOnes(n - 1);
    }
  }

  /** `low ff...ff 7f` spells `2^255 - 256 + low`. */
  lemma LittleEndianNearTop(low: int)
    ensures LittleEndian([low] + Repeat(0xff, 30) + [0x7f]) == TWO_255 - 256 + low
  {
    LargePower256s();
    LittleEndianOfOnes(30);
    LittleEndianOfOne(low);
    LittleEndianOfOne(0x7f);
    LittleEndianOfAppend([low], Repeat(0xff, 30));
    LittleEndianOfAppend([low] + Repeat(0xff, 30), [0x7f]);
    assert Power256(31) == 256 * Power256(30) && Power256(1) == 256;
  }

  // -------------------------------------------------------- point encodings

  /** The bytes without the sign bit: `value[31] & 0x7f`. */
  function Coordinate(value: Bytes): (r: Bytes)
    requires |value| >= PUBLIC_KEY_BYTE_LENGTH
    ensures |r| == PUBLIC_KEY_BYTE_LENGTH
  {
    value[..31] + [value[31] % 128]
  }

  predicate HasCanonicalPoint(value: Bytes) {
    |value| == PUBLIC_KEY_BYTE_LENGTH && LittleEndian(Coordinate(value)) < FIELD_ORDER
  }

  /** `hasCanonicalPointEncoding`, on a copy of the bytes. */
  method HasCanonicalPointEncoding(value: Bytes) returns (canonical: bool)
    requires IsBytes(value)
    ensures canonical <==> HasCanonicalPoint(value)
  {
    if |value| != PUBLIC_KEY_BYTE_LENGTH {
      return false;
    }
    var coordinate := new int[PUBLIC_KEY_BYTE_LENGTH](i requires 0 <= i < |value| => value[i]);
    coordinate[PUBLIC_KEY_BYTE_LENGTH - 1] := coordinate[PUBLIC_KEY_BYTE_LENGTH - 1] % 128;
    assert coordinate[..] == Coordinate(value);
    ModulusValue();
    canonical := IsLessThanLittleEndian(coordinate[..], FIELD_MODULUS);
  }

  predicate IsSmallOrder(value: Bytes) {
    |value| >= PUBLIC_KEY_BYTE_LENGTH && Coordinate(value) in SMALL_ORDER_POINTS
  }

  lemma PointsAre32Bytes()
    ensures |ORDER_FOUR_POINT| == 32 && |IDENTITY_POINT| == 32 && |ORDER_TWO_POINT| == 32
    ensures |ORDER_EIGHT_POINT| == 32 && |OTHER_ORDER_EIGHT_POINT| == 32
    ensures |ORDER_FOUR_RESPELLED| == 32 && |IDENTITY_RESPELLED| == 32
    ensures IsBytes(ORDER_FOUR_POINT) && IsBytes(IDENTITY_POINT) && IsBytes(ORDER_TWO_POINT)
    ensures IsBytes(ORDER_EIGHT_POINT) && IsBytes(OTHER_ORDER_EIGHT_POINT)
    ensures IsBytes(ORDER_FOUR_RESPELLED) && IsBytes(IDENTITY_RESPELLED)
  {
  }

  lemma TableIs32Bytes()
    ensures forall i :: 0 <= i < |SMALL_ORDER_POINTS| ==> |SMALL_ORDER_POINTS[i]| == 32
  {
    PointsAre32Bytes();
  }

  /** One candidate of the table, byte by byte; a missing byte fails. */
  method MatchesPoint(value: Bytes, point: Bytes) returns (matches: bool)
    requires IsBytes(value) && |point| == PUBLIC_KEY_BYTE_LENGTH
    ensures matches <==> |value| >= PUBLIC_KEY_BYTE_LENGTH && Coordinate(value) == point
  {
    for index := 0 to PUBLIC_KEY_BYTE_LENGTH
      invariant |value| >= PUBLIC_KEY_BYTE_LENGTH ==> Coordinate(value)[..index] == point[..index]
      invariant |value| >= index
    {
      if index >= |value| {
        return false;
      }
      var masked := if index == PUBLIC_KEY_BYTE_LENGTH - 1 then value[index] % 128 else value[index];
      if masked != point[index] {
        if |value| >= PUBLIC_KEY_BYTE_LENGTH { assert Coordinate(value)[index] == masked; }
        return false;
      }
    }
    assert Coordinate(value)[..32] == Coordinate(value) && point[..32] == point;
    return true;
  }

  /** `encodesSmallOrderPoint`. */
  method EncodesSmallOrderPoint(value: Bytes) returns (small: bool)
    requires IsBytes(value)
    ensures small <==> IsSmallOrder(value)
  {
    TableIs32Bytes();
    for i := 0 to |SMALL_ORDER_POINTS|
      invariant |value| >= PUBLIC_KEY_BYTE_LENGTH ==> Coordinate(value) !in SMALL_ORDER_POINTS[..i]
    {
      var matches := MatchesPoint(value, SMALL_ORDER_POINTS[i]);
      if matches {
        return true;
      }
    }
    return false;
  }

  predicate IsAcceptedPublicKey(value: Bytes) {
    HasCanonicalPoint(value) && !IsSmallOrder(value)
  }

  method HasAcceptedPublicKeyEncoding(value: Bytes) returns (accepted: bool)
    requires IsBytes(value)
    ensures accepted <==> IsAcceptedPublicKey(value)
  {
    accepted := HasCanonicalPointEncoding(value);
    if accepted {
      var small := EncodesSmallOrderPoint(value);
      accepted := !small;
    }
  }

  /** The y coordinate as written, and the sign bit. */
  function YOf(value: Bytes): int
    requires |value| == PUBLIC_KEY_BYTE_LENGTH
  {
    LittleEndian(value) % TWO_255
  }

  function SignOf(value: Bytes): int
    requires |value| == PUBLIC_KEY_BYTE_LENGTH
  {
    LittleEndian(value) / TWO_255
  }

  /** Masking the last byte takes the sign bit off the number. */
  lemma CoordinateValue(value: Bytes)
    requires IsBytes(value) && |value| == PUBLIC_KEY_BYTE_LENGTH
    ensures IsBytes(Coordinate(value)) && LittleEndian(Coordinate(value)) == YOf(value)
    ensures 0 <= YOf(value) < TWO_255 && LittleEndian(value) == YOf(value) + TWO_255 * SignOf(value)
  {
    var low, last := value[..31], value[31];
    LargePower256s();
    assert value == low + [last];
    LittleEndianOfAppend(low, [last]);
    LittleEndianOfAppend(low, [last % 128]);
    LittleEndianOfOne(last);
    LittleEndianOfOne(last % 128);
    LittleEndianBelow(low);
    QuotientAndRemainder(LittleEndian(value), LittleEndian(Coordinate(value)), last / 128);
  }

  lemma QuotientAndRemainder(n: int, r: int, q: int)
    requires n == r + TWO_255 * q && 0 <= r < TWO_255
    ensures n % TWO_255 == r && n / TWO_255 == q
  {
  }

  lemma ModulusValue()
    ensures IsBytes(FIELD_MODULUS) && |FIELD_MODULUS| == 32 && LittleEndian(FIELD_MODULUS) == FIELD_ORDER
  {
    LittleEndianNearTop(0xed);
  }

  lemma ScalarOrderBytes()
    ensures IsBytes(SCALAR_ORDER) && |SCALAR_ORDER| == 32
  {
  }

  lemma ScalarOrderValue()
    ensures LittleEndian(SCALAR_ORDER) == GROUP_ORDER
  {
    LittleEndianOf8(0xed, 0xd3, 0xf5, 0x5c, 0x1a, 0x63, 0x12, 0x58);
    LittleEndianOf8(0xd6, 0x9c, 0xf7, 0xa2, 0xde, 0xf9, 0xde, 0x14);
    LittleEndianOf8(0x00, 0x00, 0x00, 0x00, 0x00, 0x00, 0x00, 0x00);
    LittleEndianOf8(0x00, 0x00, 0x00, 0x00, 0x00, 0x00, 0x00, 0x10);
    LittleEndianOfWords([0xed, 0xd3, 0xf5, 0x5c, 0x1a, 0x63, 0x12, 0x58],
                        [0xd6, 0x9c, 0xf7, 0xa2, 0xde, 0xf9, 0xde, 0x14],
                        [0x00, 0x00, 0x00, 0x00, 0x00, 0x00, 0x00, 0x00],
                        [0x00, 0x00, 0x00, 0x00, 0x00, 0x00, 0x00, 0x10]);
  }

  // ---------------------------------------------------- small-order points

  /** The two y coordinates of the points of order eight. */
  const ORDER_EIGHT_Y: int := 0x5fc536d_880238b1_3933c6d3_05acdfd5_f098eff2_89f4c345_b027b2c2_8f95e826
  const OTHER_ORDER_EIGHT_Y: int := 0x7a03ac92_77fdc74e_c6cc392c_fa53202a_0f67100d_760b3cba_4fd84d3d_706a17c7

  lemma OrderEightValue()
    ensures LittleEndian(ORDER_EIGHT_POINT) == ORDER_EIGHT_Y
  {
    LittleEndianOf8(0x26, 0xe8, 0x95, 0x8f, 0xc2, 0xb2, 0x27, 0xb0);
    LittleEndianOf8(0x45, 0xc3, 0xf4, 0x89, 0xf2, 0xef, 0x98, 0xf0);
    LittleEndianOf8(0xd5, 0xdf, 0xac, 0x05, 0xd3, 0xc6, 0x33, 0x39);
    LittleEndianOf8(0xb1, 0x38, 0x02, 0x88, 0x6d, 0x53, 0xfc, 0x05);
    LittleEndianOfWords([0x26, 0xe8, 0x95, 0x8f, 0xc2, 0xb2, 0x27, 0xb0],
                        [0x45, 0xc3, 0xf4, 0x89, 0xf2, 0xef, 0x98, 0xf0],
                        [0xd5, 0xdf, 0xac, 0x05, 0xd3, 0xc6, 0x33, 0x39],
                        [0xb1, 0x38, 0x02, 0x88, 0x6d, 0x53, 0xfc, 0x05]);
  }

  lemma OtherOrderEightValue()
    ensures LittleEndian(OTHER_ORDER_EIGHT_POINT) == OTHER_ORDER_EIGHT_Y
  {
    LittleEndianOf8(0xc7, 0x17, 0x6a, 0x70, 0x3d, 0x4d, 0xd8, 0x4f);
    LittleEndianOf8(0xba, 0x3c, 0x0b, 0x76, 0x0d, 0x10, 0x67, 0x0f);
    LittleEndianOf8(0x2a, 0x20, 0x53, 0xfa, 0x2c, 0x39, 0xcc, 0xc6);
    LittleEndianOf8(0x4e, 0xc7, 0xfd, 0x77, 0x92, 0xac, 0x03, 0x7a);
    LittleEndianOfWords([0xc7, 0x17, 0x6a, 0x70, 0x3d, 0x4d, 0xd8, 0x4f],
                        [0xba, 0x3c, 0x0b, 0x76, 0x0d, 0x10, 0x67, 0x0f],
                        [0x2a, 0x20, 0x53, 0xfa, 0x2c, 0x39, 0xcc, 0xc6],
                        [0x4e, 0xc7, 0xfd, 0x77, 0x92, 0xac, 0x03, 0x7a]);
  }

  lemma SimpleValues()
    ensures LittleEndian(ORDER_FOUR_POINT) == 0 && LittleEndian(IDENTITY_POINT) == 1
    ensures LittleEndian(ORDER_TWO_POINT) == FIELD_ORDER - 1
    ensures LittleEndian(ORDER_FOUR_RESPELLED) == FIELD_ORDER && LittleEndian(IDENTITY_RESPELLED) == FIELD_ORDER + 1
  {
    LittleEndianOfZeros(32);
    LittleEndianOfZeros(31);
    LittleEndianOfOne(1);
    LittleEndianOfAppend([0x01], Repeat(0, 31));
    LittleEndianNearTop(0xec);
    LittleEndianNearTop(0xed);
    LittleEndianNearTop(0xee);
  }

  lemma SpellsPoint(value: Bytes, point: Bytes)
    requires IsBytes(value) && |value| == PUBLIC_KEY_BYTE_LENGTH && IsBytes(point) && |point| == 32
    ensures Coordinate(value) == point <==> YOf(value) == LittleEndian(point)
  {
    CoordinateValue(value);
    if YOf(value) == LittleEndian(point) { LittleEndianIsInjective(Coordinate(value), point); }
  }

  /** The table by its numbers. */
  lemma InTableIff(value: Bytes)
    requires IsBytes(value) && |value| == PUBLIC_KEY_BYTE_LENGTH
    ensures IsSmallOrder(value) <==>
      YOf(value) in {0, 1, ORDER_EIGHT_Y, OTHER_ORDER_EIGHT_Y, FIELD_ORDER - 1, FIELD_ORDER, FIELD_ORDER + 1}
  {
    PointsAre32Bytes();
    SimpleValues();
    OrderEightValue();
    OtherOrderEightValue();
    SpellsPoint(value, ORDER_FOUR_POINT);
    SpellsPoint(value, IDENTITY_POINT);
    SpellsPoint(value, ORDER_EIGHT_POINT);
    SpellsPoint(value, OTHER_ORDER_EIGHT_POINT);
    SpellsPoint(value, ORDER_TWO_POINT);
    SpellsPoint(value, ORDER_FOUR_RESPELLED);
    SpellsPoint(value, IDENTITY_RESPELLED);
  }

  /** The last two entries of the table are never reached: the canonical check has rejected them. */
  lemma LastEntriesAreUnreachable(value: Bytes)
    requires IsBytes(value) && HasCanonicalPoint(value)
    ensures Coordinate(value) != ORDER_FOUR_RESPELLED && Coordinate(value) != IDENTITY_RESPELLED
  {
    SimpleValues();
  }

  /**
   * A public key is accepted exactly when it is 32 bytes, its y is below 2^255 - 19 and y is none of
   * 0, 1, -1 and the two coordinates of order eight.
   */
  lemma AcceptedIff(value: Bytes)
    requires IsBytes(value)
    ensures IsAcceptedPublicKey(value) <==>
      |value| == PUBLIC_KEY_BYTE_LENGTH && YOf(value) < FIELD_ORDER
      && YOf(value) !in {0, 1, ORDER_EIGHT_Y, OTHER_ORDER_EIGHT_Y, FIELD_ORDER - 1}
  {
    if |value| == PUBLIC_KEY_BYTE_LENGTH {
      CoordinateValue(value);
      InTableIff(value);
    }
  }

  /**
   * The doubling of a point of order eight has y = 0: on the curve of section 5.1 of RFC 8032 that is
   * -121665 y^4 + 121666 (2 y^2 - 1) = 0 modulo the field order. Both table entries solve it, and they
   * are each other's negation.
   */
  lemma OrderEightEquation()
    ensures ORDER_EIGHT_Y + OTHER_ORDER_EIGHT_Y == FIELD_ORDER
    ensures var y := ORDER_EIGHT_Y; (121666 * (2 * y * y - 1) - 121665 * (y * y) * (y * y)) % FIELD_ORDER == 0
  {
  }

  // ------------------------------------------------- one encoding per value

  lemma SmallRemainder(n: int, m: int)
    requires 0 <= n < m
    ensures n % m == n
  {
  }

  /**
   * Each field element and sign has one accepted spelling: two canonical encodings whose y coordinates
   * are congruent and whose signs are equal are the same bytes.
   */
  lemma OneEncodingPerElement(v: Bytes, w: Bytes)
    requires IsBytes(v) && IsBytes(w) && HasCanonicalPoint(v) && HasCanonicalPoint(w)
    requires YOf(v) % FIELD_ORDER == YOf(w) % FIELD_ORDER && SignOf(v) == SignOf(w)
    ensures v == w
  {
    CoordinateValue(v);
    CoordinateValue(w);
    SmallRemainder(YOf(v), FIELD_ORDER);
    SmallRemainder(YOf(w), FIELD_ORDER);
    LittleEndianIsInjective(v, w);
  }

  function SpellLittleEndian(n: nat, length: nat): Bytes {
    if length == 0 then [] else [n % 256] + SpellLittleEndian(n / 256, length - 1)
  }

  lemma {:induction false} SpellingValue(n: nat, length: nat)
    requires n < Power256(length)
    ensures var b := SpellLittleEndian(n, length); IsBytes(b) && |b| == length && LittleEndian(b) == n
  {
    if length > 0 { SpellingValue(n / 256, length - 1); }
  }

  /** And every field element has one, under either sign. */
  lemma EveryElementIsEncoded(y: nat, sign: nat) returns (value: Bytes)
    requires y < FIELD_ORDER && sign <= 1
    ensures IsBytes(value) && HasCanonicalPoint(value) && YOf(value) == y && SignOf(value) == sign
  {
    LargePower256s();
    value := SpellLittleEndian(y + TWO_255 * sign, 32);
    SpellingValue(y + TWO_255 * sign, 32);
    QuotientAndRemainder(LittleEndian(value), y, sign);
    CoordinateValue(value);
  }

  /** `decodeAcceptedPublicKey`. */
  function DecodeAcceptedPublicKey(x: Text): Option<Bytes> {
    match DecodeCanonicalBase64Url(x)
    case None => None
    case Some(bytes) => if IsAcceptedPublicKey(bytes) then Some(bytes) else None
  }

  /** A key text is accepted exactly when it is the base64url of 32 bytes with an accepted y. */
  lemma KeyTextAcceptedIff(x: Text, bytes: Bytes)
    ensures DecodeAcceptedPublicKey(x) == Some(bytes) <==>
      && IsBytes(bytes) && |bytes| == 32 && x == EncodeBase64Url(bytes)
      && YOf(bytes) < FIELD_ORDER && YOf(bytes) !in {0, 1, ORDER_EIGHT_Y, OTHER_ORDER_EIGHT_Y, FIELD_ORDER - 1}
  {
    CanonicalIffEncoding(x, bytes);
    if IsBytes(bytes) { AcceptedIff(bytes); }
  }

  /** The text of a key has one spelling too: equal element and sign mean equal text. */
  lemma OneKeyText(x: Text, z: Text)
    requires DecodeAcceptedPublicKey(x).Some? && DecodeAcceptedPublicKey(z).Some?
    ensures var (v, w) := (DecodeAcceptedPublicKey(x).value, DecodeAcceptedPublicKey(z).value);
      x == z <==> YOf(v) % FIELD_ORDER == YOf(w) % FIELD_ORDER && SignOf(v) == SignOf(w)
  {
    var v, w := DecodeAcceptedPublicKey(x).value, DecodeAcceptedPublicKey(z).value;
    CanonicalIffEncoding(x, v);
    CanonicalIffEncoding(z, w);
    if YOf(v) % FIELD_ORDER == YOf(w) % FIELD_ORDER && SignOf(v) == SignOf(w) { OneEncodingPerElement(v, w); }
  }

  // ------------------------------------------------------------ signatures

  predicate HasCanonicalSignature(signature: Bytes) {
    |signature| == SIGNATURE_BYTE_LENGTH && HasCanonicalPoint(signature[..32])
    && LittleEndian(signature[32..]) < GROUP_ORDER
  }

  /** `hasCanonicalEd25519SignatureEncoding`. */
  method HasCanonicalEd25519SignatureEncoding(signature: Bytes) returns (canonical: bool)
    requires IsBytes(signature)
    ensures canonical <==> HasCanonicalSignature(signature)
  {
    if |signature| != SIGNATURE_BYTE_LENGTH {
      return false;
    }
    ScalarOrderValue();
    ScalarOrderBytes();
    canonical := HasCanonicalPointEncoding(signature[..PUBLIC_KEY_BYTE_LENGTH]);
    if canonical {
      canonical := IsLessThanLittleEndian(signature[PUBLIC_KEY_BYTE_LENGTH..], SCALAR_ORDER);
    }
  }

  /** Exactly the signatures of 64 bytes with y(R) < 2^255 - 19 and S below the group order are accepted. */
  lemma SignatureAcceptedIff(signature: Bytes)
    requires IsBytes(signature)
    ensures HasCanonicalSignature(signature) <==>
      |signature| == SIGNATURE_BYTE_LENGTH && YOf(signature[..32]) < FIELD_ORDER
        && LittleEndian(signature[32..]) < GROUP_ORDER
  {
    if |signature| == SIGNATURE_BYTE_LENGTH { CoordinateValue(signature[..32]); }
  }

  /** With the same y, sign bit and scalar modulo the group order, two accepted signatures are the same bytes. */
  lemma SignatureHasOneSpelling(s: Bytes, t: Bytes)
    requires IsBytes(s) && IsBytes(t) && HasCanonicalSignature(s) && HasCanonicalSignature(t)
    requires YOf(s[..32]) % FIELD_ORDER == YOf(t[..32]) % FIELD_ORDER && SignOf(s[..32]) == SignOf(t[..32])
    requires LittleEndian(s[32..]) % GROUP_ORDER == LittleEndian(t[32..]) % GROUP_ORDER
    ensures s == t
  {
    LittleEndianBelow(s[32..]);
    LittleEndianBelow(t[32..]);
    SmallRemainder(LittleEndian(s[32..]), GROUP_ORDER);
    SmallRemainder(LittleEndian(t[32..]), GROUP_ORDER);
    OneEncodingPerElement(s[..32], t[..32]);
    LittleEndianIsInjective(s[32..], t[32..]);
    assert s == s[..32] + s[32..] && t == t[..32] + t[32..];
  }

  // ------------------------------------------------- one spelling per point

  /** The curve of section 5.1 of RFC 8032, its d written as -121665/121666. */
  predicate OnCurve(x: nat, y: nat) {
    x < FIELD_ORDER && y < FIELD_ORDER
    && (121666 * (y * y - x * x - 1) + 121665 * ((x * x) * (y * y))) % FIELD_ORDER == 0
  }

  /** The encoding names the point: it has its y, and the sign bit tells x from its negation unless x is 0. */
  predicate Names(value: Bytes, x: nat, y: nat)
    requires |value| == PUBLIC_KEY_BYTE_LENGTH
  {
    OnCurve(x, y) && YOf(value) % FIELD_ORDER == y && (x == 0 || SignOf(value) == x % 2)
  }

  /**
   * Two accepted signatures of one point and one scalar modulo the group order are the same bytes,
   * except exactly when x is 0 and the sign bits differ: no check looks at the sign bit.
   */
  lemma SignatureSpellingsIff(s: Bytes, t: Bytes, x: nat, y: nat)
    requires IsBytes(s) && IsBytes(t) && HasCanonicalSignature(s) && HasCanonicalSignature(t)
    requires Names(s[..32], x, y) && Names(t[..32], x, y)
    requires LittleEndian(s[32..]) % GROUP_ORDER == LittleEndian(t[32..]) % GROUP_ORDER
    ensures s == t <==> x != 0 || SignOf(s[..32]) == SignOf(t[..32])
  {
    if x != 0 || SignOf(s[..32]) == SignOf(t[..32]) { SignatureHasOneSpelling(s, t); }
  }

  /** For either y and every scalar there is such a pair: one point and scalar under two accepted signatures. */
  lemma SignatureSpelledTwice(y: nat, scalar: Bytes) returns (s: Bytes, t: Bytes)
    requires y == 1 || y == FIELD_ORDER - 1
    requires IsBytes(scalar) && |scalar| == 32 && LittleEndian(scalar) < GROUP_ORDER
    ensures IsBytes(s) && IsBytes(t) && HasCanonicalSignature(s) && HasCanonicalSignature(t)
    ensures Names(s[..32], 0, y) && Names(t[..32], 0, y) && s[32..] == scalar == t[32..]
    ensures SignOf(s[..32]) != SignOf(t[..32]) && s != t
  {
    var plain := EveryElementIsEncoded(y, 0);
    var signed := EveryElementIsEncoded(y, 1);
    SmallRemainder(y, FIELD_ORDER);
    PointWithoutX(y);
    s, t := plain + scalar, signed + scalar;
    assert s[..32] == plain && s[32..] == scalar && t[..32] == signed && t[32..] == scalar;
  }

  lemma PointWithoutX(y: nat)
    requires y == 1 || y == FIELD_ORDER - 1
    ensures OnCurve(0, y)
  {
  }

  ghost predicate NoZeroProduct(a: int, b: int) {
    (a * b) % FIELD_ORDER == 0 ==> a % FIELD_ORDER == 0 || b % FIELD_ORDER == 0
  }

  /** The field order is prime, as section 5.1 of RFC 8032 has it. */
  ghost predicate FieldOrderIsPrime() {
    forall a, b :: NoZeroProduct(a, b)
  }

  /** So the points with two names are the two with y = 1 and y = -1. */
  lemma ZeroXIff(x: nat, y: nat)
    requires FieldOrderIsPrime() && OnCurve(x, y)
    ensures x == 0 <==> y == 1 || y == FIELD_ORDER - 1
  {
    if x == 0 {
      assert NoZeroProduct(121666, y * y - 1);
      assert (y - 1) * (y + 1) == y * y - 1;
      assert NoZeroProduct(y - 1, y + 1);
    }
    if y == 1 || y == FIELD_ORDER - 1 {
      SquareOfUnit(x, y);
      assert NoZeroProduct(x, x);
    }
  }

  lemma SquareOfUnit(x: nat, y: nat)
    requires OnCurve(x, y) && (y == 1 || y == FIELD_ORDER - 1)
    ensures (x * x) % FIELD_ORDER == 0
  {
    var m := if y == 1 then 0 else FIELD_ORDER - 2;
    assert y * y == 1 + m * FIELD_ORDER;
    Cancelled(x * x, m, (x * x) * (y * y));
  }

  lemma Cancelled(square: int, m: int, product: int)
    requires product == square * (1 + m * FIELD_ORDER)
    requires (121666 * (m * FIELD_ORDER - square) + 121665 * product) % FIELD_ORDER == 0
    ensures square % FIELD_ORDER == 0
  {
    var mixed := square * m;
    assert product == square + mixed * FIELD_ORDER;
    Remainder(square, 121666 * m + 121665 * mixed);
  }

  lemma Remainder(square: int, multiple: int)
    requires (multiple * FIELD_ORDER - square) % FIELD_ORDER == 0
    ensures square % FIELD_ORDER == 0
  {
  }

  /** An accepted key is the only accepted spelling of its point: the ones with two names are refused. */
  lemma AcceptedKeyIsSpelledOnce(v: Bytes, w: Bytes, x: nat, y: nat)
    requires IsBytes(v) && IsBytes(w) && IsAcceptedPublicKey(v) && IsAcceptedPublicKey(w)
    requires FieldOrderIsPrime() && Names(v, x, y) && Names(w, x, y)
    ensures v == w
  {
    AcceptedIff(v);
    SmallRemainder(YOf(v), FIELD_ORDER);
    ZeroXIff(x, y);
    OneEncodingPerElement(v, w);
  }
}
