/**
 * `sealedByteLength` and `maximumPlaintextByteLength` of packages/identity/src/sealed-body.ts: the
 * size formula is the length of the encoded body, also when the arithmetic is rounded.
 */
module SealedSizes {
  import opened Wrappers
  import opened ByteStrings
  import opened Utf8
  import opened Json
  import opened CanonicalJson
  import opened JsonSizes
  import opened Identifiers
  import opened SealedFormat

  // ------------------------------------------- the sizes of sample bodies

  const NO_NUMBERS: NumberFormat<int> := NumberFormat(t => 0, n => [], n => false, n => false)

  function Sample(byteLength: nat): Text {
    EncodeBase64Url(seq(byteLength, _ => 0))
  }

  /** `new TextEncoder().encode(JSON.stringify(value)).byteLength`. */
  function StringifiedLength(v: Value): nat {
    |Encode(Print(NO_NUMBERS, v))|
  }

  function SampleRepresentation(header: Value, recipients: seq<Value>): Value {
    EncodedIsBytes(Print(NO_NUMBERS, header));
    Representation([], Sample(IV_BYTES), EncodeBase64Url(Encode(Print(NO_NUMBERS, header))), recipients,
                   Sample(TAG_BYTES))
  }

  function SampleHeader(epk: Option<Text>): Value {
    ProtectedHeader(Sample(COMMITMENT_BYTES), Ascii("msg_") + Sample(16), Ascii("agt_") + Sample(16), epk)
  }

  datatype Sizes = Sizes(single: int, multiple: int, recipient: int)

  /** `sealedRepresentationSizes`: one recipient, no recipient less its missing comma, and an entry with its comma. */
  function SealedRepresentationSizes(): Sizes {
    var key, epk := Sample(WRAPPED_KEY_BYTES), Some(Sample(X25519_PUBLIC_KEY_BYTES));
    Sizes(
      StringifiedLength(SampleRepresentation(SampleHeader(epk), [RecipientEntry(key, None)])),
      StringifiedLength(SampleRepresentation(SampleHeader(None), [])) - 1,
      StringifiedLength(RecipientEntry(key, epk)) + 1)
  }

  function FixedByteLength(sizes: Sizes, recipientCount: int): int {
    if recipientCount == 1 then sizes.single else sizes.multiple + sizes.recipient * recipientCount
  }

  // ----------------------------------------------- sizes of real bodies

  lemma SampleIsPlain(byteLength: nat)
    ensures IsPlainText(Sample(byteLength)) && |Sample(byteLength)| == Base64UrlLength(byteLength)
  {
    EncodedIsPlain(seq(byteLength, _ => 0));
  }

  lemma IdentifierText(s: Text, prefix: Text)
    requires IsIdentifier(s, prefix, 16) && IsPlainText(prefix) && |prefix| == 4
    ensures IsPlainText(s) && |s| == 26
  {
    IdentifierIffEncoded(s, prefix, 16);
    var b :| IsBytes(b) && |b| == 16 && s == prefix + EncodeBase64Url(b);
    EncodedIsPlain(b);
  }

  lemma PrefixesArePlain()
    ensures IsPlainText(Ascii("msg_")) && IsPlainText(Ascii("agt_"))
  {
  }

  /** The text of a header is base64url of its length, whatever its members are. */
  lemma ProtectedLength(f: NumberFormat<int>, header: Value)
    requires IsPlain(header)
    ensures IsBytes(Encode(Print(f, header)))
    ensures var t := EncodeBase64Url(Encode(Print(f, header)));
      IsPlainText(t) && |t| == Base64UrlLength(Length(header))
  {
    EncodedLengths(f, header);
    EncodedIsBytes(Print(f, header));
    EncodedIsPlain(Encode(Print(f, header)));
  }

  lemma SampleHeaderLength(epk: Option<Text>)
    requires epk.Some? ==> IsPlainText(epk.value) && |epk.value| == 43
    ensures IsPlain(SampleHeader(epk)) && Length(SampleHeader(epk)) == if epk.None? then 236 else 321
  {
    PrefixesArePlain();
    SampleIsPlain(COMMITMENT_BYTES);
    SampleIsPlain(16);
    HeaderLength(Sample(COMMITMENT_BYTES), Ascii("msg_") + Sample(16), Ascii("agt_") + Sample(16), epk);
  }

  lemma SampleRepresentationLength(header: Value, recipients: seq<Value>)
    requires IsPlain(header) && PlainItems(recipients)
    ensures StringifiedLength(SampleRepresentation(header, recipients)) ==
      103 + Base64UrlLength(Length(header)) + (if recipients == [] then 0 else ItemsWidth(recipients) - 1)
  {
    SampleIsPlain(IV_BYTES);
    SampleIsPlain(TAG_BYTES);
    ProtectedLength(NO_NUMBERS, header);
    RepresentationLength([], Sample(IV_BYTES), EncodeBase64Url(Encode(Print(NO_NUMBERS, header))), recipients,
                         Sample(TAG_BYTES));
    EncodedLengths(NO_NUMBERS, SampleRepresentation(header, recipients));
  }

  lemma SampleSingle()
    ensures SealedRepresentationSizes().single == 605
  {
    SampleIsPlain(WRAPPED_KEY_BYTES);
    SampleIsPlain(X25519_PUBLIC_KEY_BYTES);
    var epk := Some(Sample(X25519_PUBLIC_KEY_BYTES));
    SampleHeaderLength(epk);
    EntryLength(Sample(WRAPPED_KEY_BYTES), None);
    OneItem(RecipientEntry(Sample(WRAPPED_KEY_BYTES), None));
    SampleRepresentationLength(SampleHeader(epk), [RecipientEntry(Sample(WRAPPED_KEY_BYTES), None)]);
  }

  lemma SampleMultiple()
    ensures SealedRepresentationSizes().multiple == 417
  {
    SampleHeaderLength(None);
    var header := SampleHeader(None);
    SampleRepresentationLength(header, []);
    assert Base64UrlLength(236) == 315;
  }

  lemma SampleEntry()
    ensures SealedRepresentationSizes().recipient == 171
  {
    SampleIsPlain(WRAPPED_KEY_BYTES);
    SampleIsPlain(X25519_PUBLIC_KEY_BYTES);
    EntryLength(Sample(WRAPPED_KEY_BYTES), Some(Sample(X25519_PUBLIC_KEY_BYTES)));
    EncodedLengths(NO_NUMBERS, RecipientEntry(Sample(WRAPPED_KEY_BYTES), Some(Sample(X25519_PUBLIC_KEY_BYTES))));
  }

  lemma SampleSizes()
    ensures SealedRepresentationSizes() == Sizes(605, 417, 171)
  {
    SampleSingle();
    SampleMultiple();
    SampleEntry();
  }

  lemma OneItem(v: Value)
    ensures ItemsWidth([v]) == Length(v) + 1 && (PlainItems([v]) <==> IsPlain(v))
  {
    assert [v][1..] == [];
  }

  lemma {:induction false} EntriesWidth(keys: seq<RecipientKey>)
    requires AreKeys(keys)
    ensures PlainItems(Entries(keys)) && ItemsWidth(Entries(keys)) == 171 * |keys|
  {
    if keys != [] {
      EntriesWidth(keys[1..]);
      EncodedIsPlain(keys[0].wrapped);
      EncodedIsPlain(keys[0].ephemeral);
      EntryLength(EncodeBase64Url(keys[0].wrapped), Some(EncodeBase64Url(keys[0].ephemeral)));
      assert Entries(keys)[1..] == Entries(keys[1..]);
    }
  }

  lemma TextsOfParts(p: SealedParts, plaintextLength: nat)
    requires IsSealed(p, plaintextLength)
    ensures IsPlainText(p.commitment) && |p.commitment| == 43
    ensures IsPlainText(p.messageId) && |p.messageId| == 26 && IsPlainText(p.sender) && |p.sender| == 26
  {
    var digest :| IsBytes(digest) && |digest| == COMMITMENT_BYTES && p.commitment == EncodeBase64Url(digest);
    EncodedIsPlain(digest);
    PrefixesArePlain();
    IdentifierText(p.messageId, Ascii("msg_"));
    IdentifierText(p.sender, Ascii("agt_"));
  }

  /** The body around a header and its recipient entries. */
  lemma BodyLength(f: NumberFormat<int>, p: SealedParts, plaintextLength: nat, header: Value, recipients: seq<Value>)
    requires IsSealed(p, plaintextLength) && IsPlain(header) && PlainItems(recipients) && recipients != []
    requires IsBytes(Encode(Print(f, header)))
    ensures var v := Representation(EncodeBase64Url(p.ciphertext), EncodeBase64Url(p.iv),
                                    EncodeBase64Url(Encode(Print(f, header))), recipients, EncodeBase64Url(p.tag));
      IsPlain(v) && Length(v) ==
        102 + Base64UrlLength(plaintextLength + SALT_BYTES) + Base64UrlLength(Length(header)) + ItemsWidth(recipients)
  {
    EncodedIsPlain(p.iv);
    EncodedIsPlain(p.tag);
    EncodedIsPlain(p.ciphertext);
    ProtectedLength(f, header);
    RepresentationLength(EncodeBase64Url(p.ciphertext), EncodeBase64Url(p.iv),
                         EncodeBase64Url(Encode(Print(f, header))), recipients, EncodeBase64Url(p.tag));
  }

  lemma SingleLength(f: NumberFormat<int>, p: SealedParts, plaintextLength: nat)
    requires IsSealed(p, plaintextLength) && |p.keys| == 1
    ensures var v := SealedBodyJson(f, p, plaintextLength);
      IsPlain(v) && Length(v) == Base64UrlLength(plaintextLength + SALT_BYTES) + 605
  {
    TextsOfParts(p, plaintextLength);
    EncodedIsPlain(p.keys[0].wrapped);
    EncodedIsPlain(p.keys[0].ephemeral);
    var epk := Some(EncodeBase64Url(p.keys[0].ephemeral));
    var entry := RecipientEntry(EncodeBase64Url(p.keys[0].wrapped), None);
    HeaderLength(p.commitment, p.messageId, p.sender, epk);
    EntryLength(EncodeBase64Url(p.keys[0].wrapped), None);
    OneItem(entry);
    var header := ProtectedHeader(p.commitment, p.messageId, p.sender, epk);
    EncodedIsBytes(Print(f, header));
    BodyLength(f, p, plaintextLength, header, [entry]);
  }

  lemma MultipleLength(f: NumberFormat<int>, p: SealedParts, plaintextLength: nat)
    requires IsSealed(p, plaintextLength) && |p.keys| != 1
    ensures var v := SealedBodyJson(f, p, plaintextLength);
      IsPlain(v) && Length(v) == Base64UrlLength(plaintextLength + SALT_BYTES) + 417 + 171 * |p.keys|
  {
    TextsOfParts(p, plaintextLength);
    HeaderLength(p.commitment, p.messageId, p.sender, None);
    EntriesWidth(p.keys);
    var header := ProtectedHeader(p.commitment, p.messageId, p.sender, None);
    EncodedIsBytes(Print(f, header));
    BodyLength(f, p, plaintextLength, header, Entries(p.keys));
  }

  /** The formula is the length of the canonical JSON, for every plaintext and every recipient count. */
  lemma SealedLength(f: NumberFormat<int>, p: SealedParts, plaintextLength: nat)
    requires IsSealed(p, plaintextLength)
    ensures |CanonicalBytes(f, SealedBodyJson(f, p, plaintextLength))| ==
      Base64UrlLength(plaintextLength + SALT_BYTES) + FixedByteLength(SealedRepresentationSizes(), |p.keys|)
  {
    SampleSizes();
    if |p.keys| == 1 {
      SingleLength(f, p, plaintextLength);
    } else {
      MultipleLength(f, p, plaintextLength);
    }
    EncodedLengths(f, SealedBodyJson(f, p, plaintextLength));
  }

  // ------------------------------------------------- rounded arithmetic

  const TWO_53: int := 0x20_0000_0000_0000
  const MAX_SAFE_INTEGER: int := TWO_53 - 1

  predicate IsInteger(x: real) { x == x.Floor as real }

  predicate RoundsUpward(rnd: real -> real, x: real, y: real) {
    x <= y ==> rnd(x) <= rnd(y)
  }

  predicate RoundsToItself(rnd: real -> real, x: real) {
    IsInteger(x) && -(TWO_53 as real) <= x <= TWO_53 as real ==> rnd(x) == x
  }

  /** What IEEE 754 rounding keeps: order, and every integer up to 2^53. */
  ghost predicate IsRounding(rnd: real -> real) {
    (forall x, y :: RoundsUpward(rnd, x, y)) && (forall x :: RoundsToItself(rnd, x))
  }

  predicate IsSafeInteger(x: real) {
    IsInteger(x) && -(MAX_SAFE_INTEGER as real) <= x <= MAX_SAFE_INTEGER as real
  }

  predicate IsRecipientCount(recipientCount: real) {
    IsInteger(recipientCount) && 1.0 <= recipientCount <= MAXIMUM_RECIPIENTS as real
  }

  /** `base64UrlLength`, every operation rounded; the remainder operator is exact. */
  function RoundedBase64UrlLength(rnd: real -> real, byteLength: real): real {
    var remainder := byteLength.Floor % 3;
    var thirds := rnd(rnd(byteLength - remainder as real) / 3.0);
    rnd(rnd(byteLength + thirds) + if remainder == 0 then 0.0 else 1.0)
  }

  function SealedByteLength(rnd: real -> real, sizes: Sizes, plaintextByteLength: real,
                            recipientCount: real): Option<real> {
    if !IsRecipientCount(recipientCount) || !IsSafeInteger(plaintextByteLength) || plaintextByteLength < 0.0 then None
    else
      var byteLength := rnd(RoundedBase64UrlLength(rnd, rnd(plaintextByteLength + SALT_BYTES as real))
        + FixedByteLength(sizes, recipientCount.Floor) as real);
      if IsSafeInteger(byteLength) then Some(byteLength) else None
  }

  function MaximumPlaintextByteLength(sizes: Sizes, recipientCount: real): Option<int> {
    if !IsRecipientCount(recipientCount) then None
    else
      var ciphertextBudget := MAXIMUM_BODY_BYTES - FixedByteLength(sizes, recipientCount.Floor);
      Some(3 * ciphertextBudget / 4 - SALT_BYTES)
  }

  lemma RoundsExactly(rnd: real -> real, i: int)
    requires IsRounding(rnd) && -TWO_53 <= i <= TWO_53
    ensures rnd(i as real) == i as real
  {
    assert RoundsToItself(rnd, i as real);
  }

  lemma RoundsInOrder(rnd: real -> real, x: real, y: real)
    requires IsRounding(rnd) && x <= y
    ensures rnd(x) <= rnd(y)
  {
    assert RoundsUpward(rnd, x, y);
  }

  /** A sum of non-negative integers is exact while it is at most 2^53, and stays at least 2^53 after. */
  ghost predicate Agrees(value: real, exact: int) {
    (0 <= exact <= TWO_53 && value == exact as real) || (exact >= TWO_53 && value >= TWO_53 as real)
  }

  lemma SumAgrees(rnd: real -> real, value: real, exact: int, more: real, exactMore: int)
    requires IsRounding(rnd) && Agrees(value, exact) && exactMore >= 0 && more >= 0.0
    requires exact < TWO_53 ==> more == exactMore as real
    ensures Agrees(rnd(value + more), exact + exactMore)
  {
    if exact + exactMore <= TWO_53 && exact < TWO_53 {
      RoundsExactly(rnd, exact + exactMore);
      assert value + more == (exact + exactMore) as real;
    } else {
      RoundsExactly(rnd, TWO_53);
      RoundsInOrder(rnd, TWO_53 as real, value + more);
    }
  }

  lemma ThirdsAgree(rnd: real -> real, n: real, exact: int)
    requires IsRounding(rnd) && Agrees(n, exact) && exact >= 0
    ensures var remainder := n.Floor % 3;
      var thirds := rnd(rnd(n - remainder as real) / 3.0);
      thirds >= 0.0 && (exact < TWO_53 ==> remainder == exact % 3 && thirds == (exact / 3) as real)
  {
    var remainder := n.Floor % 3;
    if exact < TWO_53 {
      assert n.Floor == exact;
      RoundsExactly(rnd, exact - remainder);
      assert n - remainder as real == (exact - remainder) as real;
      ThirdIsInteger(exact);
      RoundsExactly(rnd, exact / 3);
    } else {
      RoundsExactly(rnd, 0);
      RoundsInOrder(rnd, 0.0, n - remainder as real);
      RoundsInOrder(rnd, 0.0, rnd(n - remainder as real) / 3.0);
    }
  }

  lemma ThirdIsInteger(n: int)
    ensures (n - n % 3) as real / 3.0 == (n / 3) as real
  {
    assert n - n % 3 == 3 * (n / 3);
  }

  lemma Base64Agrees(rnd: real -> real, n: real, exact: nat)
    requires IsRounding(rnd) && Agrees(n, exact)
    ensures Agrees(RoundedBase64UrlLength(rnd, n), Base64UrlLength(exact))
  {
    ThirdsAgree(rnd, n, exact);
    var remainder := n.Floor % 3;
    var thirds := rnd(rnd(n - remainder as real) / 3.0);
    var (more, exactMore) := (if remainder == 0 then 0.0 else 1.0, if exact % 3 == 0 then 0 else 1);
    SumAgrees(rnd, n, exact, thirds, exact / 3);
    SumAgrees(rnd, rnd(n + thirds), exact + exact / 3, more, exactMore);
    assert Base64UrlLength(exact) == exact + exact / 3 + exactMore;
  }

  lemma SafeAgrees(value: real, exact: int)
    requires Agrees(value, exact)
    ensures IsSafeInteger(value) <==> exact <= MAX_SAFE_INTEGER
    ensures exact <= MAX_SAFE_INTEGER ==> value == exact as real
  {
    if exact <= MAX_SAFE_INTEGER { assert value.Floor == exact; }
  }

  lemma SaltedAgrees(rnd: real -> real, n: nat)
    requires IsRounding(rnd) && n <= MAX_SAFE_INTEGER
    ensures Agrees(rnd(n as real + SALT_BYTES as real), n + SALT_BYTES)
  {
    SumAgrees(rnd, n as real, n, SALT_BYTES as real, SALT_BYTES);
  }

  /** The rounded formula is the unrounded one, up to the largest safe integer. */
  lemma RoundedFormula(rnd: real -> real, sizes: Sizes, n: nat, k: nat)
    requires IsRounding(rnd) && n <= MAX_SAFE_INTEGER && 1 <= k <= MAXIMUM_RECIPIENTS
    requires FixedByteLength(sizes, k) >= 0
    ensures var exact := Base64UrlLength(n + SALT_BYTES) + FixedByteLength(sizes, k);
      SealedByteLength(rnd, sizes, n as real, k as real) == if exact <= MAX_SAFE_INTEGER then Some(exact as real)
        else None
  {
    assert (k as real).Floor == k && (n as real).Floor == n;
    var fixed := FixedByteLength(sizes, k);
    SaltedAgrees(rnd, n);
    var salted := rnd(n as real + SALT_BYTES as real);
    Base64Agrees(rnd, salted, n + SALT_BYTES);
    SumAgrees(rnd, RoundedBase64UrlLength(rnd, salted), Base64UrlLength(n + SALT_BYTES), fixed as real, fixed);
    SafeAgrees(rnd(RoundedBase64UrlLength(rnd, salted) + fixed as real), Base64UrlLength(n + SALT_BYTES) + fixed);
  }

  lemma ExactOfSizes(rnd: real -> real, sizes: Sizes, n: nat, k: nat, exact: int)
    requires IsRounding(rnd) && n <= MAX_SAFE_INTEGER && 1 <= k <= MAXIMUM_RECIPIENTS
    requires sizes == Sizes(605, 417, 171)
    requires exact == Base64UrlLength(n + SALT_BYTES) + FixedByteLength(sizes, k)
    ensures SealedByteLength(rnd, sizes, n as real, k as real) == if exact <= MAX_SAFE_INTEGER then Some(exact as real)
      else None
  {
    RoundedFormula(rnd, Sizes(605, 417, 171), n, k);
  }

  /**
   * For a plaintext length and recipient count that are in range, the function returns the exact
   * length of the sealed body, and none exactly when that length is above 2^53 - 1, whatever rounding does.
   */
  lemma SealedByteLengthIsExact(f: NumberFormat<int>, rnd: real -> real, p: SealedParts, plaintextLength: nat)
    requires IsRounding(rnd) && IsSealed(p, plaintextLength) && plaintextLength <= MAX_SAFE_INTEGER
    ensures var exact := |CanonicalBytes(f, SealedBodyJson(f, p, plaintextLength))|;
      SealedByteLength(rnd, SealedRepresentationSizes(), plaintextLength as real, |p.keys| as real) ==
        if exact <= MAX_SAFE_INTEGER then Some(exact as real) else None
  {
    SealedLength(f, p, plaintextLength);
    SampleSizes();
    ExactOfSizes(rnd, SealedRepresentationSizes(), plaintextLength, |p.keys|,
                 |CanonicalBytes(f, SealedBodyJson(f, p, plaintextLength))|);
  }

  /** Arithmetic that never rounds keeps what rounding keeps. */
  lemma ExactIsRounding()
    ensures IsRounding(x => x)
  {
  }

  /** The unrounded length, where there is one. */
  function ExactLength(sizes: Sizes, plaintextByteLength: real, recipientCount: real): Option<real> {
    if !IsInteger(plaintextByteLength) || plaintextByteLength < 0.0 || !IsRecipientCount(recipientCount) then None
    else
      var exact := Base64UrlLength(plaintextByteLength.Floor + SALT_BYTES)
        + FixedByteLength(sizes, recipientCount.Floor);
      if exact <= MAX_SAFE_INTEGER then Some(exact as real) else None
  }

  lemma RoundedIsExact(rnd: real -> real, sizes: Sizes, n: real, k: real)
    requires IsRounding(rnd) && sizes == Sizes(605, 417, 171)
    ensures SealedByteLength(rnd, sizes, n, k) == ExactLength(sizes, n, k)
  {
    if IsSafeInteger(n) && n >= 0.0 && IsRecipientCount(k) {
      assert n.Floor as real == n && k.Floor as real == k;
      ExactOfSizes(rnd, sizes, n.Floor, k.Floor,
                   Base64UrlLength(n.Floor + SALT_BYTES) + FixedByteLength(sizes, k.Floor));
    } else if IsInteger(n) && n > MAX_SAFE_INTEGER as real {
      assert n.Floor > MAX_SAFE_INTEGER;
    }
  }

  /**
   * On all numbers: there is a length exactly for a count from 1 to 128, a whole plaintext length that is
   * not negative, and a sum that is at most 2^53 - 1, and then it is the exact sum.
   */
  lemma SealedByteLengthIff(rnd: real -> real, plaintextByteLength: real, recipientCount: real)
    requires IsRounding(rnd)
    ensures SealedByteLength(rnd, SealedRepresentationSizes(), plaintextByteLength, recipientCount) ==
      ExactLength(SealedRepresentationSizes(), plaintextByteLength, recipientCount)
  {
    SampleSizes();
    RoundedIsExact(rnd, SealedRepresentationSizes(), plaintextByteLength, recipientCount);
  }

  /** Base64url of `n` bytes fits a budget exactly when `n` is at most three quarters of it. */
  lemma FitsBudget(n: nat, budget: nat)
    ensures Base64UrlLength(n) <= budget <==> n <= 3 * budget / 4
  {
  }

  lemma MaximumOfSizes(n: nat, k: nat)
    requires 1 <= k <= MAXIMUM_RECIPIENTS
    ensures var sizes := Sizes(605, 417, 171);
      var maximum := MaximumPlaintextByteLength(sizes, k as real);
      maximum.Some? && maximum.value >= 0 &&
      (Base64UrlLength(n + SALT_BYTES) + FixedByteLength(sizes, k) <= MAXIMUM_BODY_BYTES <==> n <= maximum.value)
  {
    assert (k as real).Floor == k;
    FitsBudget(n + SALT_BYTES, MAXIMUM_BODY_BYTES - FixedByteLength(Sizes(605, 417, 171), k));
  }

  /** The maximum is one: a sealed body fits one SignedMessage body if and only if its plaintext is no longer. */
  lemma MaximumPlaintextIsGreatest(f: NumberFormat<int>, p: SealedParts, plaintextLength: nat)
    requires IsSealed(p, plaintextLength)
    ensures var maximum := MaximumPlaintextByteLength(SealedRepresentationSizes(), |p.keys| as real);
      maximum.Some? && maximum.value >= 0 &&
      (|CanonicalBytes(f, SealedBodyJson(f, p, plaintextLength))| <= MAXIMUM_BODY_BYTES <==>
       plaintextLength <= maximum.value)
  {
    SealedLength(f, p, plaintextLength);
    SampleSizes();
    MaximumOfSizes(plaintextLength, |p.keys|);
  }
}
