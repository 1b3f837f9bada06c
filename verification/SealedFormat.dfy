/**
 * The General JWE of a sealed body (section 7.2.1 of RFC 7516) in the layout of
 * packages/identity/src/sealed-body.ts: the protected header, one entry for each recipient, and the
 * body around them. Every string in it is plain ASCII and numbers never occur, so its size is computed
 * member by member, from the lengths of keys and texts alone.
 */
module SealedFormat {
  import opened Wrappers
  import opened ByteStrings
  import opened Utf8
  import opened Json
  import opened JsonSizes
  import opened Identifiers

  type Value = Json<int>
  type Field = Member<int>

  const KEY_MANAGEMENT_ALGORITHM := Ascii("ECDH-ES+A256KW")
  const CONTENT_ENCRYPTION_ALGORITHM := Ascii("A256GCM")
  const COMMITMENT_HEADER := Ascii("org.social-harness/commitment")
  const MESSAGE_ID_HEADER := Ascii("org.social-harness/message-id")
  const SENDER_HEADER := Ascii("org.social-harness/sender")

  const COMMITMENT_BYTES := 32
  const IV_BYTES := 12
  const TAG_BYTES := 16
  const WRAPPED_KEY_BYTES := 40
  const X25519_PUBLIC_KEY_BYTES := 32
  const SALT_BYTES := 32
  const MAXIMUM_RECIPIENTS := 128
  const MAXIMUM_BODY_BYTES := 262144

  /** The public key jose writes for an ephemeral key, by its base64url `x`. */
  function EphemeralKey(x: Text): Value {
    Obj([Member(Ascii("x"), Str(x)), Member(Ascii("crv"), Str(Ascii("X25519"))),
         Member(Ascii("kty"), Str(Ascii("OKP")))])
  }

  /** `protectedHeaderMembers`, in serialization order. */
  function ProtectedHeaderMembers(commitment: Text, messageId: Text, sender: Text): seq<Field> {
    [Member(Ascii("alg"), Str(KEY_MANAGEMENT_ALGORITHM)), Member(Ascii("enc"), Str(CONTENT_ENCRYPTION_ALGORITHM)),
     Member(COMMITMENT_HEADER, Str(commitment)), Member(MESSAGE_ID_HEADER, Str(messageId)),
     Member(SENDER_HEADER, Str(sender))]
  }

  /** The header of one recipient carries the ephemeral key after the other members. */
  function ProtectedHeader(commitment: Text, messageId: Text, sender: Text, epk: Option<Text>): Value {
    var members := ProtectedHeaderMembers(commitment, messageId, sender);
    match epk
    case None => Obj(members)
    case Some(x) => Obj(members + [Member(Ascii("epk"), EphemeralKey(x))])
  }

  function RecipientEntry(encryptedKey: Text, epk: Option<Text>): Value {
    var key := Member(Ascii("encrypted_key"), Str(encryptedKey));
    match epk
    case None => Obj([key])
    case Some(x) => Obj([key, Member(Ascii("header"), Obj([Member(Ascii("epk"), EphemeralKey(x))]))])
  }

  function Representation(ciphertext: Text, iv: Text, protectedHeader: Text, recipients: seq<Value>, tag: Text): Value {
    Obj([Member(Ascii("ciphertext"), Str(ciphertext)), Member(Ascii("iv"), Str(iv)),
         Member(Ascii("protected"), Str(protectedHeader)), Member(Ascii("recipients"), Arr(recipients)),
         Member(Ascii("tag"), Str(tag))])
  }

  /** What sealing draws and computes: one wrapped key and one ephemeral `x` per recipient. */
  datatype SealedParts = SealedParts(commitment: Text, messageId: Text, sender: Text,
    iv: Bytes, tag: Bytes, ciphertext: Bytes, keys: seq<RecipientKey>)

  datatype RecipientKey = RecipientKey(wrapped: Bytes, ephemeral: Bytes)

  ghost predicate IsKey(key: RecipientKey) {
    IsBytes(key.wrapped) && |key.wrapped| == WRAPPED_KEY_BYTES
    && IsBytes(key.ephemeral) && |key.ephemeral| == X25519_PUBLIC_KEY_BYTES
  }

  ghost predicate AreKeys(keys: seq<RecipientKey>) {
    keys == [] || (IsKey(keys[0]) && AreKeys(keys[1..]))
  }

  /** Parts sealed over `plaintextLength` bytes to `|keys|` recipients. */
  ghost predicate IsSealed(p: SealedParts, plaintextLength: nat) {
    && (exists digest :: IsBytes(digest) && |digest| == COMMITMENT_BYTES && p.commitment == EncodeBase64Url(digest))
    && IsIdentifier(p.messageId, Ascii("msg_"), 16) && IsAgentId(p.sender)
    && IsBytes(p.iv) && |p.iv| == IV_BYTES && IsBytes(p.tag) && |p.tag| == TAG_BYTES
    && IsBytes(p.ciphertext) && |p.ciphertext| == plaintextLength + SALT_BYTES
    && 1 <= |p.keys| <= MAXIMUM_RECIPIENTS && AreKeys(p.keys)
  }

  /** Several recipients carry their ephemeral keys in their own entries. */
  function Entries(keys: seq<RecipientKey>): seq<Value>
    requires AreKeys(keys)
  {
    if keys == [] then []
    else
      var (wrapped, ephemeral) := (EncodeBase64Url(keys[0].wrapped), EncodeBase64Url(keys[0].ephemeral));
      [RecipientEntry(wrapped, Some(ephemeral))] + Entries(keys[1..])
  }

  /** The body that sealing hands to the canonical encoder. */
  function SealedBodyJson(f: NumberFormat<int>, p: SealedParts, plaintextLength: nat): Value
    requires IsSealed(p, plaintextLength)
  {
    var single := |p.keys| == 1;
    var header := ProtectedHeader(p.commitment, p.messageId, p.sender,
      if single then Some(EncodeBase64Url(p.keys[0].ephemeral)) else None);
    EncodedIsBytes(Print(f, header));
    Representation(EncodeBase64Url(p.ciphertext), EncodeBase64Url(p.iv), EncodeBase64Url(Encode(Print(f, header))),
      if single then [RecipientEntry(EncodeBase64Url(p.keys[0].wrapped), None)] else Entries(p.keys),
      EncodeBase64Url(p.tag))
  }

  lemma {:induction false} EncodedIsBytes(t: Text)
    ensures IsBytes(Encode(t))
  {
    if t != [] {
      if IsHighSurrogate(t[0]) && |t| >= 2 && IsLowSurrogate(t[1]) {
        EncodedIsBytes(t[2..]);
      } else {
        EncodedIsBytes(t[1..]);
      }
    }
  }

  // -------------------------------------------------------------- lengths

  lemma SextetIsPlain(n: int)
    requires 0 <= n < 64
    ensures IsPlainUnit(SextetUnit(n))
  {
  }

  lemma GroupIsPlain(x: int, y: int, z: int)
    requires 0 <= x < 256 && 0 <= y < 256 && 0 <= z < 256
    ensures IsPlainText(EncodeGroup(x, y, z))
  {
    SextetIsPlain(x / 4);
    SextetIsPlain(x % 4 * 16 + y / 16);
    SextetIsPlain(y % 16 * 4 + z / 64);
    SextetIsPlain(z % 64);
  }

  lemma {:induction false} EncodedIsPlain(b: Bytes)
    requires IsBytes(b)
    ensures IsPlainText(EncodeBase64Url(b)) && |EncodeBase64Url(b)| == Base64UrlLength(|b|)
  {
    EncodedLength(b);
    if |b| >= 3 {
      GroupIsPlain(b[0], b[1], b[2]);
      EncodedIsPlain(b[3..]);
    }
  }

  lemma ShortKeysArePlain()
    ensures IsPlainText(Ascii("x")) && IsPlainText(Ascii("crv")) && IsPlainText(Ascii("kty"))
    ensures IsPlainText(Ascii("X25519")) && IsPlainText(Ascii("OKP"))
    ensures IsPlainText(Ascii("alg")) && IsPlainText(Ascii("enc")) && IsPlainText(Ascii("epk"))
    ensures IsPlainText(Ascii("iv")) && IsPlainText(Ascii("tag"))
  {
  }

  lemma MemberKeysArePlain()
    ensures IsPlainText(Ascii("encrypted_key")) && IsPlainText(Ascii("header"))
    ensures IsPlainText(Ascii("ciphertext")) && IsPlainText(Ascii("protected")) && IsPlainText(Ascii("recipients"))
  {
  }

  lemma AlgorithmsArePlain()
    ensures IsPlainText(KEY_MANAGEMENT_ALGORITHM) && |KEY_MANAGEMENT_ALGORITHM| == 14
    ensures IsPlainText(CONTENT_ENCRYPTION_ALGORITHM) && |CONTENT_ENCRYPTION_ALGORITHM| == 7
  {
  }

  lemma CommitmentNameIsPlain()
    ensures IsPlainText(COMMITMENT_HEADER) && |COMMITMENT_HEADER| == 29
  {
  }

  lemma MessageIdNameIsPlain()
    ensures IsPlainText(MESSAGE_ID_HEADER) && |MESSAGE_ID_HEADER| == 29
  {
  }

  lemma SenderNameIsPlain()
    ensures IsPlainText(SENDER_HEADER) && |SENDER_HEADER| == 25
  {
  }

  ghost predicate PlainMember(m: Field) {
    IsPlainText(m.key) && IsPlain(m.value)
  }

  lemma WidthOf1(a: Field)
    ensures MembersWidth([a]) == MemberWidth(a)
    ensures PlainMembers([a]) <==> PlainMember(a)
  {
    assert [a][1..] == [];
  }

  lemma WidthOf2(a: Field, b: Field)
    ensures MembersWidth([a, b]) == MemberWidth(a) + MemberWidth(b)
    ensures PlainMembers([a, b]) <==> PlainMember(a) && PlainMember(b)
  {
    assert [a, b][1..] == [b];
    WidthOf1(b);
  }

  lemma WidthOf3(a: Field, b: Field, c: Field)
    ensures MembersWidth([a, b, c]) == MemberWidth(a) + MemberWidth(b) + MemberWidth(c)
    ensures PlainMembers([a, b, c]) <==> PlainMember(a) && PlainMember(b) && PlainMember(c)
  {
    assert [a, b, c][1..] == [b, c];
    WidthOf2(b, c);
  }

  lemma WidthOf5(a: Field, b: Field, c: Field, d: Field, e: Field)
    ensures MembersWidth([a, b, c, d, e]) ==
      MemberWidth(a) + MemberWidth(b) + MemberWidth(c) + MemberWidth(d) + MemberWidth(e)
    ensures PlainMembers([a, b, c, d, e]) <==>
      PlainMember(a) && PlainMember(b) && PlainMember(c) && PlainMember(d) && PlainMember(e)
  {
    assert [a, b, c, d, e][1..] == [b, c, d, e];
    assert [b, c, d, e][1..] == [c, d, e];
    WidthOf3(c, d, e);
  }

  lemma EphemeralKeyLength(x: Text)
    requires IsPlainText(x) && |x| == 43
    ensures IsPlain(EphemeralKey(x)) && Length(EphemeralKey(x)) == 78
  {
    ShortKeysArePlain();
    WidthOf3(Member(Ascii("x"), Str(x)), Member(Ascii("crv"), Str(Ascii("X25519"))),
             Member(Ascii("kty"), Str(Ascii("OKP"))));
  }

  lemma HeaderMembersLength(commitment: Text, messageId: Text, sender: Text)
    requires IsPlainText(commitment) && |commitment| == 43
    requires IsPlainText(messageId) && |messageId| == 26 && IsPlainText(sender) && |sender| == 26
    ensures var members := ProtectedHeaderMembers(commitment, messageId, sender);
      PlainMembers(members) && MembersWidth(members) == 235
  {
    ShortKeysArePlain();
    AlgorithmsArePlain();
    CommitmentNameIsPlain();
    MessageIdNameIsPlain();
    SenderNameIsPlain();
    WidthOf5(Member(Ascii("alg"), Str(KEY_MANAGEMENT_ALGORITHM)),
             Member(Ascii("enc"), Str(CONTENT_ENCRYPTION_ALGORITHM)),
             Member(COMMITMENT_HEADER, Str(commitment)), Member(MESSAGE_ID_HEADER, Str(messageId)),
             Member(SENDER_HEADER, Str(sender)));
  }

  lemma HeaderLength(commitment: Text, messageId: Text, sender: Text, epk: Option<Text>)
    requires IsPlainText(commitment) && |commitment| == 43
    requires IsPlainText(messageId) && |messageId| == 26 && IsPlainText(sender) && |sender| == 26
    requires epk.Some? ==> IsPlainText(epk.value) && |epk.value| == 43
    ensures var header := ProtectedHeader(commitment, messageId, sender, epk);
      IsPlain(header) && Length(header) == if epk.None? then 236 else 321
  {
    HeaderMembersLength(commitment, messageId, sender);
    if epk.Some? {
      ShortKeysArePlain();
      EphemeralKeyLength(epk.value);
      AppendWidth(ProtectedHeaderMembers(commitment, messageId, sender), Member(Ascii("epk"), EphemeralKey(epk.value)));
    }
  }

  lemma EntryLength(encryptedKey: Text, epk: Option<Text>)
    requires IsPlainText(encryptedKey) && |encryptedKey| == 54
    requires epk.Some? ==> IsPlainText(epk.value) && |epk.value| == 43
    ensures var entry := RecipientEntry(encryptedKey, epk);
      IsPlain(entry) && Length(entry) == if epk.None? then 74 else 170
  {
    MemberKeysArePlain();
    WidthOf1(Member(Ascii("encrypted_key"), Str(encryptedKey)));
    if epk.Some? {
      ShortKeysArePlain();
      EphemeralKeyLength(epk.value);
      var header: Value := Obj([Member(Ascii("epk"), EphemeralKey(epk.value))]);
      WidthOf1(Member(Ascii("epk"), EphemeralKey(epk.value)));
      assert IsPlain(header) && Length(header) == 86;
      WidthOf2(Member(Ascii("encrypted_key"), Str(encryptedKey)), Member(Ascii("header"), header));
    }
  }

  lemma RepresentationLength(ciphertext: Text, iv: Text, protectedHeader: Text, recipients: seq<Value>, tag: Text)
    requires IsPlainText(ciphertext) && IsPlainText(protectedHeader) && PlainItems(recipients)
    requires IsPlainText(iv) && |iv| == 16 && IsPlainText(tag) && |tag| == 22
    ensures var r := Representation(ciphertext, iv, protectedHeader, recipients, tag);
      IsPlain(r) &&
      Length(r) == 103 + |ciphertext| + |protectedHeader| + (if recipients == [] then 0 else ItemsWidth(recipients) - 1)
  {
    ShortKeysArePlain();
    MemberKeysArePlain();
    WidthOf5(Member(Ascii("ciphertext"), Str(ciphertext)), Member(Ascii("iv"), Str(iv)),
             Member(Ascii("protected"), Str(protectedHeader)), Member(Ascii("recipients"), Arr(recipients)),
             Member(Ascii("tag"), Str(tag)));
  }
}
