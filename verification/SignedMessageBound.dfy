/**
 * `MAXIMUM_ENCODED_BYTES` of packages/identity/src/signed-message.ts: the size of a signed message
 * through its two base64url layers and the JSON around them, and which messages stay within the bound.
 */
module SignedMessageBound {
  import opened ByteStrings
  import opened Utf8
  import opened Json
  import opened CanonicalJson
  import opened JsonSizes
  import opened Identifiers
  import opened SealedFormat
  import opened SealedSizes

  const WIRE_VERSION := Ascii("2026.1021.3")
  const SIGNED_MESSAGE_TYPE := Ascii("application/vnd.") + Ascii("sharness.signed-message+jws")
  const THUMBPRINT_PREFIX := Ascii("urn:ietf:params:oauth:") + Ascii("jwk-thumbprint:sha-256:")
  const ED25519_SIGNATURE_BYTES := 64
  /** The canonical protected header of a signer, whose `kid` is a key thumbprint. */
  const SIGNATURE_HEADER_BYTES := 166

  /** What signing encodes. */
  datatype Message = Message(version: Text, sender: Text, cardDigest: Text, recipients: seq<Text>, messageId: Text,
    body: Bytes, thumbprint: Bytes, signature: Bytes)

  ghost predicate AreAgentIds(ids: seq<Text>) {
    ids == [] || (IsAgentId(ids[0]) && AreAgentIds(ids[1..]))
  }

  /** The bounds signing checks, and the fixed widths of what it derives. */
  ghost predicate IsMessage(m: Message) {
    && IsPlainText(m.version)
    && IsAgentId(m.sender) && IsIdentifier(m.cardDigest, Ascii("acd_"), 32)
    && IsIdentifier(m.messageId, Ascii("msg_"), 16)
    && 1 <= |m.recipients| <= MAXIMUM_RECIPIENTS && AreAgentIds(m.recipients)
    && IsBytes(m.body) && |m.body| <= MAXIMUM_BODY_BYTES
    && IsBytes(m.thumbprint) && |m.thumbprint| == 32
    && IsBytes(m.signature) && |m.signature| == ED25519_SIGNATURE_BYTES
  }

  function Texts(ids: seq<Text>): seq<Value> {
    if ids == [] then [] else [Str(ids[0])] + Texts(ids[1..])
  }

  function PayloadJson(version: Text, sender: Text, cardDigest: Text, recipients: seq<Text>, messageId: Text,
                       body: Text): Value {
    Obj([Member(Ascii("kind"), Str(Ascii("signedMessage"))), Member(Ascii("sharnessVersion"), Str(version)),
         Member(Ascii("senderAgentId"), Str(sender)), Member(Ascii("agentCardDigest"), Str(cardDigest)),
         Member(Ascii("recipientAgentIds"), Arr(Texts(recipients))), Member(Ascii("messageId"), Str(messageId)),
         Member(Ascii("body"), Str(body))])
  }

  function SignatureHeader(thumbprint: Text): Value {
    Obj([Member(Ascii("alg"), Str(Ascii("Ed25519"))), Member(Ascii("kid"), Str(THUMBPRINT_PREFIX + thumbprint)),
         Member(Ascii("typ"), Str(SIGNED_MESSAGE_TYPE))])
  }

  function JwsJson(payload: Text, protectedHeader: Text, signature: Text): Value {
    Obj([Member(Ascii("payload"), Str(payload)),
         Member(Ascii("signatures"), Arr([
           Obj([Member(Ascii("protected"), Str(protectedHeader)), Member(Ascii("signature"), Str(signature))])]))])
  }

  /** The canonical encoding of a value, in base64url. */
  function Layer(f: NumberFormat<int>, v: Value): Text {
    EncodedIsBytes(Print(f, Sorted(v)));
    EncodeBase64Url(CanonicalBytes(f, v))
  }

  /** The bytes of the complete signed message. */
  function EncodedMessage(f: NumberFormat<int>, m: Message): Bytes
    requires IsMessage(m)
  {
    CanonicalBytes(f, JwsJson(
      Layer(f, PayloadJson(m.version, m.sender, m.cardDigest, m.recipients, m.messageId, EncodeBase64Url(m.body))),
      Layer(f, SignatureHeader(EncodeBase64Url(m.thumbprint))), EncodeBase64Url(m.signature)))
  }

  /** The maximal message the bound is computed from: all zeros, and one AgentId 128 times. */
  function MaximalMessage(): Message {
    var id := Ascii("agt_") + Sample(16);
    Message(WIRE_VERSION, id, Ascii("acd_") + Sample(32), seq(MAXIMUM_RECIPIENTS, _ => id), Ascii("msg_") + Sample(16),
      seq(MAXIMUM_BODY_BYTES, _ => 0), seq(32, _ => 0), seq(ED25519_SIGNATURE_BYTES, _ => 0))
  }

  function MaximumEncodedBytes(f: NumberFormat<int>): nat {
    MaximalIsMessage();
    |EncodedMessage(f, MaximalMessage())|
  }

  // -------------------------------------------------------------- lengths

  lemma PayloadKeysArePlain()
    ensures IsPlainText(Ascii("kind")) && IsPlainText(Ascii("signedMessage")) && IsPlainText(Ascii("body"))
    ensures IsPlainText(Ascii("messageId"))
  {
  }

  lemma LongKeysArePlain()
    ensures IsPlainText(Ascii("sharnessVersion")) && IsPlainText(Ascii("senderAgentId"))
    ensures IsPlainText(Ascii("agentCardDigest"))
  {
  }

  lemma RecipientsKeyIsPlain()
    ensures IsPlainText(Ascii("recipientAgentIds"))
  {
  }

  lemma JwsKeysArePlain()
    ensures IsPlainText(Ascii("alg")) && IsPlainText(Ascii("kid")) && IsPlainText(Ascii("typ"))
      && IsPlainText(Ascii("Ed25519"))
    ensures IsPlainText(Ascii("payload")) && IsPlainText(Ascii("signatures"))
    ensures IsPlainText(Ascii("protected")) && IsPlainText(Ascii("signature"))
  {
  }

  lemma TypeIsPlain()
    ensures IsPlainText(SIGNED_MESSAGE_TYPE) && |SIGNED_MESSAGE_TYPE| == 43
  {
    assert IsPlainText(Ascii("application/vnd."));
    assert IsPlainText(Ascii("sharness.signed-message+jws"));
  }

  lemma ThumbprintPrefixIsPlain()
    ensures IsPlainText(THUMBPRINT_PREFIX) && |THUMBPRINT_PREFIX| == 45
  {
    assert IsPlainText(Ascii("urn:ietf:params:oauth:"));
    assert IsPlainText(Ascii("jwk-thumbprint:sha-256:"));
  }

  lemma WireVersionIsPlain()
    ensures IsPlainText(WIRE_VERSION) && |WIRE_VERSION| == 11
  {
  }

  lemma WidthOf7(a: Field, b: Field, c: Field, d: Field, e: Field, g: Field, h: Field)
    ensures MembersWidth([a, b, c, d, e, g, h]) == MemberWidth(a) + MemberWidth(b) + MemberWidth(c) + MemberWidth(d)
      + MemberWidth(e) + MemberWidth(g) + MemberWidth(h)
    ensures PlainMembers([a, b, c, d, e, g, h]) <==>
      PlainMember(a) && PlainMember(b) && PlainMember(c) && PlainMember(d) && PlainMember(e) && PlainMember(g)
        && PlainMember(h)
  {
    assert [a, b, c, d, e, g, h][1..] == [b, c, d, e, g, h];
    assert [b, c, d, e, g, h][1..] == [c, d, e, g, h];
    WidthOf5(c, d, e, g, h);
  }

  lemma {:induction false} IdTextsWidth(ids: seq<Text>)
    requires AreAgentIds(ids)
    ensures PlainItems(Texts(ids)) && ItemsWidth(Texts(ids)) == 29 * |ids| && |Texts(ids)| == |ids|
  {
    if ids != [] {
      PrefixesArePlain();
      IdentifierText(ids[0], Ascii("agt_"));
      IdTextsWidth(ids[1..]);
      assert Texts(ids)[1..] == Texts(ids[1..]);
    }
  }

  lemma DigestText(s: Text)
    requires IsIdentifier(s, Ascii("acd_"), 32)
    ensures IsPlainText(s) && |s| == 47
  {
    IdentifierIffEncoded(s, Ascii("acd_"), 32);
    var b :| IsBytes(b) && |b| == 32 && s == Ascii("acd_") + EncodeBase64Url(b);
    EncodedIsPlain(b);
  }

  lemma ArrayMember(key: Text, items: seq<Value>)
    requires IsPlainText(key) && PlainItems(items) && items != []
    ensures var m: Field := Member(key, Arr(items));
      PlainMember(m) && MemberWidth(m) == |key| + 5 + ItemsWidth(items)
  {
  }

  lemma FirstMembers(version: Text, sender: Text, cardDigest: Text)
    requires IsPlainText(version) && IsPlainText(sender) && IsPlainText(cardDigest)
    ensures var (a: Field, b: Field, c: Field, d: Field) :=
        (Member(Ascii("kind"), Str(Ascii("signedMessage"))), Member(Ascii("sharnessVersion"), Str(version)),
         Member(Ascii("senderAgentId"), Str(sender)), Member(Ascii("agentCardDigest"), Str(cardDigest)));
      && PlainMember(a) && PlainMember(b) && PlainMember(c) && PlainMember(d)
      && MemberWidth(a) == 23 && MemberWidth(b) == 21 + |version| && MemberWidth(c) == 19 + |sender|
      && MemberWidth(d) == 21 + |cardDigest|
  {
    PayloadKeysArePlain();
    LongKeysArePlain();
  }

  lemma LastMembers(messageId: Text, body: Text)
    requires IsPlainText(messageId) && IsPlainText(body)
    ensures var (a: Field, b: Field) := (Member(Ascii("messageId"), Str(messageId)), Member(Ascii("body"), Str(body)));
      PlainMember(a) && PlainMember(b) && MemberWidth(a) == 15 + |messageId| && MemberWidth(b) == 10 + |body|
  {
    PayloadKeysArePlain();
  }

  lemma ObjectLength(members: seq<Field>)
    requires members != []
    ensures Length(Obj(members)) == 1 + MembersWidth(members) && (IsPlain(Obj(members)) <==> PlainMembers(members))
  {
  }

  lemma PayloadLength(version: Text, sender: Text, cardDigest: Text, recipients: seq<Text>, messageId: Text, body: Text)
    requires IsPlainText(version) && IsPlainText(body)
    requires IsPlainText(sender) && |sender| == 26 && IsPlainText(cardDigest) && |cardDigest| == 47
    requires IsPlainText(messageId) && |messageId| == 26 && AreAgentIds(recipients) && recipients != []
    ensures var v := PayloadJson(version, sender, cardDigest, recipients, messageId, body);
      IsPlain(v) && Length(v) == 231 + |version| + 29 * |recipients| + |body|
  {
    FirstMembers(version, sender, cardDigest);
    IdTextsWidth(recipients);
    RecipientsKeyIsPlain();
    ArrayMember(Ascii("recipientAgentIds"), Texts(recipients));
    LastMembers(messageId, body);
    WidthOf7(Member(Ascii("kind"), Str(Ascii("signedMessage"))), Member(Ascii("sharnessVersion"), Str(version)),
             Member(Ascii("senderAgentId"), Str(sender)), Member(Ascii("agentCardDigest"), Str(cardDigest)),
             Member(Ascii("recipientAgentIds"), Arr(Texts(recipients))), Member(Ascii("messageId"), Str(messageId)),
             Member(Ascii("body"), Str(body)));
    ObjectLength(PayloadJson(version, sender, cardDigest, recipients, messageId, body).members);
  }

  lemma SignatureHeaderLength(thumbprint: Text)
    requires IsPlainText(thumbprint) && |thumbprint| == 43
    ensures IsPlain(SignatureHeader(thumbprint)) && Length(SignatureHeader(thumbprint)) == SIGNATURE_HEADER_BYTES
  {
    JwsKeysArePlain();
    TypeIsPlain();
    ThumbprintPrefixIsPlain();
    WidthOf3(Member(Ascii("alg"), Str(Ascii("Ed25519"))), Member(Ascii("kid"), Str(THUMBPRINT_PREFIX + thumbprint)),
             Member(Ascii("typ"), Str(SIGNED_MESSAGE_TYPE)));
  }

  lemma JwsLength(payload: Text, protectedHeader: Text, signature: Text)
    requires IsPlainText(payload) && IsPlainText(protectedHeader) && IsPlainText(signature)
    ensures var v := JwsJson(payload, protectedHeader, signature);
      IsPlain(v) && Length(v) == 61 + |payload| + |protectedHeader| + |signature|
  {
    JwsKeysArePlain();
    WidthOf2(Member(Ascii("protected"), Str(protectedHeader)), Member(Ascii("signature"), Str(signature)));
    var entry: Value := Obj([Member(Ascii("protected"), Str(protectedHeader)),
                             Member(Ascii("signature"), Str(signature))]);
    OneItem(entry);
    WidthOf2(Member(Ascii("payload"), Str(payload)), Member(Ascii("signatures"), Arr([entry])));
  }

  lemma LayerLength(f: NumberFormat<int>, v: Value)
    requires IsPlain(v)
    ensures IsPlainText(Layer(f, v)) && |Layer(f, v)| == Base64UrlLength(Length(v))
  {
    EncodedLengths(f, v);
    EncodedIsBytes(Print(f, Sorted(v)));
    EncodedIsPlain(CanonicalBytes(f, v));
  }

  /** The payload's size, which alone varies. */
  function PayloadBytes(m: Message): nat {
    231 + |m.version| + 29 * |m.recipients| + Base64UrlLength(|m.body|)
  }

  lemma MessageLength(f: NumberFormat<int>, m: Message)
    requires IsMessage(m)
    ensures |EncodedMessage(f, m)| == 369 + Base64UrlLength(PayloadBytes(m))
  {
    PrefixesArePlain();
    IdentifierText(m.sender, Ascii("agt_"));
    IdentifierText(m.messageId, Ascii("msg_"));
    DigestText(m.cardDigest);
    EncodedIsPlain(m.body);
    EncodedIsPlain(m.thumbprint);
    EncodedIsPlain(m.signature);
    var payload := PayloadJson(m.version, m.sender, m.cardDigest, m.recipients, m.messageId, EncodeBase64Url(m.body));
    var header := SignatureHeader(EncodeBase64Url(m.thumbprint));
    PayloadLength(m.version, m.sender, m.cardDigest, m.recipients, m.messageId, EncodeBase64Url(m.body));
    SignatureHeaderLength(EncodeBase64Url(m.thumbprint));
    LayerLength(f, payload);
    LayerLength(f, header);
    var jws := JwsJson(Layer(f, payload), Layer(f, header), EncodeBase64Url(m.signature));
    JwsLength(Layer(f, payload), Layer(f, header), EncodeBase64Url(m.signature));
    EncodedLengths(f, jws);
  }

  lemma SampleIdentifier(prefix: Text, byteLength: nat)
    ensures IsIdentifier(prefix + Sample(byteLength), prefix, byteLength)
  {
    var zeros: Bytes := seq(byteLength, _ => 0);
    assert IsBytes(zeros);
    IdentifierIffEncoded(prefix + Sample(byteLength), prefix, byteLength);
  }

  lemma {:induction false} SameIds(ids: seq<Text>, id: Text)
    requires IsAgentId(id) && forall i :: 0 <= i < |ids| ==> ids[i] == id
    ensures AreAgentIds(ids)
  {
    if ids != [] { SameIds(ids[1..], id); }
  }

  lemma MaximalIsMessage()
    ensures IsMessage(MaximalMessage())
  {
    WireVersionIsPlain();
    SampleIdentifier(Ascii("agt_"), 16);
    SampleIdentifier(Ascii("msg_"), 16);
    SampleIdentifier(Ascii("acd_"), 32);
    SameIds(MaximalMessage().recipients, Ascii("agt_") + Sample(16));
  }

  // -------------------------------------------------------------- the bound

  lemma Base64LengthIsMonotone(n: nat, m: nat)
    ensures n <= m <==> Base64UrlLength(n) <= Base64UrlLength(m)
  {
  }

  lemma MaximalPayload()
    ensures PayloadBytes(MaximalMessage()) == 231 + 11 + 29 * MAXIMUM_RECIPIENTS + Base64UrlLength(MAXIMUM_BODY_BYTES)
  {
    WireVersionIsPlain();
  }

  /** The size check passes exactly while version, recipients and body together are within the maximal payload. */
  lemma SizeCheckIff(f: NumberFormat<int>, m: Message)
    requires IsMessage(m)
    ensures |EncodedMessage(f, m)| <= MaximumEncodedBytes(f) <==>
      |m.version| + 29 * |m.recipients| + Base64UrlLength(|m.body|) <=
        |WIRE_VERSION| + 29 * MAXIMUM_RECIPIENTS + Base64UrlLength(MAXIMUM_BODY_BYTES)
  {
    MessageLength(f, m);
    MaximalIsMessage();
    MessageLength(f, MaximalMessage());
    MaximalPayload();
    WireVersionIsPlain();
    Base64LengthIsMonotone(PayloadBytes(m), PayloadBytes(MaximalMessage()));
  }

  /** What decoding checks, for a payload and a protected header that are any bytes at all. */
  lemma DecodedSizeCheckIff(f: NumberFormat<int>, payload: Bytes, header: Bytes, signature: Bytes)
    requires IsBytes(payload) && IsBytes(header) && IsBytes(signature) && |signature| == ED25519_SIGNATURE_BYTES
    ensures
      var jws := JwsJson(EncodeBase64Url(payload), EncodeBase64Url(header), EncodeBase64Url(signature));
      |CanonicalBytes(f, jws)| <= MaximumEncodedBytes(f) <==>
        Base64UrlLength(|payload|) + Base64UrlLength(|header|) <=
          Base64UrlLength(PayloadBytes(MaximalMessage())) + Base64UrlLength(SIGNATURE_HEADER_BYTES)
  {
    EncodedIsPlain(payload);
    EncodedIsPlain(header);
    EncodedIsPlain(signature);
    JwsLength(EncodeBase64Url(payload), EncodeBase64Url(header), EncodeBase64Url(signature));
    EncodedLengths(f, JwsJson(EncodeBase64Url(payload), EncodeBase64Url(header), EncodeBase64Url(signature)));
    MaximalIsMessage();
    MessageLength(f, MaximalMessage());
  }

  /**
   * The bound holds for every message of a version no longer than this one, and is reached: by the
   * message with all 128 recipients and the longest body.
   */
  lemma BoundIsTight(f: NumberFormat<int>, m: Message)
    requires IsMessage(m) && |m.version| <= |WIRE_VERSION|
    ensures |EncodedMessage(f, m)| <= MaximumEncodedBytes(f)
    ensures |EncodedMessage(f, m)| == MaximumEncodedBytes(f) <==>
      |m.version| == |WIRE_VERSION| && |m.recipients| == MAXIMUM_RECIPIENTS && |m.body| == MAXIMUM_BODY_BYTES
  {
    SizeCheckIff(f, m);
    Base64LengthIsMonotone(|m.body|, MAXIMUM_BODY_BYTES);
    Base64LengthIsMonotone(MAXIMUM_BODY_BYTES, |m.body|);
    MessageLength(f, m);
    MaximalIsMessage();
    MessageLength(f, MaximalMessage());
    MaximalPayload();
    WireVersionIsPlain();
    Base64LengthIsMonotone(PayloadBytes(MaximalMessage()), PayloadBytes(m));
  }

  /** A sealed body always fits the body of the message it is signed into, up to the reported maximum. */
  lemma SealedPlaintextFits(f: NumberFormat<int>, p: SealedParts, plaintextLength: nat, m: Message)
    requires IsSealed(p, plaintextLength)
    requires plaintextLength <= MaximumPlaintextByteLength(SealedRepresentationSizes(), |p.keys| as real).value
    requires IsMessage(m.(body := [])) && |m.version| <= |WIRE_VERSION|
    requires m.body == CanonicalBytes(f, SealedBodyJson(f, p, plaintextLength))
    ensures IsMessage(m) && |EncodedMessage(f, m)| <= MaximumEncodedBytes(f)
  {
    MaximumPlaintextIsGreatest(f, p, plaintextLength);
    EncodedIsBytes(Print(f, Sorted(SealedBodyJson(f, p, plaintextLength))));
    BoundIsTight(f, m);
  }
}
