/**
 * What the opener of packages/identity/src/sealed-body.ts reads: the exact schema of the General JWE,
 * and a protected header that has one accepted spelling. Members are found by key, so the canonical
 * order of the sealed bytes, which is not the order the sealer builds them in, makes no difference.
 */
module SealedSchemas {
  import opened Wrappers
  import opened ByteStrings
  import opened Utf8
  import opened Json
  import opened CanonicalJson
  import opened JsonSizes
  import opened JsonSchemas
  import opened Identifiers
  import opened SealedFormat
  import opened SealedSizes

  datatype Entry = Entry(encryptedKey: Text, epk: Option<Text>)

  datatype Body = Body(ciphertext: Text, iv: Text, protectedHeader: Text, recipients: seq<Entry>, tag: Text)

  datatype Header = Header(commitment: Text, messageId: Text, sender: Text, epk: Option<Text>)

  // ------------------------------------------------------------- decoding

  predicate IsEncoded(t: Option<Text>, byteLength: nat) {
    t.Some? && HasCanonicalBase64UrlLength(t.value, byteLength)
  }

  predicate IsCanonical(t: Option<Text>) {
    t.Some? && DecodeCanonicalBase64Url(t.value).Some?
  }

  function DecodeEphemeralKey(v: Value): Option<Text> {
    match v
    case Obj(members) =>
      var x := TextAt(members, Ascii("x"));
      if |members| == 3 && TextAt(members, Ascii("crv")) == Some(Ascii("X25519"))
        && TextAt(members, Ascii("kty")) == Some(Ascii("OKP")) && IsEncoded(x, X25519_PUBLIC_KEY_BYTES) then x
      else None
    case _ => None
  }

  /** `header: { epk }`, exactly. */
  function DecodeEntryHeader(v: Option<Value>): Option<Text> {
    match v
    case Some(Obj(members)) =>
      var epk := Lookup(members, Ascii("epk"));
      if |members| == 1 && epk.Some? then DecodeEphemeralKey(epk.value) else None
    case _ => None
  }

  function DecodeEntry(v: Value): Option<Entry> {
    match v
    case Obj(members) =>
      var key := TextAt(members, Ascii("encrypted_key"));
      if !IsEncoded(key, WRAPPED_KEY_BYTES) then None
      else if |members| == 1 then Some(Entry(key.value, None))
      else
        var epk := DecodeEntryHeader(Lookup(members, Ascii("header")));
        if |members| == 2 && epk.Some? then Some(Entry(key.value, epk)) else None
    case _ => None
  }

  function DecodeEntries(items: seq<Value>): Option<seq<Entry>> {
    if items == [] then Some([])
    else
      match (DecodeEntry(items[0]), DecodeEntries(items[1..]))
      case (Some(entry), Some(entries)) => Some([entry] + entries)
      case _ => None
  }

  function DecodeRecipients(v: Option<Value>): Option<seq<Entry>> {
    match v
    case Some(Arr(items)) => if 1 <= |items| <= MAXIMUM_RECIPIENTS then DecodeEntries(items) else None
    case _ => None
  }

  function DecodeMembers(members: seq<Field>): Option<Body> {
    var ciphertext, iv := TextAt(members, Ascii("ciphertext")), TextAt(members, Ascii("iv"));
    var header, tag := TextAt(members, Ascii("protected")), TextAt(members, Ascii("tag"));
    var recipients := DecodeRecipients(Lookup(members, Ascii("recipients")));
    if |members| == 5 && IsCanonical(ciphertext) && IsEncoded(iv, IV_BYTES) && IsCanonical(header)
      && recipients.Some? && IsEncoded(tag, TAG_BYTES) then
      Some(Body(ciphertext.value, iv.value, header.value, recipients.value, tag.value))
    else None
  }

  /** `sealedBodyRepresentation`, exact. */
  function DecodeSealedBody(v: Value): Option<Body> {
    match v
    case Obj(members) => DecodeMembers(members)
    case _ => None
  }

  function DecodeHeaderMembers(members: seq<Field>, epk: Option<Text>): Option<Header> {
    var commitment := TextAt(members, COMMITMENT_HEADER);
    var messageId, sender := TextAt(members, MESSAGE_ID_HEADER), TextAt(members, SENDER_HEADER);
    if TextAt(members, Ascii("alg")) == Some(KEY_MANAGEMENT_ALGORITHM)
      && TextAt(members, Ascii("enc")) == Some(CONTENT_ENCRYPTION_ALGORITHM)
      && IsEncoded(commitment, COMMITMENT_BYTES)
      && messageId.Some? && IsIdentifier(messageId.value, Ascii("msg_"), 16)
      && sender.Some? && IsAgentId(sender.value) then
      Some(Header(commitment.value, messageId.value, sender.value, epk))
    else None
  }

  /** `protectedHeader`, exact but in any order. */
  function DecodeHeader(v: Value): Option<Header> {
    match v
    case Obj(members) =>
      if |members| == 5 then DecodeHeaderMembers(members, None)
      else
        var key := Lookup(members, Ascii("epk"));
        if |members| == 6 && key.Some? && DecodeEphemeralKey(key.value).Some? then
          DecodeHeaderMembers(members, DecodeEphemeralKey(key.value))
        else None
    case _ => None
  }

  function HeaderJson(h: Header): Value {
    ProtectedHeader(h.commitment, h.messageId, h.sender, h.epk)
  }

  /** The base64url of `expectedHeaderText`. */
  function EncodedHeader(f: NumberFormat<int>, h: Header): Text {
    EncodedIsBytes(Print(f, HeaderJson(h)));
    EncodeBase64Url(Encode(Print(f, HeaderJson(h))))
  }

  function DecodeProtectedHeader(f: NumberFormat<int>, encoded: Text): Option<Header> {
    match DecodeBase64Url(encoded)
    case None => None
    case Some(bytes) =>
      match Decode(bytes)
      case None => None
      case Some(text) =>
        match Parse(f, text)
        case None => None
        case Some(v) =>
          match DecodeHeader(v)
          case None => None
          case Some(header) => if EncodedHeader(f, header) == encoded then Some(header) else None
  }

  // ------------------------------------------------------ literal objects

  lemma KeysDiffer()
    ensures Ascii("x") != Ascii("crv") && Ascii("x") != Ascii("kty") && Ascii("crv") != Ascii("kty")
    ensures Ascii("encrypted_key") != Ascii("header")
  {
    assert Ascii("crv")[0] != Ascii("kty")[0];
  }

  lemma BodyKeysDiffer()
    ensures Ascii("ciphertext") != Ascii("iv") && Ascii("ciphertext") != Ascii("protected")
    ensures Ascii("ciphertext") != Ascii("recipients") && Ascii("ciphertext") != Ascii("tag")
    ensures Ascii("iv") != Ascii("protected") && Ascii("iv") != Ascii("recipients") && Ascii("iv") != Ascii("tag")
    ensures Ascii("protected") != Ascii("recipients") && Ascii("protected") != Ascii("tag")
    ensures Ascii("recipients") != Ascii("tag")
  {
    assert Ascii("ciphertext")[0] != Ascii("recipients")[0];
  }

  lemma HeaderKeysDiffer()
    ensures Ascii("alg") != Ascii("enc") && Ascii("alg") != Ascii("epk") && Ascii("enc") != Ascii("epk")
    ensures |COMMITMENT_HEADER| == 29 && |MESSAGE_ID_HEADER| == 29 && |SENDER_HEADER| == 25
    ensures COMMITMENT_HEADER != MESSAGE_ID_HEADER
  {
    assert Ascii("alg")[0] != Ascii("enc")[0] && Ascii("enc")[1] != Ascii("epk")[1];
    assert COMMITMENT_HEADER[19] != MESSAGE_ID_HEADER[19];
  }

  lemma FirstMember(members: seq<Field>, first: Field, others: seq<Field>)
    requires members != [] && members[0] == first && members[1..] == others
    requires !HasKey(others, first.key) && DistinctKeys(others)
    ensures DistinctKeys(members)
    ensures forall key :: Lookup(members, key) == if key == first.key then Some(first.value) else Lookup(others, key)
    ensures forall key :: HasKey(members, key) <==> key == first.key || HasKey(others, key)
  {
  }

  lemma LookupIn1(a: Field)
    ensures DistinctKeys([a]) && Lookup([a], a.key) == Some(a.value)
    ensures forall key :: HasKey([a], key) <==> key == a.key
  {
    FirstMember([a], a, []);
  }

  lemma LookupIn2(a: Field, b: Field)
    requires a.key != b.key
    ensures DistinctKeys([a, b]) && Lookup([a, b], a.key) == Some(a.value) && Lookup([a, b], b.key) == Some(b.value)
    ensures forall key :: HasKey([a, b], key) <==> key == a.key || key == b.key
  {
    LookupIn1(b);
    FirstMember([a, b], a, [b]);
  }

  lemma LookupIn3(a: Field, b: Field, c: Field)
    requires a.key != b.key && a.key != c.key && b.key != c.key
    ensures DistinctKeys([a, b, c])
    ensures Lookup([a, b, c], a.key) == Some(a.value) && Lookup([a, b, c], b.key) == Some(b.value)
    ensures Lookup([a, b, c], c.key) == Some(c.value)
    ensures forall key :: HasKey([a, b, c], key) <==> key == a.key || key == b.key || key == c.key
  {
    LookupIn2(b, c);
    FirstMember([a, b, c], a, [b, c]);
  }

  ghost predicate Differ5(a: Field, b: Field, c: Field, d: Field, e: Field) {
    && a.key != b.key && a.key != c.key && a.key != d.key && a.key != e.key
    && b.key != c.key && b.key != d.key && b.key != e.key
    && c.key != d.key && c.key != e.key && d.key != e.key
  }

  lemma LookupIn5(a: Field, b: Field, c: Field, d: Field, e: Field)
    requires Differ5(a, b, c, d, e)
    ensures DistinctKeys([a, b, c, d, e])
    ensures Lookup([a, b, c, d, e], a.key) == Some(a.value) && Lookup([a, b, c, d, e], b.key) == Some(b.value)
    ensures Lookup([a, b, c, d, e], c.key) == Some(c.value) && Lookup([a, b, c, d, e], d.key) == Some(d.value)
    ensures Lookup([a, b, c, d, e], e.key) == Some(e.value)
    ensures forall key :: HasKey([a, b, c, d, e], key) ==>
      key == a.key || key == b.key || key == c.key || key == d.key || key == e.key
  {
    LookupIn3(c, d, e);
    FirstMember([b, c, d, e], b, [c, d, e]);
    FirstMember([a, b, c, d, e], a, [b, c, d, e]);
  }

  lemma EphemeralKeyMembers(x: Text)
    ensures var members := EphemeralKey(x).members;
      DistinctKeys(members) && TextAt(members, Ascii("x")) == Some(x)
      && TextAt(members, Ascii("crv")) == Some(Ascii("X25519")) && TextAt(members, Ascii("kty")) == Some(Ascii("OKP"))
  {
    KeysDiffer();
    LookupIn3(Member(Ascii("x"), Str(x)), Member(Ascii("crv"), Str(Ascii("X25519"))),
              Member(Ascii("kty"), Str(Ascii("OKP"))));
  }

  /** Decoding reads back the key, whatever order the canonical encoder wrote it in. */
  lemma DecodeOfEphemeralKey(x: Text)
    requires HasCanonicalBase64UrlLength(x, X25519_PUBLIC_KEY_BYTES)
    ensures DecodeEphemeralKey(EphemeralKey(x)) == Some(x) && DecodeEphemeralKey(Sorted(EphemeralKey(x))) == Some(x)
  {
    EphemeralKeyMembers(x);
    var members := EphemeralKey(x).members;
    LookupOfSorted(members, Ascii("x"));
    var sorted := Sorted(EphemeralKey(x)).members;
    TextOfSorted(members, sorted, Ascii("x"));
    TextOfSorted(members, sorted, Ascii("crv"));
    TextOfSorted(members, sorted, Ascii("kty"));
  }

  lemma DecodeOfEntryHeader(x: Text)
    requires HasCanonicalBase64UrlLength(x, X25519_PUBLIC_KEY_BYTES)
    ensures var header: Value := Obj([Member(Ascii("epk"), EphemeralKey(x))]);
      DecodeEntryHeader(Some(Sorted(header))) == Some(x)
  {
    DecodeOfEphemeralKey(x);
    LookupIn1(Member(Ascii("epk"), EphemeralKey(x)));
    LookupOfSorted([Member(Ascii("epk"), EphemeralKey(x))], Ascii("epk"));
  }

  lemma DecodeOfEntry(encryptedKey: Text, epk: Option<Text>)
    requires HasCanonicalBase64UrlLength(encryptedKey, WRAPPED_KEY_BYTES)
    requires epk.Some? ==> HasCanonicalBase64UrlLength(epk.value, X25519_PUBLIC_KEY_BYTES)
    ensures DecodeEntry(Sorted(RecipientEntry(encryptedKey, epk))) == Some(Entry(encryptedKey, epk))
  {
    KeysDiffer();
    var entry := RecipientEntry(encryptedKey, epk);
    var key: Field := Member(Ascii("encrypted_key"), Str(encryptedKey));
    match epk {
      case None => LookupIn1(key);
      case Some(x) =>
        LookupIn2(key, Member(Ascii("header"), Obj([Member(Ascii("epk"), EphemeralKey(x))])));
        DecodeOfEntryHeader(x);
        LookupOfSorted(entry.members, Ascii("header"));
    }
    LookupOfSorted(entry.members, Ascii("encrypted_key"));
    TextOfSorted(entry.members, Sorted(entry).members, Ascii("encrypted_key"));
  }

  /** The entries a sealer writes, as the opener reads them. */
  function SealedEntries(keys: seq<RecipientKey>): seq<Entry>
    requires AreKeys(keys)
  {
    if keys == [] then []
    else [Entry(EncodeBase64Url(keys[0].wrapped), Some(EncodeBase64Url(keys[0].ephemeral)))] + SealedEntries(keys[1..])
  }

  lemma EncodedHasLength(b: Bytes)
    requires IsBytes(b)
    ensures HasCanonicalBase64UrlLength(EncodeBase64Url(b), |b|)
  {
    CanonicalIffEncoding(EncodeBase64Url(b), b);
  }

  lemma {:induction false} DecodeOfEntries(keys: seq<RecipientKey>)
    requires AreKeys(keys)
    ensures DecodeEntries(SortedItems(Entries(keys))) == Some(SealedEntries(keys))
  {
    if keys != [] {
      var key := keys[0];
      EncodedHasLength(key.wrapped);
      EncodedHasLength(key.ephemeral);
      DecodeOfEntry(EncodeBase64Url(key.wrapped), Some(EncodeBase64Url(key.ephemeral)));
      DecodeOfEntries(keys[1..]);
      assert Entries(keys)[1..] == Entries(keys[1..]);
      assert SortedItems(Entries(keys))[1..] == SortedItems(Entries(keys[1..]));
    }
  }

  lemma RepresentationMembers(ciphertext: Text, iv: Text, protectedHeader: Text, recipients: seq<Value>, tag: Text)
    ensures var members := Representation(ciphertext, iv, protectedHeader, recipients, tag).members;
      && DistinctKeys(members)
      && Lookup(members, Ascii("ciphertext")) == Some(Str(ciphertext)) && Lookup(members, Ascii("iv")) == Some(Str(iv))
      && Lookup(members, Ascii("protected")) == Some(Str(protectedHeader))
      && Lookup(members, Ascii("recipients")) == Some(Arr(recipients))
      && Lookup(members, Ascii("tag")) == Some(Str(tag))
  {
    BodyKeysDiffer();
    LookupIn5(Member(Ascii("ciphertext"), Str(ciphertext)), Member(Ascii("iv"), Str(iv)),
              Member(Ascii("protected"), Str(protectedHeader)), Member(Ascii("recipients"), Arr(recipients)),
              Member(Ascii("tag"), Str(tag)));
  }

  lemma DecodeOfRecipients(recipients: seq<Value>, entries: seq<Entry>)
    requires 1 <= |recipients| <= MAXIMUM_RECIPIENTS && DecodeEntries(SortedItems(recipients)) == Some(entries)
    ensures DecodeRecipients(Some(Sorted(Arr(recipients)))) == Some(entries)
  {
  }

  lemma DecodeOfMembers(v: Value, members: seq<Field>, body: Body, recipients: Value)
    requires v == Obj(members)
    requires |members| == 5 && Lookup(members, Ascii("recipients")) == Some(recipients)
    requires TextAt(members, Ascii("ciphertext")) == Some(body.ciphertext)
      && TextAt(members, Ascii("iv")) == Some(body.iv)
    requires TextAt(members, Ascii("protected")) == Some(body.protectedHeader)
      && TextAt(members, Ascii("tag")) == Some(body.tag)
    requires IsCanonical(Some(body.ciphertext)) && IsEncoded(Some(body.iv), IV_BYTES)
    requires IsCanonical(Some(body.protectedHeader)) && IsEncoded(Some(body.tag), TAG_BYTES)
    requires DecodeRecipients(Some(recipients)) == Some(body.recipients)
    ensures DecodeSealedBody(v) == Some(body)
  {
  }

  lemma SortedRepresentation(ciphertext: Text, iv: Text, protectedHeader: Text, recipients: seq<Value>, tag: Text)
    returns (members: seq<Field>)
    ensures Sorted(Representation(ciphertext, iv, protectedHeader, recipients, tag)) == Obj(members)
    ensures |members| == 5 && Lookup(members, Ascii("recipients")) == Some(Sorted(Arr(recipients)))
    ensures TextAt(members, Ascii("ciphertext")) == Some(ciphertext) && TextAt(members, Ascii("iv")) == Some(iv)
    ensures TextAt(members, Ascii("protected")) == Some(protectedHeader) && TextAt(members, Ascii("tag")) == Some(tag)
  {
    RepresentationMembers(ciphertext, iv, protectedHeader, recipients, tag);
    var given := Representation(ciphertext, iv, protectedHeader, recipients, tag).members;
    LookupOfSorted(given, Ascii("recipients"));
    members := Sorted(Obj(given)).members;
    TextOfSorted(given, members, Ascii("ciphertext"));
    TextOfSorted(given, members, Ascii("iv"));
    TextOfSorted(given, members, Ascii("protected"));
    TextOfSorted(given, members, Ascii("tag"));
  }

  /** The opener reads the sealer's representation member by member. */
  lemma DecodeOfRepresentation(ciphertext: Text, iv: Text, protectedHeader: Text, recipients: seq<Value>, tag: Text,
                               entries: seq<Entry>)
    requires IsCanonical(Some(ciphertext)) && IsEncoded(Some(iv), IV_BYTES)
    requires IsCanonical(Some(protectedHeader)) && IsEncoded(Some(tag), TAG_BYTES)
    requires 1 <= |recipients| <= MAXIMUM_RECIPIENTS && DecodeEntries(SortedItems(recipients)) == Some(entries)
    ensures DecodeSealedBody(Sorted(Representation(ciphertext, iv, protectedHeader, recipients, tag))) ==
      Some(Body(ciphertext, iv, protectedHeader, entries, tag))
  {
    var members := SortedRepresentation(ciphertext, iv, protectedHeader, recipients, tag);
    DecodeOfRecipients(recipients, entries);
    DecodeOfMembers(Sorted(Representation(ciphertext, iv, protectedHeader, recipients, tag)), members,
                    Body(ciphertext, iv, protectedHeader, entries, tag), Sorted(Arr(recipients)));
  }

  // ---------------------------------------------------------- the header

  /** What the schema admits. */
  predicate IsHeader(h: Header) {
    && HasCanonicalBase64UrlLength(h.commitment, COMMITMENT_BYTES)
    && IsIdentifier(h.messageId, Ascii("msg_"), 16) && IsAgentId(h.sender)
    && (h.epk.Some? ==> HasCanonicalBase64UrlLength(h.epk.value, X25519_PUBLIC_KEY_BYTES))
  }

  lemma CanonicalText(t: Text, byteLength: nat)
    requires HasCanonicalBase64UrlLength(t, byteLength)
    ensures IsPlainText(t) && |t| == Base64UrlLength(byteLength)
  {
    var b := DecodeCanonicalBase64Url(t).value;
    CanonicalIffEncoding(t, b);
    EncodedIsPlain(b);
  }

  lemma HeaderIsPlain(h: Header)
    requires IsHeader(h)
    ensures IsPlain(HeaderJson(h))
  {
    PrefixesArePlain();
    CanonicalText(h.commitment, COMMITMENT_BYTES);
    IdentifierText(h.messageId, Ascii("msg_"));
    IdentifierText(h.sender, Ascii("agt_"));
    if h.epk.Some? { CanonicalText(h.epk.value, X25519_PUBLIC_KEY_BYTES); }
    HeaderLength(h.commitment, h.messageId, h.sender, h.epk);
  }

  lemma HeaderMembersRead(commitment: Text, messageId: Text, sender: Text)
    ensures var members := ProtectedHeaderMembers(commitment, messageId, sender);
      && DistinctKeys(members) && !HasKey(members, Ascii("epk"))
      && Lookup(members, Ascii("alg")) == Some(Str(KEY_MANAGEMENT_ALGORITHM))
      && Lookup(members, Ascii("enc")) == Some(Str(CONTENT_ENCRYPTION_ALGORITHM))
      && Lookup(members, COMMITMENT_HEADER) == Some(Str(commitment))
      && Lookup(members, MESSAGE_ID_HEADER) == Some(Str(messageId))
      && Lookup(members, SENDER_HEADER) == Some(Str(sender))
  {
    HeaderKeysDiffer();
    LookupIn5(Member(Ascii("alg"), Str(KEY_MANAGEMENT_ALGORITHM)),
              Member(Ascii("enc"), Str(CONTENT_ENCRYPTION_ALGORITHM)),
              Member(COMMITMENT_HEADER, Str(commitment)), Member(MESSAGE_ID_HEADER, Str(messageId)),
              Member(SENDER_HEADER, Str(sender)));
  }

  lemma DecodeOfHeaderMembers(members: seq<Field>, h: Header)
    requires IsHeader(h)
    requires TextAt(members, Ascii("alg")) == Some(KEY_MANAGEMENT_ALGORITHM)
    requires TextAt(members, Ascii("enc")) == Some(CONTENT_ENCRYPTION_ALGORITHM)
    requires TextAt(members, COMMITMENT_HEADER) == Some(h.commitment)
    requires TextAt(members, MESSAGE_ID_HEADER) == Some(h.messageId) && TextAt(members, SENDER_HEADER) == Some(h.sender)
    ensures DecodeHeaderMembers(members, h.epk) == Some(h)
  {
  }

  lemma TextOfAppend(members: seq<Field>, m: Field, key: Text)
    requires Lookup(members, key).Some?
    ensures TextAt(members + [m], key) == TextAt(members, key)
  {
    LookupOfAppend(members, m, key);
  }

  lemma DecodeOfKeyedHeaderMembers(h: Header, last: Field)
    requires IsHeader(h)
    ensures DecodeHeaderMembers(ProtectedHeaderMembers(h.commitment, h.messageId, h.sender) + [last], h.epk) == Some(h)
  {
    HeaderMembersRead(h.commitment, h.messageId, h.sender);
    var members := ProtectedHeaderMembers(h.commitment, h.messageId, h.sender);
    TextOfAppend(members, last, Ascii("alg"));
    TextOfAppend(members, last, Ascii("enc"));
    TextOfAppend(members, last, COMMITMENT_HEADER);
    TextOfAppend(members, last, MESSAGE_ID_HEADER);
    TextOfAppend(members, last, SENDER_HEADER);
    DecodeOfHeaderMembers(members + [last], h);
  }

  lemma DecodeOfHeader(h: Header)
    requires IsHeader(h)
    ensures DecodeHeader(HeaderJson(h)) == Some(h)
  {
    HeaderMembersRead(h.commitment, h.messageId, h.sender);
    var members := ProtectedHeaderMembers(h.commitment, h.messageId, h.sender);
    if h.epk.None? {
      DecodeOfHeaderMembers(members, h);
    } else {
      var last: Field := Member(Ascii("epk"), EphemeralKey(h.epk.value));
      DecodeOfEphemeralKey(h.epk.value);
      LookupIffHasKey(members, Ascii("epk"));
      LookupOfAppend(members, last, Ascii("epk"));
      DecodeOfKeyedHeaderMembers(h, last);
    }
  }

  lemma EphemeralKeyIsUnique(x: Text)
    ensures KeysUnique(EphemeralKey(x))
  {
    EphemeralKeyMembers(x);
  }

  lemma {:induction false} AppendKeepsUnique(members: seq<Field>, m: Field)
    requires KeysUnique(Obj(members)) && !HasKey(members, m.key) && KeysUnique(m.value)
    ensures KeysUnique(Obj(members + [m]))
  {
    LookupOfAppend(members, m, m.key);
    forall i | 0 <= i < |members + [m]| ensures KeysUnique((members + [m])[i].value) {
      if i < |members| { assert (members + [m])[i] == members[i]; }
    }
  }

  lemma HeaderKeysAreUnique(h: Header)
    ensures KeysUnique(HeaderJson(h))
  {
    HeaderMembersRead(h.commitment, h.messageId, h.sender);
    if h.epk.Some? {
      EphemeralKeyIsUnique(h.epk.value);
      AppendKeepsUnique(ProtectedHeaderMembers(h.commitment, h.messageId, h.sender),
                        Member(Ascii("epk"), EphemeralKey(h.epk.value)));
    }
  }

  lemma HeaderIsPrintable(f: NumberFormat<int>, h: Header)
    requires IsHeader(h)
    ensures Printable(f, HeaderJson(h))
  {
    HeaderIsPlain(h);
    HeaderKeysAreUnique(h);
    PlainIsPrintable(f, HeaderJson(h));
  }

  /** Reading back the text of a header. */
  lemma HeaderTextParses(f: NumberFormat<int>, h: Header)
    requires StableFormat(f) && IsHeader(h)
    ensures var text := Print(f, HeaderJson(h));
      Decode(Encode(text)) == Some(text) && Parse(f, text) == Some(HeaderJson(h))
  {
    HeaderIsPlain(h);
    HeaderIsPrintable(f, h);
    PrintedLength(f, HeaderJson(h));
    AsciiEncodesToItself(Print(f, HeaderJson(h)));
    DecodeOfEncode(Print(f, HeaderJson(h)));
    ParseOfPrint(f, HeaderJson(h));
    PlainRereads(f, HeaderJson(h));
  }

  /** Each header has exactly one accepted spelling, the one a sealer writes. */
  lemma HeaderHasOneSpelling(f: NumberFormat<int>, encoded: Text, h: Header)
    requires StableFormat(f)
    ensures DecodeProtectedHeader(f, encoded) == Some(h) <==> IsHeader(h) && encoded == EncodedHeader(f, h)
  {
    if IsHeader(h) {
      HeaderTextParses(f, h);
      DecodeOfHeader(h);
      EncodedIsBytes(Print(f, HeaderJson(h)));
      DecodeOfEncodeBase64Url(Encode(Print(f, HeaderJson(h))));
    }
  }

  // ------------------------------------------------ the body, end to end

  lemma EphemeralKeyDepth(x: Text)
    ensures Depth(EphemeralKey(x)) == 1
  {
    MembersDepthIff(EphemeralKey(x).members, 0);
  }

  lemma EntryIsShallow(encryptedKey: Text, epk: Option<Text>)
    ensures Depth(RecipientEntry(encryptedKey, epk)) <= 3 && KeysUnique(RecipientEntry(encryptedKey, epk))
  {
    KeysDiffer();
    var entry := RecipientEntry(encryptedKey, epk);
    var key: Field := Member(Ascii("encrypted_key"), Str(encryptedKey));
    match epk {
      case None => LookupIn1(key);
      case Some(x) =>
        var inner: seq<Field> := [Member(Ascii("epk"), EphemeralKey(x))];
        EphemeralKeyDepth(x);
        EphemeralKeyIsUnique(x);
        MembersDepthIff(inner, 1);
        LookupIn1(inner[0]);
        LookupIn2(key, Member(Ascii("header"), Obj(inner)));
    }
    MembersDepthIff(entry.members, 2);
  }

  ghost predicate ShallowEntries(items: seq<Value>) {
    forall i :: 0 <= i < |items| ==> Depth(items[i]) <= 3 && KeysUnique(items[i])
  }

  lemma {:induction false} EntriesAreShallow(keys: seq<RecipientKey>)
    requires AreKeys(keys)
    ensures ShallowEntries(Entries(keys)) && |Entries(keys)| == |keys|
  {
    if keys != [] {
      EntriesAreShallow(keys[1..]);
      EntryIsShallow(EncodeBase64Url(keys[0].wrapped), Some(EncodeBase64Url(keys[0].ephemeral)));
      assert Entries(keys)[1..] == Entries(keys[1..]);
      forall i | 0 <= i < |Entries(keys)| ensures Depth(Entries(keys)[i]) <= 3 && KeysUnique(Entries(keys)[i]) {
        if i > 0 { assert Entries(keys)[i] == Entries(keys[1..])[i - 1]; }
      }
    }
  }

  lemma RepresentationIsShallow(ciphertext: Text, iv: Text, protectedHeader: Text, recipients: seq<Value>, tag: Text)
    requires ShallowEntries(recipients)
    ensures var r := Representation(ciphertext, iv, protectedHeader, recipients, tag);
      Depth(r) <= 5 && KeysUnique(r)
  {
    ItemsDepthIff(recipients, 3);
    RepresentationMembers(ciphertext, iv, protectedHeader, recipients, tag);
    MembersDepthIff(Representation(ciphertext, iv, protectedHeader, recipients, tag).members, 4);
  }

  function SealedHeader(p: SealedParts, plaintextLength: nat): Header
    requires IsSealed(p, plaintextLength)
  {
    Header(p.commitment, p.messageId, p.sender,
           if |p.keys| == 1 then Some(EncodeBase64Url(p.keys[0].ephemeral)) else None)
  }

  /** What the opener reads of a sealed body. */
  function SealedBodyRead(f: NumberFormat<int>, p: SealedParts, plaintextLength: nat): Body
    requires IsSealed(p, plaintextLength)
  {
    Body(EncodeBase64Url(p.ciphertext), EncodeBase64Url(p.iv), EncodedHeader(f, SealedHeader(p, plaintextLength)),
         if |p.keys| == 1 then [Entry(EncodeBase64Url(p.keys[0].wrapped), None)] else SealedEntries(p.keys),
         EncodeBase64Url(p.tag))
  }

  lemma BytesAreCanonical(b: Bytes)
    requires IsBytes(b)
    ensures IsCanonical(Some(EncodeBase64Url(b))) && IsEncoded(Some(EncodeBase64Url(b)), |b|)
  {
    EncodedHasLength(b);
  }

  lemma SealedHeaderIsHeader(p: SealedParts, plaintextLength: nat)
    requires IsSealed(p, plaintextLength)
    ensures IsHeader(SealedHeader(p, plaintextLength))
  {
    var digest :| IsBytes(digest) && |digest| == COMMITMENT_BYTES && p.commitment == EncodeBase64Url(digest);
    EncodedHasLength(digest);
    if |p.keys| == 1 { EncodedHasLength(p.keys[0].ephemeral); }
  }

  lemma DecodeOfOneItem(v: Value, entry: Entry)
    requires DecodeEntry(v) == Some(entry)
    ensures DecodeEntries([v]) == Some([entry])
  {
    assert [v][1..] == [];
    var none: seq<Entry> := [];
    assert DecodeEntries([v][1..]) == Some(none) && [entry] + none == [entry];
  }

  lemma SortedOneItem(v: Value)
    ensures SortedItems([v]) == [Sorted(v)]
  {
    assert [v][1..] == [];
  }

  lemma OneEntryRead(key: RecipientKey)
    requires IsKey(key)
    ensures var items := [RecipientEntry(EncodeBase64Url(key.wrapped), None)];
      ShallowEntries(items) && DecodeEntries(SortedItems(items)) == Some([Entry(EncodeBase64Url(key.wrapped), None)])
  {
    var wrapped := EncodeBase64Url(key.wrapped);
    EntryIsShallow(wrapped, None);
    EncodedHasLength(key.wrapped);
    DecodeOfEntry(wrapped, None);
    SortedOneItem(RecipientEntry(wrapped, None));
    DecodeOfOneItem(Sorted(RecipientEntry(wrapped, None)), Entry(wrapped, None));
  }

  /** The items of a sealed body are shallow and read back. */
  lemma RecipientsRead(p: SealedParts, plaintextLength: nat) returns (items: seq<Value>, entries: seq<Entry>)
    requires IsSealed(p, plaintextLength)
    ensures items == if |p.keys| == 1 then [RecipientEntry(EncodeBase64Url(p.keys[0].wrapped), None)]
      else Entries(p.keys)
    ensures entries ==
      if |p.keys| == 1 then [Entry(EncodeBase64Url(p.keys[0].wrapped), None)] else SealedEntries(p.keys)
    ensures |items| == |p.keys| && ShallowEntries(items) && DecodeEntries(SortedItems(items)) == Some(entries)
  {
    if |p.keys| == 1 {
      items, entries := [RecipientEntry(EncodeBase64Url(p.keys[0].wrapped), None)],
        [Entry(EncodeBase64Url(p.keys[0].wrapped), None)];
      OneEntryRead(p.keys[0]);
    } else {
      items, entries := Entries(p.keys), SealedEntries(p.keys);
      EntriesAreShallow(p.keys);
      DecodeOfEntries(p.keys);
    }
  }

  lemma SealedBodyIsPlain(f: NumberFormat<int>, p: SealedParts, plaintextLength: nat)
    requires IsSealed(p, plaintextLength)
    ensures IsPlain(SealedBodyJson(f, p, plaintextLength))
  {
    if |p.keys| == 1 {
      SingleLength(f, p, plaintextLength);
    } else {
      MultipleLength(f, p, plaintextLength);
    }
  }

  /** Parsing and decoding the sealed bytes gives back every member that was sealed. */
  lemma SealedBodyReadsBack(f: NumberFormat<int>, p: SealedParts, plaintextLength: nat)
    requires StableFormat(f) && IsSealed(p, plaintextLength)
    ensures var parsed := ParseCanonicalJson(f, CanonicalBytes(f, SealedBodyJson(f, p, plaintextLength)));
      parsed.Some? && DecodeSealedBody(parsed.value) == Some(SealedBodyRead(f, p, plaintextLength))
  {
    var h := SealedHeader(p, plaintextLength);
    EncodedIsBytes(Print(f, HeaderJson(h)));
    BytesAreCanonical(Encode(Print(f, HeaderJson(h))));
    BytesAreCanonical(p.ciphertext);
    BytesAreCanonical(p.iv);
    BytesAreCanonical(p.tag);
    var items, entries := RecipientsRead(p, plaintextLength);
    var (ciphertext, iv, tag) := (EncodeBase64Url(p.ciphertext), EncodeBase64Url(p.iv), EncodeBase64Url(p.tag));
    RepresentationIsShallow(ciphertext, iv, EncodedHeader(f, h), items, tag);
    SealedBodyIsPlain(f, p, plaintextLength);
    PlainRoundTrip(f, Representation(ciphertext, iv, EncodedHeader(f, h), items, tag));
    DecodeOfRepresentation(ciphertext, iv, EncodedHeader(f, h), items, tag, entries);
  }

  /** The canonical encoder never refuses a sealed body. */
  lemma SealedBodyIsValid(f: NumberFormat<int>, p: SealedParts, plaintextLength: nat)
    requires IsSealed(p, plaintextLength)
    ensures Valid(f, SealedBodyJson(f, p, plaintextLength))
  {
    var items, entries := RecipientsRead(p, plaintextLength);
    RepresentationIsShallow(EncodeBase64Url(p.ciphertext), EncodeBase64Url(p.iv),
                            EncodedHeader(f, SealedHeader(p, plaintextLength)), items, EncodeBase64Url(p.tag));
    SealedBodyIsPlain(f, p, plaintextLength);
    PlainIsValid(f, SealedBodyJson(f, p, plaintextLength), 0);
  }
}
