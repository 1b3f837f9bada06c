/** Exactly which bodies open, packages/identity/src/sealed-body.ts. */
module SealedReading {
  import opened Wrappers
  import opened ByteStrings
  import opened Lexicographic
  import opened Sequences
  import opened Utf8
  import opened Json
  import opened CanonicalJson
  import opened JsonSizes
  import opened JsonSchemas
  import opened Identifiers
  import opened SealedFormat
  import opened SealedSizes
  import opened SealedSchemas
  import opened SealedBodies

  // The schema of a sealed body accepts one byte string for each body, and opening succeeds in exactly the
  // cases its documentation lists.

  // -------------------------------------------- objects known by their keys

  lemma {:induction false} LookupIsMember(members: seq<Field>, key: Text)
    requires Lookup(members, key).Some?
    ensures Member(key, Lookup(members, key).value) in members
  {
    if members[0].key != key {
      LookupIsMember(members[1..], key);
      assert members == [members[0]] + members[1..];
    }
  }

  lemma {:induction false} MemberIsLookup(members: seq<Field>, m: Field)
    requires DistinctKeys(members) && m in members
    ensures Lookup(members, m.key) == Some(m.value)
  {
    assert members == [members[0]] + members[1..];
    if members[0] != m {
      MemberIsLookup(members[1..], m);
      LookupIffHasKey(members[1..], m.key);
    }
  }

  lemma {:induction false} DistinctKeysNoRepeats(members: seq<Field>)
    requires DistinctKeys(members)
    ensures NoRepeats(members)
  {
    if members != [] {
      DistinctKeysNoRepeats(members[1..]);
      if members[0] in members[1..] {
        MemberIsLookup(members[1..], members[0]);
        LookupIffHasKey(members[1..], members[0].key);
      }
      forall i, j | 0 <= i < j < |members| ensures members[i] != members[j] {
        assert members[j] == members[1..][j - 1];
        if i > 0 { assert members[i] == members[1..][i - 1]; }
      }
    }
  }

  lemma AllOfThem(a: seq<Field>, b: seq<Field>)
    requires NoRepeats(a) && NoRepeats(b) && |a| == |b| && forall m :: m in b ==> m in a
    ensures multiset(a) == multiset(b)
  {
    forall m ensures multiset(b)[m] <= multiset(a)[m] {
      CountedOnce(a, m);
      CountedOnce(b, m);
    }
    assert multiset(b) <= multiset(a);
    assert |multiset(a) - multiset(b)| == |a| - |b|;
    assert multiset(a) == multiset(b) + (multiset(a) - multiset(b));
  }

  ghost predicate SameAt(a: seq<Field>, b: seq<Field>, key: Text) {
    SortedOption(Lookup(a, key)) == SortedOption(Lookup(b, key))
  }

  /** Two objects of one size are the same data when one has all the other's members. */
  lemma SameDataByKeys(a: seq<Field>, b: seq<Field>)
    requires DistinctKeys(a) && DistinctKeys(b) && |a| == |b|
    requires forall key :: HasKey(b, key) ==> SameAt(a, b, key)
    ensures SameData(Obj(a), Obj(b))
  {
    var (x, y) := (SortedMembers(a), SortedMembers(b));
    SortedMembersKeepKeys(a);
    SortedMembersKeepKeys(b);
    DistinctKeysNoRepeats(x);
    DistinctKeysNoRepeats(y);
    forall m | m in y ensures m in x {
      MemberIsLookup(y, m);
      LookupIffHasKey(y, m.key);
      LookupOfSortedMembers(a, m.key);
      LookupOfSortedMembers(b, m.key);
      assert SameAt(a, b, m.key);
      LookupIsMember(x, m.key);
    }
    AllOfThem(x, y);
    DistinctKeysDetermine(x);
    SortByIgnoresOrder(x, y, KeyOf);
  }

  // ------------------------------------------------------ the schema exactly

  predicate IsEntry(e: Entry) {
    HasCanonicalBase64UrlLength(e.encryptedKey, 40)
    && (e.epk.Some? ==> HasCanonicalBase64UrlLength(e.epk.value, 32))
  }

  predicate AreEntries(entries: seq<Entry>) {
    entries == [] || (IsEntry(entries[0]) && AreEntries(entries[1..]))
  }

  /** What a sealed body may hold: canonical base64url of the lengths of its parts, and 1 to 128 entries. */
  predicate IsBody(body: Body) {
    && DecodeCanonicalBase64Url(body.ciphertext).Some? && DecodeCanonicalBase64Url(body.protectedHeader).Some?
    && HasCanonicalBase64UrlLength(body.iv, 12) && HasCanonicalBase64UrlLength(body.tag, 16)
    && 1 <= |body.recipients| <= 128 && AreEntries(body.recipients)
  }

  function EntryItems(entries: seq<Entry>): (items: seq<Value>)
    ensures |items| == |entries|
  {
    if entries == [] then []
    else [RecipientEntry(entries[0].encryptedKey, entries[0].epk)] + EntryItems(entries[1..])
  }

  function BodyJson(body: Body): Value {
    Representation(body.ciphertext, body.iv, body.protectedHeader, EntryItems(body.recipients), body.tag)
  }

  lemma TextIsLookup(members: seq<Field>, key: Text, t: Text)
    requires TextAt(members, key) == Some(t)
    ensures Lookup(members, key) == Some(Str(t))
  {
  }

  lemma EphemeralKeyData(v: Value, x: Text)
    requires DecodeEphemeralKey(v) == Some(x) && KeysUnique(v)
    ensures SameData(v, EphemeralKey(x)) && HasCanonicalBase64UrlLength(x, 32)
  {
    var given := EphemeralKey(x).members;
    EphemeralKeyMembers(x);
    KeysDiffer();
    LookupIn3(Member(Ascii("x"), Str(x)), Member(Ascii("crv"), Str(Ascii("X25519"))),
              Member(Ascii("kty"), Str(Ascii("OKP"))));
    TextIsLookup(v.members, Ascii("x"), x);
    forall key | HasKey(given, key) ensures SameAt(v.members, given, key) {
      assert key == Ascii("x") || key == Ascii("crv") || key == Ascii("kty");
    }
    SameDataByKeys(v.members, given);
  }

  lemma EntryHeaderData(v: Value, x: Text)
    requires DecodeEntryHeader(Some(v)) == Some(x) && KeysUnique(v)
    ensures var header: Value := Obj([Member(Ascii("epk"), EphemeralKey(x))]);
      SameData(v, header) && HasCanonicalBase64UrlLength(x, 32)
  {
    var given: seq<Field> := [Member(Ascii("epk"), EphemeralKey(x))];
    LookupIn1(given[0]);
    FoundIsUnique(v.members, Ascii("epk"));
    EphemeralKeyData(Lookup(v.members, Ascii("epk")).value, x);
    forall key | HasKey(given, key) ensures SameAt(v.members, given, key) {
      assert key == Ascii("epk");
    }
    SameDataByKeys(v.members, given);
  }

  lemma EntryData(v: Value, e: Entry)
    requires DecodeEntry(v) == Some(e) && KeysUnique(v)
    ensures SameData(v, RecipientEntry(e.encryptedKey, e.epk)) && IsEntry(e)
  {
    KeysDiffer();
    var given := RecipientEntry(e.encryptedKey, e.epk).members;
    var key: Field := Member(Ascii("encrypted_key"), Str(e.encryptedKey));
    TextIsLookup(v.members, Ascii("encrypted_key"), e.encryptedKey);
    match e.epk {
      case None => LookupIn1(key);
      case Some(x) =>
        LookupIn2(key, Member(Ascii("header"), Obj([Member(Ascii("epk"), EphemeralKey(x))])));
        FoundIsUnique(v.members, Ascii("header"));
        EntryHeaderData(Lookup(v.members, Ascii("header")).value, x);
    }
    forall k | HasKey(given, k) ensures SameAt(v.members, given, k) {
      assert k == Ascii("encrypted_key") || k == Ascii("header");
    }
    SameDataByKeys(v.members, given);
  }

  lemma {:induction false} EntriesData(items: seq<Value>, entries: seq<Entry>)
    requires DecodeEntries(items) == Some(entries) && ItemsUnique(items)
    ensures SortedItems(items) == SortedItems(EntryItems(entries)) && AreEntries(entries) && |entries| == |items|
  {
    if items != [] {
      EntryData(items[0], entries[0]);
      EntriesData(items[1..], entries[1..]);
      assert EntryItems(entries)[1..] == EntryItems(entries[1..]);
    }
  }

  lemma BodyData(v: Value, body: Body)
    requires DecodeSealedBody(v) == Some(body) && KeysUnique(v)
    ensures SameData(v, BodyJson(body)) && IsBody(body)
  {
    var items := EntryItems(body.recipients);
    var given := BodyJson(body).members;
    RepresentationMembers(body.ciphertext, body.iv, body.protectedHeader, items, body.tag);
    BodyKeysDiffer();
    FoundIsUnique(v.members, Ascii("recipients"));
    EntriesData(Lookup(v.members, Ascii("recipients")).value.items, body.recipients);
    BodySameAt(v.members, body, given);
    SameDataByKeys(v.members, given);
  }

  lemma BodySameAt(members: seq<Field>, body: Body, given: seq<Field>)
    requires DecodeMembers(members) == Some(body) && given == BodyJson(body).members
    requires Lookup(members, Ascii("recipients")).Some? && Lookup(members, Ascii("recipients")).value.Arr?
    requires SortedItems(Lookup(members, Ascii("recipients")).value.items) == SortedItems(EntryItems(body.recipients))
    ensures forall key :: HasKey(given, key) ==> SameAt(members, given, key)
  {
    BodyKeysDiffer();
    RepresentationMembers(body.ciphertext, body.iv, body.protectedHeader, EntryItems(body.recipients), body.tag);
    LookupIn5(given[0], given[1], given[2], given[3], given[4]);
    TextIsLookup(members, Ascii("ciphertext"), body.ciphertext);
    TextIsLookup(members, Ascii("iv"), body.iv);
    TextIsLookup(members, Ascii("protected"), body.protectedHeader);
    TextIsLookup(members, Ascii("tag"), body.tag);
    assert given == [given[0], given[1], given[2], given[3], given[4]];
    forall key | HasKey(given, key) ensures SameAt(members, given, key) {
      assert key == Ascii("ciphertext") || key == Ascii("iv") || key == Ascii("protected") || key == Ascii("recipients")
        || key == Ascii("tag");
    }
  }

  // ------------------------------------------------------------ and back

  lemma {:induction false} EntryItemsRead(entries: seq<Entry>)
    requires AreEntries(entries)
    ensures var items := EntryItems(entries);
      PlainItems(items) && ShallowEntries(items) && DecodeEntries(SortedItems(items)) == Some(entries)
  {
    if entries != [] {
      var e := entries[0];
      EntryItemsRead(entries[1..]);
      CanonicalText(e.encryptedKey, 40);
      if e.epk.Some? { CanonicalText(e.epk.value, 32); }
      EntryLength(e.encryptedKey, e.epk);
      EntryIsShallow(e.encryptedKey, e.epk);
      DecodeOfEntry(e.encryptedKey, e.epk);
      FirstItemRead(entries);
    }
  }

  lemma FirstItemRead(entries: seq<Entry>)
    requires entries != []
    ensures var items := EntryItems(entries);
      && items[0] == RecipientEntry(entries[0].encryptedKey, entries[0].epk) && items[1..] == EntryItems(entries[1..])
      && SortedItems(items)[0] == Sorted(items[0]) && SortedItems(items)[1..] == SortedItems(EntryItems(entries[1..]))
      && [entries[0]] + entries[1..] == entries
  {
    var items := EntryItems(entries);
    assert items[1..] == EntryItems(entries[1..]);
    assert SortedItems(items)[1..] == SortedItems(items[1..]);
  }

  lemma CanonicalIsPlain(t: Text)
    requires DecodeCanonicalBase64Url(t).Some?
    ensures IsPlainText(t)
  {
    CanonicalText(t, |DecodeCanonicalBase64Url(t).value|);
  }

  lemma BodyIsPlain(body: Body)
    requires IsBody(body)
    ensures IsPlain(BodyJson(body)) && Depth(BodyJson(body)) <= 5 && KeysUnique(BodyJson(body))
  {
    var items := EntryItems(body.recipients);
    EntryItemsRead(body.recipients);
    CanonicalIsPlain(body.ciphertext);
    CanonicalIsPlain(body.protectedHeader);
    CanonicalText(body.iv, 12);
    CanonicalText(body.tag, 16);
    RepresentationLength(body.ciphertext, body.iv, body.protectedHeader, items, body.tag);
    RepresentationIsShallow(body.ciphertext, body.iv, body.protectedHeader, items, body.tag);
  }

  /** What opening reads from the bytes of a message. */
  function ReadBody(f: NumberFormat<int>, bytes: Bytes): Option<Body> {
    match ParseCanonicalJson(f, bytes)
    case None => None
    case Some(v) => DecodeSealedBody(v)
  }

  /** Each body has exactly one accepted spelling: the canonical encoding of its five members. */
  lemma BodyHasOneSpelling(f: NumberFormat<int>, bytes: Bytes, body: Body)
    requires StableFormat(f)
    ensures ReadBody(f, bytes) == Some(body) <==> IsBody(body) && bytes == CanonicalBytes(f, BodyJson(body))
  {
    if ReadBody(f, bytes) == Some(body) {
      var v := ParseCanonicalJson(f, bytes).value;
      AcceptedIsValid(f, bytes);
      BodyData(v, body);
      EncodeOfParse(f, bytes);
    }
    if IsBody(body) && bytes == CanonicalBytes(f, BodyJson(body)) {
      BodyIsPlain(body);
      PlainRoundTrip(f, BodyJson(body));
      EntryItemsRead(body.recipients);
      DecodeOfRepresentation(body.ciphertext, body.iv, body.protectedHeader, EntryItems(body.recipients), body.tag,
                             body.recipients);
    }
  }

  // ------------------------------------------------------- exactly what opens

  lemma {:induction false} IndexOfIff(ids: seq<Text>, id: Text, i: nat)
    requires i < |ids|
    ensures IndexOf(ids, id) == i <==> ids[i] == id && id !in ids[..i]
  {
    if i > 0 {
      IndexOfIff(ids[1..], id, i - 1);
      assert ids[..i] == [ids[0]] + ids[1..][..i - 1];
    }
  }

  /** The agent's place in the signed message, its first. */
  ghost predicate IsPlace(ids: seq<Text>, id: Text, i: nat) {
    i < |ids| && ids[i] == id && id !in ids[..i]
  }

  /** A single recipient's ephemeral key is in the header, those of several are in their entries. */
  ghost predicate IsPlaced(body: Body, header: Header) {
    if |body.recipients| == 1 then header.epk.Some? && body.recipients[0].epk.None?
    else header.epk.None? && forall e :: e in body.recipients ==> e.epk.Some?
  }

  /** The body and header a message is read as, and everything that must fit before anything is decrypted. */
  ghost predicate Fits(f: NumberFormat<int>, card: Card, authority: Authority, message: SignedMessage, body: Body,
                       header: Header, i: nat) {
    && authority.publicKey == card.publicKey
    && IsBody(body) && message.body == CanonicalBytes(f, BodyJson(body))
    && IsHeader(header) && body.protectedHeader == EncodedHeader(f, header)
    && header.sender == message.sender && header.messageId == message.messageId
    && |body.recipients| == |message.recipients| && IsPlace(message.recipients, card.agentId, i)
    && IsPlaced(body, header)
  }

  lemma PlacementIff(body: Body, header: Header)
    requires body.recipients != []
    ensures HasValidPlacement(body, header) <==> IsPlaced(body, header)
  {
    if HasValidPlacement(body, header) {
      forall e | e in body.recipients ensures e.epk.None? <==> |body.recipients| == 1 {
        var i :| 0 <= i < |body.recipients| && body.recipients[i] == e;
      }
    }
    if IsPlaced(body, header) {
      forall i | 0 <= i < |body.recipients| ensures body.recipients[i].epk.None? == (|body.recipients| == 1) {
        assert body.recipients[i] in body.recipients;
      }
    }
  }

  lemma OpenableIff(f: NumberFormat<int>, card: Card, authority: Authority, message: SignedMessage, body: Body,
                    header: Header, entry: Entry)
    requires StableFormat(f)
    ensures Openable(f, card, authority, message) == Some((body, header, entry)) <==>
      exists i: nat :: Fits(f, card, authority, message, body, header, i) && entry == body.recipients[i]
  {
    BodyHasOneSpelling(f, message.body, body);
    HeaderHasOneSpelling(f, body.protectedHeader, header);
    if body.recipients != [] { PlacementIff(body, header); }
    var index := IndexOf(message.recipients, card.agentId);
    if Openable(f, card, authority, message) == Some((body, header, entry)) {
      IndexOfIff(message.recipients, card.agentId, index);
      assert Fits(f, card, authority, message, body, header, index);
    }
    if i: nat :| Fits(f, card, authority, message, body, header, i) && entry == body.recipients[i] {
      IndexOfIff(message.recipients, card.agentId, i);
    }
  }

  /** The bytes decrypted from the agent's entry, and that the header commits to them. */
  ghost predicate Yields(suite: Suite, authority: Authority, body: Body, header: Header, i: nat, salted: Bytes) {
    && i < |body.recipients|
    && suite.decrypt(authority.openingKey, body.(recipients := [body.recipients[i]])) == Some(salted)
    && |salted| >= 32 && DecodeCanonicalBase64Url(header.commitment) == Some(suite.hash(salted))
  }

  lemma CommitmentIff(suite: Suite, salted: Bytes, commitment: Text)
    requires IsSuite(suite)
    ensures CommitmentOf(suite, salted) == commitment <==>
      DecodeCanonicalBase64Url(commitment) == Some(suite.hash(salted))
  {
    assert HashesTo32Bytes(suite, salted);
    CanonicalIffEncoding(commitment, suite.hash(salted));
  }

  ghost predicate OpensAs(f: NumberFormat<int>, suite: Suite, card: Card, authority: Authority,
                          message: SignedMessage, body: Body, header: Header, i: nat, salted: Bytes) {
    Fits(f, card, authority, message, body, header, i) && Yields(suite, authority, body, header, i, salted)
  }

  lemma OpensOnly(f: NumberFormat<int>, suite: Suite, card: Card, authority: Authority, message: SignedMessage)
    returns (body: Body, header: Header, i: nat, salted: Bytes)
    requires StableFormat(f) && IsSuite(suite) && Open(f, suite, card, authority, message).Some?
    ensures OpensAs(f, suite, card, authority, message, body, header, i, salted)
    ensures Open(f, suite, card, authority, message) == Some(salted[32..])
  {
    var entry: Entry;
    body, header, entry := Openable(f, card, authority, message).value.0, Openable(f, card, authority, message).value.1,
      Openable(f, card, authority, message).value.2;
    OpenableIff(f, card, authority, message, body, header, entry);
    i :| Fits(f, card, authority, message, body, header, i) && entry == body.recipients[i];
    salted := suite.decrypt(authority.openingKey, body.(recipients := [entry])).value;
    CommitmentIff(suite, salted, header.commitment);
  }

  lemma OpensWhen(f: NumberFormat<int>, suite: Suite, card: Card, authority: Authority, message: SignedMessage,
                  body: Body, header: Header, i: nat, salted: Bytes)
    requires StableFormat(f) && IsSuite(suite)
    requires OpensAs(f, suite, card, authority, message, body, header, i, salted)
    ensures Open(f, suite, card, authority, message) == Some(salted[32..])
  {
    OpenableIff(f, card, authority, message, body, header, body.recipients[i]);
    CommitmentIff(suite, salted, header.commitment);
  }

  /**
   * A message opens to a plaintext exactly when it fits and its agent's entry yields that plaintext behind
   * 32 bytes of salt. Every refusal is one of these conditions, and nothing else is refused.
   */
  lemma OpensIff(f: NumberFormat<int>, suite: Suite, card: Card, authority: Authority, message: SignedMessage,
                 plaintext: Bytes)
    requires StableFormat(f) && IsSuite(suite)
    ensures Open(f, suite, card, authority, message) == Some(plaintext) <==>
      exists body, header, i, salted ::
        OpensAs(f, suite, card, authority, message, body, header, i, salted) && plaintext == salted[32..]
  {
    if Open(f, suite, card, authority, message) == Some(plaintext) {
      var body, header, i, salted := OpensOnly(f, suite, card, authority, message);
    }
    forall body, header, i, salted | OpensAs(f, suite, card, authority, message, body, header, i, salted)
      ensures Open(f, suite, card, authority, message) == Some(salted[32..])
    {
      OpensWhen(f, suite, card, authority, message, body, header, i, salted);
    }
  }

  /** Signing takes exactly the lists of 1 to 128 different recipients, in any order, and sorts them. */
  lemma SigningIff(ids: seq<Text>)
    requires AllAgentIds(ids)
    ensures SigningRecipients(ids).Some? <==> 1 <= |ids| <= 128 && NoRepeats(ids)
    ensures SigningRecipients(ids).Some? ==>
      var recipients := SigningRecipients(ids).value;
      multiset(recipients) == multiset(ids)
      && forall i, j :: 0 <= i < j < |recipients| ==> Less(DecodedId(recipients[i]), DecodedId(recipients[j]))
  {
    var recipients := SortBy(ids, DecodedId);
    SortByFacts(ids, DecodedId);
    AgentIdsOfPermutation(ids, recipients);
    if NoRepeats(ids) {
      NoRepeatsOfPermutation(ids, recipients);
      forall i, j | 0 <= i < j < |recipients| ensures DecodedId(recipients[i]) != DecodedId(recipients[j]) {
        DecodedIdsAreEqual(recipients[i], recipients[j]);
      }
      SortedDistinctIsAscending(recipients, DecodedId);
    }
    if AscendingBy(recipients, DecodedId) {
      forall i, j | 0 <= i < j < |recipients|
        ensures recipients[i] != recipients[j] && Less(DecodedId(recipients[i]), DecodedId(recipients[j]))
      {
        AscendingPairwise(recipients, DecodedId, i, j);
        LessIsTotal(DecodedId(recipients[i]), DecodedId(recipients[j]));
      }
      NoRepeatsOfPermutation(recipients, ids);
    }
  }
}
