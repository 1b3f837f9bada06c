/** Sealing and opening of packages/identity/src/sealed-body.ts. */
module SealedBodies {
  import opened Wrappers
  import opened ByteStrings
  import opened Lexicographic
  import opened Sequences
  import opened Utf8
  import opened Json
  import opened CanonicalJson
  import opened Identifiers
  import opened SealedFormat
  import opened SealedSchemas

  // The recipient list is that of packages/identity/src/signed-message.ts. Cryptography is a suite of
  // functions: sealing assumes only that an opening key unwraps what was wrapped to it, agreement
  // assumes nothing of decryption at all.

  datatype Encrypted = Encrypted(ciphertext: Bytes, tag: Bytes)

  /** Keys are integers; an ephemeral key is its seed. */
  datatype Suite = Suite(
    hash: Bytes -> Bytes,
    sealingKey: int -> Option<int>,
    ephemeralPublic: Bytes -> Bytes,
    wrap: (int, Bytes, Bytes) -> Bytes,
    encrypt: (Bytes, Bytes, Text, Bytes) -> Encrypted,
    decrypt: (int, Body) -> Option<Bytes>)

  ghost predicate HashesTo32Bytes(suite: Suite, b: Bytes) {
    IsBytes(suite.hash(b)) && |suite.hash(b)| == COMMITMENT_BYTES
  }

  ghost predicate WrapsToKey(suite: Suite, sealingKey: int, ephemeral: Bytes, contentKey: Bytes) {
    IsKey(RecipientKey(suite.wrap(sealingKey, ephemeral, contentKey), suite.ephemeralPublic(ephemeral)))
  }

  ghost predicate KeepsLength(suite: Suite, contentKey: Bytes, iv: Bytes, header: Text, plaintext: Bytes) {
    var e := suite.encrypt(contentKey, iv, header, plaintext);
    IsBytes(e.ciphertext) && |e.ciphertext| == |plaintext| && IsBytes(e.tag) && |e.tag| == TAG_BYTES
  }

  /** Output sizes only. */
  ghost predicate IsSuite(suite: Suite) {
    && (forall b :: HashesTo32Bytes(suite, b))
    && (forall sealingKey, ephemeral, contentKey :: WrapsToKey(suite, sealingKey, ephemeral, contentKey))
    && (forall contentKey, iv, header, plaintext :: KeepsLength(suite, contentKey, iv, header, plaintext))
  }

  function CommitmentOf(suite: Suite, saltedPlaintext: Bytes): Text
    requires IsSuite(suite)
  {
    assert HashesTo32Bytes(suite, saltedPlaintext);
    EncodeBase64Url(suite.hash(saltedPlaintext))
  }

  // ------------------------------------------------------ recipient order

  datatype Card = Card(agentId: Text, publicKey: int)

  /** What `compareAgentIds` compares. */
  function DecodedId(id: Text): seq<int> {
    match DecodeCanonicalBase64Url(if |id| >= 4 then id[4..] else [])
    case None => []
    case Some(b) => b
  }

  function CardKey(card: Card): seq<int> {
    DecodedId(card.agentId)
  }

  function Ids(cards: seq<Card>): seq<Text> {
    if cards == [] then [] else [cards[0].agentId] + Ids(cards[1..])
  }

  ghost predicate AllAgentIds(ids: seq<Text>) {
    forall i :: 0 <= i < |ids| ==> IsAgentId(ids[i])
  }

  /** `snapshotRecipients` of the sealer: 1 to 128 distinct recipients, by decoded AgentId. */
  function SnapshotRecipients(cards: seq<Card>): Option<seq<Card>> {
    if !(1 <= |cards| <= MAXIMUM_RECIPIENTS) || !NoRepeats(Ids(cards)) then None
    else Some(SortBy(cards, CardKey))
  }

  /** `snapshotRecipients` of the signer, on its own list of ids. */
  function SigningRecipients(ids: seq<Text>): Option<seq<Text>> {
    var recipients := SortBy(ids, DecodedId);
    if recipients == [] || |recipients| > MAXIMUM_RECIPIENTS || !AscendingBy(recipients, DecodedId) then None
    else Some(recipients)
  }

  /** `recipientsAreCanonical`: no id is equal to or after the one that follows it. */
  method RecipientsAreCanonical(ids: seq<Text>) returns (canonical: bool)
    requires AllAgentIds(ids)
    ensures canonical == AscendingBy(ids, DecodedId)
  {
    var index := 1;
    while index < |ids|
      invariant 1 <= index
      invariant index <= |ids| || |ids| == 0
      invariant AscendingBy(ids, DecodedId) <==> (|ids| == 0 || AscendingBy(ids[index - 1..], DecodedId))
    {
      DecodedIdIsBytes(ids[index - 1]);
      DecodedIdIsBytes(ids[index]);
      var order := CompareAgentIds(ids[index - 1], ids[index]);
      LessIsTotal(DecodedId(ids[index - 1]), DecodedId(ids[index]));
      assert ids[index - 1..][0] == ids[index - 1] && ids[index - 1..][1] == ids[index];
      assert ids[index - 1..][1..] == ids[index..];
      if order >= 0 {
        return false;
      }
      index := index + 1;
    }
    return true;
  }

  lemma DecodedIdIsBytes(id: Text)
    requires IsAgentId(id)
    ensures DecodedId(id) == AgentIdBytes(id)
  {
    PatternIsCanonicality(id[4..], 16);
  }

  lemma DecodedIdsAreEqual(left: Text, right: Text)
    requires IsAgentId(left) && IsAgentId(right)
    ensures DecodedId(left) == DecodedId(right) <==> left == right
  {
    DecodedIdIsBytes(left);
    DecodedIdIsBytes(right);
    EqualBytesEqualIds(left, right);
  }

  lemma {:induction false} IdsAt(cards: seq<Card>)
    ensures |Ids(cards)| == |cards| && forall i :: 0 <= i < |cards| ==> Ids(cards)[i] == cards[i].agentId
  {
    if cards != [] { IdsAt(cards[1..]); }
  }

  lemma {:induction false} IdsOfInsert(card: Card, cards: seq<Card>)
    ensures Ids(InsertBy(card, cards, CardKey)) == InsertBy(card.agentId, Ids(cards), DecodedId)
  {
    if cards != [] && !Less(CardKey(card), CardKey(cards[0])) {
      IdsOfInsert(card, cards[1..]);
      assert InsertBy(card, cards, CardKey)[1..] == InsertBy(card, cards[1..], CardKey);
      assert Ids(cards)[1..] == Ids(cards[1..]);
    } else {
      assert InsertBy(card, cards, CardKey)[1..] == cards;
    }
  }

  lemma {:induction false} IdsOfAppend(cards: seq<Card>, card: Card)
    ensures Ids(cards + [card]) == Ids(cards) + [card.agentId]
  {
    if cards == [] {
      assert cards + [card] == [card] && Ids([card]) == [card.agentId];
    } else {
      IdsOfAppend(cards[1..], card);
      assert (cards + [card])[1..] == cards[1..] + [card];
    }
  }

  /** Sorting cards by their ids sorts the ids. */
  lemma {:induction false} IdsOfSort(cards: seq<Card>)
    ensures Ids(SortBy(cards, CardKey)) == SortBy(Ids(cards), DecodedId)
  {
    if cards != [] {
      var before, last := cards[..|cards| - 1], cards[|cards| - 1];
      assert cards == before + [last];
      IdsOfAppend(before, last);
      IdsOfSort(before);
      IdsOfInsert(last, SortBy(before, CardKey));
      assert Ids(cards)[..|Ids(cards)| - 1] == Ids(before);
    }
  }

  lemma AgentIdsDetermine(ids: seq<Text>)
    requires AllAgentIds(ids)
    ensures KeysDetermine(multiset(ids), DecodedId)
  {
    forall x, y | x in multiset(ids) && y in multiset(ids) && DecodedId(x) == DecodedId(y) ensures x == y {
      assert x in ids && y in ids;
      DecodedIdsAreEqual(x, y);
    }
  }

  lemma AgentIdsOfPermutation(ids: seq<Text>, others: seq<Text>)
    requires multiset(ids) == multiset(others) && AllAgentIds(ids)
    ensures AllAgentIds(others)
  {
    forall i | 0 <= i < |others| ensures IsAgentId(others[i]) {
      assert others[i] in multiset(ids);
    }
  }

  /**
   * Sealer and signer sort on their own and meet at the same list: the signer accepts any listing of
   * the sealer's recipients and names them in the order of the sealed entries.
   */
  lemma SealerAndSignerAgree(cards: seq<Card>, ids: seq<Text>)
    requires SnapshotRecipients(cards).Some? && AllAgentIds(Ids(cards)) && multiset(ids) == multiset(Ids(cards))
    ensures SigningRecipients(ids) == Some(Ids(SnapshotRecipients(cards).value))
    ensures NoRepeats(Ids(SnapshotRecipients(cards).value))
  {
    var sorted := SortBy(ids, DecodedId);
    IdsOfSort(cards);
    AgentIdsDetermine(Ids(cards));
    SortByIgnoresOrder(Ids(cards), ids, DecodedId);
    SortByFacts(ids, DecodedId);
    AgentIdsOfPermutation(Ids(cards), sorted);
    NoRepeatsOfPermutation(Ids(cards), sorted);
    forall i, j | 0 <= i < j < |sorted| ensures DecodedId(sorted[i]) != DecodedId(sorted[j]) {
      DecodedIdsAreEqual(sorted[i], sorted[j]);
    }
    SortedDistinctIsAscending(sorted, DecodedId);
    SortByFacts(cards, CardKey);
    IdsAt(SortBy(cards, CardKey));
  }

  // --------------------------------------------------------------- sealing

  datatype SealInput = SealInput(sender: Text, cards: seq<Card>, messageId: Text, plaintext: Bytes)

  /** What the platform draws while sealing, and whether its digest and encryption complete. */
  datatype Randomness = Randomness(salt: Bytes, contentKey: Bytes, iv: Bytes, ephemerals: seq<Bytes>, completes: bool)

  ghost predicate IsSealInput(input: SealInput, random: Randomness) {
    && IsAgentId(input.sender) && IsIdentifier(input.messageId, Ascii("msg_"), 16)
    && AllAgentIds(Ids(input.cards)) && IsBytes(input.plaintext)
    && IsBytes(random.salt) && |random.salt| == SALT_BYTES && IsBytes(random.iv) && |random.iv| == IV_BYTES
    && |random.ephemerals| == |input.cards|
  }

  /** `x25519SealingKey` of every recipient, or the first failure. */
  function SealingKeys(suite: Suite, cards: seq<Card>): (keys: Option<seq<int>>)
    ensures keys.Some? ==> |keys.value| == |cards|
  {
    if cards == [] then Some([])
    else
      match suite.sealingKey(cards[0].publicKey)
      case None => None
      case Some(key) =>
        match SealingKeys(suite, cards[1..])
        case None => None
        case Some(keys) => Some([key] + keys)
  }

  function WrappedKey(suite: Suite, sealingKey: int, ephemeral: Bytes, contentKey: Bytes): RecipientKey {
    RecipientKey(suite.wrap(sealingKey, ephemeral, contentKey), suite.ephemeralPublic(ephemeral))
  }

  function WrappedKeys(suite: Suite, keys: seq<int>, random: Randomness): (r: seq<RecipientKey>)
    requires |keys| <= |random.ephemerals|
    ensures |r| == |keys|
    ensures forall i :: 0 <= i < |keys| ==> r[i] == WrappedKey(suite, keys[i], random.ephemerals[i], random.contentKey)
  {
    if keys == [] then []
    else
      var last := |keys| - 1;
      WrappedKeys(suite, keys[..last], random)
        + [WrappedKey(suite, keys[last], random.ephemerals[last], random.contentKey)]
  }

  lemma {:induction false} WrappedAreKeys(suite: Suite, keys: seq<RecipientKey>)
    requires forall i :: 0 <= i < |keys| ==> IsKey(keys[i])
    ensures AreKeys(keys)
  {
    if keys != [] { WrappedAreKeys(suite, keys[1..]); }
  }

  /** The header for one recipient names its ephemeral key. */
  function SealingHeader(suite: Suite, input: SealInput, random: Randomness, recipientCount: nat): Header
    requires IsSuite(suite) && 1 <= recipientCount <= |random.ephemerals|
  {
    assert WrapsToKey(suite, 0, random.ephemerals[0], []);
    Header(CommitmentOf(suite, random.salt + input.plaintext), input.messageId, input.sender,
           if recipientCount == 1 then Some(EncodeBase64Url(suite.ephemeralPublic(random.ephemerals[0]))) else None)
  }

  function Parts(f: NumberFormat<int>, suite: Suite, input: SealInput, random: Randomness, keys: seq<int>): SealedParts
    requires IsSuite(suite) && 1 <= |keys| <= |random.ephemerals|
  {
    var header := SealingHeader(suite, input, random, |keys|);
    var e := suite.encrypt(random.contentKey, random.iv, EncodedHeader(f, header), random.salt + input.plaintext);
    SealedParts(header.commitment, input.messageId, input.sender, random.iv, e.tag, e.ciphertext,
                WrappedKeys(suite, keys, random))
  }

  lemma PartsAreSealed(f: NumberFormat<int>, suite: Suite, input: SealInput, random: Randomness, keys: seq<int>)
    requires IsSuite(suite) && IsSealInput(input, random) && |keys| == |input.cards|
      && 1 <= |keys| <= MAXIMUM_RECIPIENTS
    ensures IsSealed(Parts(f, suite, input, random, keys), |input.plaintext|)
    ensures SealedHeader(Parts(f, suite, input, random, keys), |input.plaintext|) ==
      SealingHeader(suite, input, random, |keys|)
  {
    var salted := random.salt + input.plaintext;
    assert HashesTo32Bytes(suite, salted);
    var wrapped := WrappedKeys(suite, keys, random);
    forall i | 0 <= i < |wrapped| ensures IsKey(wrapped[i]) {
      assert WrapsToKey(suite, keys[i], random.ephemerals[i], random.contentKey);
    }
    WrappedAreKeys(suite, wrapped);
    assert KeepsLength(suite, random.contentKey, random.iv,
                       EncodedHeader(f, SealingHeader(suite, input, random, |keys|)), salted);
  }

  /** The bytes that sealing returns, or none for its one error. */
  function SealedBytes(f: NumberFormat<int>, suite: Suite, input: SealInput, random: Randomness): Option<Bytes>
    requires IsSuite(suite) && IsSealInput(input, random)
  {
    match SnapshotRecipients(input.cards)
    case None => None
    case Some(recipients) =>
      SortByFacts(input.cards, CardKey);
      match SealingKeys(suite, recipients)
      case None => None
      case Some(keys) => if random.completes then EncodedParts(f, suite, input, random, keys) else None
  }

  /** The canonical encoding of what sealing to `keys` produces. */
  function EncodedParts(f: NumberFormat<int>, suite: Suite, input: SealInput, random: Randomness,
                        keys: seq<int>): Option<Bytes>
    requires IsSuite(suite) && IsSealInput(input, random) && |keys| == |input.cards|
      && 1 <= |keys| <= MAXIMUM_RECIPIENTS
  {
    PartsAreSealed(f, suite, input, random, keys);
    EncodeCanonicalJson(f, SealedBodyJson(f, Parts(f, suite, input, random, keys), |input.plaintext|))
  }

  /** `seal`: the salted buffer, the commitment, and one recipient at a time. */
  method Seal(f: NumberFormat<int>, suite: Suite, input: SealInput, random: Randomness) returns (r: Option<Bytes>)
    requires IsSuite(suite) && IsSealInput(input, random)
    ensures r == SealedBytes(f, suite, input, random)
  {
    var snapshot := SnapshotRecipients(input.cards);
    if snapshot.None? {
      return None;
    }
    var recipients := snapshot.value;
    SortByFacts(input.cards, CardKey);
    var salted := SaltedPlaintext(random.salt, input.plaintext);
    var commitment := CommitmentOf(suite, salted);
    var recipientKeys := SealingKeys(suite, recipients);
    if recipientKeys.None? || !random.completes {
      return None;
    }
    var keys := recipientKeys.value;
    var added := AddRecipients(suite, keys, random);
    var header := SealingHeader(suite, input, random, |keys|);
    var e := suite.encrypt(random.contentKey, random.iv, EncodedHeader(f, header), salted);
    var parts := SealedParts(commitment, input.messageId, input.sender, random.iv, e.tag, e.ciphertext, added);
    PartsAreSealed(f, suite, input, random, keys);
    assert parts == Parts(f, suite, input, random, keys);
    r := EncodeCanonicalJson(f, SealedBodyJson(f, parts, |input.plaintext|));
  }

  method AddRecipients(suite: Suite, keys: seq<int>, random: Randomness) returns (added: seq<RecipientKey>)
    requires |keys| <= |random.ephemerals|
    ensures added == WrappedKeys(suite, keys, random)
  {
    added := [];
    for i := 0 to |keys|
      invariant added == WrappedKeys(suite, keys[..i], random)
    {
      assert keys[..i + 1][..i] == keys[..i];
      added := added + [WrappedKey(suite, keys[i], random.ephemerals[i], random.contentKey)];
    }
    assert keys[..|keys|] == keys;
  }

  method SaltedPlaintext(salt: Bytes, plaintext: Bytes) returns (r: Bytes)
    ensures r == salt + plaintext
  {
    var bytes := new int[|salt| + |plaintext|](_ => 0);
    for i := 0 to |salt|
      invariant forall j :: 0 <= j < i ==> bytes[j] == salt[j]
    {
      bytes[i] := salt[i];
    }
    for i := 0 to |plaintext|
      invariant forall j :: 0 <= j < |salt| ==> bytes[j] == salt[j]
      invariant forall j :: |salt| <= j < |salt| + i ==> bytes[j] == plaintext[j - |salt|]
    {
      bytes[|salt| + i] := plaintext[i];
    }
    r := bytes[..];
  }

  // --------------------------------------------------------------- opening

  datatype Authority = Authority(publicKey: int, openingKey: int)

  /** The members of a verified SignedMessage that opening reads. */
  datatype SignedMessage = SignedMessage(sender: Text, messageId: Text, recipients: seq<Text>, body: Bytes)

  /** `Array.indexOf`. */
  function IndexOf(ids: seq<Text>, id: Text): (index: int)
    ensures -1 <= index < |ids|
  {
    if ids == [] then -1
    else if ids[0] == id then 0
    else
      var index := IndexOf(ids[1..], id);
      if index < 0 then -1 else index + 1
  }

  predicate HasValidPlacement(body: Body, header: Header) {
    var single := |body.recipients| == 1;
    && header.epk.Some? == single
    && forall i :: 0 <= i < |body.recipients| ==> body.recipients[i].epk.None? == single
  }

  function LocalRecipientEntry(body: Body, header: Header, ids: seq<Text>, agentId: Text): Option<Entry> {
    var index := IndexOf(ids, agentId);
    if |body.recipients| == |ids| && 0 <= index && HasValidPlacement(body, header) then Some(body.recipients[index])
    else None
  }

  /** The body's header and the local entry, once everything before decryption has been checked. */
  function Openable(f: NumberFormat<int>, card: Card, authority: Authority, message: SignedMessage)
    : Option<(Body, Header, Entry)> {
    if authority.publicKey != card.publicKey then None
    else
      match ParseCanonicalJson(f, message.body)
      case None => None
      case Some(v) =>
        match DecodeSealedBody(v)
        case None => None
        case Some(body) =>
          match DecodeProtectedHeader(f, body.protectedHeader)
          case None => None
          case Some(header) =>
            match LocalRecipientEntry(body, header, message.recipients, card.agentId)
            case None => None
            case Some(entry) =>
              if header.sender != message.sender || header.messageId != message.messageId then None
              else Some((body, header, entry))
  }

  /** The plaintext, or none for the one opening error. */
  function Open(f: NumberFormat<int>, suite: Suite, card: Card, authority: Authority,
                message: SignedMessage): Option<Bytes>
    requires IsSuite(suite)
  {
    match Openable(f, card, authority, message)
    case None => None
    case Some((body, header, entry)) =>
      match suite.decrypt(authority.openingKey, body.(recipients := [entry]))
      case None => None
      case Some(salted) =>
        if |salted| < SALT_BYTES || CommitmentOf(suite, salted) != header.commitment then None
        else Some(salted[SALT_BYTES..])
  }

  /** What the opener's decryption returns, before the commitment is checked. */
  function Decrypted(f: NumberFormat<int>, suite: Suite, card: Card, authority: Authority,
                     message: SignedMessage): Option<Bytes> {
    match Openable(f, card, authority, message)
    case None => None
    case Some((body, header, entry)) => suite.decrypt(authority.openingKey, body.(recipients := [entry]))
  }

  // ------------------------------------------------------ what is assumed

  /** The body with one entry, as sealing to `sealingKey` produces it. */
  function OneEntryBody(f: NumberFormat<int>, suite: Suite, sealingKey: int, ephemeral: Bytes, contentKey: Bytes,
                        iv: Bytes, header: Header, plaintext: Bytes): Body
    requires IsSuite(suite) && IsBytes(iv)
  {
    assert WrapsToKey(suite, sealingKey, ephemeral, contentKey);
    assert KeepsLength(suite, contentKey, iv, EncodedHeader(f, header), plaintext);
    var key := WrappedKey(suite, sealingKey, ephemeral, contentKey);
    var e := suite.encrypt(contentKey, iv, EncodedHeader(f, header), plaintext);
    Body(EncodeBase64Url(e.ciphertext), EncodeBase64Url(iv), EncodedHeader(f, header),
         [Entry(EncodeBase64Url(key.wrapped), if header.epk.Some? then None else Some(EncodeBase64Url(key.ephemeral)))],
         EncodeBase64Url(e.tag))
  }

  /** A header with an ephemeral key names this one. */
  ghost predicate NamesEphemeral(suite: Suite, header: Header, ephemeral: Bytes)
    requires IsSuite(suite)
  {
    assert WrapsToKey(suite, 0, ephemeral, []);
    header.epk.Some? ==> header.epk.value == EncodeBase64Url(suite.ephemeralPublic(ephemeral))
  }

  /** The opening key undoes sealing bytes to `sealingKey`. */
  ghost predicate Unwraps(f: NumberFormat<int>, suite: Suite, openingKey: int, sealingKey: int, ephemeral: Bytes,
                          contentKey: Bytes, iv: Bytes, header: Header, plaintext: Bytes)
    requires IsSuite(suite)
  {
    IsBytes(iv) && IsBytes(plaintext) && NamesEphemeral(suite, header, ephemeral) ==>
      suite.decrypt(openingKey, OneEntryBody(f, suite, sealingKey, ephemeral, contentKey, iv, header, plaintext))
        == Some(plaintext)
  }

  /** The opening key of the agent with this public key. */
  ghost predicate IsOpeningKey(f: NumberFormat<int>, suite: Suite, openingKey: int, publicKey: int)
    requires IsSuite(suite)
  {
    suite.sealingKey(publicKey).Some? ==>
      forall ephemeral, contentKey, iv, header, plaintext ::
        Unwraps(f, suite, openingKey, suite.sealingKey(publicKey).value, ephemeral, contentKey, iv, header, plaintext)
  }

  /** A suite without secrets: the ciphertext is the plaintext, and every key opens everything. */
  ghost function OpenSuite(): Suite {
    Suite((salted: Bytes) => Zeros(COMMITMENT_BYTES), (publicKey: int) => Some(publicKey),
          (ephemeral: Bytes) => Zeros(X25519_PUBLIC_KEY_BYTES),
          (sealingKey: int, ephemeral: Bytes, contentKey: Bytes) => Zeros(WRAPPED_KEY_BYTES),
          (contentKey: Bytes, iv: Bytes, header: Text, plaintext: Bytes) =>
            Encrypted(if IsBytes(plaintext) then plaintext else Zeros(|plaintext|), Zeros(TAG_BYTES)),
          (openingKey: int, body: Body) => DecodeBase64Url(body.ciphertext))
  }

  function Zeros(n: nat): Bytes {
    seq(n, _ => 0)
  }

  lemma OpenSuiteIsSuite()
    ensures IsSuite(OpenSuite())
  {
  }

  lemma OpenSuiteUnwraps(f: NumberFormat<int>, openingKey: int, sealingKey: int, ephemeral: Bytes, contentKey: Bytes,
                         iv: Bytes, header: Header, plaintext: Bytes)
    requires IsSuite(OpenSuite())
    ensures Unwraps(f, OpenSuite(), openingKey, sealingKey, ephemeral, contentKey, iv, header, plaintext)
  {
    if IsBytes(plaintext) && IsBytes(iv) {
      assert OpenSuite().encrypt(contentKey, iv, EncodedHeader(f, header), plaintext).ciphertext == plaintext;
      DecodeOfEncodeBase64Url(plaintext);
    }
  }

  /** What is assumed of a suite and of an opening key can be met. */
  lemma AssumptionsCanBeMet(f: NumberFormat<int>, openingKey: int, publicKey: int)
    ensures IsSuite(OpenSuite()) && OpenSuite().sealingKey(publicKey).Some?
    ensures IsOpeningKey(f, OpenSuite(), openingKey, publicKey)
  {
    OpenSuiteIsSuite();
    forall ephemeral, contentKey, iv, header, plaintext
      ensures Unwraps(f, OpenSuite(), openingKey, publicKey, ephemeral, contentKey, iv, header, plaintext)
    {
      OpenSuiteUnwraps(f, openingKey, publicKey, ephemeral, contentKey, iv, header, plaintext);
    }
  }

  // ------------------------------------------------- every recipient opens

  lemma {:induction false} IndexOfDistinct(ids: seq<Text>, i: nat)
    requires NoRepeats(ids) && i < |ids|
    ensures IndexOf(ids, ids[i]) == i
  {
    if i > 0 {
      assert ids[0] != ids[i];
      IndexOfDistinct(ids[1..], i - 1);
    }
  }

  lemma {:induction false} IndexOfNone(ids: seq<Text>, id: Text)
    ensures IndexOf(ids, id) >= 0 <==> id in ids
  {
    if ids != [] {
      assert ids == [ids[0]] + ids[1..];
      IndexOfNone(ids[1..], id);
    }
  }

  lemma {:induction false} SealingKeyAt(suite: Suite, cards: seq<Card>, i: nat)
    requires SealingKeys(suite, cards).Some? && i < |cards|
    ensures suite.sealingKey(cards[i].publicKey) == Some(SealingKeys(suite, cards).value[i])
  {
    if i > 0 { SealingKeyAt(suite, cards[1..], i - 1); }
  }

  lemma {:induction false} SealedEntryAt(keys: seq<RecipientKey>, i: nat)
    requires AreKeys(keys) && i < |keys|
    ensures IsKey(keys[i]) && |SealedEntries(keys)| == |keys|
    ensures SealedEntries(keys)[i] == Entry(EncodeBase64Url(keys[i].wrapped), Some(EncodeBase64Url(keys[i].ephemeral)))
  {
    SealedEntriesLength(keys);
    if i > 0 {
      SealedEntryAt(keys[1..], i - 1);
      assert SealedEntries(keys)[1..] == SealedEntries(keys[1..]);
    }
  }

  lemma {:induction false} SealedEntriesLength(keys: seq<RecipientKey>)
    requires AreKeys(keys)
    ensures |SealedEntries(keys)| == |keys|
    ensures forall i :: 0 <= i < |keys| ==> SealedEntries(keys)[i].epk.Some?
  {
    if keys != [] {
      SealedEntriesLength(keys[1..]);
      forall i | 0 <= i < |keys| ensures SealedEntries(keys)[i].epk.Some? {
        if i > 0 { assert SealedEntries(keys)[i] == SealedEntries(keys[1..])[i - 1]; }
      }
    }
  }

  /** The ephemeral keys are where the opener expects them. */
  lemma SealedPlacement(f: NumberFormat<int>, suite: Suite, input: SealInput, random: Randomness, keys: seq<int>)
    requires IsSuite(suite) && IsSealInput(input, random) && |keys| == |input.cards|
      && 1 <= |keys| <= MAXIMUM_RECIPIENTS
    ensures IsSealed(Parts(f, suite, input, random, keys), |input.plaintext|)
    ensures var body := SealedBodyRead(f, Parts(f, suite, input, random, keys), |input.plaintext|);
      |body.recipients| == |keys| && HasValidPlacement(body, SealingHeader(suite, input, random, |keys|))
  {
    PartsAreSealed(f, suite, input, random, keys);
    SealedEntriesLength(WrappedKeys(suite, keys, random));
  }

  /** The entry at each place is the one wrapped to the key at that place. */
  lemma EntryAt(f: NumberFormat<int>, suite: Suite, input: SealInput, random: Randomness, keys: seq<int>, i: nat)
    requires IsSuite(suite) && IsSealInput(input, random) && |keys| == |input.cards|
      && 1 <= |keys| <= MAXIMUM_RECIPIENTS
    requires i < |keys|
    ensures IsSealed(Parts(f, suite, input, random, keys), |input.plaintext|)
    ensures var key := WrappedKey(suite, keys[i], random.ephemerals[i], random.contentKey);
      var body := SealedBodyRead(f, Parts(f, suite, input, random, keys), |input.plaintext|);
      IsKey(key) && i < |body.recipients| && body.recipients[i] ==
        Entry(EncodeBase64Url(key.wrapped), if |keys| == 1 then None else Some(EncodeBase64Url(key.ephemeral)))
  {
    PartsAreSealed(f, suite, input, random, keys);
    var wrapped := WrappedKeys(suite, keys, random);
    assert wrapped[i] == WrappedKey(suite, keys[i], random.ephemerals[i], random.contentKey);
    SealedEntryAt(wrapped, i);
  }

  /** The body that the opener decrypts is the one sealed to the i-th key alone. */
  lemma EntryIsOwn(f: NumberFormat<int>, suite: Suite, input: SealInput, random: Randomness, keys: seq<int>, i: nat)
    requires IsSuite(suite) && IsSealInput(input, random) && |keys| == |input.cards|
      && 1 <= |keys| <= MAXIMUM_RECIPIENTS
    requires i < |keys|
    ensures IsSealed(Parts(f, suite, input, random, keys), |input.plaintext|)
    ensures NamesEphemeral(suite, SealingHeader(suite, input, random, |keys|), random.ephemerals[i])
    ensures var body := SealedBodyRead(f, Parts(f, suite, input, random, keys), |input.plaintext|);
      i < |body.recipients| && body.(recipients := [body.recipients[i]]) ==
        OneEntryBody(f, suite, keys[i], random.ephemerals[i], random.contentKey, random.iv,
                     SealingHeader(suite, input, random, |keys|), random.salt + input.plaintext)
  {
    PartsAreSealed(f, suite, input, random, keys);
    EntryAt(f, suite, input, random, keys, i);
  }

  /** The opener parses the sealed bytes and accepts the header. */
  lemma SealedBodyIsReadBy(f: NumberFormat<int>, suite: Suite, input: SealInput, random: Randomness, keys: seq<int>)
    requires StableFormat(f) && IsSuite(suite) && IsSealInput(input, random)
    requires |keys| == |input.cards| && 1 <= |keys| <= MAXIMUM_RECIPIENTS
    ensures IsSealed(Parts(f, suite, input, random, keys), |input.plaintext|)
    ensures var parts := Parts(f, suite, input, random, keys);
      var parsed := ParseCanonicalJson(f, CanonicalBytes(f, SealedBodyJson(f, parts, |input.plaintext|)));
      var body := SealedBodyRead(f, parts, |input.plaintext|);
      parsed.Some? && DecodeSealedBody(parsed.value) == Some(body)
      && DecodeProtectedHeader(f, body.protectedHeader) == Some(SealingHeader(suite, input, random, |keys|))
  {
    PartsAreSealed(f, suite, input, random, keys);
    var parts := Parts(f, suite, input, random, keys);
    SealedBodyReadsBack(f, parts, |input.plaintext|);
    SealedHeaderIsHeader(parts, |input.plaintext|);
    HeaderHasOneSpelling(f, EncodedHeader(f, SealedHeader(parts, |input.plaintext|)),
                         SealedHeader(parts, |input.plaintext|));
  }

  lemma OpenableWhen(f: NumberFormat<int>, card: Card, authority: Authority, message: SignedMessage,
                     body: Body, header: Header, i: nat)
    requires authority.publicKey == card.publicKey
    requires ParseCanonicalJson(f, message.body).Some?
    requires DecodeSealedBody(ParseCanonicalJson(f, message.body).value) == Some(body)
    requires DecodeProtectedHeader(f, body.protectedHeader) == Some(header)
    requires |body.recipients| == |message.recipients| && IndexOf(message.recipients, card.agentId) == i
    requires HasValidPlacement(body, header) && header.sender == message.sender && header.messageId == message.messageId
    ensures Openable(f, card, authority, message) == Some((body, header, body.recipients[i]))
  {
  }

  lemma OpenWhen(f: NumberFormat<int>, suite: Suite, card: Card, authority: Authority, message: SignedMessage,
                 body: Body, header: Header, entry: Entry, salted: Bytes)
    requires IsSuite(suite) && Openable(f, card, authority, message) == Some((body, header, entry))
    requires suite.decrypt(authority.openingKey, body.(recipients := [entry])) == Some(salted)
    requires |salted| >= SALT_BYTES && CommitmentOf(suite, salted) == header.commitment
    ensures Open(f, suite, card, authority, message) == Some(salted[SALT_BYTES..])
  {
  }

  lemma UnwrapsOwnEntry(f: NumberFormat<int>, suite: Suite, openingKey: int, publicKey: int, sealingKey: int,
                        ephemeral: Bytes, contentKey: Bytes, iv: Bytes, header: Header, plaintext: Bytes)
    requires IsSuite(suite) && IsOpeningKey(f, suite, openingKey, publicKey)
    requires suite.sealingKey(publicKey) == Some(sealingKey) && IsBytes(iv)
    requires NamesEphemeral(suite, header, ephemeral) && IsBytes(plaintext)
    ensures suite.decrypt(openingKey, OneEntryBody(f, suite, sealingKey, ephemeral, contentKey, iv, header, plaintext))
      == Some(plaintext)
  {
    assert Unwraps(f, suite, openingKey, sealingKey, ephemeral, contentKey, iv, header, plaintext);
  }

  lemma SaltedIsBytes(input: SealInput, random: Randomness)
    requires IsSealInput(input, random)
    ensures IsBytes(random.salt + input.plaintext)
  {
  }

  lemma CommitsToSalted(suite: Suite, input: SealInput, random: Randomness, recipientCount: nat)
    requires IsSuite(suite) && 1 <= recipientCount <= |random.ephemerals| && |random.salt| == SALT_BYTES
    ensures var (h, salted) := (SealingHeader(suite, input, random, recipientCount), random.salt + input.plaintext);
      && h.commitment == CommitmentOf(suite, salted) && h.sender == input.sender && h.messageId == input.messageId
      && salted[SALT_BYTES..] == input.plaintext
  {
  }

  lemma OpensOwnEntry(f: NumberFormat<int>, suite: Suite, input: SealInput, random: Randomness, keys: seq<int>, i: nat,
                      card: Card, authority: Authority, message: SignedMessage)
    requires StableFormat(f) && IsSuite(suite) && IsSealInput(input, random)
    requires |keys| == |input.cards| && 1 <= |keys| <= MAXIMUM_RECIPIENTS && i < |keys|
    requires |message.recipients| == |keys| && IndexOf(message.recipients, card.agentId) == i
    requires authority.publicKey == card.publicKey
    requires suite.sealingKey(card.publicKey) == Some(keys[i])
      && IsOpeningKey(f, suite, authority.openingKey, card.publicKey)
    requires message.sender == input.sender && message.messageId == input.messageId
    requires IsSealed(Parts(f, suite, input, random, keys), |input.plaintext|)
    requires message.body ==
      CanonicalBytes(f, SealedBodyJson(f, Parts(f, suite, input, random, keys), |input.plaintext|))
    ensures Open(f, suite, card, authority, message) == Some(input.plaintext)
  {
    var header := SealingHeader(suite, input, random, |keys|);
    var salted := random.salt + input.plaintext;
    var body := SealedBodyRead(f, Parts(f, suite, input, random, keys), |input.plaintext|);
    SealedPlacement(f, suite, input, random, keys);
    EntryIsOwn(f, suite, input, random, keys, i);
    SealedBodyIsReadBy(f, suite, input, random, keys);
    CommitsToSalted(suite, input, random, |keys|);
    SaltedIsBytes(input, random);
    OpenableWhen(f, card, authority, message, body, header, i);
    UnwrapsOwnEntry(f, suite, authority.openingKey, card.publicKey, keys[i], random.ephemerals[i], random.contentKey,
                    random.iv, header, salted);
    OpenWhen(f, suite, card, authority, message, body, header, body.recipients[i], salted);
  }

  /** Where a recipient is in both lists. */
  lemma RecipientIndex(cards: seq<Card>, ids: seq<Text>, card: Card) returns (i: nat)
    requires SnapshotRecipients(cards).Some? && AllAgentIds(Ids(cards)) && multiset(ids) == multiset(Ids(cards))
    requires card in cards
    ensures var recipients := SnapshotRecipients(cards).value;
      && |recipients| == |cards| && i < |cards| && recipients[i] == card
      && SigningRecipients(ids) == Some(Ids(recipients)) && |Ids(recipients)| == |cards|
      && IndexOf(Ids(recipients), card.agentId) == i
  {
    var recipients := SnapshotRecipients(cards).value;
    SealerAndSignerAgree(cards, ids);
    SortByFacts(cards, CardKey);
    IdsAt(recipients);
    assert card in multiset(recipients);
    i :| 0 <= i < |recipients| && recipients[i] == card;
    IndexOfDistinct(Ids(recipients), i);
  }

  /**
   * Opening returns the plaintext to every recipient, for any listing of exactly the sealed
   * recipients in the signed message.
   */
  lemma EveryRecipientOpens(f: NumberFormat<int>, suite: Suite, input: SealInput, random: Randomness,
                            ids: seq<Text>, card: Card, openingKey: int)
    requires StableFormat(f) && IsSuite(suite) && IsSealInput(input, random)
    requires SealedBytes(f, suite, input, random).Some?
    requires multiset(ids) == multiset(Ids(input.cards)) && card in input.cards
    requires IsOpeningKey(f, suite, openingKey, card.publicKey)
    ensures SigningRecipients(ids).Some?
    ensures Open(f, suite, card, Authority(card.publicKey, openingKey),
                 SignedMessage(input.sender, input.messageId, SigningRecipients(ids).value,
                               SealedBytes(f, suite, input, random).value))
      == Some(input.plaintext)
  {
    var recipients := SnapshotRecipients(input.cards).value;
    var i := RecipientIndex(input.cards, ids, card);
    var keys := SealingKeys(suite, recipients).value;
    SealingKeyAt(suite, recipients, i);
    PartsAreSealed(f, suite, input, random, keys);
    var body := SealedBytes(f, suite, input, random).value;
    assert body == CanonicalBytes(f, SealedBodyJson(f, Parts(f, suite, input, random, keys), |input.plaintext|));
    OpensOwnEntry(f, suite, input, random, keys, i, card, Authority(card.publicKey, openingKey),
                  SignedMessage(input.sender, input.messageId, Ids(recipients), body));
  }

  ghost predicate AllSealable(suite: Suite, cards: seq<Card>) {
    forall card :: card in cards ==> suite.sealingKey(card.publicKey).Some?
  }

  lemma {:induction false} SealingKeysIff(suite: Suite, cards: seq<Card>)
    ensures SealingKeys(suite, cards).Some? <==> AllSealable(suite, cards)
  {
    if cards != [] {
      assert cards == [cards[0]] + cards[1..];
      SealingKeysIff(suite, cards[1..]);
    }
  }

  lemma SortedAreSealable(suite: Suite, cards: seq<Card>)
    ensures AllSealable(suite, SortBy(cards, CardKey)) <==> AllSealable(suite, cards)
  {
    SortByFacts(cards, CardKey);
    assert forall card :: card in SortBy(cards, CardKey) <==> card in multiset(cards);
  }

  lemma PartsEncode(f: NumberFormat<int>, suite: Suite, input: SealInput, random: Randomness, keys: seq<int>)
    requires IsSuite(suite) && IsSealInput(input, random) && |keys| == |input.cards|
      && 1 <= |keys| <= MAXIMUM_RECIPIENTS
    ensures EncodedParts(f, suite, input, random, keys).Some?
  {
    PartsAreSealed(f, suite, input, random, keys);
    SealedBodyIsValid(f, Parts(f, suite, input, random, keys), |input.plaintext|);
  }

  lemma SealedWhenKeysConvert(f: NumberFormat<int>, suite: Suite, input: SealInput, random: Randomness,
                              recipients: seq<Card>)
    requires IsSuite(suite) && IsSealInput(input, random) && SnapshotRecipients(input.cards) == Some(recipients)
    ensures SealedBytes(f, suite, input, random).Some? <==> SealingKeys(suite, recipients).Some? && random.completes
  {
    if SealingKeys(suite, recipients).Some? {
      SortByFacts(input.cards, CardKey);
      PartsEncode(f, suite, input, random, SealingKeys(suite, recipients).value);
    }
  }

  /**
   * Sealing fails exactly for a wrong number of recipients, a repeated one, one whose key cannot be
   * sealed to, or a platform operation that fails.
   */
  lemma SealingSucceedsIff(f: NumberFormat<int>, suite: Suite, input: SealInput, random: Randomness)
    requires IsSuite(suite) && IsSealInput(input, random)
    ensures SealedBytes(f, suite, input, random).Some? <==>
      1 <= |input.cards| <= 128 && NoRepeats(Ids(input.cards)) && AllSealable(suite, input.cards)
      && random.completes
  {
    if SnapshotRecipients(input.cards).Some? {
      var recipients := SnapshotRecipients(input.cards).value;
      SealedWhenKeysConvert(f, suite, input, random, recipients);
      SealingKeysIff(suite, recipients);
      SortedAreSealable(suite, input.cards);
    }
  }

  /** So the result above speaks of every valid input, under at least one suite. */
  lemma OpenSuiteOpens(f: NumberFormat<int>, input: SealInput, random: Randomness, ids: seq<Text>, card: Card,
                       openingKey: int)
    requires StableFormat(f) && IsSealInput(input, random) && random.completes
    requires |input.cards| <= MAXIMUM_RECIPIENTS && NoRepeats(Ids(input.cards)) && card in input.cards
    requires multiset(ids) == multiset(Ids(input.cards))
    ensures IsSuite(OpenSuite()) && SealedBytes(f, OpenSuite(), input, random).Some? && SigningRecipients(ids).Some?
    ensures Open(f, OpenSuite(), card, Authority(card.publicKey, openingKey),
                 SignedMessage(input.sender, input.messageId, SigningRecipients(ids).value,
                               SealedBytes(f, OpenSuite(), input, random).value)) == Some(input.plaintext)
  {
    AssumptionsCanBeMet(f, openingKey, card.publicKey);
    assert AllSealable(OpenSuite(), input.cards);
    SealingSucceedsIff(f, OpenSuite(), input, random);
    EveryRecipientOpens(f, OpenSuite(), input, random, ids, card, openingKey);
  }

  /** Only named recipients open, and only with the key on their card. */
  lemma OthersDoNotOpen(f: NumberFormat<int>, suite: Suite, card: Card, authority: Authority, message: SignedMessage)
    requires IsSuite(suite) && (card.agentId !in message.recipients || authority.publicKey != card.publicKey)
    ensures Open(f, suite, card, authority, message) == None
  {
    IndexOfNone(message.recipients, card.agentId);
  }

  // ------------------------------------------------------------ agreement

  /** Both openers read one header from one body. */
  lemma SameHeader(f: NumberFormat<int>, card: Card, authority: Authority, message: SignedMessage,
                   card': Card, authority': Authority, message': SignedMessage)
    requires message.body == message'.body
    requires Openable(f, card, authority, message).Some? && Openable(f, card', authority', message').Some?
    ensures Openable(f, card, authority, message).value.1 == Openable(f, card', authority', message').value.1
    ensures message.sender == message'.sender && message.messageId == message'.messageId
  {
  }

  /**
   * Whoever made the body: two recipients that open it get equal plaintexts, or their two decryptions
   * collide under the hash. Nothing is assumed of decryption, so one ciphertext may well decrypt
   * differently under different keys.
   */
  lemma OpenersAgree(f: NumberFormat<int>, suite: Suite, card: Card, authority: Authority, card': Card,
                     authority': Authority,
                     message: SignedMessage)
    requires IsSuite(suite)
    requires Open(f, suite, card, authority, message).Some? && Open(f, suite, card', authority', message).Some?
    ensures var (a, b) :=
      (Decrypted(f, suite, card, authority, message), Decrypted(f, suite, card', authority', message));
      a.Some? && b.Some? &&
      (Open(f, suite, card, authority, message) == Open(f, suite, card', authority', message)
       || (a.value != b.value && suite.hash(a.value) == suite.hash(b.value)))
  {
    SameHeader(f, card, authority, message, card', authority', message);
    var a := Decrypted(f, suite, card, authority, message).value;
    var b := Decrypted(f, suite, card', authority', message).value;
    assert HashesTo32Bytes(suite, a) && HashesTo32Bytes(suite, b);
    CanonicalIffEncoding(CommitmentOf(suite, a), suite.hash(a));
    CanonicalIffEncoding(CommitmentOf(suite, b), suite.hash(b));
  }

  /** A body opens under one sender and one MessageId only, those of its header. */
  lemma OpensInOneMessageOnly(f: NumberFormat<int>, suite: Suite, card: Card, authority: Authority,
                              message: SignedMessage,
                              card': Card, authority': Authority, message': SignedMessage)
    requires IsSuite(suite) && message.body == message'.body
    requires Open(f, suite, card, authority, message).Some? && Open(f, suite, card', authority', message').Some?
    ensures message.sender == message'.sender && message.messageId == message'.messageId
  {
    SameHeader(f, card, authority, message, card', authority', message');
  }
}
