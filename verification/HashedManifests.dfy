/**
 * scripts/release/content-hash.ts: what of a package is hashed, and the digest over hashed lines.
 */
module HashedManifests {
  import opened Wrappers
  import opened ByteStrings
  import opened Lexicographic
  import opened Utf8
  import opened Json
  import opened CanonicalJson
  import opened JsonSchemas

  type Value = Json<int>
  type Field = Member<int>

  /** The runtime's JSON reader, its number format, and SHA-256 in hexadecimal. */
  datatype Tools = Tools(format: NumberFormat<int>, parse: Bytes -> Value, digest: Bytes -> Text)

  const VERSION_FIELD := Ascii("version")
  const CONTENT_HASH_FIELD := Ascii("sharnessContentHash")
  const HOST_CODE_HASH_FIELD := Ascii("sharnessHostCodeHash")

  predicate IsUnhashed(key: Text) {
    key == VERSION_FIELD || key == CONTENT_HASH_FIELD || key == HOST_CODE_HASH_FIELD
  }

  predicate IsDependencySection(key: Text) {
    key == Ascii("dependencies") || key == Ascii("devDependencies") || key == Ascii("optionalDependencies")
    || key == Ascii("peerDependencies")
  }

  predicate IsSibling(name: Text) {
    Ascii("@moltzap/") <= name
  }

  function DropSiblings(members: seq<Field>): seq<Field> {
    if members == [] then []
    else if IsSibling(members[0].key) then DropSiblings(members[1..])
    else [members[0]] + DropSiblings(members[1..])
  }

  /** `withoutSiblings`. */
  function WithoutSiblings(section: Value): Value {
    match section
    case Obj(members) => Obj(DropSiblings(members))
    case _ => section
  }

  function View(m: Field, dropSiblings: bool): Field {
    if dropSiblings && IsDependencySection(m.key) then Member(m.key, WithoutSiblings(m.value)) else m
  }

  /** The members that are hashed, as the view shows them. */
  function Kept(members: seq<Field>, dropSiblings: bool): seq<Field> {
    if members == [] then []
    else if IsUnhashed(members[0].key) then Kept(members[1..], dropSiblings)
    else [View(members[0], dropSiblings)] + Kept(members[1..], dropSiblings)
  }

  /** `sortedJson` of the kept members. */
  function HashedText(f: NumberFormat<int>, members: seq<Field>, dropSiblings: bool): Text {
    Print(f, Sorted(Obj(Kept(members, dropSiblings))))
  }

  function Basename(path: Text): Text {
    if path == [] then []
    else if path[|path| - 1] == '/' as int then []
    else Basename(path[..|path| - 1]) + [path[|path| - 1]]
  }

  predicate IsManifest(path: Text) {
    Basename(path) == Ascii("package.json")
  }

  /** `hashedBytes`. */
  function HashedBytes(tools: Tools, path: Text, bytes: Bytes, dropSiblings: bool): Bytes {
    if !IsManifest(path) then bytes
    else
      match tools.parse(bytes)
      case Obj(members) => Encode(HashedText(tools.format, members, dropSiblings))
      case _ => bytes
  }

  datatype File = File(executable: bool, bytes: Bytes)

  /** `fileEntry`: label, executable bit and digest, separated by NUL, on a line. */
  function FileEntry(tools: Tools, path: Text, lineLabel: Text, file: File, dropSiblings: bool): Text {
    lineLabel + [0, if file.executable then 'x' as int else '-' as int, 0]
      + tools.digest(HashedBytes(tools, path, file.bytes, dropSiblings)) + [10]
  }

  // ------------------------------------------------------------ the digest

  function Self(t: Text): seq<int> { t }

  function Concat(entries: seq<Text>): Bytes {
    if entries == [] then [] else Concat(entries[..|entries| - 1]) + Encode(entries[|entries| - 1])
  }

  function DigestOf(tools: Tools, entries: seq<Text>): Text {
    Ascii("sha256:") + tools.digest(Concat(SortBy(entries, Self)))
  }

  /** `digestOf`: the running digest over sorted lines. */
  method ComputeDigest(tools: Tools, entries: seq<Text>) returns (digest: Text)
    ensures digest == DigestOf(tools, entries)
  {
    var sorted := SortBy(entries, Self);
    var running: Bytes := [];
    for i := 0 to |sorted|
      invariant running == Concat(sorted[..i])
    {
      assert sorted[..i + 1][..i] == sorted[..i];
      running := running + Encode(sorted[i]);
    }
    assert sorted[..|sorted|] == sorted;
    digest := Ascii("sha256:") + tools.digest(running);
  }

  /** The order in which lines arrive does not matter. */
  lemma DigestIgnoresOrder(tools: Tools, a: seq<Text>, b: seq<Text>)
    requires multiset(a) == multiset(b)
    ensures DigestOf(tools, a) == DigestOf(tools, b)
  {
    SortByIgnoresOrder(a, b, Self);
  }

  // ------------------------------------------------- what is not hashed

  lemma {:induction false} KeptOfAssign(members: seq<Field>, m: Field, dropSiblings: bool)
    requires IsUnhashed(m.key)
    ensures Kept(Assign(members, m), dropSiblings) == Kept(members, dropSiblings)
  {
    if members != [] && members[0].key != m.key {
      KeptOfAssign(members[1..], m, dropSiblings);
      assert Assign(members, m)[1..] == Assign(members[1..], m);
    } else if members == [] {
      assert [m][1..] == [];
    } else {
      assert Assign(members, m)[1..] == members[1..];
    }
  }

  /**
   * What a release writes into a manifest, its version and the hash itself, leaves the package's own
   * hash as it was: the hash in a published manifest is the hash of that manifest.
   */
  lemma ReleaseFieldsAreNotHashed(f: NumberFormat<int>, members: seq<Field>, version: Text, hash: Text,
                                  dropSiblings: bool)
    ensures var written :=
      Assign(Assign(members, Member(VERSION_FIELD, Str(version))), Member(CONTENT_HASH_FIELD, Str(hash)));
      HashedText(f, written, dropSiblings) == HashedText(f, members, dropSiblings)
  {
    KeptOfAssign(members, Member(VERSION_FIELD, Str(version)), dropSiblings);
    KeptOfAssign(Assign(members, Member(VERSION_FIELD, Str(version))), Member(CONTENT_HASH_FIELD, Str(hash)),
                 dropSiblings);
  }

  lemma {:induction false} DroppedOfAssign(members: seq<Field>, m: Field)
    requires IsSibling(m.key)
    ensures DropSiblings(Assign(members, m)) == DropSiblings(members)
  {
    if members != [] && members[0].key != m.key {
      DroppedOfAssign(members[1..], m);
      assert Assign(members, m)[1..] == Assign(members[1..], m);
    } else if members == [] {
      assert [m][1..] == [];
    } else {
      assert Assign(members, m)[1..] == members[1..];
    }
  }

  /** Replaces the value of an existing member. */
  lemma {:induction false} KeptOfReplaced(members: seq<Field>, key: Text, v: Value)
    requires Lookup(members, key).Some? && IsDependencySection(key)
    requires WithoutSiblings(v) == WithoutSiblings(Lookup(members, key).value)
    ensures Kept(Assign(members, Member(key, v)), true) == Kept(members, true)
  {
    if members[0].key != key {
      KeptOfReplaced(members[1..], key, v);
      assert Assign(members, Member(key, v))[1..] == Assign(members[1..], Member(key, v));
    } else {
      assert Assign(members, Member(key, v))[1..] == members[1..];
    }
  }

  /** In the view without siblings, pinning one to another version changes nothing. */
  lemma SiblingPinsAreNotHashed(f: NumberFormat<int>, members: seq<Field>, section: Text, pins: seq<Field>,
                                sibling: Text, version: Text)
    requires IsDependencySection(section) && Lookup(members, section) == Some(Obj(pins)) && IsSibling(sibling)
    ensures HashedText(f, Assign(members, Member(section, Obj(Assign(pins, Member(sibling, Str(version)))))), true)
      == HashedText(f, members, true)
  {
    DroppedOfAssign(pins, Member(sibling, Str(version)));
    KeptOfReplaced(members, section, Obj(Assign(pins, Member(sibling, Str(version)))));
  }

  /** Two manifests whose kept members are the same data, in any order of members at any depth. */
  ghost predicate SameKept(f: NumberFormat<int>, a: seq<Field>, b: seq<Field>, dropSiblings: bool) {
    Reread(f, Sorted(Obj(Kept(a, dropSiblings)))) == Reread(f, Sorted(Obj(Kept(b, dropSiblings))))
  }

  /** What is hashed of a manifest is exactly its kept data: no more, and no less. */
  lemma HashedTextIff(f: NumberFormat<int>, a: seq<Field>, b: seq<Field>, dropSiblings: bool)
    requires StableFormat(f)
    requires Printable(f, Sorted(Obj(Kept(a, dropSiblings)))) && Printable(f, Sorted(Obj(Kept(b, dropSiblings))))
    ensures HashedText(f, a, dropSiblings) == HashedText(f, b, dropSiblings) <==> SameKept(f, a, b, dropSiblings)
  {
    var (v, w) := (Sorted(Obj(Kept(a, dropSiblings))), Sorted(Obj(Kept(b, dropSiblings))));
    ParseOfPrint(f, v);
    ParseOfPrint(f, w);
    RereadPrintsAlike(f, v);
    RereadPrintsAlike(f, w);
  }

  // --------------------------------------------------------- what is hashed

  function RereadOption(f: NumberFormat<int>, v: Option<Value>): Option<Value> {
    if v.Some? then Some(Reread(f, v.value)) else None
  }

  lemma {:induction false} LookupOfReread(f: NumberFormat<int>, members: seq<Field>, key: Text)
    ensures Lookup(RereadMembers(f, members), key) == RereadOption(f, Lookup(members, key))
  {
    if members != [] { LookupOfReread(f, members[1..], key); }
  }

  lemma {:induction false} LookupOfKept(members: seq<Field>, key: Text)
    requires !IsUnhashed(key)
    ensures Lookup(Kept(members, false), key) == Lookup(members, key)
  {
    if members != [] { LookupOfKept(members[1..], key); }
  }

  /** The member at a hashed key, as the hashed text spells it. */
  function HashedMember(f: NumberFormat<int>, members: seq<Field>, key: Text): Option<Value> {
    RereadOption(f, SortedOption(Lookup(members, key)))
  }

  lemma MemberOfKept(f: NumberFormat<int>, members: seq<Field>, key: Text)
    requires DistinctKeys(members) && !IsUnhashed(key)
    ensures var v := Reread(f, Sorted(Obj(Kept(members, false))));
      v.Obj? && Lookup(v.members, key) == HashedMember(f, members, key)
  {
    KeptKeys(members, false);
    LookupOfSorted(Kept(members, false), key);
    LookupOfKept(members, key);
    LookupOfReread(f, Sorted(Obj(Kept(members, false))).members, key);
  }

  /**
   * Nothing else is lost: manifests with equal hashed text have equal data at every hashed key, the
   * dependency sections with their pins included, so a changed pin changes what is digested.
   */
  lemma HashedTextFixesMembers(f: NumberFormat<int>, a: seq<Field>, b: seq<Field>, key: Text)
    requires StableFormat(f) && DistinctKeys(a) && DistinctKeys(b) && !IsUnhashed(key)
    requires Printable(f, Sorted(Obj(Kept(a, false)))) && Printable(f, Sorted(Obj(Kept(b, false))))
    requires HashedText(f, a, false) == HashedText(f, b, false)
    ensures HashedMember(f, a, key) == HashedMember(f, b, key)
  {
    HashedTextIff(f, a, b, false);
    MemberOfKept(f, a, key);
    MemberOfKept(f, b, key);
  }

  lemma {:induction false} KeptAppend(a: seq<Field>, b: seq<Field>, dropSiblings: bool)
    ensures Kept(a + b, dropSiblings) == Kept(a, dropSiblings) + Kept(b, dropSiblings)
  {
    if a == [] {
      assert a + b == b;
    } else {
      assert (a + b)[1..] == a[1..] + b;
      KeptAppend(a[1..], b, dropSiblings);
    }
  }

  lemma KeptSplit(a: seq<Field>, m: Field, b: seq<Field>, dropSiblings: bool)
    ensures multiset(Kept(a + ([m] + b), dropSiblings)) ==
      multiset(Kept(a + b, dropSiblings)) + multiset(Kept([m], dropSiblings))
  {
    KeptAppend(a, [m] + b, dropSiblings);
    KeptAppend([m], b, dropSiblings);
    KeptAppend(a, b, dropSiblings);
    MultisetOfSplit(Kept(a, dropSiblings), Kept([m], dropSiblings), Kept(b, dropSiblings));
  }

  lemma {:induction false} KeptOfPermutation(a: seq<Field>, b: seq<Field>, dropSiblings: bool)
    requires multiset(a) == multiset(b)
    ensures multiset(Kept(a, dropSiblings)) == multiset(Kept(b, dropSiblings))
    decreases |a|
  {
    assert |multiset(a)| == |a| && |multiset(b)| == |b|;
    if a != [] {
      assert a[0] in multiset(b);
      var i :| 0 <= i < |b| && b[i] == a[0];
      SplitAt(b, i);
      SplitAt(a, 0);
      assert a[..0] + a[1..] == a[1..];
      KeptOfPermutation(a[1..], b[..i] + b[i + 1..], dropSiblings);
      KeptSplit(b[..i], b[i], b[i + 1..], dropSiblings);
      KeptSplit(a[..0], a[0], a[1..], dropSiblings);
    }
  }

  lemma {:induction false} KeptKeys(members: seq<Field>, dropSiblings: bool)
    ensures forall key :: HasKey(Kept(members, dropSiblings), key) ==> HasKey(members, key)
    ensures DistinctKeys(members) ==> DistinctKeys(Kept(members, dropSiblings))
  {
    if members != [] { KeptKeys(members[1..], dropSiblings); }
  }

  /** The order of a manifest's members is not hashed. */
  lemma ManifestOrderIsNotHashed(f: NumberFormat<int>, a: seq<Field>, b: seq<Field>, dropSiblings: bool)
    requires multiset(a) == multiset(b) && DistinctKeys(a)
    ensures HashedText(f, a, dropSiblings) == HashedText(f, b, dropSiblings)
  {
    KeptOfPermutation(a, b, dropSiblings);
    KeptKeys(a, dropSiblings);
    MemberOrderIsLost(f, Kept(a, dropSiblings), Kept(b, dropSiblings));
  }

  /** A member that is neither unhashed nor a dependency section is kept as it is. */
  lemma {:induction false} KeptLookup(members: seq<Field>, dropSiblings: bool, key: Text)
    requires !IsUnhashed(key) && !IsDependencySection(key)
    ensures Lookup(Kept(members, dropSiblings), key) == Lookup(members, key)
  {
    if members != [] {
      KeptLookup(members[1..], dropSiblings, key);
      if !IsUnhashed(members[0].key) {
        var kept := Kept(members, dropSiblings);
        assert kept[0] == View(members[0], dropSiblings) && kept[1..] == Kept(members[1..], dropSiblings);
      }
    }
  }
}
