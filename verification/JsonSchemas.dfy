/**
 * Reading exact structures out of parsed JSON: members are found by key, so what a schema reads does
 * not depend on the order the canonical encoder put them in.
 */
module JsonSchemas {
  import opened Wrappers
  import opened Lexicographic
  import opened Utf8
  import opened Json
  import opened CanonicalJson
  import opened JsonSizes

  function Lookup<N>(members: seq<Member<N>>, key: Text): Option<Json<N>> {
    if members == [] then None
    else if members[0].key == key then Some(members[0].value)
    else Lookup(members[1..], key)
  }

  /** The string member `key`. */
  function TextAt<N>(members: seq<Member<N>>, key: Text): Option<Text> {
    match Lookup(members, key)
    case Some(Str(t)) => Some(t)
    case _ => None
  }

  function SortedOption<N>(v: Option<Json<N>>): Option<Json<N>> {
    match v
    case None => None
    case Some(w) => Some(Sorted(w))
  }

  lemma {:induction false} LookupIffHasKey<N>(members: seq<Member<N>>, key: Text)
    ensures Lookup(members, key).Some? <==> HasKey(members, key)
  {
    if members != [] { LookupIffHasKey(members[1..], key); }
  }

  lemma {:induction false} LookupOfSortedMembers<N>(members: seq<Member<N>>, key: Text)
    ensures Lookup(SortedMembers(members), key) == SortedOption(Lookup(members, key))
  {
    if members != [] {
      LookupOfSortedMembers(members[1..], key);
      assert SortedMembers(members)[1..] == SortedMembers(members[1..]);
    }
  }

  lemma {:induction false} LookupOfInsert<N>(m: Member<N>, members: seq<Member<N>>, key: Text)
    requires !HasKey(members, m.key)
    ensures Lookup(InsertBy(m, members, KeyOf), key) == if m.key == key then Some(m.value) else Lookup(members, key)
  {
    if members != [] && !Less(KeyOf(m), KeyOf(members[0])) {
      LookupOfInsert(m, members[1..], key);
      assert InsertBy(m, members, KeyOf)[1..] == InsertBy(m, members[1..], KeyOf);
    } else {
      assert InsertBy(m, members, KeyOf)[1..] == members;
    }
  }

  lemma {:induction false} LookupOfAppend<N>(members: seq<Member<N>>, m: Member<N>, key: Text)
    ensures Lookup(members + [m], key) ==
      if Lookup(members, key).Some? then Lookup(members, key) else if m.key == key then Some(m.value) else None
    ensures HasKey(members + [m], key) <==> HasKey(members, key) || m.key == key
    ensures DistinctKeys(members + [m]) <==> DistinctKeys(members) && !HasKey(members, m.key)
  {
    if members == [] {
      assert members + [m] == [m];
    } else {
      LookupOfAppend(members[1..], m, key);
      LookupOfAppend(members[1..], m, members[0].key);
      assert (members + [m])[1..] == members[1..] + [m];
    }
  }

  lemma {:induction false} LookupOfSort<N>(members: seq<Member<N>>, key: Text)
    requires DistinctKeys(members)
    ensures Lookup(SortBy(members, KeyOf), key) == Lookup(members, key)
  {
    if members != [] {
      var before, last := members[..|members| - 1], members[|members| - 1];
      assert members == before + [last];
      LookupOfAppend(before, last, key);
      LookupOfSort(before, key);
      SortKeepsKeys(before);
      LookupOfInsert(last, SortBy(before, KeyOf), key);
      LookupIffHasKey(before, key);
    }
  }

  /** Looking a key up in the canonically ordered object finds the canonically ordered value. */
  lemma LookupOfSorted<N>(members: seq<Member<N>>, key: Text)
    requires DistinctKeys(members)
    ensures var w := Sorted(Obj(members));
      w.Obj? && |w.members| == |members| && Lookup(w.members, key) == SortedOption(Lookup(members, key))
  {
    SortedMembersKeepKeys(members);
    LookupOfSort(SortedMembers(members), key);
    LookupOfSortedMembers(members, key);
    SortByFacts(SortedMembers(members), KeyOf);
  }

  lemma TextOfSorted<N>(members: seq<Member<N>>, sorted: seq<Member<N>>, key: Text)
    requires DistinctKeys(members) && Sorted(Obj(members)) == Obj(sorted)
    ensures TextAt(sorted, key) == TextAt(members, key)
  {
    LookupOfSorted(members, key);
  }

  lemma {:induction false} FoundIsUnique<N>(members: seq<Member<N>>, key: Text)
    requires KeysUnique(Obj(members)) && Lookup(members, key).Some?
    ensures KeysUnique(Lookup(members, key).value)
  {
    if members[0].key != key {
      assert forall i :: 0 <= i < |members[1..]| ==> members[1..][i] == members[i + 1];
      FoundIsUnique(members[1..], key);
    }
  }

  // -------------------------------------------- plain values are valid values

  lemma PlainTextIsText(t: Text)
    requires IsPlainText(t)
    ensures WellFormed(t) && IsUnits(t)
  {
    PlainTextPrints(t);
    AsciiEncodesToItself(t);
  }

  lemma {:induction false} PlainRereads<N>(f: NumberFormat<N>, v: Json<N>)
    requires IsPlain(v)
    ensures Reread(f, v) == v
    decreases v, 0
  {
    match v {
      case Str(_) =>
      case Arr(items) => PlainItemsReread(f, items);
      case Obj(members) => PlainMembersReread(f, members);
    }
  }

  lemma {:induction false} PlainItemsReread<N>(f: NumberFormat<N>, items: seq<Json<N>>)
    requires PlainItems(items)
    ensures RereadItems(f, items) == items
    decreases items, 1
  {
    if items != [] {
      PlainRereads(f, items[0]);
      PlainItemsReread(f, items[1..]);
    }
  }

  lemma {:induction false} PlainMembersReread<N>(f: NumberFormat<N>, members: seq<Member<N>>)
    requires PlainMembers(members)
    ensures RereadMembers(f, members) == members
    decreases members, 2
  {
    if members != [] {
      PlainRereads(f, members[0].value);
      PlainMembersReread(f, members[1..]);
    }
  }

  lemma {:induction false} PlainItemAt<N>(items: seq<Json<N>>, i: nat)
    requires PlainItems(items) && i < |items|
    ensures IsPlain(items[i]) && Depth(items[i]) <= ItemsDepth(items)
  {
    if i > 0 { PlainItemAt(items[1..], i - 1); }
  }

  lemma {:induction false} PlainMemberAt<N>(members: seq<Member<N>>, i: nat)
    requires PlainMembers(members) && i < |members|
    ensures IsPlainText(members[i].key) && IsPlain(members[i].value) && Depth(members[i].value) <= MembersDepth(members)
  {
    if i > 0 { PlainMemberAt(members[1..], i - 1); }
  }

  /** Plain data is valid as long as it is no deeper than the bound. */
  lemma {:induction false} PlainIsValid<N>(f: NumberFormat<N>, v: Json<N>, depth: nat)
    requires IsPlain(v) && depth + Depth(v) <= MAXIMUM_CONTAINER_DEPTH
    ensures ValidAt(f, v, depth)
    decreases v
  {
    match v {
      case Str(t) => PlainTextIsText(t);
      case Arr(items) =>
        forall i | 0 <= i < |items| ensures ValidAt(f, items[i], depth + 1) {
          PlainItemAt(items, i);
          PlainIsValid(f, items[i], depth + 1);
        }
      case Obj(members) =>
        forall i | 0 <= i < |members| ensures WellFormed(members[i].key) && ValidAt(f, members[i].value, depth + 1) {
          PlainMemberAt(members, i);
          PlainTextIsText(members[i].key);
          PlainIsValid(f, members[i].value, depth + 1);
        }
    }
  }

  lemma {:induction false} PlainIsPrintable<N>(f: NumberFormat<N>, v: Json<N>)
    requires IsPlain(v) && KeysUnique(v)
    ensures Printable(f, v)
    decreases v, 0
  {
    match v {
      case Str(t) => PlainTextIsText(t);
      case Arr(items) => PlainItemsArePrintable(f, items);
      case Obj(members) => PlainMembersArePrintable(f, members);
    }
  }

  lemma {:induction false} PlainItemsArePrintable<N>(f: NumberFormat<N>, items: seq<Json<N>>)
    requires PlainItems(items) && ItemsUnique(items)
    ensures PrintableItems(f, items)
    decreases items, 1
  {
    if items != [] {
      PlainIsPrintable(f, items[0]);
      PlainItemsArePrintable(f, items[1..]);
    }
  }

  lemma {:induction false} PlainMembersArePrintable<N>(f: NumberFormat<N>, members: seq<Member<N>>)
    requires PlainMembers(members) && MembersUnique(members)
    ensures PrintableMembers(f, members)
    decreases members, 2
  {
    if members != [] {
      PlainTextIsText(members[0].key);
      PlainIsPrintable(f, members[0].value);
      PlainMembersArePrintable(f, members[1..]);
    }
  }

  /** Plain data within the depth bound comes back from its encoding, in canonical order. */
  lemma PlainRoundTrip<N(!new)>(f: NumberFormat<N>, v: Json<N>)
    requires StableFormat(f) && IsPlain(v) && Depth(v) <= MAXIMUM_CONTAINER_DEPTH && KeysUnique(v)
    ensures ParseCanonicalJson(f, CanonicalBytes(f, v)) == Some(Sorted(v))
  {
    PlainIsValid(f, v, 0);
    ParseOfEncode(f, v);
    SortedLength(v);
    PlainRereads(f, Sorted(v));
  }
}
