/**
 * The encoded size of JSON made of plain ASCII strings, as the wire formats of
 * packages/identity/src/sealed-body.ts and packages/identity/src/signed-message.ts are: no escapes and
 * no numbers, so the byte length is a sum over members and items that neither the order of members nor
 * the particular characters change.
 */
module JsonSizes {
  import opened ByteStrings
  import opened Lexicographic
  import opened Utf8
  import opened Json
  import opened CanonicalJson

  predicate IsPlainUnit(unit: int) {
    32 <= unit < 0x80 && unit != '"' as int && unit != '\\' as int
  }

  predicate IsPlainText(t: Text) {
    forall i :: 0 <= i < |t| ==> IsPlainUnit(t[i])
  }

  ghost predicate IsPlain<N>(v: Json<N>)
    decreases v, 0
  {
    match v
    case Str(t) => IsPlainText(t)
    case Arr(items) => PlainItems(items)
    case Obj(members) => PlainMembers(members)
    case _ => false
  }

  ghost predicate PlainItems<N>(items: seq<Json<N>>)
    decreases items, 1
  {
    items == [] || (IsPlain(items[0]) && PlainItems(items[1..]))
  }

  ghost predicate PlainMembers<N>(members: seq<Member<N>>)
    decreases members, 1
  {
    members == [] || (IsPlainText(members[0].key) && IsPlain(members[0].value) && PlainMembers(members[1..]))
  }

  /** The printed length of plain JSON. */
  function Length<N>(v: Json<N>): nat
    decreases v, 0
  {
    match v
    case Str(t) => |t| + 2
    case Arr(items) => 2 + (if items == [] then 0 else ItemsWidth(items) - 1)
    case Obj(members) => 2 + (if members == [] then 0 else MembersWidth(members) - 1)
    case _ => 0
  }

  /** The items with a comma after each. */
  function ItemsWidth<N>(items: seq<Json<N>>): (n: nat)
    ensures n >= |items|
    decreases items, 1
  {
    if items == [] then 0 else Length(items[0]) + 1 + ItemsWidth(items[1..])
  }

  function MemberWidth<N>(m: Member<N>): nat
    decreases m, 1
  {
    |m.key| + 3 + Length(m.value) + 1
  }

  function MembersWidth<N>(members: seq<Member<N>>): (n: nat)
    ensures n >= |members|
    decreases members, 2
  {
    if members == [] then 0 else MemberWidth(members[0]) + MembersWidth(members[1..])
  }

  // ------------------------------------------------------------ printing

  lemma {:induction false} PlainTextPrints(t: Text)
    requires IsPlainText(t)
    ensures Escape(t) == t && IsAscii(t)
  {
    if t != [] {
      PlainTextPrints(t[1..]);
      assert IsPlainUnit(t[0]);
      assert t == [t[0]] + t[1..];
    }
  }

  lemma QuotePlain(t: Text)
    requires IsPlainText(t)
    ensures |Quote(t)| == |t| + 2 && IsAscii(Quote(t))
  {
    PlainTextPrints(t);
  }

  lemma AsciiAppend(a: Text, b: Text)
    requires IsAscii(a) && IsAscii(b)
    ensures IsAscii(a + b)
  {
  }

  lemma {:induction false} PrintedLength<N>(f: NumberFormat<N>, v: Json<N>)
    requires IsPlain(v)
    ensures |Print(f, v)| == Length(v) && IsAscii(Print(f, v))
    decreases v, 0
  {
    match v {
      case Str(t) => QuotePlain(t);
      case Arr(items) => PrintedItems(f, items);
      case Obj(members) => PrintedMembers(f, members);
    }
  }

  lemma {:induction false} PrintedItems<N>(f: NumberFormat<N>, items: seq<Json<N>>)
    requires PlainItems(items)
    ensures |PrintItems(f, items)| == (if items == [] then 0 else ItemsWidth(items) - 1)
    ensures IsAscii(PrintItems(f, items))
    decreases items, 1
  {
    if items != [] {
      PrintedLength(f, items[0]);
      PrintedItems(f, items[1..]);
      var comma: Text := [',' as int];
      AsciiAppend(comma, PrintItems(f, items[1..]));
    }
  }

  lemma {:induction false} PrintedMembers<N>(f: NumberFormat<N>, members: seq<Member<N>>)
    requires PlainMembers(members)
    ensures |PrintMembers(f, members)| == (if members == [] then 0 else MembersWidth(members) - 1)
    ensures IsAscii(PrintMembers(f, members))
    decreases members, 2
  {
    if members != [] {
      PrintedMember(f, members[0]);
      PrintedMembers(f, members[1..]);
      var comma: Text := [',' as int];
      AsciiAppend(comma, PrintMembers(f, members[1..]));
    }
  }

  lemma {:induction false} PrintedMember<N>(f: NumberFormat<N>, m: Member<N>)
    requires IsPlainText(m.key) && IsPlain(m.value)
    ensures |PrintMember(f, m)| == MemberWidth(m) - 1 && IsAscii(PrintMember(f, m))
    decreases m, 1
  {
    QuotePlain(m.key);
    PrintedLength(f, m.value);
  }

  // ------------------------------------------------------------- sorting

  lemma {:induction false} InsertKeepsWidth<N>(m: Member<N>, members: seq<Member<N>>)
    ensures MembersWidth(InsertBy(m, members, KeyOf)) == MemberWidth(m) + MembersWidth(members)
    ensures PlainMembers([m]) && PlainMembers(members) ==> PlainMembers(InsertBy(m, members, KeyOf))
  {
    if members != [] && !Less(KeyOf(m), KeyOf(members[0])) {
      InsertKeepsWidth(m, members[1..]);
      assert InsertBy(m, members, KeyOf)[1..] == InsertBy(m, members[1..], KeyOf);
    } else {
      assert InsertBy(m, members, KeyOf)[1..] == members;
    }
  }

  lemma {:induction false} AppendWidth<N>(members: seq<Member<N>>, m: Member<N>)
    ensures MembersWidth(members + [m]) == MembersWidth(members) + MemberWidth(m)
    ensures PlainMembers(members + [m]) <==> PlainMembers(members) && PlainMembers([m])
  {
    if members == [] {
      assert members + [m] == [m];
    } else {
      AppendWidth(members[1..], m);
      assert (members + [m])[1..] == members[1..] + [m];
    }
  }

  lemma {:induction false} SortKeepsWidth<N>(members: seq<Member<N>>)
    ensures MembersWidth(SortBy(members, KeyOf)) == MembersWidth(members)
    ensures PlainMembers(members) ==> PlainMembers(SortBy(members, KeyOf))
  {
    if members != [] {
      var before, last := members[..|members| - 1], members[|members| - 1];
      SortKeepsWidth(before);
      InsertKeepsWidth(last, SortBy(before, KeyOf));
      AppendWidth(before, last);
      assert members == before + [last];
    }
  }

  lemma {:induction false} SortedLength<N>(v: Json<N>)
    ensures Length(Sorted(v)) == Length(v) && (IsPlain(v) ==> IsPlain(Sorted(v)))
    decreases v, 0
  {
    match v {
      case Arr(items) => SortedItemsWidth(items);
      case Obj(members) =>
        SortedMembersWidth(members);
        SortKeepsWidth(SortedMembers(members));
        SortByFacts(SortedMembers(members), KeyOf);
      case _ =>
    }
  }

  lemma {:induction false} SortedItemsWidth<N>(items: seq<Json<N>>)
    ensures ItemsWidth(SortedItems(items)) == ItemsWidth(items)
    ensures PlainItems(items) ==> PlainItems(SortedItems(items))
    decreases items, 1
  {
    if items != [] {
      SortedLength(items[0]);
      SortedItemsWidth(items[1..]);
      assert SortedItems(items)[1..] == SortedItems(items[1..]);
    }
  }

  lemma {:induction false} SortedMembersWidth<N>(members: seq<Member<N>>)
    ensures MembersWidth(SortedMembers(members)) == MembersWidth(members)
    ensures PlainMembers(members) ==> PlainMembers(SortedMembers(members))
    decreases members, 1
  {
    if members != [] {
      SortedLength(members[0].value);
      SortedMembersWidth(members[1..]);
      assert SortedMembers(members)[1..] == SortedMembers(members[1..]);
    }
  }

  /** `JSON.stringify` as bytes, and the canonical encoding, both have the length of the sum. */
  lemma EncodedLengths<N>(f: NumberFormat<N>, v: Json<N>)
    requires IsPlain(v)
    ensures |Encode(Print(f, v))| == Length(v) && |CanonicalBytes(f, v)| == Length(v)
  {
    PrintedLength(f, v);
    AsciiEncodesToItself(Print(f, v));
    SortedLength(v);
    PrintedLength(f, Sorted(v));
    AsciiEncodesToItself(Print(f, Sorted(v)));
  }
}
