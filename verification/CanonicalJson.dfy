/** Canonical JSON, sections 3.2.2 and 3.2.3 of RFC 8785. */
module CanonicalJson {
  import opened Wrappers
  import opened ByteStrings
  import opened Lexicographic
  import opened Sequences
  import opened Utf8
  import opened Json

  // The printer of packages/identity/src/canonical-json.ts, and its parser, which accepts only what the
  // printer writes.

  const MAXIMUM_CONTAINER_DEPTH := 16

  function KeyOf<N>(m: Member<N>): Text {
    m.key
  }

  /** The value with every object's members in the order of their keys' code units. */
  function Sorted<N>(v: Json<N>): Json<N>
    decreases v, 0
  {
    match v
    case Arr(items) => Arr(SortedItems(items))
    case Obj(members) => Obj(SortBy(SortedMembers(members), KeyOf))
    case _ => v
  }

  function SortedItems<N>(items: seq<Json<N>>): (r: seq<Json<N>>)
    ensures |r| == |items|
    decreases items, 1
  {
    if items == [] then [] else [Sorted(items[0])] + SortedItems(items[1..])
  }

  function SortedMembers<N>(members: seq<Member<N>>): (r: seq<Member<N>>)
    ensures |r| == |members|
    decreases members, 1
  {
    if members == [] then []
    else [Member(members[0].key, Sorted(members[0].value))] + SortedMembers(members[1..])
  }

  /** What the snapshot admits below `depth` containers. */
  predicate ValidAt<N>(f: NumberFormat<N>, v: Json<N>, depth: nat)
    decreases v
  {
    match v
    case Null => true
    case Bool(_) => true
    case Num(n) => f.finite(n)
    case Str(t) => WellFormed(t)
    case Arr(items) =>
      depth < MAXIMUM_CONTAINER_DEPTH
      && forall i :: 0 <= i < |items| ==> ValidAt(f, items[i], depth + 1)
    case Obj(members) =>
      depth < MAXIMUM_CONTAINER_DEPTH
      && forall i :: 0 <= i < |members| ==>
        WellFormed(members[i].key) && ValidAt(f, members[i].value, depth + 1)
  }

  predicate Valid<N>(f: NumberFormat<N>, v: Json<N>) {
    ValidAt(f, v, 0)
  }

  /** Objects are objects: no member list repeats a key, at any depth. */
  ghost predicate KeysUnique<N>(v: Json<N>) {
    match v
    case Arr(items) => forall i :: 0 <= i < |items| ==> KeysUnique(items[i])
    case Obj(members) =>
      DistinctKeys(members) && forall i :: 0 <= i < |members| ==> KeysUnique(members[i].value)
    case _ => true
  }

  function CanonicalBytes<N>(f: NumberFormat<N>, v: Json<N>): Bytes {
    Encode(Print(f, Sorted(v)))
  }

  /** `encodeCanonicalJson` on plain data. */
  function EncodeCanonicalJson<N>(f: NumberFormat<N>, v: Json<N>): Option<Bytes> {
    if Valid(f, v) then Some(CanonicalBytes(f, v)) else None
  }

  function ParseCanonicalJson<N>(f: NumberFormat<N>, bytes: Bytes): Option<Json<N>> {
    match Decode(bytes)
    case None => None
    case Some(text) =>
      match Parse(f, text)
      case None => None
      case Some(v) =>
        if Valid(f, v) && SameBytes(bytes, CanonicalBytes(f, v)) then Some(v) else None
  }

  /**
   * What is assumed of the runtime's numbers: they are written as JSON tokens, writing what was read
   * back changes nothing, and negative zero alone reads back as another number.
   */
  ghost predicate StableFormat<N(!new)>(f: NumberFormat<N>) {
    FormatOk(f) && forall n :: f.finite(n) ==>
      && f.finite(f.read(f.write(n)))
      && f.write(f.read(f.write(n))) == f.write(n)
      && (f.read(f.write(n)) == n <==> !f.negativeZero(n))
  }

  /** Negative zero is in the value, at some depth. */
  ghost predicate HasNegativeZero<N>(f: NumberFormat<N>, v: Json<N>)
    decreases v
  {
    match v
    case Num(n) => f.negativeZero(n)
    case Arr(items) => exists i :: 0 <= i < |items| && HasNegativeZero(f, items[i])
    case Obj(members) => exists i :: 0 <= i < |members| && HasNegativeZero(f, members[i].value)
    case _ => false
  }

  // ------------------------------------------------------- what is valid

  /** How deep containers are nested. */
  function Depth<N>(v: Json<N>): nat
    decreases v, 0
  {
    match v
    case Arr(items) => 1 + ItemsDepth(items)
    case Obj(members) => 1 + MembersDepth(members)
    case _ => 0
  }

  function Larger(a: nat, b: nat): nat {
    if a < b then b else a
  }

  function ItemsDepth<N>(items: seq<Json<N>>): nat
    decreases items, 1
  {
    if items == [] then 0 else Larger(Depth(items[0]), ItemsDepth(items[1..]))
  }

  function MembersDepth<N>(members: seq<Member<N>>): nat
    decreases members, 1
  {
    if members == [] then 0 else Larger(Depth(members[0].value), MembersDepth(members[1..]))
  }

  /** Every number is finite and every string and key well formed, at any depth. */
  ghost predicate HasValidLeaves<N>(f: NumberFormat<N>, v: Json<N>)
    decreases v
  {
    match v
    case Num(n) => f.finite(n)
    case Str(t) => WellFormed(t)
    case Arr(items) => forall i :: 0 <= i < |items| ==> HasValidLeaves(f, items[i])
    case Obj(members) =>
      forall i :: 0 <= i < |members| ==> WellFormed(members[i].key) && HasValidLeaves(f, members[i].value)
    case _ => true
  }

  lemma {:induction false} ItemsDepthIff<N>(items: seq<Json<N>>, bound: nat)
    ensures ItemsDepth(items) <= bound <==> forall i :: 0 <= i < |items| ==> Depth(items[i]) <= bound
  {
    if items != [] {
      ItemsDepthIff(items[1..], bound);
      assert forall i :: 1 <= i < |items| ==> items[i] == items[1..][i - 1];
    }
  }

  lemma {:induction false} MembersDepthIff<N>(members: seq<Member<N>>, bound: nat)
    ensures MembersDepth(members) <= bound <==>
      forall i :: 0 <= i < |members| ==> Depth(members[i].value) <= bound
  {
    if members != [] {
      MembersDepthIff(members[1..], bound);
      assert forall i :: 1 <= i < |members| ==> members[i] == members[1..][i - 1];
    }
  }

  /** Valid data is nested at most 16 deep, with finite numbers and well-formed text throughout. */
  lemma {:induction false} ValidIff<N>(f: NumberFormat<N>, v: Json<N>, depth: nat)
    requires depth <= 16
    ensures ValidAt(f, v, depth) <==> HasValidLeaves(f, v) && depth + Depth(v) <= 16
    decreases v
  {
    match v {
      case Arr(items) =>
        if depth < 16 {
          forall i | 0 <= i < |items|
            ensures ValidAt(f, items[i], depth + 1) <==>
              HasValidLeaves(f, items[i]) && depth + 1 + Depth(items[i]) <= 16
          {
            ValidIff(f, items[i], depth + 1);
          }
          ItemsDepthIff(items, 15 - depth);
        }
      case Obj(members) =>
        if depth < 16 {
          forall i | 0 <= i < |members|
            ensures ValidAt(f, members[i].value, depth + 1) <==>
              HasValidLeaves(f, members[i].value) && depth + 1 + Depth(members[i].value) <= 16
          {
            ValidIff(f, members[i].value, depth + 1);
          }
          MembersDepthIff(members, 15 - depth);
        }
      case _ =>
    }
  }

  // ------------------------------------------------- sorting members

  lemma {:induction false} InsertKeepsKeys<N>(m: Member<N>, members: seq<Member<N>>)
    ensures forall key :: HasKey(InsertBy(m, members, KeyOf), key) <==> HasKey(members, key) || m.key == key
    ensures DistinctKeys(members) && !HasKey(members, m.key) ==> DistinctKeys(InsertBy(m, members, KeyOf))
  {
    if members != [] { InsertKeepsKeys(m, members[1..]); }
  }

  lemma {:induction false} SortKeepsKeys<N>(members: seq<Member<N>>)
    ensures forall key :: HasKey(SortBy(members, KeyOf), key) <==> HasKey(members, key)
    ensures DistinctKeys(members) ==> DistinctKeys(SortBy(members, KeyOf))
  {
    if members != [] {
      var before, last := members[..|members| - 1], members[|members| - 1];
      SortKeepsKeys(before);
      InsertKeepsKeys(last, SortBy(before, KeyOf));
      assert members == before + [last];
      forall key ensures HasKey(members, key) <==> HasKey(before, key) || last.key == key {
        HasKeySnoc(before, last, key);
      }
      if DistinctKeys(members) { DistinctKeysPrefix(before, last); }
    }
  }

  lemma {:induction false} SortedMembersKeepKeys<N>(members: seq<Member<N>>)
    ensures forall key :: HasKey(SortedMembers(members), key) <==> HasKey(members, key)
    ensures DistinctKeys(members) ==> DistinctKeys(SortedMembers(members))
  {
    if members != [] { SortedMembersKeepKeys(members[1..]); }
  }

  lemma {:induction false} SortedMembersAt<N>(members: seq<Member<N>>, i: nat)
    requires i < |members|
    ensures SortedMembers(members)[i] == Member(members[i].key, Sorted(members[i].value))
  {
    if i > 0 { SortedMembersAt(members[1..], i - 1); }
  }

  lemma {:induction false} SortedItemsAt<N>(items: seq<Json<N>>, i: nat)
    requires i < |items|
    ensures SortedItems(items)[i] == Sorted(items[i])
  {
    if i > 0 { SortedItemsAt(items[1..], i - 1); }
  }

  lemma {:induction false} RereadMembersAt<N>(f: NumberFormat<N>, members: seq<Member<N>>, i: nat)
    requires i < |members|
    ensures RereadMembers(f, members)[i] == Member(members[i].key, Reread(f, members[i].value))
  {
    if i > 0 { RereadMembersAt(f, members[1..], i - 1); }
  }

  lemma {:induction false} RereadItemsAt<N>(f: NumberFormat<N>, items: seq<Json<N>>, i: nat)
    requires i < |items|
    ensures RereadItems(f, items)[i] == Reread(f, items[i])
  {
    if i > 0 { RereadItemsAt(f, items[1..], i - 1); }
  }

  /** Where a member of the sorted object was before. */
  lemma SortedObjectOrigin<N>(members: seq<Member<N>>, j: nat) returns (i: nat)
    requires j < |SortBy(SortedMembers(members), KeyOf)|
    ensures i < |members|
    ensures SortBy(SortedMembers(members), KeyOf)[j] == Member(members[i].key, Sorted(members[i].value))
  {
    var ms := SortedMembers(members);
    SortByFacts(ms, KeyOf);
    var m := SortBy(ms, KeyOf)[j];
    assert m in multiset(SortBy(ms, KeyOf));
    assert m in ms;
    i :| 0 <= i < |ms| && ms[i] == m;
    SortedMembersAt(members, i);
  }

  lemma {:induction false} SortedKeepsValid<N>(f: NumberFormat<N>, v: Json<N>, depth: nat)
    requires ValidAt(f, v, depth) && KeysUnique(v)
    ensures ValidAt(f, Sorted(v), depth) && KeysUnique(Sorted(v))
    decreases v
  {
    match v {
      case Arr(items) =>
        forall i | 0 <= i < |items|
          ensures ValidAt(f, SortedItems(items)[i], depth + 1) && KeysUnique(SortedItems(items)[i])
        {
          SortedItemsAt(items, i);
          SortedKeepsValid(f, items[i], depth + 1);
        }
      case Obj(members) =>
        var sorted := SortBy(SortedMembers(members), KeyOf);
        SortedMembersKeepKeys(members);
        SortKeepsKeys(SortedMembers(members));
        forall j | 0 <= j < |sorted|
          ensures WellFormed(sorted[j].key) && ValidAt(f, sorted[j].value, depth + 1) && KeysUnique(sorted[j].value)
        {
          var i := SortedObjectOrigin(members, j);
          SortedKeepsValid(f, members[i].value, depth + 1);
        }
      case _ =>
    }
  }

  lemma {:induction false} RereadKeepsValid<N(!new)>(f: NumberFormat<N>, v: Json<N>, depth: nat)
    requires StableFormat(f) && ValidAt(f, v, depth)
    ensures ValidAt(f, Reread(f, v), depth)
    decreases v
  {
    match v {
      case Arr(items) =>
        forall i | 0 <= i < |items| ensures ValidAt(f, RereadItems(f, items)[i], depth + 1) {
          RereadItemsAt(f, items, i);
          RereadKeepsValid(f, items[i], depth + 1);
        }
      case Obj(members) =>
        forall i | 0 <= i < |members|
          ensures WellFormed(RereadMembers(f, members)[i].key)
            && ValidAt(f, RereadMembers(f, members)[i].value, depth + 1)
        {
          RereadMembersAt(f, members, i);
          RereadKeepsValid(f, members[i].value, depth + 1);
        }
      case _ =>
    }
  }

  // ------------------------------------------------------- negative zero

  /** Where a member of the object is after sorting. */
  lemma SortedObjectPlace<N>(members: seq<Member<N>>, i: nat) returns (j: nat)
    requires i < |members|
    ensures j < |SortBy(SortedMembers(members), KeyOf)|
    ensures SortBy(SortedMembers(members), KeyOf)[j] == Member(members[i].key, Sorted(members[i].value))
  {
    var ms := SortedMembers(members);
    SortByFacts(ms, KeyOf);
    SortedMembersAt(members, i);
    assert ms[i] in multiset(ms);
    assert ms[i] in SortBy(ms, KeyOf);
    j :| 0 <= j < |SortBy(ms, KeyOf)| && SortBy(ms, KeyOf)[j] == ms[i];
  }

  lemma {:induction false} SortingKeepsNegativeZero<N>(f: NumberFormat<N>, v: Json<N>)
    ensures HasNegativeZero(f, Sorted(v)) <==> HasNegativeZero(f, v)
    decreases v
  {
    match v {
      case Arr(items) =>
        forall i | 0 <= i < |items|
          ensures HasNegativeZero(f, SortedItems(items)[i]) <==> HasNegativeZero(f, items[i])
        {
          SortedItemsAt(items, i);
          SortingKeepsNegativeZero(f, items[i]);
        }
      case Obj(members) =>
        var sorted := SortBy(SortedMembers(members), KeyOf);
        if j :| 0 <= j < |sorted| && HasNegativeZero(f, sorted[j].value) {
          var i := SortedObjectOrigin(members, j);
          SortingKeepsNegativeZero(f, members[i].value);
        }
        if i :| 0 <= i < |members| && HasNegativeZero(f, members[i].value) {
          var j := SortedObjectPlace(members, i);
          SortingKeepsNegativeZero(f, members[i].value);
          assert HasNegativeZero(f, sorted[j].value);
        }
      case _ =>
    }
  }

  /** Every number reads back as itself exactly when none of them is negative zero. */
  lemma {:induction false} RereadIsSameIff<N(!new)>(f: NumberFormat<N>, v: Json<N>, depth: nat)
    requires StableFormat(f) && ValidAt(f, v, depth)
    ensures Reread(f, v) == v <==> !HasNegativeZero(f, v)
    decreases v
  {
    match v {
      case Arr(items) =>
        forall i | 0 <= i < |items|
          ensures RereadItems(f, items)[i] == items[i] <==> !HasNegativeZero(f, items[i])
        {
          RereadItemsAt(f, items, i);
          RereadIsSameIff(f, items[i], depth + 1);
        }
      case Obj(members) =>
        forall i | 0 <= i < |members|
          ensures RereadMembers(f, members)[i] == members[i] <==> !HasNegativeZero(f, members[i].value)
        {
          RereadMembersAt(f, members, i);
          RereadIsSameIff(f, members[i].value, depth + 1);
        }
      case _ =>
    }
  }

  lemma {:induction false} WellFormedIsUnits(t: Text)
    requires WellFormed(t)
    ensures IsUnits(t)
  {
    if t != [] {
      if IsHighSurrogate(t[0]) {
        WellFormedIsUnits(t[2..]);
        assert forall i :: 2 <= i < |t| ==> t[i] == t[2..][i - 2];
      } else {
        WellFormedIsUnits(t[1..]);
        assert forall i :: 1 <= i < |t| ==> t[i] == t[1..][i - 1];
      }
    }
  }

  /** Valid plain data prints. */
  lemma {:induction false} ValidIsPrintable<N>(f: NumberFormat<N>, v: Json<N>, depth: nat)
    requires ValidAt(f, v, depth) && KeysUnique(v)
    ensures Printable(f, v)
    decreases v, 0
  {
    match v {
      case Str(t) => WellFormedIsUnits(t);
      case Arr(items) => ValidItemsArePrintable(f, items, depth + 1);
      case Obj(members) => ValidMembersArePrintable(f, members, depth + 1);
      case _ =>
    }
  }

  lemma {:induction false} ValidItemsArePrintable<N>(f: NumberFormat<N>, items: seq<Json<N>>, depth: nat)
    requires forall i :: 0 <= i < |items| ==> ValidAt(f, items[i], depth) && KeysUnique(items[i])
    ensures PrintableItems(f, items)
    decreases items, 1
  {
    if items != [] {
      ValidIsPrintable(f, items[0], depth);
      ValidItemsArePrintable(f, items[1..], depth);
    }
  }

  lemma {:induction false} ValidMembersArePrintable<N>(f: NumberFormat<N>, members: seq<Member<N>>, depth: nat)
    requires forall i :: 0 <= i < |members| ==>
      WellFormed(members[i].key) && ValidAt(f, members[i].value, depth) && KeysUnique(members[i].value)
    ensures PrintableMembers(f, members)
    decreases members, 1
  {
    if members != [] {
      WellFormedIsUnits(members[0].key);
      ValidIsPrintable(f, members[0].value, depth);
      ValidMembersArePrintable(f, members[1..], depth);
    }
  }

  // ------------------------------------------- printed text is well-formed

  lemma {:induction false} NumberTextIsAscii(t: Text)
    requires NumberRun(t) == |t|
    ensures WellFormed(t)
  {
    if t != [] { NumberTextIsAscii(t[1..]); }
  }

  lemma EscapeOfPlain(unit: int, t: Text)
    requires EscapeUnit(unit) == [unit]
    ensures Escape([unit] + t) == [unit] + Escape(t)
  {
    assert ([unit] + t)[1..] == t;
  }

  lemma EscapeOfPair(high: int, low: int, t: Text)
    requires IsHighSurrogate(high) && IsLowSurrogate(low)
    ensures Escape([high] + ([low] + t)) == [high, low] + Escape(t)
  {
    EscapeOfPlain(high, [low] + t);
    EscapeOfPlain(low, t);
    Regroup([high], [low], Escape(t));
  }

  lemma {:induction false} EscapeIsWellFormed(t: Text)
    requires WellFormed(t)
    ensures WellFormed(Escape(t))
  {
    if t != [] {
      if IsHighSurrogate(t[0]) {
        EscapeIsWellFormed(t[2..]);
        EscapeOfPair(t[0], t[1], t[2..]);
        assert t == [t[0]] + ([t[1]] + t[2..]);
        assert [t[0], t[1]][2..] == [];
        WellFormedAppend([t[0], t[1]], Escape(t[2..]));
      } else {
        EscapeIsWellFormed(t[1..]);
        EscapedUnitIsWellFormed(t[0]);
        WellFormedAppend(EscapeUnit(t[0]), Escape(t[1..]));
      }
    }
  }

  lemma EscapedUnitIsWellFormed(unit: int)
    requires 0 <= unit < 0x10000 && !IsHighSurrogate(unit) && !IsLowSurrogate(unit)
    ensures WellFormed(EscapeUnit(unit))
  {
    if |EscapeUnit(unit)| > 1 { AsciiEncodesToItself(EscapeUnit(unit)); }
  }

  lemma QuoteIsWellFormed(t: Text)
    requires WellFormed(t)
    ensures WellFormed(Quote(t))
  {
    var mark := ['"' as int];
    EscapeIsWellFormed(t);
    AsciiEncodesToItself(mark);
    WellFormedAppend(mark, Escape(t));
    WellFormedAppend(mark + Escape(t), mark);
  }

  lemma BracketsAreWellFormed(open: int, body: Text, close: int)
    requires 0 <= open < 0x80 && 0 <= close < 0x80 && WellFormed(body)
    ensures WellFormed([open] + body + [close])
  {
    AsciiEncodesToItself([open]);
    AsciiEncodesToItself([close]);
    WellFormedAppend([open], body);
    WellFormedAppend([open] + body, [close]);
  }

  lemma {:induction false} PrintIsWellFormed<N(!new)>(f: NumberFormat<N>, v: Json<N>, depth: nat)
    requires FormatOk(f) && ValidAt(f, v, depth)
    ensures WellFormed(Print(f, v))
    decreases v, 0
  {
    match v {
      case Null => AsciiEncodesToItself(Print(f, v));
      case Bool(_) => AsciiEncodesToItself(Print(f, v));
      case Num(n) => NumberTextIsAscii(f.write(n));
      case Str(t) => QuoteIsWellFormed(t);
      case Arr(items) =>
        PrintItemsIsWellFormed(f, items, depth + 1);
        BracketsAreWellFormed('[' as int, PrintItems(f, items), ']' as int);
      case Obj(members) =>
        PrintMembersIsWellFormed(f, members, depth + 1);
        BracketsAreWellFormed('{' as int, PrintMembers(f, members), '}' as int);
    }
  }

  lemma CommaIsWellFormed(first: Text, others: Text)
    requires WellFormed(first) && WellFormed(others)
    ensures WellFormed(first + ([',' as int] + others))
  {
    AsciiEncodesToItself([',' as int]);
    WellFormedAppend([',' as int], others);
    WellFormedAppend(first, [',' as int] + others);
  }

  lemma {:induction false} PrintItemsIsWellFormed<N(!new)>(f: NumberFormat<N>, items: seq<Json<N>>, depth: nat)
    requires FormatOk(f) && forall i :: 0 <= i < |items| ==> ValidAt(f, items[i], depth)
    ensures WellFormed(PrintItems(f, items))
    decreases items, 1
  {
    if items != [] {
      PrintIsWellFormed(f, items[0], depth);
      if |items| == 1 {
        PrintItemsOne(f, items);
      } else {
        PrintItemsIsWellFormed(f, items[1..], depth);
        CommaIsWellFormed(Print(f, items[0]), PrintItems(f, items[1..]));
      }
    }
  }

  lemma {:induction false} PrintMembersIsWellFormed<N(!new)>(f: NumberFormat<N>, members: seq<Member<N>>, depth: nat)
    requires FormatOk(f)
    requires forall i :: 0 <= i < |members| ==> WellFormed(members[i].key) && ValidAt(f, members[i].value, depth)
    ensures WellFormed(PrintMembers(f, members))
    decreases members, 1
  {
    if members != [] {
      var m := members[0];
      PrintIsWellFormed(f, m.value, depth);
      QuoteIsWellFormed(m.key);
      AsciiEncodesToItself([':' as int]);
      WellFormedAppend(Quote(m.key), [':' as int]);
      WellFormedAppend(Quote(m.key) + [':' as int], Print(f, m.value));
      if |members| == 1 {
        PrintMembersOne(f, members);
      } else {
        PrintMembersIsWellFormed(f, members[1..], depth);
        CommaIsWellFormed(PrintMember(f, m), PrintMembers(f, members[1..]));
      }
    }
  }

  // --------------------------------------------- rereading keeps the text

  lemma {:induction false} RereadPrintsAlike<N(!new)>(f: NumberFormat<N>, v: Json<N>)
    requires StableFormat(f) && Printable(f, v)
    ensures Print(f, Reread(f, v)) == Print(f, v)
    decreases v, 0
  {
    match v {
      case Arr(items) => RereadItemsPrintAlike(f, items);
      case Obj(members) => RereadMembersPrintAlike(f, members);
      case _ =>
    }
  }

  lemma {:induction false} RereadItemsPrintAlike<N(!new)>(f: NumberFormat<N>, items: seq<Json<N>>)
    requires StableFormat(f) && PrintableItems(f, items)
    ensures PrintItems(f, RereadItems(f, items)) == PrintItems(f, items)
    decreases items, 1
  {
    if items != [] {
      RereadPrintsAlike(f, items[0]);
      RereadItemsPrintAlike(f, items[1..]);
      assert RereadItems(f, items)[1..] == RereadItems(f, items[1..]);
    }
  }

  lemma {:induction false} RereadMembersPrintAlike<N(!new)>(f: NumberFormat<N>, members: seq<Member<N>>)
    requires StableFormat(f) && PrintableMembers(f, members)
    ensures PrintMembers(f, RereadMembers(f, members)) == PrintMembers(f, members)
    decreases members, 1
  {
    if members != [] {
      RereadPrintsAlike(f, members[0].value);
      RereadMembersPrintAlike(f, members[1..]);
      assert RereadMembers(f, members)[1..] == RereadMembers(f, members[1..]);
    }
  }

  // ------------------------------------------------ sorting is idempotent

  /** Members are in key order at every depth. */
  ghost predicate IsSorted<N>(v: Json<N>) {
    match v
    case Arr(items) => forall i :: 0 <= i < |items| ==> IsSorted(items[i])
    case Obj(members) =>
      SortedBy(members, KeyOf) && forall i :: 0 <= i < |members| ==> IsSorted(members[i].value)
    case _ => true
  }

  lemma {:induction false} SortedIsSorted<N>(v: Json<N>)
    ensures IsSorted(Sorted(v))
    decreases v
  {
    match v {
      case Arr(items) =>
        forall i | 0 <= i < |items| ensures IsSorted(SortedItems(items)[i]) {
          SortedItemsAt(items, i);
          SortedIsSorted(items[i]);
        }
      case Obj(members) =>
        var sorted := SortBy(SortedMembers(members), KeyOf);
        SortByFacts(SortedMembers(members), KeyOf);
        forall j | 0 <= j < |sorted| ensures IsSorted(sorted[j].value) {
          var i := SortedObjectOrigin(members, j);
          SortedIsSorted(members[i].value);
        }
      case _ =>
    }
  }

  lemma {:induction false} InsertLast<T>(x: T, xs: seq<T>, key: T -> seq<int>)
    requires SortedBy(xs + [x], key)
    ensures InsertBy(x, xs, key) == xs + [x]
  {
    if xs != [] {
      assert (xs + [x])[1..] == xs[1..] + [x];
      SortedFirst(xs + [x], key, x);
      InsertLast(x, xs[1..], key);
    }
  }

  lemma {:induction false} SortedPrefix<T>(xs: seq<T>, key: T -> seq<int>, n: nat)
    requires SortedBy(xs, key) && n <= |xs|
    ensures SortedBy(xs[..n], key)
  {
    if n >= 2 {
      SortedPrefix(xs[1..], key, n - 1);
      assert xs[..n][1..] == xs[1..][..n - 1];
    }
  }

  lemma {:induction false} SortOfSorted<T>(xs: seq<T>, key: T -> seq<int>)
    requires SortedBy(xs, key)
    ensures SortBy(xs, key) == xs
  {
    if xs != [] {
      var before, last := xs[..|xs| - 1], xs[|xs| - 1];
      assert xs == before + [last];
      SortedPrefix(xs, key, |xs| - 1);
      SortOfSorted(before, key);
      InsertLast(last, before, key);
    }
  }

  lemma {:induction false} SortedOfSorted<N>(v: Json<N>)
    requires IsSorted(v)
    ensures Sorted(v) == v
    decreases v
  {
    match v {
      case Arr(items) =>
        forall i | 0 <= i < |items| ensures SortedItems(items)[i] == items[i] {
          SortedItemsAt(items, i);
          SortedOfSorted(items[i]);
        }
      case Obj(members) =>
        forall i | 0 <= i < |members| ensures SortedMembers(members)[i] == members[i] {
          SortedMembersAt(members, i);
          SortedOfSorted(members[i].value);
        }
        assert SortedMembers(members) == members;
        SortOfSorted(members, KeyOf);
      case _ =>
    }
  }

  lemma {:induction false} RereadKeepsOrder<N>(f: NumberFormat<N>, members: seq<Member<N>>)
    requires SortedBy(members, KeyOf)
    ensures SortedBy(RereadMembers(f, members), KeyOf)
  {
    if |members| >= 2 {
      RereadKeepsOrder(f, members[1..]);
      RereadMembersAt(f, members, 1);
      assert RereadMembers(f, members)[1..] == RereadMembers(f, members[1..]);
    }
  }

  lemma {:induction false} RereadKeepsSorted<N>(f: NumberFormat<N>, v: Json<N>)
    requires IsSorted(v)
    ensures IsSorted(Reread(f, v))
    decreases v
  {
    match v {
      case Arr(items) =>
        forall i | 0 <= i < |items| ensures IsSorted(RereadItems(f, items)[i]) {
          RereadItemsAt(f, items, i);
          RereadKeepsSorted(f, items[i]);
        }
      case Obj(members) =>
        RereadKeepsOrder(f, members);
        forall i | 0 <= i < |members| ensures IsSorted(RereadMembers(f, members)[i].value) {
          RereadMembersAt(f, members, i);
          RereadKeepsSorted(f, members[i].value);
        }
      case _ =>
    }
  }

  // ------------------------------------------- parsed values are objects

  ghost predicate ItemsUnique<N>(items: seq<Json<N>>) {
    forall i :: 0 <= i < |items| ==> KeysUnique(items[i])
  }

  ghost predicate MembersUnique<N>(members: seq<Member<N>>) {
    forall i :: 0 <= i < |members| ==> KeysUnique(members[i].value)
  }

  lemma {:induction false} AssignKeepsUnique<N>(members: seq<Member<N>>, m: Member<N>)
    requires MembersUnique(members) && KeysUnique(m.value)
    ensures MembersUnique(Assign(members, m))
  {
    if members != [] { AssignKeepsUnique(members[1..], m); }
  }

  lemma {:induction false} FromEntriesUnique<N>(entries: seq<Member<N>>)
    requires MembersUnique(entries)
    ensures MembersUnique(FromEntries(entries)) && DistinctKeys(FromEntries(entries))
  {
    FromEntriesDistinct(entries);
    if entries != [] {
      FromEntriesUnique(entries[..|entries| - 1]);
      AssignKeepsUnique(FromEntries(entries[..|entries| - 1]), entries[|entries| - 1]);
    }
  }

  lemma {:induction false} ParsedValueUnique<N>(f: NumberFormat<N>, text: Text)
    ensures ParseValue(f, text).Parsed? ==> KeysUnique(ParseValue(f, text).value)
    decreases |text|, 0
  {
    var s := SkipSpace(text);
    if s != [] && s[0] == '[' as int {
      ParsedItemsUnique(f, s[1..]);
    } else if s != [] && s[0] == '{' as int {
      ParsedEntriesUnique(f, s[1..]);
      if ParseEntries(f, s[1..]).Parsed? { FromEntriesUnique(ParseEntries(f, s[1..]).value); }
    }
  }

  lemma {:induction false} ParsedItemsUnique<N>(f: NumberFormat<N>, text: Text)
    ensures ParseItems(f, text).Parsed? ==> ItemsUnique(ParseItems(f, text).value)
    decreases |text|, 1
  {
    ParsedValueUnique(f, text);
    if ParseValue(f, text).Parsed? {
      var s := SkipSpace(ParseValue(f, text).rest);
      if s != [] && s[0] == ',' as int { ParsedItemsUnique(f, s[1..]); }
    }
  }

  lemma {:induction false} ParsedEntriesUnique<N>(f: NumberFormat<N>, text: Text)
    ensures ParseEntries(f, text).Parsed? ==> MembersUnique(ParseEntries(f, text).value)
    decreases |text|, 1
  {
    ParsedEntryUnique(f, text);
    if ParseEntry(f, text).Parsed? {
      var s := SkipSpace(ParseEntry(f, text).rest);
      if s != [] && s[0] == ',' as int { ParsedEntriesUnique(f, s[1..]); }
    }
  }

  lemma {:induction false} ParsedEntryUnique<N>(f: NumberFormat<N>, text: Text)
    ensures ParseEntry(f, text).Parsed? ==> KeysUnique(ParseEntry(f, text).value.value)
    decreases |text|, 0
  {
    var s := SkipSpace(text);
    if s != [] && s[0] == '"' as int && ParseString(s[1..]).Parsed? {
      var colon := SkipSpace(ParseString(s[1..]).rest);
      if colon != [] { ParsedValueUnique(f, colon[1..]); }
    }
  }

  /** Whatever is accepted is valid data without repeated keys. */
  lemma AcceptedIsValid<N>(f: NumberFormat<N>, bytes: Bytes)
    requires ParseCanonicalJson(f, bytes).Some?
    ensures Valid(f, ParseCanonicalJson(f, bytes).value) && KeysUnique(ParseCanonicalJson(f, bytes).value)
  {
    ParsedValueUnique(f, Decode(bytes).value);
  }

  // ----------------------------------------------------------- main results

  /**
   * The parser undoes the printer: encoding valid data and parsing the bytes gives the same data,
   * members in canonical order and negative zero as zero.
   */
  lemma ParseOfEncode<N(!new)>(f: NumberFormat<N>, v: Json<N>)
    requires StableFormat(f) && Valid(f, v) && KeysUnique(v)
    ensures EncodeCanonicalJson(f, v).Some?
    ensures ParseCanonicalJson(f, EncodeCanonicalJson(f, v).value) == Some(Reread(f, Sorted(v)))
  {
    var w := Sorted(v);
    var text := Print(f, w);
    var r := Reread(f, w);
    SortedKeepsValid(f, v, 0);
    ValidIsPrintable(f, w, 0);
    PrintIsWellFormed(f, w, 0);
    PrintStarts(f, w);
    DecodeOfEncode(text);
    ParseOfPrint(f, w);
    RereadKeepsValid(f, w, 0);
    RereadPrintsAlike(f, w);
    SortedIsSorted(v);
    RereadKeepsSorted(f, w);
    SortedOfSorted(r);
    SameBytesIsEquality(Encode(text), CanonicalBytes(f, r));
  }

  /** Equal up to the order of members. */
  ghost predicate SameData<N>(v: Json<N>, w: Json<N>) {
    Sorted(v) == Sorted(w)
  }

  /** Exactly when the parser returns the very data that was encoded: when it holds no negative zero. */
  lemma ParseOfEncodeIff<N(!new)>(f: NumberFormat<N>, v: Json<N>)
    requires StableFormat(f) && Valid(f, v) && KeysUnique(v)
    ensures var parsed := ParseCanonicalJson(f, CanonicalBytes(f, v));
      parsed.Some? && (SameData(parsed.value, v) <==> !HasNegativeZero(f, v))
  {
    ParseOfEncode(f, v);
    SortedIsSorted(v);
    RereadKeepsSorted(f, Sorted(v));
    SortedOfSorted(Reread(f, Sorted(v)));
    SortedKeepsValid(f, v, 0);
    RereadIsSameIff(f, Sorted(v), 0);
    SortingKeepsNegativeZero(f, v);
  }

  /** The two zeros, 0 and 1 for negative zero, and no other number. */
  function TwoZeros(): NumberFormat<int> {
    NumberFormat(_ => 0, _ => ['0' as int], n => n == 0 || n == 1, n => n == 1)
  }

  lemma ZerosAreStable()
    ensures StableFormat(TwoZeros())
  {
    assert IsNumberToken(['0' as int]);
    assert NumberRun(['0' as int]) == 1 + NumberRun([]);
  }

  function ListOf(n: int): Json<int> {
    Arr([Num(n)])
  }

  lemma ListIsPlain(n: int)
    requires TwoZeros().finite(n)
    ensures Valid(TwoZeros(), ListOf(n)) && KeysUnique(ListOf(n))
    ensures Sorted(ListOf(n)) == ListOf(n)
  {
    var items: seq<Json<int>> := [Num(n)];
    assert SortedItems(items) == items;
  }

  lemma ListRereads(n: int)
    ensures Reread(TwoZeros(), ListOf(n)) == ListOf(0)
  {
    var items: seq<Json<int>> := [Num(n)];
    assert RereadItems(TwoZeros(), items) == [Num(0)];
  }

  lemma ListsPrintAlike()
    ensures Print(TwoZeros(), ListOf(0)) == Print(TwoZeros(), ListOf(1))
  {
    var zero: seq<Json<int>>, negative: seq<Json<int>> := [Num(0)], [Num(1)];
    assert PrintItems(TwoZeros(), zero) == PrintItems(TwoZeros(), negative);
  }

  /** A list of negative zero is encoded as a list of zero, and that is what comes back. */
  lemma NegativeZeroIsLost()
    ensures StableFormat(TwoZeros()) && KeysUnique(ListOf(1))
    ensures EncodeCanonicalJson(TwoZeros(), ListOf(1)).Some?
    ensures EncodeCanonicalJson(TwoZeros(), ListOf(1)) == EncodeCanonicalJson(TwoZeros(), ListOf(0))
    ensures ParseCanonicalJson(TwoZeros(), EncodeCanonicalJson(TwoZeros(), ListOf(1)).value) == Some(ListOf(0))
    ensures !SameData(ListOf(1), ListOf(0))
  {
    ZerosAreStable();
    ListIsPlain(0);
    ListIsPlain(1);
    ListRereads(1);
    ListsPrintAlike();
    ParseOfEncode(TwoZeros(), ListOf(1));
  }

  /** Whatever the parser accepts is exactly the encoding of the value it returns. */
  lemma EncodeOfParse<N>(f: NumberFormat<N>, bytes: Bytes)
    requires ParseCanonicalJson(f, bytes).Some?
    ensures EncodeCanonicalJson(f, ParseCanonicalJson(f, bytes).value) == Some(bytes)
  {
    SameBytesIsEquality(bytes, CanonicalBytes(f, ParseCanonicalJson(f, bytes).value));
  }

  /**
   * One spelling per value: two accepted byte strings with the same data are the same bytes, so no
   * other white space, member order, repeated key or escape is accepted.
   */
  lemma OneAcceptedSpelling<N>(f: NumberFormat<N>, a: Bytes, b: Bytes)
    requires ParseCanonicalJson(f, a).Some? && ParseCanonicalJson(f, b).Some?
    ensures SameData(ParseCanonicalJson(f, a).value, ParseCanonicalJson(f, b).value) <==> a == b
  {
    EncodeOfParse(f, a);
    EncodeOfParse(f, b);
  }

  /** Accepted text starts with its first character: no byte-order mark and no white space. */
  lemma NoLeadingMarkOrSpace<N(!new)>(f: NumberFormat<N>, bytes: Bytes)
    requires StableFormat(f) && ParseCanonicalJson(f, bytes).Some?
    ensures bytes != [] && 0 < bytes[0] < 0x80 && !IsSpace(bytes[0])
  {
    var v := ParseCanonicalJson(f, bytes).value;
    AcceptedIsValid(f, bytes);
    EncodeOfParse(f, bytes);
    SortedKeepsValid(f, v, 0);
    ValidIsPrintable(f, Sorted(v), 0);
    PrintStarts(f, Sorted(v));
  }

  /** The accepted byte strings are exactly the encodings of valid data. */
  lemma AcceptedExactlyEncodings<N(!new)>(f: NumberFormat<N>, bytes: Bytes)
    requires StableFormat(f)
    ensures ParseCanonicalJson(f, bytes).Some? <==>
      exists v :: KeysUnique(v) && EncodeCanonicalJson(f, v) == Some(bytes)
  {
    if ParseCanonicalJson(f, bytes).Some? {
      AcceptedIsValid(f, bytes);
      EncodeOfParse(f, bytes);
    }
    if v :| KeysUnique(v) && EncodeCanonicalJson(f, v) == Some(bytes) {
      ParseOfEncode(f, v);
    }
  }

  // ------------------------------------------------ order of members is lost

  lemma {:induction false} SortedMembersAppend<N>(a: seq<Member<N>>, b: seq<Member<N>>)
    ensures SortedMembers(a + b) == SortedMembers(a) + SortedMembers(b)
  {
    if a == [] {
      assert a + b == b;
    } else {
      assert (a + b)[1..] == a[1..] + b;
      SortedMembersAppend(a[1..], b);
    }
  }

  lemma MultisetOfSplit<T>(a: seq<T>, m: seq<T>, b: seq<T>)
    ensures multiset(a + (m + b)) == multiset(a + b) + multiset(m)
  {
  }

  lemma SplitAt<T>(xs: seq<T>, i: nat)
    requires i < |xs|
    ensures xs == xs[..i] + ([xs[i]] + xs[i + 1..])
    ensures multiset(xs[..i] + xs[i + 1..]) == multiset(xs) - multiset{xs[i]}
  {
    MultisetOfSplit(xs[..i], [xs[i]], xs[i + 1..]);
  }

  /** Sorting the members of a split list. */
  lemma SortedMembersSplit<N>(a: seq<Member<N>>, m: Member<N>, b: seq<Member<N>>)
    ensures multiset(SortedMembers(a + ([m] + b))) == multiset(SortedMembers(a + b)) + multiset(SortedMembers([m]))
  {
    SortedMembersAppend(a, [m] + b);
    SortedMembersAppend([m], b);
    SortedMembersAppend(a, b);
    MultisetOfSplit(SortedMembers(a), SortedMembers([m]), SortedMembers(b));
  }

  lemma {:induction false} PermutedMembersSortAlike<N>(a: seq<Member<N>>, b: seq<Member<N>>)
    requires multiset(a) == multiset(b)
    ensures multiset(SortedMembers(a)) == multiset(SortedMembers(b))
    decreases |a|
  {
    assert |multiset(a)| == |a| && |multiset(b)| == |b|;
    if a != [] {
      assert a[0] in multiset(b);
      var i :| 0 <= i < |b| && b[i] == a[0];
      SplitAt(b, i);
      SplitAt(a, 0);
      assert a[..0] + a[1..] == a[1..];
      PermutedMembersSortAlike(a[1..], b[..i] + b[i + 1..]);
      SortedMembersSplit(b[..i], b[i], b[i + 1..]);
      SortedMembersSplit(a[..0], a[0], a[1..]);
    }
  }

  lemma {:induction false} HasKeyIsMembership<N>(members: seq<Member<N>>, key: Text)
    ensures HasKey(members, key) <==> exists i :: 0 <= i < |members| && members[i].key == key
  {
    if members != [] {
      HasKeyIsMembership(members[1..], key);
      if HasKey(members[1..], key) {
        var i :| 0 <= i < |members[1..]| && members[1..][i].key == key;
        assert members[i + 1].key == key;
      }
      if i :| 1 <= i < |members| && members[i].key == key {
        assert members[1..][i - 1].key == key;
      }
    }
  }

  lemma {:induction false} DistinctKeysDetermine<N(!new)>(members: seq<Member<N>>)
    requires DistinctKeys(members)
    ensures KeysDetermine(multiset(members), KeyOf)
  {
    if members != [] {
      DistinctKeysDetermine(members[1..]);
      forall x, y | x in multiset(members) && y in multiset(members) && KeyOf(x) == KeyOf(y) ensures x == y {
        OtherKey(members, x);
        OtherKey(members, y);
      }
    }
  }

  lemma OtherKey<N>(members: seq<Member<N>>, m: Member<N>)
    requires members != [] && !HasKey(members[1..], members[0].key) && m in multiset(members)
    ensures m == members[0] || (m in multiset(members[1..]) && m.key != members[0].key)
  {
    HasKeyIsMembership(members[1..], members[0].key);
    assert members == [members[0]] + members[1..];
    if m != members[0] {
      assert m in members[1..];
      var i :| 0 <= i < |members[1..]| && members[1..][i] == m;
    }
  }

  /** The order of an object's members never reaches the canonical bytes. */
  lemma MemberOrderIsLost<N(!new)>(f: NumberFormat<N>, a: seq<Member<N>>, b: seq<Member<N>>)
    requires multiset(a) == multiset(b) && DistinctKeys(a)
    ensures SameData(Obj(a), Obj(b)) && CanonicalBytes(f, Obj(a)) == CanonicalBytes(f, Obj(b))
  {
    PermutedMembersSortAlike(a, b);
    SortedMembersKeepKeys(a);
    DistinctKeysDetermine(SortedMembers(a));
    SortByIgnoresOrder(SortedMembers(a), SortedMembers(b), KeyOf);
  }
}
