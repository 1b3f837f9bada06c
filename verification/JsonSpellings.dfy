/** Canonical text among all texts that read as the same data. */
module JsonSpellings {
  import opened Wrappers
  import opened ByteStrings
  import opened Lexicographic
  import opened Sequences
  import opened Utf8
  import opened Json
  import opened CanonicalJson

  // Section 3.2.2.2 of RFC 8785 fixes one escape for each unit. Said without its table: the printed string
  // is the shortest that a parser reads as the same units, with lower-case hexadecimal digits.

  predicate IsUpperHex(unit: int) {
    'A' as int <= unit <= 'F' as int
  }

  /** No escape of the string that starts at `s` has an upper-case digit. */
  predicate LowerCaseEscapes(s: Text)
    decreases |s|
  {
    if s == [] || s[0] == '"' as int then true
    else if s[0] == '\\' as int && |s| >= 6 && s[1] == 'u' as int then
      (forall i :: 2 <= i < 6 ==> !IsUpperHex(s[i])) && LowerCaseEscapes(s[6..])
    else if s[0] == '\\' as int && |s| >= 2 then LowerCaseEscapes(s[2..])
    else LowerCaseEscapes(s[1..])
  }

  // ------------------------------------------------------------------ bytes

  /** The UTF-8 bytes a unit of well-formed text takes; a surrogate takes half of its pair's. */
  function UnitWidth(unit: int): nat {
    if 0 <= unit < 0x80 then 1
    else if 0 <= unit < 0x800 || IsHighSurrogate(unit) || IsLowSurrogate(unit) then 2
    else 3
  }

  function Width(t: Text): nat {
    if t == [] then 0 else UnitWidth(t[0]) + Width(t[1..])
  }

  lemma {:induction false} WidthAppend(a: Text, b: Text)
    ensures Width(a + b) == Width(a) + Width(b)
  {
    if a == [] {
      assert a + b == b;
    } else {
      assert (a + b)[1..] == a[1..] + b;
      WidthAppend(a[1..], b);
    }
  }

  lemma WidthSplit(t: Text, n: nat)
    requires n <= |t|
    ensures Width(t) == Width(t[..n]) + Width(t[n..]) && Width(t[..n]) >= n
  {
    assert t == t[..n] + t[n..];
    WidthAppend(t[..n], t[n..]);
    WidthAtLeast(t[..n]);
  }

  lemma {:induction false} WidthAtLeast(t: Text)
    ensures Width(t) >= |t|
  {
    if t != [] { WidthAtLeast(t[1..]); }
  }

  lemma {:induction false} AsciiWidth(t: Text)
    requires IsAscii(t)
    ensures Width(t) == |t|
  {
    if t != [] { AsciiWidth(t[1..]); }
  }

  lemma {:induction false} EncodedWidth(t: Text)
    requires WellFormed(t)
    ensures |Encode(t)| == Width(t)
  {
    if t != [] {
      if IsHighSurrogate(t[0]) {
        PairRoundTrip(t[0], t[1]);
        EncodedWidth(t[2..]);
        assert t[1..][1..] == t[2..];
      } else {
        EncodedWidth(t[1..]);
      }
    }
  }

  lemma {:induction false} DecodedWidth(b: Bytes)
    requires DecodeBody(b).Some?
    ensures Width(DecodeBody(b).value) <= |b|
    decreases |b|
  {
    if b != [] {
      var (p, n) := FirstScalar(b).value;
      DecodedWidth(b[n..]);
      WidthAppend(ScalarUnits(p), DecodeBody(b[n..]).value);
      ScalarWidth(b);
    }
  }

  lemma PairWidth(a: int, b: int)
    ensures Width([a]) == UnitWidth(a) && Width([a, b]) == UnitWidth(a) + UnitWidth(b)
  {
    assert [a, b][1..] == [b] && [a][1..] == [] && [b][1..] == [];
  }

  lemma ScalarWidth(b: Bytes)
    requires b != [] && FirstScalar(b).Some?
    ensures var (p, n) := FirstScalar(b).value; Width(ScalarUnits(p)) <= n
  {
    var (p, n) := FirstScalar(b).value;
    if p < 0x10000 {
      PairWidth(p, p);
      assert n == 1 ==> p < 0x80;
      assert n == 2 ==> p < 0x800;
    } else {
      assert n == 4;
      var (high, low) := (0xD800 + (p - 0x10000) / 0x400, 0xDC00 + (p - 0x10000) % 0x400);
      PairWidth(high, low);
      assert IsHighSurrogate(high) && IsLowSurrogate(low);
    }
  }

  // ---------------------------------------------------------------- strings

  /** How `s` spells its first unit. */
  lemma FirstUnit(s: Text) returns (unit: int, n: nat)
    requires ParseString(s).Parsed? && s[0] != '"' as int
    ensures 0 < n < |s| && ParseString(s[n..]).Parsed?
    ensures ParseString(s) == Parsed([unit] + ParseString(s[n..]).value, ParseString(s[n..]).rest)
    ensures Width(EscapeUnit(unit)) <= Width(s[..n])
    ensures LowerCaseEscapes(s) ==> LowerCaseEscapes(s[n..])
    ensures Width(s[..n]) == Width(EscapeUnit(unit)) && LowerCaseEscapes(s) ==> s[..n] == EscapeUnit(unit)
  {
    if s[0] == '\\' as int {
      var escape := ParseEscape(s[1..]);
      unit := escape.value;
      n := |s| - |escape.rest|;
      assert s[1..][1..] == s[2..];
      WidthAtLeast(s[..n]);
      EscapeWidth(unit);
      if s[1] == 'u' as int && n == 6 {
        assert s[1..][5..] == s[6..];
        LongEscape(s, unit);
      } else {
        assert s[n..] == s[2..];
        assert s[..2] == [s[0], s[1]];
        ShortEscape(s, unit);
      }
    } else {
      unit, n := s[0], 1;
      assert s[..1] == [s[0]];
    }
  }

  lemma EscapeWidth(unit: int)
    ensures var e := EscapeUnit(unit); |e| > 1 ==> Width(e) == |e|
  {
    if |EscapeUnit(unit)| > 1 { AsciiWidth(EscapeUnit(unit)); }
  }

  lemma ShortEscape(s: Text, unit: int)
    requires |s| >= 2 && s[0] == '\\' as int && ParseEscape(s[1..]) == Parsed(unit, s[2..])
    ensures Width(EscapeUnit(unit)) <= 2
    ensures Width(EscapeUnit(unit)) == 2 ==> s[..2] == EscapeUnit(unit)
  {
    assert s[1..][0] == s[1] && s[1..][1..] == s[2..];
    assert s[..2] == [s[0], s[1]];
    EscapeWidth(unit);
  }

  lemma LongEscape(s: Text, unit: int)
    requires |s| >= 6 && s[0] == '\\' as int && s[1] == 'u' as int && ParseEscape(s[1..]) == Parsed(unit, s[6..])
    ensures Width(EscapeUnit(unit)) <= 6 && Width(s[..6]) >= 6
    ensures Width(EscapeUnit(unit)) == Width(s[..6]) && LowerCaseEscapes(s) ==> s[..6] == EscapeUnit(unit)
  {
    WidthAtLeast(s[..6]);
    EscapeWidth(unit);
    var (a, b, c, d) := (HexValue(s[2]), HexValue(s[3]), HexValue(s[4]), HexValue(s[5]));
    assert s[1..][1] == s[2] && s[1..][2] == s[3] && s[1..][3] == s[4] && s[1..][4] == s[5];
    assert unit == ((a * 16 + b) * 16 + c) * 16 + d;
    if |EscapeUnit(unit)| == 6 && LowerCaseEscapes(s) {
      assert 0 <= unit < 32;
      assert a == 0 && b == 0 && c == unit / 16 && d == unit % 16;
      assert s[2] == '0' as int && s[3] == '0' as int && s[4] == HexDigit(c) && s[5] == HexDigit(d);
      assert s[..6] == [s[0], s[1], s[2], s[3], s[4], s[5]];
    }
  }

  /** No spelling of a string takes fewer bytes, and only one without upper-case digits takes as few. */
  lemma {:induction false} PrintedStringIsShortest(s: Text)
    requires ParseString(s).Parsed?
    ensures var (t, rest) := (ParseString(s).value, ParseString(s).rest);
      && Width(Escape(t)) + 1 + Width(rest) <= Width(s)
      && (Width(Escape(t)) + 1 + Width(rest) == Width(s) && LowerCaseEscapes(s) ==>
            s == Escape(t) + (['"' as int] + rest))
    decreases |s|
  {
    if s[0] == '"' as int {
      assert s == ['"' as int] + s[1..];
    } else {
      var unit, n := FirstUnit(s);
      PrintedStringIsShortest(s[n..]);
      WidthSplit(s, n);
      var (t, rest) := (ParseString(s[n..]).value, ParseString(s[n..]).rest);
      assert ([unit] + t)[1..] == t;
      WidthAppend(EscapeUnit(unit), Escape(t));
      if s[n..] == Escape(t) + (['"' as int] + rest) && s[..n] == EscapeUnit(unit) {
        assert s == s[..n] + s[n..];
        Regroup(EscapeUnit(unit), Escape(t), ['"' as int] + rest);
      }
    }
  }

  lemma {:induction false} PrintedIsLowerCase(t: Text, rest: Text)
    requires IsUnits(t)
    ensures LowerCaseEscapes(Escape(t) + (['"' as int] + rest))
  {
    var close := ['"' as int] + rest;
    if t == [] {
      assert Escape(t) + close == close;
    } else {
      PrintedIsLowerCase(t[1..], rest);
      Regroup(EscapeUnit(t[0]), Escape(t[1..]), close);
      EscapeIsLowerCase(t[0], Escape(t[1..]) + close);
    }
  }

  lemma EscapeIsLowerCase(unit: int, tail: Text)
    requires 0 <= unit < 0x10000 && LowerCaseEscapes(tail)
    ensures LowerCaseEscapes(EscapeUnit(unit) + tail)
  {
    var s := EscapeUnit(unit) + tail;
    EscapeSizes(unit);
    assert s[|EscapeUnit(unit)|..] == tail;
    assert forall i :: 0 <= i < |EscapeUnit(unit)| ==> s[i] == EscapeUnit(unit)[i];
  }

  /** A solidus, and every unit from 32 on but the quote and the backslash, stands for itself. */
  lemma {:induction false} PlainTextStandsForItself(t: Text)
    requires forall i :: 0 <= i < |t| ==> t[i] >= 32 && t[i] != '"' as int && t[i] != '\\' as int
    ensures Escape(t) == t
  {
    if t != [] {
      PlainTextStandsForItself(t[1..]);
      assert t == [t[0]] + t[1..];
    }
  }

  // ----------------------------------------------------------------- values

  /** The format that would write every number as one digit, the least a number can take. */
  function Narrow<N>(f: NumberFormat<N>): NumberFormat<N> {
    f.(write := (n: N) => ['0' as int])
  }

  /** The bytes of the members, a comma or brace after each. */
  function MembersTake<N>(f: NumberFormat<N>, members: seq<Member<N>>): nat {
    if members == [] then 0 else Width(PrintMember(f, members[0])) + 1 + MembersTake(f, members[1..])
  }

  lemma {:induction false} PrintedMembersTake<N>(f: NumberFormat<N>, members: seq<Member<N>>)
    requires members != []
    ensures Width(PrintMembers(f, members)) + 1 == MembersTake(f, members)
  {
    if |members| > 1 {
      PrintedMembersTake(f, members[1..]);
      var rest := PrintMembers(f, members[1..]);
      WidthAppend(PrintMember(f, members[0]), [',' as int] + rest);
      assert ([',' as int] + rest)[1..] == rest;
    } else {
      assert PrintMember(f, members[0]) + [] == PrintMember(f, members[0]);
      assert members[1..] == [];
    }
  }

  lemma MemberTakes<N>(f: NumberFormat<N>, m: Member<N>)
    ensures Width(PrintMember(f, m)) == Width(Quote(m.key)) + 1 + Width(Print(f, m.value))
  {
    WidthAppend(Quote(m.key) + [':' as int], Print(f, m.value));
    WidthAppend(Quote(m.key), [':' as int]);
    PairWidth(':' as int, 0);
  }

  lemma {:induction false} AssignedTake<N>(f: NumberFormat<N>, members: seq<Member<N>>, m: Member<N>)
    ensures MembersTake(f, Assign(members, m)) <= MembersTake(f, members) + Width(PrintMember(f, m)) + 1
  {
    if members != [] && members[0].key != m.key {
      AssignedTake(f, members[1..], m);
      assert Assign(members, m)[1..] == Assign(members[1..], m);
    } else if members != [] {
      assert Assign(members, m)[1..] == members[1..];
    }
  }

  lemma {:induction false} MembersTakeSnoc<N>(f: NumberFormat<N>, members: seq<Member<N>>, m: Member<N>)
    ensures MembersTake(f, members + [m]) == MembersTake(f, members) + Width(PrintMember(f, m)) + 1
  {
    if members == [] {
      assert members + [m] == [m];
    } else {
      assert (members + [m])[1..] == members[1..] + [m];
      MembersTakeSnoc(f, members[1..], m);
    }
  }

  /** Repeated keys only take more. */
  lemma {:induction false} EntriesTake<N>(f: NumberFormat<N>, entries: seq<Member<N>>)
    ensures MembersTake(f, FromEntries(entries)) <= MembersTake(f, entries)
    ensures entries != [] ==> FromEntries(entries) != []
  {
    if entries != [] {
      var before, last := entries[..|entries| - 1], entries[|entries| - 1];
      EntriesTake(f, before);
      AssignedTake(f, FromEntries(before), last);
      MembersTakeSnoc(f, before, last);
      assert before + [last] == entries;
    }
  }

  lemma {:induction false} SkippedSpace(s: Text)
    ensures Width(SkipSpace(s)) <= Width(s)
  {
    if s != [] && IsSpace(s[0]) { SkippedSpace(s[1..]); }
  }

  lemma BracketedWidth(open: int, body: Text, close: int)
    requires 0 <= open < 0x80 && 0 <= close < 0x80
    ensures Width([open] + body + [close]) == Width(body) + 2
  {
    WidthAppend([open] + body, [close]);
    WidthAppend([open], body);
    PairWidth(open, close);
    PairWidth(close, open);
  }

  /** Reading a value uses up at least the bytes it is printed in, numbers counted as one. */
  lemma {:induction false} ValueTakes<N>(f: NumberFormat<N>, text: Text)
    requires ParseValue(f, text).Parsed?
    ensures Width(Print(Narrow(f), ParseValue(f, text).value)) + Width(ParseValue(f, text).rest) <= Width(text)
    decreases |text|, 2
  {
    var s := SkipSpace(text);
    SkippedSpace(text);
    if s[0] == '"' as int {
      StringTakes(s);
    } else if s[0] == '[' as int {
      ArrayTakes(f, text, s);
    } else if s[0] == '{' as int {
      ObjectTakes(f, text, s);
    } else {
      PlainTakes(f, text, s);
    }
  }

  lemma StringTakes(s: Text)
    requires s != [] && s[0] == '"' as int && ParseString(s[1..]).Parsed?
    ensures Width(Quote(ParseString(s[1..]).value)) + Width(ParseString(s[1..]).rest) <= Width(s)
  {
    PrintedStringIsShortest(s[1..]);
    BracketedWidth('"' as int, Escape(ParseString(s[1..]).value), '"' as int);
  }

  lemma LiteralTakes(s: Text, literal: Text)
    requires StartsWith(s, literal)
    ensures Width(literal) + Width(s[|literal|..]) == Width(s)
  {
    WidthSplit(s, |literal|);
  }

  lemma PlainTakes<N>(f: NumberFormat<N>, text: Text, s: Text)
    requires s == SkipSpace(text) && Width(s) <= Width(text) && ParseValue(f, text).Parsed?
    requires s[0] != '"' as int && s[0] != '[' as int && s[0] != '{' as int
    ensures Width(Print(Narrow(f), ParseValue(f, text).value)) + Width(ParseValue(f, text).rest) <= Width(text)
  {
    if StartsWith(s, Ascii("null")) {
      LiteralTakes(s, Ascii("null"));
    } else if StartsWith(s, Ascii("true")) {
      LiteralTakes(s, Ascii("true"));
    } else if StartsWith(s, Ascii("false")) {
      LiteralTakes(s, Ascii("false"));
    } else {
      WidthSplit(s, NumberRun(s));
      PairWidth('0' as int, 0);
    }
  }

  lemma ArrayTakes<N>(f: NumberFormat<N>, text: Text, s: Text)
    requires s == SkipSpace(text) && Width(s) <= Width(text) && ParseValue(f, text).Parsed? && s[0] == '[' as int
    ensures Width(Print(Narrow(f), ParseValue(f, text).value)) + Width(ParseValue(f, text).rest) <= Width(text)
    decreases |text|, 1
  {
    var inner := SkipSpace(s[1..]);
    SkippedSpace(s[1..]);
    if inner != [] && inner[0] == ']' as int {
      BracketedWidth('[' as int, [], ']' as int);
    } else {
      ItemsTake(f, s[1..]);
      BracketedWidth('[' as int, PrintItems(Narrow(f), ParseItems(f, s[1..]).value), ']' as int);
    }
  }

  lemma ObjectWidth<N>(f: NumberFormat<N>, entries: seq<Member<N>>)
    requires entries != []
    ensures Width(Print(f, Obj(FromEntries(entries)))) <= 1 + MembersTake(f, entries)
  {
    EntriesTake(f, entries);
    PrintedMembersTake(f, FromEntries(entries));
    BracketedWidth('{' as int, PrintMembers(f, FromEntries(entries)), '}' as int);
  }

  lemma ObjectTakes<N>(f: NumberFormat<N>, text: Text, s: Text)
    requires s == SkipSpace(text) && Width(s) <= Width(text) && ParseValue(f, text).Parsed? && s[0] == '{' as int
    ensures Width(Print(Narrow(f), ParseValue(f, text).value)) + Width(ParseValue(f, text).rest) <= Width(text)
    decreases |text|, 1
  {
    var inner := SkipSpace(s[1..]);
    SkippedSpace(s[1..]);
    if inner != [] && inner[0] == '}' as int {
      BracketedWidth('{' as int, [], '}' as int);
    } else {
      MembersTakeText(f, s[1..]);
      ObjectWidth(Narrow(f), ParseEntries(f, s[1..]).value);
    }
  }

  lemma {:induction false} ItemsTake<N>(f: NumberFormat<N>, text: Text)
    requires ParseItems(f, text).Parsed?
    ensures Width(PrintItems(Narrow(f), ParseItems(f, text).value)) + 1 + Width(ParseItems(f, text).rest) <= Width(text)
    decreases |text|, 3
  {
    ValueTakes(f, text);
    var v, after := ParseValue(f, text).value, ParseValue(f, text).rest;
    var s := SkipSpace(after);
    SkippedSpace(after);
    if s[0] == ']' as int {
      assert Print(Narrow(f), v) + [] == Print(Narrow(f), v);
    } else {
      ItemsTake(f, s[1..]);
      var items := ParseItems(f, s[1..]).value;
      assert ([v] + items)[1..] == items;
      WidthAppend(Print(Narrow(f), v), [',' as int] + PrintItems(Narrow(f), items));
      WidthAppend([',' as int], PrintItems(Narrow(f), items));
      PairWidth(',' as int, 0);
    }
  }

  lemma {:induction false} EntryTakes<N>(f: NumberFormat<N>, text: Text)
    requires ParseEntry(f, text).Parsed?
    ensures Width(PrintMember(Narrow(f), ParseEntry(f, text).value)) + Width(ParseEntry(f, text).rest) <= Width(text)
    decreases |text|, 3
  {
    var s := SkipSpace(text);
    SkippedSpace(text);
    StringTakes(s);
    var colon := SkipSpace(ParseString(s[1..]).rest);
    SkippedSpace(ParseString(s[1..]).rest);
    ValueTakes(f, colon[1..]);
    MemberTakes(Narrow(f), ParseEntry(f, text).value);
  }

  lemma {:induction false} MembersTakeText<N>(f: NumberFormat<N>, text: Text)
    requires ParseEntries(f, text).Parsed?
    ensures MembersTake(Narrow(f), ParseEntries(f, text).value) + Width(ParseEntries(f, text).rest) <= Width(text)
    ensures ParseEntries(f, text).value != []
    decreases |text|, 4
  {
    EntryTakes(f, text);
    var entry, after := ParseEntry(f, text).value, ParseEntry(f, text).rest;
    var s := SkipSpace(after);
    SkippedSpace(after);
    if s[0] == '}' as int {
      assert [entry][1..] == [];
    } else {
      MembersTakeText(f, s[1..]);
      var entries := ParseEntries(f, s[1..]).value;
      assert ([entry] + entries)[1..] == entries;
    }
  }

  // ------------------------------------------------------------ main results

  predicate NumberFree<N>(v: Json<N>) {
    match v
    case Num(_) => false
    case Arr(items) => forall i :: 0 <= i < |items| ==> NumberFree(items[i])
    case Obj(members) => forall i :: 0 <= i < |members| ==> NumberFree(members[i].value)
    case _ => true
  }

  lemma {:induction false} NumberFreePrints<N>(f: NumberFormat<N>, v: Json<N>)
    requires NumberFree(v)
    ensures Print(f, v) == Print(Narrow(f), v)
    decreases v, 0
  {
    match v {
      case Arr(items) => NumberFreeItemsPrint(f, items);
      case Obj(members) => NumberFreeMembersPrint(f, members);
      case _ =>
    }
  }

  lemma {:induction false} NumberFreeItemsPrint<N>(f: NumberFormat<N>, items: seq<Json<N>>)
    requires forall i :: 0 <= i < |items| ==> NumberFree(items[i])
    ensures PrintItems(f, items) == PrintItems(Narrow(f), items)
    decreases items, 1
  {
    if items != [] {
      NumberFreePrints(f, items[0]);
      NumberFreeItemsPrint(f, items[1..]);
    }
  }

  lemma {:induction false} NumberFreeMembersPrint<N>(f: NumberFormat<N>, members: seq<Member<N>>)
    requires forall i :: 0 <= i < |members| ==> NumberFree(members[i].value)
    ensures PrintMembers(f, members) == PrintMembers(Narrow(f), members)
    decreases members, 1
  {
    if members != [] {
      NumberFreePrints(f, members[0].value);
      NumberFreeMembersPrint(f, members[1..]);
    }
  }

  lemma {:induction false} InsertedTake<N>(f: NumberFormat<N>, m: Member<N>, members: seq<Member<N>>)
    ensures MembersTake(f, InsertBy(m, members, KeyOf)) == MembersTake(f, members) + Width(PrintMember(f, m)) + 1
  {
    var inserted := InsertBy(m, members, KeyOf);
    if members == [] || Less(KeyOf(m), KeyOf(members[0])) {
      assert inserted[1..] == members;
    } else {
      InsertedTake(f, m, members[1..]);
      assert inserted[1..] == InsertBy(m, members[1..], KeyOf);
    }
  }

  lemma {:induction false} OrderedTake<N>(f: NumberFormat<N>, members: seq<Member<N>>)
    ensures MembersTake(f, SortBy(members, KeyOf)) == MembersTake(f, members)
  {
    if members != [] {
      var before, last := members[..|members| - 1], members[|members| - 1];
      OrderedTake(f, before);
      InsertedTake(f, last, SortBy(before, KeyOf));
      MembersTakeSnoc(f, before, last);
      assert before + [last] == members;
    }
  }

  /** Sorting members changes no length. */
  lemma {:induction false} SortedTakes<N>(f: NumberFormat<N>, v: Json<N>)
    ensures Width(Print(f, Sorted(v))) == Width(Print(f, v))
    decreases v, 0
  {
    match v {
      case Arr(items) =>
        SortedItemsTake(f, items);
        BracketedWidth('[' as int, PrintItems(f, items), ']' as int);
        BracketedWidth('[' as int, PrintItems(f, SortedItems(items)), ']' as int);
      case Obj(members) =>
        SortedMembersTake(f, members);
        SortedObjectTakes(f, members);
      case _ =>
    }
  }

  lemma SortedObjectTakes<N>(f: NumberFormat<N>, members: seq<Member<N>>)
    requires MembersTake(f, SortedMembers(members)) == MembersTake(f, members)
    ensures Width(Print(f, Sorted(Obj(members)))) == Width(Print(f, Obj(members)))
  {
    var sorted := SortBy(SortedMembers(members), KeyOf);
    OrderedTake(f, SortedMembers(members));
    SortByFacts(SortedMembers(members), KeyOf);
    if members != [] {
      PrintedMembersTake(f, members);
      PrintedMembersTake(f, sorted);
    }
    BracketedWidth('{' as int, PrintMembers(f, members), '}' as int);
    BracketedWidth('{' as int, PrintMembers(f, sorted), '}' as int);
  }

  lemma {:induction false} SortedItemsTake<N>(f: NumberFormat<N>, items: seq<Json<N>>)
    ensures Width(PrintItems(f, SortedItems(items))) == Width(PrintItems(f, items))
    decreases items, 1
  {
    if items != [] {
      SortedTakes(f, items[0]);
      SortedItemsTake(f, items[1..]);
      ItemsWidthStep(f, items);
      ItemsWidthStep(f, SortedItems(items));
      assert SortedItems(items)[1..] == SortedItems(items[1..]);
    }
  }

  lemma ItemsWidthStep<N>(f: NumberFormat<N>, items: seq<Json<N>>)
    requires items != []
    ensures Width(PrintItems(f, items)) ==
      Width(Print(f, items[0])) + if |items| == 1 then 0 else 1 + Width(PrintItems(f, items[1..]))
  {
    if |items| == 1 {
      assert Print(f, items[0]) + [] == Print(f, items[0]);
    } else {
      WidthAppend(Print(f, items[0]), [',' as int] + PrintItems(f, items[1..]));
      WidthAppend([',' as int], PrintItems(f, items[1..]));
      PairWidth(',' as int, 0);
    }
  }

  lemma {:induction false} SortedMembersTake<N>(f: NumberFormat<N>, members: seq<Member<N>>)
    ensures MembersTake(f, SortedMembers(members)) == MembersTake(f, members)
    decreases members, 1
  {
    if members != [] {
      SortedTakes(f, members[0].value);
      SortedMembersTake(f, members[1..]);
      MemberTakes(f, members[0]);
      MemberTakes(f, SortedMembers(members)[0]);
      assert SortedMembers(members)[1..] == SortedMembers(members[1..]);
    }
  }

  lemma ReadTakes<N>(f: NumberFormat<N>, bytes: Bytes, text: Text, v: Json<N>)
    requires Decode(bytes) == Some(text) && Parse(f, text) == Some(v)
    ensures Width(Print(Narrow(f), v)) <= Width(text) <= |bytes|
  {
    ValueTakes(f, text);
    DecodedWidth(if BYTE_ORDER_MARK <= bytes then bytes[3..] else bytes);
  }

  /**
   * The canonical encoding is the shortest: whatever bytes `JSON.parse` reads as the same data, in any
   * spelling, spacing and order, are at least as many, where no number is involved.
   */
  lemma CanonicalIsShortest<N(!new)>(f: NumberFormat<N>, v: Json<N>, bytes: Bytes, text: Text, read: Json<N>)
    requires StableFormat(f) && Valid(f, v) && KeysUnique(v) && NumberFree(v)
    requires Decode(bytes) == Some(text) && Parse(f, text) == Some(read) && SameData(read, v)
    ensures EncodeCanonicalJson(f, v).Some? && |EncodeCanonicalJson(f, v).value| <= |bytes|
  {
    ReadTakes(f, bytes, text, read);
    SortedTakes(Narrow(f), read);
    SortedTakes(Narrow(f), v);
    SortedTakes(f, v);
    NumberFreePrints(f, v);
    SortedKeepsValid(f, v, 0);
    ValidIsPrintable(f, Sorted(v), 0);
    PrintIsWellFormed(f, Sorted(v), 0);
    EncodedWidth(Print(f, Sorted(v)));
  }

  lemma {:induction false} SkippedNothing(s: Text)
    requires Width(SkipSpace(s)) == Width(s)
    ensures SkipSpace(s) == s
  {
    if s != [] && IsSpace(s[0]) { SkippedSpace(s[1..]); }
  }

  lemma StringText<N>(f: NumberFormat<N>, t: Text, text: Text)
    requires Parse(f, text) == Some(Str(t))
    ensures var s := SkipSpace(text);
      s != [] && s[0] == '"' as int && ParseString(s[1..]).Parsed? && ParseString(s[1..]).value == t
  {
  }

  lemma ShortestStringText<N>(f: NumberFormat<N>, t: Text, text: Text)
    requires Parse(f, text) == Some(Str(t))
    ensures Width(Quote(t)) <= Width(text)
    ensures Width(text) == Width(Quote(t)) && LowerCaseEscapes(text[1..]) ==> text == Quote(t)
  {
    var s := SkipSpace(text);
    StringText(f, t, text);
    SkippedSpace(text);
    PrintedStringIsShortest(s[1..]);
    BracketedWidth('"' as int, Escape(t), '"' as int);
    if Width(text) == Width(Quote(t)) && LowerCaseEscapes(text[1..]) {
      SkippedNothing(text);
      WidthAtLeast(ParseString(s[1..]).rest);
      assert ['"' as int] + [] == ['"' as int];
      assert text == ['"' as int] + text[1..];
      Regroup(['"' as int], Escape(t), ['"' as int]);
    }
  }

  lemma EncodedString<N(!new)>(f: NumberFormat<N>, t: Text)
    requires StableFormat(f) && WellFormed(t)
    ensures EncodeCanonicalJson(f, Str(t)) == Some(Encode(Quote(t))) && |Encode(Quote(t))| == Width(Quote(t))
  {
    PrintIsWellFormed(f, Str(t), 0);
    EncodedWidth(Quote(t));
  }

  lemma QuoteIsLowerCase(t: Text)
    requires IsUnits(t)
    ensures LowerCaseEscapes(Quote(t)[1..])
  {
    PrintedIsLowerCase(t, []);
    assert Quote(t)[1..] == Escape(t) + (['"' as int] + []);
  }

  /**
   * Of the spellings of a string, the canonical one is the one that is shortest and has no upper-case
   * hexadecimal digit.
   */
  lemma CanonicalStringIff<N(!new)>(f: NumberFormat<N>, t: Text, text: Text)
    requires StableFormat(f) && WellFormed(t) && Parse(f, text) == Some(Str(t))
    ensures EncodeCanonicalJson(f, Str(t)).Some? && |EncodeCanonicalJson(f, Str(t)).value| <= Width(text)
    ensures text == Quote(t) <==>
      Width(text) == |EncodeCanonicalJson(f, Str(t)).value| && LowerCaseEscapes(text[1..])
    ensures EncodeCanonicalJson(f, Str(t)).value == Encode(Quote(t))
  {
    EncodedString(f, t);
    WellFormedIsUnits(t);
    ShortestStringText(f, t, text);
    QuoteIsLowerCase(t);
  }
}
