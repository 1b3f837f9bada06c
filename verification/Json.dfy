/**
 * JSON values and text: the printer, and `JSON.parse` with its whole grammar (white space, every
 * escape, repeated keys), so that what the canonical check rejects is there to be rejected.
 * Numbers are opaque; `NumberFormat` is how the runtime reads and writes them.
 */
module Json {
  import opened Wrappers
  import opened Sequences
  import opened Utf8

  datatype Json<N> =
    | Null
    | Bool(value: bool)
    | Num(number: N)
    | Str(text: Text)
    | Arr(items: seq<Json<N>>)
    | Obj(members: seq<Member<N>>)

  datatype Member<N> = Member(key: Text, value: Json<N>)

  /** `negativeZero` says of a number whether it is the one that is written like another, zero. */
  datatype NumberFormat<!N> =
    NumberFormat(read: Text -> N, write: N -> Text, finite: N -> bool, negativeZero: N -> bool)

  /** A string literal as code units. */
  function Ascii(s: string): (t: Text)
    ensures |t| == |s| && forall i :: 0 <= i < |s| ==> t[i] == s[i] as int
  {
    seq(|s|, i requires 0 <= i < |s| => s[i] as int)
  }

  // --------------------------------------------------------------- printing

  function HexDigit(n: int): int
    requires 0 <= n < 16
  {
    if n < 10 then '0' as int + n else 'a' as int + n - 10
  }

  function EscapeUnit(unit: int): Text {
    if unit == '"' as int then ['\\' as int, '"' as int]
    else if unit == '\\' as int then ['\\' as int, '\\' as int]
    else if unit == 8 then ['\\' as int, 'b' as int]
    else if unit == 9 then ['\\' as int, 't' as int]
    else if unit == 10 then ['\\' as int, 'n' as int]
    else if unit == 12 then ['\\' as int, 'f' as int]
    else if unit == 13 then ['\\' as int, 'r' as int]
    else if 0 <= unit < 32 then
      ['\\' as int, 'u' as int, '0' as int, '0' as int, HexDigit(unit / 16), HexDigit(unit % 16)]
    else [unit]
  }

  function Escape(t: Text): Text {
    if t == [] then [] else EscapeUnit(t[0]) + Escape(t[1..])
  }

  function Quote(t: Text): Text {
    ['"' as int] + Escape(t) + ['"' as int]
  }

  /** `JSON.stringify`: members in the order given. */
  function Print<N>(f: NumberFormat<N>, v: Json<N>): Text
    decreases v, 0
  {
    match v
    case Null => Ascii("null")
    case Bool(b) => if b then Ascii("true") else Ascii("false")
    case Num(n) => f.write(n)
    case Str(t) => Quote(t)
    case Arr(items) => ['[' as int] + PrintItems(f, items) + [']' as int]
    case Obj(members) => ['{' as int] + PrintMembers(f, members) + ['}' as int]
  }

  function PrintItems<N>(f: NumberFormat<N>, items: seq<Json<N>>): Text
    decreases items, 1
  {
    if items == [] then []
    else Print(f, items[0]) + (if |items| == 1 then [] else [',' as int] + PrintItems(f, items[1..]))
  }

  function PrintMember<N>(f: NumberFormat<N>, m: Member<N>): Text
    decreases m, 1
  {
    Quote(m.key) + [':' as int] + Print(f, m.value)
  }

  function PrintMembers<N>(f: NumberFormat<N>, members: seq<Member<N>>): Text
    decreases members, 2
  {
    if members == [] then []
    else PrintMember(f, members[0]) + (if |members| == 1 then [] else [',' as int] + PrintMembers(f, members[1..]))
  }

  // ---------------------------------------------------------------- parsing

  datatype Parsed<T> = Fails | Parsed(value: T, rest: Text)

  predicate IsSpace(unit: int) {
    unit == 0x20 || unit == 0x09 || unit == 0x0A || unit == 0x0D
  }

  function SkipSpace(s: Text): (rest: Text)
    ensures |rest| <= |s| && (rest != [] ==> !IsSpace(rest[0]))
    ensures s != [] && !IsSpace(s[0]) ==> rest == s
  {
    if s != [] && IsSpace(s[0]) then SkipSpace(s[1..]) else s
  }

  predicate IsDigit(unit: int) { '0' as int <= unit <= '9' as int }

  function HexValue(unit: int): int {
    if IsDigit(unit) then unit - '0' as int
    else if 'a' as int <= unit <= 'f' as int then unit - 'a' as int + 10
    else if 'A' as int <= unit <= 'F' as int then unit - 'A' as int + 10
    else -1
  }

  /** What follows a backslash. */
  function ParseEscape(s: Text): (r: Parsed<int>)
    ensures r.Parsed? ==> |r.rest| < |s|
  {
    if s == [] then Fails
    else if s[0] == '"' as int || s[0] == '\\' as int || s[0] == '/' as int then Parsed(s[0], s[1..])
    else if s[0] == 'b' as int then Parsed(8, s[1..])
    else if s[0] == 't' as int then Parsed(9, s[1..])
    else if s[0] == 'n' as int then Parsed(10, s[1..])
    else if s[0] == 'f' as int then Parsed(12, s[1..])
    else if s[0] == 'r' as int then Parsed(13, s[1..])
    else if s[0] == 'u' as int && |s| >= 5
      && HexValue(s[1]) >= 0 && HexValue(s[2]) >= 0 && HexValue(s[3]) >= 0 && HexValue(s[4]) >= 0 then
      Parsed(((HexValue(s[1]) * 16 + HexValue(s[2])) * 16 + HexValue(s[3])) * 16 + HexValue(s[4]), s[5..])
    else Fails
  }

  /** The rest of a string, from after its opening quote. */
  function ParseString(s: Text): (r: Parsed<Text>)
    ensures r.Parsed? ==> |r.rest| < |s|
    decreases |s|
  {
    if s == [] || s[0] < 32 then Fails
    else if s[0] == '"' as int then Parsed([], s[1..])
    else if s[0] == '\\' as int then
      match ParseEscape(s[1..])
      case Fails => Fails
      case Parsed(unit, after) =>
        match ParseString(after)
        case Fails => Fails
        case Parsed(t, rest) => Parsed([unit] + t, rest)
    else
      match ParseString(s[1..])
      case Fails => Fails
      case Parsed(t, rest) => Parsed([s[0]] + t, rest)
  }

  predicate IsNumberUnit(unit: int) {
    IsDigit(unit) || unit == '-' as int || unit == '+' as int || unit == '.' as int
    || unit == 'e' as int || unit == 'E' as int
  }

  /** The longest prefix of units that occur in numbers: a number can only be followed by others. */
  function NumberRun(s: Text): (n: nat)
    ensures n <= |s|
  {
    if s == [] || !IsNumberUnit(s[0]) then 0 else 1 + NumberRun(s[1..])
  }

  function SkipDigits(s: Text): (rest: Text)
    ensures |rest| <= |s|
  {
    if s != [] && IsDigit(s[0]) then SkipDigits(s[1..]) else s
  }

  /** `[eE][+-]?digits`, or nothing. */
  predicate IsExponent(s: Text) {
    s == [] ||
    ((s[0] == 'e' as int || s[0] == 'E' as int) &&
      var digits := if |s| > 1 && (s[1] == '+' as int || s[1] == '-' as int) then s[2..] else s[1..];
      digits != [] && SkipDigits(digits) == [])
  }

  /** The number grammar of section 6 of RFC 8259. */
  predicate IsNumberToken(s: Text) {
    var unsigned := if s != [] && s[0] == '-' as int then s[1..] else s;
    unsigned != [] && IsDigit(unsigned[0]) &&
    var fraction := if unsigned[0] == '0' as int then unsigned[1..] else SkipDigits(unsigned);
    if fraction != [] && fraction[0] == '.' as int then
      |fraction| > 1 && IsDigit(fraction[1]) && IsExponent(SkipDigits(fraction[1..]))
    else
      IsExponent(fraction)
  }

  predicate StartsWith(s: Text, literal: Text) {
    |literal| <= |s| && s[..|literal|] == literal
  }

  /** Assigns a member as an object does: a repeated key keeps its place and takes the new value. */
  function Assign<N>(members: seq<Member<N>>, m: Member<N>): seq<Member<N>> {
    if members == [] then [m]
    else if members[0].key == m.key then [m] + members[1..]
    else [members[0]] + Assign(members[1..], m)
  }

  function HasKey<N>(members: seq<Member<N>>, key: Text): bool {
    members != [] && (members[0].key == key || HasKey(members[1..], key))
  }

  /** The object that assigning `entries` in order builds. */
  function FromEntries<N>(entries: seq<Member<N>>): seq<Member<N>> {
    if entries == [] then []
    else Assign(FromEntries(entries[..|entries| - 1]), entries[|entries| - 1])
  }

  function ParseValue<N>(f: NumberFormat<N>, text: Text): (r: Parsed<Json<N>>)
    ensures r.Parsed? ==> |r.rest| < |text|
    decreases |text|, 0
  {
    var s := SkipSpace(text);
    if s == [] then Fails
    else if s[0] == '"' as int then (
      match ParseString(s[1..])
      case Fails => Fails
      case Parsed(t, rest) => Parsed(Str(t), rest))
    else if s[0] == '[' as int then (
      var inner := SkipSpace(s[1..]);
      if inner != [] && inner[0] == ']' as int then Parsed(Arr([]), inner[1..])
      else
        match ParseItems(f, s[1..])
        case Fails => Fails
        case Parsed(items, rest) => Parsed(Arr(items), rest))
    else if s[0] == '{' as int then (
      var inner := SkipSpace(s[1..]);
      if inner != [] && inner[0] == '}' as int then Parsed(Obj([]), inner[1..])
      else
        match ParseEntries(f, s[1..])
        case Fails => Fails
        case Parsed(entries, rest) => Parsed(Obj(FromEntries(entries)), rest))
    else if StartsWith(s, Ascii("null")) then Parsed(Null, s[4..])
    else if StartsWith(s, Ascii("true")) then Parsed(Bool(true), s[4..])
    else if StartsWith(s, Ascii("false")) then Parsed(Bool(false), s[5..])
    else
      var n := NumberRun(s);
      if n > 0 && IsNumberToken(s[..n]) then Parsed(Num(f.read(s[..n])), s[n..]) else Fails
  }

  /** Items up to and including the closing bracket. */
  function ParseItems<N>(f: NumberFormat<N>, text: Text): (r: Parsed<seq<Json<N>>>)
    ensures r.Parsed? ==> |r.rest| < |text|
    decreases |text|, 1
  {
    match ParseValue(f, text)
    case Fails => Fails
    case Parsed(v, after) =>
      var s := SkipSpace(after);
      if s == [] then Fails
      else if s[0] == ']' as int then Parsed([v], s[1..])
      else if s[0] == ',' as int then
        match ParseItems(f, s[1..])
        case Fails => Fails
        case Parsed(items, rest) => Parsed([v] + items, rest)
      else Fails
  }

  function ParseEntry<N>(f: NumberFormat<N>, text: Text): (r: Parsed<Member<N>>)
    ensures r.Parsed? ==> |r.rest| < |text|
    decreases |text|, 0
  {
    var s := SkipSpace(text);
    if s == [] || s[0] != '"' as int then Fails
    else
      match ParseString(s[1..])
      case Fails => Fails
      case Parsed(key, after) =>
        var colon := SkipSpace(after);
        if colon == [] || colon[0] != ':' as int then Fails
        else
          match ParseValue(f, colon[1..])
          case Fails => Fails
          case Parsed(v, rest) => Parsed(Member(key, v), rest)
  }

  /** Entries up to and including the closing brace, in text order, repeats and all. */
  function ParseEntries<N>(f: NumberFormat<N>, text: Text): (r: Parsed<seq<Member<N>>>)
    ensures r.Parsed? ==> |r.rest| < |text|
    decreases |text|, 1
  {
    match ParseEntry(f, text)
    case Fails => Fails
    case Parsed(entry, after) =>
      var s := SkipSpace(after);
      if s == [] then Fails
      else if s[0] == '}' as int then Parsed([entry], s[1..])
      else if s[0] == ',' as int then
        match ParseEntries(f, s[1..])
        case Fails => Fails
        case Parsed(entries, rest) => Parsed([entry] + entries, rest)
      else Fails
  }

  /** `JSON.parse`. */
  function Parse<N>(f: NumberFormat<N>, text: Text): Option<Json<N>> {
    match ParseValue(f, text)
    case Fails => None
    case Parsed(v, rest) => if SkipSpace(rest) == [] then Some(v) else None
  }

  // ------------------------------------------------------- values that print

  ghost predicate DistinctKeys<N>(members: seq<Member<N>>) {
    members == [] || (!HasKey(members[1..], members[0].key) && DistinctKeys(members[1..]))
  }

  ghost predicate IsUnits(t: Text) {
    forall i :: 0 <= i < |t| ==> 0 <= t[i] < 0x10000
  }

  /** Numbers are written as JSON number tokens. */
  ghost predicate FormatOk<N(!new)>(f: NumberFormat<N>) {
    forall n :: f.finite(n) ==> IsNumberToken(f.write(n)) && NumberRun(f.write(n)) == |f.write(n)|
  }

  /** Strings are strings, finite numbers, and no object repeats a key. */
  ghost predicate Printable<N>(f: NumberFormat<N>, v: Json<N>)
    decreases v, 0
  {
    match v
    case Null => true
    case Bool(_) => true
    case Num(n) => f.finite(n)
    case Str(t) => IsUnits(t)
    case Arr(items) => PrintableItems(f, items)
    case Obj(members) => PrintableMembers(f, members) && DistinctKeys(members)
  }

  ghost predicate PrintableItems<N>(f: NumberFormat<N>, items: seq<Json<N>>)
    decreases items, 1
  {
    items == [] || (Printable(f, items[0]) && PrintableItems(f, items[1..]))
  }

  ghost predicate PrintableMembers<N>(f: NumberFormat<N>, members: seq<Member<N>>)
    decreases members, 1
  {
    members == []
    || (IsUnits(members[0].key) && Printable(f, members[0].value) && PrintableMembers(f, members[1..]))
  }

  /** The value with every number as it reads back: only negative zero changes. */
  function Reread<N>(f: NumberFormat<N>, v: Json<N>): Json<N>
    decreases v, 0
  {
    match v
    case Num(n) => Num(f.read(f.write(n)))
    case Arr(items) => Arr(RereadItems(f, items))
    case Obj(members) => Obj(RereadMembers(f, members))
    case _ => v
  }

  function RereadItems<N>(f: NumberFormat<N>, items: seq<Json<N>>): (r: seq<Json<N>>)
    ensures |r| == |items|
    decreases items, 1
  {
    if items == [] then [] else [Reread(f, items[0])] + RereadItems(f, items[1..])
  }

  function RereadMembers<N>(f: NumberFormat<N>, members: seq<Member<N>>): (r: seq<Member<N>>)
    ensures |r| == |members|
    decreases members, 1
  {
    if members == [] then []
    else [Member(members[0].key, Reread(f, members[0].value))] + RereadMembers(f, members[1..])
  }

  // ------------------------------------------------------- reading it back

  lemma ShortEscapeParses(unit: int, s: Text)
    requires |EscapeUnit(unit)| == 2
    ensures ParseEscape(EscapeUnit(unit)[1..] + s) == Parsed(unit, s)
  {
    var e := EscapeUnit(unit)[1..];
    assert (e + s)[1..] == s && (e + s)[0] == e[0];
  }

  lemma LongEscapeParses(unit: int, s: Text)
    requires 0 <= unit < 0x10000 && |EscapeUnit(unit)| == 6
    ensures ParseEscape(EscapeUnit(unit)[1..] + s) == Parsed(unit, s)
  {
    var e := EscapeUnit(unit)[1..];
    var d := e + s;
    assert d[5..] == s && d[0] == 'u' as int && d[1] == '0' as int && d[2] == '0' as int;
    assert d[3] == HexDigit(unit / 16) && d[4] == HexDigit(unit % 16);
    assert HexValue(d[1]) == 0 && HexValue(d[2]) == 0;
    assert HexValue(d[3]) == unit / 16 && HexValue(d[4]) == unit % 16;
  }

  lemma EscapeSizes(unit: int)
    ensures var e := EscapeUnit(unit);
      |e| == 1 || ((|e| == 2 || |e| == 6) && e[0] == '\\' as int)
    ensures |EscapeUnit(unit)| == 1 ==>
      EscapeUnit(unit) == [unit] && (unit < 0 || unit >= 32) && unit != '"' as int && unit != '\\' as int
  {
  }

  lemma EscapedUnitParses(unit: int, s: Text)
    requires 0 <= unit < 0x10000 && ParseString(s).Parsed?
    ensures ParseString(EscapeUnit(unit) + s) == Parsed([unit] + ParseString(s).value, ParseString(s).rest)
  {
    var e := EscapeUnit(unit);
    EscapeSizes(unit);
    if |e| == 1 {
      ParsePlainUnit(unit, s);
    } else {
      if |e| == 2 {
        ShortEscapeParses(unit, s);
      } else {
        LongEscapeParses(unit, s);
      }
      assert e + s == ['\\' as int] + (e[1..] + s);
      ParseEscapedUnit(unit, e[1..] + s, s);
    }
  }

  lemma ParsePlainUnit(unit: int, s: Text)
    requires unit >= 32 && unit != '"' as int && unit != '\\' as int && ParseString(s).Parsed?
    ensures ParseString([unit] + s) == Parsed([unit] + ParseString(s).value, ParseString(s).rest)
  {
    assert ([unit] + s)[1..] == s;
  }

  lemma ParseEscapedUnit(unit: int, escape: Text, s: Text)
    requires ParseEscape(escape) == Parsed(unit, s) && ParseString(s).Parsed?
    ensures ParseString(['\\' as int] + escape) == Parsed([unit] + ParseString(s).value, ParseString(s).rest)
  {
    assert (['\\' as int] + escape)[1..] == escape;
  }

  lemma EscapeFirst(t: Text, close: Text)
    requires t != []
    ensures Escape(t) + close == EscapeUnit(t[0]) + (Escape(t[1..]) + close) && t == [t[0]] + t[1..]
  {
    Regroup(EscapeUnit(t[0]), Escape(t[1..]), close);
  }

  lemma {:induction false} QuotedParses(t: Text, rest: Text)
    requires IsUnits(t)
    ensures ParseString(Escape(t) + (['"' as int] + rest)) == Parsed(t, rest)
  {
    var close := ['"' as int] + rest;
    if t == [] {
      assert Escape(t) + close == close;
    } else {
      QuotedParses(t[1..], rest);
      EscapeFirst(t, close);
      EscapedUnitParses(t[0], Escape(t[1..]) + close);
    }
  }

  /** What may follow a value inside a larger text. */
  predicate Delimited(rest: Text) {
    rest == [] || rest[0] == ',' as int || rest[0] == ']' as int || rest[0] == '}' as int
  }

  lemma {:induction false} NumberRunStops(token: Text, rest: Text)
    requires NumberRun(token) == |token| && Delimited(rest)
    ensures NumberRun(token + rest) == |token|
  {
    if token == [] {
      assert token + rest == rest;
    } else {
      assert (token + rest)[1..] == token[1..] + rest;
      NumberRunStops(token[1..], rest);
    }
  }

  lemma OtherStart(s: Text, literal: string)
    requires s != [] && literal != [] && s[0] != literal[0] as int
    ensures !StartsWith(s, Ascii(literal))
  {
    if |literal| <= |s| { assert s[..|literal|][0] == s[0]; }
  }

  lemma NumberParses<N(!new)>(f: NumberFormat<N>, n: N, rest: Text)
    requires FormatOk(f) && f.finite(n) && Delimited(rest)
    ensures ParseValue(f, f.write(n) + rest) == Parsed(Num(f.read(f.write(n))), rest)
  {
    var token := f.write(n);
    var s := token + rest;
    NumberTokenStarts(token);
    NumberRunStops(token, rest);
    assert s[0] == token[0];
    assert s[..|token|] == token && s[|token|..] == rest;
    OtherStart(s, "null");
    OtherStart(s, "true");
    OtherStart(s, "false");
    ParseNumberStep(f, s, |token|);
  }

  lemma NumberTokenStarts(token: Text)
    requires IsNumberToken(token)
    ensures token != [] && (IsDigit(token[0]) || token[0] == '-' as int)
  {
  }

  lemma ParseNumberStep<N>(f: NumberFormat<N>, s: Text, n: nat)
    requires s != [] && (IsDigit(s[0]) || s[0] == '-' as int) && n == NumberRun(s) && IsNumberToken(s[..n]) && n > 0
    requires !StartsWith(s, Ascii("null")) && !StartsWith(s, Ascii("true")) && !StartsWith(s, Ascii("false"))
    ensures ParseValue(f, s) == Parsed(Num(f.read(s[..n])), s[n..])
  {
  }

  lemma StringParses<N>(f: NumberFormat<N>, t: Text, rest: Text)
    requires IsUnits(t)
    ensures ParseValue(f, Quote(t) + rest) == Parsed(Str(t), rest)
  {
    QuotedParses(t, rest);
    assert Quote(t) + rest == ['"' as int] + (Escape(t) + (['"' as int] + rest));
  }

  lemma LiteralParses<N>(f: NumberFormat<N>, v: Json<N>, rest: Text)
    requires v.Null? || v.Bool?
    ensures ParseValue(f, Print(f, v) + rest) == Parsed(v, rest)
  {
    var p := Print(f, v);
    var s := p + rest;
    assert s[..|p|] == p && s[|p|..] == rest;
    assert s[0] == p[0];
  }

  // One unfolding of the parser at each construct.

  lemma ParseArray<N>(f: NumberFormat<N>, inner: Text)
    requires inner != [] && !IsSpace(inner[0])
    ensures var r := ParseValue(f, ['[' as int] + inner);
      if inner[0] == ']' as int then r == Parsed(Arr([]), inner[1..])
      else match ParseItems(f, inner)
        case Fails => r == Fails
        case Parsed(items, rest) => r == Parsed(Arr(items), rest)
  {
    assert (['[' as int] + inner)[1..] == inner;
  }

  lemma ParseObject<N>(f: NumberFormat<N>, inner: Text)
    requires inner != [] && !IsSpace(inner[0])
    ensures var r := ParseValue(f, ['{' as int] + inner);
      if inner[0] == '}' as int then r == Parsed(Obj([]), inner[1..])
      else match ParseEntries(f, inner)
        case Fails => r == Fails
        case Parsed(entries, rest) => r == Parsed(Obj(FromEntries(entries)), rest)
  {
    assert (['{' as int] + inner)[1..] == inner;
  }

  lemma ParseItemsStep<N>(f: NumberFormat<N>, text: Text, v: Json<N>, next: int, tail: Text)
    requires ParseValue(f, text) == Parsed(v, [next] + tail)
    ensures next == ']' as int ==> ParseItems(f, text) == Parsed([v], tail)
    ensures next == ',' as int && ParseItems(f, tail).Parsed? ==>
      ParseItems(f, text) == Parsed([v] + ParseItems(f, tail).value, ParseItems(f, tail).rest)
  {
    assert ([next] + tail)[1..] == tail;
  }

  lemma ParseEntriesStep<N>(f: NumberFormat<N>, text: Text, m: Member<N>, next: int, tail: Text)
    requires ParseEntry(f, text) == Parsed(m, [next] + tail)
    ensures next == '}' as int ==> ParseEntries(f, text) == Parsed([m], tail)
    ensures next == ',' as int && ParseEntries(f, tail).Parsed? ==>
      ParseEntries(f, text) == Parsed([m] + ParseEntries(f, tail).value, ParseEntries(f, tail).rest)
  {
    assert ([next] + tail)[1..] == tail;
  }

  lemma ParseEntryStep<N>(f: NumberFormat<N>, s: Text, key: Text, value: Text, v: Json<N>, rest: Text)
    requires ParseString(s) == Parsed(key, [':' as int] + value) && ParseValue(f, value) == Parsed(v, rest)
    ensures ParseEntry(f, ['"' as int] + s) == Parsed(Member(key, v), rest)
  {
    assert (['"' as int] + s)[1..] == s;
    assert ([':' as int] + value)[1..] == value;
  }

  /** Parsing printed text gives the value back, and stops exactly at its end. */
  lemma {:induction false} PrintedParses<N(!new)>(f: NumberFormat<N>, v: Json<N>, rest: Text)
    requires FormatOk(f) && Printable(f, v) && Delimited(rest)
    ensures ParseValue(f, Print(f, v) + rest) == Parsed(Reread(f, v), rest)
    decreases v, 0
  {
    match v {
      case Null => LiteralParses(f, v, rest);
      case Bool(_) => LiteralParses(f, v, rest);
      case Num(n) => NumberParses(f, n, rest);
      case Str(t) => StringParses(f, t, rest);
      case Arr(items) => PrintedArrayParses(f, items, rest);
      case Obj(members) => PrintedObjectParses(f, members, rest);
    }
  }

  lemma {:induction false} PrintedArrayParses<N(!new)>(f: NumberFormat<N>, items: seq<Json<N>>, rest: Text)
    requires FormatOk(f) && PrintableItems(f, items) && Delimited(rest)
    ensures ParseValue(f, Print(f, Arr(items)) + rest) == Parsed(Arr(RereadItems(f, items)), rest)
    decreases items, 2
  {
    var body, close := PrintItems(f, items), [']' as int] + rest;
    var inner := body + close;
    assert Print(f, Arr(items)) + rest == ['[' as int] + inner;
    if items == [] {
      assert inner == close;
    } else {
      PrintedItemsParse(f, items, rest);
      PrintStarts(f, items[0]);
      assert inner[0] == Print(f, items[0])[0];
    }
    ParseArray(f, inner);
  }

  lemma {:induction false} PrintedObjectParses<N(!new)>(f: NumberFormat<N>, members: seq<Member<N>>, rest: Text)
    requires FormatOk(f) && PrintableMembers(f, members) && DistinctKeys(members) && Delimited(rest)
    ensures ParseValue(f, Print(f, Obj(members)) + rest) == Parsed(Obj(RereadMembers(f, members)), rest)
    decreases members, 3
  {
    var body, close := PrintMembers(f, members), ['}' as int] + rest;
    var inner := body + close;
    assert Print(f, Obj(members)) + rest == ['{' as int] + inner;
    if members == [] {
      assert inner == close;
    } else {
      PrintedMembersParse(f, members, rest);
      assert inner[0] == '"' as int;
      RereadKeysDistinct(f, members);
      FromDistinctEntries(RereadMembers(f, members));
    }
    ParseObject(f, inner);
  }

  /** Printed text starts with a unit that is neither space nor a closing bracket. */
  lemma PrintStarts<N(!new)>(f: NumberFormat<N>, v: Json<N>)
    requires FormatOk(f) && Printable(f, v)
    ensures Print(f, v) != []
    ensures var u := Print(f, v)[0]; 0 < u < 0x80 && !IsSpace(u) && !Delimited([u])
  {
    if v.Num? { NumberTokenStarts(f.write(v.number)); }
  }

  lemma {:induction false} PrintedItemsParse<N(!new)>(f: NumberFormat<N>, items: seq<Json<N>>, rest: Text)
    requires FormatOk(f) && PrintableItems(f, items) && items != []
    ensures ParseItems(f, PrintItems(f, items) + ([']' as int] + rest)) == Parsed(RereadItems(f, items), rest)
    decreases items, 1
  {
    var close := [']' as int] + rest;
    if |items| == 1 {
      PrintedParses(f, items[0], close);
      ParseItemsStep(f, Print(f, items[0]) + close, Reread(f, items[0]), ']' as int, rest);
      RereadItemsOne(f, items);
      PrintItemsOne(f, items);
    } else {
      var tail := PrintItems(f, items[1..]) + close;
      PrintedItemsParse(f, items[1..], rest);
      PrintedParses(f, items[0], [',' as int] + tail);
      ParseItemsStep(f, Print(f, items[0]) + ([',' as int] + tail), Reread(f, items[0]), ',' as int, tail);
      JoinText(Print(f, items[0]), PrintItems(f, items[1..]), close);
    }
  }

  lemma PrintItemsOne<N>(f: NumberFormat<N>, items: seq<Json<N>>)
    requires |items| == 1
    ensures PrintItems(f, items) == Print(f, items[0])
  {
  }

  lemma RereadItemsOne<N>(f: NumberFormat<N>, items: seq<Json<N>>)
    requires |items| == 1
    ensures RereadItems(f, items) == [Reread(f, items[0])]
  {
    assert RereadItems(f, items[1..]) == [];
  }

  lemma JoinText(first: Text, others: Text, close: Text)
    ensures first + ([',' as int] + others) + close == first + ([',' as int] + (others + close))
  {
  }

  lemma {:induction false} PrintedEntryParses<N(!new)>(f: NumberFormat<N>, m: Member<N>, rest: Text)
    requires FormatOk(f) && IsUnits(m.key) && Printable(f, m.value) && Delimited(rest)
    ensures ParseEntry(f, PrintMember(f, m) + rest) == Parsed(Member(m.key, Reread(f, m.value)), rest)
    decreases m, 1
  {
    var value := Print(f, m.value) + rest;
    var colon := [':' as int] + value;
    PrintedParses(f, m.value, rest);
    QuotedParses(m.key, colon);
    var s := Escape(m.key) + (['"' as int] + colon);
    EntryText(Escape(m.key), Print(f, m.value), rest);
    ParseEntryStep(f, s, m.key, value, Reread(f, m.value), rest);
  }

  lemma EntryText(key: Text, value: Text, rest: Text)
    ensures ['"' as int] + key + ['"' as int] + [':' as int] + value + rest
      == ['"' as int] + (key + (['"' as int] + ([':' as int] + (value + rest))))
  {
  }

  lemma {:induction false} PrintedMembersParse<N(!new)>(f: NumberFormat<N>, members: seq<Member<N>>, rest: Text)
    requires FormatOk(f) && PrintableMembers(f, members) && members != []
    ensures ParseEntries(f, PrintMembers(f, members) + (['}' as int] + rest)) == Parsed(RereadMembers(f, members), rest)
    decreases members, 2
  {
    var close := ['}' as int] + rest;
    var m, first := members[0], PrintMember(f, members[0]);
    var reread := Member(m.key, Reread(f, m.value));
    if |members| == 1 {
      PrintedEntryParses(f, m, close);
      ParseEntriesStep(f, first + close, reread, '}' as int, rest);
      PrintMembersOne(f, members);
    } else {
      var tail := PrintMembers(f, members[1..]) + close;
      PrintedMembersParse(f, members[1..], rest);
      PrintedEntryParses(f, m, [',' as int] + tail);
      ParseEntriesStep(f, first + ([',' as int] + tail), reread, ',' as int, tail);
      JoinText(first, PrintMembers(f, members[1..]), close);
    }
  }

  lemma PrintMembersOne<N>(f: NumberFormat<N>, members: seq<Member<N>>)
    requires |members| == 1
    ensures PrintMembers(f, members) == PrintMember(f, members[0])
    ensures RereadMembers(f, members) == [Member(members[0].key, Reread(f, members[0].value))]
  {
    assert RereadMembers(f, members[1..]) == [];
  }

  lemma {:induction false} RereadKeysDistinct<N>(f: NumberFormat<N>, members: seq<Member<N>>)
    requires DistinctKeys(members)
    ensures DistinctKeys(RereadMembers(f, members))
  {
    if members != [] {
      RereadKeysDistinct(f, members[1..]);
      RereadHasKey(f, members[1..], members[0].key);
    }
  }

  lemma {:induction false} RereadHasKey<N>(f: NumberFormat<N>, members: seq<Member<N>>, key: Text)
    ensures HasKey(RereadMembers(f, members), key) == HasKey(members, key)
  {
    if members != [] { RereadHasKey(f, members[1..], key); }
  }

  lemma {:induction false} AssignNewKey<N>(members: seq<Member<N>>, m: Member<N>)
    requires !HasKey(members, m.key)
    ensures Assign(members, m) == members + [m]
  {
    if members != [] { AssignNewKey(members[1..], m); }
  }

  lemma {:induction false} DistinctKeysPrefix<N>(members: seq<Member<N>>, m: Member<N>)
    requires DistinctKeys(members + [m])
    ensures DistinctKeys(members) && !HasKey(members, m.key)
  {
    if members != [] {
      assert (members + [m])[1..] == members[1..] + [m];
      DistinctKeysPrefix(members[1..], m);
      HasKeySnoc(members[1..], m, members[0].key);
    }
  }

  lemma {:induction false} HasKeySnoc<N>(members: seq<Member<N>>, m: Member<N>, key: Text)
    ensures HasKey(members + [m], key) == (HasKey(members, key) || m.key == key)
  {
    if members != [] {
      assert (members + [m])[1..] == members[1..] + [m];
      HasKeySnoc(members[1..], m, key);
    }
  }

  lemma {:induction false} FromDistinctEntries<N>(entries: seq<Member<N>>)
    requires DistinctKeys(entries)
    ensures FromEntries(entries) == entries
  {
    if entries != [] {
      var before, last := entries[..|entries| - 1], entries[|entries| - 1];
      assert entries == before + [last];
      DistinctKeysPrefix(before, last);
      FromDistinctEntries(before);
      AssignNewKey(before, last);
    }
  }

  /** `JSON.parse(JSON.stringify(v))` is `v`, up to negative zero. */
  lemma ParseOfPrint<N(!new)>(f: NumberFormat<N>, v: Json<N>)
    requires FormatOk(f) && Printable(f, v)
    ensures Parse(f, Print(f, v)) == Some(Reread(f, v))
  {
    PrintedParses(f, v, []);
    assert Print(f, v) + [] == Print(f, v);
  }

  // -------------------------------------------------- parsed objects are objects

  lemma {:induction false} AssignKeepsDistinct<N>(members: seq<Member<N>>, m: Member<N>)
    requires DistinctKeys(members)
    ensures DistinctKeys(Assign(members, m))
    ensures forall key :: HasKey(Assign(members, m), key) <==> HasKey(members, key) || m.key == key
  {
    if members != [] { AssignKeepsDistinct(members[1..], m); }
  }

  lemma {:induction false} FromEntriesDistinct<N>(entries: seq<Member<N>>)
    ensures DistinctKeys(FromEntries(entries))
  {
    if entries != [] {
      FromEntriesDistinct(entries[..|entries| - 1]);
      AssignKeepsDistinct(FromEntries(entries[..|entries| - 1]), entries[|entries| - 1]);
    }
  }
}
