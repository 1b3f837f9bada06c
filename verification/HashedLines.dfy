/** What a digest over hashed lines says about the files. */
module HashedLines {
  import opened Wrappers
  import opened ByteStrings
  import opened Lexicographic
  import opened Sequences
  import opened Utf8
  import opened Json
  import opened CanonicalJson
  import opened HashedManifests

  // scripts/release/content-hash.ts, the other way round: equal digests come from equal files, unless two of
  // the byte strings that were digested collide.

  const NUL := 0
  const LINE_FEED := 10

  // ------------------------------------------------------------------ bytes

  lemma {:induction false} EncodeAppend(a: Text, b: Text)
    requires WellFormed(a)
    ensures Encode(a + b) == Encode(a) + Encode(b)
  {
    if a == [] {
      assert a + b == b;
    } else if IsHighSurrogate(a[0]) {
      EncodeAppend(a[2..], b);
      DropOfAppend(a, b, 2);
    } else {
      EncodeAppend(a[1..], b);
      DropOfAppend(a, b, 1);
    }
  }

  lemma {:induction false} EncodeKeepsFree(t: Text)
    requires LINE_FEED !in t
    ensures LINE_FEED !in Encode(t)
  {
    if t != [] {
      assert t == [t[0]] + t[1..];
      if IsHighSurrogate(t[0]) && |t| >= 2 && IsLowSurrogate(t[1]) {
        PairRoundTrip(t[0], t[1]);
        assert t[1..][1..] == t[2..];
        EncodeKeepsFree(t[2..]);
      } else {
        EncodeKeepsFree(t[1..]);
      }
    }
  }

  lemma EncodeIsInjective(t: Text, u: Text)
    requires WellFormed(t) && WellFormed(u) && Encode(t) == Encode(u)
    ensures t == u
  {
    DecodeBodyOfEncode(t);
    DecodeBodyOfEncode(u);
  }

  // ------------------------------------------------------------------ lines

  /** Text that can stand in a line. */
  predicate IsLineText(t: Text) {
    WellFormed(t) && LINE_FEED !in t
  }

  /** Well-formed text with one line feed, at its end. */
  ghost predicate IsLine(t: Text) {
    t != [] && t[|t| - 1] == LINE_FEED && IsLineText(t[..|t| - 1])
  }

  ghost predicate AreLines(lines: seq<Text>) {
    forall i :: 0 <= i < |lines| ==> IsLine(lines[i])
  }

  lemma LineBytes(line: Text) returns (body: Bytes)
    requires IsLine(line)
    ensures Encode(line) == body + [LINE_FEED] && LINE_FEED !in body && body == Encode(line[..|line| - 1])
  {
    var text := line[..|line| - 1];
    assert line == text + [LINE_FEED];
    EncodeAppend(text, [LINE_FEED]);
    EncodeKeepsFree(text);
    body := Encode(text);
    AsciiEncodesToItself([LINE_FEED]);
  }

  predicate EndsLine(b: Bytes) {
    b == [] || b[|b| - 1] == LINE_FEED
  }

  lemma {:induction false} ConcatEndsLine(lines: seq<Text>)
    requires AreLines(lines)
    ensures EndsLine(Concat(lines)) && (lines != [] ==> Concat(lines) != [])
  {
    if lines != [] {
      var body := LineBytes(lines[|lines| - 1]);
      var before := Concat(lines[..|lines| - 1]);
      assert Concat(lines) == before + (body + [LINE_FEED]);
    }
  }

  lemma FreeTail(a: Bytes, x: Bytes)
    requires EndsLine(a) && LINE_FEED !in x
    ensures var whole := a + (x + [LINE_FEED]);
      && (forall i :: |a| <= i < |a| + |x| ==> whole[i] != LINE_FEED)
      && (a != [] ==> whole[|a| - 1] == LINE_FEED)
      && whole[..|a|] == a && whole[|a|..] == x + [LINE_FEED]
  {
    var whole := a + (x + [LINE_FEED]);
    forall i | |a| <= i < |a| + |x| ensures whole[i] != LINE_FEED {
      assert whole[i] == x[i - |a|];
    }
  }

  /** The last line of bytes that end their lines. */
  lemma SplitLastLine(a: Bytes, x: Bytes, b: Bytes, y: Bytes)
    requires EndsLine(a) && EndsLine(b) && LINE_FEED !in x && LINE_FEED !in y
    requires a + (x + [LINE_FEED]) == b + (y + [LINE_FEED])
    ensures a == b && x == y
  {
    var whole := a + (x + [LINE_FEED]);
    FreeTail(a, x);
    FreeTail(b, y);
    assert |a| + |x| == |b| + |y|;
    assert |a| == |b|;
    assert (x + [LINE_FEED])[..|x|] == x && (y + [LINE_FEED])[..|y|] == y;
  }

  lemma LastLines(before: Bytes, last: Text, before': Bytes, last': Text)
    requires EndsLine(before) && EndsLine(before') && IsLine(last) && IsLine(last')
    requires before + Encode(last) == before' + Encode(last')
    ensures before == before' && last == last'
  {
    var x := LineBytes(last);
    var y := LineBytes(last');
    SplitLastLine(before, x, before', y);
    EncodeIsInjective(last[..|last| - 1], last'[..|last'| - 1]);
    assert last == last[..|last| - 1] + [LINE_FEED] && last' == last'[..|last'| - 1] + [LINE_FEED];
  }

  lemma WithoutLast(lines: seq<Text>)
    requires AreLines(lines) && lines != []
    ensures AreLines(lines[..|lines| - 1]) && IsLine(lines[|lines| - 1])
    ensures lines == lines[..|lines| - 1] + [lines[|lines| - 1]]
  {
  }

  lemma ConcatLast(lines: seq<Text>, before: seq<Text>, last: Text)
    requires lines == before + [last]
    ensures Concat(lines) == Concat(before) + Encode(last)
  {
    assert lines[..|lines| - 1] == before;
  }

  /** The bytes fix the lines. */
  lemma {:induction false} ConcatIsInjective(xs: seq<Text>, ys: seq<Text>)
    requires AreLines(xs) && AreLines(ys) && Concat(xs) == Concat(ys)
    ensures xs == ys
  {
    ConcatEndsLine(xs);
    ConcatEndsLine(ys);
    if xs != [] {
      WithoutLast(xs);
      WithoutLast(ys);
      var (before, before') := (xs[..|xs| - 1], ys[..|ys| - 1]);
      SameLast(before, xs[|xs| - 1], xs, before', ys[|ys| - 1], ys);
      ConcatIsInjective(before, before');
    }
  }

  lemma SameLast(before: seq<Text>, last: Text, xs: seq<Text>, before': seq<Text>, last': Text, ys: seq<Text>)
    requires xs == before + [last] && ys == before' + [last'] && Concat(xs) == Concat(ys)
    requires AreLines(before) && AreLines(before') && IsLine(last) && IsLine(last')
    ensures Concat(before) == Concat(before') && last == last'
  {
    ConcatLast(xs, before, last);
    ConcatLast(ys, before', last');
    ConcatEndsLine(before);
    ConcatEndsLine(before');
    LastLines(Concat(before), last, Concat(before'), last');
  }

  /** These two byte strings do not collide. */
  predicate Separates(tools: Tools, x: Bytes, y: Bytes) {
    tools.digest(x) == tools.digest(y) ==> x == y
  }

  /** The bytes that are digested last. */
  function Digested(lines: seq<Text>): Bytes {
    Concat(SortBy(lines, Self))
  }

  lemma SortedAreLines(lines: seq<Text>)
    requires AreLines(lines)
    ensures AreLines(SortBy(lines, Self))
  {
    var sorted := SortBy(lines, Self);
    SortByFacts(lines, Self);
    forall i | 0 <= i < |sorted| ensures IsLine(sorted[i]) {
      assert sorted[i] in multiset(sorted);
      assert sorted[i] in lines;
    }
  }

  /** Equal digests are of the same lines, in whatever order. */
  lemma DigestFixesLines(tools: Tools, a: seq<Text>, b: seq<Text>)
    requires AreLines(a) && AreLines(b) && Separates(tools, Digested(a), Digested(b))
    requires DigestOf(tools, a) == DigestOf(tools, b)
    ensures multiset(a) == multiset(b)
  {
    var prefix := Ascii("sha256:");
    assert DigestOf(tools, a)[|prefix|..] == tools.digest(Digested(a));
    assert DigestOf(tools, b)[|prefix|..] == tools.digest(Digested(b));
    SortedAreLines(a);
    SortedAreLines(b);
    ConcatIsInjective(SortBy(a, Self), SortBy(b, Self));
    SortByFacts(a, Self);
    SortByFacts(b, Self);
  }

  // ---------------------------------------------------------- lines of files

  /** A label is a path: text without a NUL or a line feed. */
  predicate IsLabel(t: Text) {
    IsLineText(t) && NUL !in t
  }

  /** Digests are written in hexadecimal, or at least in text of one line. */
  ghost predicate DigestsAreText(tools: Tools) {
    forall b :: IsLineText(tools.digest(b))
  }

  lemma FileEntryIsLine(tools: Tools, path: Text, lineLabel: Text, file: File, dropSiblings: bool)
    requires IsLabel(lineLabel) && DigestsAreText(tools)
    ensures IsLine(FileEntry(tools, path, lineLabel, file, dropSiblings))
  {
    var digest := tools.digest(HashedBytes(tools, path, file.bytes, dropSiblings));
    var bit := [0, if file.executable then 'x' as int else '-' as int, 0];
    var line := FileEntry(tools, path, lineLabel, file, dropSiblings);
    AsciiEncodesToItself(bit);
    WellFormedAppend(lineLabel, bit);
    WellFormedAppend(lineLabel + bit, digest);
    assert line[..|line| - 1] == lineLabel + bit + digest;
  }

  lemma FirstNul(a: Text, x: Text)
    requires NUL !in a
    ensures var whole := a + ([NUL] + x);
      && (forall i :: 0 <= i < |a| ==> whole[i] != NUL)
      && whole[|a|] == NUL && whole[..|a|] == a && whole[|a| + 1..] == x
  {
    forall i | 0 <= i < |a| ensures (a + ([NUL] + x))[i] != NUL {
      assert (a + ([NUL] + x))[i] == a[i];
    }
  }

  lemma SplitAtNul(a: Text, x: Text, b: Text, y: Text)
    requires NUL !in a && NUL !in b && a + ([NUL] + x) == b + ([NUL] + y)
    ensures a == b && x == y
  {
    FirstNul(a, x);
    FirstNul(b, y);
    assert |a| == |b|;
  }

  /** A line fixes its label, its executable bit and the digest of its hashed bytes. */
  lemma LineFixesFile(tools: Tools, path: Text, file: File, lineLabel: Text, path': Text, file': File,
                      lineLabel': Text, dropSiblings: bool)
    requires IsLabel(lineLabel) && IsLabel(lineLabel')
    requires FileEntry(tools, path, lineLabel, file, dropSiblings) ==
      FileEntry(tools, path', lineLabel', file', dropSiblings)
    ensures lineLabel == lineLabel' && file.executable == file'.executable
    ensures tools.digest(HashedBytes(tools, path, file.bytes, dropSiblings)) ==
      tools.digest(HashedBytes(tools, path', file'.bytes, dropSiblings))
  {
    var d := tools.digest(HashedBytes(tools, path, file.bytes, dropSiblings));
    var d' := tools.digest(HashedBytes(tools, path', file'.bytes, dropSiblings));
    var bit, bit' := if file.executable then 'x' as int else '-' as int, if file'.executable then 'x' as int
      else '-' as int;
    assert FileEntry(tools, path, lineLabel, file, dropSiblings) == lineLabel + ([NUL] + ([bit, 0] + d + [10]));
    assert FileEntry(tools, path', lineLabel', file', dropSiblings) == lineLabel' + ([NUL] + ([bit', 0] + d' + [10]));
    SplitAtNul(lineLabel, [bit, 0] + d + [10], lineLabel', [bit', 0] + d' + [10]);
    assert ([bit, 0] + d + [10])[0] == bit && ([bit', 0] + d' + [10])[0] == bit';
    assert ([bit, 0] + d + [10])[2..][..|d|] == d && ([bit', 0] + d' + [10])[2..][..|d'|] == d';
  }

  /** Equal hashed bytes of two manifests mean the same kept data. */
  lemma ManifestBytesFixData(tools: Tools, path: Text, bytes: Bytes, bytes': Bytes, dropSiblings: bool)
    requires StableFormat(tools.format) && IsManifest(path)
    requires tools.parse(bytes).Obj? && tools.parse(bytes').Obj?
    requires var (a, b) := (tools.parse(bytes).members, tools.parse(bytes').members);
      && Printable(tools.format, Sorted(Obj(Kept(a, dropSiblings))))
      && Printable(tools.format, Sorted(Obj(Kept(b, dropSiblings))))
      && WellFormed(HashedText(tools.format, a, dropSiblings)) && WellFormed(HashedText(tools.format, b, dropSiblings))
    requires HashedBytes(tools, path, bytes, dropSiblings) == HashedBytes(tools, path, bytes', dropSiblings)
    ensures SameKept(tools.format, tools.parse(bytes).members, tools.parse(bytes').members, dropSiblings)
  {
    var (a, b) := (tools.parse(bytes).members, tools.parse(bytes').members);
    EncodeIsInjective(HashedText(tools.format, a, dropSiblings), HashedText(tools.format, b, dropSiblings));
    HashedTextIff(tools.format, a, b, dropSiblings);
  }

  // -------------------------------------------------------- one package's hash

  type Directory = map<Text, File>

  /** `packedFiles`: every path once, in some order. */
  ghost predicate Lists(root: Directory, paths: seq<Text>) {
    NoRepeats(paths) && forall path :: path in paths <==> path in root
  }

  ghost predicate AreLabels(root: Directory) {
    forall path :: path in root ==> IsLabel(path)
  }

  function FileLines(tools: Tools, root: Directory, paths: seq<Text>): (lines: seq<Text>)
    requires forall i :: 0 <= i < |paths| ==> paths[i] in root
    ensures |lines| == |paths|
    ensures forall i :: 0 <= i < |paths| ==> lines[i] == FileEntry(tools, paths[i], paths[i], root[paths[i]], false)
  {
    seq(|paths|, i requires 0 <= i < |paths| => FileEntry(tools, paths[i], paths[i], root[paths[i]], false))
  }

  /** `contentHashOfDirectory`. */
  function ContentHashOfDirectory(tools: Tools, root: Directory, paths: seq<Text>): Text
    requires Lists(root, paths)
  {
    DigestOf(tools, FileLines(tools, root, paths))
  }

  /** Equal executable bit and digest of the hashed bytes. */
  ghost predicate SameLine(tools: Tools, path: Text, file: File, file': File) {
    && file.executable == file'.executable
    && tools.digest(HashedBytes(tools, path, file.bytes, false)) ==
       tools.digest(HashedBytes(tools, path, file'.bytes, false))
  }

  ghost predicate SameFiles(tools: Tools, root: Directory, root': Directory) {
    root.Keys == root'.Keys && forall path :: path in root ==> SameLine(tools, path, root[path], root'[path])
  }

  lemma FileLinesAreLines(tools: Tools, root: Directory, paths: seq<Text>)
    requires Lists(root, paths) && AreLabels(root) && DigestsAreText(tools)
    ensures AreLines(FileLines(tools, root, paths)) && NoRepeats(FileLines(tools, root, paths))
  {
    var lines := FileLines(tools, root, paths);
    forall i | 0 <= i < |lines| ensures IsLine(lines[i]) {
      FileEntryIsLine(tools, paths[i], paths[i], root[paths[i]], false);
    }
    forall i, j | 0 <= i < j < |lines| ensures lines[i] != lines[j] {
      if lines[i] == lines[j] {
        LineFixesFile(tools, paths[i], root[paths[i]], paths[i], paths[j], root[paths[j]], paths[j], false);
      }
    }
  }

  /** A file whose line is among the other package's lines is in it, alike. */
  lemma FileIsAmong(tools: Tools, root: Directory, paths: seq<Text>, root': Directory, paths': seq<Text>, path: Text)
    requires Lists(root, paths) && Lists(root', paths') && AreLabels(root) && AreLabels(root') && path in root
    requires multiset(FileLines(tools, root, paths)) == multiset(FileLines(tools, root', paths'))
    ensures path in root' && SameLine(tools, path, root[path], root'[path])
  {
    var (lines, lines') := (FileLines(tools, root, paths), FileLines(tools, root', paths'));
    var i :| 0 <= i < |paths| && paths[i] == path;
    assert lines[i] in multiset(lines);
    assert lines[i] in lines';
    var j :| 0 <= j < |lines'| && lines'[j] == lines[i];
    LineFixesFile(tools, path, root[path], path, paths'[j], root'[paths'[j]], paths'[j], false);
  }

  lemma SameFilesSameLines(tools: Tools, root: Directory, paths: seq<Text>, root': Directory, paths': seq<Text>)
    requires Lists(root, paths) && Lists(root', paths') && SameFiles(tools, root, root')
    ensures forall line :: line in FileLines(tools, root, paths) ==> line in FileLines(tools, root', paths')
  {
    var (lines, lines') := (FileLines(tools, root, paths), FileLines(tools, root', paths'));
    forall i | 0 <= i < |lines| ensures lines[i] in lines' {
      assert paths[i] in root && paths[i] in root' && SameLine(tools, paths[i], root[paths[i]], root'[paths[i]]);
      var j :| 0 <= j < |paths'| && paths'[j] == paths[i];
      assert lines'[j] == lines[i];
    }
  }

  lemma SameLinesSameFiles(tools: Tools, root: Directory, paths: seq<Text>, root': Directory, paths': seq<Text>)
    requires Lists(root, paths) && Lists(root', paths') && AreLabels(root) && AreLabels(root')
    requires multiset(FileLines(tools, root, paths)) == multiset(FileLines(tools, root', paths'))
    ensures SameFiles(tools, root, root')
  {
    forall path | path in root ensures path in root' && SameLine(tools, path, root[path], root'[path]) {
      FileIsAmong(tools, root, paths, root', paths', path);
    }
    forall path | path in root' ensures path in root {
      FileIsAmong(tools, root', paths', root, paths, path);
    }
  }

  lemma SameHashSameFiles(tools: Tools, root: Directory, paths: seq<Text>, root': Directory, paths': seq<Text>,
                          lines: seq<Text>, lines': seq<Text>)
    requires Lists(root, paths) && Lists(root', paths') && AreLabels(root) && AreLabels(root')
    requires lines == FileLines(tools, root, paths) && lines' == FileLines(tools, root', paths')
    requires AreLines(lines) && AreLines(lines') && Separates(tools, Digested(lines), Digested(lines'))
    requires DigestOf(tools, lines) == DigestOf(tools, lines')
    ensures SameFiles(tools, root, root')
  {
    DigestFixesLines(tools, lines, lines');
    SameLinesSameFiles(tools, root, paths, root', paths');
  }

  lemma SameFilesSameHash(tools: Tools, root: Directory, paths: seq<Text>, root': Directory, paths': seq<Text>)
    requires Lists(root, paths) && Lists(root', paths') && AreLabels(root) && AreLabels(root') && DigestsAreText(tools)
    requires SameFiles(tools, root, root')
    ensures DigestOf(tools, FileLines(tools, root, paths)) == DigestOf(tools, FileLines(tools, root', paths'))
  {
    FileLinesAreLines(tools, root, paths);
    FileLinesAreLines(tools, root', paths');
    SameFilesSameLines(tools, root, paths, root', paths');
    SameFilesSameLines(tools, root', paths', root, paths);
    SameMembersPermute(FileLines(tools, root, paths), FileLines(tools, root', paths'));
    DigestIgnoresOrder(tools, FileLines(tools, root, paths), FileLines(tools, root', paths'));
  }

  /**
   * Two packages have one content hash exactly when they have the same paths, executable bits and
   * digests of hashed bytes, however their files are listed.
   */
  lemma ContentHashIff(tools: Tools, root: Directory, paths: seq<Text>, root': Directory, paths': seq<Text>)
    requires Lists(root, paths) && Lists(root', paths') && AreLabels(root) && AreLabels(root') && DigestsAreText(tools)
    requires Separates(tools, Digested(FileLines(tools, root, paths)), Digested(FileLines(tools, root', paths')))
    ensures ContentHashOfDirectory(tools, root, paths) == ContentHashOfDirectory(tools, root', paths') <==>
      SameFiles(tools, root, root')
  {
    var (lines, lines') := (FileLines(tools, root, paths), FileLines(tools, root', paths'));
    if DigestOf(tools, lines) == DigestOf(tools, lines') {
      FileLinesAreLines(tools, root, paths);
      FileLinesAreLines(tools, root', paths');
      SameHashSameFiles(tools, root, paths, root', paths', lines, lines');
    }
    if SameFiles(tools, root, root') { SameFilesSameHash(tools, root, paths, root', paths'); }
  }
}
