/**
 * scripts/release/host-code-hash.ts: the worklist over the modules a host loads, and why its hash is
 * a function of the reachable files alone.
 */
module HostCode {
  import opened Wrappers
  import opened ByteStrings
  import opened Sequences
  import opened Utf8
  import opened Json
  import opened CanonicalJson
  import opened JsonSchemas
  import opened HashedManifests
  import opened HashedLines

  type Root = map<Text, File>
  type Roots = map<Text, Root>

  datatype Module = Module(name: Text, relative: Text)

  /** The import scanner on a script's bytes, and POSIX path joining and normalisation. */
  datatype Scanner = Scanner(imports: Bytes -> seq<Text>, joinFrom: (Text, Text) -> Text, normalize: Text -> Text)

  // ------------------------------------------------------------ resolution

  /** `specifier.split("/").slice(0, n).join("/")`. */
  function TakeParts(s: Text, n: nat): Text {
    if s == [] || n == 0 then []
    else if s[0] == '/' as int then (if n == 1 then [] else ['/' as int] + TakeParts(s[1..], n - 1))
    else [s[0]] + TakeParts(s[1..], n)
  }

  /** `specifier.split("/").slice(n).join("/")`, if there are more than `n` parts. */
  function DropParts(s: Text, n: nat): Option<Text> {
    if n == 0 then Some(s)
    else if s == [] then None
    else if s[0] == '/' as int then DropParts(s[1..], n - 1)
    else DropParts(s[1..], n)
  }

  /** `importCondition`. */
  function ImportCondition(entry: Option<Value>): Option<Text> {
    match entry
    case Some(Str(target)) => Some(target)
    case Some(Obj(conditions)) => TextAt(conditions, Ascii("import"))
    case _ => None
  }

  function ExportOf(manifest: seq<Field>, subpath: Text): Option<Text> {
    match Lookup(manifest, Ascii("exports"))
    case Some(Obj(exports)) => ImportCondition(Lookup(exports, subpath))
    case _ => None
  }

  /** `exportTarget`, from the root's package.json. */
  function ExportTarget(tools: Tools, root: Root, subpath: Text): Option<Text> {
    if Ascii("package.json") !in root then None
    else
      match tools.parse(root[Ascii("package.json")].bytes)
      case Obj(manifest) => ExportOf(manifest, subpath)
      case _ => None
  }

  function Resolve(tools: Tools, scanner: Scanner, roots: Roots, from: Module, specifier: Text): Option<Module> {
    if Ascii(".") <= specifier then Some(Module(from.name, scanner.joinFrom(from.relative, specifier)))
    else
      var name := TakeParts(specifier, 2);
      if name !in roots then None
      else
        var subpath := match DropParts(specifier, 2)
          case Some(rest) => Ascii("./") + rest
          case None => Ascii(".");
        match ExportTarget(tools, roots[name], subpath)
        case Some(target) => Some(Module(name, scanner.normalize(target)))
        case None => None
  }

  predicate Exists(roots: Roots, m: Module) {
    m.name in roots && m.relative in roots[m.name]
  }

  predicate EndsWith(s: Text, suffix: Text) {
    |suffix| <= |s| && s[|s| - |suffix|..] == suffix
  }

  /** `/\.[cm]?js$/`. */
  predicate IsScript(path: Text) {
    EndsWith(path, Ascii(".js")) || EndsWith(path, Ascii(".cjs")) || EndsWith(path, Ascii(".mjs"))
  }

  function Targets(tools: Tools, scanner: Scanner, roots: Roots, from: Module, specifiers: seq<Text>): seq<Module> {
    if specifiers == [] then []
    else
      var rest := Targets(tools, scanner, roots, from, specifiers[1..]);
      match Resolve(tools, scanner, roots, from, specifiers[0])
      case Some(target) => if Exists(roots, target) then [target] + rest else rest
      case None => rest
  }

  /** `importedModules`; only existing modules are ever asked for. */
  function ImportedModules(tools: Tools, scanner: Scanner, roots: Roots, m: Module): seq<Module> {
    if !Exists(roots, m) || !IsScript(m.relative) then []
    else Targets(tools, scanner, roots, m, scanner.imports(roots[m.name][m.relative].bytes))
  }

  lemma {:induction false} TargetsExist(tools: Tools, scanner: Scanner, roots: Roots, from: Module,
                                        specifiers: seq<Text>, m: Module)
    requires m in Targets(tools, scanner, roots, from, specifiers)
    ensures Exists(roots, m)
  {
    if m in Targets(tools, scanner, roots, from, specifiers[1..]) {
      TargetsExist(tools, scanner, roots, from, specifiers[1..], m);
    }
  }

  // ----------------------------------------------------------- reachability

  /** A chain of imports that starts at a file of the host package. */
  ghost predicate IsChain(tools: Tools, scanner: Scanner, roots: Roots, host: Text, chain: seq<Module>) {
    && chain != [] && Exists(roots, chain[|chain| - 1])
    && if |chain| == 1 then chain[0].name == host
       else
         IsChain(tools, scanner, roots, host, chain[..|chain| - 1])
         && chain[|chain| - 1] in ImportedModules(tools, scanner, roots, chain[|chain| - 2])
  }

  ghost predicate IsReachable(tools: Tools, scanner: Scanner, roots: Roots, host: Text, m: Module) {
    exists chain :: IsChain(tools, scanner, roots, host, chain) && chain[|chain| - 1] == m
  }

  lemma HostFileIsReachable(tools: Tools, scanner: Scanner, roots: Roots, host: Text, m: Module)
    requires Exists(roots, m) && m.name == host
    ensures IsReachable(tools, scanner, roots, host, m)
  {
    assert IsChain(tools, scanner, roots, host, [m]);
  }

  lemma ImportIsReachable(tools: Tools, scanner: Scanner, roots: Roots, host: Text, m: Module, n: Module)
    requires IsReachable(tools, scanner, roots, host, m) && Exists(roots, m)
    requires n in ImportedModules(tools, scanner, roots, m)
    ensures Exists(roots, n) && IsReachable(tools, scanner, roots, host, n)
  {
    TargetsExist(tools, scanner, roots, m, scanner.imports(roots[m.name][m.relative].bytes), n);
    var chain :| IsChain(tools, scanner, roots, host, chain) && chain[|chain| - 1] == m;
    var longer := chain + [n];
    assert longer[..|longer| - 1] == chain && longer[|longer| - 1] == n && longer[|longer| - 2] == m;
    assert IsChain(tools, scanner, roots, host, longer);
  }

  /** Contains the host's files and what its modules import. */
  ghost predicate IsClosed(tools: Tools, scanner: Scanner, roots: Roots, host: Text, modules: set<Module>) {
    && (forall m :: Exists(roots, m) && m.name == host ==> m in modules)
    && (forall m, n :: m in modules && Exists(roots, m) && n in ImportedModules(tools, scanner, roots, m) ==>
        n in modules)
  }

  lemma {:induction false} ClosedHasChain(tools: Tools, scanner: Scanner, roots: Roots, host: Text,
                                          modules: set<Module>, chain: seq<Module>)
    requires IsClosed(tools, scanner, roots, host, modules) && IsChain(tools, scanner, roots, host, chain)
    ensures chain[|chain| - 1] in modules
  {
    if |chain| > 1 { ClosedHasChain(tools, scanner, roots, host, modules, chain[..|chain| - 1]); }
  }

  lemma ClosedHasReachable(tools: Tools, scanner: Scanner, roots: Roots, host: Text, modules: set<Module>, m: Module)
    requires IsClosed(tools, scanner, roots, host, modules) && IsReachable(tools, scanner, roots, host, m)
    ensures m in modules
  {
    var chain :| IsChain(tools, scanner, roots, host, chain) && chain[|chain| - 1] == m;
    ClosedHasChain(tools, scanner, roots, host, modules, chain);
  }

  // ------------------------------------------------------------------ labels

  function Label(m: Module): Text {
    m.name + ['/' as int] + m.relative
  }

  function Slashes(s: Text): nat {
    if s == [] then 0 else (if s[0] == '/' as int then 1 else 0) + Slashes(s[1..])
  }

  /** Package names are scoped: `@scope/name`. */
  ghost predicate AreScoped(roots: Roots) {
    forall name :: name in roots ==> Slashes(name) == 1
  }

  lemma {:induction false} NameOfLabel(name: Text, relative: Text, n: nat)
    requires Slashes(name) + 1 == n
    ensures TakeParts(name + (['/' as int] + relative), n) == name
  {
    var s := name + (['/' as int] + relative);
    if name == [] {
      assert s == ['/' as int] + relative;
    } else {
      assert s[0] == name[0] && s[1..] == name[1..] + (['/' as int] + relative);
      NameOfLabel(name[1..], relative, if name[0] == '/' as int then n - 1 else n);
      assert name == [name[0]] + name[1..];
    }
  }

  /** A label names one file: the second slash ends the package name. */
  lemma LabelIsInjective(m: Module, n: Module)
    requires Slashes(m.name) == 1 && Slashes(n.name) == 1 && Label(m) == Label(n)
    ensures m == n
  {
    assert Label(m) == m.name + (['/' as int] + m.relative) && Label(n) == n.name + (['/' as int] + n.relative);
    NameOfLabel(m.name, m.relative, 2);
    NameOfLabel(n.name, n.relative, 2);
    assert Label(m)[|m.name| + 1..] == m.relative && Label(n)[|n.name| + 1..] == n.relative;
  }

  // ---------------------------------------------------------------- worklist

  function EntryOf(tools: Tools, roots: Roots, m: Module): Text {
    if !Exists(roots, m) then []
    else FileEntry(tools, m.relative, Label(m), roots[m.name][m.relative], true)
  }

  function Entries(tools: Tools, roots: Roots, modules: seq<Module>): seq<Text> {
    if modules == [] then []
    else Entries(tools, roots, modules[..|modules| - 1]) + [EntryOf(tools, roots, modules[|modules| - 1])]
  }

  /** Each reachable module, once, in some order. */
  ghost predicate Enumerates(tools: Tools, scanner: Scanner, roots: Roots, host: Text, visited: seq<Module>) {
    NoRepeats(visited) && forall m :: m in visited <==> IsReachable(tools, scanner, roots, host, m)
  }

  ghost function Universe(roots: Roots): set<Module> {
    set name, relative | name in roots && relative in roots[name] :: Module(name, relative)
  }

  /** What the visited modules import, and the host's files, are visited or pending. */
  ghost predicate IsCovered(tools: Tools, scanner: Scanner, roots: Roots, host: Text, pending: seq<Module>,
                            visited: seq<Module>) {
    && (forall m :: Exists(roots, m) && m.name == host ==> m in pending || m in visited)
    && (forall m, n :: m in visited && Exists(roots, m) && n in ImportedModules(tools, scanner, roots, m) ==>
          n in pending || n in visited)
  }

  ghost predicate AllReachable(tools: Tools, scanner: Scanner, roots: Roots, host: Text, modules: seq<Module>) {
    forall i :: 0 <= i < |modules| ==> Exists(roots, modules[i]) && IsReachable(tools, scanner, roots, host, modules[i])
  }

  /** What holds between two turns of the worklist. */
  ghost predicate Progress(tools: Tools, scanner: Scanner, roots: Roots, host: Text, pending: seq<Module>,
                           visited: seq<Module>) {
    && AllReachable(tools, scanner, roots, host, pending) && AllReachable(tools, scanner, roots, host, visited)
    && NoRepeats(visited) && IsCovered(tools, scanner, roots, host, pending, visited)
  }

  lemma StillCovered(tools: Tools, scanner: Scanner, roots: Roots, host: Text, rest: seq<Module>, m: Module,
                     visited: seq<Module>)
    requires IsCovered(tools, scanner, roots, host, rest + [m], visited) && m in visited
    ensures IsCovered(tools, scanner, roots, host, rest, visited)
  {
    assert forall n :: n in rest + [m] <==> n in rest || n == m;
  }

  lemma VisitCovers(tools: Tools, scanner: Scanner, roots: Roots, host: Text, rest: seq<Module>, m: Module,
                    visited: seq<Module>)
    requires IsCovered(tools, scanner, roots, host, rest + [m], visited) && Exists(roots, m)
    ensures IsCovered(tools, scanner, roots, host, rest + ImportedModules(tools, scanner, roots, m), visited + [m])
  {
    var imported := ImportedModules(tools, scanner, roots, m);
    assert forall n :: n in rest + [m] <==> n in rest || n == m;
    assert forall n :: n in rest + imported <==> n in rest || n in imported;
    assert forall n :: n in visited + [m] <==> n in visited || n == m;
  }

  lemma ImportsAreReachable(tools: Tools, scanner: Scanner, roots: Roots, host: Text, m: Module)
    requires Exists(roots, m) && IsReachable(tools, scanner, roots, host, m)
    ensures AllReachable(tools, scanner, roots, host, ImportedModules(tools, scanner, roots, m))
  {
    var imported := ImportedModules(tools, scanner, roots, m);
    forall i | 0 <= i < |imported|
      ensures Exists(roots, imported[i]) && IsReachable(tools, scanner, roots, host, imported[i])
    {
      ImportIsReachable(tools, scanner, roots, host, m, imported[i]);
    }
  }

  /** One turn that visits a module. */
  lemma Visit(tools: Tools, scanner: Scanner, roots: Roots, host: Text, rest: seq<Module>, m: Module,
              visited: seq<Module>)
    requires Progress(tools, scanner, roots, host, rest + [m], visited) && m !in visited
    ensures Exists(roots, m)
    ensures Progress(tools, scanner, roots, host, rest + ImportedModules(tools, scanner, roots, m), visited + [m])
  {
    assert (rest + [m])[|rest|] == m;
    assert forall i :: 0 <= i < |rest| ==> (rest + [m])[i] == rest[i];
    ImportsAreReachable(tools, scanner, roots, host, m);
    VisitCovers(tools, scanner, roots, host, rest, m, visited);
  }

  lemma ExistsLast(tools: Tools, scanner: Scanner, roots: Roots, host: Text, rest: seq<Module>, m: Module,
                   visited: seq<Module>)
    requires Progress(tools, scanner, roots, host, rest + [m], visited)
    ensures Exists(roots, m)
  {
    assert (rest + [m])[|rest|] == m;
  }

  lemma Skip(tools: Tools, scanner: Scanner, roots: Roots, host: Text, rest: seq<Module>, m: Module,
             visited: seq<Module>)
    requires Progress(tools, scanner, roots, host, rest + [m], visited) && m in visited
    ensures Progress(tools, scanner, roots, host, rest, visited)
  {
    assert forall i :: 0 <= i < |rest| ==> (rest + [m])[i] == rest[i];
    StillCovered(tools, scanner, roots, host, rest, m, visited);
  }

  /** Nothing pending: the visited modules are the reachable ones. */
  lemma Finished(tools: Tools, scanner: Scanner, roots: Roots, host: Text, visited: seq<Module>)
    requires Progress(tools, scanner, roots, host, [], visited)
    ensures Enumerates(tools, scanner, roots, host, visited)
  {
    var modules := set m | m in visited;
    forall m | IsReachable(tools, scanner, roots, host, m) ensures m in visited {
      ClosedHasReachable(tools, scanner, roots, host, modules, m);
    }
    forall m | m in visited ensures IsReachable(tools, scanner, roots, host, m) {
      var i :| 0 <= i < |visited| && visited[i] == m;
    }
  }

  lemma Start(tools: Tools, scanner: Scanner, roots: Roots, host: Text, files: seq<Text>)
    requires host in roots && forall path :: path in files <==> path in roots[host]
    ensures Progress(tools, scanner, roots, host, HostModules(host, files), [])
  {
    var pending := HostModules(host, files);
    forall i | 0 <= i < |pending|
      ensures Exists(roots, pending[i]) && IsReachable(tools, scanner, roots, host, pending[i])
    {
      assert pending[i].relative == files[i] && files[i] in files;
      HostFileIsReachable(tools, scanner, roots, host, pending[i]);
    }
    forall m | Exists(roots, m) && m.name == host ensures m in pending {
      var i :| 0 <= i < |files| && files[i] == m.relative;
      assert pending[i] == m;
    }
  }

  function HostModules(host: Text, files: seq<Text>): seq<Module> {
    seq(|files|, i requires 0 <= i < |files| => Module(host, files[i]))
  }

  /** The labels seen are those of the visited modules. */
  ghost predicate IsSeen(roots: Roots, seen: set<Text>, visited: seq<Module>) {
    forall m :: Exists(roots, m) ==> (Label(m) in seen <==> m in visited)
  }

  lemma SeeOne(roots: Roots, seen: set<Text>, visited: seq<Module>, m: Module)
    requires AreScoped(roots) && Exists(roots, m) && IsSeen(roots, seen, visited)
    ensures IsSeen(roots, seen + {Label(m)}, visited + [m])
  {
    forall n | Exists(roots, n) ensures Label(n) in seen + {Label(m)} <==> n in visited + [m] {
      if Label(n) == Label(m) { LabelIsInjective(m, n); }
    }
  }

  ghost predicate AreUnseen(roots: Roots, unseen: set<Module>, visited: seq<Module>) {
    forall m :: m in unseen <==> Exists(roots, m) && m !in visited
  }

  lemma UnseenAtStart(roots: Roots) returns (unseen: set<Module>)
    ensures AreUnseen(roots, unseen, [])
  {
    unseen := Universe(roots);
    forall m | Exists(roots, m) ensures m in unseen {
      assert m == Module(m.name, m.relative);
    }
  }

  lemma UnseenShrinks(roots: Roots, unseen: set<Module>, visited: seq<Module>, m: Module)
    requires AreUnseen(roots, unseen, visited) && Exists(roots, m) && m !in visited
    ensures m in unseen && AreUnseen(roots, unseen - {m}, visited + [m])
  {
    assert forall n :: n in visited + [m] <==> n in visited || n == m;
  }

  lemma EntriesGrow(tools: Tools, roots: Roots, visited: seq<Module>, m: Module)
    ensures Entries(tools, roots, visited + [m]) == Entries(tools, roots, visited) + [EntryOf(tools, roots, m)]
  {
    assert (visited + [m])[..|visited|] == visited;
  }

  /** The worklist's state: what is pending, seen and visited, and what is left to visit. */
  ghost predicate IsState(tools: Tools, scanner: Scanner, roots: Roots, host: Text,
                          pending: seq<Module>, visited: seq<Module>, seen: set<Text>, unseen: set<Module>) {
    && AreScoped(roots) && Progress(tools, scanner, roots, host, pending, visited)
    && IsSeen(roots, seen, visited) && AreUnseen(roots, unseen, visited)
  }

  lemma SkipTurn(tools: Tools, scanner: Scanner, roots: Roots, host: Text, pending: seq<Module>, rest: seq<Module>,
                 next: Module, visited: seq<Module>, seen: set<Text>, unseen: set<Module>)
    requires IsState(tools, scanner, roots, host, pending, visited, seen, unseen)
    requires pending == rest + [next] && Label(next) in seen
    ensures IsState(tools, scanner, roots, host, rest, visited, seen, unseen)
  {
    Respelled(tools, scanner, roots, host, pending, rest + [next], visited, seen, unseen);
    SkipLast(tools, scanner, roots, host, rest, next, visited, seen, unseen);
  }

  lemma SkipLast(tools: Tools, scanner: Scanner, roots: Roots, host: Text, rest: seq<Module>, next: Module,
                 visited: seq<Module>, seen: set<Text>, unseen: set<Module>)
    requires IsState(tools, scanner, roots, host, rest + [next], visited, seen, unseen) && Label(next) in seen
    ensures IsState(tools, scanner, roots, host, rest, visited, seen, unseen)
  {
    ExistsLast(tools, scanner, roots, host, rest, next, visited);
    Skip(tools, scanner, roots, host, rest, next, visited);
  }

  /** One turn that visits the module taken from the end. */
  lemma VisitLast(tools: Tools, scanner: Scanner, roots: Roots, host: Text, rest: seq<Module>, next: Module,
                  visited: seq<Module>, seen: set<Text>, unseen: set<Module>)
    requires IsState(tools, scanner, roots, host, rest + [next], visited, seen, unseen) && Label(next) !in seen
    ensures IsState(tools, scanner, roots, host, rest + ImportedModules(tools, scanner, roots, next),
                    visited + [next], seen + {Label(next)}, unseen - {next})
    ensures next in unseen
  {
    NextIsNew(tools, scanner, roots, host, rest, next, visited, seen);
    Visit(tools, scanner, roots, host, rest, next, visited);
    SeeOne(roots, seen, visited, next);
    UnseenShrinks(roots, unseen, visited, next);
  }

  lemma SplitLast(pending: seq<Module>)
    requires pending != []
    ensures pending == pending[..|pending| - 1] + [pending[|pending| - 1]]
  {
  }

  lemma Respelled(tools: Tools, scanner: Scanner, roots: Roots, host: Text, pending: seq<Module>, split: seq<Module>,
                  visited: seq<Module>, seen: set<Text>, unseen: set<Module>)
    requires IsState(tools, scanner, roots, host, pending, visited, seen, unseen) && split == pending
    ensures IsState(tools, scanner, roots, host, split, visited, seen, unseen)
  {
  }

  lemma VisitTurn(tools: Tools, scanner: Scanner, roots: Roots, host: Text, pending: seq<Module>, rest: seq<Module>,
                  next: Module, visited: seq<Module>, seen: set<Text>, unseen: set<Module>)
    requires IsState(tools, scanner, roots, host, pending, visited, seen, unseen)
    requires pending == rest + [next] && Label(next) !in seen
    ensures IsState(tools, scanner, roots, host, rest + ImportedModules(tools, scanner, roots, next),
                    visited + [next], seen + {Label(next)}, unseen - {next})
    ensures next in unseen
  {
    Respelled(tools, scanner, roots, host, pending, rest + [next], visited, seen, unseen);
    VisitLast(tools, scanner, roots, host, rest, next, visited, seen, unseen);
  }

  lemma NextIsNew(tools: Tools, scanner: Scanner, roots: Roots, host: Text, rest: seq<Module>, m: Module,
                  visited: seq<Module>, seen: set<Text>)
    requires Progress(tools, scanner, roots, host, rest + [m], visited) && IsSeen(roots, seen, visited)
      && Label(m) !in seen
    ensures Exists(roots, m) && m !in visited
  {
    ExistsLast(tools, scanner, roots, host, rest, m, visited);
  }

  // ------------------------------------------------- the hash is a function

  lemma {:induction false} EntriesAppend(tools: Tools, roots: Roots, a: seq<Module>, b: seq<Module>)
    ensures Entries(tools, roots, a + b) == Entries(tools, roots, a) + Entries(tools, roots, b)
  {
    if b == [] {
      assert a + b == a;
    } else {
      assert (a + b)[..|a + b| - 1] == a + b[..|b| - 1];
      EntriesAppend(tools, roots, a, b[..|b| - 1]);
    }
  }

  lemma {:induction false} EntriesOfPermutation(tools: Tools, roots: Roots, a: seq<Module>, b: seq<Module>)
    requires multiset(a) == multiset(b)
    ensures multiset(Entries(tools, roots, a)) == multiset(Entries(tools, roots, b))
    decreases |a|
  {
    assert |multiset(a)| == |a| && |multiset(b)| == |b|;
    if a != [] {
      assert a[0] in multiset(b);
      var i :| 0 <= i < |b| && b[i] == a[0];
      SplitAt(b, i);
      SplitAt(a, 0);
      var others := b[..i] + b[i + 1..];
      assert a[..0] + a[1..] == a[1..];
      EntriesOfPermutation(tools, roots, a[1..], others);
      EntriesSplit(tools, roots, b[..i], b[i], b[i + 1..]);
      EntriesSplit(tools, roots, a[..0], a[0], a[1..]);
    }
  }

  lemma EntriesSplit(tools: Tools, roots: Roots, a: seq<Module>, m: Module, b: seq<Module>)
    ensures multiset(Entries(tools, roots, a + ([m] + b))) ==
      multiset(Entries(tools, roots, a + b)) + multiset(Entries(tools, roots, [m]))
  {
    EntriesAppend(tools, roots, [m], b);
    EntriesAppend(tools, roots, a, [m] + b);
    EntriesAppend(tools, roots, a, b);
    MultisetOfSplit(Entries(tools, roots, a), Entries(tools, roots, [m]), Entries(tools, roots, b));
  }

  /** Any two enumerations of the reachable modules, from any listing and visiting order, have one digest. */
  lemma HashIgnoresVisitingOrder(tools: Tools, scanner: Scanner, roots: Roots, host: Text, a: seq<Module>,
                                 b: seq<Module>)
    requires Enumerates(tools, scanner, roots, host, a) && Enumerates(tools, scanner, roots, host, b)
    ensures DigestOf(tools, Entries(tools, roots, a)) == DigestOf(tools, Entries(tools, roots, b))
  {
    SameMembersPermute(a, b);
    EntriesOfPermutation(tools, roots, a, b);
    DigestIgnoresOrder(tools, Entries(tools, roots, a), Entries(tools, roots, b));
  }

  // ------------------------------------------------------------ the method

  /**
   * `hostCodeHashOfDirectories`: terminates on any import graph, cyclic or not, and digests one line
   * for each reachable module, whatever the order of the host's listing `files` and of the visits.
   */
  method HostCodeHash(tools: Tools, scanner: Scanner, roots: Roots, host: Text, files: seq<Text>)
    returns (hash: Text)
    requires host in roots && AreScoped(roots) && forall path :: path in files <==> path in roots[host]
    ensures exists visited :: Enumerates(tools, scanner, roots, host, visited)
    ensures forall visited :: Enumerates(tools, scanner, roots, host, visited) ==>
      hash == DigestOf(tools, Entries(tools, roots, visited))
  {
    var entries;
    ghost var order;
    entries, order := HostEntries(tools, scanner, roots, host, files);
    hash := ComputeDigest(tools, entries);
    forall visited | Enumerates(tools, scanner, roots, host, visited)
      ensures hash == DigestOf(tools, Entries(tools, roots, visited))
    {
      HashIgnoresVisitingOrder(tools, scanner, roots, host, order, visited);
    }
  }

  method HostEntries(tools: Tools, scanner: Scanner, roots: Roots, host: Text, files: seq<Text>)
    returns (entries: seq<Text>, ghost visited: seq<Module>)
    requires host in roots && AreScoped(roots) && forall path :: path in files <==> path in roots[host]
    ensures Enumerates(tools, scanner, roots, host, visited)
    ensures entries == Entries(tools, roots, visited)
  {
    var pending := HostModules(host, files);
    var seen: set<Text> := {};
    entries, visited := [], [];
    ghost var unseen := UnseenAtStart(roots);
    Start(tools, scanner, roots, host, files);
    while pending != []
      invariant IsState(tools, scanner, roots, host, pending, visited, seen, unseen)
      invariant entries == Entries(tools, roots, visited)
      decreases |unseen|, |pending|
    {
      var rest, next := pending[..|pending| - 1], pending[|pending| - 1];
      SplitLast(pending);
      if Label(next) in seen {
        SkipTurn(tools, scanner, roots, host, pending, rest, next, visited, seen, unseen);
        pending := rest;
      } else {
        VisitTurn(tools, scanner, roots, host, pending, rest, next, visited, seen, unseen);
        EntriesGrow(tools, roots, visited, next);
        seen := seen + {Label(next)};
        entries := entries + [EntryOf(tools, roots, next)];
        visited := visited + [next];
        unseen := unseen - {next};
        pending := rest + ImportedModules(tools, scanner, roots, next);
      }
    }
    Finished(tools, scanner, roots, host, visited);
  }

  // ----------------------------------------------- equal code, equal hash

  /** The same line and the same imports in both package sets. */
  ghost predicate IsSameModule(tools: Tools, scanner: Scanner, roots: Roots, roots': Roots, m: Module) {
    && Exists(roots', m) && EntryOf(tools, roots', m) == EntryOf(tools, roots, m)
    && ImportedModules(tools, scanner, roots', m) == ImportedModules(tools, scanner, roots, m)
  }

  /** The same host files, and the same modules wherever the host's imports reach. */
  ghost predicate HasSameCode(tools: Tools, scanner: Scanner, roots: Roots, roots': Roots, host: Text) {
    && (forall m: Module :: m.name == host ==> (Exists(roots', m) <==> Exists(roots, m)))
    && (forall m :: IsReachable(tools, scanner, roots, host, m) ==> IsSameModule(tools, scanner, roots, roots', m))
  }

  lemma ChainSnoc(tools: Tools, scanner: Scanner, roots: Roots, host: Text, before: seq<Module>, last: Module)
    requires before != []
    ensures IsChain(tools, scanner, roots, host, before + [last]) <==>
      Exists(roots, last) && IsChain(tools, scanner, roots, host, before)
      && last in ImportedModules(tools, scanner, roots, before[|before| - 1])
  {
    var chain := before + [last];
    assert chain[..|chain| - 1] == before && chain[|chain| - 1] == last && chain[|chain| - 2] == before[|before| - 1];
  }

  lemma {:induction false} ChainTransfers(tools: Tools, scanner: Scanner, roots: Roots, roots': Roots, host: Text,
                                          chain: seq<Module>)
    requires HasSameCode(tools, scanner, roots, roots', host) && chain != []
    ensures IsChain(tools, scanner, roots', host, chain) <==> IsChain(tools, scanner, roots, host, chain)
  {
    if |chain| > 1 {
      var before, last := chain[..|chain| - 1], chain[|chain| - 1];
      SplitLast(chain);
      ChainTransfers(tools, scanner, roots, roots', host, before);
      ChainSnoc(tools, scanner, roots, host, before, last);
      ChainSnoc(tools, scanner, roots', host, before, last);
      if IsChain(tools, scanner, roots, host, before) {
        LinkTransfers(tools, scanner, roots, roots', host, before[|before| - 1], last);
      }
    }
  }

  lemma LinkTransfers(tools: Tools, scanner: Scanner, roots: Roots, roots': Roots, host: Text, m: Module, n: Module)
    requires HasSameCode(tools, scanner, roots, roots', host) && IsReachable(tools, scanner, roots, host, m)
    requires Exists(roots, m)
    ensures n in ImportedModules(tools, scanner, roots', m) <==> n in ImportedModules(tools, scanner, roots, m)
    ensures n in ImportedModules(tools, scanner, roots, m) ==> Exists(roots, n) && Exists(roots', n)
  {
    assert IsSameModule(tools, scanner, roots, roots', m);
    if n in ImportedModules(tools, scanner, roots, m) {
      ImportIsReachable(tools, scanner, roots, host, m, n);
      assert IsSameModule(tools, scanner, roots, roots', n);
    }
  }

  lemma ReachableTransfers(tools: Tools, scanner: Scanner, roots: Roots, roots': Roots, host: Text, m: Module)
    requires HasSameCode(tools, scanner, roots, roots', host)
    ensures IsReachable(tools, scanner, roots', host, m) <==> IsReachable(tools, scanner, roots, host, m)
  {
    if chain :| IsChain(tools, scanner, roots, host, chain) && chain[|chain| - 1] == m {
      ChainTransfers(tools, scanner, roots, roots', host, chain);
    }
    if chain :| IsChain(tools, scanner, roots', host, chain) && chain[|chain| - 1] == m {
      ChainTransfers(tools, scanner, roots, roots', host, chain);
    }
  }

  lemma {:induction false} SameEntries(tools: Tools, roots: Roots, roots': Roots, modules: seq<Module>)
    requires forall i :: 0 <= i < |modules| ==> EntryOf(tools, roots', modules[i]) == EntryOf(tools, roots, modules[i])
    ensures Entries(tools, roots', modules) == Entries(tools, roots, modules)
  {
    if modules != [] { SameEntries(tools, roots, roots', modules[..|modules| - 1]); }
  }

  /**
   * Package sets in which the reachable modules are the same have the same hash, whatever else their
   * packages hold: files that no import reaches do not count.
   */
  lemma SameCodeSameHash(tools: Tools, scanner: Scanner, roots: Roots, roots': Roots, host: Text, a: seq<Module>,
                         b: seq<Module>)
    requires HasSameCode(tools, scanner, roots, roots', host)
    requires Enumerates(tools, scanner, roots, host, a) && Enumerates(tools, scanner, roots', host, b)
    ensures DigestOf(tools, Entries(tools, roots', b)) == DigestOf(tools, Entries(tools, roots, a))
  {
    forall m ensures m in b <==> m in a {
      ReachableTransfers(tools, scanner, roots, roots', host, m);
    }
    forall i | 0 <= i < |b| ensures EntryOf(tools, roots', b[i]) == EntryOf(tools, roots, b[i]) {
      assert b[i] in a && IsSameModule(tools, scanner, roots, roots', b[i]);
    }
    SameEntries(tools, roots, roots', b);
    SameMembersPermute(b, a);
    EntriesOfPermutation(tools, roots, b, a);
    DigestIgnoresOrder(tools, Entries(tools, roots', b), Entries(tools, roots, a));
  }

  // ----------------------------------------------- equal hash, equal code

  lemma {:induction false} EntriesAt(tools: Tools, roots: Roots, modules: seq<Module>, i: nat)
    requires i < |modules|
    ensures |Entries(tools, roots, modules)| == |modules|
    ensures Entries(tools, roots, modules)[i] == EntryOf(tools, roots, modules[i])
  {
    if |modules| > 1 { EntriesAt(tools, roots, modules[..|modules| - 1], if i < |modules| - 1 then i else 0); }
  }

  /** Labels are paths, without a NUL or a line feed. */
  ghost predicate HaveLabels(roots: Roots) {
    forall m :: Exists(roots, m) ==> IsLabel(Label(m))
  }

  ghost predicate AllExist(roots: Roots, modules: seq<Module>) {
    forall m :: m in modules ==> Exists(roots, m)
  }

  lemma EnumeratedExist(tools: Tools, scanner: Scanner, roots: Roots, host: Text, visited: seq<Module>)
    requires Enumerates(tools, scanner, roots, host, visited)
    ensures AllExist(roots, visited)
  {
    forall m | m in visited ensures Exists(roots, m) {
      var chain :| IsChain(tools, scanner, roots, host, chain) && chain[|chain| - 1] == m;
    }
  }

  lemma EntriesAreLines(tools: Tools, roots: Roots, modules: seq<Module>)
    requires HaveLabels(roots) && DigestsAreText(tools) && AllExist(roots, modules)
    ensures AreLines(Entries(tools, roots, modules))
  {
    var lines := Entries(tools, roots, modules);
    if modules != [] { EntriesAt(tools, roots, modules, 0); }
    forall i | 0 <= i < |lines| ensures IsLine(lines[i]) {
      var m := modules[i];
      EntriesAt(tools, roots, modules, i);
      FileEntryIsLine(tools, m.relative, Label(m), roots[m.name][m.relative], true);
    }
  }

  /** The same executable bit, and the same digest of what is hashed of the file. */
  ghost predicate IsHashedAlike(tools: Tools, roots: Roots, roots': Roots, m: Module)
    requires Exists(roots, m) && Exists(roots', m)
  {
    var (file, file') := (roots[m.name][m.relative], roots'[m.name][m.relative]);
    && file.executable == file'.executable
    && tools.digest(HashedBytes(tools, m.relative, file.bytes, true)) ==
         tools.digest(HashedBytes(tools, m.relative, file'.bytes, true))
  }

  lemma EntryFixesModule(tools: Tools, roots: Roots, roots': Roots, m: Module, n: Module)
    requires AreScoped(roots) && AreScoped(roots') && HaveLabels(roots) && HaveLabels(roots')
    requires Exists(roots, m) && Exists(roots', n) && EntryOf(tools, roots, m) == EntryOf(tools, roots', n)
    ensures m == n && IsHashedAlike(tools, roots, roots', m)
  {
    LineFixesFile(tools, m.relative, roots[m.name][m.relative], Label(m), n.relative, roots'[n.name][n.relative],
                  Label(n), true);
    LabelIsInjective(m, n);
  }

  lemma EntryIsAmong(tools: Tools, roots: Roots, a: seq<Module>, roots': Roots, b: seq<Module>, m: Module)
    requires AreScoped(roots) && AreScoped(roots') && HaveLabels(roots) && HaveLabels(roots')
    requires AllExist(roots, a) && AllExist(roots', b) && m in a
    requires multiset(Entries(tools, roots, a)) == multiset(Entries(tools, roots', b))
    ensures m in b && IsHashedAlike(tools, roots, roots', m)
  {
    var (lines, lines') := (Entries(tools, roots, a), Entries(tools, roots', b));
    var i :| 0 <= i < |a| && a[i] == m;
    EntriesAt(tools, roots, a, i);
    assert lines[i] in multiset(lines);
    assert lines[i] in lines';
    var j :| 0 <= j < |lines'| && lines'[j] == lines[i];
    if b != [] { EntriesAt(tools, roots', b, 0); }
    EntriesAt(tools, roots', b, j);
    EntryFixesModule(tools, roots, roots', m, b[j]);
  }

  /**
   * A changed module changes the hash: package sets with one hash have the same reachable modules, each
   * with the same executable bit and the same digest of its hashed bytes, unless the digested lines collide.
   */
  lemma SameHashSameCode(tools: Tools, scanner: Scanner, roots: Roots, roots': Roots, host: Text, a: seq<Module>,
                         b: seq<Module>)
    requires AreScoped(roots) && AreScoped(roots') && HaveLabels(roots) && HaveLabels(roots') && DigestsAreText(tools)
    requires Enumerates(tools, scanner, roots, host, a) && Enumerates(tools, scanner, roots', host, b)
    requires Separates(tools, Digested(Entries(tools, roots, a)), Digested(Entries(tools, roots', b)))
    requires DigestOf(tools, Entries(tools, roots, a)) == DigestOf(tools, Entries(tools, roots', b))
    ensures forall m :: IsReachable(tools, scanner, roots, host, m) <==> IsReachable(tools, scanner, roots', host, m)
    ensures forall m :: m in a ==> Exists(roots, m) && Exists(roots', m) && IsHashedAlike(tools, roots, roots', m)
  {
    EnumeratedExist(tools, scanner, roots, host, a);
    EnumeratedExist(tools, scanner, roots', host, b);
    EntriesAreLines(tools, roots, a);
    EntriesAreLines(tools, roots', b);
    DigestFixesLines(tools, Entries(tools, roots, a), Entries(tools, roots', b));
    forall m | m in a ensures m in b && IsHashedAlike(tools, roots, roots', m) {
      EntryIsAmong(tools, roots, a, roots', b, m);
    }
    forall m | m in b ensures m in a {
      EntryIsAmong(tools, roots', b, roots, a, m);
    }
    forall m ensures IsReachable(tools, scanner, roots, host, m) <==> IsReachable(tools, scanner, roots', host, m) {
      assert m in a <==> IsReachable(tools, scanner, roots, host, m);
      assert m in b <==> IsReachable(tools, scanner, roots', host, m);
    }
  }

  /** So, without a collision, a file of a reachable module other than a manifest is byte for byte the same. */
  lemma SameHashSameBytes(tools: Tools, scanner: Scanner, roots: Roots, roots': Roots, host: Text, a: seq<Module>,
                          b: seq<Module>, m: Module)
    requires AreScoped(roots) && AreScoped(roots') && HaveLabels(roots) && HaveLabels(roots') && DigestsAreText(tools)
    requires Enumerates(tools, scanner, roots, host, a) && Enumerates(tools, scanner, roots', host, b)
    requires Separates(tools, Digested(Entries(tools, roots, a)), Digested(Entries(tools, roots', b)))
    requires DigestOf(tools, Entries(tools, roots, a)) == DigestOf(tools, Entries(tools, roots', b))
    requires IsReachable(tools, scanner, roots, host, m) && Exists(roots, m) && Exists(roots', m)
    requires var (file, file') := (roots[m.name][m.relative], roots'[m.name][m.relative]);
      Separates(tools, HashedBytes(tools, m.relative, file.bytes, true),
                HashedBytes(tools, m.relative, file'.bytes, true))
    ensures var (file, file') := (roots[m.name][m.relative], roots'[m.name][m.relative]);
      && HashedBytes(tools, m.relative, file.bytes, true) == HashedBytes(tools, m.relative, file'.bytes, true)
      && (!IsManifest(m.relative) ==> file == file')
  {
    SameHashSameCode(tools, scanner, roots, roots', host, a, b);
    assert m in a && IsHashedAlike(tools, roots, roots', m);
  }

  // ------------------------------------------------------- what is imported

  /** A script imports exactly the existing modules that its specifiers resolve to. */
  lemma {:induction false} TargetIff(tools: Tools, scanner: Scanner, roots: Roots, from: Module, specifiers: seq<Text>,
                                     m: Module)
    ensures m in Targets(tools, scanner, roots, from, specifiers) <==>
      Exists(roots, m) && exists i ::
        0 <= i < |specifiers| && Resolve(tools, scanner, roots, from, specifiers[i]) == Some(m)
  {
    if specifiers != [] {
      TargetIff(tools, scanner, roots, from, specifiers[1..], m);
      assert forall i :: 1 <= i < |specifiers| ==> specifiers[i] == specifiers[1..][i - 1];
      if Exists(roots, m) && Resolve(tools, scanner, roots, from, specifiers[0]) == Some(m) {
        assert Targets(tools, scanner, roots, from, specifiers)[0] == m;
      }
    }
  }

  lemma {:induction false} PartsOfPath(name: Text, rest: Text, n: nat)
    requires Slashes(name) + 1 == n
    ensures TakeParts(name + (['/' as int] + rest), n) == name
      && DropParts(name + (['/' as int] + rest), n) == Some(rest)
  {
    var s := name + (['/' as int] + rest);
    NameOfLabel(name, rest, n);
    if name == [] {
      assert s[1..] == rest;
      assert s == ['/' as int] + rest;
    } else {
      assert s[0] == name[0] && s[1..] == name[1..] + (['/' as int] + rest);
      PartsOfPath(name[1..], rest, if name[0] == '/' as int then n - 1 else n);
    }
  }

  lemma {:induction false} PartsOfName(name: Text, n: nat)
    requires Slashes(name) + 1 == n
    ensures TakeParts(name, n) == name && DropParts(name, n) == None
  {
    if name != [] {
      PartsOfName(name[1..], if name[0] == '/' as int then n - 1 else n);
      assert name == [name[0]] + name[1..];
    }
  }

  /**
   * A package's own name resolves to the target its manifest exports at `.`, and a path under the name to
   * the one at `./` and the path; a package that is not packed resolves to nothing.
   */
  lemma PackageResolves(tools: Tools, scanner: Scanner, roots: Roots, from: Module, name: Text, path: Text)
    requires Slashes(name) == 1 && !(Ascii(".") <= name)
    ensures Resolve(tools, scanner, roots, from, name) ==
      if name in roots && ExportTarget(tools, roots[name], Ascii(".")).Some?
      then Some(Module(name, scanner.normalize(ExportTarget(tools, roots[name], Ascii(".")).value))) else None
    ensures Resolve(tools, scanner, roots, from, name + (['/' as int] + path)) ==
      if name in roots && ExportTarget(tools, roots[name], Ascii("./") + path).Some?
      then Some(Module(name, scanner.normalize(ExportTarget(tools, roots[name], Ascii("./") + path).value))) else None
  {
    PartsOfName(name, 2);
    PartsOfPath(name, path, 2);
    assert name != [] && (name + (['/' as int] + path))[0] == name[0];
  }

  // ---------------------------------------------------- released manifests

  /** Parsed manifests that differ in version, recorded hashes, sibling entries and member order only. */
  ghost predicate IsSameManifest(a: seq<Field>, b: seq<Field>) {
    KeysUnique(Obj(a)) && KeysUnique(Obj(b)) && Sorted(Obj(Kept(a, true))) == Sorted(Obj(Kept(b, true)))
  }

  ghost predicate IsSameFile(tools: Tools, path: Text, file: File, file': File) {
    && file.executable == file'.executable
    && (file.bytes == file'.bytes
        || (IsManifest(path) && tools.parse(file.bytes).Obj? && tools.parse(file'.bytes).Obj?
            && IsSameManifest(tools.parse(file.bytes).members, tools.parse(file'.bytes).members)))
  }

  /** The same files, manifests compared as above. */
  ghost predicate AreSamePackages(tools: Tools, roots: Roots, roots': Roots) {
    && roots.Keys == roots'.Keys
    && forall name :: name in roots ==> IsSameRoot(tools, roots[name], roots'[name])
  }

  ghost predicate IsSameRoot(tools: Tools, root: Root, root': Root) {
    root.Keys == root'.Keys && forall path :: path in root ==> IsSameFile(tools, path, root[path], root'[path])
  }

  lemma SortedOptionsAlike(v: Value, w: Value)
    requires Sorted(v) == Sorted(w) && KeysUnique(v) && KeysUnique(w)
    ensures ImportCondition(Some(v)) == ImportCondition(Some(w))
    ensures v.Obj? <==> w.Obj?
  {
    if v.Obj? && w.Obj? {
      LookupOfSorted(v.members, Ascii("import"));
      LookupOfSorted(w.members, Ascii("import"));
      TextOfSorted(v.members, Sorted(v).members, Ascii("import"));
      TextOfSorted(w.members, Sorted(w).members, Ascii("import"));
    }
  }

  lemma ExportsAlike(a: seq<Field>, b: seq<Field>, subpath: Text)
    requires KeysUnique(Obj(a)) && KeysUnique(Obj(b)) && Sorted(Obj(a)) == Sorted(Obj(b))
    ensures ImportCondition(Lookup(a, subpath)) == ImportCondition(Lookup(b, subpath))
  {
    LookupOfSorted(a, subpath);
    LookupOfSorted(b, subpath);
    if Lookup(a, subpath).Some? {
      FoundIsUnique(a, subpath);
      FoundIsUnique(b, subpath);
      SortedOptionsAlike(Lookup(a, subpath).value, Lookup(b, subpath).value);
    }
  }

  /** Such manifests export the same modules. */
  lemma SameManifestSameExports(a: seq<Field>, b: seq<Field>, subpath: Text)
    requires IsSameManifest(a, b)
    ensures ExportOf(a, subpath) == ExportOf(b, subpath)
  {
    var key := Ascii("exports");
    ExportsIsKept();
    KeptLookup(a, true, key);
    KeptLookup(b, true, key);
    KeptKeys(a, true);
    KeptKeys(b, true);
    LookupOfSorted(Kept(a, true), key);
    LookupOfSorted(Kept(b, true), key);
    if Lookup(a, key).Some? {
      FoundIsUnique(a, key);
      FoundIsUnique(b, key);
      SortedOptionsAlike(Lookup(a, key).value, Lookup(b, key).value);
      if Lookup(a, key).value.Obj? {
        ExportsAlike(Lookup(a, key).value.members, Lookup(b, key).value.members, subpath);
      }
    }
  }

  lemma ExportsIsKept()
    ensures !IsUnhashed(Ascii("exports")) && !IsDependencySection(Ascii("exports"))
  {
    assert Ascii("exports")[0] != Ascii("version")[0];
  }

  lemma SameRootSameTarget(tools: Tools, root: Root, root': Root, subpath: Text)
    requires IsSameRoot(tools, root, root')
    ensures ExportTarget(tools, root', subpath) == ExportTarget(tools, root, subpath)
  {
    var path := Ascii("package.json");
    if path in root {
      assert IsSameFile(tools, path, root[path], root'[path]);
      if root[path].bytes != root'[path].bytes {
        SameManifestSameExports(tools.parse(root[path].bytes).members, tools.parse(root'[path].bytes).members, subpath);
      }
    }
  }

  lemma SamePackagesResolveAlike(tools: Tools, scanner: Scanner, roots: Roots, roots': Roots, from: Module,
                                 specifier: Text)
    requires AreSamePackages(tools, roots, roots')
    ensures Resolve(tools, scanner, roots', from, specifier) == Resolve(tools, scanner, roots, from, specifier)
  {
    var name := TakeParts(specifier, 2);
    var subpath := match DropParts(specifier, 2)
      case Some(rest) => Ascii("./") + rest
      case None => Ascii(".");
    if name in roots { SameRootSameTarget(tools, roots[name], roots'[name], subpath); }
  }

  lemma SamePackagesExistAlike(tools: Tools, roots: Roots, roots': Roots, m: Module)
    requires AreSamePackages(tools, roots, roots')
    ensures Exists(roots', m) <==> Exists(roots, m)
    ensures Exists(roots, m) ==> IsSameFile(tools, m.relative, roots[m.name][m.relative], roots'[m.name][m.relative])
  {
    if m.name in roots { assert IsSameRoot(tools, roots[m.name], roots'[m.name]); }
  }

  lemma {:induction false} SamePackagesTargetAlike(tools: Tools, scanner: Scanner, roots: Roots, roots': Roots,
                                                   from: Module,
                                                  specifiers: seq<Text>)
    requires AreSamePackages(tools, roots, roots')
    ensures Targets(tools, scanner, roots', from, specifiers) == Targets(tools, scanner, roots, from, specifiers)
  {
    if specifiers != [] {
      SamePackagesTargetAlike(tools, scanner, roots, roots', from, specifiers[1..]);
      SamePackagesResolveAlike(tools, scanner, roots, roots', from, specifiers[0]);
      match Resolve(tools, scanner, roots, from, specifiers[0]) {
        case Some(target) => SamePackagesExistAlike(tools, roots, roots', target);
        case None =>
      }
    }
  }

  lemma ManifestIsNoScript(path: Text)
    requires IsManifest(path)
    ensures !IsScript(path)
  {
    assert Basename(path)[|Basename(path)| - 1] == path[|path| - 1];
    assert Ascii("package.json")[11] == 'n' as int;
    assert Ascii(".js")[2] == 's' as int && Ascii(".cjs")[3] == 's' as int && Ascii(".mjs")[3] == 's' as int;
  }

  lemma SameFileSameLine(tools: Tools, roots: Roots, roots': Roots, m: Module)
    requires Exists(roots, m) && Exists(roots', m)
    requires IsSameFile(tools, m.relative, roots[m.name][m.relative], roots'[m.name][m.relative])
    ensures EntryOf(tools, roots', m) == EntryOf(tools, roots, m)
  {
  }

  lemma SamePackagesSameModule(tools: Tools, scanner: Scanner, roots: Roots, roots': Roots, m: Module)
    requires AreSamePackages(tools, roots, roots') && Exists(roots, m)
    ensures IsSameModule(tools, scanner, roots, roots', m)
  {
    SamePackagesExistAlike(tools, roots, roots', m);
    SameFileSameLine(tools, roots, roots', m);
    if IsManifest(m.relative) {
      ManifestIsNoScript(m.relative);
    } else {
      SamePackagesTargetAlike(tools, scanner, roots, roots', m, scanner.imports(roots[m.name][m.relative].bytes));
    }
  }

  /**
   * Package sets that differ only in versions, recorded hashes, sibling dependency entries and the
   * order of manifest members have the same hash: a sibling's release alone never restarts a host.
   */
  lemma SamePackagesSameHash(tools: Tools, scanner: Scanner, roots: Roots, roots': Roots, host: Text, a: seq<Module>,
                             b: seq<Module>)
    requires AreSamePackages(tools, roots, roots')
    requires Enumerates(tools, scanner, roots, host, a) && Enumerates(tools, scanner, roots', host, b)
    ensures DigestOf(tools, Entries(tools, roots', b)) == DigestOf(tools, Entries(tools, roots, a))
  {
    forall m ensures Exists(roots', m) <==> Exists(roots, m) {
      SamePackagesExistAlike(tools, roots, roots', m);
    }
    forall m | IsReachable(tools, scanner, roots, host, m) ensures IsSameModule(tools, scanner, roots, roots', m) {
      var chain :| IsChain(tools, scanner, roots, host, chain) && chain[|chain| - 1] == m;
      SamePackagesSameModule(tools, scanner, roots, roots', m);
    }
    SameCodeSameHash(tools, scanner, roots, roots', host, a, b);
  }
}
