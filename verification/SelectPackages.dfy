/** The selection pass of scripts/release/select-packages.ts. */
module SelectPackages {
  import opened Wrappers
  import opened Sequences

  // One pass over packages in dependency order. A package's content hash covers the versions its packed
  // manifest pins workspace siblings to, so selecting one package changes the hash of others; the pass
  // must reach the hashes of the workspace it leaves behind.

  /**
   * A package manifest. `dependencies` are the production edges the order check reads, `pins` every
   * workspace sibling that packing pins, from any section; `content` is all else that is hashed.
   */
  datatype Manifest<H> =
    Manifest(version: int, recordedHash: Option<H>, dependencies: seq<int>, pins: set<int>, content: int)

  type Manifests<H> = map<int, Manifest<H>>

  /** The hash, and what npm recorded by package and version. */
  datatype Release<H> = Release(hash: (int, map<int, int>) -> H, recorded: map<(int, int), H>)

  datatype Selection =
    | Selected(dirs: seq<int>)
    | PackFailed
    | OutOfOrder(dir: int, dependency: int)
    | Unavailable

  /** Every listed package is in the workspace, and none is listed twice. */
  ghost predicate IsWorkspace<H>(ms: Manifests<H>, dirs: seq<int>) {
    AllIn(ms.Keys, dirs) && NoRepeats(dirs)
  }

  ghost predicate AllIn(keys: set<int>, dirs: seq<int>) {
    forall i :: 0 <= i < |dirs| ==> dirs[i] in keys
  }

  /** The version each workspace sibling is pinned to when `d` is packed now. */
  function Pinned<H>(ms: Manifests<H>, d: int): map<int, int>
    requires d in ms
  {
    map n | n in ms[d].pins && n in ms :: ms[n].version
  }

  function ContentHash<H>(r: Release<H>, ms: Manifests<H>, d: int): H
    requires d in ms
  {
    r.hash(ms[d].content, Pinned(ms, d))
  }

  /** npm has no hash for the manifest's version, or another one. */
  predicate IsChanged<H(==)>(r: Release<H>, ms: Manifests<H>, d: int)
    requires d in ms
  {
    (d, ms[d].version) !in r.recorded || r.recorded[(d, ms[d].version)] != ContentHash(r, ms, d)
  }

  function Write<H>(ms: Manifests<H>, d: int, version: int, hash: H): Manifests<H>
    requires d in ms
  {
    ms[d := ms[d].(version := version, recordedHash := Some(hash))]
  }

  /** One package's turn. */
  function Look<H(==)>(r: Release<H>, ms: Manifests<H>, version: int, d: int): (after: Manifests<H>)
    requires d in ms
    ensures after.Keys == ms.Keys
  {
    if IsChanged(r, ms, d) then Write(ms, d, version, ContentHash(r, ms, d)) else ms
  }

  /** The manifests after the first `k` packages have had their turn. */
  ghost function After<H>(r: Release<H>, ms: Manifests<H>, version: int, dirs: seq<int>, k: nat): (after: Manifests<H>)
    requires AllIn(ms.Keys, dirs) && k <= |dirs|
    ensures after.Keys == ms.Keys
  {
    if k == 0 then ms else Look(r, After(r, ms, version, dirs, k - 1), version, dirs[k - 1])
  }

  ghost predicate IsSelected<H>(r: Release<H>, ms: Manifests<H>, version: int, dirs: seq<int>, k: nat)
    requires AllIn(ms.Keys, dirs) && k < |dirs|
  {
    IsChanged(r, After(r, ms, version, dirs, k), dirs[k])
  }

  /** The packages selected among the first `k`, in order. */
  ghost function SelectedDirs<H>(r: Release<H>, ms: Manifests<H>, version: int, dirs: seq<int>, k: nat): seq<int>
    requires AllIn(ms.Keys, dirs) && k <= |dirs|
  {
    if k == 0 then []
    else
      SelectedDirs(r, ms, version, dirs, k - 1) + if IsSelected(r, ms, version, dirs, k - 1) then [dirs[k - 1]] else []
  }

  // --------------------------------------------------------- the program

  /** `new Map(dirs.map((dir, index) => [dir, index])).get(d) ?? -1`. */
  function PositionOf(dirs: seq<int>, d: int): (position: int)
    ensures if d in dirs then 0 <= position < |dirs| && dirs[position] == d && d !in dirs[position + 1..]
      else position == -1
  {
    if dirs == [] then -1
    else if dirs[|dirs| - 1] == d then |dirs| - 1
    else PositionOf(dirs[..|dirs| - 1], d)
  }

  /** The `j`-th production dependency of the `i`-th package is listed no later than the package. */
  ghost predicate IsInOrder<H>(ms: Manifests<H>, dirs: seq<int>, i: nat, j: nat)
    requires AllIn(ms.Keys, dirs) && i < |dirs| && j < |ms[dirs[i]].dependencies|
  {
    PositionOf(dirs, ms[dirs[i]].dependencies[j]) <= i
  }

  /** Those of the first `n` packages all are. */
  ghost predicate IsOrderedUpTo<H>(ms: Manifests<H>, dirs: seq<int>, n: nat)
    requires AllIn(ms.Keys, dirs) && n <= |dirs|
  {
    forall i, j :: 0 <= i < n && 0 <= j < |ms[dirs[i]].dependencies| ==> IsInOrder(ms, dirs, i, j)
  }

  ghost predicate IsOrdered<H>(ms: Manifests<H>, dirs: seq<int>)
    requires AllIn(ms.Keys, dirs)
  {
    IsOrderedUpTo(ms, dirs, |dirs|)
  }

  /** The first package, and its first dependency, that is out of order. */
  ghost predicate IsFirstOutOfOrder<H>(ms: Manifests<H>, dirs: seq<int>, i: nat, j: nat)
    requires AllIn(ms.Keys, dirs) && i < |dirs| && j < |ms[dirs[i]].dependencies|
  {
    IsOrderedUpTo(ms, dirs, i) && !IsInOrder(ms, dirs, i, j) && forall l :: 0 <= l < j ==> IsInOrder(ms, dirs, i, l)
  }

  /** `outOfOrder`. */
  method FirstOutOfOrder<H>(ms: Manifests<H>, dirs: seq<int>) returns (r: Option<Selection>)
    requires AllIn(ms.Keys, dirs)
    ensures r.None? <==> IsOrdered(ms, dirs)
    ensures r.Some? ==>
      exists i: nat, j: nat :: i < |dirs| && j < |ms[dirs[i]].dependencies| && IsFirstOutOfOrder(ms, dirs, i, j)
        && r == Some(OutOfOrder(dirs[i], ms[dirs[i]].dependencies[j]))
  {
    for index := 0 to |dirs|
      invariant IsOrderedUpTo(ms, dirs, index)
    {
      var dependencies := ms[dirs[index]].dependencies;
      for j := 0 to |dependencies|
        invariant forall l :: 0 <= l < j ==> IsInOrder(ms, dirs, index, l)
      {
        if PositionOf(dirs, dependencies[j]) > index {
          assert IsFirstOutOfOrder(ms, dirs, index, j);
          return Some(OutOfOrder(dirs[index], dependencies[j]));
        }
      }
    }
    return None;
  }

  /** The manifests on disk, the only thing a run writes. */
  class Workspace<H(==)> {
    var manifests: Manifests<H>

    constructor (ms: Manifests<H>)
      ensures manifests == ms
    {
      manifests := ms;
    }

    method Select(d: int, version: int, hash: H)
      requires d in manifests
      modifies this
      ensures manifests == Write(old(manifests), d, version, hash)
    {
      manifests := Write(manifests, d, version, hash);
    }

    /**
     * `selectPackages`. Packing or npm may fail at any package (`packs`, `answers`); what the turns
     * before it wrote stays written.
     */
    method SelectAll(r: Release<H>, packs: nat -> bool, answers: nat -> bool, version: int, dirs: seq<int>)
      returns (selection: Selection, ghost turns: nat)
      requires AllIn(manifests.Keys, dirs)
      modifies this
      ensures turns <= |dirs| && manifests == After(r, old(manifests), version, dirs, turns)
      ensures selection.OutOfOrder? <==> !IsOrdered(old(manifests), dirs)
      ensures selection.OutOfOrder? ==> turns == 0
      ensures selection.Selected? ==>
        turns == |dirs| && selection.dirs == SelectedDirs(r, old(manifests), version, dirs, turns)
      ensures selection.PackFailed? ==> turns < |dirs| && !packs(turns)
      ensures selection.Unavailable? ==> turns < |dirs| && packs(turns) && !answers(turns)
      ensures forall k: nat :: k < turns ==> packs(k) && answers(k)
    {
      turns := 0;
      var misordered := FirstOutOfOrder(manifests, dirs);
      if misordered.Some? {
        return misordered.value, 0;
      }
      ghost var ms := manifests;
      var selected: seq<int> := [];
      for index := 0 to |dirs|
        invariant manifests == After(r, ms, version, dirs, index)
        invariant selected == SelectedDirs(r, ms, version, dirs, index)
        invariant turns == index && forall k: nat :: k < index ==> packs(k) && answers(k)
      {
        var dir := dirs[index];
        if !packs(index) {
          return PackFailed, turns;
        }
        if !answers(index) {
          return Unavailable, turns;
        }
        if IsChanged(r, manifests, dir) {
          var hash := ContentHash(r, manifests, dir);
          Select(dir, version, hash);
          selected := selected + [dir];
        }
        turns := turns + 1;
      }
      return Selected(selected), turns;
    }
  }

  // -------------------------------------------------- what one pass changes

  lemma {:induction false} ShapeStays<H>(r: Release<H>, ms: Manifests<H>, version: int, dirs: seq<int>, k: nat, d: int)
    requires AllIn(ms.Keys, dirs) && k <= |dirs| && d in ms
    ensures var m := After(r, ms, version, dirs, k)[d]; m.pins == ms[d].pins && m.content == ms[d].content
  {
    if k > 0 { ShapeStays(r, ms, version, dirs, k - 1, d); }
  }

  /** A package keeps its manifest until its turn. */
  lemma {:induction false} UntouchedBefore<H>(r: Release<H>, ms: Manifests<H>, version: int, dirs: seq<int>, k: nat,
                                              d: int)
    requires AllIn(ms.Keys, dirs) && k <= |dirs| && d in ms
    requires forall i :: 0 <= i < k ==> dirs[i] != d
    ensures After(r, ms, version, dirs, k)[d] == ms[d]
  {
    if k > 0 { UntouchedBefore(r, ms, version, dirs, k - 1, d); }
  }

  /** And after it. */
  lemma {:induction false} UntouchedAfter<H>(r: Release<H>, ms: Manifests<H>, version: int, dirs: seq<int>, j: nat,
                                             k: nat)
    requires IsWorkspace(ms, dirs) && j < k <= |dirs|
    ensures After(r, ms, version, dirs, k)[dirs[j]] == After(r, ms, version, dirs, j + 1)[dirs[j]]
  {
    if k > j + 1 {
      UntouchedAfter(r, ms, version, dirs, j, k - 1);
      assert dirs[j] != dirs[k - 1];
    }
  }

  /** What a package's turn leaves in its manifest. */
  lemma Turn<H>(r: Release<H>, ms: Manifests<H>, version: int, dirs: seq<int>, j: nat, k: nat)
    requires IsWorkspace(ms, dirs) && j < k <= |dirs|
    ensures After(r, ms, version, dirs, j)[dirs[j]] == ms[dirs[j]]
    ensures After(r, ms, version, dirs, k)[dirs[j]] ==
      if IsSelected(r, ms, version, dirs, j) then
        ms[dirs[j]].(version := version, recordedHash := Some(ContentHash(r, After(r, ms, version, dirs, j), dirs[j])))
      else ms[dirs[j]]
  {
    UntouchedBefore(r, ms, version, dirs, j, dirs[j]);
    UntouchedAfter(r, ms, version, dirs, j, k);
  }

  /** Selecting the sibling at `j` changes the version that is pinned. */
  ghost predicate ChangesVersion<H>(r: Release<H>, ms: Manifests<H>, version: int, dirs: seq<int>, j: nat)
    requires IsWorkspace(ms, dirs) && j < |dirs|
  {
    IsSelected(r, ms, version, dirs, j) && ms[dirs[j]].version != version
  }

  /** No sibling that `dirs[i]` pins, itself included, changes its version in the turns `i` to `k - 1`. */
  ghost predicate PinsSettled<H>(r: Release<H>, ms: Manifests<H>, version: int, dirs: seq<int>, i: nat, k: nat)
    requires IsWorkspace(ms, dirs) && i < k <= |dirs|
  {
    forall j :: i <= j < k && dirs[j] in ms[dirs[i]].pins ==> !ChangesVersion(r, ms, version, dirs, j)
  }

  lemma VersionOfListed<H>(r: Release<H>, ms: Manifests<H>, version: int, dirs: seq<int>, i: nat, k: nat, j: nat)
    requires IsWorkspace(ms, dirs) && i < k <= |dirs| && j < k
    ensures After(r, ms, version, dirs, i)[dirs[j]].version == After(r, ms, version, dirs, k)[dirs[j]].version <==>
      j < i || !ChangesVersion(r, ms, version, dirs, j)
  {
    Turn(r, ms, version, dirs, j, k);
    if j < i {
      Turn(r, ms, version, dirs, j, i);
    } else {
      UntouchedBefore(r, ms, version, dirs, i, dirs[j]);
    }
  }

  lemma VersionOfUnlisted<H>(r: Release<H>, ms: Manifests<H>, version: int, dirs: seq<int>, i: nat, k: nat, n: int)
    requires AllIn(ms.Keys, dirs) && i < k <= |dirs| && n in ms && n !in dirs[..k]
    ensures After(r, ms, version, dirs, i)[n].version == After(r, ms, version, dirs, k)[n].version
  {
    assert forall j :: 0 <= j < k ==> dirs[..k][j] == dirs[j];
    UntouchedBefore(r, ms, version, dirs, i, n);
    UntouchedBefore(r, ms, version, dirs, k, n);
  }

  lemma PinnedIfSettled<H>(r: Release<H>, ms: Manifests<H>, version: int, dirs: seq<int>, i: nat, k: nat)
    requires IsWorkspace(ms, dirs) && i < k <= |dirs| && PinsSettled(r, ms, version, dirs, i, k)
    ensures Pinned(After(r, ms, version, dirs, i), dirs[i]) == Pinned(After(r, ms, version, dirs, k), dirs[i])
  {
    var (a, b) := (After(r, ms, version, dirs, i), After(r, ms, version, dirs, k));
    ShapeStays(r, ms, version, dirs, i, dirs[i]);
    ShapeStays(r, ms, version, dirs, k, dirs[i]);
    forall n | n in ms[dirs[i]].pins && n in ms ensures a[n].version == b[n].version {
      if n in dirs[..k] {
        var j :| 0 <= j < k && dirs[..k][j] == n;
        VersionOfListed(r, ms, version, dirs, i, k, j);
      } else {
        VersionOfUnlisted(r, ms, version, dirs, i, k, n);
      }
    }
  }

  lemma PinnedIffSettled<H>(r: Release<H>, ms: Manifests<H>, version: int, dirs: seq<int>, i: nat, k: nat)
    requires IsWorkspace(ms, dirs) && i < k <= |dirs|
    ensures Pinned(After(r, ms, version, dirs, i), dirs[i]) == Pinned(After(r, ms, version, dirs, k), dirs[i]) <==>
      PinsSettled(r, ms, version, dirs, i, k)
  {
    var (a, b) := (After(r, ms, version, dirs, i), After(r, ms, version, dirs, k));
    ShapeStays(r, ms, version, dirs, i, dirs[i]);
    ShapeStays(r, ms, version, dirs, k, dirs[i]);
    if Pinned(a, dirs[i]) == Pinned(b, dirs[i]) {
      forall j | i <= j < k && dirs[j] in ms[dirs[i]].pins ensures !ChangesVersion(r, ms, version, dirs, j) {
        assert Pinned(a, dirs[i])[dirs[j]] == Pinned(b, dirs[i])[dirs[j]];
        VersionOfListed(r, ms, version, dirs, i, k, j);
      }
    }
    if PinsSettled(r, ms, version, dirs, i, k) { PinnedIfSettled(r, ms, version, dirs, i, k); }
  }

  // --------------------------------------------------------------- the hash

  ghost predicate Distinguishes<H>(r: Release<H>, a: int, p: map<int, int>, b: int, q: map<int, int>) {
    r.hash(a, p) == r.hash(b, q) ==> a == b && p == q
  }

  /** The manifest records the package's content hash. */
  ghost predicate IsHashRight<H>(r: Release<H>, ms: Manifests<H>, d: int)
    requires d in ms
  {
    ms[d].recordedHash == Some(ContentHash(r, ms, d))
  }

  ghost predicate IsCollisionFree<H>(r: Release<H>) {
    forall a, p, b, q :: Distinguishes(r, a, p, b, q)
  }

  /**
   * The hash computed at a package's turn is its hash later in the run exactly when no sibling it pins
   * is selected with a new version in between.
   */
  lemma HashSettlesIff<H>(r: Release<H>, ms: Manifests<H>, version: int, dirs: seq<int>, i: nat, k: nat)
    requires IsWorkspace(ms, dirs) && i < k <= |dirs| && IsCollisionFree(r)
    ensures var (before, after) := (After(r, ms, version, dirs, i), After(r, ms, version, dirs, k));
      ContentHash(r, before, dirs[i]) == ContentHash(r, after, dirs[i]) <==> PinsSettled(r, ms, version, dirs, i, k)
  {
    PinnedIffSettled(r, ms, version, dirs, i, k);
    var (a, b) := (After(r, ms, version, dirs, i), After(r, ms, version, dirs, k));
    ShapeStays(r, ms, version, dirs, i, dirs[i]);
    ShapeStays(r, ms, version, dirs, k, dirs[i]);
    assert Distinguishes(r, a[dirs[i]].content, Pinned(a, dirs[i]), b[dirs[i]].content, Pinned(b, dirs[i]));
  }

  lemma WrittenHashIsFinalOnceSettled<H>(r: Release<H>, ms: Manifests<H>, version: int, dirs: seq<int>, i: nat)
    requires IsWorkspace(ms, dirs) && i < |dirs| && IsCollisionFree(r) && IsSelected(r, ms, version, dirs, i)
    ensures var final := After(r, ms, version, dirs, |dirs|);
      final[dirs[i]].version == version && final[dirs[i]].recordedHash.Some? &&
      (IsHashRight(r, final, dirs[i]) <==> PinsSettled(r, ms, version, dirs, i, |dirs|))
  {
    Turn(r, ms, version, dirs, i, |dirs|);
    HashSettlesIff(r, ms, version, dirs, i, |dirs|);
  }

  /** Every sibling a listed package pins is listed before it, or not at all, or already has the version. */
  ghost predicate PinsPrecede<H>(ms: Manifests<H>, version: int, dirs: seq<int>)
    requires AllIn(ms.Keys, dirs)
  {
    forall i, j :: 0 <= i <= j < |dirs| && dirs[j] in ms[dirs[i]].pins ==> ms[dirs[j]].version == version
  }

  /** Then the pins are always settled, whatever npm recorded. */
  lemma PrecedingPinsSettle<H>(r: Release<H>, ms: Manifests<H>, version: int, dirs: seq<int>, i: nat, k: nat)
    requires IsWorkspace(ms, dirs) && i < k <= |dirs| && PinsPrecede(ms, version, dirs)
    ensures PinsSettled(r, ms, version, dirs, i, k)
  {
  }

  ghost predicate NothingRecorded<H>(r: Release<H>) {
    r.recorded == map[]
  }

  /** Otherwise it does not: with an empty registry the package before its pinned sibling keeps a stale hash. */
  lemma UnsettledWhenNothingRecorded<H>(r: Release<H>, ms: Manifests<H>, version: int, dirs: seq<int>, i: nat, j: nat)
    requires IsWorkspace(ms, dirs) && IsCollisionFree(r) && NothingRecorded(r)
    requires i <= j < |dirs| && dirs[j] in ms[dirs[i]].pins && ms[dirs[j]].version != version
    ensures var final := After(r, ms, version, dirs, |dirs|);
      IsSelected(r, ms, version, dirs, i) && final[dirs[i]].recordedHash.Some? && !IsHashRight(r, final, dirs[i])
  {
    WrittenHashIsFinalOnceSettled(r, ms, version, dirs, i);
    assert ChangesVersion(r, ms, version, dirs, j);
  }

  lemma PositionOfListed(dirs: seq<int>, i: nat)
    requires NoRepeats(dirs) && i < |dirs|
    ensures PositionOf(dirs, dirs[i]) == i
  {
  }

  lemma DependencyPosition<H>(ms: Manifests<H>, dirs: seq<int>, i: nat, n: int)
    requires IsWorkspace(ms, dirs) && IsOrdered(ms, dirs) && i < |dirs| && n in ms[dirs[i]].dependencies
    ensures PositionOf(dirs, n) <= i
  {
    var l :| 0 <= l < |ms[dirs[i]].dependencies| && ms[dirs[i]].dependencies[l] == n;
    assert IsInOrder(ms, dirs, i, l);
  }

  /**
   * What the order check gives: pins that are production dependencies precede their dependents, as
   * long as no package pins itself. Pins from other sections are not looked at.
   */
  lemma OrderedProductionPinsPrecede<H>(ms: Manifests<H>, version: int, dirs: seq<int>)
    requires IsWorkspace(ms, dirs) && IsOrdered(ms, dirs)
    requires forall i, n :: 0 <= i < |dirs| && n in ms[dirs[i]].pins ==> n in ms[dirs[i]].dependencies && n != dirs[i]
    ensures PinsPrecede(ms, version, dirs)
  {
    forall i, n | 0 <= i < |dirs| && n in ms[dirs[i]].pins ensures PositionOf(dirs, n) <= i {
      DependencyPosition(ms, dirs, i, n);
    }
    forall j | 0 <= j < |dirs| ensures PositionOf(dirs, dirs[j]) == j {
      PositionOfListed(dirs, j);
    }
  }

  // ------------------------------------------------------------ dependents

  ghost predicate DoesNotPin<H>(r: Release<H>, key: (int, int), content: int, pins: map<int, int>, version: int) {
    key in r.recorded && r.recorded[key] == r.hash(content, pins) ==> version !in pins.Values
  }

  /** No package has this version on npm, and nothing on npm pins it. */
  ghost predicate IsFresh<H>(r: Release<H>, version: int) {
    && (forall d :: (d, version) !in r.recorded)
    && (forall key, content, pins :: DoesNotPin(r, key, content, pins, version))
  }

  /** Every package that pins a sibling selected before it is selected too. */
  lemma DependentsAreSelected<H>(r: Release<H>, ms: Manifests<H>, version: int, dirs: seq<int>, j: nat, i: nat)
    requires IsWorkspace(ms, dirs) && IsFresh(r, version)
    requires j < i < |dirs| && dirs[j] in ms[dirs[i]].pins && IsSelected(r, ms, version, dirs, j)
    ensures IsSelected(r, ms, version, dirs, i)
  {
    var before := After(r, ms, version, dirs, i);
    Turn(r, ms, version, dirs, j, i);
    ShapeStays(r, ms, version, dirs, i, dirs[i]);
    var pins := Pinned(before, dirs[i]);
    assert pins[dirs[j]] == version && version in pins.Values;
    assert DoesNotPin(r, (dirs[i], before[dirs[i]].version), before[dirs[i]].content, pins, version);
  }

  /** As npm and the workspace stand before the run: the package has changed, or pins an earlier one that is due. */
  ghost predicate IsDue<H>(r: Release<H>, ms: Manifests<H>, dirs: seq<int>, i: nat)
    requires AllIn(ms.Keys, dirs) && i < |dirs|
  {
    IsChanged(r, ms, dirs[i]) || exists j: nat :: j < i && dirs[j] in ms[dirs[i]].pins && IsDue(r, ms, dirs, j)
  }

  ghost predicate PinsSelected<H>(r: Release<H>, ms: Manifests<H>, version: int, dirs: seq<int>, i: nat)
    requires AllIn(ms.Keys, dirs) && i < |dirs|
  {
    exists j: nat :: j < i && dirs[j] in ms[dirs[i]].pins && IsSelected(r, ms, version, dirs, j)
  }

  /** A package that pins no selected sibling is looked at as it was before the run. */
  lemma LooksAsBefore<H>(r: Release<H>, ms: Manifests<H>, version: int, dirs: seq<int>, i: nat)
    requires IsWorkspace(ms, dirs) && i < |dirs| && !PinsSelected(r, ms, version, dirs, i)
    ensures IsSelected(r, ms, version, dirs, i) <==> IsChanged(r, ms, dirs[i])
  {
    var before := After(r, ms, version, dirs, i);
    UntouchedBefore(r, ms, version, dirs, i, dirs[i]);
    forall n | n in ms[dirs[i]].pins && n in ms ensures before[n].version == ms[n].version {
      if n in dirs[..i] {
        var j :| 0 <= j < i && dirs[..i][j] == n;
        Turn(r, ms, version, dirs, j, i);
      } else {
        assert forall j :: 0 <= j < i ==> dirs[..i][j] == dirs[j];
        UntouchedBefore(r, ms, version, dirs, i, n);
      }
    }
    assert Pinned(before, dirs[i]) == Pinned(ms, dirs[i]);
  }

  /**
   * The run selects exactly the packages that have changed and those that pin an earlier one of them,
   * however many pins away: what it publishes is known before it starts.
   */
  lemma {:induction false} SelectedIffDue<H>(r: Release<H>, ms: Manifests<H>, version: int, dirs: seq<int>, i: nat)
    requires IsWorkspace(ms, dirs) && IsFresh(r, version) && i < |dirs|
    ensures IsSelected(r, ms, version, dirs, i) <==> IsDue(r, ms, dirs, i)
    decreases i
  {
    forall j: nat | j < i ensures IsSelected(r, ms, version, dirs, j) <==> IsDue(r, ms, dirs, j) {
      SelectedIffDue(r, ms, version, dirs, j);
    }
    if PinsSelected(r, ms, version, dirs, i) {
      var j: nat :| j < i && dirs[j] in ms[dirs[i]].pins && IsSelected(r, ms, version, dirs, j);
      DependentsAreSelected(r, ms, version, dirs, j, i);
    } else {
      LooksAsBefore(r, ms, version, dirs, i);
    }
  }

  /** A package whose files differ from those npm recorded for its version is selected, whatever else happens. */
  lemma EditedIsSelected<H>(r: Release<H>, ms: Manifests<H>, version: int, dirs: seq<int>, i: nat, content: int,
                            pins: map<int, int>)
    requires IsWorkspace(ms, dirs) && IsCollisionFree(r) && i < |dirs|
    requires var key := (dirs[i], ms[dirs[i]].version); key in r.recorded ==> r.recorded[key] == r.hash(content, pins)
    requires (dirs[i], ms[dirs[i]].version) !in r.recorded || content != ms[dirs[i]].content
    ensures IsSelected(r, ms, version, dirs, i)
  {
    var before := After(r, ms, version, dirs, i);
    UntouchedBefore(r, ms, version, dirs, i, dirs[i]);
    assert Distinguishes(r, content, pins, ms[dirs[i]].content, Pinned(before, dirs[i]));
  }

  /** The due packages from `i` on, in the order of the list. */
  ghost function DueFrom<H>(r: Release<H>, ms: Manifests<H>, dirs: seq<int>, i: nat): seq<int>
    requires AllIn(ms.Keys, dirs) && i <= |dirs|
    decreases |dirs| - i
  {
    if i == |dirs| then []
    else (if IsDue(r, ms, dirs, i) then [dirs[i]] else []) + DueFrom(r, ms, dirs, i + 1)
  }

  lemma DueNext<H>(r: Release<H>, ms: Manifests<H>, version: int, dirs: seq<int>, i: nat, next: seq<int>)
    requires IsWorkspace(ms, dirs) && IsFresh(r, version) && i < |dirs|
    requires next == if IsDue(r, ms, dirs, i) then [dirs[i]] else []
    ensures SelectedDirs(r, ms, version, dirs, i) + DueFrom(r, ms, dirs, i) ==
      SelectedDirs(r, ms, version, dirs, i + 1) + DueFrom(r, ms, dirs, i + 1)
  {
    SelectedIffDue(r, ms, version, dirs, i);
    assert SelectedDirs(r, ms, version, dirs, i + 1) == SelectedDirs(r, ms, version, dirs, i) + next;
    Regroup(SelectedDirs(r, ms, version, dirs, i), next, DueFrom(r, ms, dirs, i + 1));
  }

  lemma {:induction false} SelectedThenDue<H>(r: Release<H>, ms: Manifests<H>, version: int, dirs: seq<int>, i: nat)
    requires IsWorkspace(ms, dirs) && IsFresh(r, version) && i <= |dirs|
    ensures SelectedDirs(r, ms, version, dirs, i) + DueFrom(r, ms, dirs, i) ==
      SelectedDirs(r, ms, version, dirs, |dirs|)
    decreases |dirs| - i
  {
    if i < |dirs| {
      SelectedThenDue(r, ms, version, dirs, i + 1);
      DueNext(r, ms, version, dirs, i, if IsDue(r, ms, dirs, i) then [dirs[i]] else []);
    } else {
      assert SelectedDirs(r, ms, version, dirs, i) + [] == SelectedDirs(r, ms, version, dirs, i);
    }
  }

  /** What a run reports is exactly the due packages, in the order they were listed. */
  lemma ReportsTheDue<H>(r: Release<H>, ms: Manifests<H>, version: int, dirs: seq<int>)
    requires IsWorkspace(ms, dirs) && IsFresh(r, version)
    ensures SelectedDirs(r, ms, version, dirs, |dirs|) == DueFrom(r, ms, dirs, 0)
  {
    SelectedThenDue(r, ms, version, dirs, 0);
  }

  /** No sibling that `dirs[i]` pins, itself included, is at `i` to `k - 1`, due, and not yet at the version. */
  ghost predicate PinsStay<H>(r: Release<H>, ms: Manifests<H>, version: int, dirs: seq<int>, i: nat, k: nat)
    requires AllIn(ms.Keys, dirs) && i < k <= |dirs|
  {
    forall j: nat :: i <= j < k && dirs[j] in ms[dirs[i]].pins && IsDue(r, ms, dirs, j) ==>
      ms[dirs[j]].version == version
  }

  lemma SettledIffPinsStay<H>(r: Release<H>, ms: Manifests<H>, version: int, dirs: seq<int>, i: nat, k: nat)
    requires IsWorkspace(ms, dirs) && IsFresh(r, version) && i < k <= |dirs|
    ensures PinsSettled(r, ms, version, dirs, i, k) <==> PinsStay(r, ms, version, dirs, i, k)
  {
    forall j: nat | i <= j < k ensures IsSelected(r, ms, version, dirs, j) <==> IsDue(r, ms, dirs, j) {
      SelectedIffDue(r, ms, version, dirs, j);
    }
    forall j: nat | i <= j < k
      ensures ChangesVersion(r, ms, version, dirs, j) <==> IsDue(r, ms, dirs, j) && ms[dirs[j]].version != version
    {
    }
  }

  /**
   * Every hash the run writes is the package's content hash in the workspace it leaves, for exactly
   * the packages that pin no sibling listed at or after them that is due and takes a new version.
   */
  lemma WrittenHashIsFinalIff<H>(r: Release<H>, ms: Manifests<H>, version: int, dirs: seq<int>, i: nat)
    requires IsWorkspace(ms, dirs) && IsCollisionFree(r) && IsFresh(r, version)
    requires i < |dirs| && IsDue(r, ms, dirs, i)
    ensures var final := After(r, ms, version, dirs, |dirs|);
      final[dirs[i]].version == version && final[dirs[i]].recordedHash.Some? &&
      (IsHashRight(r, final, dirs[i]) <==> PinsStay(r, ms, version, dirs, i, |dirs|))
  {
    SelectedIffDue(r, ms, version, dirs, i);
    SettledIffPinsStay(r, ms, version, dirs, i, |dirs|);
    WrittenHashIsFinalOnceSettled(r, ms, version, dirs, i);
  }

  // --------------------------------------------------- publishing, and again

  /** npm after every selected package was published with the hash in its manifest. */
  ghost function Published<H>(r: Release<H>, ms: Manifests<H>, version: int, dirs: seq<int>, k: nat): (p: Release<H>)
    requires IsWorkspace(ms, dirs) && k <= |dirs|
  {
    if k == 0 then r
    else
      var p := Published(r, ms, version, dirs, k - 1);
      if IsSelected(r, ms, version, dirs, k - 1) then
        Release(p.hash, p.recorded[(dirs[k - 1], version) :=
                                   ContentHash(r, After(r, ms, version, dirs, k - 1), dirs[k - 1])])
      else p
  }

  lemma {:induction false} PublishedAt<H>(r: Release<H>, ms: Manifests<H>, version: int, dirs: seq<int>, k: nat, i: nat)
    requires IsWorkspace(ms, dirs) && i < k <= |dirs| && IsSelected(r, ms, version, dirs, i)
    ensures var p := Published(r, ms, version, dirs, k).recorded;
      (dirs[i], version) in p && p[(dirs[i], version)] == ContentHash(r, After(r, ms, version, dirs, i), dirs[i])
  {
    if i < k - 1 {
      PublishedAt(r, ms, version, dirs, k - 1, i);
      assert dirs[i] != dirs[k - 1];
    }
  }

  lemma {:induction false} PublishedHash<H>(r: Release<H>, ms: Manifests<H>, version: int, dirs: seq<int>, k: nat)
    requires IsWorkspace(ms, dirs) && k <= |dirs|
    ensures Published(r, ms, version, dirs, k).hash == r.hash
  {
    if k > 0 { PublishedHash(r, ms, version, dirs, k - 1); }
  }

  lemma {:induction false} PublishedElsewhere<H>(r: Release<H>, ms: Manifests<H>, version: int, dirs: seq<int>, k: nat,
                                                 d: int, v: int)
    requires IsWorkspace(ms, dirs) && k <= |dirs| && v != version
    ensures var p := Published(r, ms, version, dirs, k);
      p.hash == r.hash && ((d, v) in p.recorded <==> (d, v) in r.recorded)
      && ((d, v) in r.recorded ==> p.recorded[(d, v)] == r.recorded[(d, v)])
  {
    if k > 0 { PublishedElsewhere(r, ms, version, dirs, k - 1, d, v); }
  }

  /** A published package is unchanged exactly when its pins settled in the run that published it. */
  lemma UnchangedOncePublishedIff<H>(r: Release<H>, ms: Manifests<H>, version: int, dirs: seq<int>, i: nat)
    requires IsWorkspace(ms, dirs) && i < |dirs| && IsCollisionFree(r) && IsFresh(r, version)
    ensures !IsChanged(Published(r, ms, version, dirs, |dirs|), After(r, ms, version, dirs, |dirs|), dirs[i]) <==>
      PinsSettled(r, ms, version, dirs, i, |dirs|)
  {
    if IsSelected(r, ms, version, dirs, i) {
      PublishedAt(r, ms, version, dirs, |dirs|, i);
      PublishedHash(r, ms, version, dirs, |dirs|);
    } else {
      UntouchedBefore(r, ms, version, dirs, i, dirs[i]);
      PublishedElsewhere(r, ms, version, dirs, |dirs|, dirs[i], ms[dirs[i]].version);
    }
    Turn(r, ms, version, dirs, i, |dirs|);
    HashSettlesIff(r, ms, version, dirs, i, |dirs|);
  }

  ghost predicate SelectsNothing<H>(r: Release<H>, ms: Manifests<H>, dirs: seq<int>)
    requires AllIn(ms.Keys, dirs)
  {
    forall i :: 0 <= i < |dirs| ==> !IsChanged(r, ms, dirs[i])
  }

  /** With nothing to select, a run leaves the workspace alone and reports no package. */
  lemma {:induction false} NothingSelected<H>(r: Release<H>, ms: Manifests<H>, version: int, dirs: seq<int>, k: nat)
    requires AllIn(ms.Keys, dirs) && k <= |dirs| && SelectsNothing(r, ms, dirs)
    ensures After(r, ms, version, dirs, k) == ms && SelectedDirs(r, ms, version, dirs, k) == []
  {
    if k > 0 { NothingSelected(r, ms, version, dirs, k - 1); }
  }

  lemma {:induction false} NothingSelectedOnlyIf<H>(r: Release<H>, ms: Manifests<H>, version: int, dirs: seq<int>,
                                                    k: nat)
    requires AllIn(ms.Keys, dirs) && k <= |dirs| && SelectedDirs(r, ms, version, dirs, k) == []
    ensures After(r, ms, version, dirs, k) == ms && forall i :: 0 <= i < k ==> !IsChanged(r, ms, dirs[i])
  {
    if k > 0 { NothingSelectedOnlyIf(r, ms, version, dirs, k - 1); }
  }

  /** After publishing what the run selected, a run under any version selects nothing. */
  ghost predicate SecondRunIsIdle<H>(r: Release<H>, ms: Manifests<H>, version: int, dirs: seq<int>, later: int)
    requires IsWorkspace(ms, dirs)
  {
    var (published, left) := (Published(r, ms, version, dirs, |dirs|), After(r, ms, version, dirs, |dirs|));
    SelectedDirs(published, left, later, dirs, |dirs|) == []
  }

  lemma IdleIffAllSettled<H>(r: Release<H>, ms: Manifests<H>, version: int, dirs: seq<int>, later: int)
    requires IsWorkspace(ms, dirs) && IsCollisionFree(r) && IsFresh(r, version)
    ensures SecondRunIsIdle(r, ms, version, dirs, later) <==> AllSettled(r, ms, version, dirs, |dirs|, |dirs|)
  {
    var (published, left) := (Published(r, ms, version, dirs, |dirs|), After(r, ms, version, dirs, |dirs|));
    forall i | 0 <= i < |dirs|
      ensures !IsChanged(published, left, dirs[i]) <==> PinsSettled(r, ms, version, dirs, i, |dirs|)
    {
      UnchangedOncePublishedIff(r, ms, version, dirs, i);
    }
    if SelectedDirs(published, left, later, dirs, |dirs|) == [] {
      NothingSelectedOnlyIf(published, left, later, dirs, |dirs|);
    }
    if AllSettled(r, ms, version, dirs, |dirs|, |dirs|) {
      NothingSelected(published, left, later, dirs, |dirs|);
    }
  }

  ghost predicate AllSettled<H>(r: Release<H>, ms: Manifests<H>, version: int, dirs: seq<int>, n: nat, k: nat)
    requires IsWorkspace(ms, dirs) && n <= k <= |dirs|
  {
    forall i :: 0 <= i < n ==> PinsSettled(r, ms, version, dirs, i, k)
  }

  ghost predicate AllPinsStay<H>(r: Release<H>, ms: Manifests<H>, version: int, dirs: seq<int>, k: nat)
    requires AllIn(ms.Keys, dirs) && k <= |dirs|
  {
    forall i :: 0 <= i < k ==> PinsStay(r, ms, version, dirs, i, k)
  }

  lemma AllSettledIff<H>(r: Release<H>, ms: Manifests<H>, version: int, dirs: seq<int>, k: nat)
    requires IsWorkspace(ms, dirs) && IsFresh(r, version) && k <= |dirs|
    ensures AllSettled(r, ms, version, dirs, k, k) <==> AllPinsStay(r, ms, version, dirs, k)
  {
    forall i | 0 <= i < k
      ensures PinsSettled(r, ms, version, dirs, i, k) <==> PinsStay(r, ms, version, dirs, i, k)
    {
      SettledIffPinsStay(r, ms, version, dirs, i, k);
    }
  }

  /**
   * A second run after publishing, under any version, selects nothing if and only if no package pins
   * a sibling listed at or after it that is due and takes a new version.
   */
  lemma SecondRunSelectsNothingIff<H>(r: Release<H>, ms: Manifests<H>, version: int, dirs: seq<int>, later: int)
    requires IsWorkspace(ms, dirs) && IsCollisionFree(r) && IsFresh(r, version)
    ensures SecondRunIsIdle(r, ms, version, dirs, later) <==> AllPinsStay(r, ms, version, dirs, |dirs|)
  {
    IdleIffAllSettled(r, ms, version, dirs, later);
    AllSettledIff(r, ms, version, dirs, |dirs|);
  }

  // ----------------------------------------------------- after a failure

  /** One package's turn again, in the workspace its first `k` turns left. */
  lemma SameTurnIff<H>(r: Release<H>, ms: Manifests<H>, version: int, dirs: seq<int>, i: nat, k: nat)
    requires IsWorkspace(ms, dirs) && i < k <= |dirs| && IsCollisionFree(r) && IsFresh(r, version)
    ensures var left := After(r, ms, version, dirs, k);
      Look(r, left, version, dirs[i]) == left <==> PinsSettled(r, ms, version, dirs, i, k)
  {
    var left := After(r, ms, version, dirs, k);
    Turn(r, ms, version, dirs, i, k);
    HashSettlesIff(r, ms, version, dirs, i, k);
    var d := dirs[i];
    if IsSelected(r, ms, version, dirs, i) {
      assert left[d].version == version && (d, version) !in r.recorded;
      assert Look(r, left, version, d) == Write(left, d, version, ContentHash(r, left, d));
      WriteChangesIff(left, d, version, ContentHash(r, left, d));
    } else {
      assert left[d] == ms[d] && (d, ms[d].version) in r.recorded;
      if IsChanged(r, left, d) { WriteChangesIff(left, d, version, ContentHash(r, left, d)); }
    }
  }

  lemma WriteChangesIff<H>(ms: Manifests<H>, d: int, version: int, hash: H)
    requires d in ms
    ensures Write(ms, d, version, hash) == ms <==> ms[d].version == version && ms[d].recordedHash == Some(hash)
  {
    if ms[d].version == version && ms[d].recordedHash == Some(hash) {
      assert Write(ms, d, version, hash)[d] == ms[d];
      assert Write(ms, d, version, hash) == ms;
    } else {
      assert Write(ms, d, version, hash)[d] != ms[d];
    }
  }

  /** While its pins had settled, the rerun's turns change nothing. */
  lemma {:induction false} RerunPrefix<H>(r: Release<H>, ms: Manifests<H>, version: int, dirs: seq<int>, n: nat, k: nat)
    requires IsWorkspace(ms, dirs) && n <= k <= |dirs| && IsCollisionFree(r) && IsFresh(r, version)
    requires AllSettled(r, ms, version, dirs, n, k)
    ensures var left := After(r, ms, version, dirs, k); After(r, left, version, dirs, n) == left
  {
    if n > 0 {
      RerunPrefix(r, ms, version, dirs, n - 1, k);
      SameTurnIff(r, ms, version, dirs, n - 1, k);
    }
  }

  /** The runs from two workspaces agree after `k` turns. */
  ghost predicate SameAt<H>(r: Release<H>, ms: Manifests<H>, left: Manifests<H>, version: int, dirs: seq<int>, k: nat)
    requires AllIn(ms.Keys, dirs) && AllIn(left.Keys, dirs) && k <= |dirs|
  {
    After(r, left, version, dirs, k) == After(r, ms, version, dirs, k)
  }

  lemma RunsAgreeNext<H>(r: Release<H>, ms: Manifests<H>, left: Manifests<H>, version: int, dirs: seq<int>, n: nat)
    requires AllIn(ms.Keys, dirs) && AllIn(left.Keys, dirs) && 0 < n <= |dirs|
    requires SameAt(r, ms, left, version, dirs, n - 1)
    ensures SameAt(r, ms, left, version, dirs, n)
  {
  }

  /** Runs that agree at `k` agree from there on. */
  lemma RunsAgreeAfter<H>(r: Release<H>, ms: Manifests<H>, left: Manifests<H>, version: int, dirs: seq<int>, k: nat,
                          n: nat)
    requires AllIn(ms.Keys, dirs) && AllIn(left.Keys, dirs) && k <= n <= |dirs|
    requires SameAt(r, ms, left, version, dirs, k)
    ensures SameAt(r, ms, left, version, dirs, n)
  {
    for j := k to n
      invariant SameAt(r, ms, left, version, dirs, j)
    {
      RunsAgreeNext(r, ms, left, version, dirs, j + 1);
    }
  }

  /** The first package whose pins had not settled is written differently by the rerun, and stays so. */
  lemma UnsettledIsRewritten<H>(r: Release<H>, ms: Manifests<H>, version: int, dirs: seq<int>, i: nat, k: nat)
    requires IsWorkspace(ms, dirs) && i < k <= |dirs| && IsCollisionFree(r) && IsFresh(r, version)
    requires AllSettled(r, ms, version, dirs, i, k) && !PinsSettled(r, ms, version, dirs, i, k)
    ensures After(r, After(r, ms, version, dirs, k), version, dirs, |dirs|) != After(r, ms, version, dirs, |dirs|)
  {
    var left := After(r, ms, version, dirs, k);
    RerunPrefix(r, ms, version, dirs, i, k);
    SameTurnIff(r, ms, version, dirs, i, k);
    assert After(r, left, version, dirs, i + 1) == Look(r, left, version, dirs[i]);
    LookChangesOwn(r, left, version, dirs[i]);
    UntouchedAfter(r, left, version, dirs, i, |dirs|);
    UntouchedAfter(r, ms, version, dirs, i, |dirs|);
    UntouchedAfter(r, ms, version, dirs, i, k);
  }

  lemma LookChangesOwn<H>(r: Release<H>, ms: Manifests<H>, version: int, d: int)
    requires d in ms && Look(r, ms, version, d) != ms
    ensures Look(r, ms, version, d)[d] != ms[d]
  {
    WriteChangesIff(ms, d, version, ContentHash(r, ms, d));
  }

  lemma {:induction false} FirstUnsettled<H>(r: Release<H>, ms: Manifests<H>, version: int, dirs: seq<int>, n: nat,
                                             k: nat) returns (i: nat)
    requires IsWorkspace(ms, dirs) && n <= k <= |dirs| && !AllSettled(r, ms, version, dirs, n, k)
    ensures i < n && AllSettled(r, ms, version, dirs, i, k) && !PinsSettled(r, ms, version, dirs, i, k)
  {
    if AllSettled(r, ms, version, dirs, n - 1, k) {
      i := n - 1;
    } else {
      i := FirstUnsettled(r, ms, version, dirs, n - 1, k);
    }
  }

  /** A run that stopped after `k` turns and is run again leaves what an uninterrupted run leaves. */
  ghost predicate RerunIsTheSame<H>(r: Release<H>, ms: Manifests<H>, version: int, dirs: seq<int>, k: nat)
    requires IsWorkspace(ms, dirs) && k <= |dirs|
  {
    After(r, After(r, ms, version, dirs, k), version, dirs, |dirs|) == After(r, ms, version, dirs, |dirs|)
  }

  lemma RerunIsTheSameOnceSettled<H>(r: Release<H>, ms: Manifests<H>, version: int, dirs: seq<int>, k: nat)
    requires IsWorkspace(ms, dirs) && k <= |dirs| && IsCollisionFree(r) && IsFresh(r, version)
    ensures RerunIsTheSame(r, ms, version, dirs, k) <==> AllSettled(r, ms, version, dirs, k, k)
  {
    if AllSettled(r, ms, version, dirs, k, k) {
      RerunPrefix(r, ms, version, dirs, k, k);
      RunsAgreeAfter(r, ms, After(r, ms, version, dirs, k), version, dirs, k, |dirs|);
    } else {
      var i := FirstUnsettled(r, ms, version, dirs, k, k);
      UnsettledIsRewritten(r, ms, version, dirs, i, k);
    }
  }

  /**
   * A run that failed at package `k` and is run again with the same version leaves the workspace of an
   * uninterrupted run if and only if none of the first `k` packages pins one at or after it among them
   * that is due and takes a new version.
   */
  lemma RerunReachesTheSameIff<H>(r: Release<H>, ms: Manifests<H>, version: int, dirs: seq<int>, k: nat)
    requires IsWorkspace(ms, dirs) && k <= |dirs| && IsCollisionFree(r) && IsFresh(r, version)
    ensures RerunIsTheSame(r, ms, version, dirs, k) <==> AllPinsStay(r, ms, version, dirs, k)
  {
    RerunIsTheSameOnceSettled(r, ms, version, dirs, k);
    AllSettledIff(r, ms, version, dirs, k);
  }

  // ------------------------------------------- lists that are always right

  /** Every selected package ends with its own content hash. */
  ghost predicate LeavesRightHashes<H>(r: Release<H>, ms: Manifests<H>, version: int, dirs: seq<int>)
    requires IsWorkspace(ms, dirs)
  {
    forall i :: 0 <= i < |dirs| && IsSelected(r, ms, version, dirs, i) ==>
      IsHashRight(r, After(r, ms, version, dirs, |dirs|), dirs[i])
  }

  ghost predicate RerunsAreTheSame<H>(r: Release<H>, ms: Manifests<H>, version: int, dirs: seq<int>)
    requires IsWorkspace(ms, dirs)
  {
    forall k: nat :: k <= |dirs| ==> RerunIsTheSame(r, ms, version, dirs, k)
  }

  /** With pins that precede, a run with any record does all that is asked of it. */
  lemma PrecedingPinsSuffice<H>(r: Release<H>, ms: Manifests<H>, version: int, dirs: seq<int>, later: int)
    requires IsWorkspace(ms, dirs) && IsCollisionFree(r) && IsFresh(r, version) && PinsPrecede(ms, version, dirs)
    ensures LeavesRightHashes(r, ms, version, dirs) && SecondRunIsIdle(r, ms, version, dirs, later)
    ensures RerunsAreTheSame(r, ms, version, dirs)
  {
    forall i | 0 <= i < |dirs| && IsSelected(r, ms, version, dirs, i)
      ensures IsHashRight(r, After(r, ms, version, dirs, |dirs|), dirs[i])
    {
      PrecedingPinsSettle(r, ms, version, dirs, i, |dirs|);
      WrittenHashIsFinalOnceSettled(r, ms, version, dirs, i);
    }
    forall k: nat | k <= |dirs| ensures RerunIsTheSame(r, ms, version, dirs, k) {
      RerunReachesTheSameIff(r, ms, version, dirs, k);
    }
    SecondRunSelectsNothingIff(r, ms, version, dirs, later);
  }

  /** With nothing recorded every package is due, so nothing less will do. */
  lemma PrecedingPinsAreNeeded<H>(r: Release<H>, ms: Manifests<H>, version: int, dirs: seq<int>, later: int)
    requires IsWorkspace(ms, dirs) && IsCollisionFree(r) && NothingRecorded(r)
    ensures LeavesRightHashes(r, ms, version, dirs) ==> PinsPrecede(ms, version, dirs)
    ensures SecondRunIsIdle(r, ms, version, dirs, later) ==> PinsPrecede(ms, version, dirs)
    ensures RerunsAreTheSame(r, ms, version, dirs) ==> PinsPrecede(ms, version, dirs)
  {
    if AllPinsStay(r, ms, version, dirs, |dirs|) { AllStayPrecedes(r, ms, version, dirs); }
    if LeavesRightHashes(r, ms, version, dirs) {
      forall i | 0 <= i < |dirs| ensures PinsStay(r, ms, version, dirs, i, |dirs|) {
        SelectedIffDue(r, ms, version, dirs, i);
        WrittenHashIsFinalIff(r, ms, version, dirs, i);
      }
    }
    SecondRunSelectsNothingIff(r, ms, version, dirs, later);
    RerunReachesTheSameIff(r, ms, version, dirs, |dirs|);
  }

  lemma AllStayPrecedes<H>(r: Release<H>, ms: Manifests<H>, version: int, dirs: seq<int>)
    requires AllIn(ms.Keys, dirs) && NothingRecorded(r) && AllPinsStay(r, ms, version, dirs, |dirs|)
    ensures PinsPrecede(ms, version, dirs)
  {
    forall i, j | 0 <= i <= j < |dirs| && dirs[j] in ms[dirs[i]].pins ensures ms[dirs[j]].version == version {
      assert PinsStay(r, ms, version, dirs, i, |dirs|);
      assert IsDue(r, ms, dirs, j);
    }
  }

  lemma SameHashSameCollisions<H>(r: Release<H>, p: Release<H>)
    requires IsCollisionFree(r) && p.hash == r.hash
    ensures IsCollisionFree(p)
  {
    forall a, x, b, y ensures Distinguishes(p, a, x, b, y) {
      assert Distinguishes(r, a, x, b, y);
    }
  }

  /**
   * The lists on which the pass is right whatever npm has recorded: those whose pins precede. The same
   * lists are the ones on which a second run is idle, and those on which a failed run may be repeated.
   */
  lemma AlwaysRightIff<H(!new)>(hash: (int, map<int, int>) -> H, ms: Manifests<H>, version: int, dirs: seq<int>,
                                later: int)
    requires IsWorkspace(ms, dirs) && IsCollisionFree(Release(hash, map[]))
    ensures PinsPrecede(ms, version, dirs) <==>
      forall recorded | IsFresh(Release(hash, recorded), version) ::
        LeavesRightHashes(Release(hash, recorded), ms, version, dirs)
    ensures PinsPrecede(ms, version, dirs) <==>
      forall recorded | IsFresh(Release(hash, recorded), version) ::
        SecondRunIsIdle(Release(hash, recorded), ms, version, dirs, later)
    ensures PinsPrecede(ms, version, dirs) <==>
      forall recorded | IsFresh(Release(hash, recorded), version) ::
        RerunsAreTheSame(Release(hash, recorded), ms, version, dirs)
  {
    var empty := Release(hash, map[]);
    assert IsFresh(empty, version);
    PrecedingPinsAreNeeded(empty, ms, version, dirs, later);
    if PinsPrecede(ms, version, dirs) {
      forall recorded | IsFresh(Release(hash, recorded), version)
        ensures LeavesRightHashes(Release(hash, recorded), ms, version, dirs)
          && SecondRunIsIdle(Release(hash, recorded), ms, version, dirs, later)
          && RerunsAreTheSame(Release(hash, recorded), ms, version, dirs)
      {
        SameHashSameCollisions(empty, Release(hash, recorded));
        PrecedingPinsSuffice(Release(hash, recorded), ms, version, dirs, later);
      }
    }
  }

  /** Two packages whose order check passes: the first pins the second outside its production dependencies. */
  function PinnedLater<H>(): Manifests<H> {
    map[0 := Manifest(1, None, [], {1}, 5), 1 := Manifest(1, None, [], {}, 6)]
  }

  /** A hash that keeps all it is given. */
  function Keeping(): Release<(int, map<int, int>)> {
    Release((content, pins) => (content, pins), map[])
  }

  /** The order check passes, and the run leaves a hash that is not the package's, never to settle. */
  lemma OrderCheckIsNotEnough(version: int, later: int)
    requires version != 1
    ensures var (r, ms, dirs) := (Keeping(), PinnedLater<(int, map<int, int>)>(), [0, 1]);
      && IsCollisionFree(r) && IsFresh(r, version) && IsWorkspace(ms, dirs) && IsOrdered(ms, dirs)
      && !LeavesRightHashes(r, ms, version, dirs)
      && !SecondRunIsIdle(r, ms, version, dirs, later)
      && !RerunsAreTheSame(r, ms, version, dirs)
  {
    var (r, ms, dirs) := (Keeping(), PinnedLater(), [0, 1]);
    assert dirs[1] in ms[dirs[0]].pins && ms[dirs[1]].version != version;
    assert !PinsPrecede(ms, version, dirs);
    PrecedingPinsAreNeeded(r, ms, version, dirs, later);
  }
}
