/** The bounded most-recently-used map of packages/identity/src/bounded-cache.ts. */
module BoundedCaches {
  import opened Wrappers
  import opened InsertionMaps
  import opened Sequences

  // `BoundedCache` updates its entries as the source updates its `Map`; the functions beside it say what
  // a list-based LRU does, and the lemmas say what that means over a whole trace of operations.

  // ------------------------------------------------------- the list-based LRU

  /** Moves `key` to the most recently used end, holding `value`. */
  function Touched<K(==), V>(es: seq<(K, V)>, key: K, value: V): seq<(K, V)> {
    Without(es, key) + [(key, value)]
  }

  function AfterGet<K(==), V>(es: seq<(K, V)>, key: K): seq<(K, V)> {
    match Find(es, key)
    case None => es
    case Some(value) => Touched(es, key, value)
  }

  function AfterSet<K(==), V>(es: seq<(K, V)>, capacity: nat, key: K, value: V): seq<(K, V)> {
    var touched := Touched(es, key, value);
    if |touched| > capacity then touched[1..] else touched
  }

  lemma TouchedFacts<K, V>(es: seq<(K, V)>, key: K, value: V)
    requires Distinct(es)
    ensures Distinct(Touched(es, key, value))
    ensures |Touched(es, key, value)| == if Find(es, key).Some? then |es| else |es| + 1
  {
    WithoutFacts(es, key);
    FindWithout(es, key, key);
    DistinctSnoc(Without(es, key), key, value);
  }

  lemma FindTouched<K, V>(es: seq<(K, V)>, key: K, value: V, other: K)
    ensures Find(Touched(es, key, value), other) == if other == key then Some(value) else Find(es, other)
  {
    FindWithout(es, key, other);
    FindAppend(Without(es, key), [(key, value)], other);
  }

  /** What the cache answers after a set: the new value, the old ones, except the dropped key. */
  lemma SetThenFind<K, V>(es: seq<(K, V)>, capacity: nat, key: K, value: V, other: K)
    requires Distinct(es) && |es| <= capacity && capacity > 0
    ensures var after := AfterSet(es, capacity, key, value);
      && Distinct(after) && |after| <= capacity
      && Find(after, key) == Some(value)
      && (other != key && Find(after, other) != Find(es, other) ==>
            |es| == capacity && Find(es, key) == None && other == es[0].0 && Find(after, other) == None)
  {
    TouchedFacts(es, key, value);
    WithoutFacts(es, key);
    FindTouched(es, key, value, key);
    FindTouched(es, key, value, other);
  }

  /**
   * A map that keeps at most `capacity` entries. `entries` is the source's `Map`: least recently
   * used first.
   */
  class BoundedCache<K(==), V> {
    const capacity: nat
    var entries: seq<(K, V)>

    ghost predicate Valid()
      reads this
    {
      Distinct(entries) && |entries| <= capacity
    }

    constructor (capacity: nat)
      ensures Valid() && this.capacity == capacity && entries == []
    {
      this.capacity := capacity;
      entries := [];
    }

    method Touch(key: K, value: V)
      requires Distinct(entries)
      modifies this`entries
      ensures entries == Touched(old(entries), key, value) && Distinct(entries)
    {
      entries := Without(entries, key);
      FindWithout(old(entries), key, key);
      PutAfterDelete(entries, key, value);
      entries := Put(entries, key, value);
      TouchedFacts(old(entries), key, value);
    }

    method Get(key: K) returns (found: Option<V>)
      requires Valid()
      modifies this`entries
      ensures Valid()
      ensures found == Find(old(entries), key) && entries == AfterGet(old(entries), key)
    {
      found := Find(entries, key);
      match found {
        case None => return;
        case Some(value) =>
          TouchedFacts(entries, key, value);
          Touch(key, value);
      }
    }

    method Set(key: K, value: V)
      requires Valid()
      modifies this`entries
      ensures Valid()
      ensures entries == AfterSet(old(entries), capacity, key, value)
    {
      TouchedFacts(entries, key, value);
      Touch(key, value);
      if |entries| > capacity {
        var oldest := entries[0];
        DeleteFirst(entries);
        entries := Without(entries, oldest.0);
      }
    }

    function Size(): (n: nat)
      requires Valid()
      reads this
      ensures n <= capacity
    {
      |entries|
    }
  }

  lemma DeleteFirst<K, V>(es: seq<(K, V)>)
    requires Distinct(es) && es != []
    ensures Without(es, es[0].0) == es[1..]
  {
    WithoutFacts(es[1..], es[0].0);
  }

  // ------------------------------------------------------------- whole traces

  datatype Op<K, V> = Get(key: K) | Set(key: K, value: V)

  function Step<K(==), V>(es: seq<(K, V)>, capacity: nat, op: Op<K, V>): seq<(K, V)> {
    match op
    case Get(key) => AfterGet(es, key)
    case Set(key, value) => AfterSet(es, capacity, key, value)
  }

  function Run<K(==), V>(trace: seq<Op<K, V>>, capacity: nat): seq<(K, V)> {
    if trace == [] then []
    else Step(Run(trace[..|trace| - 1], capacity), capacity, trace[|trace| - 1])
  }

  lemma {:induction false} RunIsBounded<K, V>(trace: seq<Op<K, V>>, capacity: nat)
    ensures Distinct(Run(trace, capacity)) && |Run(trace, capacity)| <= capacity
  {
    if trace != [] {
      var before := trace[..|trace| - 1];
      RunIsBounded(before, capacity);
      var es := Run(before, capacity);
      match trace[|trace| - 1] {
        case Get(key) =>
          if Find(es, key).Some? { TouchedFacts(es, key, Find(es, key).value); }
        case Set(key, value) =>
          TouchedFacts(es, key, value);
      }
    }
  }

  // The reference: which keys a trace uses, and those keys by their last use.

  function Keys<K, V>(es: seq<(K, V)>): (ks: seq<K>)
    ensures |ks| == |es|
  {
    if es == [] then [] else [es[0].0] + Keys(es[1..])
  }

  lemma {:induction false} KeysSnoc<K, V>(es: seq<(K, V)>, key: K, value: V)
    ensures Keys(es + [(key, value)]) == Keys(es) + [key]
  {
    if es != [] {
      assert (es + [(key, value)])[1..] == es[1..] + [(key, value)];
      KeysSnoc(es[1..], key, value);
    }
  }

  /** The keys a trace reads with success or stores, in order. */
  function Uses<K(==), V>(trace: seq<Op<K, V>>, capacity: nat): seq<K> {
    if trace == [] then []
    else
      var before := trace[..|trace| - 1];
      var op := trace[|trace| - 1];
      Uses(before, capacity)
      + (if op.Set? || Find(Run(before, capacity), op.key).Some? then [op.key] else [])
  }

  function Drop<K(==)>(ks: seq<K>, key: K): seq<K> {
    if ks == [] then []
    else if ks[0] == key then Drop(ks[1..], key)
    else [ks[0]] + Drop(ks[1..], key)
  }

  /** The distinct keys of `uses`, ordered by last occurrence. */
  function ByLastUse<K(==)>(uses: seq<K>): seq<K> {
    if uses == [] then []
    else
      var key := uses[|uses| - 1];
      Drop(ByLastUse(uses[..|uses| - 1]), key) + [key]
  }

  function Last<K>(ks: seq<K>, n: nat): seq<K> {
    if |ks| <= n then ks else ks[|ks| - n..]
  }

  lemma {:induction false} DropAppend<K>(a: seq<K>, b: seq<K>, key: K)
    ensures Drop(a + b, key) == Drop(a, key) + Drop(b, key)
  {
    if a == [] {
      assert a + b == b;
    } else {
      assert (a + b)[1..] == a[1..] + b;
      DropAppend(a[1..], b, key);
    }
  }

  lemma {:induction false} DropMember<K>(ks: seq<K>, key: K, other: K)
    ensures other in Drop(ks, key) <==> other in ks && other != key
  {
    if ks != [] {
      DropMember(ks[1..], key, other);
      assert ks == [ks[0]] + ks[1..];
    }
  }

  lemma {:induction false} DropFacts<K>(ks: seq<K>, key: K)
    ensures key !in ks ==> Drop(ks, key) == ks
    ensures NoRepeats(ks) ==> NoRepeats(Drop(ks, key))
    ensures NoRepeats(ks) && key in ks ==> |Drop(ks, key)| == |ks| - 1
  {
    if ks != [] {
      DropFacts(ks[1..], key);
      DropMember(ks[1..], key, ks[0]);
      assert ks == [ks[0]] + ks[1..];
    }
  }

  lemma NoRepeatsSplit<K>(a: seq<K>, b: seq<K>, key: K)
    requires NoRepeats(a + b)
    ensures NoRepeats(b) && (key in b ==> key !in a)
  {
    forall i, j | 0 <= i < j < |b| ensures b[i] != b[j] {
      assert (a + b)[|a| + i] == b[i] && (a + b)[|a| + j] == b[j];
    }
    forall i, j | 0 <= i < |a| && 0 <= j < |b| ensures a[i] != b[j] {
      assert (a + b)[i] == a[i] && (a + b)[|a| + j] == b[j];
    }
  }

  lemma {:induction false} ByLastUseFacts<K>(uses: seq<K>)
    ensures NoRepeats(ByLastUse(uses))
  {
    if uses != [] {
      var before := uses[..|uses| - 1];
      var key := uses[|uses| - 1];
      ByLastUseFacts(before);
      DropFacts(ByLastUse(before), key);
      DropMember(ByLastUse(before), key, key);
    }
  }

  lemma {:induction false} KeysOfWithout<K, V>(es: seq<(K, V)>, key: K)
    ensures Keys(Without(es, key)) == Drop(Keys(es), key)
  {
    if es != [] {
      KeysOfWithout(es[1..], key);
    }
  }

  /** Using a key moves the window of the `n` last used keys exactly as the cache moves. */
  lemma WindowAfterUse<K>(ks: seq<K>, n: nat, key: K)
    requires NoRepeats(ks) && n > 0
    ensures Last(Drop(ks, key) + [key], n) == Last(Drop(Last(ks, n), key) + [key], n)
    ensures key in Last(ks, n) ==> |Drop(Last(ks, n), key) + [key]| == |Last(ks, n)|
  {
    var cut := if |ks| <= n then 0 else |ks| - n;
    var older, window := ks[..cut], ks[cut..];
    assert ks == older + window && window == Last(ks, n);
    DropAppend(older, window, key);
    DropFacts(older, key);
    NoRepeatsSplit(older, window, key);
    WindowShift(older, Drop(older, key), window, Drop(window, key), n, key);
  }

  lemma WindowShift<K>(older: seq<K>, older': seq<K>, window: seq<K>, window': seq<K>, n: nat, key: K)
    requires n > 0 && |window| <= n && (|window| < n ==> older == [])
    requires older == [] ==> older' == []
    requires NoRepeats(window) && window' == Drop(window, key)
    requires key in window ==> older' == older
    ensures Last(older' + window' + [key], n) == Last(window' + [key], n)
    ensures key in window ==> |window' + [key]| == |window|
  {
    DropFacts(window, key);
    if older' == [] {
      assert older' + window' == window';
    } else {
      assert |window' + [key]| >= n;
      var all := older' + window' + [key];
      var cut := |all| - n;
      assert all[cut..] == (window' + [key])[|window' + [key]| - n..];
    }
  }

  /** A use moves the cache's keys; a set may then drop the first of them. */
  lemma KeysAfterUse<K, V>(es: seq<(K, V)>, capacity: nat, key: K, value: V)
    requires Distinct(es) && |es| <= capacity
    ensures Keys(AfterSet(es, capacity, key, value)) == Last(Drop(Keys(es), key) + [key], capacity)
    ensures Find(es, key).Some? ==>
      Keys(Touched(es, key, value)) == Last(Drop(Keys(es), key) + [key], capacity)
  {
    KeysOfWithout(es, key);
    TouchedFacts(es, key, value);
    KeysSnoc(Without(es, key), key, value);
    KeysOfLast(Touched(es, key, value), capacity);
  }

  lemma KeysOfLast<K, V>(touched: seq<(K, V)>, capacity: nat)
    requires |touched| <= capacity + 1
    ensures Keys(if |touched| > capacity then touched[1..] else touched) == Last(Keys(touched), capacity)
  {
  }

  /**
   * The cache holds exactly the `capacity` most recently used keys, least recent first, after
   * every trace.
   */
  lemma {:induction false} HoldsMostRecentlyUsed<K, V>(trace: seq<Op<K, V>>, capacity: nat)
    requires capacity > 0
    ensures Keys(Run(trace, capacity)) == Last(ByLastUse(Uses(trace, capacity)), capacity)
  {
    if trace != [] {
      var before := trace[..|trace| - 1];
      var op := trace[|trace| - 1];
      var es, uses := Run(before, capacity), Uses(before, capacity);
      HoldsMostRecentlyUsed(before, capacity);
      RunIsBounded(before, capacity);
      var found := Find(es, op.key);
      if op.Set? || found.Some? {
        KeysAfterUse(es, capacity, op.key, if op.Set? then op.value else found.value);
        ByLastUseFacts(uses);
        WindowAfterUse(ByLastUse(uses), capacity, op.key);
        ByLastUseSnoc(uses, op.key);
      } else {
        assert Uses(trace, capacity) == uses;
      }
    }
  }

  lemma ByLastUseSnoc<K>(uses: seq<K>, key: K)
    ensures ByLastUse(uses + [key]) == Drop(ByLastUse(uses), key) + [key]
  {
    assert (uses + [key])[..|uses + [key]| - 1] == uses;
  }

  /** The value `key` was last given in `trace`. */
  function LastValue<K(==), V>(trace: seq<Op<K, V>>, key: K): Option<V> {
    if trace == [] then None
    else
      var op := trace[|trace| - 1];
      if op.Set? && op.key == key then Some(op.value) else LastValue(trace[..|trace| - 1], key)
  }

  /** Every answer is the value last stored under that key, and stored keys count toward the size. */
  lemma {:induction false} HoldsLastValues<K, V>(trace: seq<Op<K, V>>, capacity: nat, key: K)
    requires capacity > 0
    ensures var found := Find(Run(trace, capacity), key);
      found.Some? ==> found == LastValue(trace, key)
  {
    if trace != [] {
      var before := trace[..|trace| - 1];
      var es := Run(before, capacity);
      HoldsLastValues(before, capacity, key);
      RunIsBounded(before, capacity);
      match trace[|trace| - 1] {
        case Get(k) =>
          match Find(es, k) {
            case None =>
            case Some(value) =>
              FindTouched(es, k, value, key);
          }
        case Set(k, value) =>
          SetThenFind(es, capacity, k, value, key);
      }
    }
  }

  // ------------------------------------------------- how long a value stays

  /** The keys after the first `key`: those used later. */
  function Newer<K(==)>(ks: seq<K>, key: K): seq<K> {
    if ks == [] then [] else if ks[0] == key then ks[1..] else Newer(ks[1..], key)
  }

  lemma {:induction false} NewerAppend<K>(ks: seq<K>, key: K, more: seq<K>)
    requires key in ks
    ensures Newer(ks + more, key) == Newer(ks, key) + more
  {
    assert (ks + more)[1..] == ks[1..] + more;
    if ks[0] != key {
      assert ks == [ks[0]] + ks[1..];
      NewerAppend(ks[1..], key, more);
    }
  }

  lemma {:induction false} NewerDrop<K>(ks: seq<K>, key: K, other: K)
    requires key in ks && other != key
    ensures Newer(Drop(ks, other), key) == Drop(Newer(ks, key), other) && key in Drop(ks, other)
  {
    DropMember(ks, other, key);
    if ks[0] != key {
      assert ks == [ks[0]] + ks[1..];
      NewerDrop(ks[1..], key, other);
      if ks[0] != other { assert Drop(ks, other)[1..] == Drop(ks[1..], other); }
    } else {
      assert Drop(ks, other)[1..] == Drop(ks[1..], other);
    }
  }

  /** Being among the last `n` is having fewer than `n` newer keys. */
  lemma {:induction false} InLastIff<K>(ks: seq<K>, n: nat, key: K)
    requires NoRepeats(ks) && key in ks
    ensures key in Last(ks, n) <==> |Newer(ks, key)| < n
  {
    var i :| 0 <= i < |ks| && ks[i] == key;
    NewerAt(ks, key, i);
    if key in Last(ks, n) && |ks| > n {
      var j :| 0 <= j < n && ks[|ks| - n..][j] == key;
      assert ks[|ks| - n + j] == key;
    }
    if |ks| > n && i >= |ks| - n { assert ks[|ks| - n..][i - (|ks| - n)] == key; }
  }

  lemma {:induction false} NewerAt<K>(ks: seq<K>, key: K, i: nat)
    requires NoRepeats(ks) && i < |ks| && ks[i] == key
    ensures Newer(ks, key) == ks[i + 1..]
  {
    if i > 0 {
      assert ks[0] != ks[i];
      NewerAt(ks[1..], key, i - 1);
    }
  }

  lemma {:induction false} NoMoreThan<K>(ks: seq<K>, keys: set<K>)
    requires NoRepeats(ks) && forall k :: k in ks ==> k in keys
    ensures |ks| <= |keys|
  {
    if ks != [] {
      assert ks == [ks[0]] + ks[1..];
      assert ks[0] in keys && ks[0] !in ks[1..];
      NoMoreThan(ks[1..], keys - {ks[0]});
    }
  }

  /** The keys other than `key` that a trace asks for or stores. */
  function OtherKeys<K(==), V>(trace: seq<Op<K, V>>, key: K): set<K> {
    set i | 0 <= i < |trace| && trace[i].key != key :: trace[i].key
  }

  ghost predicate NeverSet<K, V>(trace: seq<Op<K, V>>, key: K) {
    forall i :: 0 <= i < |trace| && trace[i].Set? ==> trace[i].key != key
  }

  /** After `key` is stored, only keys that are asked for or stored later become newer. */
  lemma {:induction false} NewerAreLater<K, V>(before: seq<Op<K, V>>, key: K, value: V, later: seq<Op<K, V>>,
                                               capacity: nat)
    ensures var ks := ByLastUse(Uses(before + [Set(key, value)] + later, capacity));
      key in ks && forall k :: k in Newer(ks, key) ==> k in OtherKeys(later, key)
  {
    var stored := before + [Set(key, value)];
    if later == [] {
      assert stored + later == stored && stored[..|stored| - 1] == before;
      ByLastUseSnoc(Uses(before, capacity), key);
      LastIsNewest(ByLastUse(Uses(before, capacity)), key);
    } else {
      var last, earlier := later[|later| - 1], later[..|later| - 1];
      NewerAreLater(before, key, value, earlier, capacity);
      UsesSnoc(stored, later, capacity);
      OtherKeysSnoc(later, key);
      NewerStep(Uses(stored + earlier, capacity), Uses(stored + later, capacity), key, last.key,
                OtherKeys(earlier, key), OtherKeys(later, key));
    }
  }

  lemma UsesSnoc<K, V>(stored: seq<Op<K, V>>, later: seq<Op<K, V>>, capacity: nat)
    requires later != []
    ensures var uses := Uses(stored + later[..|later| - 1], capacity);
      Uses(stored + later, capacity) == uses || Uses(stored + later, capacity) == uses + [later[|later| - 1].key]
  {
    assert (stored + later)[..|stored + later| - 1] == stored + later[..|later| - 1];
    assert (stored + later)[|stored + later| - 1] == later[|later| - 1];
    var uses := Uses(stored + later[..|later| - 1], capacity);
    assert uses + [] == uses;
  }

  lemma OtherKeysSnoc<K, V>(later: seq<Op<K, V>>, key: K)
    requires later != []
    ensures OtherKeys(later[..|later| - 1], key) <= OtherKeys(later, key)
    ensures later[|later| - 1].key != key ==> later[|later| - 1].key in OtherKeys(later, key)
  {
    var earlier := later[..|later| - 1];
    assert forall i :: 0 <= i < |earlier| ==> earlier[i] == later[i];
  }

  lemma NewerStep<K>(uses: seq<K>, uses': seq<K>, key: K, used: K, earlier: set<K>, later: set<K>)
    requires uses' == uses || uses' == uses + [used]
    requires key in ByLastUse(uses) && forall k :: k in Newer(ByLastUse(uses), key) ==> k in earlier
    requires earlier <= later && (used != key ==> used in later)
    ensures key in ByLastUse(uses') && forall k :: k in Newer(ByLastUse(uses'), key) ==> k in later
  {
    if uses' == uses + [used] {
      ByLastUseSnoc(uses, used);
      NewerAfterUse(ByLastUse(uses), key, used);
    }
  }

  lemma LastIsNewest<K>(ks: seq<K>, key: K)
    ensures key in Drop(ks, key) + [key] && Newer(Drop(ks, key) + [key], key) == []
  {
    DropMember(ks, key, key);
    NewerOfLast(Drop(ks, key), key);
  }

  lemma {:induction false} NewerOfLast<K>(ks: seq<K>, key: K)
    requires key !in ks
    ensures Newer(ks + [key], key) == []
  {
    if ks != [] {
      assert (ks + [key])[1..] == ks[1..] + [key];
      NewerOfLast(ks[1..], key);
    }
  }

  lemma NewerAfterUse<K>(ks: seq<K>, key: K, used: K)
    requires key in ks
    ensures var after := Drop(ks, used) + [used];
      key in after && forall k :: k in Newer(after, key) ==> k in Newer(ks, key) || (k == used && used != key)
  {
    if used == key {
      LastIsNewest(ks, key);
    } else {
      NewerDrop(ks, key, used);
      NewerAppend(Drop(ks, used), key, [used]);
      forall k | k in Drop(Newer(ks, key), used) ensures k in Newer(ks, key) {
        DropMember(Newer(ks, key), used, k);
      }
    }
  }

  lemma {:induction false} LastValueAppend<K, V>(before: seq<Op<K, V>>, key: K, value: V, later: seq<Op<K, V>>)
    requires NeverSet(later, key)
    ensures LastValue(before + [Set(key, value)] + later, key) == Some(value)
  {
    var stored := before + [Set(key, value)];
    if later == [] {
      assert stored + later == stored;
    } else {
      assert (stored + later)[..|stored + later| - 1] == stored + later[..|later| - 1];
      LastValueAppend(before, key, value, later[..|later| - 1]);
    }
  }

  /** A key is found exactly when it is among the last used ones. */
  lemma {:induction false} FoundIffKey<K, V>(es: seq<(K, V)>, key: K)
    ensures Find(es, key).Some? <==> key in Keys(es)
  {
    if es != [] {
      FoundIffKey(es[1..], key);
      assert Keys(es) == [es[0].0] + Keys(es[1..]);
    }
  }

  /** A stored value is found until it is replaced, while fewer than `capacity` other keys come up after it. */
  lemma StoredValueStays<K, V>(before: seq<Op<K, V>>, key: K, value: V, later: seq<Op<K, V>>, capacity: nat)
    requires NeverSet(later, key) && |OtherKeys(later, key)| < capacity
    ensures Find(Run(before + [Set(key, value)] + later, capacity), key) == Some(value)
  {
    var trace := before + [Set(key, value)] + later;
    var ks := ByLastUse(Uses(trace, capacity));
    HoldsMostRecentlyUsed(trace, capacity);
    ByLastUseFacts(Uses(trace, capacity));
    NewerAreLater(before, key, value, later, capacity);
    var i :| 0 <= i < |ks| && ks[i] == key;
    NewerAt(ks, key, i);
    NoMoreThan(Newer(ks, key), OtherKeys(later, key));
    InLastIff(ks, capacity, key);
    FoundIffKey(Run(trace, capacity), key);
    HoldsLastValues(trace, capacity, key);
    LastValueAppend(before, key, value, later);
  }

  // ------------------------------------------------------- the stack property

  /** `small` is obtained from `large` by dropping entries. */
  ghost predicate Subsequence<T>(small: seq<T>, large: seq<T>) {
    if large == [] then
      small == []
    else
      || Subsequence(small, large[1..])
      || (small != [] && small[0] == large[0] && Subsequence(small[1..], large[1..]))
  }

  lemma {:induction false} SubsequenceRefl<T>(s: seq<T>)
    ensures Subsequence(s, s) && Subsequence([], s)
  {
    if s != [] { SubsequenceRefl(s[1..]); }
  }

  lemma {:induction false} SubsequenceTail<T>(small: seq<T>, large: seq<T>)
    requires Subsequence(small, large) && small != []
    ensures Subsequence(small[1..], large)
    decreases |large|
  {
    if Subsequence(small, large[1..]) { SubsequenceTail(small, large[1..]); }
  }

  lemma {:induction false} SubsequenceWithout<K, V>(small: seq<(K, V)>, large: seq<(K, V)>, key: K)
    requires Subsequence(small, large)
    ensures Subsequence(Without(small, key), Without(large, key))
    decreases |large|
  {
    if large != [] {
      var w := Without(large, key);
      if Subsequence(small, large[1..]) {
        SubsequenceWithout(small, large[1..], key);
        if large[0].0 != key { assert w[1..] == Without(large[1..], key); }
      } else {
        SubsequenceWithout(small[1..], large[1..], key);
        if large[0].0 != key {
          assert w[1..] == Without(large[1..], key);
          assert Without(small, key)[1..] == Without(small[1..], key);
        }
      }
    }
  }

  lemma {:induction false} SubsequenceSnoc<T>(small: seq<T>, large: seq<T>, x: T)
    requires Subsequence(small, large)
    ensures Subsequence(small, large + [x]) && Subsequence(small + [x], large + [x])
    decreases |large|
  {
    if large == [] {
      assert small + [x] == [x] && large + [x] == [x];
      SubsequenceRefl([x]);
    } else {
      assert (large + [x])[1..] == large[1..] + [x];
      if Subsequence(small, large[1..]) {
        SubsequenceSnoc(small, large[1..], x);
      } else {
        SubsequenceSnoc(small[1..], large[1..], x);
        assert (small + [x])[1..] == small[1..] + [x];
      }
    }
  }

  lemma {:induction false} SubsequenceFind<K, V>(small: seq<(K, V)>, large: seq<(K, V)>, key: K)
    requires Subsequence(small, large) && Distinct(large)
    ensures |small| <= |large|
    ensures Find(small, key).Some? ==> Find(large, key) == Find(small, key)
    decreases |large|
  {
    if large != [] {
      if Subsequence(small, large[1..]) {
        SubsequenceFind(small, large[1..], key);
      } else {
        SubsequenceFind(small[1..], large[1..], key);
      }
    }
  }

  /** The first entry of the large cache can only be the first entry of the small one. */
  lemma {:induction false} DropOldest<K, V>(small: seq<(K, V)>, large: seq<(K, V)>)
    requires Subsequence(small, large) && large != []
    ensures (small != [] && small[0] == large[0]) || Subsequence(small, large[1..])
    ensures small != [] ==> Subsequence(small[1..], large[1..])
  {
    if Subsequence(small, large[1..]) && small != [] {
      SubsequenceTail(small, large[1..]);
    }
  }

  /**
   * The stack property: on one trace, the smaller cache's entries are a subsequence of the larger
   * one's, and they are the same entries until the smaller cache first fills.
   */
  lemma {:induction false} StackProperty<K, V>(trace: seq<Op<K, V>>, small: nat, large: nat)
    requires 0 < small <= large
    ensures Subsequence(Run(trace, small), Run(trace, large))
    ensures |Run(trace, small)| < small ==> Run(trace, small) == Run(trace, large)
  {
    if trace != [] {
      var before := trace[..|trace| - 1];
      StackProperty(before, small, large);
      RunIsBounded(before, small);
      RunIsBounded(before, large);
      StackStep(Run(before, small), Run(before, large), small, large, trace[|trace| - 1]);
    }
  }

  lemma StackStep<K, V>(s: seq<(K, V)>, l: seq<(K, V)>, small: nat, large: nat, op: Op<K, V>)
    requires 0 < small <= large
    requires Distinct(s) && Distinct(l) && |s| <= small && |l| <= large
    requires Subsequence(s, l) && (|s| < small ==> s == l)
    ensures Subsequence(Step(s, small, op), Step(l, large, op))
    ensures |Step(s, small, op)| < small ==> Step(s, small, op) == Step(l, large, op)
  {
    var key := op.key;
    SubsequenceWithout(s, l, key);
    WithoutFacts(s, key);
    WithoutFacts(l, key);
    match op {
      case Get(_) =>
        if Find(s, key).Some? {
          SubsequenceFind(s, l, key);
          SubsequenceSnoc(Without(s, key), Without(l, key), (key, Find(s, key).value));
        } else if Find(l, key).Some? {
          assert Without(s, key) == s;
          SubsequenceSnoc(s, Without(l, key), (key, Find(l, key).value));
        }
      case Set(_, value) =>
        SubsequenceSnoc(Without(s, key), Without(l, key), (key, value));
        var ts, tl := Touched(s, key, value), Touched(l, key, value);
        assert Subsequence(ts, tl);
        if Find(s, key).Some? { SubsequenceFind(s, l, key); }
        DropOldest(ts, tl);
        if |ts| > small && |tl| <= large { SubsequenceTail(ts, tl); }
    }
  }

  /** The stack property as a client reads it: a hit in the smaller cache is the same hit in the larger. */
  lemma SmallerCacheIsContained<K, V>(trace: seq<Op<K, V>>, small: nat, large: nat, key: K)
    requires 0 < small <= large
    ensures Find(Run(trace, small), key).Some? ==>
      Find(Run(trace, large), key) == Find(Run(trace, small), key)
  {
    StackProperty(trace, small, large);
    RunIsBounded(trace, large);
    if Find(Run(trace, small), key).Some? {
      SubsequenceFind(Run(trace, small), Run(trace, large), key);
    }
  }

  // --------------------------------------------------- memoised key derivation

  /** Every cached value is what `derive` gives for its key. */
  ghost predicate Memoises<K(!new), V, E>(es: seq<(K, V)>, derive: K -> Result<V, E>) {
    forall k :: Find(es, k).Some? ==> derive(k) == Ok(Find(es, k).value)
  }

  /**
   * `cachedPerPublicKey`: derivation through the cache equals direct derivation in every cache
   * state the memo reaches, and a failed derivation is not kept.
   */
  method CachedPerPublicKey<K(==,!new), V, E>(cache: BoundedCache<K, V>, key: K, derive: K -> Result<V, E>)
    returns (derived: Result<V, E>)
    requires cache.Valid() && Memoises(cache.entries, derive)
    modifies cache`entries
    ensures cache.Valid() && Memoises(cache.entries, derive)
    ensures derived == derive(key)
    ensures derived.Err? ==> cache.entries == old(cache.entries)
    ensures derived.Ok? && cache.capacity > 0 ==> Find(cache.entries, key) == Some(derived.value)
  {
    var es := cache.entries;
    var found := cache.Get(key);
    match found {
      case Some(value) =>
        derived := Ok(value);
        MemoTouched(es, key, value, derive);
        FindTouched(es, key, value, key);
      case None =>
        derived := derive(key);
        if derived.Ok? {
          cache.Set(key, derived.value);
          MemoSet(es, cache.capacity, key, derived.value, derive);
        }
    }
  }

  lemma MemoTouched<K(!new), V, E>(es: seq<(K, V)>, key: K, value: V, derive: K -> Result<V, E>)
    requires Memoises(es, derive) && derive(key) == Ok(value)
    ensures Memoises(Touched(es, key, value), derive)
  {
    forall k { FindTouched(es, key, value, k); }
  }

  lemma MemoSet<K(!new), V, E>(es: seq<(K, V)>, capacity: nat, key: K, value: V, derive: K -> Result<V, E>)
    requires Distinct(es) && |es| <= capacity
    requires Memoises(es, derive) && derive(key) == Ok(value)
    ensures Memoises(AfterSet(es, capacity, key, value), derive)
    ensures capacity > 0 ==> Find(AfterSet(es, capacity, key, value), key) == Some(value)
  {
    if capacity > 0 {
      SetThenFind(es, capacity, key, value, key);
      MemoTouched(es, key, value, derive);
      TouchedFacts(es, key, value);
    }
  }

  /** Whatever is stored is what `derive` gave. */
  ghost predicate StoresDerived<K, V, E>(trace: seq<Op<K, V>>, derive: K -> Result<V, E>) {
    forall i :: 0 <= i < |trace| && trace[i].Set? ==> derive(trace[i].key) == Ok(trace[i].value)
  }

  /**
   * Derivations may overlap: with the reads and stores of any number of callers in any order, every
   * value the cache holds is the derived one.
   */
  lemma {:induction false} MemoisesInAnyOrder<K(!new), V, E>(trace: seq<Op<K, V>>, capacity: nat,
                                                             derive: K -> Result<V, E>)
    requires StoresDerived(trace, derive)
    ensures Memoises(Run(trace, capacity), derive)
  {
    if trace != [] {
      var before, op := trace[..|trace| - 1], trace[|trace| - 1];
      assert forall i :: 0 <= i < |before| ==> before[i] == trace[i];
      MemoisesInAnyOrder(before, capacity, derive);
      RunIsBounded(before, capacity);
      var es := Run(before, capacity);
      match op {
        case Get(key) => if Find(es, key).Some? { MemoTouched(es, key, Find(es, key).value, derive); }
        case Set(key, value) => MemoSet(es, capacity, key, value, derive);
      }
    }
  }
}
