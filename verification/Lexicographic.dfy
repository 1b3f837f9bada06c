/** The lexicographic order on bytes and code units, and sorting by it. */
module Lexicographic {

  // The order of decoded AgentIds, of `bytea` columns and of JavaScript strings, and why a sorted
  // sequence is determined by its elements.

  predicate Less(a: seq<int>, b: seq<int>) {
    b != [] && (a == [] || a[0] < b[0] || (a[0] == b[0] && Less(a[1..], b[1..])))
  }

  lemma {:induction false} LessIsTotal(a: seq<int>, b: seq<int>)
    ensures Less(a, b) || a == b || Less(b, a)
    ensures !(Less(a, b) && Less(b, a)) && !Less(a, a)
  {
    if a != [] && b != [] && a[0] == b[0] {
      LessIsTotal(a[1..], b[1..]);
      assert a == [a[0]] + a[1..] && b == [b[0]] + b[1..];
    }
    if a != [] { LessIsTotal(a[1..], a[1..]); }
  }

  lemma {:induction false} LessIsTransitive(a: seq<int>, b: seq<int>, c: seq<int>)
    requires Less(a, b) && Less(b, c)
    ensures Less(a, c)
  {
    if a != [] && a[0] == b[0] && b[0] == c[0] { LessIsTransitive(a[1..], b[1..], c[1..]); }
  }

  /** The sequences agree up to `k`, where `a` ends or has the smaller element. */
  predicate IsDecidedAt(a: seq<int>, b: seq<int>, k: nat) {
    k <= |a| && k < |b| && a[..k] == b[..k] && (k == |a| || a[k] < b[k])
  }

  /** The order said by positions: a proper prefix comes first, and else the first difference decides. */
  lemma {:induction false} LessIff(a: seq<int>, b: seq<int>)
    ensures Less(a, b) <==> exists k: nat :: IsDecidedAt(a, b, k)
  {
    if a == [] || b == [] || a[0] != b[0] {
      if b != [] && (a == [] || a[0] < b[0]) { assert IsDecidedAt(a, b, 0); }
      forall k: nat | 0 < k ensures !IsDecidedAt(a, b, k) {
        if k <= |a| && k < |b| { assert a[..k][0] == a[0] && b[..k][0] == b[0]; }
      }
    } else {
      LessIff(a[1..], b[1..]);
      if k: nat :| IsDecidedAt(a[1..], b[1..], k) {
        assert a[..k + 1] == [a[0]] + a[1..][..k] && b[..k + 1] == [b[0]] + b[1..][..k];
        assert IsDecidedAt(a, b, k + 1);
      }
      if k: nat :| IsDecidedAt(a, b, k) {
        assert k > 0;
        assert a[1..][..k - 1] == a[..k][1..] && b[1..][..k - 1] == b[..k][1..];
        assert IsDecidedAt(a[1..], b[1..], k - 1);
      }
    }
  }

  // ---------------------------------------------------------------- sorting

  /** Inserts `x` after every element whose key is not greater. */
  function InsertBy<T>(x: T, xs: seq<T>, key: T -> seq<int>): seq<T> {
    if xs == [] then [x]
    else if Less(key(x), key(xs[0])) then [x] + xs
    else [xs[0]] + InsertBy(x, xs[1..], key)
  }

  function SortBy<T>(xs: seq<T>, key: T -> seq<int>): seq<T> {
    if xs == [] then [] else InsertBy(xs[|xs| - 1], SortBy(xs[..|xs| - 1], key), key)
  }

  /** Neighbours are in order, equal keys allowed. */
  predicate SortedBy<T>(xs: seq<T>, key: T -> seq<int>) {
    |xs| < 2 || (!Less(key(xs[1]), key(xs[0])) && SortedBy(xs[1..], key))
  }

  /** Neighbours are strictly in order. */
  predicate AscendingBy<T>(xs: seq<T>, key: T -> seq<int>) {
    |xs| < 2 || (Less(key(xs[0]), key(xs[1])) && AscendingBy(xs[1..], key))
  }

  lemma {:induction false} InsertByFacts<T>(x: T, xs: seq<T>, key: T -> seq<int>)
    ensures multiset(InsertBy(x, xs, key)) == multiset(xs) + multiset{x}
    ensures SortedBy(xs, key) ==> SortedBy(InsertBy(x, xs, key), key)
  {
    if xs != [] {
      LessIsTotal(key(x), key(xs[0]));
      assert xs == [xs[0]] + xs[1..];
      if !Less(key(x), key(xs[0])) {
        InsertByFacts(x, xs[1..], key);
        if |xs| > 1 { assert InsertBy(x, xs[1..], key)[0] == x || InsertBy(x, xs[1..], key)[0] == xs[1]; }
      }
    }
  }

  lemma {:induction false} SortByFacts<T>(xs: seq<T>, key: T -> seq<int>)
    ensures multiset(SortBy(xs, key)) == multiset(xs)
    ensures |SortBy(xs, key)| == |xs|
    ensures SortedBy(SortBy(xs, key), key)
  {
    if xs != [] {
      var before, last := xs[..|xs| - 1], xs[|xs| - 1];
      SortByFacts(before, key);
      InsertByFacts(last, SortBy(before, key), key);
      MultisetOfLast(xs);
    }
    SameSize(SortBy(xs, key), xs);
  }

  lemma MultisetOfLast<T>(xs: seq<T>)
    requires xs != []
    ensures multiset(xs) == multiset(xs[..|xs| - 1]) + multiset{xs[|xs| - 1]}
  {
    assert xs == xs[..|xs| - 1] + [xs[|xs| - 1]];
  }

  lemma SameSize<T>(xs: seq<T>, ys: seq<T>)
    requires multiset(xs) == multiset(ys)
    ensures |xs| == |ys|
  {
    assert |multiset(xs)| == |xs| && |multiset(ys)| == |ys|;
  }

  lemma {:induction false} SortedFirst<T>(xs: seq<T>, key: T -> seq<int>, x: T)
    requires SortedBy(xs, key) && x in xs
    ensures !Less(key(x), key(xs[0]))
  {
    LessIsTotal(key(x), key(xs[0]));
    if x != xs[0] {
      assert xs == [xs[0]] + xs[1..];
      SortedFirst(xs[1..], key, x);
      if Less(key(x), key(xs[0])) {
        LessIsTotal(key(xs[1]), key(xs[0]));
        if key(xs[1]) != key(xs[0]) { LessIsTransitive(key(x), key(xs[0]), key(xs[1])); }
      }
    }
  }

  /** Elements with equal keys are equal. */
  ghost predicate KeysDetermine<T(!new)>(xs: multiset<T>, key: T -> seq<int>) {
    forall x, y :: x in xs && y in xs && key(x) == key(y) ==> x == y
  }

  /** Two sorted sequences with the same elements are the same sequence. */
  lemma {:induction false} SortedIsUnique<T(!new)>(xs: seq<T>, ys: seq<T>, key: T -> seq<int>)
    requires SortedBy(xs, key) && SortedBy(ys, key) && multiset(xs) == multiset(ys)
    requires KeysDetermine(multiset(xs), key)
    ensures xs == ys
  {
    assert |multiset(xs)| == |xs| && |multiset(ys)| == |ys|;
    if xs != [] {
      assert xs[0] in multiset(ys) && ys[0] in multiset(xs);
      SortedFirst(xs, key, ys[0]);
      SortedFirst(ys, key, xs[0]);
      LessIsTotal(key(xs[0]), key(ys[0]));
      assert xs[0] == ys[0];
      WithoutFirst(xs);
      WithoutFirst(ys);
      SortedIsUnique(xs[1..], ys[1..], key);
    }
  }

  lemma WithoutFirst<T>(xs: seq<T>)
    requires xs != []
    ensures xs == [xs[0]] + xs[1..] && multiset(xs[1..]) == multiset(xs) - multiset{xs[0]}
    ensures forall x :: x in multiset(xs[1..]) ==> x in multiset(xs)
  {
    assert xs == [xs[0]] + xs[1..];
  }

  /** Sorting does not depend on the order of its input. */
  lemma SortByIgnoresOrder<T(!new)>(xs: seq<T>, ys: seq<T>, key: T -> seq<int>)
    requires multiset(xs) == multiset(ys) && KeysDetermine(multiset(xs), key)
    ensures SortBy(xs, key) == SortBy(ys, key)
  {
    SortByFacts(xs, key);
    SortByFacts(ys, key);
    SortedIsUnique(SortBy(xs, key), SortBy(ys, key), key);
  }

  lemma {:induction false} AscendingPairwise<T>(xs: seq<T>, key: T -> seq<int>, i: nat, j: nat)
    requires AscendingBy(xs, key) && i < j < |xs|
    ensures Less(key(xs[i]), key(xs[j]))
  {
    if i > 0 {
      AscendingPairwise(xs[1..], key, i - 1, j - 1);
    } else if j > 1 {
      AscendingPairwise(xs[1..], key, 0, j - 1);
      LessIsTransitive(key(xs[0]), key(xs[1]), key(xs[j]));
    }
  }

  /** A sorted sequence without equal keys is strictly ascending. */
  lemma {:induction false} SortedDistinctIsAscending<T>(xs: seq<T>, key: T -> seq<int>)
    requires SortedBy(xs, key)
    requires forall i, j :: 0 <= i < j < |xs| ==> key(xs[i]) != key(xs[j])
    ensures AscendingBy(xs, key)
  {
    if |xs| >= 2 {
      LessIsTotal(key(xs[0]), key(xs[1]));
      SortedDistinctIsAscending(xs[1..], key);
    }
  }

  lemma {:induction false} AscendingIsSorted<T>(xs: seq<T>, key: T -> seq<int>)
    requires AscendingBy(xs, key)
    ensures SortedBy(xs, key)
  {
    if |xs| >= 2 {
      LessIsTotal(key(xs[0]), key(xs[1]));
      AscendingIsSorted(xs[1..], key);
    }
  }
}
