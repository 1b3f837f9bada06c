/** Byte strings and the comparison both canonical-json.ts and storage.ts define for them. */
module ByteStrings {
  type Bytes = seq<int>

  /** `left.every(...) && right.every(...)`: an index past the other end compares unequal. */
  predicate SameBytes(left: Bytes, right: Bytes) {
    && (forall i :: 0 <= i < |left| ==> i < |right| && left[i] == right[i])
    && (forall i :: 0 <= i < |right| ==> i < |left| && right[i] == left[i])
  }

  lemma SameBytesIsEquality(left: Bytes, right: Bytes)
    ensures SameBytes(left, right) <==> left == right
  {
    if |left| > |right| {
      var unmatched := left[|right|];
      assert !SameBytes(left, right);
    } else if |right| > |left| {
      var unmatched := right[|left|];
      assert !SameBytes(left, right);
    }
  }
}
