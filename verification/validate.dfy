/**
 * Strict cleaning: duplicate (store_id, product_id) pairs are dropped,
 * keeping the first, and then rows without a name or an image are dropped.
 */
module Validate {
  import opened Records
  import opened TableOps

  function PairKey(r: Row): (string, string) { (r.storeId, r.productId) }

  /** The validity mask: name_english and image are both present and non-empty. */
  predicate IsComplete(r: Row) {
    r.nameEnglish.Some? && r.nameEnglish.value != "" && r.image.Some? && r.image.value != ""
  }

  /** De-duplication of the merged table on the (`store_id`, `product_id`) pair, keeping the first row. */
  function DropDuplicatePairs(merged: seq<Row>): (d: seq<Row>)
    ensures IsSubseq(d, merged) && |d| <= |merged|
    ensures DistinctKeys(d, PairKey)
    ensures Keys(d, PairKey) == Keys(merged, PairKey)
  {
    DropDuplicates(merged, PairKey)
  }

  /** The completeness mask (a non-empty name and a non-empty image) applied to the de-duplicated table. */
  function KeepComplete(deduped: seq<Row>): (v: seq<Row>)
    ensures IsSubseq(v, deduped) && |v| <= |deduped|
    ensures forall x :: x in v ==> IsComplete(x)
    ensures forall x :: x in deduped && IsComplete(x) ==> x in v
    ensures forall x :: x in deduped ==> multiset(v)[x] == if IsComplete(x) then multiset(deduped)[x] else 0
  {
    FilterMultiplicity(deduped, IsComplete);
    Filter(deduped, IsComplete)
  }

  /**
   * After both passes no two rows share a (store_id, product_id) pair, and
   * the row kept for a pair is the first row of that pair in the merged
   * table; a pair is kept exactly when that first row is complete (so a pair
   * whose first row lacks a name or image is lost even if a later duplicate
   * has both).
   */
  lemma ValidatedRows(merged: seq<Row>)
    ensures var v := KeepComplete(DropDuplicatePairs(merged));
      DistinctKeys(v, PairKey) &&
      (forall x :: x in v ==> IsComplete(x) && FirstIndex(merged, PairKey, PairKey(x)) < |merged| &&
                              x == merged[FirstIndex(merged, PairKey, PairKey(x))])
    ensures forall i :: 0 <= i < |merged| ==>
      var f := FirstIndex(merged, PairKey, PairKey(merged[i]));
      f <= i && (merged[f] in KeepComplete(DropDuplicatePairs(merged)) <==> IsComplete(merged[f]))
  {
    var d := DropDuplicatePairs(merged);
    var v := KeepComplete(d);
    SubseqKeepsDistinct(v, d, PairKey);
    SubseqMembers(v, d);
    DropDuplicatesKeepsFirst(merged, PairKey);
    forall i | 0 <= i < |merged|
      ensures var f := FirstIndex(merged, PairKey, PairKey(merged[i]));
        f <= i && (merged[f] in v <==> IsComplete(merged[f]))
    {
      FirstIndexIsLeast(merged, PairKey, i);
      var k := PairKey(merged[i]);
      var first := merged[FirstIndex(merged, PairKey, k)];
      assert k in Keys(merged, PairKey);
      assert k in Keys(d, PairKey);
      var y :| y in d && PairKey(y) == k;
      assert y == first;
    }
  }
}
