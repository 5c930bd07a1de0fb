/**
 * Reconciliation: the update feed is left-merged with the catalogue on
 * product_id = external_id, and the result is left-merged with the resolved
 * images on the same key.
 */
module Reconcile {
  import opened Options
  import opened Records
  import opened TableOps

  function UpdateKey(m: (UpdateRow, Option<CatalogEntry>)): string { m.0.productId }

  /** The left merge of the update rows with the catalogue, matching `product_id` to the catalogue's `external_id`. */
  function MergeCatalogue(updates: seq<UpdateRow>, catalogue: seq<CatalogEntry>): seq<(UpdateRow, Option<CatalogEntry>)> {
    LeftJoin(updates, catalogue, ProductId, CatalogId)
  }

  /** The left merge of the result with the image links, again matching `product_id` to `external_id`. */
  function MergeImages(merged: seq<(UpdateRow, Option<CatalogEntry>)>, images: seq<ImageEntry>)
    : seq<((UpdateRow, Option<CatalogEntry>), Option<ImageEntry>)>
  {
    LeftJoin(merged, images, UpdateKey, ImageId)
  }

  /** One merged row as a row of the merged table; a missing match leaves its columns null. */
  function ToRow(m: ((UpdateRow, Option<CatalogEntry>), Option<ImageEntry>)): Row {
    var u := m.0.0;
    var image := if m.1.Some? then m.1.value.image else None;
    match m.0.1
    case None =>
      Row(u.productId, u.storeId, u.price, u.quantity, None, None, None, None, None, image)
    case Some(c) =>
      Row(u.productId, u.storeId, u.price, u.quantity,
          Some(c.externalId), c.nameEnglish, c.category, c.subCategory, c.description, image)
  }

  /** The row carries the columns of update row `u`. */
  ghost predicate FromUpdate(r: Row, u: UpdateRow) {
    r.productId == u.productId && r.storeId == u.storeId && r.price == u.price && r.quantity == u.quantity
  }

  /** The catalogue columns of `r` are null exactly when no catalogue row has its product_id, and otherwise come from one that does. */
  ghost predicate CatalogueColumnsRight(r: Row, catalogue: seq<CatalogEntry>) {
    if r.externalId.None? then
      !Matched(catalogue, CatalogId, r.productId) &&
      r.nameEnglish.None? && r.category.None? && r.subCategory.None? && r.description.None?
    else
      exists c :: c in catalogue && c.externalId == r.productId && CatalogueColumnsFrom(r, c)
  }

  /** The catalogue columns of `r` are those of catalogue row `c`. */
  ghost predicate CatalogueColumnsFrom(r: Row, c: CatalogEntry) {
    r.externalId == Some(c.externalId) && r.nameEnglish == c.nameEnglish && r.category == c.category &&
    r.subCategory == c.subCategory && r.description == c.description
  }

  /** The image column of `r` is null when no image row has its product_id, and otherwise comes from one that does. */
  ghost predicate ImageColumnRight(r: Row, images: seq<ImageEntry>) {
    if Matched(images, ImageId, r.productId) then
      exists e :: e in images && e.externalId == r.productId && r.image == e.image
    else r.image.None?
  }

  function RowsOf(m: seq<((UpdateRow, Option<CatalogEntry>), Option<ImageEntry>)>): (r: seq<Row>)
    ensures |r| == |m| && forall i :: 0 <= i < |m| ==> r[i] == ToRow(m[i])
  {
    seq(|m|, i requires 0 <= i < |m| => ToRow(m[i]))
  }

  /** The merged table: both left merges, in the script's order. */
  function Reconcile(updates: seq<UpdateRow>, catalogue: seq<CatalogEntry>, images: seq<ImageEntry>): (r: seq<Row>)
    ensures |r| >= |updates|
    ensures forall x :: x in r ==>
      (exists u :: u in updates && FromUpdate(x, u)) &&
      CatalogueColumnsRight(x, catalogue) && ImageColumnRight(x, images)
    ensures forall u :: u in updates ==> exists x :: x in r && FromUpdate(x, u)
    ensures forall u, c :: u in updates && c in catalogue && c.externalId == u.productId ==>
      exists x :: x in r && FromUpdate(x, u) && CatalogueColumnsFrom(x, c)
  {
    ReconcileRows(updates, catalogue, images);
    ReconcileRowsEveryMatch(updates, catalogue, images);
    RowsOf(MergeImages(MergeCatalogue(updates, catalogue), images))
  }

  lemma ToRowRight(q: ((UpdateRow, Option<CatalogEntry>), Option<ImageEntry>), catalogue: seq<CatalogEntry>, images: seq<ImageEntry>)
    requires if q.0.1.Some? then q.0.1.value in catalogue && q.0.1.value.externalId == q.0.0.productId
             else !Matched(catalogue, CatalogId, q.0.0.productId)
    requires if q.1.Some? then q.1.value in images && q.1.value.externalId == q.0.0.productId
             else !Matched(images, ImageId, q.0.0.productId)
    ensures FromUpdate(ToRow(q), q.0.0)
    ensures CatalogueColumnsRight(ToRow(q), catalogue) && ImageColumnRight(ToRow(q), images)
  {
  }

  lemma RowsOfMember(m: seq<((UpdateRow, Option<CatalogEntry>), Option<ImageEntry>)>, q: ((UpdateRow, Option<CatalogEntry>), Option<ImageEntry>))
    requires q in m
    ensures ToRow(q) in RowsOf(m)
  {
    var i :| 0 <= i < |m| && m[i] == q;
    assert RowsOf(m)[i] == ToRow(q);
  }

  /** Every merged row comes from an update row and carries matching catalogue and image columns. */
  lemma ReconcileRowsSound(updates: seq<UpdateRow>, catalogue: seq<CatalogEntry>, images: seq<ImageEntry>)
    ensures forall x :: x in RowsOf(MergeImages(MergeCatalogue(updates, catalogue), images)) ==>
      (exists u :: u in updates && FromUpdate(x, u)) &&
      CatalogueColumnsRight(x, catalogue) && ImageColumnRight(x, images)
  {
    var m1 := MergeCatalogue(updates, catalogue);
    var m2 := MergeImages(m1, images);
    var r := RowsOf(m2);
    forall x | x in r
      ensures (exists u :: u in updates && FromUpdate(x, u)) &&
              CatalogueColumnsRight(x, catalogue) && ImageColumnRight(x, images)
    {
      var i :| 0 <= i < |r| && r[i] == x;
      var q := m2[i];
      assert q in m2;
      assert q.0 in m1;
      ToRowRight(q, catalogue, images);
    }
  }

  /** Every update row leaves at least one merged row. */
  lemma ReconcileRowsComplete(updates: seq<UpdateRow>, catalogue: seq<CatalogEntry>, images: seq<ImageEntry>)
    ensures forall u :: u in updates ==>
      exists x :: x in RowsOf(MergeImages(MergeCatalogue(updates, catalogue), images)) && FromUpdate(x, u)
  {
    var m1 := MergeCatalogue(updates, catalogue);
    var m2 := MergeImages(m1, images);
    forall u | u in updates ensures exists x :: x in RowsOf(m2) && FromUpdate(x, u) {
      var p :| p in m1 && p.0 == u;
      var q :| q in m2 && q.0 == p;
      ToRowRight(q, catalogue, images);
      RowsOfMember(m2, q);
    }
  }

  /** Every pair of an update row and a catalogue row with its product_id gives a merged row. */
  lemma ReconcileRowsEveryMatch(updates: seq<UpdateRow>, catalogue: seq<CatalogEntry>, images: seq<ImageEntry>)
    ensures forall u, c :: u in updates && c in catalogue && c.externalId == u.productId ==>
      exists x :: x in RowsOf(MergeImages(MergeCatalogue(updates, catalogue), images)) &&
        FromUpdate(x, u) && CatalogueColumnsFrom(x, c)
  {
    var m1 := MergeCatalogue(updates, catalogue);
    var m2 := MergeImages(m1, images);
    forall u, c | u in updates && c in catalogue && c.externalId == u.productId
      ensures exists x :: x in RowsOf(m2) && FromUpdate(x, u) && CatalogueColumnsFrom(x, c)
    {
      var p := (u, Some(c));
      assert p in m1;
      var q :| q in m2 && q.0 == p;
      RowsOfMember(m2, q);
      assert FromUpdate(ToRow(q), u) && CatalogueColumnsFrom(ToRow(q), c);
    }
  }

  lemma ReconcileRows(updates: seq<UpdateRow>, catalogue: seq<CatalogEntry>, images: seq<ImageEntry>)
    ensures var r := RowsOf(MergeImages(MergeCatalogue(updates, catalogue), images));
      |r| >= |updates| &&
      (forall x :: x in r ==>
        (exists u :: u in updates && FromUpdate(x, u)) &&
        CatalogueColumnsRight(x, catalogue) && ImageColumnRight(x, images)) &&
      (forall u :: u in updates ==> exists x :: x in r && FromUpdate(x, u))
  {
    ReconcileRowsSound(updates, catalogue, images);
    ReconcileRowsComplete(updates, catalogue, images);
  }

  /**
   * Since the images are resolved to one row per id, the second merge adds no
   * rows: the merged length is that of the catalogue merge.
   */
  lemma ReconcileLength(updates: seq<UpdateRow>, catalogue: seq<CatalogEntry>, images: seq<ImageEntry>)
    requires DistinctKeys(images, ImageId)
    ensures |Reconcile(updates, catalogue, images)| == |MergeCatalogue(updates, catalogue)|
    ensures |Reconcile(updates, catalogue, images)| == FanOut(updates, catalogue, ProductId, CatalogId)
  {
    LeftJoinOneToOne(MergeCatalogue(updates, catalogue), images, UpdateKey, ImageId);
    LeftJoinSize(updates, catalogue, ProductId, CatalogId);
  }

  /**
   * With unique catalogue ids as well, the merged table has exactly one row
   * per update row, in feed order.
   */
  lemma ReconcileOneToOne(updates: seq<UpdateRow>, catalogue: seq<CatalogEntry>, images: seq<ImageEntry>)
    requires DistinctKeys(catalogue, CatalogId) && DistinctKeys(images, ImageId)
    ensures |Reconcile(updates, catalogue, images)| == |updates|
    ensures forall i :: 0 <= i < |updates| ==> FromUpdate(Reconcile(updates, catalogue, images)[i], updates[i])
  {
    var m1 := MergeCatalogue(updates, catalogue);
    LeftJoinOneToOne(updates, catalogue, ProductId, CatalogId);
    LeftJoinOneToOne(m1, images, UpdateKey, ImageId);
  }

  lemma RowsOfAppend(x: seq<((UpdateRow, Option<CatalogEntry>), Option<ImageEntry>)>, y: seq<((UpdateRow, Option<CatalogEntry>), Option<ImageEntry>)>)
    ensures RowsOf(x + y) == RowsOf(x) + RowsOf(y)
  {
  }

  /** Merging two update tables one after the other gives their merged rows one after the other. */
  lemma ReconcileAppend(u1: seq<UpdateRow>, u2: seq<UpdateRow>, catalogue: seq<CatalogEntry>, images: seq<ImageEntry>)
    ensures Reconcile(u1 + u2, catalogue, images) == Reconcile(u1, catalogue, images) + Reconcile(u2, catalogue, images)
  {
    var a, b := MergeCatalogue(u1, catalogue), MergeCatalogue(u2, catalogue);
    LeftJoinAppend(u1, u2, catalogue, ProductId, CatalogId);
    LeftJoinAppend(a, b, images, UpdateKey, ImageId);
    var x, y := MergeImages(a, images), MergeImages(b, images);
    assert MergeImages(MergeCatalogue(u1 + u2, catalogue), images) == x + y;
    RowsOfAppend(x, y);
  }

  /** The catalogue merge of one update row is that row's join: its matches in catalogue order. */
  lemma MergeCatalogueSingle(u: UpdateRow, catalogue: seq<CatalogEntry>)
    ensures var m, m1 := Matches(catalogue, CatalogId, u.productId), MergeCatalogue([u], catalogue);
      (m == [] ==> m1 == [(u, None)]) &&
      (m != [] ==> |m1| == |m| && forall k :: 0 <= k < |m| ==> m1[k] == (u, Some(m[k])))
  {
    var m := Matches(catalogue, CatalogId, u.productId);
    LeftJoinSingle(u, catalogue, ProductId, CatalogId);
    if m != [] {
      assert m[0] in m;
    }
  }

  /** With resolved images the image merge keeps the catalogue merge row for row, with its columns. */
  lemma MergeImagesKeepsRows(m1: seq<(UpdateRow, Option<CatalogEntry>)>, images: seq<ImageEntry>)
    requires DistinctKeys(images, ImageId)
    ensures var r := RowsOf(MergeImages(m1, images));
      |r| == |m1| &&
      forall k :: 0 <= k < |m1| ==>
        FromUpdate(r[k], m1[k].0) &&
        (m1[k].1.Some? ==> CatalogueColumnsFrom(r[k], m1[k].1.value)) &&
        (m1[k].1.None? ==> r[k].externalId.None?)
  {
    var m2 := MergeImages(m1, images);
    LeftJoinOneToOne(m1, images, UpdateKey, ImageId);
    var r := RowsOf(m2);
    forall k | 0 <= k < |m1|
      ensures FromUpdate(r[k], m1[k].0)
      ensures m1[k].1.Some? ==> CatalogueColumnsFrom(r[k], m1[k].1.value)
      ensures m1[k].1.None? ==> r[k].externalId.None?
    {
      assert r[k] == ToRow(m2[k]) && m2[k].0 == m1[k];
    }
  }

  /**
   * With resolved images, one update row gives one merged row per catalogue
   * row with its product_id, in catalogue order, each carrying that catalogue
   * row's columns; without such a row it gives one row with null catalogue
   * columns.
   */
  lemma ReconcileSingle(u: UpdateRow, catalogue: seq<CatalogEntry>, images: seq<ImageEntry>)
    requires DistinctKeys(images, ImageId)
    ensures var m, r := Matches(catalogue, CatalogId, u.productId), Reconcile([u], catalogue, images);
      (forall k :: 0 <= k < |r| ==> FromUpdate(r[k], u)) &&
      (m == [] ==> |r| == 1 && r[0].externalId.None?) &&
      (m != [] ==> |r| == |m| && forall k :: 0 <= k < |m| ==> CatalogueColumnsFrom(r[k], m[k]))
  {
    BothMergesSingle(u, catalogue, images);
  }

  /** The two merges applied to one update row, before the merged table's own contract is in view. */
  lemma BothMergesSingle(u: UpdateRow, catalogue: seq<CatalogEntry>, images: seq<ImageEntry>)
    requires DistinctKeys(images, ImageId)
    ensures var m, r := Matches(catalogue, CatalogId, u.productId), RowsOf(MergeImages(MergeCatalogue([u], catalogue), images));
      (forall k :: 0 <= k < |r| ==> FromUpdate(r[k], u)) &&
      (m == [] ==> |r| == 1 && r[0].externalId.None?) &&
      (m != [] ==> |r| == |m| && forall k :: 0 <= k < |m| ==> CatalogueColumnsFrom(r[k], m[k]))
  {
    var m1 := MergeCatalogue([u], catalogue);
    MergeCatalogueSingle(u, catalogue);
    MergeImagesKeepsRows(m1, images);
  }

  /** Two catalogue rows with the same id turn one update row into two merged rows. */
  lemma DuplicateCatalogueIdsMultiplyRows()
    ensures |Reconcile(
      [UpdateRow("P1", "S1", Some(10), Some(5))],
      [CatalogEntry("P1", Some("Apple"), None, None, None), CatalogEntry("P1", Some("Green apple"), None, None, None)],
      [])| == 2
  {
    var u := UpdateRow("P1", "S1", Some(10), Some(5));
    var c1 := CatalogEntry("P1", Some("Apple"), None, None, None);
    var c2 := CatalogEntry("P1", Some("Green apple"), None, None, None);
    var m := Matches([c1, c2], CatalogId, "P1");
    assert m == [c1, c2] by {
      var p := KeyIs(CatalogId, "P1");
      assert [c1, c2][1..] == [c2];
      assert [c2][1..] == [];
      assert Filter([c2], p) == [c2];
      assert Filter([c1, c2], p) == [c1, c2];
    }
    assert FanOut([u], [c1, c2], ProductId, CatalogId) == 2 by {
      assert [u][1..] == [];
      assert FanOut([u][1..], [c1, c2], ProductId, CatalogId) == 0;
    }
    ReconcileLength([u], [c1, c2], []);
  }
}
