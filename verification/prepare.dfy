/** Step 1 of the script: the identifier columns of the three data sheets are stripped of whitespace. */
module Prepare {
  import opened Records
  import opened Text

  /** The update feed with product_id and store_id stripped; the other columns are untouched. */
  function TrimUpdates(rows: seq<UpdateRow>): (r: seq<UpdateRow>)
    ensures |r| == |rows|
    ensures forall i :: 0 <= i < |rows| ==>
      r[i].productId == Strip(rows[i].productId) && r[i].storeId == Strip(rows[i].storeId) &&
      IsStripped(r[i].productId) && IsStripped(r[i].storeId) &&
      r[i].price == rows[i].price && r[i].quantity == rows[i].quantity
  {
    seq(|rows|, i requires 0 <= i < |rows| =>
      rows[i].(productId := Strip(rows[i].productId), storeId := Strip(rows[i].storeId)))
  }

  /** The catalogue with external_id stripped; the other columns are untouched. */
  function TrimCatalogue(rows: seq<CatalogEntry>): (r: seq<CatalogEntry>)
    ensures |r| == |rows|
    ensures forall i :: 0 <= i < |rows| ==>
      r[i].externalId == Strip(rows[i].externalId) && IsStripped(r[i].externalId) &&
      r[i].(externalId := rows[i].externalId) == rows[i]
  {
    seq(|rows|, i requires 0 <= i < |rows| => rows[i].(externalId := Strip(rows[i].externalId)))
  }

  /** The image sheet with external_id stripped; the other columns are untouched. */
  function TrimImages(sheet: ImageSheet): (r: ImageSheet)
    ensures r.hasPictureOrder == sheet.hasPictureOrder && |r.rows| == |sheet.rows|
    ensures forall i :: 0 <= i < |sheet.rows| ==>
      r.rows[i].externalId == Strip(sheet.rows[i].externalId) && IsStripped(r.rows[i].externalId) &&
      r.rows[i].(externalId := sheet.rows[i].externalId) == sheet.rows[i]
  {
    sheet.(rows := seq(|sheet.rows|, i requires 0 <= i < |sheet.rows| =>
      sheet.rows[i].(externalId := Strip(sheet.rows[i].externalId))))
  }

  /** Running the preparation twice changes nothing more. */
  lemma PrepareIdempotent(maj: seq<UpdateRow>, cat: seq<CatalogEntry>, img: ImageSheet)
    ensures TrimUpdates(TrimUpdates(maj)) == TrimUpdates(maj)
    ensures TrimCatalogue(TrimCatalogue(cat)) == TrimCatalogue(cat)
    ensures TrimImages(TrimImages(img)) == TrimImages(img)
  {
    var m := TrimUpdates(maj);
    forall i | 0 <= i < |m| ensures TrimUpdates(m)[i] == m[i] {
      StripIdempotent(maj[i].productId);
      StripIdempotent(maj[i].storeId);
    }
    var c := TrimCatalogue(cat);
    forall i | 0 <= i < |c| ensures TrimCatalogue(c)[i] == c[i] {
      StripIdempotent(cat[i].externalId);
    }
    var g := TrimImages(img);
    forall i | 0 <= i < |g.rows| ensures TrimImages(g).rows[i] == g.rows[i] {
      StripIdempotent(img.rows[i].externalId);
    }
  }
}
