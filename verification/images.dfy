/**
 * Image resolution: the image sheet is sorted by PICTURE_ORDER when it has
 * that column, and then only the first row of each external_id is kept.
 */
module Images {
  import opened Options
  import opened Records
  import opened TableOps

  /** The order a sort on `PICTURE_ORDER` puts rows in: numbers ascending, missing values last. */
  predicate OrderLe(a: Option<int>, b: Option<int>) {
    b.None? || (a.Some? && a.value <= b.value)
  }

  ghost predicate SortedByOrder(s: seq<ImageEntry>) {
    forall i, j :: 0 <= i < j < |s| ==> OrderLe(s[i].pictureOrder, s[j].pictureOrder)
  }

  /** A row that orders before every row of a sorted sequence can be put in front of it. */
  lemma ConsSorted(h: ImageEntry, rest: seq<ImageEntry>)
    requires SortedByOrder(rest) && forall y :: y in rest ==> OrderLe(h.pictureOrder, y.pictureOrder)
    ensures SortedByOrder([h] + rest)
  {
    var r := [h] + rest;
    forall i, j | 0 <= i < j < |r| ensures OrderLe(r[i].pictureOrder, r[j].pictureOrder) {
      assert r[j] == rest[j - 1];
      if i == 0 {
        assert rest[j - 1] in rest;
      } else {
        assert r[i] == rest[i - 1];
      }
    }
  }

  /** When `x` goes after the head of `s`, every row of the tail with `x` inserted orders after that head. */
  lemma InsertAfterHead(x: ImageEntry, s: seq<ImageEntry>, rest: seq<ImageEntry>)
    requires SortedByOrder(s) && s != [] && !OrderLe(x.pictureOrder, s[0].pictureOrder)
    requires multiset(rest) == multiset(s[1..]) + multiset{x}
    ensures forall y :: y in rest ==> OrderLe(s[0].pictureOrder, y.pictureOrder)
  {
    forall y | y in rest ensures OrderLe(s[0].pictureOrder, y.pictureOrder) {
      assert y in multiset(rest);
      if y != x {
        assert y in multiset(s[1..]);
        var j :| 0 <= j < |s[1..]| && s[1..][j] == y;
        assert s[j + 1] == y;
      }
    }
  }

  function Insert(x: ImageEntry, s: seq<ImageEntry>): (r: seq<ImageEntry>)
    requires SortedByOrder(s)
    ensures SortedByOrder(r) && multiset(r) == multiset(s) + multiset{x}
  {
    if s == [] || OrderLe(x.pictureOrder, s[0].pictureOrder) then
      ConsSorted(x, s);
      [x] + s
    else
      var rest := Insert(x, s[1..]);
      InsertAfterHead(x, s, rest);
      ConsSorted(s[0], rest);
      assert s == [s[0]] + s[1..];
      [s[0]] + rest
  }

  /** A sort by PICTURE_ORDER (the model's sort is stable; pandas' default quicksort need not be). */
  function SortByOrder(s: seq<ImageEntry>): (r: seq<ImageEntry>)
    ensures SortedByOrder(r) && multiset(r) == multiset(s)
  {
    if s == [] then []
    else
      assert s == [s[0]] + s[1..];
      Insert(s[0], SortByOrder(s[1..]))
  }

  lemma SameElementsSameKeys(a: seq<ImageEntry>, b: seq<ImageEntry>)
    requires multiset(a) == multiset(b)
    ensures Keys(a, ImageId) == Keys(b, ImageId)
    ensures forall x :: x in a <==> x in b
  {
    assert forall x :: x in a <==> x in multiset(a);
    assert forall x :: x in b <==> x in multiset(b);
  }

  /** The image sheet reduced to one row per external_id. */
  function ResolveImages(sheet: ImageSheet): (r: seq<ImageEntry>)
    ensures DistinctKeys(r, ImageId)
    ensures Keys(r, ImageId) == Keys(sheet.rows, ImageId)
    ensures forall y :: y in r ==> y in sheet.rows
  {
    var ordered := if sheet.hasPictureOrder then SortByOrder(sheet.rows) else sheet.rows;
    SameElementsSameKeys(ordered, sheet.rows);
    var r := DropDuplicates(ordered, ImageId);
    SubseqMembers(r, ordered);
    r
  }

  /**
   * In any sorted permutation of the rows, the first row of an id has the
   * least PICTURE_ORDER of that id; so which of several tied rows a sort puts
   * first does not matter to this property.
   */
  lemma FirstOfSortedIsMinimal(sorted: seq<ImageEntry>, rows: seq<ImageEntry>, y: ImageEntry, x: ImageEntry)
    requires multiset(sorted) == multiset(rows) && SortedByOrder(sorted)
    requires y in DropDuplicates(sorted, ImageId)
    requires x in rows && x.externalId == y.externalId
    ensures OrderLe(y.pictureOrder, x.pictureOrder)
  {
    DropDuplicatesKeepsFirst(sorted, ImageId);
    var i := FirstIndex(sorted, ImageId, y.externalId);
    assert y == sorted[i];
    assert x in multiset(rows);
    var j :| 0 <= j < |sorted| && sorted[j] == x;
    FirstIndexIsLeast(sorted, ImageId, j);
  }

  /** With PICTURE_ORDER present, the image kept for an id has the least order among that id's rows. */
  lemma ResolveImagesPicksLeastOrder(sheet: ImageSheet)
    requires sheet.hasPictureOrder
    ensures forall y, x :: y in ResolveImages(sheet) && x in sheet.rows && x.externalId == y.externalId ==>
      OrderLe(y.pictureOrder, x.pictureOrder)
  {
    var sorted := SortByOrder(sheet.rows);
    forall y, x | y in ResolveImages(sheet) && x in sheet.rows && x.externalId == y.externalId
      ensures OrderLe(y.pictureOrder, x.pictureOrder)
    {
      FirstOfSortedIsMinimal(sorted, sheet.rows, y, x);
    }
  }

  /** Without PICTURE_ORDER, the image kept for an id is the id's first row in sheet order. */
  lemma ResolveImagesPicksFirstRow(sheet: ImageSheet)
    requires !sheet.hasPictureOrder
    ensures forall y :: y in ResolveImages(sheet) ==>
      FirstIndex(sheet.rows, ImageId, y.externalId) < |sheet.rows| &&
      y == sheet.rows[FirstIndex(sheet.rows, ImageId, y.externalId)]
  {
    DropDuplicatesKeepsFirst(sheet.rows, ImageId);
  }

  /** Two image rows for one product with orders 2 and 1: the one with order 1 is kept. */
  lemma ResolveImagesExample()
    ensures ResolveImages(ImageSheet(true, [
        ImageEntry("P1", Some("second.jpg"), Some(2)),
        ImageEntry("P1", Some("first.jpg"), Some(1))]))
      == [ImageEntry("P1", Some("first.jpg"), Some(1))]
  {
    var a := ImageEntry("P1", Some("second.jpg"), Some(2));
    var b := ImageEntry("P1", Some("first.jpg"), Some(1));
    assert SortByOrder([a, b]) == [b, a] by {
      assert [a, b][1..] == [b];
      assert SortByOrder([b]) == [b];
    }
    assert DedupFrom([b, a], ImageId, {}) == [b] by {
      assert [b, a][1..] == [a];
      assert DedupFrom([a], ImageId, {"P1"}) == [];
    }
  }
}
