/**
 * The export stage: the final rows get their export defaults, are split by
 * store (in order of first appearance) and each store's rows become one CSV
 * entry "Output_Store_<store>.csv" of the ZIP archive, with the columns
 * name_english, price, quantity, description, category, sub_category, image
 * and external_id.
 */
module Export {
  import opened Options
  import opened Records
  import opened TableOps
  import opened Validate

  /** One line of a store's CSV file, one field per export column, in file order. */
  datatype ExportRow = ExportRow(
    nameEnglish: Option<string>,
    price: int,
    quantity: int,
    description: string,
    category: Option<string>,
    subCategory: Option<string>,
    image: Option<string>,
    externalId: string)

  /** A file of the archive: its name and its rows. */
  datatype Entry = Entry(name: string, rows: seq<ExportRow>)

  /**
   * A final row as written: external_id is overwritten with product_id,
   * a missing description becomes "", a missing quantity or price becomes 0.
   */
  function Finalize(r: Row): (e: ExportRow)
    ensures e.externalId == r.productId
    ensures e.nameEnglish == r.nameEnglish && e.image == r.image
    ensures e.category == r.category && e.subCategory == r.subCategory
    ensures r.price.Some? ==> e.price == r.price.value
    ensures r.price.None? ==> e.price == 0
    ensures r.quantity.Some? ==> e.quantity == r.quantity.value
    ensures r.quantity.None? ==> e.quantity == 0
    ensures r.description.Some? ==> e.description == r.description.value
    ensures r.description.None? ==> e.description == ""
  {
    ExportRow(r.nameEnglish, r.price.GetOr(0), r.quantity.GetOr(0), r.description.GetOr(""),
              r.category, r.subCategory, r.image, r.productId)
  }

  function FinalizeAll(rows: seq<Row>): (out: seq<ExportRow>)
    ensures |out| == |rows| && forall i :: 0 <= i < |rows| ==> out[i] == Finalize(rows[i])
  {
    seq(|rows|, i requires 0 <= i < |rows| => Finalize(rows[i]))
  }

  function StoreOf(r: Row): string { r.storeId }

  /** The store ids of some rows, in row order. */
  function StoreIds(rows: seq<Row>): (s: seq<string>)
    ensures |s| == |rows| && forall i :: 0 <= i < |rows| ==> s[i] == rows[i].storeId
  {
    seq(|rows|, i requires 0 <= i < |rows| => rows[i].storeId)
  }

  /** The distinct store ids of the final table: each store once, in order of first appearance. */
  function Stores(rows: seq<Row>): (s: seq<string>)
    ensures forall i, j :: 0 <= i < j < |s| ==> s[i] != s[j]
    ensures forall x :: x in rows ==> x.storeId in s
    ensures forall k :: k in s ==> exists x :: x in rows && x.storeId == k
    ensures forall a, b :: 0 <= a < b < |s| ==> FirstIndex(rows, StoreOf, s[a]) < FirstIndex(rows, StoreOf, s[b])
  {
    StoresOnce(rows);
    StoresOrder(rows);
    StoreIds(DropDuplicates(rows, StoreOf))
  }

  lemma StoresOnce(rows: seq<Row>)
    ensures var s := StoreIds(DropDuplicates(rows, StoreOf));
      (forall i, j :: 0 <= i < j < |s| ==> s[i] != s[j]) &&
      (forall x :: x in rows ==> x.storeId in s) &&
      (forall k :: k in s ==> exists x :: x in rows && x.storeId == k)
  {
    var firsts := DropDuplicates(rows, StoreOf);
    var s := StoreIds(firsts);
    forall x | x in rows ensures x.storeId in s {
      assert StoreOf(x) in Keys(rows, StoreOf);
      var y :| y in firsts && StoreOf(y) == StoreOf(x);
      var i :| 0 <= i < |firsts| && firsts[i] == y;
      assert s[i] == x.storeId;
    }
    SubseqMembers(firsts, rows);
    forall k | k in s ensures exists x :: x in rows && x.storeId == k {
      var i :| 0 <= i < |s| && s[i] == k;
      assert firsts[i] in firsts;
    }
  }

  lemma StoresOrder(rows: seq<Row>)
    ensures var s := StoreIds(DropDuplicates(rows, StoreOf));
      forall a, b :: 0 <= a < b < |s| ==> FirstIndex(rows, StoreOf, s[a]) < FirstIndex(rows, StoreOf, s[b])
  {
    var firsts := DropDuplicates(rows, StoreOf);
    DropDuplicatesKeepsFirst(rows, StoreOf);
    var s := StoreIds(firsts);
    forall a, b | 0 <= a < b < |s| ensures FirstIndex(rows, StoreOf, s[a]) < FirstIndex(rows, StoreOf, s[b]) {
      assert s[a] == StoreOf(firsts[a]) && s[b] == StoreOf(firsts[b]);
    }
  }

  /** The name of the file of store `s`. */
  function EntryName(s: string): (n: string)
    ensures |n| == |s| + 17 && n[13..|n| - 4] == s
    ensures n[..13] == "Output_Store_" && n[|n| - 4..] == ".csv"
  {
    "Output_Store_" + s + ".csv"
  }

  /** The rows of one store, in table order, cut down to the exported columns. */
  function StoreEntry(rows: seq<Row>, s: string): (e: Entry)
    ensures e.name == EntryName(s)
    ensures |e.rows| == Occurrences(rows, StoreOf, s)
  {
    MatchesCount(rows, StoreOf, s);
    Entry(EntryName(s), FinalizeAll(Matches(rows, StoreOf, s)))
  }

  /**
   * A store's file holds exactly that store's rows, projected to the export
   * columns, in table order.
   */
  lemma StoreEntryRows(rows: seq<Row>, s: string)
    ensures forall x :: x in rows && x.storeId == s ==> Finalize(x) in StoreEntry(rows, s).rows
    ensures forall y :: y in StoreEntry(rows, s).rows ==> exists x :: x in rows && x.storeId == s && y == Finalize(x)
    ensures exists m: seq<Row> :: IsSubseq(m, rows) && (forall x :: x in m ==> x.storeId == s) &&
                                  StoreEntry(rows, s).rows == FinalizeAll(m)
  {
    var m := Matches(rows, StoreOf, s);
    var out := StoreEntry(rows, s).rows;
    assert out == FinalizeAll(m);
    forall x | x in rows && x.storeId == s ensures Finalize(x) in out {
      var i :| 0 <= i < |m| && m[i] == x;
      assert out[i] == Finalize(x);
    }
    forall y | y in out ensures exists x :: x in rows && x.storeId == s && y == Finalize(x) {
      var i :| 0 <= i < |out| && out[i] == y;
      assert m[i] in m;
    }
  }

  /** The archive's entries, one per store, in store order. */
  function Partition(rows: seq<Row>): (es: seq<Entry>)
    ensures |es| == |Stores(rows)|
    ensures forall i :: 0 <= i < |es| ==> es[i] == StoreEntry(rows, Stores(rows)[i])
  {
    var stores := Stores(rows);
    seq(|stores|, i requires 0 <= i < |stores| => StoreEntry(rows, stores[i]))
  }

  /** Different stores get different file names. */
  lemma EntryNameInjective(a: string, b: string)
    requires EntryName(a) == EntryName(b)
    ensures a == b
  {
    var n := EntryName(a);
    assert b == n[13..|n| - 4];
  }

  /** No two entries of the archive share a name. */
  lemma PartitionNamesDistinct(rows: seq<Row>)
    ensures forall i, j :: 0 <= i < j < |Partition(rows)| ==> Partition(rows)[i].name != Partition(rows)[j].name
  {
    var es := Partition(rows);
    var stores := Stores(rows);
    forall i, j | 0 <= i < j < |es| ensures es[i].name != es[j].name {
      if es[i].name == es[j].name {
        EntryNameInjective(stores[i], stores[j]);
        assert false;
      }
    }
  }

  /**
   * Every final row is written to exactly one file: the file of its store,
   * which is the only entry of that name.
   */
  lemma PartitionPlacesEveryRow(rows: seq<Row>, x: Row)
    requires x in rows
    ensures exists i :: 0 <= i < |Partition(rows)| && Partition(rows)[i].name == EntryName(x.storeId) &&
                        Finalize(x) in Partition(rows)[i].rows
    ensures forall i, j ::
      0 <= i < |Partition(rows)| && 0 <= j < |Partition(rows)| &&
      Partition(rows)[i].name == EntryName(x.storeId) && Partition(rows)[j].name == EntryName(x.storeId)
      ==> i == j
  {
    var stores := Stores(rows);
    var i :| 0 <= i < |stores| && stores[i] == x.storeId;
    assert Partition(rows)[i].name == EntryName(x.storeId);
    StoreEntryRows(rows, x.storeId);
    PartitionNamesDistinct(rows);
  }

  /** Sum of the sizes of some entries. */
  ghost function TotalRows(es: seq<Entry>): nat {
    if es == [] then 0 else |es[0].rows| + TotalRows(es[1..])
  }

  /** Number of rows whose store is one of `stores`, counted store by store. */
  ghost function RowsOfStores(stores: seq<string>, rows: seq<Row>): nat {
    if stores == [] then 0 else Occurrences(rows, StoreOf, stores[0]) + RowsOfStores(stores[1..], rows)
  }

  function Ident(s: string): string { s }

  lemma {:induction false} RowsOfStoresCons(stores: seq<string>, rows: seq<Row>)
    requires rows != []
    ensures RowsOfStores(stores, rows) ==
            Occurrences(stores, Ident, rows[0].storeId) + RowsOfStores(stores, rows[1..])
    decreases |stores|
  {
    if stores != [] {
      RowsOfStoresCons(stores[1..], rows);
    }
  }

  /** With each store listed once, counting store by store counts every row once. */
  lemma {:induction false} RowsOfStoresAll(stores: seq<string>, rows: seq<Row>)
    requires DistinctKeys(stores, Ident)
    requires forall x :: x in rows ==> x.storeId in stores
    ensures RowsOfStores(stores, rows) == |rows|
    decreases |rows|
  {
    if rows == [] {
      assert RowsOfStores(stores, rows) == 0 by {
        RowsOfStoresZero(stores);
      }
    } else {
      RowsOfStoresCons(stores, rows);
      assert rows[0].storeId in Keys(stores, Ident);
      OccurrencesOfDistinct(stores, Ident, rows[0].storeId);
      RowsOfStoresAll(stores, rows[1..]);
    }
  }

  lemma {:induction false} RowsOfStoresZero(stores: seq<string>)
    ensures RowsOfStores(stores, []) == 0
    decreases |stores|
  {
    if stores != [] {
      RowsOfStoresZero(stores[1..]);
    }
  }

  lemma {:induction false} TotalRowsOfEntries(es: seq<Entry>, stores: seq<string>, rows: seq<Row>)
    requires |es| == |stores|
    requires forall i :: 0 <= i < |es| ==> |es[i].rows| == Occurrences(rows, StoreOf, stores[i])
    ensures TotalRows(es) == RowsOfStores(stores, rows)
    decreases |es|
  {
    if es != [] {
      TotalRowsOfEntries(es[1..], stores[1..], rows);
    }
  }

  /** The files together hold exactly as many rows as the final table. */
  lemma PartitionSize(rows: seq<Row>)
    ensures TotalRows(Partition(rows)) == |rows|
  {
    var stores := Stores(rows);
    TotalRowsOfEntries(Partition(rows), stores, rows);
    RowsOfStoresAll(stores, rows);
  }

  /** The archive has no entry exactly when the final table is empty. */
  lemma PartitionEmpty(rows: seq<Row>)
    ensures |Partition(rows)| == 0 <==> |rows| == 0
  {
    if |rows| > 0 {
      assert rows[0] in rows;
    }
  }

  /**
   * When no (store_id, product_id) pair repeats, no external_id repeats
   * inside one store's file.
   */
  lemma EntryIdsDistinct(rows: seq<Row>, s: string)
    requires DistinctKeys(rows, PairKey)
    ensures var e := StoreEntry(rows, s).rows;
      forall i, j :: 0 <= i < j < |e| ==> e[i].externalId != e[j].externalId
  {
    var m := Matches(rows, StoreOf, s);
    SubseqKeepsDistinct(m, rows, PairKey);
    var e := StoreEntry(rows, s).rows;
    forall i, j | 0 <= i < j < |e| ensures e[i].externalId != e[j].externalId {
      assert m[i] in m && m[j] in m;
      assert PairKey(m[i]) != PairKey(m[j]);
    }
  }

  /**
   * A valid final table (complete rows, no repeated pair) yields files whose
   * every line has a non-empty name and image and whose external_ids are
   * pairwise different.
   */
  lemma PartitionRowsValid(rows: seq<Row>)
    requires DistinctKeys(rows, PairKey) && forall x :: x in rows ==> IsComplete(x)
    ensures forall e :: e in Partition(rows) ==>
      (forall y :: y in e.rows ==> y.nameEnglish.Some? && y.nameEnglish.value != "" &&
                                   y.image.Some? && y.image.value != "") &&
      (forall i, j :: 0 <= i < j < |e.rows| ==> e.rows[i].externalId != e.rows[j].externalId)
  {
    var es := Partition(rows);
    forall e | e in es
      ensures forall y :: y in e.rows ==> y.nameEnglish.Some? && y.nameEnglish.value != "" &&
                                          y.image.Some? && y.image.value != ""
      ensures forall i, j :: 0 <= i < j < |e.rows| ==> e.rows[i].externalId != e.rows[j].externalId
    {
      var k :| 0 <= k < |es| && es[k] == e;
      var s := Stores(rows)[k];
      StoreEntryRows(rows, s);
      EntryIdsDistinct(rows, s);
    }
  }

  /** The ZIP archive being written: the entries written so far, in order. */
  class ZipArchive {
    var entries: seq<Entry>

    constructor ()
      ensures entries == []
    {
      entries := [];
    }

    /** Appends one named file to the archive. */
    method WriteStr(name: string, rows: seq<ExportRow>)
      modifies this
      ensures entries == old(entries) + [Entry(name, rows)]
    {
      entries := entries + [Entry(name, rows)];
    }
  }

  lemma PrefixSnoc<T>(s: seq<T>, i: nat)
    requires i < |s|
    ensures s[..i + 1] == s[..i] + [s[i]]
  {
  }

  /** The export loop: one entry per store, in store order. */
  method WriteStores(rows: seq<Row>, zf: ZipArchive)
    modifies zf
    ensures zf.entries == old(zf.entries) + Partition(rows)
  {
    var stores := Stores(rows);
    ghost var parts := Partition(rows);
    assert |parts| == |stores|;
    for i := 0 to |stores|
      invariant |parts| == |stores|
      invariant zf.entries == old(zf.entries) + parts[..i]
    {
      var e := StoreEntry(rows, stores[i]);
      assert e == parts[i];
      zf.WriteStr(e.name, e.rows);
      PrefixSnoc(parts, i);
    }
    assert parts[..|stores|] == parts;
  }
}
