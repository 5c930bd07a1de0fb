/**
 * Name disambiguation: each row's occurrence index within its
 * (store_id, name_english) group (`name_dedup_count`) is computed on the
 * validated table, and then every name is rewritten by `AccentTypo` with
 * that index.
 */
module Disambiguate {
  import opened Options
  import opened Records
  import opened TableOps
  import opened Accent
  import opened Validate

  function NameKey(r: Row): (string, Option<string>) { (r.storeId, r.nameEnglish) }

  /** The occurrence index of each row among the earlier rows with the same store and name. */
  function DedupCounts(rows: seq<Row>): (c: seq<nat>)
    ensures |c| == |rows|
    ensures forall i :: 0 <= i < |rows| ==> c[i] == Occurrences(rows[..i], NameKey, NameKey(rows[i]))
  {
    CumCount(rows, NameKey)
  }

  /** The row with its name passed through `apply_accent_typo`. */
  function Rename(r: Row, count: nat): Row {
    match r.nameEnglish
    case Some(n) => r.(nameEnglish := Some(AccentTypo(n, count)))
    case None => r
  }

  /** Every row's name replaced by its renaming for the row's occurrence index. */
  function Disambiguate(rows: seq<Row>): (out: seq<Row>)
    ensures |out| == |rows|
    ensures forall i :: 0 <= i < |rows| ==> out[i].(nameEnglish := rows[i].nameEnglish) == rows[i]
    ensures forall i :: 0 <= i < |rows| ==> out[i].nameEnglish.Some? == rows[i].nameEnglish.Some?
    ensures forall i :: 0 <= i < |rows| && IsComplete(rows[i]) ==> IsComplete(out[i])
    ensures forall i :: 0 <= i < |rows| && rows[i].nameEnglish.Some? ==>
      out[i].nameEnglish == Some(AccentTypo(rows[i].nameEnglish.value, DedupCounts(rows)[i]))
  {
    var counts := DedupCounts(rows);
    seq(|rows|, i requires 0 <= i < |rows| => Rename(rows[i], counts[i]))
  }

  /**
   * A named row is renamed exactly when an earlier row of the table has the
   * same store and name; the first row of every group keeps its name.
   */
  lemma RenamedIffEarlierDuplicate(rows: seq<Row>, i: nat)
    requires i < |rows| && rows[i].nameEnglish.Some?
    ensures Disambiguate(rows)[i] != rows[i] <==>
      exists j :: 0 <= j < i && NameKey(rows[j]) == NameKey(rows[i])
  {
    var k := NameKey(rows[i]);
    var c := DedupCounts(rows)[i];
    OccurrencesZero(rows[..i], NameKey, k);
    assert (c == 0) <==> forall j :: 0 <= j < i ==> NameKey(rows[j]) != k by {
      assert forall j :: 0 <= j < i ==> rows[..i][j] == rows[j];
    }
    if c > 0 {
      DuplicateIsRenamed(rows[i].nameEnglish.value, c);
      assert Disambiguate(rows)[i].nameEnglish != rows[i].nameEnglish;
    }
  }

  /**
   * Renaming touches neither the (store_id, product_id) pair nor the
   * completeness of a row, so a table that passed validation still passes.
   */
  lemma DisambiguateKeepsValid(rows: seq<Row>)
    requires DistinctKeys(rows, PairKey) && forall x :: x in rows ==> IsComplete(x)
    ensures var out := Disambiguate(rows);
      DistinctKeys(out, PairKey) && forall x :: x in out ==> IsComplete(x)
  {
    var out := Disambiguate(rows);
    forall i, j | 0 <= i < j < |out| ensures PairKey(out[i]) != PairKey(out[j]) {
      assert PairKey(out[i]) == PairKey(rows[i]) && PairKey(out[j]) == PairKey(rows[j]);
    }
    forall x | x in out ensures IsComplete(x) {
      var i :| 0 <= i < |out| && out[i] == x;
      assert rows[i] in rows;
    }
  }

  /**
   * Two rows of one (store, name) group get different names as long as the
   * later one's occurrence index is within Bound of the name's accentable
   * characters.
   */
  lemma SameGroupStaysDistinct(rows: seq<Row>, i: nat, j: nat)
    requires i < j < |rows| && NameKey(rows[i]) == NameKey(rows[j]) && rows[i].nameEnglish.Some?
    requires DedupCounts(rows)[j] <= Bound(|Eligible(rows[i].nameEnglish.value)|)
    ensures Disambiguate(rows)[i].nameEnglish != Disambiguate(rows)[j].nameEnglish
  {
    CumCountIncreasesInGroup(rows, NameKey, i, j);
    var n := rows[i].nameEnglish.value;
    DistinctUpToBound(n, DedupCounts(rows)[i], DedupCounts(rows)[j]);
  }

  /**
   * When no group is larger than Bound + 1, every store's renamed names that
   * come from one original name are pairwise distinct.
   */
  lemma SmallGroupsStayDistinct(rows: seq<Row>)
    requires forall j :: 0 <= j < |rows| && rows[j].nameEnglish.Some? ==>
      Occurrences(rows, NameKey, NameKey(rows[j])) <= Bound(|Eligible(rows[j].nameEnglish.value)|) + 1
    ensures forall i, j :: 0 <= i < j < |rows| && NameKey(rows[i]) == NameKey(rows[j]) && rows[i].nameEnglish.Some? ==>
      Disambiguate(rows)[i].nameEnglish != Disambiguate(rows)[j].nameEnglish
  {
    forall i, j | 0 <= i < j < |rows| && NameKey(rows[i]) == NameKey(rows[j]) && rows[i].nameEnglish.Some?
      ensures Disambiguate(rows)[i].nameEnglish != Disambiguate(rows)[j].nameEnglish
    {
      var k := NameKey(rows[j]);
      assert rows == rows[..j] + rows[j..];
      OccurrencesAppend(rows[..j], rows[j..], NameKey, k);
      assert Occurrences(rows[j..], NameKey, k) >= 1 by {
        assert rows[j..][0] == rows[j];
      }
      SameGroupStaysDistinct(rows, i, j);
    }
  }

  lemma CafeEligible()
    ensures Eligible("Cafe") == [1, 3]
  {
    var name := "Cafe";
    assert name[1] in Charmap && name[3] in Charmap;
    assert name[0] !in Charmap && name[2] !in Charmap;
    assert EligibleFrom(name, 4) == [];
    assert EligibleFrom(name, 3) == [3];
    assert EligibleFrom(name, 2) == [3];
    assert EligibleFrom(name, 1) == [1, 3];
  }

  lemma CafeTypo()
    ensures AccentTypo("Cafe", 1) == "C\U{E0}fe"
  {
    CafeEligible();
    ModUnique(1, 2, 0, 1);
    assert Target("Cafe", 1) == 1;
    assert "Cafe"[1 := '\U{E0}'] == "C\U{E0}fe";
  }

  /** Three rows of store S1 named "Cafe", "Cafe" and "Càfe". */
  function CafeRows(): (rows: seq<Row>)
    ensures |rows| == 3
  {
    var row := Row("P1", "S1", None, None, None, None, None, None, None, Some("img"));
    [row.(nameEnglish := Some("Cafe")), row.(productId := "P2", nameEnglish := Some("Cafe")),
     row.(productId := "P3", nameEnglish := Some("C\U{E0}fe"))]
  }

  lemma CafeCounts()
    ensures DedupCounts(CafeRows())[1] == 1 && DedupCounts(CafeRows())[2] == 0
  {
    var rows := CafeRows();
    var counts := DedupCounts(rows);
    assert counts[1] == 1 by {
      assert rows[..1] == [rows[0]];
      assert Occurrences(rows[..1][1..], NameKey, NameKey(rows[1])) == 0;
    }
    assert counts[2] == 0 by {
      assert rows[..2] == [rows[0], rows[1]];
      assert "C\U{E0}fe"[1] != "Cafe"[1];
      assert NameKey(rows[0]) != NameKey(rows[2]) && NameKey(rows[1]) != NameKey(rows[2]);
      assert rows[..2][1..] == [rows[1]];
      assert Occurrences(rows[..2][1..][1..], NameKey, NameKey(rows[2])) == 0;
    }
  }

  /**
   * Renaming can collide with another original name of the same store: with
   * "Cafe", "Cafe" and "Càfe" in one store, the second "Cafe" becomes "Càfe".
   */
  lemma CollisionAcrossNames()
    ensures Disambiguate(CafeRows())[1].nameEnglish == Disambiguate(CafeRows())[2].nameEnglish == Some("C\U{E0}fe")
  {
    CafeCounts();
    CafeTypo();
  }
}
