/**
 * The whole catalogue run on a parsed workbook: the sheet guard, the six
 * stages in the script's order, the three counters it displays and the
 * archive it offers for download.
 */
module Pipeline {
  import opened Options
  import opened Records
  import opened TableOps
  import opened Prepare
  import opened Images
  import opened Reconcile
  import opened Validate
  import opened Disambiguate
  import opened Export

  /**
   * A parsed sheet. The script reads the sheets by position: the second is
   * the catalogue, the third the update feed and the fourth the images; the
   * first (the output template) is never used.
   */
  datatype Sheet =
    | TemplateSheet
    | CatalogueSheet(entries: seq<CatalogEntry>)
    | UpdatesSheet(rows: seq<UpdateRow>)
    | ImagesSheet(images: ImageSheet)

  datatype PipelineError =
    | TooFewSheets(count: nat)  // the workbook has fewer than four sheets
    | UnexpectedLayout          // a sheet lacks the columns its position requires
    | EmptyFinalTable           // no row survives validation, and the renaming step fails on the empty table

  /** What a successful run shows and offers: the counters and the archive's entries. */
  datatype Report = Report(totalRows: nat, rowsAfterDedup: nat, rowsFinal: nat, entries: seq<Entry>)

  /** The intermediate tables of one run. */
  datatype Stages = Stages(merged: seq<Row>, deduped: seq<Row>, valid: seq<Row>, final: seq<Row>)

  function RunStages(maj: seq<UpdateRow>, cat: seq<CatalogEntry>, img: ImageSheet): Stages {
    var merged := Reconcile.Reconcile(TrimUpdates(maj), TrimCatalogue(cat), ResolveImages(TrimImages(img)));
    var deduped := DropDuplicatePairs(merged);
    var valid := KeepComplete(deduped);
    Stages(merged, deduped, valid, Disambiguate.Disambiguate(valid))
  }

  function ReportOf(st: Stages): Report {
    Report(|st.merged|, |st.deduped|, |st.final|, Partition(st.final))
  }

  /** The workbook has at least four sheets, and the second, third and fourth have the expected layouts. */
  predicate WellLaid(sheets: seq<Sheet>) {
    |sheets| >= 4 && sheets[1].CatalogueSheet? && sheets[2].UpdatesSheet? && sheets[3].ImagesSheet?
  }

  function StagesOf(sheets: seq<Sheet>): Stages
    requires WellLaid(sheets)
  {
    RunStages(sheets[2].rows, sheets[1].entries, sheets[3].images)
  }

  /**
   * The run as a whole; the template sheet is never looked at. When no row
   * passes validation the run fails at the renaming step: pandas' row-wise
   * `apply` on an empty frame probes the renaming function with a row of
   * missing values, the probe's failure makes `apply` return a copy of the
   * frame, and assigning that frame to the single `name_english` column
   * raises. The counters are never shown on such a run.
   */
  function Process(sheets: seq<Sheet>): (r: Result<Report, PipelineError>)
    ensures |sheets| < 4 <==> r == Err(TooFewSheets(|sheets|))
    ensures r == Err(UnexpectedLayout) <==> |sheets| >= 4 && !WellLaid(sheets)
    ensures r == Err(EmptyFinalTable) <==> WellLaid(sheets) && StagesOf(sheets).valid == []
    ensures r.Ok? <==> WellLaid(sheets) && StagesOf(sheets).valid != []
    ensures r.Ok? ==> r.value.rowsFinal > 0 && r.value.entries != []
    ensures r.Ok? ==> r.value == ReportOf(StagesOf(sheets))
  {
    if |sheets| < 4 then Err(TooFewSheets(|sheets|))
    else match (sheets[1], sheets[2], sheets[3])
      case (CatalogueSheet(cat), UpdatesSheet(maj), ImagesSheet(img)) =>
        var st := RunStages(maj, cat, img);
        if st.valid == [] then Err(EmptyFinalTable)
        else
          PartitionEmpty(st.final);
          Ok(ReportOf(st))
      case _ => Err(UnexpectedLayout)
  }

  /**
   * The counters are ordered, so the three differences shown (duplicates
   * removed, rows rejected, final products) are never negative, and the
   * merged table has at least one row per update row.
   */
  lemma CountersOrdered(maj: seq<UpdateRow>, cat: seq<CatalogEntry>, img: ImageSheet)
    ensures var rep := ReportOf(RunStages(maj, cat, img));
      |maj| <= rep.totalRows && rep.rowsFinal <= rep.rowsAfterDedup <= rep.totalRows
  {
  }

  /**
   * With catalogue ids unique after trimming, the merged table has exactly
   * one row per update row; otherwise `total_rows` counts the extra rows
   * that duplicate catalogue ids create.
   */
  lemma TotalRowsWithUniqueCatalogue(maj: seq<UpdateRow>, cat: seq<CatalogEntry>, img: ImageSheet)
    requires DistinctKeys(TrimCatalogue(cat), CatalogId)
    ensures ReportOf(RunStages(maj, cat, img)).totalRows == |maj|
  {
    ReconcileOneToOne(TrimUpdates(maj), TrimCatalogue(cat), ResolveImages(TrimImages(img)));
  }

  /** The final table has no repeated (store_id, product_id) pair and every row is complete. */
  lemma FinalRowsValid(maj: seq<UpdateRow>, cat: seq<CatalogEntry>, img: ImageSheet)
    ensures var f := RunStages(maj, cat, img).final;
      DistinctKeys(f, PairKey) && forall x :: x in f ==> IsComplete(x)
  {
    var st := RunStages(maj, cat, img);
    SubseqKeepsDistinct(st.valid, st.deduped, PairKey);
    DisambiguateKeepsValid(st.valid);
  }

  /**
   * Every written line has a non-empty name and image, and no external_id
   * appears twice in one store's file.
   */
  lemma ExportedRowsValid(maj: seq<UpdateRow>, cat: seq<CatalogEntry>, img: ImageSheet)
    ensures var es := ReportOf(RunStages(maj, cat, img)).entries;
      forall e :: e in es ==>
        (forall y :: y in e.rows ==> y.nameEnglish.Some? && y.nameEnglish.value != "" &&
                                     y.image.Some? && y.image.value != "") &&
        (forall i, j :: 0 <= i < j < |e.rows| ==> e.rows[i].externalId != e.rows[j].externalId)
  {
    FinalRowsValid(maj, cat, img);
    PartitionRowsValid(RunStages(maj, cat, img).final);
  }

  /** The files hold `rows_final` lines in all, and there is no file exactly when `rows_final` is 0. */
  lemma ExportedCount(maj: seq<UpdateRow>, cat: seq<CatalogEntry>, img: ImageSheet)
    ensures var rep := ReportOf(RunStages(maj, cat, img));
      TotalRows(rep.entries) == rep.rowsFinal && (|rep.entries| == 0 <==> rep.rowsFinal == 0)
  {
    var f := RunStages(maj, cat, img).final;
    PartitionEmpty(f);
    if |f| > 0 {
      PartitionSize(f);
    }
  }

  /** No two files of the archive have the same name. */
  lemma EntryNamesDistinct(maj: seq<UpdateRow>, cat: seq<CatalogEntry>, img: ImageSheet)
    ensures var es := ReportOf(RunStages(maj, cat, img)).entries;
      forall i, j :: 0 <= i < j < |es| ==> es[i].name != es[j].name
  {
    PartitionNamesDistinct(RunStages(maj, cat, img).final);
  }

  /**
   * An update row whose product has no catalogue entry ends in no file: its
   * merged rows have no name, so the completeness mask drops them.
   */
  lemma UnmatchedProductRejected(maj: seq<UpdateRow>, cat: seq<CatalogEntry>, img: ImageSheet, pid: string)
    requires forall c :: c in TrimCatalogue(cat) ==> c.externalId != pid
    ensures forall x :: x in RunStages(maj, cat, img).final ==> x.productId != pid
  {
    var st := RunStages(maj, cat, img);
    var v, f := st.valid, st.final;
    forall x | x in f ensures x.productId != pid {
      var i :| 0 <= i < |f| && f[i] == x;
      assert v[i] in v;
      SubseqMembers(v, st.deduped);
      SubseqMembers(st.deduped, st.merged);
      assert CatalogueColumnsRight(v[i], TrimCatalogue(cat));
    }
  }

  /** With an empty catalogue no product has a name, so no row passes validation. */
  lemma EmptyCatalogueNoValidRows(maj: seq<UpdateRow>, cat: seq<CatalogEntry>, img: ImageSheet)
    requires cat == []
    ensures RunStages(maj, cat, img).valid == []
  {
    var st := RunStages(maj, cat, img);
    if st.valid != [] {
      var x := st.final[0];
      assert x in st.final;
      UnmatchedProductRejected(maj, cat, img, x.productId);
    }
  }

  /** A workbook whose catalogue sheet is empty fails at the renaming step, whatever the updates. */
  lemma EmptyCatalogueFails(sheets: seq<Sheet>)
    requires WellLaid(sheets) && sheets[1].entries == []
    ensures Process(sheets) == Err(EmptyFinalTable)
  {
    EmptyCatalogueNoValidRows(sheets[2].rows, sheets[1].entries, sheets[3].images);
  }

  /** An update sheet without rows makes the run fail at the renaming step. */
  lemma EmptyUpdatesFail(cat: seq<CatalogEntry>, img: ImageSheet)
    ensures Process([TemplateSheet, CatalogueSheet(cat), UpdatesSheet([]), ImagesSheet(img)]) == Err(EmptyFinalTable)
  {
    CountersOrdered([], cat, img);
  }

  /**
   * The script: the sheet guard, then the stages in order with the counters
   * taken after the merges, after `drop_duplicates` and after renaming. The
   * renaming step fails when no row passed validation, so the script's own
   * `rows_final > 0` guard holds on every run that reaches it and the
   * archive is built on every successful run.
   */
  method RunApp(sheets: seq<Sheet>) returns (outcome: Result<Report, PipelineError>, archive: Option<ZipArchive>)
    ensures outcome == Process(sheets)
    ensures archive.Some? <==> outcome.Ok?
    ensures archive.Some? ==> fresh(archive.value) && archive.value.entries == outcome.value.entries
    ensures archive.Some? ==> outcome.value.rowsFinal > 0
  {
    if |sheets| < 4 {
      return Err(TooFewSheets(|sheets|)), None;
    }
    if !sheets[1].CatalogueSheet? || !sheets[2].UpdatesSheet? || !sheets[3].ImagesSheet? {
      return Err(UnexpectedLayout), None;
    }
    var cat, maj, img := sheets[1].entries, sheets[2].rows, sheets[3].images;
    ghost var st := RunStages(maj, cat, img);
    var dfMaj := TrimUpdates(maj);
    var dfCat := TrimCatalogue(cat);
    var dfImg := TrimImages(img);
    var images := ResolveImages(dfImg);

    var merged := Reconcile.Reconcile(dfMaj, dfCat, images);
    var totalRows := |merged|;
    assert merged == st.merged;

    merged := DropDuplicatePairs(merged);
    var rowsAfterDedup := |merged|;
    var finalData := KeepComplete(merged);
    if |finalData| == 0 {
      return Err(EmptyFinalTable), None;
    }

    finalData := Disambiguate.Disambiguate(finalData);
    var rowsFinal := |finalData|;
    assert finalData == st.final;

    var zf := new ZipArchive();
    WriteStores(finalData, zf);
    assert zf.entries == Partition(finalData);
    outcome := Ok(Report(totalRows, rowsAfterDedup, rowsFinal, zf.entries));
    assert outcome == Ok(ReportOf(st));
    archive := Some(zf);
  }
}
