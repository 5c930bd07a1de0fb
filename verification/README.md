# Store catalogue generator — verified model

This project models the data pipeline of a Streamlit script (`app.py`) that
turns a four-sheet workbook into one CSV file per store, packed in a ZIP
archive. The workbook's sheets are read by position: an unused output
template, the product catalogue, the update feed (one row per product and
store, with price and quantity) and the image links.

The pipeline, stage by stage, and the module that models it:

| stage | module |
|---|---|
| sheet-count guard, stage order, counters, the archive | `Pipeline` |
| `product_id` / `store_id` / `external_id` whitespace trimming (Python `str.strip`) | `Text`, `Prepare` |
| image resolution: sort by `PICTURE_ORDER` when present, keep the first row per `external_id` | `Images` |
| two left-outer merges on `product_id` (catalogue, then images) | `Reconcile` |
| `drop_duplicates` on (`store_id`, `product_id`), then the completeness mask on `name_english` and `image` | `Validate` |
| occurrence index per (`store_id`, `name_english`) and the accent rewrite of duplicate names | `Disambiguate`, `Accent` |
| export defaults, per-store split, entry names, the ZIP write loop | `Export` |

`TableOps` holds the pandas operations the script relies on, written over
sequences of rows: mask filtering, `drop_duplicates(keep='first')`,
`groupby(...).cumcount()` and the left merge. `Records` holds the row types
and `Options` the `Option` and `Result` types.

What the proofs establish, in the script's own terms:

- The three counters shown satisfy `rows_final <= rows_after_dedup <= total_rows`.
  `total_rows` is at least the number of update rows, and it is that number when
  catalogue ids are unique. In general each update row counts once for every
  catalogue row with its product, or once when there is none
  (`Reconcile.ReconcileLength`). The catalogue is never de-duplicated, so a fed
  product with k > 1 catalogue rows adds k - 1 rows.
- After validation no (`store_id`, `product_id`) pair repeats. The row kept for a
  pair is its first merged row, and the pair survives exactly when that first row
  has a name and an image.
- The occurrence index of a row is the number of earlier rows of its store with
  the same name. A row is renamed exactly when such an earlier row exists.
- Let L be the number of accentable characters of a name, and let Bound(L) be 1
  when L = 0 and 2L otherwise. The rewrite gives pairwise different names for the
  occurrence indices 0 to Bound(L). Index Bound(L) + 1 always repeats an earlier
  result, so the uniqueness announced in the page banner holds only up to that bound.
- Renaming can also collide with a different original name of the same store:
  "Cafe", "Cafe", "Càfe" become "Cafe", "Càfe", "Càfe".
- When a name has at least two accentable characters, the first duplicate changes
  the second-to-last one, not the last one as the code comment says. With exactly
  one accentable character, every duplicate changes that character. "Orange" becomes "Orànge", not "Orangè" as the
  banner's example says.
- Stores are listed once each, in order of first appearance. Every exported row goes
  to exactly one file: the file of its store, in table order. The files hold
  `rows_final` rows in total, and their names are pairwise distinct. No
  `external_id` repeats within a file. There is no file exactly when `rows_final`
  is 0.

Two properties of the code that a reader of the script might not expect:

- Duplicate catalogue ids multiply merged rows: the catalogue is never
  de-duplicated, so one update row matching two catalogue rows gives two merged
  rows (`Reconcile.DuplicateCatalogueIdsMultiplyRows`).
- The accent table also maps `y` to `ÿ`, so `y` counts as an accentable character.

When no row passes validation, the run stops with an error at the renaming step
(`Pipeline.EmptyFinalTable`). This is what pandas does. A row-wise `apply` on an
empty frame first calls the renaming function on a row of missing values. That
call fails, so `apply` returns a copy of the whole frame. Assigning a
many-column frame to the single `name_english` column then raises. So the
counters are never shown for such a run, and the script's `rows_final > 0`
guard holds whenever it is reached. An empty update sheet
(`Pipeline.EmptyUpdatesFail`) and an empty catalogue
(`Pipeline.EmptyCatalogueFails`) both end this way.

## Model

| member | source | states |
|---|---|---|
| TableOps.Filter | app.py:60-64 | a mask selection keeps exactly the rows satisfying the predicate, as an order-preserving subsequence |
| TableOps.FilterMultiplicity | app.py:60-64 | each row occurs in the selection as often as in the input when it satisfies the predicate, and not at all otherwise |
| TableOps.DropDuplicates | app.py:57 | the result is an order-preserving subsequence with pairwise distinct keys and the same set of keys as the input |
| TableOps.DedupFromKeys | app.py:57 | the row-by-row scan keeps one row for each key not already seen and never two rows of one key |
| TableOps.DropDuplicatesKeepsFirst | app.py:57 | every survivor is the first row of its key, and survivors appear in the order their keys first appear |
| TableOps.CumCount | app.py:67 | one index per row, equal to the number of earlier rows with the same key |
| TableOps.CumCountIncreasesInGroup | app.py:67 | within a group the occurrence index strictly increases along the table |
| TableOps.Matches | app.py:143 | selecting rows by key keeps exactly the rows with that key, in table order |
| TableOps.MatchesCount | app.py:143 | the selection has as many rows as the key occurs in the table |
| TableOps.LeftJoin | app.py:51-52 | a left merge keeps every left row, pairs it with every matching right row, and leaves it unpaired exactly when nothing matches |
| TableOps.LeftJoinAppend | app.py:51-52 | the merge of two concatenated left tables is the concatenation of their merges, so left order is kept |
| TableOps.LeftJoinSingle | app.py:51-52 | one left row merges into its matches in right order, or into one unpaired row |
| TableOps.LeftJoinSize | app.py:51-54 | the merged length is the sum over left rows of max(1, number of matches) |
| TableOps.LeftJoinOneToOne | app.py:51-52 | with unique right keys the merge has one row per left row, in left order |
| Text.Strip | app.py:43 | the result has no leading or trailing whitespace and is the input with its whitespace prefix and suffix removed |
| Text.StripPadded | app.py:43 | stripping a stripped string padded with whitespace gives the string back |
| Text.StripIdempotent | app.py:43 | stripping twice equals stripping once |
| Prepare.TrimUpdates | app.py:40-43 | product_id and store_id of every update row are stripped; price and quantity are untouched |
| Prepare.TrimCatalogue | app.py:40-43 | external_id of every catalogue row is stripped; the other columns are untouched |
| Prepare.TrimImages | app.py:40-43 | external_id of every image row is stripped; image and order are untouched |
| Prepare.PrepareIdempotent | app.py:40-43 | trimming an already trimmed table changes nothing |
| Images.SortByOrder | app.py:46-47 | the result is sorted by PICTURE_ORDER with missing orders last and is a permutation of the input |
| Images.ResolveImages | app.py:46-48 | one image row per external_id, every id of the sheet kept, each kept row taken from the sheet |
| Images.ResolveImagesPicksLeastOrder | app.py:46-48 | with PICTURE_ORDER present, the kept row of an id has the least order among that id's rows |
| Images.ResolveImagesPicksFirstRow | app.py:48 | without PICTURE_ORDER, the kept row of an id is its first row in sheet order |
| Images.ResolveImagesExample | app.py:46-48 | orders 2 then 1 for one product: the order-1 image is kept |
| Reconcile.Reconcile | app.py:51-52 | every merged row carries one update row's columns, its catalogue columns are null exactly when no catalogue row matches and otherwise come from a matching one, its image is null without an image match; every update row yields a merged row, and one for each matching catalogue row |
| Reconcile.ReconcileRowsEveryMatch | app.py:51 | every matching (update row, catalogue row) pair gives a merged row carrying both |
| Reconcile.ReconcileAppend | app.py:51-52 | merging two concatenated update tables gives the concatenation of their merges, so feed order is kept |
| Reconcile.ReconcileSingle | app.py:51-52 | with resolved images, one update row gives one row per matching catalogue row, in catalogue order, or one row with null catalogue columns |
| Reconcile.ReconcileLength | app.py:51-54 | with resolved images, total_rows equals the length of the catalogue merge, i.e. the catalogue fan-out |
| Reconcile.ReconcileOneToOne | app.py:51-54 | with unique catalogue ids the merged table has one row per update row, in feed order |
| Reconcile.DuplicateCatalogueIdsMultiplyRows | app.py:51-54 | one update row and two catalogue rows with its id give two merged rows |
| Validate.DropDuplicatePairs | app.py:57 | no (store_id, product_id) pair repeats and every pair of the merged table is still present |
| Validate.KeepComplete | app.py:60-64 | exactly the rows with a non-empty name and non-empty image are kept, in order, each as often as in the de-duplicated table |
| Validate.ValidatedRows | app.py:57-64 | survivors have distinct pairs, are complete and are the first row of their pair; a pair survives exactly when its first row is complete |
| Accent.CharmapMoves | app.py:78-85 | no character of the accent table maps to itself |
| Accent.Eligible | app.py:89 | the positions of the accentable characters, ascending, each such position included |
| Accent.Target | app.py:99 | the changed position is the (count mod L + 1)-th accentable position from the end, and is in range |
| Accent.AccentTypo | app.py:69-109 | count 0 returns the name; no accentable character gives name + "."; otherwise exactly the target character changes, to its table image, and "." is appended exactly when count > L |
| Accent.DuplicateIsRenamed | app.py:73-109 | every positive count changes the name |
| Accent.DistinctUpToBound | app.py:95-109 | counts 0 to Bound(L) give pairwise different names |
| Accent.RepeatsAfterSecondWalk | app.py:99-109 | for count c > L, counts c and c + L give the same name |
| Accent.RepeatsWithoutVowel | app.py:91-93 | without an accentable character all positive counts give the same name |
| Accent.BoundIsExact | app.py:99-109 | count Bound(L) + 1 repeats the result of an earlier count |
| Accent.WalkStartsBeforeLast | app.py:95-99 | with L >= 2, count 1 changes the second-to-last accentable character and count L the last |
| Accent.OrangeTarget | app.py:89-99 | "Orange" has three accentable characters and count 1 picks position 2, its "a" |
| Accent.OrangeExample | app.py:69-109 | the first duplicate of "Orange" is "Orànge" |
| Disambiguate.DedupCounts | app.py:67 | each row's index is the number of earlier rows with the same store and name |
| Disambiguate.Disambiguate | app.py:111 | one row per row, only the name changes, a named row stays named and a complete row stays complete, and a named row's new name is the accent rewrite of its name for its occurrence index |
| Disambiguate.DisambiguateKeepsValid | app.py:111 | renaming keeps the (store_id, product_id) pairs distinct and every row complete |
| Disambiguate.RenamedIffEarlierDuplicate | app.py:67-111 | a named row is changed exactly when an earlier row has the same store and name |
| Disambiguate.SameGroupStaysDistinct | app.py:67-111 | two rows of one group get different names while the later index is within Bound(L) |
| Disambiguate.SmallGroupsStayDistinct | app.py:67-111 | when no group exceeds Bound(L) + 1 rows, all rows of each group get different names |
| Disambiguate.CollisionAcrossNames | app.py:67-111 | "Cafe", "Cafe", "Càfe" in one store give two rows named "Càfe" |
| Export.Finalize | app.py:126-134 | the written external_id is the product_id; missing description, quantity and price become "", 0 and 0; name, image, category and sub-category are kept |
| Export.Stores | app.py:137 | each store appears once, exactly the stores of the final rows appear, and in the order of their first row |
| Export.EntryName | app.py:147 | the entry name is "Output_Store_" + store + ".csv", from which the store can be read back |
| Export.StoreEntry | app.py:143-147 | a store's file is named after it and has one line per row of that store |
| Export.StoreEntryRows | app.py:143-144 | a store's file holds exactly that store's rows, projected, in table order |
| Export.EntryNameInjective | app.py:147 | different stores give different entry names |
| Export.PartitionNamesDistinct | app.py:137-147 | no two entries have the same name |
| Export.PartitionPlacesEveryRow | app.py:137-147 | every final row is written to its store's file and to no other entry of that name |
| Export.PartitionSize | app.py:137-147 | the files hold as many lines as there are final rows |
| Export.PartitionEmpty | app.py:137-147 | there is no entry exactly when the final table is empty |
| Export.EntryIdsDistinct | app.py:126-144 | with unique (store_id, product_id) pairs, no external_id repeats within a file |
| Export.PartitionRowsValid | app.py:137-147 | from a valid final table every written line has a non-empty name and image and no external_id repeats in a file |
| Export.ZipArchive.constructor | app.py:141 | a new archive has no entries |
| Export.ZipArchive.WriteStr | app.py:147 | writing appends exactly one entry |
| Export.WriteStores | app.py:141-147 | the write loop appends one entry per store, in store order, equal to the partition |
| Pipeline.Process | app.py:29-111 | fewer than four sheets is the sheet-count error; a sheet of the wrong kind is the layout error; a well-laid workbook fails exactly when no row passes validation; a successful run reports the counters and entries of its stages, with rows_final > 0 and at least one file |
| Pipeline.EmptyCatalogueNoValidRows | app.py:51-64 | with an empty catalogue no row passes validation |
| Pipeline.EmptyCatalogueFails | app.py:51-111 | a workbook with an empty catalogue fails at the renaming step |
| Pipeline.EmptyUpdatesFail | app.py:51-111 | a workbook with an empty update sheet fails at the renaming step |
| Pipeline.CountersOrdered | app.py:54-113 | rows_final <= rows_after_dedup <= total_rows and total_rows >= number of update rows |
| Pipeline.TotalRowsWithUniqueCatalogue | app.py:51-54 | with unique trimmed catalogue ids, total_rows is the number of update rows |
| Pipeline.FinalRowsValid | app.py:57-111 | after renaming the final table has distinct (store_id, product_id) pairs and only complete rows |
| Pipeline.ExportedRowsValid | app.py:57-147 | every written line has a non-empty name and image, and no external_id repeats in a file |
| Pipeline.ExportedCount | app.py:113-147 | the files hold rows_final lines in all, and there is no file exactly when rows_final is 0 |
| Pipeline.EntryNamesDistinct | app.py:137-147 | the archive's entry names are pairwise distinct |
| Pipeline.UnmatchedProductRejected | app.py:51-64 | a product without a catalogue entry reaches no file |
| Pipeline.RunApp | app.py:25-147 | the script's result equals the run function, an archive is built exactly on a successful run, and it holds the partition's entries |

## Left out

- The Streamlit page: configuration, banner, uploader, spinner, metrics, progress bar, download button and the preview of renamed rows. These are presentation only.
- `st.cache_data` caching of the workbook load. It is framework state.
- `pd.read_excel`. The four parsed sheets are the input. Each parsed sheet has the columns its position needs. `UnexpectedLayout` covers only a sheet of the wrong kind at a position.
- Runs on sheets lacking a required column. The script raises `KeyError` when a column it reads is missing:
  - `product_id` or `store_id` of the update sheet (app.py:51, app.py:57);
  - `external_id` of the catalogue or image sheet (app.py:48, app.py:51);
  - `image` of the image sheet (app.py:52);
  - `name_english` of the catalogue (app.py:61);
  - `quantity` or `price` of the update sheet (app.py:131-132);
  - `category` or `sub_category` of the catalogue (app.py:144).
  The model cannot represent such a sheet, so it does not model these failures. The script tolerates only two missing columns. A missing `description` becomes empty text (app.py:127-128). A missing `PICTURE_ORDER` switches the sort off (app.py:46), and the model keeps it as a flag.
- CSV serialisation, UTF-8 encoding and ZIP compression. An entry is modelled as its name and its projected rows.
- Floating-point cells. Price and quantity are optional integers, so `astype(int)` truncation and NaN-as-float are not modelled.
- `astype(str)` turning missing identifiers into the text "nan". Identifiers arrive as text.
- Prepare.TrimUpdates: the trimming loop reassigns the columns of three data frames in place. The model computes the trimmed tables as values, because no other reference to those frames exists.
- Images.SortByOrder: pandas sorts with an unstable quicksort by default. The model uses a stable sort. The least-order property is proved for any sorted permutation, so which row wins a tie is deliberately not stated.
- Reconcile.Reconcile: pandas' suffixing of clashing column names is reduced to the merged row's fixed columns. The catalogue's `external_id` is kept, and the image sheet contributes only `image`.
- Pipeline.Process: a workbook that lacks a column the script reads is not modelled; see the column list above.
- Pipeline.Process: text columns other than the identifiers, `name_english` in particular, are assumed to hold text. A numeric `name_english` cell (a product named 1664, say) passes the completeness mask (app.py:61-62). A second row with the same store and name then makes the renaming call `list` on a number (app.py:87), which raises. The model cannot represent that cell, so this failure of a run with a non-empty final table is not modelled.
- Pipeline.RunApp: the export defaults are applied while each store's file is built, not to the whole table beforehand. They do not touch `store_id`, so the files are the same.
