# IPC area boundaries: merge, combine, simplify and id checks

This project models the data logic of the IPC area-boundary tools. The
per-country downloaders (current and legacy) fetch each country's
assessment areas for the years 2025 down to 2020. They filter the response
to polygon areas with a fixed property record. They then merge the new
areas with the country's existing data in a key-to-candidate table, where a
higher priority wins and, at equal priority, the newer year wins. The
combiners (current and legacy) fold every per-country file into one global
list, keeping the first feature seen per key and sorting by key. The
simplifier rounds coordinates, optionally simplifies shapes and reports the
size change. The optimiser checks geometry ids for duplicates, globally and
per country, and sets an exit code from the result.

The modules follow the programs' structure:

- `json.dfy` (`JsonValues`): the decoded-JSON values every tool works on.
  Python's truthiness, `dict.get` and `str()` are modelled here. So are the
  serialisers and the SHA-1 digest, which are passed in as parameters
  (`Externals`).
- `text.dfy` (`Text`): `normalize_title`, which all four scripts share
  verbatim, together with its shape and idempotence.
- `order.dfy` (`Order`): the string order `sorted` uses, sorted key lists
  and first-occurrence order.
- `identity.dfy` (`Identity`): the three `feature_key` variants. The
  current downloader tries id, then title, then the hashes. The legacy
  downloader tries title, then the hashes. Both combiners use `iso3::title`,
  else the hashes.
- `consolidation.dfy` (`Consolidation`): `merge_features`, as a table
  function `MergeAll` and the class `Aggregate`, whose `Merge` method runs
  the source's loop.
- `download.dfy` (`Download`): `normalize_years`, `filter_and_process_areas`
  (both as loops) and the per-country run of both downloaders. That run
  covers which year files what, the target-year choice and the sorted
  read-out.
- `combine.dfy` (`Combine`): `collect_all_features`, as the nested loop over
  files and features.
- `simplify.dfy` (`Simplify`): `round_nested`, `simplify_geometry`,
  `simplify_feature`, `simplify_features` and the size report of
  `simplify_topojson`.
- `integrity.dfy` (`Integrity`): `load_geometries`, `find_duplicate_ids` (the
  two counting loops), `format_dupe_report` and the exit-code rule of the
  optimiser's `main`.

The size ratio is the new size over the original size
(scripts/simplify_ipc_global_areas.py:149), so a file that grows reports a
ratio above 1 (`Simplify.RatioAboveOneIffGrew`). The code never checks for a
negative precision or tolerance: a tolerance at or below 0 only skips
simplification (`Simplify.SimplifyGeometry`), and the precision is handed to
`round` as it is.

## Model

| member | source | states |
|---|---|---|
| Text.NormalizeTitle | scripts/download_ipc_areas.py:136-139 | The normalised title is lower-case, has no leading or trailing whitespace, and has no whitespace other than single spaces between words. It is empty exactly when the title has no words, so a falsy title gives the empty string. The same normalisation serves download_ipc_areas.py:104-107 and both combiners. |
| Text.NormalizeTitleIdempotent | download_ipc_areas.py:104-107 | Normalising a normalised title changes nothing. |
| Text.NormalizeTitleWords | scripts/combine_ipc_areas.py:36-40 | The words of the normalised title are the title's own words, each lower-cased, in order. |
| Text.NormalizeTitleMatches | scripts/download_ipc_areas.py:136-139 | Two titles normalise to the same string exactly when their words agree once lower-cased. |
| Text.NormalizedIsFixed | combine_ipc_areas.py:27-31 | A string already in normal form (lower-case, single-spaced, trimmed) is its own normalisation. |
| Text.SplitJoin | scripts/combine_ipc_areas.py:40 | Splitting a single-spaced string on whitespace and joining the words with one space gives the string back. |
| Text.WordsAreClean | scripts/combine_ipc_areas.py:40 | `split()` yields non-empty words that contain no whitespace. |
| Identity.DownloadKey | scripts/download_ipc_areas.py:142-161 | The key starts with `id::` exactly when the id is not None. Otherwise it starts with `title::` exactly when the normalised title is non-empty. Otherwise it is the geometry or feature digest key. In the legacy edition (download_ipc_areas.py:110-124) the id is never used. |
| Identity.HashKey | scripts/download_ipc_areas.py:153-161 | The fallback key starts with `geometry::` exactly when the geometry is truthy, and with `feature::` exactly when it is not. |
| Identity.IdKeysMatchIds | scripts/download_ipc_areas.py:143-147 | With an id, two features share a key exactly when their trimmed lower-cased iso3 and id text agree, whatever their titles and geometries. This holds when the iso3 values contain no colon. |
| Identity.TitleKeysMatchTitles | download_ipc_areas.py:112-114 | Without an id, two titled features share a key exactly when their normalised titles are equal. |
| Identity.DownloadKeyStableUnderNormalization | scripts/download_ipc_areas.py:149-151 | Replacing a title by its normalised form keeps the downloaders' key. |
| Identity.CombineKey | scripts/combine_ipc_areas.py:43-59 | When the trimmed iso3 or the normalised title is empty, the key is the geometry or feature digest key, so a title without an iso3 never yields a title key. |
| Identity.CombineKeysMatchScopedTitles | scripts/combine_ipc_areas.py:45-49 | When both parts are present, two features share a combiner key exactly when both iso3 and normalised title agree. This holds when the iso3 values contain no colon. |
| Identity.CombineKeyStableUnderNormalization | combine_ipc_areas.py:34-50 | Normalising the title first leaves the combiners' key unchanged. |
| Consolidation.SourceYear | scripts/download_ipc_areas.py:248 | The feature's own `year` when that is not None, and the batch year otherwise. |
| Consolidation.MakeCandidate | scripts/download_ipc_areas.py:242-251 | The candidate carries the feature, the priority, the label, the feature's title, and the source year `SourceYear` picks. |
| Consolidation.Prepare | scripts/download_ipc_areas.py:241-251 | One keyed candidate per incoming feature, in order, keyed by `feature_key`. |
| Consolidation.ReplacementRule | scripts/download_ipc_areas.py:253-272 | A new key is inserted and counted as added. An existing entry is replaced and counted as updated exactly when the candidate's priority is higher, or equal with `(year or 0) >= (existing year or 0)`. Otherwise the table is unchanged and the feature is counted as skipped. |
| Consolidation.Aggregate.Merge | scripts/download_ipc_areas.py:232-274 | The new table is the old one with every candidate of the batch offered in order. The returned counts are that run's counts, and they sum to the number of features. The legacy loop (download_ipc_areas.py:174-216) is identical apart from its key. |
| Consolidation.Aggregate.constructor | scripts/download_ipc_areas.py:459 | A country's run starts from an empty table. |
| Consolidation.TallyTotal | scripts/download_ipc_areas.py:239-272 | `added + updated + skipped` equals the batch length. |
| Consolidation.AddedCountsNewKeys | scripts/download_ipc_areas.py:253-257 | `added` equals the number of distinct batch keys that were not in the table before. |
| Consolidation.MergeKeys | scripts/download_ipc_areas.py:253-255 | The keys after a merge are the keys before plus the batch's keys. |
| Consolidation.MergeUntouched | scripts/download_ipc_areas.py:253-272 | An entry whose key the batch does not mention is unchanged. |
| Consolidation.MergeProvenance | scripts/download_ipc_areas.py:255-269 | Every entry after a merge is either the entry that was there before or a candidate of the batch filed under that key. |
| Consolidation.MergeMonotone | scripts/download_ipc_areas.py:259-272 | A merge never makes an entry worse: the new entry beats or ties the old one. |
| Consolidation.MergeCovers | scripts/download_ipc_areas.py:253-270 | After a merge, every batch candidate's key holds an entry that beats or ties that candidate. |
| Consolidation.MergeIdempotent | download_ipc_areas.py:181-216 | Merging the same batch a second time leaves the table exactly as the first merge left it (the counts of the second run differ). |
| Consolidation.MergeOverlay | scripts/download_ipc_areas.py:253-272 | Merging a batch into a table equals merging the batch into an empty table and laying the result over the old table key by key, the later entry winning ties. |
| Consolidation.HigherPriorityTakesOver | scripts/download_ipc_areas.py:260-261 | A batch whose priority exceeds every existing entry's wins every key it mentions, with one of its own candidates. |
| Consolidation.MergeKeepsFiled | scripts/download_ipc_areas.py:244-255 | After a merge, every entry is still filed under its own feature's key. |
| Consolidation.ReadOutOrdered | scripts/download_ipc_areas.py:521-522 | The final features are strictly ascending by key, one per table entry, and every entry's feature is among them. |
| Consolidation.Aggregate.Features | download_ipc_areas.py:450-451 | The read-out of the table has one feature per key, strictly ascending by key, and includes every entry's feature. |
| Order.SortedKeys | scripts/download_ipc_areas.py:521 | `sorted` on the keys: strictly ascending, with exactly the keys of the table. |
| Download.NormalizeYears | scripts/download_ipc_areas.py:36-53 | None or an empty list gives 2025 down to 2020. Otherwise the result is non-empty, has no repetitions and contains exactly the input's years, in first-occurrence order. |
| Download.AreaProperties | scripts/download_ipc_areas.py:338-347 | The record holds `title` (default `''`), `country` (default the iso2), `iso3` (from the country) and `year` (default the batch year). It holds `id` exactly when the source id is not None, and never in the legacy edition (download_ipc_areas.py:280-286). |
| Download.AreaFeature | scripts/download_ipc_areas.py:349-353 | A kept area is a Feature with the source geometry and that property record. |
| Download.Screen | scripts/download_ipc_areas.py:317-338 | An item is skipped exactly when it is not a dict or its geometry is not a Polygon or MultiPolygon with non-empty coordinates. Otherwise its canonical geometry is taken, and it is kept exactly when its properties can be read. |
| Download.FilterAndProcessAreas | scripts/download_ipc_areas.py:312-366 | The loop returns the features the screening keeps in order, with repeated geometries dropped. It returns None when none survive. The legacy filter (download_ipc_areas.py:254-306) is the same loop with the legacy record. |
| Download.SweepSound | scripts/download_ipc_areas.py:319-353 | Every output feature has a Polygon or MultiPolygon geometry with non-empty coordinates, whose canonical form was recorded. It is built from some input item. |
| Download.SweepDistinct | scripts/download_ipc_areas.py:331-336 | No two output features share a canonical geometry. |
| Download.SweepKeepsFirst | scripts/download_ipc_areas.py:331-353 | A keepable item whose geometry no earlier item recorded is in the output. |
| Download.SweepRecordsOnly | scripts/download_ipc_areas.py:331-336 | Only geometries of items that passed the type and coordinate tests are recorded. |
| Download.SweepRecordsAll | scripts/download_ipc_areas.py:331-336 | Every item that passed those tests has its geometry recorded, even one whose properties then raise. |
| Download.SweepGrows | scripts/download_ipc_areas.py:349-353 | The output for a prefix of the items is a prefix of the output. |
| Download.SweepMergeable | scripts/download_ipc_areas.py:483-494 | When every readable polygon item carries a text title (unless its id gives the key) and a numeric year, the filtered features can be merged: each can be keyed and its year compared. Items that are not polygons are not constrained. |
| Download.DiscardedItemsUnconstrained | scripts/download_ipc_areas.py:319-334 | An item the filter skips, because it is not a polygon with coordinates or its geometry was already seen, changes neither the kept features nor whether the response can be merged, whatever its properties hold. |
| Download.Batch | scripts/download_ipc_areas.py:482-485 | A year contributes a batch exactly when its fetch succeeded and the filter returned a non-empty list, and the batch is that filtered list. |
| Download.FirstHit | scripts/download_ipc_areas.py:486-487 | Gives the first year (in the order tried) that delivered, or None exactly when none did. |
| Download.MaxSourceYear | scripts/download_ipc_areas.py:508-516 | None exactly when no entry has a source year; otherwise the largest source year among the entries. |
| Download.RunYearOn | scripts/download_ipc_areas.py:479-502 | One year of the loop: the table becomes that year's run, and the result says whether the download delivered features. |
| Download.ProcessCountry | scripts/download_ipc_areas.py:455-542 | No data exactly when the table stays empty. Otherwise the target year is the first year that delivered, else the largest source year, else there is no target year. The features are the sorted read-out of the table. |
| Download.ProcessCountryLegacy | download_ipc_areas.py:391-471 | No data exactly when the table stays empty. Otherwise the target year is the first year that delivered, else the first year with an existing file, else there is no target year. The features are the sorted read-out. |
| Download.DownloadsWin | download_ipc_areas.py:399-439 | Every feature downloaded in any year ends up filed under its key at priority 10, since existing files enter at priority 0 and downloads at 10. |
| Download.RunYearMonotone | download_ipc_areas.py:407-431 | A year of the run never lowers the priority of an entry already in the table. |
| Download.RunYearsCapped | download_ipc_areas.py:407-431 | No entry's priority ever exceeds 10. |
| Download.RunYearsIdle | download_ipc_areas.py:399-439 | Years with neither an existing file nor a delivering download leave the table unchanged. |
| Download.LegacyHasTargetYear | download_ipc_areas.py:441-448 | In the legacy run, a non-empty table always has a target year: some year delivered or had a file. |
| Combine.OfferFile | scripts/combine_ipc_areas.py:89-92 | The inner loop extends the table with one file's features, keeping the first feature per key. |
| Combine.CollectAllFeatures | scripts/combine_ipc_areas.py:78-95 | The result is the first-wins table of every loaded feature, read out in key order. The legacy combiner (combine_ipc_areas.py:69-86) runs the same loop. |
| Combine.AggregatedSnoc | scripts/combine_ipc_areas.py:90-92 | A later feature with a key already present never replaces the stored one. A new key stores the feature. |
| Combine.FirstWinsFirst | combine_ipc_areas.py:80-83 | The table has exactly the keys seen, and each holds the first feature with that key. |
| Combine.FailedFileSkipped | scripts/combine_ipc_areas.py:83-87 | A file that fails to load contributes nothing, and the remaining files are still read. |
| Combine.CombinedFirstWins | scripts/combine_ipc_areas.py:89-95 | Every output feature is one of the loaded features: the first loaded feature with its key. |
| Combine.CombinedAscending | scripts/combine_ipc_areas.py:94-95 | The output keys are strictly ascending, so each key appears once. |
| Combine.CombinedCovers | combine_ipc_areas.py:82-86 | Every loaded feature's key is represented in the output by the first feature loaded with that key. |
| Simplify.RoundNested | scripts/simplify_ipc_global_areas.py:56-61 | The result has the nesting and list lengths of the input, with floats where the input has floats. Every other leaf is unchanged. A value containing no floats is returned unchanged. |
| Simplify.RoundNestedIdempotent | scripts/simplify_ipc_global_areas.py:56-61 | Rounding twice equals rounding once, for any `round` that is itself idempotent at that precision. |
| Simplify.SimplifyGeometry | scripts/simplify_ipc_global_areas.py:64-83 | The geometry is unchanged when the tolerance is at or below 0, when shapely is missing, or when simplification fails or gives an empty shape. Otherwise it is shapely's simplified shape. |
| Simplify.SimplifyFeature | scripts/simplify_ipc_global_areas.py:86-95 | The result has the input's fields, and every field but `geometry` is unchanged. A non-dict geometry leaves the feature as it was. A dict geometry is simplified, then its coordinates are rounded. |
| Simplify.RoundingOnly | scripts/simplify_ipc_global_areas.py:89-94 | With tolerance at or below 0, the geometry keeps its fields, all but `coordinates` unchanged, and the coordinates are rounded in their own shape. |
| Simplify.SimplifiedOrKept | scripts/simplify_ipc_global_areas.py:89-94 | With a positive tolerance, the result geometry is the simplified (or kept) geometry with only its coordinates rounded. |
| Simplify.SimplifyFeatures | scripts/simplify_ipc_global_areas.py:113-119 | One result per feature, each the simplified feature, with the same fields and the same properties. |
| Simplify.TargetPath | scripts/simplify_ipc_global_areas.py:143 | The output path defaults to the source path. |
| Simplify.Ratio | scripts/simplify_ipc_global_areas.py:149 | The ratio is 0 for an empty original, and otherwise the number whose product with the original size is the new size. |
| Simplify.Report | scripts/simplify_ipc_global_areas.py:146-157 | Saved bytes plus the new size equals the original size, and the ratio is new over original. |
| Simplify.RatioAboveOneIffGrew | scripts/simplify_ipc_global_areas.py:146-149 | The ratio exceeds 1 exactly when the file grew, and equals 1 exactly when its size is unchanged. |
| Simplify.SimplifyTopojsonAsWritten | scripts/simplify_ipc_global_areas.py:122-172 | As written: it fails exactly when the source is missing or has no features; on success the features written are the input features passed through `SimplifyFeatures`, and both sizes are read after the output was written. |
| Simplify.InPlaceReportsNoSaving | scripts/simplify_ipc_global_areas.py:143-149 | As written, writing over the source always reports 0 bytes saved and, for a non-empty result, a ratio of 1. |
| Simplify.InPlaceCounterexample | scripts/simplify_ipc_global_areas.py:143-149 | A 100-byte source rewritten in place at 40 bytes is reported as originally 40 bytes with nothing saved. |
| Simplify.SimplifyTopojson | scripts/simplify_ipc_global_areas.py:122-172 | Corrected: it fails exactly when the source is missing or has no features. |
| Simplify.SimplifyTopojsonReport | scripts/simplify_ipc_global_areas.py:130-157 | On success the features written are exactly the input features passed through `SimplifyFeatures` (rounded and simplified one by one), one per input. Only the target file changes, and it is written at the output path or else over the source. The report compares the source's size before writing with what was written. |
| Integrity.LoadGeometries | scripts/optimize_global_topojson.py:38-51 | Fails with "no objects" exactly when `objects` is not a non-empty dict. Otherwise it fails with "no geometries" unless the first object's `geometries` is a list, which is then returned. |
| Integrity.IdOf | scripts/optimize_global_topojson.py:61-71 | A None id is counted as `<missing>`; any other id as its `str()`. |
| Integrity.CountryOf | scripts/optimize_global_topojson.py:62-63 | The country is the iso3 when it is truthy, and `UNK` otherwise; it is never empty. |
| Integrity.TallyCounts | scripts/optimize_global_topojson.py:57-73 | After counting, the counter holds exactly the ids seen, each with its number of occurrences. |
| Integrity.TallyOrder | scripts/optimize_global_topojson.py:75 | The counter lists ids in order of first occurrence. |
| Integrity.GlobalDuplicatesExact | scripts/optimize_global_topojson.py:71-75 | The global duplicates are exactly the ids occurring more than once, each listed once, in first-occurrence order. |
| Integrity.FindDuplicateIds | scripts/optimize_global_topojson.py:54-83 | The two loops return the global duplicates and the per-country map of duplicate lists. |
| Integrity.DuplicatesOver | scripts/optimize_global_topojson.py:78-81 | The second loop keeps exactly the countries with a non-empty duplicate list, each with its list. |
| Integrity.CountryDuplicatesExact | scripts/optimize_global_topojson.py:72-81 | A country is in the map exactly when one of its ids occurs more than once in it, and its list holds exactly those ids. |
| Integrity.CountryDuplicatesAreGlobal | scripts/optimize_global_topojson.py:72-81 | Every per-country duplicate is also a global duplicate. |
| Integrity.MissingIdCounted | scripts/optimize_global_topojson.py:65-69 | A geometry without an id puts `<missing>` among the global ids and among its country's ids. |
| Integrity.Segments | scripts/optimize_global_topojson.py:87 | One non-empty segment per country in the map. |
| Integrity.FormatDupeReport | scripts/optimize_global_topojson.py:86-88 | The report is empty exactly when the map is empty. |
| Integrity.FormatDupeReportUnfolds | scripts/optimize_global_topojson.py:86-88 | The report starts with the segment of the smallest iso3, followed by `"; "` and the report of the rest when there is a rest. |
| Integrity.ExitAfterOptimization | scripts/optimize_global_topojson.py:166-174 | The exit code is 0 or 1. |
| Integrity.ExitCodeRule | scripts/optimize_global_topojson.py:165-174 | The exit code is 1 exactly when some country has an id occurring more than once among the optimised geometries. |

## Left out

- Network and process plumbing are not modelled: the HTTP download
  (`download_areas`), API-key and release-tag resolution, `time.sleep`, and
  `print`. A year's download is a parameter (`fetch`), None when it failed.
- File I/O is not modelled: reading `countries.csv`, loading and saving
  TopoJSON, the directory walk, the index file and its timestamps. Existing
  files are parameters (`files`, `existing`). In the simplifier, the file
  system is a map from path to byte size.
- The topojson library is not modelled: conversion to and from TopoJSON, and
  the encoded size of the written file (a parameter, `encodedSize`). A file's
  decoded features are given directly.
- Simplify.SimplifyGeometry: shapely's `simplify` is a parameter
  (`Numerics.shapely`), so only the fallback control flow around it is
  modelled.
- Simplify.RoundNestedIdempotent: Python's `round(x, digits)` on binary
  floats is a parameter (`Numerics.round`). Floats are exact reals. So
  idempotence is proved only for a `round` that is idempotent at that
  precision.
- Simplify.Ratio: the division is exact. Float rounding of `size_ratio` is
  not modelled.
- SHA-1 and `json.dumps(sort_keys=True)` are parameters (`Externals`), and
  so is `str()` of floats, lists and dicts. Properties hold for any choice of
  them.
- Text.Lower: `lower()` maps only the ASCII letters. Unicode case mapping is
  not modelled. Whitespace is Python's full `isspace` set.
- Integrity.LoadGeometries: a decoded object keeps no key order, so the name
  of the first object in the document is supplied by the caller.
- Integrity.FindDuplicateIds: the per-country map is a Dafny map, so the
  insertion order of the source's dict is not modelled. Only the global list
  keeps its order.
- Inputs on which the source raises a Python exception are excluded by
  preconditions, stated next. The downloaders' `feature_key` needs
  `Keyable`: readable properties, and a string or falsy iso3 when the
  `id` gives the key, or a string or falsy title otherwise. The
  combiners' `feature_key` needs
  `CombineKeyable`/`AllKeyable`. The optimiser needs every geometry to be
  a dict (`FindDuplicateIds` takes `seq<Dict>`; Python raises
  `AttributeError` at `geom.get("id")` on anything else) and `Scannable`: a
  string or falsy iso3, since a truthy non-string iso3 is a valid dict key
  in Python but not modelled. A downloaded response must be `Tame`: the
  features the filter keeps from it must be `Mergeable`. A kept feature
  keyed by its title needs a string or falsy title, so that keying does not
  raise, and every kept feature needs a year that `YearLike` accepts, for
  the reason given next. Items the filter discards (a non-polygon or empty
  geometry, a repeated geometry, a non-dict item) are not constrained.
- Consolidation.Aggregate.Merge: `Mergeable` (through `YearLike`) restricts
  every source year to None, a boolean or a number, and so does `Tame` for
  the features kept from a download. This is a modelling
  choice, not a raising input: Python also merges some string years. Lost
  are the empty string (`"" or 0` is 0), batches whose years are all strings
  (compared lexicographically), and string years under keys that never
  collide (never compared at all). The loop fills a local copy of the table
  and stores it at the end; since no admitted input raises mid-loop, the
  final state is the one the in-place updates give.
- Download.FilterAndProcessAreas: the `try`/`except` around each item is
  modelled only for the case where reading the properties raises after the
  geometry was recorded (`Claim`). In the source, such an item blocks later
  copies of its geometry, and so it does in the model.
- Download.NormalizeYears: `int(year)` parsing is not modelled, because the
  years are already integers. The "at least one valid year" error cannot
  happen for a non-empty list, so it has no branch.
- Download.ProcessCountry: the target year is a real number, since Python's
  `max` runs over whatever numbers the source years hold. The later
  conversion and save failures are I/O and are not modelled.
- `minify_topojson`, `build_topology`, `write_output`, `discover_topojson_files`,
  the argparse `main` functions (apart from the exit-code rule of the
  optimiser's `main`, modelled by `Integrity.ExitAfterOptimization` and
  `Integrity.ExitCodeRule`) and `scripts/__init__.py` are not modelled,
  being wrappers, I/O or entry points.

## Findings

| source | as written | input that shows it | evidently intended | confidence | as-written member | corrected member |
|---|---|---|---|---|---|---|
| scripts/simplify_ipc_global_areas.py:143-149 | `original_size` is read from the source after the output was written, so when the output is the source (the default, and how the combiner calls it) both sizes are the new size: saved is always 0 and the ratio 1 | a 100-byte source rewritten in place at 40 bytes reports original 40, new 40, saved 0 | take the original size before writing, so the report compares the file before and after | not executed | `Simplify.SimplifyTopojsonAsWritten` (`Simplify.InPlaceCounterexample`, `Simplify.InPlaceReportsNoSaving`) | `Simplify.SimplifyTopojson` (`Simplify.SimplifyTopojsonReport`) |
