/** The downloaders' own logic around the merge: the sanitised list of
    assessment years, the filter that turns an API response into area
    features, and the per-country run that merges existing and downloaded
    data and picks the year the result is filed under. */
module Download {
  import opened JsonValues
  import opened Identity
  import opened Consolidation
  import opened Order

  /** `YEARS_TO_TRY`: 2025 down to 2020. */
  const YearsToTry: seq<int> := [2025, 2024, 2023, 2022, 2021, 2020]

  /** `normalize_years`: the default years for a missing or empty list,
      otherwise the list without repetitions, in first-occurrence order. */
  method NormalizeYears(years: Option<seq<int>>) returns (r: seq<int>)
    ensures years.None? || years == Some([]) ==> r == YearsToTry
    ensures years.Some? && years.value != [] ==>
      && r != []
      && NoDuplicates(r)
      && (forall x :: x in r <==> x in years.value)
      && InFirstOccurrenceOrder(r, years.value)
  {
    if years.None? || years.value == [] {
      return YearsToTry;
    }
    var ys := years.value;
    var seen: set<int> := {};
    r := [];
    for i := 0 to |ys|
      invariant NoDuplicates(r)
      invariant i > 0 ==> r != []
      invariant forall x :: x in r <==> x in ys[..i]
      invariant forall x :: x in seen <==> x in r
      invariant forall j :: 0 <= j < |r| ==> r[j] in ys && FirstIndex(ys, r[j]) < i
      invariant forall j, k :: 0 <= j < k < |r| ==> FirstIndex(ys, r[j]) < FirstIndex(ys, r[k])
    {
      var value := ys[i];
      assert ys[..i + 1] == ys[..i] + [value];
      if value in seen {
        continue;
      }
      assert forall j :: 0 <= j < i ==> ys[j] == ys[..i][j];
      assert FirstIndex(ys, value) == i;
      r := r + [value];
      seen := seen + {value};
    }
    assert ys[..|ys|] == ys;
  }

  /** The fields of `country_info` the filter reads. */
  datatype CountryInfo = CountryInfo(name: string, iso2: string, iso3: string)

  /** A geometry the filter accepts: a dict whose type is Polygon or
      MultiPolygon and whose coordinates are non-empty. */
  predicate PolygonLike(g: Json) {
    && g.Obj?
    && (Get(g.fields, "type") == Str("Polygon") || Get(g.fields, "type") == Str("MultiPolygon"))
    && Truthy(Get(g.fields, "coordinates"))
  }

  /** Whether the property record carries the source id: only the current
      downloader copies it, and only when it is not None. */
  predicate CopiesId(edition: Edition, src: Dict) {
    edition == Current && Get(src, "id") != Null
  }

  /** The fixed-shape property record built for a kept area. */
  function AreaProperties(edition: Edition, info: CountryInfo, year: int, src: Dict): (p: Dict)
    ensures p.Keys == {"title", "country", "iso3", "year"} + (if CopiesId(edition, src) then {"id"} else {})
    ensures p["title"] == (if Truthy(Get(src, "title")) then Get(src, "title") else Str(""))
    ensures p["country"] == (if Truthy(Get(src, "country")) then Get(src, "country") else Str(info.iso2))
    ensures p["iso3"] == Str(info.iso3)
    ensures p["year"] == (if Truthy(Get(src, "year")) then Get(src, "year") else Int(year))
    ensures CopiesId(edition, src) ==> p["id"] == Get(src, "id")
  {
    var base := map[
      "title" := Or(Get(src, "title"), Str("")),
      "country" := Or(Get(src, "country"), Str(info.iso2)),
      "iso3" := Str(info.iso3),
      "year" := Or(Get(src, "year"), Int(year))];
    if CopiesId(edition, src) then base["id" := Get(src, "id")] else base
  }

  /** The feature built for a kept area. */
  function AreaFeature(edition: Edition, info: CountryInfo, year: int, g: Json, src: Dict): (f: Dict)
    ensures f.Keys == {"type", "geometry", "properties"}
    ensures f["type"] == Str("Feature") && Get(f, "geometry") == g
    ensures f["properties"] == Obj(AreaProperties(edition, info, year, src))
  {
    map["type" := Str("Feature"), "geometry" := g, "properties" := Obj(AreaProperties(edition, info, year, src))]
  }

  /** What one turn of the filter loop makes of a raw feature, before the
      repeated-geometry test: nothing (it is skipped, or raises before its
      geometry is recorded), a recorded geometry whose properties then raise,
      or a kept area. */
  datatype Verdict = Pass | Claim(canon: string) | Keep(canon: string, feature: Dict)

  function Screen(edition: Edition, ext: Externals, info: CountryInfo, year: int, raw: Json): (v: Verdict)
    ensures v.Pass? <==> !raw.Obj? || !PolygonLike(Get(raw.fields, "geometry"))
    ensures !v.Pass? ==> v.canon == ext.canonJson(Get(raw.fields, "geometry"))
    ensures v.Keep? <==> raw.Obj? && PolygonLike(Get(raw.fields, "geometry")) && PropsReadable(raw.fields)
  {
    if !raw.Obj? then Pass
    else
      var g := Get(raw.fields, "geometry");
      if !PolygonLike(g) then Pass
      else if !PropsReadable(raw.fields) then Claim(ext.canonJson(g))
      else Keep(ext.canonJson(g), AreaFeature(edition, info, year, g, PropsOf(raw.fields)))
  }

  /** The kept features and the recorded geometries after the loop has seen
      `raws`. */
  function Sweep(edition: Edition, ext: Externals, info: CountryInfo, year: int, raws: seq<Json>)
    : (r: (seq<Dict>, set<string>))
    decreases |raws|
  {
    if raws == [] then ([], {})
    else
      var prev := Sweep(edition, ext, info, year, raws[..|raws| - 1]);
      var v := Screen(edition, ext, info, year, raws[|raws| - 1]);
      if v.Pass? || v.canon in prev.1 then prev
      else if v.Claim? then (prev.0, prev.1 + {v.canon})
      else (prev.0 + [v.feature], prev.1 + {v.canon})
  }

  /** One more raw feature seen by the filter loop. */
  lemma SweepStep(edition: Edition, ext: Externals, info: CountryInfo, year: int, raws: seq<Json>, i: nat)
    requires i < |raws|
    ensures var prev := Sweep(edition, ext, info, year, raws[..i]);
      var v := Screen(edition, ext, info, year, raws[i]);
      Sweep(edition, ext, info, year, raws[..i + 1]) ==
        if v.Pass? || v.canon in prev.1 then prev
        else if v.Claim? then (prev.0, prev.1 + {v.canon})
        else (prev.0 + [v.feature], prev.1 + {v.canon})
  {
    assert raws[..i + 1][..i] == raws[..i];
  }

  /** `filter_and_process_areas` on the response's feature list. */
  method FilterAndProcessAreas(edition: Edition, ext: Externals, info: CountryInfo, year: int, raws: seq<Json>)
    returns (r: Option<seq<Dict>>)
    ensures r == (if Sweep(edition, ext, info, year, raws).0 == [] then None
                  else Some(Sweep(edition, ext, info, year, raws).0))
  {
    var features: seq<Dict> := [];
    var seenGeometries: set<string> := {};
    for i := 0 to |raws|
      invariant (features, seenGeometries) == Sweep(edition, ext, info, year, raws[..i])
    {
      SweepStep(edition, ext, info, year, raws, i);
      var feature := raws[i];
      if !feature.Obj? {
        continue;
      }
      var geometry := Get(feature.fields, "geometry");
      if !Truthy(geometry) || !geometry.Obj? {
        continue;
      }
      var geometryType := Get(geometry.fields, "type");
      if geometryType != Str("Polygon") && geometryType != Str("MultiPolygon") {
        continue;
      }
      if !Truthy(Get(geometry.fields, "coordinates")) {
        continue;
      }
      var geometryStr := ext.canonJson(geometry);
      if geometryStr in seenGeometries {
        continue;
      }
      seenGeometries := seenGeometries + {geometryStr};
      if !PropsReadable(feature.fields) {
        continue;
      }
      var properties := AreaProperties(edition, info, year, PropsOf(feature.fields));
      features := features + [map["type" := Str("Feature"), "geometry" := geometry, "properties" := Obj(properties)]];
    }
    assert raws[..|raws|] == raws;
    if features == [] {
      return None;
    }
    return Some(features);
  }

  /** Every geometry recorded is that of a raw feature whose geometry
      passes the shape tests. */
  lemma {:induction false} SweepRecordsOnly(edition: Edition, ext: Externals, info: CountryInfo, year: int,
                                            raws: seq<Json>, x: string)
    requires x in Sweep(edition, ext, info, year, raws).1
    ensures exists i :: (0 <= i < |raws| && !Screen(edition, ext, info, year, raws[i]).Pass?
                         && Screen(edition, ext, info, year, raws[i]).canon == x)
    decreases |raws|
  {
    var n := |raws| - 1;
    var init := raws[..n];
    if x in Sweep(edition, ext, info, year, init).1 {
      SweepRecordsOnly(edition, ext, info, year, init, x);
      var i :| 0 <= i < |init| && !Screen(edition, ext, info, year, init[i]).Pass?
        && Screen(edition, ext, info, year, init[i]).canon == x;
      assert raws[i] == init[i];
    } else {
      assert !Screen(edition, ext, info, year, raws[n]).Pass?;
    }
  }

  /** Every raw feature whose geometry passes the shape tests has its
      geometry recorded. */
  lemma {:induction false} SweepRecordsAll(edition: Edition, ext: Externals, info: CountryInfo, year: int,
                                           raws: seq<Json>, i: nat)
    requires i < |raws| && !Screen(edition, ext, info, year, raws[i]).Pass?
    ensures Screen(edition, ext, info, year, raws[i]).canon in Sweep(edition, ext, info, year, raws).1
    decreases |raws|
  {
    var n := |raws| - 1;
    var init := raws[..n];
    SweepRecordsGrow(edition, ext, info, year, raws);
    if i < n {
      assert raws[i] == init[i];
      SweepRecordsAll(edition, ext, info, year, init, i);
    }
  }

  /** The recorded geometries only ever grow. */
  lemma SweepRecordsGrow(edition: Edition, ext: Externals, info: CountryInfo, year: int, raws: seq<Json>)
    requires raws != []
    ensures Sweep(edition, ext, info, year, raws[..|raws| - 1]).1 <= Sweep(edition, ext, info, year, raws).1
  {
  }

  /** Every kept feature is a Polygon/MultiPolygon area with non-empty
      coordinates and the fixed property record, built from one of the raw
      features; and its geometry was recorded. */
  lemma {:induction false} SweepSound(edition: Edition, ext: Externals, info: CountryInfo, year: int,
                                      raws: seq<Json>, k: nat)
    requires k < |Sweep(edition, ext, info, year, raws).0|
    ensures var f := Sweep(edition, ext, info, year, raws).0[k];
      && PolygonLike(Get(f, "geometry"))
      && ext.canonJson(Get(f, "geometry")) in Sweep(edition, ext, info, year, raws).1
      && exists i :: 0 <= i < |raws| && raws[i].Obj? && PropsReadable(raws[i].fields)
           && f == AreaFeature(edition, info, year, Get(raws[i].fields, "geometry"), PropsOf(raws[i].fields))
    decreases |raws|
  {
    var init := raws[..|raws| - 1];
    var prev := Sweep(edition, ext, info, year, init);
    var f := Sweep(edition, ext, info, year, raws).0[k];
    if k < |prev.0| {
      assert f == prev.0[k];
      SweepSound(edition, ext, info, year, init, k);
      var i :| 0 <= i < |init| && init[i].Obj? && PropsReadable(init[i].fields)
        && f == AreaFeature(edition, info, year, Get(init[i].fields, "geometry"), PropsOf(init[i].fields));
      assert raws[i] == init[i];
    } else {
      var last := raws[|raws| - 1];
      assert f == AreaFeature(edition, info, year, Get(last.fields, "geometry"), PropsOf(last.fields));
    }
  }

  /** No two kept features share a canonical geometry. */
  lemma {:induction false} SweepDistinct(edition: Edition, ext: Externals, info: CountryInfo, year: int,
                                         raws: seq<Json>)
    ensures var fs := Sweep(edition, ext, info, year, raws).0;
      forall j, k :: 0 <= j < k < |fs| ==> ext.canonJson(Get(fs[j], "geometry")) != ext.canonJson(Get(fs[k], "geometry"))
    decreases |raws|
  {
    if raws != [] {
      var init := raws[..|raws| - 1];
      var prev := Sweep(edition, ext, info, year, init);
      var fs := Sweep(edition, ext, info, year, raws).0;
      SweepDistinct(edition, ext, info, year, init);
      if |fs| > |prev.0| {
        forall j | 0 <= j < |prev.0| ensures ext.canonJson(Get(fs[j], "geometry")) != ext.canonJson(Get(fs[|prev.0|], "geometry")) {
          SweepSound(edition, ext, info, year, init, j);
          assert fs[j] == prev.0[j];
        }
      }
    }
  }

  /** The kept features only ever grow as the loop advances. */
  lemma {:induction false} SweepGrows(edition: Edition, ext: Externals, info: CountryInfo, year: int,
                                      raws: seq<Json>, n: nat)
    requires n <= |raws|
    ensures Sweep(edition, ext, info, year, raws[..n]).0 <= Sweep(edition, ext, info, year, raws).0
    decreases |raws|
  {
    if n < |raws| {
      var init := raws[..|raws| - 1];
      assert raws[..n] == init[..n];
      SweepGrows(edition, ext, info, year, init, n);
    } else {
      assert raws[..n] == raws;
    }
  }

  /** Every raw area with an accepted geometry and readable properties is kept
      unless an earlier raw feature had already recorded the same geometry. */
  lemma SweepKeepsFirst(edition: Edition, ext: Externals, info: CountryInfo, year: int,
                        raws: seq<Json>, j: nat)
    requires j < |raws| && Screen(edition, ext, info, year, raws[j]).Keep?
    requires forall i :: 0 <= i < j && !Screen(edition, ext, info, year, raws[i]).Pass? ==>
      Screen(edition, ext, info, year, raws[i]).canon != Screen(edition, ext, info, year, raws[j]).canon
    ensures Screen(edition, ext, info, year, raws[j]).feature in Sweep(edition, ext, info, year, raws).0
  {
    var init := raws[..j];
    var v := Screen(edition, ext, info, year, raws[j]);
    assert forall i :: 0 <= i < j ==> init[i] == raws[i];
    if v.canon in Sweep(edition, ext, info, year, init).1 {
      SweepRecordsOnly(edition, ext, info, year, init, v.canon);
      assert false;
    }
    assert raws[..j + 1][..j] == init;
    SweepGrows(edition, ext, info, year, raws, j + 1);
  }

  /** A response whose kept features the merge can use: each can be keyed
      (a text title wherever the key is built from the title) and carries a
      year the merge can compare. Items the filter discards are not
      constrained. */
  predicate Tame(edition: Edition, ext: Externals, info: CountryInfo, year: int, raws: seq<Json>) {
    Mergeable(edition, Sweep(edition, ext, info, year, raws).0, Int(year))
  }

  /** Raw items that give usable areas if kept: a readable polygon item
      carries a text title unless its id gives the key, and a numeric year
      once the batch year stands in for a falsy one. */
  predicate CleanRecords(edition: Edition, raws: seq<Json>) {
    forall i :: 0 <= i < |raws| && raws[i].Obj? && PolygonLike(Get(raws[i].fields, "geometry"))
                && PropsReadable(raws[i].fields) ==>
      && (CopiesId(edition, PropsOf(raws[i].fields)) || TextLike(Get(PropsOf(raws[i].fields), "title")))
      && YearLike(Or(Get(PropsOf(raws[i].fields), "year"), Int(0)))
  }

  /** A response whose polygon items are clean is tame, whatever the items
      the filter discards carry. */
  lemma SweepMergeable(edition: Edition, ext: Externals, info: CountryInfo, year: int, raws: seq<Json>)
    requires CleanRecords(edition, raws)
    ensures Tame(edition, ext, info, year, raws)
  {
    var fs := Sweep(edition, ext, info, year, raws).0;
    forall k | 0 <= k < |fs| ensures Keyable(edition, fs[k]) && YearLike(SourceYear(fs[k], Int(year))) {
      SweepSound(edition, ext, info, year, raws, k);
      var i :| 0 <= i < |raws| && raws[i].Obj? && PropsReadable(raws[i].fields)
        && fs[k] == AreaFeature(edition, info, year, Get(raws[i].fields, "geometry"), PropsOf(raws[i].fields));
      var src := PropsOf(raws[i].fields);
      assert Get(fs[k], "geometry") == Get(raws[i].fields, "geometry");
      assert PropsOf(fs[k]) == AreaProperties(edition, info, year, src);
    }
  }

  /** An item the filter discards (not a polygon with coordinates, or a
      geometry already recorded) changes neither the kept features nor
      whether the response is tame, whatever its properties hold. */
  lemma DiscardedItemsUnconstrained(edition: Edition, ext: Externals, info: CountryInfo, year: int,
                                    raws: seq<Json>, x: Json)
    requires var v := Screen(edition, ext, info, year, x);
      v.Pass? || v.canon in Sweep(edition, ext, info, year, raws).1
    ensures Sweep(edition, ext, info, year, raws + [x]).0 == Sweep(edition, ext, info, year, raws).0
    ensures Tame(edition, ext, info, year, raws + [x]) <==> Tame(edition, ext, info, year, raws)
  {
    assert (raws + [x])[..|raws|] == raws;
  }

  /** One year's download after filtering: None when the download failed or
      nothing survived the filter. */
  function Batch(edition: Edition, ext: Externals, info: CountryInfo, year: int,
                 fetch: int -> Option<seq<Json>>): (b: Option<seq<Dict>>)
    ensures b.Some? <==> fetch(year).Some? && Sweep(edition, ext, info, year, fetch(year).value).0 != []
    ensures b.Some? ==> b.value == Sweep(edition, ext, info, year, fetch(year).value).0
    ensures b.Some? ==> b.value != []
  {
    match fetch(year)
    case None => None
    case Some(raws) =>
      var fs := Sweep(edition, ext, info, year, raws).0;
      if fs == [] then None else Some(fs)
  }

  /** `str(year)`, as the merge labels spell it. */
  function YearText(ext: Externals, year: int): string {
    PyStr(ext, Int(year))
  }

  /** What the per-country run is handed: for each year, the features of that
      year's existing file (the legacy downloader keeps one file per year;
      None when there is none) and the raw features of that year's download
      (None when the download failed). */
  predicate Supplied(edition: Edition, ext: Externals, info: CountryInfo, years: seq<int>,
                     files: int -> Option<seq<Dict>>,
                     fetch: int -> Option<seq<Json>>)
  {
    forall i :: 0 <= i < |years| ==>
      && (files(years[i]).Some? ==> Mergeable(edition, files(years[i]).value, Int(years[i])))
      && (fetch(years[i]).Some? ==> Tame(edition, ext, info, years[i], fetch(years[i]).value))
  }

  /** No existing file in any year: the current downloader keeps a single
      file, merged before the per-year loop. */
  function NoFiles(year: int): Option<seq<Dict>> {
    None
  }

  /** The table after a year's existing file, merged at priority 0 with that
      year as its source year (untouched when there is no file or it is
      empty). */
  function FileStage(edition: Edition, ext: Externals, t: Table, year: int,
                     files: int -> Option<seq<Dict>>): (r: Table)
    requires Ranked(t)
    requires files(year).Some? ==> Mergeable(edition, files(year).value, Int(year))
    ensures Ranked(r)
  {
    if files(year).None? || files(year).value == [] then t
    else MergeAll(t, Prepare(edition, ext, files(year).value, 0, Int(year), "existing:" + YearText(ext, year)))
  }

  /** One year of the loop in `process_country`: the existing file of that
      year at priority 0 with that year as its source year, then the filtered
      download at priority 10. */
  function RunYear(edition: Edition, ext: Externals, info: CountryInfo, t: Table, year: int,
                   files: int -> Option<seq<Dict>>, fetch: int -> Option<seq<Json>>): (r: Table)
    requires Ranked(t)
    requires files(year).Some? ==> Mergeable(edition, files(year).value, Int(year))
    requires fetch(year).Some? ==> Tame(edition, ext, info, year, fetch(year).value)
    ensures Ranked(r)
  {
    var afterFile := FileStage(edition, ext, t, year, files);
    match Batch(edition, ext, info, year, fetch)
    case None => afterFile
    case Some(fs) =>
      MergeAll(afterFile, Prepare(edition, ext, fs, 10, Int(year), "download:" + YearText(ext, year)))
  }

  /** The aggregate after the loop has run over `years`. */
  function RunYears(edition: Edition, ext: Externals, info: CountryInfo, t: Table, years: seq<int>,
                    files: int -> Option<seq<Dict>>, fetch: int -> Option<seq<Json>>): (r: Table)
    requires Ranked(t) && Supplied(edition, ext, info, years, files, fetch)
    ensures Ranked(r)
    decreases |years|
  {
    if years == [] then t
    else
      var prev := RunYears(edition, ext, info, t, years[..|years| - 1], files, fetch);
      RunYear(edition, ext, info, prev, years[|years| - 1], files, fetch)
  }

  /** Index of the first true entry. */
  function FirstHit(hits: seq<bool>): (r: Option<nat>)
    ensures r.None? <==> forall i :: 0 <= i < |hits| ==> !hits[i]
    ensures r.Some? ==> r.value < |hits| && hits[r.value] && forall j :: 0 <= j < r.value ==> !hits[j]
    decreases |hits|
  {
    if hits == [] then None
    else
      var prev := FirstHit(hits[..|hits| - 1]);
      if prev.Some? then prev
      else if hits[|hits| - 1] then Some(|hits| - 1)
      else None
  }

  /** For each year tried, whether its download produced features. */
  function Delivered(edition: Edition, ext: Externals, info: CountryInfo, years: seq<int>,
                     fetch: int -> Option<seq<Json>>): (hits: seq<bool>)
    ensures |hits| == |years|
    ensures forall i :: 0 <= i < |years| ==> hits[i] == Batch(edition, ext, info, years[i], fetch).Some?
  {
    seq(|years|, i requires 0 <= i < |years| => Batch(edition, ext, info, years[i], fetch).Some?)
  }

  /** For each year tried, whether it has an existing file. */
  function Present(years: seq<int>, files: int -> Option<seq<Dict>>): (hits: seq<bool>)
    ensures |hits| == |years|
    ensures forall i :: 0 <= i < |years| ==> hits[i] == files(years[i]).Some?
  {
    seq(|years|, i requires 0 <= i < |years| => files(years[i]).Some?)
  }

  /** The year at the first hit. */
  function YearAt(years: seq<int>, hit: Option<nat>): Option<int>
    requires hit.Some? ==> hit.value < |years|
  {
    if hit.Some? then Some(years[hit.value]) else None
  }

  /** Appending a year moves the first hit only if there was none. */
  lemma FirstHitSnoc(hits: seq<bool>, i: nat)
    requires i < |hits|
    ensures FirstHit(hits[..i + 1]) ==
      if FirstHit(hits[..i]).Some? then FirstHit(hits[..i]) else if hits[i] then Some(i) else None
  {
    assert hits[..i + 1][..i] == hits[..i];
  }

  /** What `process_country` arrives at before converting and saving: no
      data, no year to file the result under, or the year and the merged
      features in key order. */
  datatype CountryResult = NoData | NoTargetYear | Ready(targetYear: real, features: seq<Dict>)

  /** `m` is the largest source year among the entries that have one. */
  ghost predicate IsMaxYear(t: Table, m: real)
    requires Ranked(t)
  {
    && (exists k :: k in t && t[k].sourceYear != Null && YearRank(t[k].sourceYear) == m)
    && (forall k :: k in t && t[k].sourceYear != Null ==> YearRank(t[k].sourceYear) <= m)
  }

  /** `max(entry['source_year'] for … if … is not None)`, or None when no
      entry has a source year. */
  method MaxSourceYear(t: Table) returns (m: Option<real>)
    requires Ranked(t)
    ensures m.None? <==> forall k :: k in t ==> t[k].sourceYear == Null
    ensures m.Some? ==> IsMaxYear(t, m.value)
  {
    var rest := t.Keys;
    m := None;
    ghost var w: string := "";
    while rest != {}
      invariant rest <= t.Keys
      invariant m.None? <==> forall k :: k in t && k !in rest ==> t[k].sourceYear == Null
      invariant m.Some? ==> w in t && w !in rest && t[w].sourceYear != Null && YearRank(t[w].sourceYear) == m.value
      invariant m.Some? ==> forall k :: k in t && k !in rest && t[k].sourceYear != Null ==>
        YearRank(t[k].sourceYear) <= m.value
      decreases |rest|
    {
      var key :| key in rest;
      var year := t[key].sourceYear;
      if year != Null && (m.None? || YearRank(year) > m.value) {
        m := Some(YearRank(year));
        w := key;
      }
      rest := rest - {key};
    }
  }

  /** One turn of the per-year loop on a live aggregate; reports whether the
      download produced features. */
  method RunYearOn(aggregate: Aggregate, info: CountryInfo, year: int,
                   files: int -> Option<seq<Dict>>, fetch: int -> Option<seq<Json>>)
    returns (delivered: bool)
    requires aggregate.Valid()
    requires files(year).Some? ==> Mergeable(aggregate.edition, files(year).value, Int(year))
    requires fetch(year).Some? ==> Tame(aggregate.edition, aggregate.ext, info, year, fetch(year).value)
    modifies aggregate
    ensures aggregate.Valid()
    ensures aggregate.entries
      == RunYear(aggregate.edition, aggregate.ext, info, old(aggregate.entries), year, files, fetch)
    ensures delivered == Batch(aggregate.edition, aggregate.ext, info, year, fetch).Some?
  {
    var file := files(year);
    if file.Some? && file.value != [] {
      var stats := aggregate.Merge(file.value, 0, Int(year), "existing:" + YearText(aggregate.ext, year));
    }
    delivered := false;
    var areasData := fetch(year);
    if areasData.Some? {
      var geojson := FilterAndProcessAreas(aggregate.edition, aggregate.ext, info, year, areasData.value);
      if geojson.Some? {
        delivered := true;
        var stats := aggregate.Merge(geojson.value, 10, Int(year), "download:" + YearText(aggregate.ext, year));
      }
    }
  }

  lemma RunYearsSnoc(edition: Edition, ext: Externals, info: CountryInfo, t: Table, years: seq<int>,
                     files: int -> Option<seq<Dict>>, fetch: int -> Option<seq<Json>>, i: nat)
    requires Ranked(t) && Supplied(edition, ext, info, years, files, fetch) && i < |years|
    ensures Supplied(edition, ext, info, years[..i], files, fetch) && Supplied(edition, ext, info, years[..i + 1], files, fetch)
    ensures RunYears(edition, ext, info, t, years[..i + 1], files, fetch)
      == RunYear(edition, ext, info, RunYears(edition, ext, info, t, years[..i], files, fetch), years[i], files, fetch)
  {
    assert years[..i + 1][..i] == years[..i];
  }

  /** The current downloader's aggregate: its single existing file merged at
      priority 0 without a source year, then the downloads. */
  function CurrentTable(ext: Externals, info: CountryInfo, years: seq<int>, existing: seq<Dict>,
                        fetch: int -> Option<seq<Json>>): Table
    requires Mergeable(Current, existing, Null) && Supplied(Current, ext, info, years, NoFiles, fetch)
  {
    var start := if existing == [] then map[]
      else MergeAll(map[], Prepare(Current, ext, existing, 0, Null, "existing"));
    RunYears(Current, ext, info, start, years, NoFiles, fetch)
  }

  /** The per-year loop of the current downloader's `process_country`: the
      aggregate ends as `RunYears` over `years`, and the result is the first
      year whose download delivered features. */
  method RunYearsOn(aggregate: Aggregate, info: CountryInfo, years: seq<int>,
                    fetch: int -> Option<seq<Json>>) returns (downloadYear: Option<int>)
    requires aggregate.Valid() && aggregate.edition == Current
    requires Supplied(Current, aggregate.ext, info, years, NoFiles, fetch)
    modifies aggregate
    ensures aggregate.Valid()
    ensures aggregate.entries
      == RunYears(Current, aggregate.ext, info, old(aggregate.entries), years, NoFiles, fetch)
    ensures downloadYear == YearAt(years, FirstHit(Delivered(Current, aggregate.ext, info, years, fetch)))
  {
    ghost var start := aggregate.entries;
    ghost var hits := Delivered(Current, aggregate.ext, info, years, fetch);
    downloadYear := None;
    for i := 0 to |years|
      invariant aggregate.Valid()
      invariant aggregate.entries == RunYears(Current, aggregate.ext, info, start, years[..i], NoFiles, fetch)
      invariant downloadYear == YearAt(years, FirstHit(hits[..i]))
    {
      var year := years[i];
      RunYearsSnoc(Current, aggregate.ext, info, start, years, NoFiles, fetch, i);
      FirstHitSnoc(hits, i);
      var delivered := RunYearOn(aggregate, info, year, NoFiles, fetch);
      if delivered && downloadYear.None? {
        downloadYear := Some(year);
      }
    }
    assert years[..|years|] == years;
    assert hits[..|years|] == hits;
  }

  /** `process_country` of the current downloader, up to conversion and
      saving. `existing` is what the country's file held (empty when there is
      none or it could not be read); `fetch` stands for `download_areas`. */
  method ProcessCountry(ext: Externals, info: CountryInfo, years: seq<int>, existing: seq<Dict>,
                        fetch: int -> Option<seq<Json>>) returns (r: CountryResult)
    requires Mergeable(Current, existing, Null) && Supplied(Current, ext, info, years, NoFiles, fetch)
    ensures var t := CurrentTable(ext, info, years, existing, fetch);
      var first := YearAt(years, FirstHit(Delivered(Current, ext, info, years, fetch)));
      && (r.NoData? <==> t == map[])
      && (r.Ready? ==> r.features == ReadOut(t))
      && (t != map[] && first.Some? ==> r == Ready(first.value as real, ReadOut(t)))
      && (t != map[] && first.None? ==>
            (r.NoTargetYear? <==> forall k :: k in t ==> t[k].sourceYear == Null)
            && (r.Ready? ==> IsMaxYear(t, r.targetYear)))
  {
    var aggregate := new Aggregate(Current, ext);
    if existing != [] {
      var stats := aggregate.Merge(existing, 0, Null, "existing");
    }
    var downloadYear := RunYearsOn(aggregate, info, years, fetch);
    if aggregate.entries == map[] {
      return NoData;
    }
    var targetYear: Option<real> := None;
    if downloadYear.Some? {
      targetYear := Some(downloadYear.value as real);
    } else {
      targetYear := MaxSourceYear(aggregate.entries);
    }
    if targetYear.None? {
      return NoTargetYear;
    }
    return Ready(targetYear.value, aggregate.Features());
  }

  /** The legacy downloader's aggregate: per year, that year's file, then
      that year's download. */
  function LegacyTable(ext: Externals, info: CountryInfo, files: int -> Option<seq<Dict>>,
                       fetch: int -> Option<seq<Json>>): Table
    requires Supplied(Legacy, ext, info, YearsToTry, files, fetch)
  {
    RunYears(Legacy, ext, info, map[], YearsToTry, files, fetch)
  }

  /** `process_country` of the legacy downloader, up to conversion and saving.
      `files` stands for the per-year existing files (None when the path does
      not exist, else what could be read from it), `fetch` for
      `download_areas`. The result is filed under the first year that
      downloaded, else the first year that had a file. */
  method ProcessCountryLegacy(ext: Externals, info: CountryInfo, files: int -> Option<seq<Dict>>,
                              fetch: int -> Option<seq<Json>>) returns (r: CountryResult)
    requires Supplied(Legacy, ext, info, YearsToTry, files, fetch)
    ensures var t := LegacyTable(ext, info, files, fetch);
      var download := YearAt(YearsToTry, FirstHit(Delivered(Legacy, ext, info, YearsToTry, fetch)));
      var fallback := YearAt(YearsToTry, FirstHit(Present(YearsToTry, files)));
      && (r.NoData? <==> t == map[])
      && (t != map[] && download.Some? ==> r == Ready(download.value as real, ReadOut(t)))
      && (t != map[] && download.None? && fallback.Some? ==> r == Ready(fallback.value as real, ReadOut(t)))
      && (t != map[] && download.None? && fallback.None? ==> r == NoTargetYear)
  {
    var aggregate := new Aggregate(Legacy, ext);
    ghost var downloads := Delivered(Legacy, ext, info, YearsToTry, fetch);
    ghost var present := Present(YearsToTry, files);
    var fallbackYear: Option<int> := None;
    var downloadYear: Option<int> := None;
    for i := 0 to |YearsToTry|
      invariant aggregate.Valid() && aggregate.edition == Legacy && aggregate.ext == ext
      invariant aggregate.entries == RunYears(Legacy, ext, info, map[], YearsToTry[..i], files, fetch)
      invariant downloadYear == YearAt(YearsToTry, FirstHit(downloads[..i]))
      invariant fallbackYear == YearAt(YearsToTry, FirstHit(present[..i]))
    {
      var year := YearsToTry[i];
      RunYearsSnoc(Legacy, ext, info, map[], YearsToTry, files, fetch, i);
      FirstHitSnoc(downloads, i);
      FirstHitSnoc(present, i);
      if files(year).Some? && fallbackYear.None? {
        fallbackYear := Some(year);
      }
      var delivered := RunYearOn(aggregate, info, year, files, fetch);
      if delivered && downloadYear.None? {
        downloadYear := Some(year);
      }
    }
    assert YearsToTry[..|YearsToTry|] == YearsToTry;
    assert downloads[..|YearsToTry|] == downloads;
    assert present[..|YearsToTry|] == present;
    if aggregate.entries == map[] {
      return NoData;
    }
    var targetYear := if downloadYear.Some? then downloadYear else fallbackYear;
    if targetYear.None? {
      return NoTargetYear;
    }
    return Ready(targetYear.value as real, aggregate.Features());
  }

  /** No entry above the download priority. */
  predicate Capped(t: Table) {
    forall k :: k in t ==> t[k].priority <= 10
  }

  lemma MergeCapped(t: Table, cs: seq<Keyed>)
    requires Ranked(t) && AllComparable(cs) && Capped(t)
    requires forall i :: 0 <= i < |cs| ==> cs[i].cand.priority <= 10
    ensures Capped(MergeAll(t, cs))
  {
    forall k | k in MergeAll(t, cs) ensures MergeAll(t, cs)[k].priority <= 10 {
      MergeProvenance(t, cs, k);
    }
  }

  lemma RunYearCapped(edition: Edition, ext: Externals, info: CountryInfo, t: Table, year: int,
                      files: int -> Option<seq<Dict>>, fetch: int -> Option<seq<Json>>)
    requires Ranked(t) && Capped(t)
    requires files(year).Some? ==> Mergeable(edition, files(year).value, Int(year))
    requires fetch(year).Some? ==> Tame(edition, ext, info, year, fetch(year).value)
    ensures Capped(RunYear(edition, ext, info, t, year, files, fetch))
  {
    if files(year).Some? && files(year).value != [] {
      MergeCapped(t, Prepare(edition, ext, files(year).value, 0, Int(year), "existing:" + YearText(ext, year)));
    }
    var afterFile :=
      if files(year).None? || files(year).value == [] then t
      else MergeAll(t, Prepare(edition, ext, files(year).value, 0, Int(year), "existing:" + YearText(ext, year)));
    var b := Batch(edition, ext, info, year, fetch);
    if b.Some? {
      MergeCapped(afterFile, Prepare(edition, ext, b.value, 10, Int(year), "download:" + YearText(ext, year)));
    }
  }

  lemma {:induction false} RunYearsCapped(edition: Edition, ext: Externals, info: CountryInfo, t: Table,
                                          years: seq<int>, files: int -> Option<seq<Dict>>,
                                          fetch: int -> Option<seq<Json>>)
    requires Ranked(t) && Capped(t) && Supplied(edition, ext, info, years, files, fetch)
    ensures Capped(RunYears(edition, ext, info, t, years, files, fetch))
    decreases |years|
  {
    if years != [] {
      var init := years[..|years| - 1];
      RunYearsCapped(edition, ext, info, t, init, files, fetch);
      RunYearCapped(edition, ext, info, RunYears(edition, ext, info, t, init, files, fetch),
                    years[|years| - 1], files, fetch);
    }
  }

  /** A year never lowers the priority of an entry already present. */
  lemma RunYearMonotone(edition: Edition, ext: Externals, info: CountryInfo, t: Table, year: int,
                        files: int -> Option<seq<Dict>>, fetch: int -> Option<seq<Json>>, k: string)
    requires Ranked(t) && k in t
    requires files(year).Some? ==> Mergeable(edition, files(year).value, Int(year))
    requires fetch(year).Some? ==> Tame(edition, ext, info, year, fetch(year).value)
    ensures k in RunYear(edition, ext, info, t, year, files, fetch)
    ensures RunYear(edition, ext, info, t, year, files, fetch)[k].priority >= t[k].priority
  {
    if files(year).Some? && files(year).value != [] {
      MergeMonotone(t, Prepare(edition, ext, files(year).value, 0, Int(year), "existing:" + YearText(ext, year)), k);
    }
    var afterFile :=
      if files(year).None? || files(year).value == [] then t
      else MergeAll(t, Prepare(edition, ext, files(year).value, 0, Int(year), "existing:" + YearText(ext, year)));
    var b := Batch(edition, ext, info, year, fetch);
    if b.Some? {
      MergeMonotone(afterFile, Prepare(edition, ext, b.value, 10, Int(year), "download:" + YearText(ext, year)), k);
    }
  }

  /** Downloaded data beats existing data: every feature a download
      delivered ends up, under its key, as a priority-10 candidate, whatever
      the existing files or later years hold. */
  lemma {:induction false} DownloadsWin(edition: Edition, ext: Externals, info: CountryInfo, t: Table,
                                        years: seq<int>, files: int -> Option<seq<Dict>>,
                                        fetch: int -> Option<seq<Json>>, i: nat, f: Dict)
    requires Ranked(t) && Capped(t) && Supplied(edition, ext, info, years, files, fetch) && i < |years|
    requires Batch(edition, ext, info, years[i], fetch).Some?
    requires f in Batch(edition, ext, info, years[i], fetch).value
    ensures Keyable(edition, f)
    ensures DownloadKey(edition, ext, f) in RunYears(edition, ext, info, t, years, files, fetch)
    ensures RunYears(edition, ext, info, t, years, files, fetch)[DownloadKey(edition, ext, f)].priority == 10
    decreases |years|
  {
    var n := |years| - 1;
    RunYearsCapped(edition, ext, info, t, years, files, fetch);
    if i < n {
      var init := years[..n];
      assert init[i] == years[i];
      SuppliedPrefix(edition, ext, info, years, files, fetch, n);
      DownloadsWin(edition, ext, info, t, init, files, fetch, i, f);
      LastYearKeeps(edition, ext, info, t, years, files, fetch, DownloadKey(edition, ext, f));
    } else {
      assert i == n;
      LastYearDelivers(edition, ext, info, t, years, files, fetch, f);
    }
  }

  /** What is supplied for a run is supplied for any first part of it. */
  lemma SuppliedPrefix(edition: Edition, ext: Externals, info: CountryInfo, years: seq<int>,
                       files: int -> Option<seq<Dict>>, fetch: int -> Option<seq<Json>>, n: nat)
    requires Supplied(edition, ext, info, years, files, fetch) && n <= |years|
    ensures Supplied(edition, ext, info, years[..n], files, fetch)
  {
    assert forall k :: 0 <= k < n ==> years[..n][k] == years[k];
  }

  /** The last year of the loop keeps every key already filed, at no lower
      priority. */
  lemma LastYearKeeps(edition: Edition, ext: Externals, info: CountryInfo, t: Table, years: seq<int>,
                      files: int -> Option<seq<Dict>>, fetch: int -> Option<seq<Json>>, k: string)
    requires Ranked(t) && Supplied(edition, ext, info, years, files, fetch) && years != []
    ensures Supplied(edition, ext, info, years[..|years| - 1], files, fetch)
    ensures k in RunYears(edition, ext, info, t, years[..|years| - 1], files, fetch) ==>
      && k in RunYears(edition, ext, info, t, years, files, fetch)
      && RunYears(edition, ext, info, t, years, files, fetch)[k].priority
         >= RunYears(edition, ext, info, t, years[..|years| - 1], files, fetch)[k].priority
  {
    var n := |years| - 1;
    RunYearsSnoc(edition, ext, info, t, years, files, fetch, n);
    assert years[..n + 1] == years;
    var prev := RunYears(edition, ext, info, t, years[..n], files, fetch);
    if k in prev {
      RunYearMonotone(edition, ext, info, prev, years[n], files, fetch, k);
    }
  }

  /** A feature delivered in the last year of the loop is filed, under its
      key, at the download priority or above. */
  lemma LastYearDelivers(edition: Edition, ext: Externals, info: CountryInfo, t: Table, years: seq<int>,
                         files: int -> Option<seq<Dict>>, fetch: int -> Option<seq<Json>>, f: Dict)
    requires Ranked(t) && Supplied(edition, ext, info, years, files, fetch) && years != []
    requires Batch(edition, ext, info, years[|years| - 1], fetch).Some?
    requires f in Batch(edition, ext, info, years[|years| - 1], fetch).value
    ensures Keyable(edition, f)
    ensures DownloadKey(edition, ext, f) in RunYears(edition, ext, info, t, years, files, fetch)
    ensures RunYears(edition, ext, info, t, years, files, fetch)[DownloadKey(edition, ext, f)].priority >= 10
  {
    var n := |years| - 1;
    RunYearsSnoc(edition, ext, info, t, years, files, fetch, n);
    assert years[..n + 1] == years;
    var prev := RunYears(edition, ext, info, t, years[..n], files, fetch);
    RunYearDelivers(edition, ext, info, prev, years[n], files, fetch, f);
  }

  /** A feature delivered by this year's download is filed, under its key,
      at the download priority or above. */
  lemma RunYearDelivers(edition: Edition, ext: Externals, info: CountryInfo, t: Table, year: int,
                        files: int -> Option<seq<Dict>>, fetch: int -> Option<seq<Json>>, f: Dict)
    requires Ranked(t)
    requires files(year).Some? ==> Mergeable(edition, files(year).value, Int(year))
    requires fetch(year).Some? ==> Tame(edition, ext, info, year, fetch(year).value)
    requires Batch(edition, ext, info, year, fetch).Some?
    requires f in Batch(edition, ext, info, year, fetch).value
    ensures Keyable(edition, f)
    ensures DownloadKey(edition, ext, f) in RunYear(edition, ext, info, t, year, files, fetch)
    ensures RunYear(edition, ext, info, t, year, files, fetch)[DownloadKey(edition, ext, f)].priority >= 10
  {
    RunYearWithBatch(edition, ext, info, t, year, files, fetch);
    MergedAtPriority(edition, ext, FileStage(edition, ext, t, year, files), Batch(edition, ext, info, year, fetch).value,
                     10, Int(year), "download:" + YearText(ext, year), f);
  }

  /** A year whose download delivered: the batch can be merged, and the
      year's table is the batch merged over the file stage. */
  lemma RunYearWithBatch(edition: Edition, ext: Externals, info: CountryInfo, t: Table, year: int,
                         files: int -> Option<seq<Dict>>, fetch: int -> Option<seq<Json>>)
    requires Ranked(t)
    requires files(year).Some? ==> Mergeable(edition, files(year).value, Int(year))
    requires fetch(year).Some? ==> Tame(edition, ext, info, year, fetch(year).value)
    requires Batch(edition, ext, info, year, fetch).Some?
    ensures Mergeable(edition, Batch(edition, ext, info, year, fetch).value, Int(year))
    ensures RunYear(edition, ext, info, t, year, files, fetch)
      == MergeAll(FileStage(edition, ext, t, year, files),
                  Prepare(edition, ext, Batch(edition, ext, info, year, fetch).value, 10, Int(year),
                          "download:" + YearText(ext, year)))
  {
  }

  /** A feature of a merged batch is filed under its key at the batch's
      priority or above. */
  lemma MergedAtPriority(edition: Edition, ext: Externals, t: Table, fs: seq<Dict>, priority: int,
                         batchYear: Json, tag: string, f: Dict)
    requires Ranked(t) && Mergeable(edition, fs, batchYear) && f in fs
    ensures Keyable(edition, f)
    ensures var r := MergeAll(t, Prepare(edition, ext, fs, priority, batchYear, tag));
      DownloadKey(edition, ext, f) in r && r[DownloadKey(edition, ext, f)].priority >= priority
  {
    var j :| 0 <= j < |fs| && fs[j] == f;
    var cs := Prepare(edition, ext, fs, priority, batchYear, tag);
    assert cs[j].key == DownloadKey(edition, ext, fs[j]) && cs[j].cand.priority == priority;
    MergeCovers(t, cs, j);
  }

  lemma {:induction false} RunYearsIdle(edition: Edition, ext: Externals, info: CountryInfo, t: Table,
                                        years: seq<int>, files: int -> Option<seq<Dict>>,
                                        fetch: int -> Option<seq<Json>>)
    requires Ranked(t) && Supplied(edition, ext, info, years, files, fetch)
    requires forall i :: 0 <= i < |years| ==> files(years[i]).None? && Batch(edition, ext, info, years[i], fetch).None?
    ensures RunYears(edition, ext, info, t, years, files, fetch) == t
    decreases |years|
  {
    if years != [] {
      RunYearsIdle(edition, ext, info, t, years[..|years| - 1], files, fetch);
    }
  }

  /** The legacy downloader never lacks a year to file a non-empty result
      under: anything in the aggregate came from a download or a file. */
  lemma LegacyHasTargetYear(ext: Externals, info: CountryInfo, files: int -> Option<seq<Dict>>,
                            fetch: int -> Option<seq<Json>>)
    requires Supplied(Legacy, ext, info, YearsToTry, files, fetch)
    requires LegacyTable(ext, info, files, fetch) != map[]
    ensures FirstHit(Delivered(Legacy, ext, info, YearsToTry, fetch)).Some?
      || FirstHit(Present(YearsToTry, files)).Some?
  {
    if FirstHit(Delivered(Legacy, ext, info, YearsToTry, fetch)).None?
      && FirstHit(Present(YearsToTry, files)).None?
    {
      RunYearsIdle(Legacy, ext, info, map[], YearsToTry, files, fetch);
    }
  }
}
