/** The rounding and simplification pass over a feature list
    (`scripts/simplify_ipc_global_areas.py`): coordinates are rounded leaf by
    leaf, geometries are optionally simplified, and a size report compares
    the file before and after. */
module Simplify {
  import opened JsonValues

  /** What shapely's `shape(g).simplify(tol, preserve_topology=True)` gives
      back: it raises, yields an empty shape, or yields a shape whose
      `__geo_interface__` (after the JSON round trip) is `geo`. */
  datatype ShapeOutcome = Failed | Empty | Shape(geo: Dict)

  /** Whether shapely imported, and if so its simplifier. */
  datatype Shapely = Missing | Installed(simplify: (Dict, real) -> ShapeOutcome)

  /** The numeric primitives the pass borrows: Python's `round(x, digits)`
      on a float, and shapely. Both are parameters, so what is proved holds
      for any of them. */
  datatype Numerics = Numerics(round: (real, int) -> real, shapely: Shapely)

  /** `b` has the nesting of `a`: the same list lengths all the way down,
      a float wherever `a` has one, and every other leaf equal. */
  predicate SameShape(a: Json, b: Json)
    decreases a
  {
    match a
    case Arr(xs) =>
      b.Arr? && |b.items| == |xs| && forall i :: 0 <= i < |xs| ==> SameShape(xs[i], b.items[i])
    case Float(_) => b.Float?
    case _ => b == a
  }

  /** No float anywhere in `v`. */
  predicate FloatFree(v: Json)
    decreases v
  {
    match v
    case Arr(xs) => forall i :: 0 <= i < |xs| ==> FloatFree(xs[i])
    case Float(_) => false
    case _ => true
  }

  /** `round_nested`: lists are rebuilt element by element, floats are
      rounded, every other value (ints, strings, dicts, None) is returned
      as is. Rounding keeps the nesting and every list length, and a value
      without a float (integer coordinates, say) comes back unchanged. */
  function RoundNested(num: Numerics, v: Json, digits: int): (r: Json)
    ensures SameShape(v, r)
    ensures FloatFree(v) ==> r == v
    decreases v
  {
    match v
    case Arr(items) =>
      var rounded := seq(|items|, i requires 0 <= i < |items| => RoundNested(num, items[i], digits));
      assert FloatFree(v) ==> rounded == items;
      Arr(rounded)
    case Float(x) => Float(num.round(x, digits))
    case _ => v
  }

  /** `round(x, digits)` is settled on its own results. */
  ghost predicate RoundSettles(num: Numerics, digits: int) {
    forall x :: num.round(num.round(x, digits), digits) == num.round(x, digits)
  }

  /** When rounding a float twice changes nothing, neither does rounding a
      coordinate tree twice. */
  lemma {:induction false} RoundNestedIdempotent(num: Numerics, v: Json, digits: int)
    requires RoundSettles(num, digits)
    ensures RoundNested(num, RoundNested(num, v, digits), digits) == RoundNested(num, v, digits)
    decreases v
  {
    match v
    case Arr(items) =>
      var once := RoundNested(num, v, digits);
      forall i | 0 <= i < |items|
        ensures RoundNested(num, once.items[i], digits) == once.items[i]
      {
        RoundNestedIdempotent(num, items[i], digits);
      }
      assert RoundNested(num, once, digits).items == once.items;
    case Float(x) =>
    case _ =>
  }

  /** `simplify_geometry(geometry, tolerance)`: the geometry itself unless
      the tolerance is positive, shapely is installed and it produced a
      non-empty shape without raising. */
  function SimplifyGeometry(num: Numerics, geometry: Dict, tolerance: real): (r: Dict)
    ensures tolerance <= 0.0 || num.shapely.Missing? ==> r == geometry
    ensures num.shapely.Installed? && tolerance > 0.0 && !num.shapely.simplify(geometry, tolerance).Shape? ==> r == geometry
    ensures num.shapely.Installed? && tolerance > 0.0 && num.shapely.simplify(geometry, tolerance).Shape? ==>
      r == num.shapely.simplify(geometry, tolerance).geo
    ensures r == geometry || (tolerance > 0.0 && num.shapely.Installed? && num.shapely.simplify(geometry, tolerance) == Shape(r))
  {
    if tolerance <= 0.0 then geometry
    else match num.shapely
      case Missing => geometry
      case Installed(simplify) =>
        match simplify(geometry, tolerance)
        case Shape(geo) => geo
        case _ => geometry
  }

  /** The geometry after the feature's pass: simplified when the tolerance
      is positive, then with `coordinates` (when present) rounded. */
  function ProcessedGeometry(num: Numerics, geometry: Dict, digits: int, tolerance: real): Dict {
    var g := if tolerance > 0.0 then SimplifyGeometry(num, geometry, tolerance) else geometry;
    if "coordinates" in g then g["coordinates" := RoundNested(num, g["coordinates"], digits)] else g
  }

  /** `simplify_feature(feature, digits, tolerance)`: works on a deep copy
      (a value here), and replaces a dict geometry by its processed form. */
  function SimplifyFeature(num: Numerics, feature: Dict, digits: int, tolerance: real): (r: Dict)
    ensures r.Keys == feature.Keys
    ensures forall k :: k in feature && k != "geometry" ==> r[k] == feature[k]
    ensures !Get(feature, "geometry").Obj? ==> r == feature
    ensures Get(feature, "geometry").Obj? ==>
      r["geometry"] == Obj(ProcessedGeometry(num, feature["geometry"].fields, digits, tolerance))
  {
    var geometry := Get(feature, "geometry");
    if geometry.Obj? then feature["geometry" := Obj(ProcessedGeometry(num, geometry.fields, digits, tolerance))]
    else feature
  }

  /** Without simplification the geometry keeps every field but
      `coordinates`, which keeps its nesting and gets its floats rounded. */
  lemma RoundingOnly(num: Numerics, feature: Dict, digits: int, tolerance: real)
    requires tolerance <= 0.0 && Get(feature, "geometry").Obj?
    ensures var g := feature["geometry"].fields;
      var r := SimplifyFeature(num, feature, digits, tolerance);
      && r["geometry"].Obj? && r["geometry"].fields.Keys == g.Keys
      && (forall k :: k in g && k != "coordinates" ==> r["geometry"].fields[k] == g[k])
      && ("coordinates" in g ==>
            r["geometry"].fields["coordinates"] == RoundNested(num, g["coordinates"], digits)
            && SameShape(g["coordinates"], r["geometry"].fields["coordinates"]))
  {
  }

  /** With simplification the geometry is the simplifier's shape or the
      original, with its `coordinates` rounded either way. */
  lemma SimplifiedOrKept(num: Numerics, feature: Dict, digits: int, tolerance: real)
    requires Get(feature, "geometry").Obj?
    ensures var g := feature["geometry"].fields;
      var s := SimplifyGeometry(num, g, tolerance);
      var r := SimplifyFeature(num, feature, digits, tolerance);
      && r["geometry"].Obj? && r["geometry"].fields.Keys == s.Keys
      && (forall k :: k in s && k != "coordinates" ==> r["geometry"].fields[k] == s[k])
      && ("coordinates" in s ==> SameShape(s["coordinates"], r["geometry"].fields["coordinates"]))
  {
  }

  /** `simplify_features`: every feature passed through `simplify_feature`,
      in order. */
  function SimplifyFeatures(num: Numerics, features: seq<Dict>, digits: int, tolerance: real): (r: seq<Dict>)
    ensures |r| == |features|
    ensures forall i :: 0 <= i < |r| ==> r[i] == SimplifyFeature(num, features[i], digits, tolerance)
    ensures forall i :: 0 <= i < |r| ==> r[i].Keys == features[i].Keys && Get(r[i], "properties") == Get(features[i], "properties")
  {
    seq(|features|, i requires 0 <= i < |features| => SimplifyFeature(num, features[i], digits, tolerance))
  }

  /** Python's `output or source`: a path object is always truthy. */
  function TargetPath(source: string, output: Option<string>): (t: string)
    ensures output.None? ==> t == source
    ensures output.Some? ==> t == output.value
  {
    if output.Some? then output.value else source
  }

  /** `(new / original) if original else 0.0`, on exact reals. */
  function Ratio(original: nat, updated: nat): (r: real)
    ensures original == 0 ==> r == 0.0
    ensures original > 0 ==> r * (original as real) == updated as real
    ensures r >= 0.0
  {
    if original != 0 then (updated as real) / (original as real) else 0.0
  }

  datatype SizeReport = SizeReport(
    originalSize: nat,
    newSize: nat,
    savedBytes: int,
    sizeRatio: real,
    precision: int,
    simplifyTolerance: real,
    outputPath: string)

  /** The report's arithmetic: bytes saved and the size ratio. */
  function Report(original: nat, updated: nat, precision: int, tolerance: real, target: string): (r: SizeReport)
    ensures r.originalSize == original && r.newSize == updated && r.outputPath == target
    ensures r.savedBytes + r.newSize == r.originalSize
    ensures r.sizeRatio == Ratio(original, updated)
  {
    SizeReport(original, updated, original - updated, Ratio(original, updated), precision, tolerance, target)
  }

  /** A ratio above 1 means the file grew: the ratio is not confined to
      [0, 1]. */
  lemma RatioAboveOneIffGrew(original: nat, updated: nat)
    requires original > 0
    ensures Ratio(original, updated) > 1.0 <==> updated > original
    ensures Ratio(original, updated) == 1.0 <==> updated == original
  {
    var r := Ratio(original, updated);
    assert r * (original as real) == updated as real;
    if r > 1.0 {
      assert r * (original as real) > 1.0 * (original as real);
    }
    if updated > original {
      assert r * (original as real) > 1.0 * (original as real);
    }
    if r == 1.0 {
      assert updated as real == original as real;
    }
    if r < 1.0 {
      assert r * (original as real) < 1.0 * (original as real);
    }
  }

  /** A file compared with itself has ratio 1. */
  lemma RatioOfSame(n: nat)
    requires n > 0
    ensures Ratio(n, n) == 1.0
  {
    var q := Ratio(n, n);
    assert q * (n as real) == 1.0 * (n as real);
  }

  datatype SimplifyError = SourceMissing | NoFeatures

  /** What a run leaves behind: the processed features written out, the
      file sizes afterwards, and the report. */
  datatype Written = Written(processed: seq<Dict>, sizes: map<string, nat>, report: SizeReport)

  /** `simplify_topojson` as written. The file system is a map from path to
      byte size; `features` are what the source file decodes to, and
      `encodedSize` is the size of the TopoJSON text built from a feature
      list. Both sizes are read after the output was written, so when the
      output is the source itself the "original" size is already the new
      one. */
  function SimplifyTopojsonAsWritten(num: Numerics, sizes: map<string, nat>, source: string,
                                     output: Option<string>, features: seq<Dict>, precision: int,
                                     tolerance: real, encodedSize: seq<Dict> -> nat): (r: Result<Written, SimplifyError>)
    ensures source !in sizes <==> r == Err(SourceMissing)
    ensures source in sizes && features == [] <==> r == Err(NoFeatures)
    ensures r.Ok? ==> r.value.processed == SimplifyFeatures(num, features, precision, tolerance)
  {
    if source !in sizes then Err(SourceMissing)
    else if features == [] then Err(NoFeatures)
    else
      var processed := SimplifyFeatures(num, features, precision, tolerance);
      var target := TargetPath(source, output);
      var after := sizes[target := encodedSize(processed)];
      Ok(Written(processed, after, Report(after[source], after[target], precision, tolerance, target)))
  }

  /** Overwriting the source (the default, and what the combiner does)
      always reports zero bytes saved and, for a non-empty file, a ratio of
      exactly 1, whatever the sizes were. */
  lemma InPlaceReportsNoSaving(num: Numerics, sizes: map<string, nat>, source: string, output: Option<string>,
                               features: seq<Dict>, precision: int, tolerance: real, encodedSize: seq<Dict> -> nat)
    requires output.None? || output == Some(source)
    ensures var r := SimplifyTopojsonAsWritten(num, sizes, source, output, features, precision, tolerance, encodedSize);
      r.Ok? ==> (r.value.report.savedBytes == 0
                 && (r.value.report.newSize > 0 ==> r.value.report.sizeRatio == 1.0))
  {
    var r := SimplifyTopojsonAsWritten(num, sizes, source, output, features, precision, tolerance, encodedSize);
    if r.Ok? {
      var n := encodedSize(SimplifyFeatures(num, features, precision, tolerance));
      assert TargetPath(source, output) == source;
      assert r.value.report == Report(n, n, precision, tolerance, source);
      if n > 0 {
        RatioOfSame(n);
      }
    }
  }

  /** A concrete run: a 100-byte source shrunk to 40 bytes in place is
      reported as saving nothing. */
  lemma InPlaceCounterexample()
    ensures var sizes := map["areas.topojson" := 100];
      var encoded := (fs: seq<Dict>) => 40;
      var r := SimplifyTopojsonAsWritten(Numerics((x, d) => x, Missing), sizes, "areas.topojson", None,
                                         [map[]], 4, 0.0, encoded);
      && r.Ok? && r.value.sizes["areas.topojson"] == 40
      && r.value.report.originalSize == 40 && r.value.report.savedBytes == 0
  {
  }

  /** `simplify_topojson` with the original size taken before writing, as
      the report's wording intends. Errors: a missing source, or a source
      with no features. */
  function SimplifyTopojson(num: Numerics, sizes: map<string, nat>, source: string,
                            output: Option<string>, features: seq<Dict>, precision: int,
                            tolerance: real, encodedSize: seq<Dict> -> nat): (r: Result<Written, SimplifyError>)
    ensures source !in sizes <==> r == Err(SourceMissing)
    ensures source in sizes && features == [] <==> r == Err(NoFeatures)
  {
    if source !in sizes then Err(SourceMissing)
    else if features == [] then Err(NoFeatures)
    else
      var processed := SimplifyFeatures(num, features, precision, tolerance);
      var target := TargetPath(source, output);
      var after := sizes[target := encodedSize(processed)];
      Ok(Written(processed, after, Report(sizes[source], after[target], precision, tolerance, target)))
  }

  /** What a successful run promises: each input feature rounded and
      simplified by `SimplifyFeatures`, the
      output written at `output` or else over the source, no other file
      touched, and a report comparing the source as it was with what was
      written. */
  lemma SimplifyTopojsonReport(num: Numerics, sizes: map<string, nat>, source: string, output: Option<string>,
                               features: seq<Dict>, precision: int, tolerance: real, encodedSize: seq<Dict> -> nat)
    requires source in sizes && features != []
    ensures var r := SimplifyTopojson(num, sizes, source, output, features, precision, tolerance, encodedSize);
      var target := if output.Some? then output.value else source;
      && r.Ok?
      && r.value.processed == SimplifyFeatures(num, features, precision, tolerance)
      && |r.value.processed| == |features|
      && r.value.report.outputPath == target
      && r.value.sizes.Keys == sizes.Keys + {target}
      && r.value.sizes[target] == encodedSize(r.value.processed)
      && (forall p :: p in sizes && p != target ==> r.value.sizes[p] == sizes[p])
      && r.value.report.originalSize == sizes[source]
      && r.value.report.newSize == encodedSize(r.value.processed)
      && r.value.report.savedBytes == sizes[source] - encodedSize(r.value.processed)
  {
  }
}
