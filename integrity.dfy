/** The id checks of `scripts/optimize_global_topojson.py`: reading the
    geometry list out of a TopoJSON payload, counting geometry ids globally
    and per country, reporting the countries with repeated ids, and the exit
    code that depends on them. */
module Integrity {
  import opened JsonValues
  import opened Text
  import opened Order

  datatype LoadError =
    | NotAnObject   // the payload has no `.get` (Python raises AttributeError)
    | NoObjects     // "No TopoJSON objects found in dataset"
    | NoGeometries  // "No geometries found in TopoJSON object"

  /** `payload.get("objects")` when the payload is an object. */
  function Objects(payload: Json): Json {
    if payload.Obj? then Get(payload.fields, "objects") else Null
  }

  /** `first` names the entry of `objects` that comes first in the document,
      whenever there is one (a decoded object here is a map and keeps no
      order, so the caller supplies it). */
  predicate FirstNamed(payload: Json, first: string) {
    Objects(payload).Obj? && Objects(payload).fields != map[] ==> first in Objects(payload).fields
  }

  /** `load_geometries` on the decoded payload. */
  function LoadGeometries(payload: Json, first: string): (r: Result<seq<Json>, LoadError>)
    requires FirstNamed(payload, first)
    ensures !payload.Obj? <==> r == Err(NotAnObject)
    ensures payload.Obj? && (!Objects(payload).Obj? || Objects(payload).fields == map[]) <==> r == Err(NoObjects)
    ensures r.Ok? <==>
      && Objects(payload).Obj? && Objects(payload).fields != map[]
      && Objects(payload).fields[first].Obj?
      && Get(Objects(payload).fields[first].fields, "geometries").Arr?
    ensures r.Ok? ==> Get(Objects(payload).fields[first].fields, "geometries") == Arr(r.value)
  {
    if !payload.Obj? then Err(NotAnObject)
    else
      var objects := Objects(payload);
      if !objects.Obj? || objects.fields == map[] then Err(NoObjects)
      else
        var firstObject := objects.fields[first];
        var geometries := if firstObject.Obj? then Get(firstObject.fields, "geometries") else Null;
        if !geometries.Arr? then Err(NoGeometries) else Ok(geometries.items)
  }

  /** The id a geometry is counted under: `"<missing>"` for a None (or
      absent) id, else `str(id)`. */
  function IdOf(ext: Externals, g: Dict): (id: string)
    ensures Get(g, "id") == Null ==> id == "<missing>"
    ensures Get(g, "id") != Null ==> id == PyStr(ext, Get(g, "id"))
  {
    var gid := Get(g, "id");
    if gid == Null then "<missing>" else PyStr(ext, gid)
  }

  /** The geometries on which reading the country runs without raising:
      properties are a dict or falsy, and `iso3` is a string or falsy. */
  predicate Scannable(g: Dict) {
    var iso3 := Get(PropsOf(g), "iso3");
    PropsReadable(g) && (iso3.Str? || !Truthy(iso3))
  }

  predicate AllScannable(gs: seq<Dict>) {
    forall i :: 0 <= i < |gs| ==> Scannable(gs[i])
  }

  /** `props.get("iso3", "UNK") or "UNK"` */
  function CountryOf(g: Dict): (c: string)
    requires Scannable(g)
    ensures !Truthy(Get(PropsOf(g), "iso3")) ==> c == "UNK"
    ensures Truthy(Get(PropsOf(g), "iso3")) ==> c == Get(PropsOf(g), "iso3").s
    ensures c != ""
  {
    var iso3 := Get(PropsOf(g), "iso3");
    if iso3.Str? && iso3.s != "" then iso3.s else "UNK"
  }

  /** The ids of the geometries, in order. */
  function IdsOf(ext: Externals, gs: seq<Dict>): (ids: seq<string>)
    ensures |ids| == |gs|
    decreases |gs|
  {
    if gs == [] then [] else IdsOf(ext, gs[..|gs| - 1]) + [IdOf(ext, gs[|gs| - 1])]
  }

  /** The ids of the geometries of country `c`, in order. */
  function CountryIds(ext: Externals, gs: seq<Dict>, c: string): seq<string>
    requires AllScannable(gs)
    decreases |gs|
  {
    if gs == [] then []
    else
      var g := gs[|gs| - 1];
      var before := CountryIds(ext, gs[..|gs| - 1], c);
      if CountryOf(g) == c then before + [IdOf(ext, g)] else before
  }

  /** A `collections.Counter` over strings: counts, and the order in which
      keys were first inserted (the order its `items()` yields). */
  datatype Counter = Counter(order: seq<string>, counts: map<string, nat>)

  /** `counter[x] += 1` */
  function Bump(c: Counter, x: string): Counter {
    if x in c.counts then c.(counts := c.counts[x := c.counts[x] + 1])
    else Counter(c.order + [x], c.counts[x := 1])
  }

  /** The counter after counting `xs` from empty. */
  function Tally(xs: seq<string>): Counter
    decreases |xs|
  {
    if xs == [] then Counter([], map[]) else Bump(Tally(xs[..|xs| - 1]), xs[|xs| - 1])
  }

  /** A tally has a count for each value of `xs` and for nothing else, it
      lists the same values, and each count is the number of occurrences. */
  lemma {:induction false} TallyCounts(xs: seq<string>)
    ensures var c := Tally(xs);
      && (forall x :: x in c.counts <==> x in xs)
      && (forall x :: x in c.order <==> x in xs)
      && (forall x :: x in c.counts ==> c.counts[x] == multiset(xs)[x])
    decreases |xs|
  {
    if xs != [] {
      var n := |xs| - 1;
      var ys := xs[..n];
      TallyCounts(ys);
      var x := xs[n];
      assert xs == ys + [x];
      assert multiset(xs) == multiset(ys) + multiset{x};
      var c := Tally(ys);
      var d := Tally(xs);
      assert d == Bump(c, x);
      forall y
        ensures y in d.order <==> y in xs
      {
        if x in c.counts {
          assert d.order == c.order;
        } else {
          assert d.order == c.order + [x];
        }
      }
    }
  }

  /** A tally lists each value once, in order of first occurrence. */
  lemma {:induction false} TallyOrder(xs: seq<string>)
    ensures forall x :: x in Tally(xs).order ==> x in xs
    ensures InFirstOccurrenceOrder(Tally(xs).order, xs)
    decreases |xs|
  {
    TallyCounts(xs);
    if xs != [] {
      var n := |xs| - 1;
      var ys := xs[..n];
      var x := xs[n];
      assert xs == ys + [x];
      TallyOrder(ys);
      TallyCounts(ys);
      var c := Tally(ys);
      if x in c.counts {
        ExtendKeepsOrder(c.order, ys, x);
      } else {
        AppendNewKeepsOrder(c.order, ys, x);
      }
    }
  }

  /** A list in first-occurrence order has no repeats. */
  lemma FirstOccurrenceOrderDistinct(r: seq<string>, xs: seq<string>)
    requires forall x :: x in r ==> x in xs
    requires InFirstOccurrenceOrder(r, xs)
    ensures NoDuplicates(r)
  {
    forall i, j | 0 <= i < j < |r|
      ensures r[i] != r[j]
    {
      assert FirstIndex(xs, r[i]) < FirstIndex(xs, r[j]);
    }
  }

  /** `[x for x, count in counter.items() if count > 1]` */
  function Dupes(c: Counter): (ds: seq<string>)
    ensures forall x :: x in ds <==> x in c.order && x in c.counts && c.counts[x] > 1
    decreases |c.order|
  {
    if c.order == [] then []
    else
      var x := c.order[|c.order| - 1];
      var before := Dupes(c.(order := c.order[..|c.order| - 1]));
      assert c.order == c.order[..|c.order| - 1] + [x];
      if x in c.counts && c.counts[x] > 1 then before + [x] else before
  }

  /** Keeping only the repeated values keeps the counter's order. */
  lemma {:induction false} DupesKeepOrder(c: Counter, xs: seq<string>)
    requires forall x :: x in c.order ==> x in xs
    requires InFirstOccurrenceOrder(c.order, xs)
    ensures InFirstOccurrenceOrder(Dupes(c), xs)
    decreases |c.order|
  {
    if c.order != [] {
      var n := |c.order| - 1;
      var b := c.(order := c.order[..n]);
      assert forall i :: 0 <= i < n ==> b.order[i] == c.order[i];
      DupesKeepOrder(b, xs);
      var ds := Dupes(c);
      var x := c.order[n];
      if x in c.counts && c.counts[x] > 1 {
        forall i | 0 <= i < |Dupes(b)|
          ensures FirstIndex(xs, Dupes(b)[i]) < FirstIndex(xs, x)
        {
          var y := Dupes(b)[i];
          assert y in b.order;
          var p :| 0 <= p < n && b.order[p] == y;
          assert c.order[p] == y;
        }
      }
    }
  }

  /** The global duplicates of a geometry list. */
  function GlobalDuplicates(ext: Externals, gs: seq<Dict>): seq<string> {
    Dupes(Tally(IdsOf(ext, gs)))
  }

  /** The global duplicates are exactly the ids occurring more than once,
      each listed once, in order of first occurrence. */
  lemma GlobalDuplicatesExact(ext: Externals, gs: seq<Dict>)
    ensures var ids := IdsOf(ext, gs);
      var ds := GlobalDuplicates(ext, gs);
      && (forall x :: x in ds <==> multiset(ids)[x] > 1)
      && (forall x :: x in ds ==> x in ids)
      && NoDuplicates(ds)
      && InFirstOccurrenceOrder(ds, ids)
  {
    var ids := IdsOf(ext, gs);
    TallyCounts(ids);
    TallyOrder(ids);
    DupesKeepOrder(Tally(ids), ids);
    FirstOccurrenceOrderDistinct(GlobalDuplicates(ext, gs), ids);
  }

  /** `defaultdict(Counter)` keyed by country: the counters, and the order
      in which countries were first seen. */
  datatype Grouped = Grouped(order: seq<string>, counters: map<string, Counter>)

  /** `per_country[country][x] += 1` */
  function BumpIn(g: Grouped, country: string, x: string): Grouped {
    if country in g.counters then g.(counters := g.counters[country := Bump(g.counters[country], x)])
    else Grouped(g.order + [country], g.counters[country := Bump(Counter([], map[]), x)])
  }

  /** The per-country counters after the first loop. */
  function GroupTally(ext: Externals, gs: seq<Dict>): Grouped
    requires AllScannable(gs)
    decreases |gs|
  {
    if gs == [] then Grouped([], map[])
    else
      var g := gs[|gs| - 1];
      BumpIn(GroupTally(ext, gs[..|gs| - 1]), CountryOf(g), IdOf(ext, g))
  }

  /** The countries in `order` are exactly the keys of `counters`. */
  lemma {:induction false} GroupTallyOrder(ext: Externals, gs: seq<Dict>)
    requires AllScannable(gs)
    ensures forall c :: c in GroupTally(ext, gs).order <==> c in GroupTally(ext, gs).counters
    decreases |gs|
  {
    if gs != [] {
      var hs := gs[..|gs| - 1];
      GroupTallyOrder(ext, hs);
    }
  }

  /** A country has a counter exactly when it has a geometry. */
  lemma {:induction false} GroupTallyKeys(ext: Externals, gs: seq<Dict>)
    requires AllScannable(gs)
    ensures forall c :: c in GroupTally(ext, gs).counters <==> CountryIds(ext, gs, c) != []
    decreases |gs|
  {
    if gs != [] {
      var hs := gs[..|gs| - 1];
      GroupTallyKeys(ext, hs);
    }
  }

  /** Each country's counter is the tally of that country's ids, and the
      countries are exactly those with a geometry. */
  lemma {:induction false} GroupTallyFacts(ext: Externals, gs: seq<Dict>)
    requires AllScannable(gs)
    ensures var gr := GroupTally(ext, gs);
      && (forall c :: c in gr.order <==> c in gr.counters)
      && (forall c :: c in gr.counters <==> CountryIds(ext, gs, c) != [])
      && (forall c :: c in gr.counters ==> gr.counters[c] == Tally(CountryIds(ext, gs, c)))
    decreases |gs|
  {
    GroupTallyOrder(ext, gs);
    GroupTallyKeys(ext, gs);
    if gs != [] {
      var n := |gs| - 1;
      var hs := gs[..n];
      GroupTallyFacts(ext, hs);
      var g := gs[n];
      var prev := GroupTally(ext, hs);
      var gr := GroupTally(ext, gs);
      assert gr == BumpIn(prev, CountryOf(g), IdOf(ext, g));
      forall c | c in gr.counters
        ensures gr.counters[c] == Tally(CountryIds(ext, gs, c))
      {
        if c == CountryOf(g) {
          var ys := CountryIds(ext, hs, c);
          assert CountryIds(ext, gs, c) == ys + [IdOf(ext, g)];
          assert (ys + [IdOf(ext, g)])[..|ys|] == ys;
          if c !in prev.counters {
            assert ys == [];
          }
        }
      }
    }
  }

  /** The second loop: every country with at least one repeated id, mapped
      to those ids. */
  function CountryDuplicates(gr: Grouped): map<string, seq<string>> {
    map c | c in gr.counters && Dupes(gr.counters[c]) != [] :: Dupes(gr.counters[c])
  }

  /** The second loop's result after visiting the countries `order`. */
  function DuplicatesOver(order: seq<string>, counters: map<string, Counter>): (m: map<string, seq<string>>)
    ensures forall c :: c in m <==> c in order && c in counters && Dupes(counters[c]) != []
    ensures forall c :: c in m ==> m[c] == Dupes(counters[c])
    decreases |order|
  {
    if order == [] then map[]
    else
      var c := order[|order| - 1];
      var m := DuplicatesOver(order[..|order| - 1], counters);
      assert order == order[..|order| - 1] + [c];
      if c in counters && Dupes(counters[c]) != [] then m[c := Dupes(counters[c])] else m
  }

  /** Unfolding the first loop by one geometry. */
  lemma ScanStep(ext: Externals, gs: seq<Dict>, i: nat)
    requires AllScannable(gs) && i < |gs|
    ensures AllScannable(gs[..i]) && AllScannable(gs[..i + 1])
    ensures IdsOf(ext, gs[..i + 1]) == IdsOf(ext, gs[..i]) + [IdOf(ext, gs[i])]
    ensures GroupTally(ext, gs[..i + 1]) == BumpIn(GroupTally(ext, gs[..i]), CountryOf(gs[i]), IdOf(ext, gs[i]))
  {
    assert gs[..i + 1][..i] == gs[..i];
  }

  /** One more country visited by the second loop. */
  lemma OverStep(order: seq<string>, counters: map<string, Counter>, j: nat)
    requires j < |order|
    ensures var c := order[j];
      var m := DuplicatesOver(order[..j], counters);
      DuplicatesOver(order[..j + 1], counters) ==
        if c in counters && Dupes(counters[c]) != [] then m[c := Dupes(counters[c])] else m
  {
    assert order[..j + 1][..j] == order[..j];
  }

  /** Visiting every country of the grouped counters gives the countries
      with repeats. */
  lemma DuplicatesOverAll(ext: Externals, gs: seq<Dict>)
    requires AllScannable(gs)
    ensures var gr := GroupTally(ext, gs);
      DuplicatesOver(gr.order, gr.counters) == CountryDuplicates(gr)
  {
    GroupTallyFacts(ext, gs);
  }

  /** `find_duplicate_ids(geometries)` */
  method FindDuplicateIds(ext: Externals, geometries: seq<Dict>)
    returns (globalDuplicates: seq<string>, countryDuplicates: map<string, seq<string>>)
    requires AllScannable(geometries)
    ensures globalDuplicates == GlobalDuplicates(ext, geometries)
    ensures countryDuplicates == CountryDuplicates(GroupTally(ext, geometries))
  {
    var globalIds := Counter([], map[]);
    var perCountry := Grouped([], map[]);
    for i := 0 to |geometries|
      invariant AllScannable(geometries[..i])
      invariant globalIds == Tally(IdsOf(ext, geometries[..i]))
      invariant perCountry == GroupTally(ext, geometries[..i])
    {
      ScanStep(ext, geometries, i);
      var geom := geometries[i];
      var gid := Get(geom, "id");
      var iso3 := CountryOf(geom);
      if gid == Null {
        perCountry := BumpIn(perCountry, iso3, "<missing>");
        globalIds := Bump(globalIds, "<missing>");
        continue;
      }
      var gidStr := PyStr(ext, gid);
      globalIds := Bump(globalIds, gidStr);
      perCountry := BumpIn(perCountry, iso3, gidStr);
    }
    assert geometries[..|geometries|] == geometries;
    DuplicatesOverAll(ext, geometries);
    globalDuplicates := Dupes(globalIds);
    countryDuplicates := map[];
    for j := 0 to |perCountry.order|
      invariant countryDuplicates == DuplicatesOver(perCountry.order[..j], perCountry.counters)
    {
      OverStep(perCountry.order, perCountry.counters, j);
      var iso3 := perCountry.order[j];
      if iso3 in perCountry.counters {
        var dupes := Dupes(perCountry.counters[iso3]);
        if dupes != [] {
          countryDuplicates := countryDuplicates[iso3 := dupes];
        }
      }
    }
    assert perCountry.order[..|perCountry.order|] == perCountry.order;
  }

  /** Country `c`'s counter, if any. */
  lemma GroupTallyAt(ext: Externals, gs: seq<Dict>, c: string)
    requires AllScannable(gs)
    ensures c in GroupTally(ext, gs).counters <==> CountryIds(ext, gs, c) != []
    ensures c in GroupTally(ext, gs).counters ==>
      GroupTally(ext, gs).counters[c] == Tally(CountryIds(ext, gs, c))
  {
    GroupTallyFacts(ext, gs);
  }

  /** The repeated values of a tally are those occurring more than once. */
  lemma DupesOfTally(ys: seq<string>, x: string)
    ensures x in Dupes(Tally(ys)) <==> multiset(ys)[x] > 1
  {
    TallyCounts(ys);
  }

  /** Country `c` is reported exactly when one of its ids repeats within it,
      and with exactly those ids. */
  lemma CountryDuplicatesAt(ext: Externals, gs: seq<Dict>, c: string)
    requires AllScannable(gs)
    ensures var cd := CountryDuplicates(GroupTally(ext, gs));
      var ys := CountryIds(ext, gs, c);
      && (c in cd <==> exists x :: multiset(ys)[x] > 1)
      && (c in cd ==> forall x :: x in cd[c] <==> multiset(ys)[x] > 1)
  {
    var gr := GroupTally(ext, gs);
    var cd := CountryDuplicates(gr);
    var ys := CountryIds(ext, gs, c);
    GroupTallyAt(ext, gs, c);
    if c in gr.counters {
      var ds := Dupes(Tally(ys));
      assert c in cd <==> ds != [];
      forall x
        ensures x in ds <==> multiset(ys)[x] > 1
      {
        DupesOfTally(ys, x);
      }
      if ds != [] {
        assert ds[0] in ds;
      }
    } else {
      assert c !in cd;
      assert forall x :: multiset(ys)[x] == 0;
    }
  }

  /** Every reported country, with exactly its repeated ids. */
  lemma CountryDuplicatesExact(ext: Externals, gs: seq<Dict>)
    requires AllScannable(gs)
    ensures var cd := CountryDuplicates(GroupTally(ext, gs));
      && (forall c :: c in cd <==> exists x :: multiset(CountryIds(ext, gs, c))[x] > 1)
      && (forall c, x :: c in cd ==> (x in cd[c] <==> multiset(CountryIds(ext, gs, c))[x] > 1))
  {
    var cd := CountryDuplicates(GroupTally(ext, gs));
    forall c
      ensures c in cd <==> exists x :: multiset(CountryIds(ext, gs, c))[x] > 1
    {
      CountryDuplicatesAt(ext, gs, c);
    }
    forall c, x | c in cd
      ensures x in cd[c] <==> multiset(CountryIds(ext, gs, c))[x] > 1
    {
      CountryDuplicatesAt(ext, gs, c);
    }
  }

  /** Within a country an id occurs no more often than overall. */
  lemma {:induction false} CountryIdsBounded(ext: Externals, gs: seq<Dict>, c: string, x: string)
    requires AllScannable(gs)
    ensures multiset(CountryIds(ext, gs, c))[x] <= multiset(IdsOf(ext, gs))[x]
    decreases |gs|
  {
    if gs != [] {
      CountryIdsBounded(ext, gs[..|gs| - 1], c, x);
    }
  }

  /** Every id repeated within a country is a global duplicate too. */
  lemma CountryDuplicatesAreGlobal(ext: Externals, gs: seq<Dict>)
    requires AllScannable(gs)
    ensures var cd := CountryDuplicates(GroupTally(ext, gs));
      forall c, x :: c in cd && x in cd[c] ==> x in GlobalDuplicates(ext, gs)
  {
    var cd := CountryDuplicates(GroupTally(ext, gs));
    CountryDuplicatesExact(ext, gs);
    GlobalDuplicatesExact(ext, gs);
    forall c, x | c in cd && x in cd[c]
      ensures x in GlobalDuplicates(ext, gs)
    {
      CountryIdsBounded(ext, gs, c, x);
    }
  }

  /** A geometry without an id is counted as `"<missing>"` both globally and
      in its own country. */
  lemma {:induction false} MissingIdCounted(ext: Externals, gs: seq<Dict>, i: nat)
    requires AllScannable(gs) && i < |gs| && Get(gs[i], "id") == Null
    ensures "<missing>" in IdsOf(ext, gs)
    ensures "<missing>" in CountryIds(ext, gs, CountryOf(gs[i]))
    decreases |gs|
  {
    var n := |gs| - 1;
    if i < n {
      MissingIdCounted(ext, gs[..n], i);
      assert gs[..n][i] == gs[i];
    }
  }

  /** One report segment: `"ISO3: id1, id2"`. */
  function Segment(iso3: string, ids: seq<string>): (s: string)
    ensures s != []
  {
    iso3 + ": " + Join(ids, ", ")
  }

  /** The segments for the countries `ks`, in that order. */
  function SegmentsOf(ks: seq<string>, dupes: map<string, seq<string>>): (ss: seq<string>)
    requires forall k :: k in ks ==> k in dupes
    ensures |ss| == |ks|
    ensures forall i :: 0 <= i < |ss| ==> ss[i] != []
  {
    if ks == [] then [] else [Segment(ks[0], dupes[ks[0]])] + SegmentsOf(ks[1..], dupes)
  }

  /** The segments of the report, one per country, in ascending country
      order. */
  function Segments(dupes: map<string, seq<string>>): (ss: seq<string>)
    ensures |ss| == |dupes|
    ensures forall i :: 0 <= i < |ss| ==> ss[i] != []
  {
    SegmentsOf(SortedKeys(dupes.Keys), dupes)
  }

  /** `format_dupe_report(dupes)`: the segments joined with `"; "`. */
  function FormatDupeReport(dupes: map<string, seq<string>>): (r: string)
    ensures r == "" <==> dupes == map[]
  {
    var segments := Segments(dupes);
    JoinEmptyIff(segments, "; ");
    Join(segments, "; ")
  }

  /** Joining non-empty pieces gives the empty string only for no pieces. */
  lemma JoinEmptyIff(ws: seq<string>, sep: string)
    requires forall i :: 0 <= i < |ws| ==> ws[i] != []
    ensures Join(ws, sep) == [] <==> ws == []
  {
    if ws != [] {
      assert ws[0] != [];
    }
  }

  /** The segments start with the alphabetically first country's; the
      other countries' follow. */
  lemma SegmentsUnfold(dupes: map<string, seq<string>>)
    requires dupes != map[]
    ensures var c := Least(dupes.Keys);
      var rest := dupes - {c};
      Segments(dupes) == [Segment(c, dupes[c])] + Segments(rest)
  {
    var c := Least(dupes.Keys);
    var rest := dupes - {c};
    var others := SortedKeys(dupes.Keys - {c});
    assert rest.Keys == dupes.Keys - {c};
    assert SortedKeys(dupes.Keys) == [c] + others;
    SegmentsAgree(others, dupes, rest);
  }

  /** Segments only look at the countries they list. */
  lemma {:induction false} SegmentsAgree(ks: seq<string>, d: map<string, seq<string>>, e: map<string, seq<string>>)
    requires forall k :: k in ks ==> k in d && k in e && d[k] == e[k]
    ensures SegmentsOf(ks, d) == SegmentsOf(ks, e)
    decreases |ks|
  {
    if ks != [] {
      SegmentsAgree(ks[1..], d, e);
    }
  }

  /** The report opens with the alphabetically first country; the other
      countries follow after `"; "`. */
  lemma FormatDupeReportUnfolds(dupes: map<string, seq<string>>)
    requires dupes != map[]
    ensures var c := Least(dupes.Keys);
      var rest := dupes - {c};
      && (rest == map[] ==> FormatDupeReport(dupes) == Segment(c, dupes[c]))
      && (rest != map[] ==> FormatDupeReport(dupes) == Segment(c, dupes[c]) + "; " + FormatDupeReport(rest))
  {
    var c := Least(dupes.Keys);
    var rest := dupes - {c};
    SegmentsUnfold(dupes);
    var ss := Segments(dupes);
    assert ss[1..] == Segments(rest);
  }

  /** The exit code after re-checking the optimised file: 1 when some
      country still has a repeated id, else 0. */
  function ExitAfterOptimization(newCountryDuplicates: map<string, seq<string>>): (code: int)
    ensures code == 0 || code == 1
  {
    if newCountryDuplicates != map[] then 1 else 0
  }

  /** The optimiser fails exactly when an id repeats within one country of
      the optimised geometries. */
  lemma ExitCodeRule(ext: Externals, gs: seq<Dict>)
    requires AllScannable(gs)
    ensures ExitAfterOptimization(CountryDuplicates(GroupTally(ext, gs))) == 1 <==>
      exists c, x :: multiset(CountryIds(ext, gs, c))[x] > 1
  {
    var cd := CountryDuplicates(GroupTally(ext, gs));
    if cd != map[] {
      var c :| c in cd;
      CountryDuplicatesAt(ext, gs, c);
      var x :| multiset(CountryIds(ext, gs, c))[x] > 1;
    }
    if exists c, x :: multiset(CountryIds(ext, gs, c))[x] > 1 {
      var c, x :| multiset(CountryIds(ext, gs, c))[x] > 1;
      CountryDuplicatesAt(ext, gs, c);
      assert exists y :: multiset(CountryIds(ext, gs, c))[y] > 1;
    }
  }
}
