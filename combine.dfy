/** `collect_all_features` of both combiners: every country file's features,
    deduplicated by the country-scoped title key with the first feature seen
    winning, read out in key order. */
module Combine {
  import opened JsonValues
  import opened Identity
  import opened Order

  /** The features of the files that loaded, in file order; a file that
      failed to load (None) contributes nothing. */
  function Loaded(files: seq<Option<seq<Dict>>>): seq<Dict>
    decreases |files|
  {
    if files == [] then []
    else (if files[0].Some? then files[0].value else []) + Loaded(files[1..])
  }

  lemma {:induction false} LoadedConcat(a: seq<Option<seq<Dict>>>, b: seq<Option<seq<Dict>>>)
    ensures Loaded(a + b) == Loaded(a) + Loaded(b)
    decreases |a|
  {
    if a == [] {
      assert a + b == b;
    } else {
      assert (a + b)[0] == a[0];
      assert (a + b)[1..] == a[1..] + b;
      LoadedConcat(a[1..], b);
    }
  }

  lemma LoadedOne(x: Option<seq<Dict>>)
    ensures Loaded([x]) == if x.Some? then x.value else []
  {
    assert [x][1..] == [];
  }

  /** The features of the first `i + 1` files: those of the first `i`, then
      those of file `i` if it loaded. */
  lemma LoadedStep(files: seq<Option<seq<Dict>>>, i: nat)
    requires i < |files|
    ensures Loaded(files[..i + 1]) == Loaded(files[..i]) + (if files[i].Some? then files[i].value else [])
  {
    assert files[..i + 1] == files[..i] + [files[i]];
    LoadedConcat(files[..i], [files[i]]);
    LoadedOne(files[i]);
  }

  /** The whole list is the features of the first `i` files followed by
      those of the rest. */
  lemma LoadedSplit(files: seq<Option<seq<Dict>>>, i: nat)
    requires i <= |files|
    ensures Loaded(files) == Loaded(files[..i]) + Loaded(files[i..])
  {
    assert files == files[..i] + files[i..];
    LoadedConcat(files[..i], files[i..]);
  }

  /** A file that fails to load changes nothing: the features are those of
      the list without it. */
  lemma FailedFileSkipped(files: seq<Option<seq<Dict>>>, n: nat)
    requires n < |files| && files[n].None?
    ensures Loaded(files) == Loaded(files[..n] + files[n + 1..])
  {
    assert files == files[..n] + ([files[n]] + files[n + 1..]);
    LoadedConcat(files[..n], [files[n]] + files[n + 1..]);
    LoadedConcat([files[n]], files[n + 1..]);
    LoadedOne(files[n]);
    LoadedConcat(files[..n], files[n + 1..]);
  }

  /** Every feature can be keyed without raising. */
  predicate AllKeyable(fs: seq<Dict>)
    decreases |fs|
  {
    fs == [] || (AllKeyable(fs[..|fs| - 1]) && CombineKeyable(fs[|fs| - 1]))
  }

  lemma {:induction false} AllKeyableEach(fs: seq<Dict>)
    ensures AllKeyable(fs) <==> forall i :: 0 <= i < |fs| ==> CombineKeyable(fs[i])
    decreases |fs|
  {
    if fs != [] {
      AllKeyableEach(fs[..|fs| - 1]);
      assert forall i :: 0 <= i < |fs| - 1 ==> fs[i] == fs[..|fs| - 1][i];
    }
  }

  lemma AllKeyableAt(fs: seq<Dict>, i: nat)
    requires AllKeyable(fs) && i < |fs|
    ensures CombineKeyable(fs[i])
  {
    AllKeyableEach(fs);
  }

  lemma {:induction false} AllKeyableAppend(a: seq<Dict>, b: seq<Dict>)
    ensures AllKeyable(a + b) <==> AllKeyable(a) && AllKeyable(b)
    decreases |b|
  {
    if b == [] {
      assert a + b == a;
    } else {
      var c := a + b;
      assert c[|c| - 1] == b[|b| - 1];
      assert c[..|c| - 1] == a + b[..|b| - 1];
      AllKeyableAppend(a, b[..|b| - 1]);
    }
  }

  /** The combiners' key of each feature. */
  function CombineKeys(ext: Externals, fs: seq<Dict>): (ks: seq<string>)
    requires AllKeyable(fs)
    ensures |ks| == |fs|
    decreases |fs|
  {
    if fs == [] then []
    else CombineKeys(ext, fs[..|fs| - 1]) + [CombineKey(ext, fs[|fs| - 1])]
  }

  lemma {:induction false} CombineKeysAt(ext: Externals, fs: seq<Dict>, n: nat)
    requires AllKeyable(fs) && n < |fs|
    ensures CombineKeyable(fs[n]) && CombineKeys(ext, fs)[n] == CombineKey(ext, fs[n])
    decreases |fs|
  {
    var m := |fs| - 1;
    if n < m {
      CombineKeysAt(ext, fs[..m], n);
      assert fs[..m][n] == fs[n];
    }
  }

  /** The aggregate after offering `fs[i]` under key `ks[i]`, in order: a key
      already present is never overwritten. */
  function FirstWins(ks: seq<string>, fs: seq<Dict>): map<string, Dict>
    requires |ks| == |fs|
    decreases |fs|
  {
    if fs == [] then map[]
    else
      var prev := FirstWins(ks[..|ks| - 1], fs[..|fs| - 1]);
      if ks[|ks| - 1] in prev then prev else prev[ks[|ks| - 1] := fs[|fs| - 1]]
  }

  /** The keys of the aggregate are exactly the keys offered, and under each
      key sits the first feature offered with it. */
  lemma {:induction false} FirstWinsFirst(ks: seq<string>, fs: seq<Dict>)
    requires |ks| == |fs|
    ensures forall k :: k in FirstWins(ks, fs) <==> k in ks
    ensures forall k :: k in ks ==> FirstWins(ks, fs)[k] == fs[FirstIndex(ks, k)]
    decreases |fs|
  {
    if fs != [] {
      var n := |fs| - 1;
      FirstWinsFirst(ks[..n], fs[..n]);
      assert ks == ks[..n] + [ks[n]];
      forall k | k in ks
        ensures FirstWins(ks, fs)[k] == fs[FirstIndex(ks, k)]
      {
        if k in ks[..n] {
          FirstIndexOfPrefix(ks, n, k);
        } else {
          assert forall j :: 0 <= j < n ==> ks[j] == ks[..n][j];
          assert FirstIndex(ks, k) == n;
        }
      }
    }
  }

  /** The map's values in ascending key order. */
  function SortedValues(m: map<string, Dict>): (fs: seq<Dict>)
    ensures |fs| == |m|
  {
    var ks := SortedKeys(m.Keys);
    seq(|ks|, i requires 0 <= i < |ks| => m[ks[i]])
  }

  /** The aggregate after offering `fs` in order under the combiners' key. */
  function Aggregated(ext: Externals, fs: seq<Dict>): map<string, Dict>
    requires AllKeyable(fs)
  {
    FirstWins(CombineKeys(ext, fs), fs)
  }

  /** Offering one more feature adds it under its key unless the key is
      already taken. */
  lemma AggregatedSnoc(ext: Externals, fs: seq<Dict>, f: Dict)
    requires AllKeyable(fs) && CombineKeyable(f)
    ensures AllKeyable(fs + [f])
    ensures var prev := Aggregated(ext, fs);
      var key := CombineKey(ext, f);
      Aggregated(ext, fs + [f]) == if key in prev then prev else prev[key := f]
  {
    var gs := fs + [f];
    assert gs[..|fs|] == fs;
    assert gs[|fs|] == f;
  }

  /** The result of combining: the first feature per key, in key order. */
  function Combined(ext: Externals, files: seq<Option<seq<Dict>>>): seq<Dict>
    requires AllKeyable(Loaded(files))
  {
    SortedValues(Aggregated(ext, Loaded(files)))
  }

  /** What one more file contributes: its features, when it loaded, follow
      those of the files before it, and all of them can be keyed. */
  lemma FileStep(files: seq<Option<seq<Dict>>>, i: nat)
    requires i < |files| && AllKeyable(Loaded(files))
    ensures files[i].Some? ==> AllKeyable(files[i].value)
    ensures files[i].Some? ==> Loaded(files[..i + 1]) == Loaded(files[..i]) + files[i].value
    ensures files[i].None? ==> Loaded(files[..i + 1]) == Loaded(files[..i])
  {
    LoadedStep(files, i);
    LoadedSplit(files, i + 1);
    AllKeyableAppend(Loaded(files[..i + 1]), Loaded(files[i + 1..]));
    if files[i].Some? {
      AllKeyableAppend(Loaded(files[..i]), files[i].value);
    } else {
      assert Loaded(files[..i]) + [] == Loaded(files[..i]);
    }
  }

  lemma OfferStep(ext: Externals, seen: seq<Dict>, features: seq<Dict>, j: nat)
    requires j < |features| && AllKeyable(seen + features[..j]) && AllKeyable(features)
    ensures CombineKeyable(features[j]) && AllKeyable(seen + features[..j + 1])
    ensures var prev := Aggregated(ext, seen + features[..j]);
      var key := CombineKey(ext, features[j]);
      Aggregated(ext, seen + features[..j + 1]) == if key in prev then prev else prev[key := features[j]]
  {
    assert seen + features[..j + 1] == (seen + features[..j]) + [features[j]];
    AllKeyableAt(features, j);
    AggregatedSnoc(ext, seen + features[..j], features[j]);
  }

  /** The inner loop of `collect_all_features`: offer one file's features
      to the aggregate built from the features `seen` so far. */
  method OfferFile(ext: Externals, aggregate: map<string, Dict>, ghost seen: seq<Dict>, features: seq<Dict>)
    returns (r: map<string, Dict>)
    requires AllKeyable(seen) && AllKeyable(features)
    requires aggregate == Aggregated(ext, seen)
    ensures AllKeyable(seen + features)
    ensures r == Aggregated(ext, seen + features)
  {
    r := aggregate;
    assert seen + features[..0] == seen;
    for j := 0 to |features|
      invariant AllKeyable(seen + features[..j])
      invariant r == Aggregated(ext, seen + features[..j])
    {
      var feature := features[j];
      OfferStep(ext, seen, features, j);
      var key := CombineKey(ext, feature);
      if key !in r {
        r := r[key := feature];
      }
    }
    assert features[..|features|] == features;
  }

  /** `collect_all_features(files)`; `files` holds, per file, its features,
      or None when loading it raised. */
  method CollectAllFeatures(ext: Externals, files: seq<Option<seq<Dict>>>) returns (r: seq<Dict>)
    requires AllKeyable(Loaded(files))
    ensures r == Combined(ext, files)
  {
    var aggregate: map<string, Dict> := map[];
    for i := 0 to |files|
      invariant AllKeyable(Loaded(files[..i]))
      invariant aggregate == Aggregated(ext, Loaded(files[..i]))
    {
      ghost var seen := Loaded(files[..i]);
      FileStep(files, i);
      var loaded := files[i];
      if loaded.Some? {
        aggregate := OfferFile(ext, aggregate, seen, loaded.value);
      }
    }
    assert files[..|files|] == files;
    r := SortedValues(aggregate);
  }

  /** Reading the aggregate out: the keys in ascending order are exactly the
      keys offered, and the value read at each is the first feature offered
      with it. */
  lemma CombinedReadOut(ks: seq<string>, fs: seq<Dict>)
    requires |ks| == |fs|
    ensures var m := FirstWins(ks, fs);
      var sorted := SortedKeys(m.Keys);
      var r := SortedValues(m);
      && |r| == |sorted| && Ascending(sorted)
      && (forall k :: k in sorted <==> k in ks)
      && (forall i :: 0 <= i < |r| ==> sorted[i] in ks && r[i] == fs[FirstIndex(ks, sorted[i])])
  {
    FirstWinsFirst(ks, fs);
  }

  /** The `i`-th combined feature: a loaded feature, filed under the `i`-th
      key in ascending order, and the first loaded feature with that key. */
  lemma CombinedAt(ext: Externals, files: seq<Option<seq<Dict>>>, i: nat)
    requires AllKeyable(Loaded(files)) && i < |Combined(ext, files)|
    ensures var fs := Loaded(files);
      var ks := CombineKeys(ext, fs);
      var r := Combined(ext, files);
      && r[i] in fs && CombineKeyable(r[i])
      && CombineKey(ext, r[i]) == SortedKeys(FirstWins(ks, fs).Keys)[i]
      && CombineKey(ext, r[i]) in ks && r[i] == fs[FirstIndex(ks, CombineKey(ext, r[i]))]
  {
    var fs := Loaded(files);
    var ks := CombineKeys(ext, fs);
    var sorted := SortedKeys(FirstWins(ks, fs).Keys);
    CombinedReadOut(ks, fs);
    var n := FirstIndex(ks, sorted[i]);
    CombineKeysAt(ext, fs, n);
  }

  /** Every combined feature comes from a loaded file, and it is the first
      loaded feature with its key. */
  lemma CombinedFirstWins(ext: Externals, files: seq<Option<seq<Dict>>>)
    requires AllKeyable(Loaded(files))
    ensures var fs := Loaded(files);
      var ks := CombineKeys(ext, fs);
      var r := Combined(ext, files);
      forall i :: 0 <= i < |r| ==>
        && r[i] in fs && CombineKeyable(r[i])
        && CombineKey(ext, r[i]) in ks && r[i] == fs[FirstIndex(ks, CombineKey(ext, r[i]))]
  {
    forall i | 0 <= i < |Combined(ext, files)| {
      CombinedAt(ext, files, i);
    }
  }

  /** The combined features' keys strictly ascend: one feature per key, in
      key order. */
  lemma CombinedAscending(ext: Externals, files: seq<Option<seq<Dict>>>)
    requires AllKeyable(Loaded(files))
    ensures var r := Combined(ext, files);
      && (forall i :: 0 <= i < |r| ==> CombineKeyable(r[i]))
      && (forall i, j :: 0 <= i < j < |r| ==> Below(CombineKey(ext, r[i]), CombineKey(ext, r[j])))
  {
    var fs := Loaded(files);
    var ks := CombineKeys(ext, fs);
    var sorted := SortedKeys(FirstWins(ks, fs).Keys);
    var r := Combined(ext, files);
    forall i | 0 <= i < |r|
      ensures CombineKeyable(r[i]) && CombineKey(ext, r[i]) == sorted[i]
    {
      CombinedAt(ext, files, i);
    }
  }

  /** Every key of a loaded feature is represented in the combined list, by
      the first loaded feature with that key. */
  lemma CombinedCovers(ext: Externals, files: seq<Option<seq<Dict>>>)
    requires AllKeyable(Loaded(files))
    ensures var fs := Loaded(files);
      var ks := CombineKeys(ext, fs);
      forall n :: 0 <= n < |fs| ==> ks[n] in ks && fs[FirstIndex(ks, ks[n])] in Combined(ext, files)
  {
    var fs := Loaded(files);
    var ks := CombineKeys(ext, fs);
    forall n | 0 <= n < |fs|
      ensures ks[n] in ks && fs[FirstIndex(ks, ks[n])] in Combined(ext, files)
    {
      ReadOutCovers(ks, fs, n);
    }
  }

  /** The first feature offered under each key is read out. */
  lemma ReadOutCovers(ks: seq<string>, fs: seq<Dict>, n: nat)
    requires |ks| == |fs| && n < |ks|
    ensures ks[n] in ks && fs[FirstIndex(ks, ks[n])] in SortedValues(FirstWins(ks, fs))
  {
    var sorted := SortedKeys(FirstWins(ks, fs).Keys);
    CombinedReadOut(ks, fs);
    assert ks[n] in ks;
    var i :| 0 <= i < |sorted| && sorted[i] == ks[n];
    assert SortedValues(FirstWins(ks, fs))[i] == fs[FirstIndex(ks, ks[n])];
  }
}
