/** `merge_features`, shared verbatim by both downloaders: a table from
    deduplication key to the best candidate seen so far, where a higher
    priority always wins and, at equal priority, the candidate with the newer
    (or equal) year wins. */
module Consolidation {
  import opened JsonValues
  import opened Identity
  import opened Order

  /** A year the merge can compare: missing, or a number (a boolean is one
      in Python). */
  predicate YearLike(j: Json) {
    j.Null? || j.Bool? || j.Int? || j.Float?
  }

  /** `year or 0`, as the number the comparison sees. */
  function YearRank(j: Json): real
    requires YearLike(j)
  {
    match j
    case Bool(b) => if b then 1.0 else 0.0
    case Int(i) => i as real
    case Float(x) => x
    case Null => 0.0
  }

  /** The record `merge_features` stores under a key. */
  datatype Candidate = Candidate(
    feature: Dict,
    priority: int,
    sourceYear: Json,
    sourceLabel: string,
    title: Json)

  predicate Comparable(c: Candidate) {
    YearLike(c.sourceYear)
  }

  /** The replacement rule: `c` beats or ties `e` when its priority is higher,
      or the priorities are equal and `(c year or 0) >= (e year or 0)`. */
  predicate AtLeast(c: Candidate, e: Candidate)
    requires Comparable(c) && Comparable(e)
  {
    c.priority > e.priority
    || (c.priority == e.priority && YearRank(c.sourceYear) >= YearRank(e.sourceYear))
  }

  /** A candidate together with the key it is filed under. */
  datatype Keyed = Keyed(key: string, cand: Candidate)

  datatype Outcome = Added | Updated | Skipped

  /** The `stats` dict `merge_features` returns. */
  datatype MergeStats = MergeStats(added: nat, updated: nat, skipped: nat)

  type Table = map<string, Candidate>

  predicate Ranked(t: Table) {
    forall k :: k in t ==> Comparable(t[k])
  }

  predicate AllComparable(cs: seq<Keyed>) {
    forall i :: 0 <= i < |cs| ==> Comparable(cs[i].cand)
  }

  function KeysOf(cs: seq<Keyed>): set<string> {
    set i | 0 <= i < |cs| :: cs[i].key
  }

  /** One turn of the loop in `merge_features`: insert a new key, replace an
      entry the candidate beats or ties, or leave the table alone. */
  function Offer(t: Table, kc: Keyed): (Table, Outcome)
    requires Ranked(t) && Comparable(kc.cand)
  {
    if kc.key !in t then (t[kc.key := kc.cand], Added)
    else if AtLeast(kc.cand, t[kc.key]) then (t[kc.key := kc.cand], Updated)
    else (t, Skipped)
  }

  /** The table after offering every candidate of `cs`, in order. */
  function MergeAll(t: Table, cs: seq<Keyed>): (r: Table)
    requires Ranked(t) && AllComparable(cs)
    ensures Ranked(r)
    decreases |cs|
  {
    if cs == [] then t
    else Offer(MergeAll(t, cs[..|cs| - 1]), cs[|cs| - 1]).0
  }

  /** The counts `merge_features` reports for the same run. */
  function MergeTally(t: Table, cs: seq<Keyed>): MergeStats
    requires Ranked(t) && AllComparable(cs)
    decreases |cs|
  {
    if cs == [] then MergeStats(0, 0, 0)
    else
      var s := MergeTally(t, cs[..|cs| - 1]);
      match Offer(MergeAll(t, cs[..|cs| - 1]), cs[|cs| - 1]).1
      case Added => s.(added := s.added + 1)
      case Updated => s.(updated := s.updated + 1)
      case Skipped => s.(skipped := s.skipped + 1)
  }

  /** Every incoming feature is counted exactly once. */
  lemma {:induction false} TallyTotal(t: Table, cs: seq<Keyed>)
    requires Ranked(t) && AllComparable(cs)
    ensures MergeTally(t, cs).added + MergeTally(t, cs).updated + MergeTally(t, cs).skipped == |cs|
    decreases |cs|
  {
    if cs != [] {
      TallyTotal(t, cs[..|cs| - 1]);
    }
  }

  lemma KeysOfSnoc(cs: seq<Keyed>)
    requires cs != []
    ensures KeysOf(cs) == KeysOf(cs[..|cs| - 1]) + {cs[|cs| - 1].key}
  {
    var init := cs[..|cs| - 1];
    forall k | k in KeysOf(cs) ensures k in KeysOf(init) + {cs[|cs| - 1].key} {
      var i :| 0 <= i < |cs| && cs[i].key == k;
      if i < |cs| - 1 {
        assert init[i].key == k;
      }
    }
    forall k | k in KeysOf(init) ensures k in KeysOf(cs) {
      var i :| 0 <= i < |init| && init[i].key == k;
      assert cs[i].key == k;
    }
  }

  /** The keys afterwards are the keys before plus the batch's keys. */
  lemma {:induction false} MergeKeys(t: Table, cs: seq<Keyed>)
    requires Ranked(t) && AllComparable(cs)
    ensures MergeAll(t, cs).Keys == t.Keys + KeysOf(cs)
    decreases |cs|
  {
    if cs != [] {
      MergeKeys(t, cs[..|cs| - 1]);
      KeysOfSnoc(cs);
    } else {
      assert KeysOf(cs) == {};
    }
  }

  /** A key absent from the batch keeps its entry. */
  lemma {:induction false} MergeUntouched(t: Table, cs: seq<Keyed>, k: string)
    requires Ranked(t) && AllComparable(cs)
    requires k in t && k !in KeysOf(cs)
    ensures k in MergeAll(t, cs) && MergeAll(t, cs)[k] == t[k]
    decreases |cs|
  {
    if cs != [] {
      KeysOfSnoc(cs);
      MergeUntouched(t, cs[..|cs| - 1], k);
    }
  }

  /** Every entry afterwards is either the entry before or one of the batch's
      candidates filed under that key. */
  lemma {:induction false} MergeProvenance(t: Table, cs: seq<Keyed>, k: string)
    requires Ranked(t) && AllComparable(cs)
    requires k in MergeAll(t, cs)
    ensures (k in t && MergeAll(t, cs)[k] == t[k])
      || exists i :: 0 <= i < |cs| && cs[i].key == k && cs[i].cand == MergeAll(t, cs)[k]
    decreases |cs|
  {
    if cs != [] {
      var init := cs[..|cs| - 1];
      var last := cs[|cs| - 1];
      var prev := MergeAll(t, init);
      if k == last.key && Offer(prev, last).1 != Skipped {
        assert cs[|cs| - 1].cand == MergeAll(t, cs)[k];
      } else {
        assert MergeAll(t, cs)[k] == prev[k];
        MergeProvenance(t, init, k);
        if !(k in t && prev[k] == t[k]) {
          var i :| 0 <= i < |init| && init[i].key == k && init[i].cand == prev[k];
          assert cs[i] == init[i];
        }
      }
    }
  }

  /** An entry is only ever replaced by a candidate that beats or ties it. */
  lemma OfferMonotone(t: Table, kc: Keyed, k: string)
    requires Ranked(t) && Comparable(kc.cand) && k in t
    ensures k in Offer(t, kc).0 && AtLeast(Offer(t, kc).0[k], t[k])
  {
  }

  /** No entry is ever downgraded: its priority never falls, and at the same
      priority its year never falls. */
  lemma {:induction false} MergeMonotone(t: Table, cs: seq<Keyed>, k: string)
    requires Ranked(t) && AllComparable(cs) && k in t
    ensures k in MergeAll(t, cs) && AtLeast(MergeAll(t, cs)[k], t[k])
    decreases |cs|
  {
    if cs != [] {
      var prev := MergeAll(t, cs[..|cs| - 1]);
      MergeMonotone(t, cs[..|cs| - 1], k);
      OfferMonotone(prev, cs[|cs| - 1], k);
    }
  }

  /** Every candidate of the batch ends up beaten or tied by the entry under
      its key: the newest year at the highest priority survives. */
  lemma {:induction false} MergeCovers(t: Table, cs: seq<Keyed>, i: nat)
    requires Ranked(t) && AllComparable(cs) && i < |cs|
    ensures cs[i].key in MergeAll(t, cs) && AtLeast(MergeAll(t, cs)[cs[i].key], cs[i].cand)
    decreases |cs|
  {
    var init := cs[..|cs| - 1];
    var prev := MergeAll(t, init);
    if i < |cs| - 1 {
      MergeCovers(t, init, i);
      assert init[i] == cs[i];
      OfferMonotone(prev, cs[|cs| - 1], cs[i].key);
    }
  }

  /** The candidate that survives when `b` is offered against `a`: `b` when
      it beats or ties `a`. */
  function Later(a: Candidate, b: Candidate): (c: Candidate)
    requires Comparable(a) && Comparable(b)
    ensures c == a || c == b
    ensures AtLeast(c, a) && AtLeast(c, b)
  {
    if AtLeast(b, a) then b else a
  }

  /** Ties go to the later candidate and the ranks form a total preorder, so
      the surviving candidate does not depend on how a run is grouped. */
  lemma LaterAssociative(a: Candidate, b: Candidate, c: Candidate)
    requires Comparable(a) && Comparable(b) && Comparable(c)
    ensures Later(Later(a, b), c) == Later(a, Later(b, c))
  {
  }

  /** The entry under `k` once `u` is laid over `t`. */
  function Top(t: Table, u: Table, k: string): (c: Candidate)
    requires Ranked(t) && Ranked(u) && (k in t || k in u)
    ensures Comparable(c)
  {
    if k in t && k in u then Later(t[k], u[k]) else if k in u then u[k] else t[k]
  }

  /** `u` laid over `t`, key by key, as if `u`'s entries were offered to `t`. */
  function Overlay(t: Table, u: Table): (r: Table)
    requires Ranked(t) && Ranked(u)
    ensures Ranked(r) && r.Keys == t.Keys + u.Keys
  {
    map k | k in t.Keys + u.Keys :: Top(t, u, k)
  }

  /** `t` with `c` offered under `k`: `Later` of the old entry and `c`. */
  function Settle(t: Table, k: string, c: Candidate): (r: Table)
    requires Ranked(t) && Comparable(c)
    ensures Ranked(r) && r.Keys == t.Keys + {k}
  {
    t[k := if k in t then Later(t[k], c) else c]
  }

  lemma OfferOverlay(t: Table, u: Table, kc: Keyed)
    requires Ranked(t) && Ranked(u) && Comparable(kc.cand)
    ensures Offer(Overlay(t, u), kc).0 == Overlay(t, Offer(u, kc).0)
  {
    OfferIsLater(Overlay(t, u), kc);
    OfferIsLater(u, kc);
    OverlayUpdate(t, u, kc.key, kc.cand);
  }

  lemma OverlayUpdate(t: Table, u: Table, k: string, c: Candidate)
    requires Ranked(t) && Ranked(u) && Comparable(c)
    ensures Settle(Overlay(t, u), k, c) == Overlay(t, Settle(u, k, c))
  {
    var lhs := Settle(Overlay(t, u), k, c);
    var rhs := Overlay(t, Settle(u, k, c));
    assert lhs.Keys == rhs.Keys;
    forall j | j in lhs ensures lhs[j] == rhs[j] {
      if j == k {
        OverlayUpdateAt(t, u, k, c);
      } else {
        OverlayUpdateElsewhere(t, u, k, c, j);
      }
    }
  }

  /** `OverlayUpdate` away from the updated key. */
  lemma OverlayUpdateElsewhere(t: Table, u: Table, k: string, c: Candidate, j: string)
    requires Ranked(t) && Ranked(u) && Comparable(c)
    requires j != k && j in Overlay(t, u)
    ensures j in Overlay(t, Settle(u, k, c)) && Overlay(t, Settle(u, k, c))[j] == Overlay(t, u)[j]
  {
    var u' := Settle(u, k, c);
    assert j in u' <==> j in u;
    assert j in u ==> u'[j] == u[j];
    assert Top(t, u', j) == Top(t, u, j);
  }

  /** `OverlayUpdate` at the updated key itself. */
  lemma OverlayUpdateAt(t: Table, u: Table, k: string, c: Candidate)
    requires Ranked(t) && Ranked(u) && Comparable(c)
    ensures k in Overlay(t, Settle(u, k, c))
    ensures Settle(Overlay(t, u), k, c)[k] == Overlay(t, Settle(u, k, c))[k]
  {
    if k in t && k in u {
      LaterAssociative(t[k], u[k], c);
    }
  }

  /** An offer keeps `Later` of the old entry and the candidate. */
  lemma OfferIsLater(t: Table, kc: Keyed)
    requires Ranked(t) && Comparable(kc.cand)
    ensures Offer(t, kc).0 == Settle(t, kc.key, kc.cand)
  {
    if kc.key in t && !AtLeast(kc.cand, t[kc.key]) {
      assert t[kc.key := t[kc.key]] == t;
    }
  }

  /** Merging a batch into `t` is laying the batch's own merge over `t`. */
  lemma {:induction false} MergeOverlay(t: Table, cs: seq<Keyed>)
    requires Ranked(t) && AllComparable(cs)
    ensures MergeAll(t, cs) == Overlay(t, MergeAll(map[], cs))
    decreases |cs|
  {
    if cs == [] {
      assert Overlay(t, map[]) == t;
    } else {
      var init := cs[..|cs| - 1];
      MergeOverlay(t, init);
      OfferOverlay(t, MergeAll(map[], init), cs[|cs| - 1]);
    }
  }

  lemma OverlayAssociative(t: Table, u: Table, v: Table)
    requires Ranked(t) && Ranked(u) && Ranked(v)
    ensures Overlay(Overlay(t, u), v) == Overlay(t, Overlay(u, v))
  {
    var lhs, rhs := Overlay(Overlay(t, u), v), Overlay(t, Overlay(u, v));
    assert lhs.Keys == rhs.Keys;
    forall k | k in lhs ensures lhs[k] == rhs[k] {
      if k in t && k in u && k in v {
        LaterAssociative(t[k], u[k], v[k]);
      }
    }
    assert lhs == rhs;
  }

  lemma OverlaySelf(u: Table)
    requires Ranked(u)
    ensures Overlay(u, u) == u
  {
  }

  /** Merging the same batch twice leaves the table as one merge left it:
      under each key the last candidate of the highest rank already holds,
      and offering the batch again only hands the key back to that same
      candidate. */
  lemma MergeIdempotent(t: Table, cs: seq<Keyed>)
    requires Ranked(t) && AllComparable(cs)
    ensures MergeAll(MergeAll(t, cs), cs) == MergeAll(t, cs)
  {
    var u := MergeAll(map[], cs);
    MergeOverlay(t, cs);
    MergeOverlay(MergeAll(t, cs), cs);
    OverlayAssociative(t, u, u);
    OverlaySelf(u);
  }

  lemma NewKeysSnoc(a: set<string>, t: set<string>, k: string)
    ensures k in t || k in a ==> (a + {k}) - t == a - t
    ensures k !in t && k !in a ==> |(a + {k}) - t| == |a - t| + 1
  {
    if k !in t && k !in a {
      assert (a + {k}) - t == (a - t) + {k};
    }
  }

  /** `added` counts exactly the keys the batch brings that were absent. */
  lemma {:induction false} AddedCountsNewKeys(t: Table, cs: seq<Keyed>)
    requires Ranked(t) && AllComparable(cs)
    ensures MergeTally(t, cs).added == |KeysOf(cs) - t.Keys|
    decreases |cs|
  {
    if cs == [] {
      assert KeysOf(cs) - t.Keys == {};
    } else {
      var init := cs[..|cs| - 1];
      var k := cs[|cs| - 1].key;
      var prev := MergeAll(t, init);
      assert MergeTally(t, cs).added == MergeTally(t, init).added + (if k in prev then 0 else 1);
      AddedCountsNewKeys(t, init);
      MergeKeys(t, init);
      KeysOfSnoc(cs);
      NewKeysSnoc(KeysOf(init), t.Keys, k);
    }
  }

  /** A batch at a priority above everything in the table takes over every
      key it carries: no older entry survives under those keys. */
  lemma HigherPriorityTakesOver(t: Table, cs: seq<Keyed>, p: int, k: string)
    requires Ranked(t) && AllComparable(cs)
    requires forall i :: 0 <= i < |cs| ==> cs[i].cand.priority == p
    requires forall k' :: k' in t ==> t[k'].priority < p
    requires k in KeysOf(cs)
    ensures k in MergeAll(t, cs) && MergeAll(t, cs)[k].priority == p
    ensures exists i :: 0 <= i < |cs| && cs[i].key == k && cs[i].cand == MergeAll(t, cs)[k]
  {
    var j :| 0 <= j < |cs| && cs[j].key == k;
    MergeCovers(t, cs, j);
    MergeProvenance(t, cs, k);
  }

  /** The rule for one incoming feature: a new key is inserted and counted
      as added; an existing entry is replaced and counted as updated exactly
      when the candidate beats or ties it, and is otherwise left alone and
      counted as skipped; no other key is touched. */
  lemma ReplacementRule(t: Table, kc: Keyed)
    requires Ranked(t) && Comparable(kc.cand)
    ensures kc.key !in t ==>
      MergeAll(t, [kc]) == t[kc.key := kc.cand] && MergeTally(t, [kc]) == MergeStats(1, 0, 0)
    ensures kc.key in t && AtLeast(kc.cand, t[kc.key]) ==>
      MergeAll(t, [kc]) == t[kc.key := kc.cand] && MergeTally(t, [kc]) == MergeStats(0, 1, 0)
    ensures kc.key in t && !AtLeast(kc.cand, t[kc.key]) ==>
      MergeAll(t, [kc]) == t && MergeTally(t, [kc]) == MergeStats(0, 0, 1)
  {
    assert [kc][..0] == [];
  }

  /** The fold advanced by one candidate. */
  lemma MergeStep(t: Table, cs: seq<Keyed>, i: nat, e: Table, s: MergeStats, k: string, c: Candidate)
    requires Ranked(t) && AllComparable(cs) && i < |cs| && cs[i] == Keyed(k, c)
    requires e == MergeAll(t, cs[..i]) && s == MergeTally(t, cs[..i])
    ensures Ranked(e) && Comparable(c)
    ensures k !in e ==>
      MergeAll(t, cs[..i + 1]) == e[k := c] && MergeTally(t, cs[..i + 1]) == s.(added := s.added + 1)
    ensures k in e && AtLeast(c, e[k]) ==>
      MergeAll(t, cs[..i + 1]) == e[k := c] && MergeTally(t, cs[..i + 1]) == s.(updated := s.updated + 1)
    ensures k in e && !AtLeast(c, e[k]) ==>
      MergeAll(t, cs[..i + 1]) == e && MergeTally(t, cs[..i + 1]) == s.(skipped := s.skipped + 1)
  {
    assert cs[..i + 1][..i] == cs[..i];
  }

  /** `source_year`: the feature's own year unless it is None, else the
      batch's year. */
  function SourceYear(f: Dict, batchYear: Json): (y: Json)
    ensures Get(PropsOf(f), "year") != Null ==> y == Get(PropsOf(f), "year")
    ensures Get(PropsOf(f), "year") == Null ==> y == batchYear
  {
    var own := Get(PropsOf(f), "year");
    if own != Null then own else batchYear
  }

  /** The features `merge_features` can process without raising: each can be
      keyed, and its year can be compared. */
  predicate Mergeable(edition: Edition, fs: seq<Dict>, batchYear: Json) {
    forall i :: 0 <= i < |fs| ==> Keyable(edition, fs[i]) && YearLike(SourceYear(fs[i], batchYear))
  }

  /** The candidate built for one feature. */
  function MakeCandidate(f: Dict, priority: int, batchYear: Json, tag: string): (c: Candidate)
    ensures c.feature == f && c.priority == priority && c.sourceLabel == tag
    ensures c.sourceYear == SourceYear(f, batchYear)
    ensures c.title == Get(PropsOf(f), "title")
  {
    Candidate(f, priority, SourceYear(f, batchYear), tag, Get(PropsOf(f), "title"))
  }

  /** The batch as the loop sees it: each feature with its key. */
  function Prepare(edition: Edition, ext: Externals, fs: seq<Dict>, priority: int,
                   batchYear: Json, tag: string): (cs: seq<Keyed>)
    requires Mergeable(edition, fs, batchYear)
    ensures |cs| == |fs| && AllComparable(cs)
    ensures forall i {:trigger fs[i]} :: 0 <= i < |fs| ==> cs[i].key == DownloadKey(edition, ext, fs[i])
    ensures forall i {:trigger fs[i]} :: 0 <= i < |fs| ==> cs[i].cand == MakeCandidate(fs[i], priority, batchYear, tag)
  {
    seq(|fs|, i requires 0 <= i < |fs| =>
      Keyed(DownloadKey(edition, ext, fs[i]), MakeCandidate(fs[i], priority, batchYear, tag)))
  }

  /** Every entry is filed under its own feature's key. */
  predicate Filed(edition: Edition, ext: Externals, t: Table) {
    forall k :: k in t ==> Keyable(edition, t[k].feature) && DownloadKey(edition, ext, t[k].feature) == k
  }

  lemma MergeKeepsFiled(edition: Edition, ext: Externals, t: Table, fs: seq<Dict>, priority: int,
                        batchYear: Json, tag: string)
    requires Ranked(t) && Filed(edition, ext, t) && Mergeable(edition, fs, batchYear)
    ensures Filed(edition, ext, MergeAll(t, Prepare(edition, ext, fs, priority, batchYear, tag)))
  {
    var cs := Prepare(edition, ext, fs, priority, batchYear, tag);
    var r := MergeAll(t, cs);
    forall k | k in r
      ensures Keyable(edition, r[k].feature) && DownloadKey(edition, ext, r[k].feature) == k
    {
      MergeProvenance(t, cs, k);
    }
  }

  /** The features of a table, one per key, in ascending key order: the
      read-out `sorted(aggregated.items())` gives. */
  function ReadOut(t: Table): (fs: seq<Dict>)
    ensures |fs| == |t|
  {
    var ks := SortedKeys(t.Keys);
    seq(|ks|, i requires 0 <= i < |ks| => t[ks[i]].feature)
  }

  /** Every feature can be keyed and the keys ascend strictly. */
  predicate KeyAscending(edition: Edition, ext: Externals, fs: seq<Dict>) {
    && (forall i :: 0 <= i < |fs| ==> Keyable(edition, fs[i]))
    && (forall i, j :: 0 <= i < j < |fs| ==>
          Below(DownloadKey(edition, ext, fs[i]), DownloadKey(edition, ext, fs[j])))
  }

  /** Read out from a filed table, the features' own keys ascend strictly,
      and every stored feature appears. */
  lemma ReadOutOrdered(edition: Edition, ext: Externals, t: Table)
    requires Filed(edition, ext, t)
    ensures KeyAscending(edition, ext, ReadOut(t))
    ensures forall k :: k in t ==> t[k].feature in ReadOut(t)
  {
    var ks := SortedKeys(t.Keys);
    var fs := ReadOut(t);
    forall i | 0 <= i < |fs| ensures Keyable(edition, fs[i]) && DownloadKey(edition, ext, fs[i]) == ks[i] {
      ReadOutAt(edition, ext, t, i);
    }
    forall k | k in t ensures t[k].feature in fs {
      ReadOutHas(t, k);
    }
  }

  /** The `i`-th feature read out is filed under the `i`-th key. */
  lemma ReadOutAt(edition: Edition, ext: Externals, t: Table, i: nat)
    requires Filed(edition, ext, t) && i < |ReadOut(t)|
    ensures Keyable(edition, ReadOut(t)[i])
    ensures DownloadKey(edition, ext, ReadOut(t)[i]) == SortedKeys(t.Keys)[i]
  {
    assert SortedKeys(t.Keys)[i] in t;
  }

  /** Every stored feature is read out. */
  lemma ReadOutHas(t: Table, k: string)
    requires k in t
    ensures t[k].feature in ReadOut(t)
  {
    var ks := SortedKeys(t.Keys);
    var i :| 0 <= i < |ks| && ks[i] == k;
    assert ReadOut(t)[i] == t[k].feature;
  }

  /** The map `aggregate` a downloader builds for one country. */
  class Aggregate {
    const edition: Edition
    const ext: Externals
    var entries: Table

    ghost predicate Valid()
      reads this
    {
      Ranked(entries) && Filed(edition, ext, entries)
    }

    constructor(edition: Edition, ext: Externals)
      ensures this.edition == edition && this.ext == ext
      ensures entries == map[] && Valid()
    {
      this.edition := edition;
      this.ext := ext;
      entries := map[];
    }

    /** `merge_features(aggregate, features, priority=…, source_year=…,
        source_label=…)` */
    method Merge(features: seq<Dict>, priority: int, sourceYear: Json, sourceLabel: string)
      returns (stats: MergeStats)
      requires Valid() && Mergeable(edition, features, sourceYear)
      modifies this
      ensures Valid()
      ensures entries == MergeAll(old(entries), Prepare(edition, ext, features, priority, sourceYear, sourceLabel))
      ensures stats == MergeTally(old(entries), Prepare(edition, ext, features, priority, sourceYear, sourceLabel))
      ensures stats.added + stats.updated + stats.skipped == |features|
    {
      ghost var batch := Prepare(edition, ext, features, priority, sourceYear, sourceLabel);
      ghost var start := entries;
      var table := entries;
      stats := MergeStats(0, 0, 0);
      var i := 0;
      while i < |features|
        invariant 0 <= i <= |features|
        invariant table == MergeAll(start, batch[..i])
        invariant stats == MergeTally(start, batch[..i])
      {
        var feature := features[i];
        var key := DownloadKey(edition, ext, feature);
        var candidate := MakeCandidate(feature, priority, sourceYear, sourceLabel);
        assert batch[i] == Keyed(key, candidate);
        MergeStep(start, batch, i, table, stats, key, candidate);
        if key !in table {
          table := table[key := candidate];
          stats := stats.(added := stats.added + 1);
        } else if AtLeast(candidate, table[key]) {
          table := table[key := candidate];
          stats := stats.(updated := stats.updated + 1);
        } else {
          stats := stats.(skipped := stats.skipped + 1);
        }
        i := i + 1;
      }
      assert batch[..i] == batch;
      TallyTotal(start, batch);
      MergeKeepsFiled(edition, ext, start, features, priority, sourceYear, sourceLabel);
      entries := table;
    }

    /** The final features, sorted by key. */
    function Features(): (fs: seq<Dict>)
      reads this
      requires Valid()
      ensures |fs| == |entries|
      ensures KeyAscending(edition, ext, fs)
      ensures forall k :: k in entries ==> entries[k].feature in fs
    {
      ReadOutOrdered(edition, ext, entries);
      ReadOut(entries)
    }
  }
}
