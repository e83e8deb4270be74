/** Python's ordering of strings (`sorted` on dict keys) and the small
    sequence vocabulary the other modules state their contracts in. */
module Order {

  /** `a < b` on Python strings: lexicographic by code point, a proper prefix
      first. */
  predicate Below(a: string, b: string) {
    if a == [] then b != []
    else if b == [] then false
    else if a[0] < b[0] then true
    else if a[0] > b[0] then false
    else Below(a[1..], b[1..])
  }

  lemma {:induction false} BelowIrreflexive(a: string)
    ensures !Below(a, a)
  {
    if a != [] {
      BelowIrreflexive(a[1..]);
    }
  }

  lemma {:induction false} BelowAsymmetric(a: string, b: string)
    ensures !(Below(a, b) && Below(b, a))
  {
    if a != [] && b != [] && a[0] == b[0] {
      BelowAsymmetric(a[1..], b[1..]);
    }
  }

  lemma {:induction false} BelowTotal(a: string, b: string)
    ensures a == b || Below(a, b) || Below(b, a)
  {
    if a != [] && b != [] && a[0] == b[0] {
      BelowTotal(a[1..], b[1..]);
      assert a == [a[0]] + a[1..];
      assert b == [b[0]] + b[1..];
    }
  }

  lemma {:induction false} BelowTransitive(a: string, b: string, c: string)
    requires Below(a, b) && Below(b, c)
    ensures Below(a, c)
  {
    if a != [] && b != [] && c != [] && a[0] == b[0] && b[0] == c[0] {
      BelowTransitive(a[1..], b[1..], c[1..]);
    }
  }

  lemma BelowIsStrict()
    ensures forall a, b :: !(Below(a, b) && Below(b, a))
  {
    forall a, b ensures !(Below(a, b) && Below(b, a)) {
      BelowAsymmetric(a, b);
    }
  }

  /** A least element of a non-empty finite set of strings, found by
      induction on the set. */
  lemma {:induction false} LeastWitness(s: set<string>) returns (m: string)
    requires s != {}
    ensures m in s
    ensures forall x :: x in s && x != m ==> Below(m, x)
    decreases |s|
  {
    var y :| y in s;
    if s == {y} {
      m := y;
    } else {
      var k := LeastWitness(s - {y});
      BelowTotal(k, y);
      if Below(y, k) {
        m := y;
        forall x | x in s && x != y ensures Below(y, x) {
          if x != k {
            BelowTransitive(y, k, x);
          }
        }
      } else {
        m := k;
      }
    }
  }

  /** Every non-empty finite set of strings has a least element. */
  lemma HasLeast(s: set<string>)
    requires s != {}
    ensures exists m :: m in s && forall x :: x in s && x != m ==> Below(m, x)
  {
    var m := LeastWitness(s);
  }

  /** The least string of a non-empty set. */
  function Least(s: set<string>): (m: string)
    requires s != {}
    ensures m in s
    ensures forall x :: x in s && x != m ==> Below(m, x)
  {
    HasLeast(s);
    BelowIsStrict();
    var m :| m in s && forall x :: x in s && x != m ==> Below(m, x);
    m
  }

  /** Strictly ascending, hence without repetitions. */
  ghost predicate Ascending(ks: seq<string>) {
    forall i, j :: 0 <= i < j < |ks| ==> Below(ks[i], ks[j])
  }

  /** `sorted(keys)`: the keys of a set in ascending order. */
  function SortedKeys(s: set<string>): (r: seq<string>)
    ensures Ascending(r)
    ensures forall x :: x in r <==> x in s
    ensures |r| == |s|
    decreases |s|
  {
    if s == {} then [] else
      var m := Least(s);
      var rest := SortedKeys(s - {m});
      assert forall j :: 0 <= j < |rest| ==> rest[j] in rest && Below(m, rest[j]);
      [m] + rest
  }

  lemma AscendingHasNoDuplicates(ks: seq<string>)
    requires Ascending(ks)
    ensures NoDuplicates(ks)
  {
    forall i, j | 0 <= i < j < |ks| ensures ks[i] != ks[j] {
      BelowIrreflexive(ks[i]);
    }
  }

  ghost predicate NoDuplicates<T>(xs: seq<T>) {
    forall i, j :: 0 <= i < j < |xs| ==> xs[i] != xs[j]
  }

  /** Index of the first occurrence of `x` in `xs`. */
  function FirstIndex<T(==)>(xs: seq<T>, x: T): (k: nat)
    requires x in xs
    ensures k < |xs| && xs[k] == x
    ensures forall j :: 0 <= j < k ==> xs[j] != x
  {
    if xs[0] == x then 0 else 1 + FirstIndex(xs[1..], x)
  }

  lemma FirstIndexOfPrefix<T>(xs: seq<T>, n: nat, x: T)
    requires n <= |xs| && x in xs[..n]
    ensures x in xs && FirstIndex(xs, x) == FirstIndex(xs[..n], x)
  {
    var k := FirstIndex(xs[..n], x);
    assert xs[k] == x;
    assert forall j :: 0 <= j < k ==> xs[..n][j] == xs[j];
  }

  /** The elements of `r` appear in the order of their first occurrence in
      `xs`. */
  ghost predicate InFirstOccurrenceOrder<T>(r: seq<T>, xs: seq<T>)
    requires forall x :: x in r ==> x in xs
  {
    forall i, j :: 0 <= i < j < |r| ==> FirstIndex(xs, r[i]) < FirstIndex(xs, r[j])
  }

  /** Growing `xs` at the back keeps a first-occurrence order over it. */
  lemma ExtendKeepsOrder<T>(r: seq<T>, xs: seq<T>, x: T)
    requires forall y :: y in r ==> y in xs
    requires InFirstOccurrenceOrder(r, xs)
    ensures forall y :: y in r ==> y in xs + [x]
    ensures InFirstOccurrenceOrder(r, xs + [x])
  {
    var zs := xs + [x];
    assert zs[..|xs|] == xs;
    forall y | y in r
      ensures y in zs && FirstIndex(zs, y) == FirstIndex(xs, y)
    {
      FirstIndexOfPrefix(zs, |xs|, y);
    }
  }

  /** A value new to `xs` goes after everything already in first-occurrence
      order. */
  lemma AppendNewKeepsOrder<T>(r: seq<T>, xs: seq<T>, x: T)
    requires forall y :: y in r ==> y in xs
    requires InFirstOccurrenceOrder(r, xs)
    requires x !in xs
    ensures forall y :: y in r + [x] ==> y in xs + [x]
    ensures InFirstOccurrenceOrder(r + [x], xs + [x])
  {
    var zs := xs + [x];
    ExtendKeepsOrder(r, xs, x);
    assert FirstIndex(zs, x) == |xs|;
    forall i, j | 0 <= i < j < |r + [x]|
      ensures FirstIndex(zs, (r + [x])[i]) < FirstIndex(zs, (r + [x])[j])
    {
      assert (r + [x])[i] == r[i];
      if j < |r| {
        assert (r + [x])[j] == r[j];
      }
    }
  }
}
