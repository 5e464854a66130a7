/** `Series.value_counts()`: every distinct value with its number of
    occurrences, most frequent first. */
module Tally {
  import opened Seqs

  datatype Pair<T> = Pair(key: T, count: nat)

  /** Sum of the counts of a table. */
  function Total<T>(t: seq<Pair<T>>): nat {
    if t == [] then 0 else Total(t[..|t| - 1]) + t[|t| - 1].count
  }

  /** One pair per key of ks, counting that key in xs. */
  function PairsOf<T(==)>(ks: seq<T>, xs: seq<T>): (t: seq<Pair<T>>)
    ensures |t| == |ks|
    ensures forall i :: 0 <= i < |t| ==> t[i] == Pair(ks[i], Count(xs, ks[i]))
  {
    if ks == [] then [] else PairsOf(ks[..|ks| - 1], xs) + [Pair(ks[|ks| - 1], Count(xs, ks[|ks| - 1]))]
  }

  predicate Descending<T>(t: seq<Pair<T>>) {
    forall i, j :: 0 <= i < j < |t| ==> t[i].count >= t[j].count
  }

  predicate DistinctKeys<T(==)>(t: seq<Pair<T>>) {
    forall i, j :: 0 <= i < j < |t| ==> t[i].key != t[j].key
  }

  predicate HasKey<T(==)>(t: seq<Pair<T>>, x: T) {
    exists i :: 0 <= i < |t| && t[i].key == x
  }

  /** p placed after every pair counted at least as often (a stable sort). */
  function InsertByCount<T>(t: seq<Pair<T>>, p: Pair<T>): (r: seq<Pair<T>>)
    ensures multiset(r) == multiset(t) + multiset{p}
  {
    if t == [] then [p]
    else if p.count > t[0].count then [p] + t
    else
      assert t == [t[0]] + t[1..];
      [t[0]] + InsertByCount(t[1..], p)
  }

  function SortByCount<T>(t: seq<Pair<T>>): (r: seq<Pair<T>>)
    ensures multiset(r) == multiset(t)
  {
    if t == [] then []
    else
      assert t == t[..|t| - 1] + [t[|t| - 1]];
      InsertByCount(SortByCount(t[..|t| - 1]), t[|t| - 1])
  }

  /** The frequency table of xs. The order among equal counts is one
      particular choice (first occurrence first); nothing below depends on it. */
  function ValueCounts<T(==)>(xs: seq<T>): seq<Pair<T>> {
    SortByCount(PairsOf(Dedup(xs), xs))
  }

  // ---------------------------------------------------------------- order

  lemma {:induction false} InsertDescending<T>(t: seq<Pair<T>>, p: Pair<T>)
    requires Descending(t)
    ensures Descending(InsertByCount(t, p))
    decreases |t|
  {
    if t != [] && p.count <= t[0].count {
      InsertDescending(t[1..], p);
      var r := InsertByCount(t[1..], p);
      forall j | 0 <= j < |r| ensures t[0].count >= r[j].count {
        assert r[j] in multiset(r);
        if r[j] != p {
          assert r[j] in multiset(t[1..]);
          var k :| 0 <= k < |t[1..]| && t[1..][k] == r[j];
          assert t[k + 1] == r[j];
        }
      }
    }
  }

  lemma {:induction false} SortDescending<T>(t: seq<Pair<T>>)
    ensures Descending(SortByCount(t))
    decreases |t|
  {
    if t != [] {
      SortDescending(t[..|t| - 1]);
      InsertDescending(SortByCount(t[..|t| - 1]), t[|t| - 1]);
    }
  }

  // ---------------------------------------------------------------- keys

  lemma {:induction false} InsertDistinct<T>(t: seq<Pair<T>>, p: Pair<T>)
    requires DistinctKeys(t) && !HasKey(t, p.key)
    ensures DistinctKeys(InsertByCount(t, p))
    decreases |t|
  {
    if t != [] && p.count <= t[0].count {
      var s := t[1..];
      assert !HasKey(s, p.key) by {
        forall k | 0 <= k < |s| ensures s[k].key != p.key {
          assert t[k + 1] == s[k];
        }
      }
      InsertDistinct(s, p);
      var r := InsertByCount(s, p);
      forall j | 0 <= j < |r| ensures t[0].key != r[j].key {
        assert r[j] in multiset(r);
        if r[j] != p {
          assert r[j] in multiset(s);
          var k :| 0 <= k < |s| && s[k] == r[j];
          assert t[k + 1] == r[j];
        } else {
          assert t[0].key != p.key;
        }
      }
    }
  }

  /** Sorting keeps the pairs, so it keeps which keys are present. */
  lemma SameKeys<T>(a: seq<Pair<T>>, b: seq<Pair<T>>, x: T)
    requires multiset(a) == multiset(b)
    ensures HasKey(a, x) <==> HasKey(b, x)
  {
    if HasKey(a, x) {
      var i :| 0 <= i < |a| && a[i].key == x;
      assert a[i] in multiset(b);
      var j :| 0 <= j < |b| && b[j] == a[i];
    }
    if HasKey(b, x) {
      var i :| 0 <= i < |b| && b[i].key == x;
      assert b[i] in multiset(a);
      var j :| 0 <= j < |a| && a[j] == b[i];
    }
  }

  lemma {:induction false} SortDistinct<T>(t: seq<Pair<T>>)
    requires DistinctKeys(t)
    ensures DistinctKeys(SortByCount(t))
    decreases |t|
  {
    if t != [] {
      var p, x := t[..|t| - 1], t[|t| - 1];
      assert DistinctKeys(p);
      SortDistinct(p);
      assert !HasKey(p, x.key) by {
        forall k | 0 <= k < |p| ensures p[k].key != x.key {
          assert t[k] == p[k];
        }
      }
      SameKeys(p, SortByCount(p), x.key);
      InsertDistinct(SortByCount(p), x);
    }
  }

  // ---------------------------------------------------------------- totals

  lemma CountSnoc<T>(xs: seq<T>, x: T, k: T)
    ensures Count(xs + [x], k) == Count(xs, k) + (if x == k then 1 else 0)
  {
    assert (xs + [x])[..|xs|] == xs;
  }

  lemma {:induction false} TotalPairsSnoc<T>(ks: seq<T>, xs: seq<T>, x: T)
    ensures Total(PairsOf(ks, xs + [x])) == Total(PairsOf(ks, xs)) + Count(ks, x)
    decreases |ks|
  {
    if ks != [] {
      TotalPairsSnoc(ks[..|ks| - 1], xs, x);
      CountSnoc(xs, x, ks[|ks| - 1]);
    }
  }

  lemma CountOnce<T>(ks: seq<T>, x: T)
    requires NoDups(ks) && x in ks
    ensures Count(ks, x) == 1
  {
    var i :| 0 <= i < |ks| && ks[i] == x;
    CountRange(ks, x, i, i);
  }

  lemma PairsSnoc<T>(ks: seq<T>, k: T, xs: seq<T>)
    ensures PairsOf(ks + [k], xs) == PairsOf(ks, xs) + [Pair(k, Count(xs, k))]
  {
    assert (ks + [k])[..|ks|] == ks;
  }

  lemma TotalSnoc<T>(t: seq<Pair<T>>, p: Pair<T>)
    ensures Total(t + [p]) == Total(t) + p.count
  {
    assert (t + [p])[..|t|] == t;
  }

  /** Adding a value already seen adds one to the total of the old keys. */
  lemma TotalSeen<T>(d: seq<T>, p: seq<T>, x: T)
    requires NoDups(d) && x in d
    ensures Total(PairsOf(d, p + [x])) == Total(PairsOf(d, p)) + 1
  {
    TotalPairsSnoc(d, p, x);
    CountOnce(d, x);
  }

  /** Adding a new value adds a key counted once. */
  lemma TotalNew<T>(d: seq<T>, p: seq<T>, x: T)
    requires x !in d && x !in p
    ensures Total(PairsOf(d + [x], p + [x])) == Total(PairsOf(d, p)) + 1
  {
    PairsSnoc(d, x, p + [x]);
    TotalSnoc(PairsOf(d, p + [x]), Pair(x, Count(p + [x], x)));
    TotalPairsSnoc(d, p, x);
    CountAbsent(d, x);
    CountAbsent(p, x);
    CountSnoc(p, x, x);
  }

  /** The counts of the distinct values add up to the number of values. */
  lemma {:induction false} TotalOfPairs<T>(xs: seq<T>)
    ensures Total(PairsOf(Dedup(xs), xs)) == |xs|
    decreases |xs|
  {
    if xs != [] {
      var p, x := xs[..|xs| - 1], xs[|xs| - 1];
      assert xs == p + [x];
      TotalOfPairs(p);
      DedupSnoc(p, x);
      DedupSpec(p);
      if x in p {
        assert Dedup(xs) == Dedup(p) && x in Dedup(p);
        TotalSeen(Dedup(p), p, x);
      } else {
        assert Dedup(xs) == Dedup(p) + [x] && x !in Dedup(p);
        TotalNew(Dedup(p), p, x);
      }
    }
  }

  lemma {:induction false} TotalInsert<T>(t: seq<Pair<T>>, p: Pair<T>)
    ensures Total(InsertByCount(t, p)) == Total(t) + p.count
    decreases |t|
  {
    if t != [] {
      TotalCons(t[0], t[1..]);
      if p.count > t[0].count {
        TotalCons(p, t);
      } else {
        TotalInsert(t[1..], p);
        TotalCons(t[0], InsertByCount(t[1..], p));
      }
      assert t == [t[0]] + t[1..];
    }
  }

  lemma {:induction false} TotalCons<T>(p: Pair<T>, t: seq<Pair<T>>)
    ensures Total([p] + t) == p.count + Total(t)
    decreases |t|
  {
    if t != [] {
      var q, y := t[..|t| - 1], t[|t| - 1];
      assert ([p] + t)[..|t|] == [p] + q;
      TotalCons(p, q);
    }
  }

  lemma {:induction false} TotalSort<T>(t: seq<Pair<T>>)
    ensures Total(SortByCount(t)) == Total(t)
    decreases |t|
  {
    if t != [] {
      TotalSort(t[..|t| - 1]);
      TotalInsert(SortByCount(t[..|t| - 1]), t[|t| - 1]);
    }
  }

  // ---------------------------------------------------------------- the table

  /** Each pair counts its key's occurrences in xs, and is positive. */
  lemma PairsOfDedup<T>(xs: seq<T>, p: Pair<T>)
    requires p in PairsOf(Dedup(xs), xs)
    ensures p.count == Count(xs, p.key) && p.count > 0 && p.key in xs
  {
    var d := Dedup(xs);
    DedupSpec(xs);
    var k :| 0 <= k < |d| && PairsOf(d, xs)[k] == p;
    assert d[k] in d;
    CountPositive(xs, d[k]);
  }

  /** The frequency table lists every value of xs once, with its exact number
      of occurrences, most frequent first, and its counts add up to |xs|. */
  lemma ValueCountsSpec<T>(xs: seq<T>)
    ensures var t := ValueCounts(xs);
      && Descending(t)
      && DistinctKeys(t)
      && (forall i :: 0 <= i < |t| ==> t[i].count == Count(xs, t[i].key) && t[i].count > 0 && t[i].key in xs)
      && Total(t) == |xs|
  {
    var u := PairsOf(Dedup(xs), xs);
    var t := ValueCounts(xs);
    DedupSpec(xs);
    assert DistinctKeys(u);
    SortDescending(u);
    SortDistinct(u);
    TotalOfPairs(xs);
    TotalSort(u);
    forall i | 0 <= i < |t| ensures t[i].count == Count(xs, t[i].key) && t[i].count > 0 && t[i].key in xs {
      assert t[i] in multiset(u);
      PairsOfDedup(xs, t[i]);
    }
  }

  /** A value of xs is a key of the table. */
  lemma ValueCountsKeys<T>(xs: seq<T>, x: T)
    ensures HasKey(ValueCounts(xs), x) <==> x in xs
  {
    var d := Dedup(xs);
    var u := PairsOf(d, xs);
    DedupSpec(xs);
    SameKeys(u, ValueCounts(xs), x);
    if x in xs {
      var k :| 0 <= k < |d| && d[k] == x;
      assert u[k].key == x;
    }
    if HasKey(u, x) {
      var k :| 0 <= k < |u| && u[k].key == x;
      assert d[k] in d;
    }
  }

  lemma {:induction false} CountPositive<T>(xs: seq<T>, x: T)
    requires x in xs
    ensures Count(xs, x) > 0
    decreases |xs|
  {
    var p := xs[..|xs| - 1];
    if xs[|xs| - 1] != x {
      var k :| 0 <= k < |xs| && xs[k] == x;
      assert p[k] == x;
      CountPositive(p, x);
    }
  }
}
