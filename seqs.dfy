/** Generic sequence operations: the "for each element, append what it yields"
    loops of main.py, and occurrence counting. */
module Seqs {

  /** The elements each xs[i] yields, concatenated in order. */
  function FlatMap<A, B>(f: A --> seq<B>, xs: seq<A>): (ys: seq<B>)
    requires forall i :: 0 <= i < |xs| ==> f.requires(xs[i])
  {
    if xs == [] then [] else FlatMap(f, xs[..|xs| - 1]) + f(xs[|xs| - 1])
  }

  lemma FlatMapSnoc<A, B>(f: A --> seq<B>, xs: seq<A>, x: A)
    requires forall i :: 0 <= i < |xs| ==> f.requires(xs[i])
    requires f.requires(x)
    ensures forall i :: 0 <= i < |xs + [x]| ==> f.requires((xs + [x])[i])
    ensures FlatMap(f, xs + [x]) == FlatMap(f, xs) + f(x)
  {
    assert (xs + [x])[..|xs|] == xs;
  }

  /** One more step of the loop over xs. */
  lemma FlatMapPrefix<A, B>(f: A --> seq<B>, xs: seq<A>, i: nat)
    requires i < |xs| && forall k :: 0 <= k < |xs| ==> f.requires(xs[k])
    ensures FlatMap(f, xs[..i + 1]) == FlatMap(f, xs[..i]) + f(xs[i])
  {
    assert xs[..i + 1][..i] == xs[..i];
  }

  /** Elements are handled independently: the yield of a + b is the yield of
      a followed by the yield of b. */
  lemma {:induction false} FlatMapAppend<A, B>(f: A --> seq<B>, a: seq<A>, b: seq<A>)
    requires forall i :: 0 <= i < |a| ==> f.requires(a[i])
    requires forall i :: 0 <= i < |b| ==> f.requires(b[i])
    ensures forall i :: 0 <= i < |a + b| ==> f.requires((a + b)[i])
    ensures FlatMap(f, a + b) == FlatMap(f, a) + FlatMap(f, b)
    decreases |b|
  {
    if b == [] {
      assert a + b == a;
    } else {
      var b', x := b[..|b| - 1], b[|b| - 1];
      assert b == b' + [x];
      assert a + b == (a + b') + [x];
      FlatMapAppend(f, a, b');
      FlatMapSnoc(f, a + b', x);
      FlatMapSnoc(f, b', x);
    }
  }

  /** Nothing is yielded exactly when no element yields anything. */
  lemma {:induction false} FlatMapEmpty<A, B>(f: A --> seq<B>, xs: seq<A>)
    requires forall i :: 0 <= i < |xs| ==> f.requires(xs[i])
    ensures FlatMap(f, xs) == [] <==> forall i :: 0 <= i < |xs| ==> f(xs[i]) == []
    decreases |xs|
  {
    if xs != [] {
      var p := xs[..|xs| - 1];
      assert forall i :: 0 <= i < |p| ==> p[i] == xs[i];
      FlatMapEmpty(f, p);
    }
  }

  lemma FlatMapOne<A, B>(f: A --> seq<B>, x: A)
    requires f.requires(x)
    ensures FlatMap(f, [x]) == f(x)
  {
    assert [x][..0] == [];
  }

  // ---------------------------------------------------------------- counting

  /** Occurrences of x in xs. */
  function Count<T(==)>(xs: seq<T>, x: T): (n: nat)
    ensures n <= |xs|
  {
    if xs == [] then 0 else Count(xs[..|xs| - 1], x) + (if xs[|xs| - 1] == x then 1 else 0)
  }

  lemma {:induction false} CountAbsent<T>(xs: seq<T>, x: T)
    requires x !in xs
    ensures Count(xs, x) == 0
    decreases |xs|
  {
    if xs != [] {
      assert forall i :: 0 <= i < |xs| - 1 ==> xs[..|xs| - 1][i] == xs[i];
      CountAbsent(xs[..|xs| - 1], x);
    }
  }

  /** When the positions holding x are exactly lo..hi, x occurs hi - lo + 1 times. */
  lemma {:induction false} CountRange<T>(xs: seq<T>, x: T, lo: nat, hi: nat)
    requires lo <= hi < |xs|
    requires forall i :: 0 <= i < |xs| ==> (xs[i] == x <==> lo <= i <= hi)
    ensures Count(xs, x) == hi - lo + 1
    decreases |xs|
  {
    var p := xs[..|xs| - 1];
    assert forall i :: 0 <= i < |p| ==> p[i] == xs[i];
    if hi < |xs| - 1 {
      CountRange(p, x, lo, hi);
    } else if lo < hi {
      CountRange(p, x, lo, hi - 1);
    } else {
      assert x !in p by {
        forall i | 0 <= i < |p| ensures p[i] != x { assert xs[i] != x; }
      }
      CountAbsent(p, x);
    }
  }

  /** Index of the first x in xs. */
  function FirstIndex<T(==)>(xs: seq<T>, x: T): (i: nat)
    requires x in xs
    ensures i < |xs| && xs[i] == x
    ensures forall j :: 0 <= j < i ==> xs[j] != x
  {
    if xs[0] == x then 0 else 1 + FirstIndex(xs[1..], x)
  }

  /** Index of the last x in xs. */
  function LastIndex<T(==)>(xs: seq<T>, x: T): (i: nat)
    requires x in xs
    ensures i < |xs| && xs[i] == x
    ensures forall j :: i < j < |xs| ==> xs[j] != x
  {
    if xs[|xs| - 1] == x then |xs| - 1
    else
      var p := xs[..|xs| - 1];
      assert x in p by {
        var k :| 0 <= k < |xs| && xs[k] == x;
        assert p[k] == x;
      }
      LastIndex(p, x)
  }

  // ---------------------------------------------------------------- dedup

  predicate NoDups<T(==)>(xs: seq<T>) {
    forall i, j :: 0 <= i < j < |xs| ==> xs[i] != xs[j]
  }

  /** The first occurrence of every element, in order (`drop_duplicates()`). */
  function Dedup<T(==)>(xs: seq<T>): (ys: seq<T>)
    ensures |ys| <= |xs|
  {
    if xs == [] then []
    else
      var p := xs[..|xs| - 1];
      Dedup(p) + (if xs[|xs| - 1] in p then [] else [xs[|xs| - 1]])
  }

  lemma DedupSnoc<T>(xs: seq<T>, x: T)
    ensures Dedup(xs + [x]) == Dedup(xs) + (if x in xs then [] else [x])
  {
    assert (xs + [x])[..|xs|] == xs;
  }

  /** Deduplication keeps exactly the elements there are, each once. */
  lemma {:induction false} DedupSpec<T>(xs: seq<T>)
    ensures forall e :: e in Dedup(xs) <==> e in xs
    ensures NoDups(Dedup(xs))
    decreases |xs|
  {
    if xs != [] {
      var p, x := xs[..|xs| - 1], xs[|xs| - 1];
      assert xs == p + [x];
      DedupSpec(p);
      DedupSnoc(p, x);
    }
  }
}
