/** The per-author active-date index of main.py:79-83 and the grouping that
    feeds the streak analyser (main.py:88, 108): one entry per (author, date)
    pair, sorted by author and then by date. */
module Activity {
  import opened Calendar
  import opened Timestamps
  import opened Seqs
  import opened Streaks

  /** A row of df1: an author and one active date, as a day number. */
  datatype Entry = Entry(author: string, day: int)

  // ---------------------------------------------------------------- order

  /** Python's `<` on str: code point by code point, a proper prefix first. */
  predicate StrLess(a: string, b: string) {
    if a == [] then b != []
    else b != [] && (a[0] < b[0] || (a[0] == b[0] && StrLess(a[1..], b[1..])))
  }

  /** On one-character strings the order is the code point order. */
  lemma StrLessChars(c: char, d: char)
    ensures StrLess([c], [d]) <==> c < d
  {
    assert [c][1..] == [] && [d][1..] == [];
  }

  /** A proper prefix comes first. */
  lemma {:induction false} StrLessPrefix(a: string, b: string)
    requires b != []
    ensures StrLess(a, a + b)
    decreases |a|
  {
    if a != [] {
      assert (a + b)[0] == a[0] && (a + b)[1..] == a[1..] + b;
      StrLessPrefix(a[1..], b);
    }
  }

  /** Upper-case letters have smaller code points than lower-case ones. */
  lemma StrLessExample(a: string, b: string)
    requires a == "Bob" && b == "alice"
    ensures StrLess(a, b) && !StrLess(b, a)
  {
  }

  lemma {:induction false} StrLessIrreflexive(a: string)
    ensures !StrLess(a, a)
    decreases |a|
  {
    if a != [] {
      StrLessIrreflexive(a[1..]);
    }
  }

  lemma {:induction false} StrLessTransitive(a: string, b: string, c: string)
    requires StrLess(a, b) && StrLess(b, c)
    ensures StrLess(a, c)
    decreases |a|
  {
    if a != [] && a[0] == b[0] && b[0] == c[0] {
      StrLessTransitive(a[1..], b[1..], c[1..]);
    }
  }

  lemma {:induction false} StrLessTotal(a: string, b: string)
    ensures a == b || StrLess(a, b) || StrLess(b, a)
    decreases |a|
  {
    if a != [] && b != [] && a[0] == b[0] {
      StrLessTotal(a[1..], b[1..]);
      if a[1..] == b[1..] {
        assert a == [a[0]] + a[1..] && b == [b[0]] + b[1..];
      }
    }
  }

  /** `sort_values(by=['QQ', 'date'])`: by author, then by date. */
  predicate EntryLess(x: Entry, y: Entry) {
    StrLess(x.author, y.author) || (x.author == y.author && x.day < y.day)
  }

  predicate EntryLe(x: Entry, y: Entry) {
    x == y || EntryLess(x, y)
  }

  lemma EntryLessIrreflexive(x: Entry)
    ensures !EntryLess(x, x)
  {
    StrLessIrreflexive(x.author);
  }

  lemma EntryLessTransitive(x: Entry, y: Entry, z: Entry)
    requires EntryLess(x, y) && EntryLess(y, z)
    ensures EntryLess(x, z)
  {
    if StrLess(x.author, y.author) && StrLess(y.author, z.author) {
      StrLessTransitive(x.author, y.author, z.author);
    }
  }

  lemma EntryTotal(x: Entry, y: Entry)
    ensures x == y || EntryLess(x, y) || EntryLess(y, x)
  {
    StrLessTotal(x.author, y.author);
  }

  lemma EntryLeTransitive(x: Entry, y: Entry, z: Entry)
    requires EntryLe(x, y) && EntryLe(y, z)
    ensures EntryLe(x, z)
  {
    if x != y && y != z {
      EntryLessTransitive(x, y, z);
    }
  }

  predicate Sorted(xs: seq<Entry>) {
    forall i, j :: 0 <= i < j < |xs| ==> EntryLe(xs[i], xs[j])
  }

  predicate StrictlySorted(xs: seq<Entry>) {
    forall i, j :: 0 <= i < j < |xs| ==> EntryLess(xs[i], xs[j])
  }

  // ---------------------------------------------------------------- sorting

  /** x placed before the first element it does not follow. */
  function Insert(xs: seq<Entry>, x: Entry): (ys: seq<Entry>)
    ensures multiset(ys) == multiset(xs) + multiset{x}
  {
    if xs == [] then [x]
    else if EntryLe(x, xs[0]) then [x] + xs
    else
      assert xs == [xs[0]] + xs[1..];
      [xs[0]] + Insert(xs[1..], x)
  }

  lemma {:induction false} InsertSorted(xs: seq<Entry>, x: Entry)
    requires Sorted(xs)
    ensures Sorted(Insert(xs, x))
    decreases |xs|
  {
    if xs == [] {
    } else if EntryLe(x, xs[0]) {
      var ys := [x] + xs;
      forall i, j | 0 <= i < j < |ys| ensures EntryLe(ys[i], ys[j]) {
        if i == 0 && j > 1 {
          EntryLeTransitive(x, xs[0], xs[j - 1]);
        }
      }
    } else {
      EntryTotal(x, xs[0]);
      var t := xs[1..];
      InsertSorted(t, x);
      var ys := [xs[0]] + Insert(t, x);
      forall j | 0 < j < |ys| ensures EntryLe(xs[0], ys[j]) {
        var e := ys[j];
        assert e in multiset(Insert(t, x));
        if e != x {
          assert e in multiset(t);
          var k :| 0 <= k < |t| && t[k] == e;
          assert xs[k + 1] == e;
        }
      }
    }
  }

  /** Insertion sort: the elements of xs inserted one after another. */
  function SortedOf(xs: seq<Entry>): (ys: seq<Entry>)
    ensures multiset(ys) == multiset(xs)
  {
    if xs == [] then []
    else
      var p := xs[..|xs| - 1];
      assert xs == p + [xs[|xs| - 1]];
      Insert(SortedOf(p), xs[|xs| - 1])
  }

  lemma {:induction false} SortedOfSorted(xs: seq<Entry>)
    ensures Sorted(SortedOf(xs))
    decreases |xs|
  {
    if xs != [] {
      SortedOfSorted(xs[..|xs| - 1]);
      InsertSorted(SortedOf(xs[..|xs| - 1]), xs[|xs| - 1]);
    }
  }

  /** `sort_values(by=['QQ', 'date'], inplace=True)`. */
  method SortEntries(es: seq<Entry>) returns (sorted: seq<Entry>)
    ensures sorted == SortedOf(es)
    ensures Sorted(sorted) && multiset(sorted) == multiset(es)
  {
    sorted := [];
    var i := 0;
    while i < |es|
      invariant 0 <= i <= |es|
      invariant sorted == SortedOf(es[..i])
    {
      assert es[..i + 1][..i] == es[..i];
      sorted := Insert(sorted, es[i]);
      i := i + 1;
    }
    assert es[..i] == es;
    SortedOfSorted(es);
  }

  /** `drop_duplicates(subset=['QQ', 'date'])`: the first row of every pair. */
  method DropDuplicates(es: seq<Entry>) returns (kept: seq<Entry>)
    ensures kept == Dedup(es)
    ensures NoDups(kept) && forall e :: e in kept <==> e in es
  {
    kept := [];
    var i := 0;
    while i < |es|
      invariant 0 <= i <= |es|
      invariant kept == Dedup(es[..i])
    {
      DedupSpec(es[..i]);
      assert es[..i + 1] == es[..i] + [es[i]];
      DedupSnoc(es[..i], es[i]);
      if es[i] !in kept {
        kept := kept + [es[i]];
      }
      i := i + 1;
    }
    assert es[..i] == es;
    DedupSpec(es);
  }

  lemma {:induction false} InsertStrict(xs: seq<Entry>, x: Entry)
    requires StrictlySorted(xs) && x !in xs
    ensures StrictlySorted(Insert(xs, x))
    decreases |xs|
  {
    if xs == [] {
    } else if EntryLe(x, xs[0]) {
      var ys := [x] + xs;
      forall i, j | 0 <= i < j < |ys| ensures EntryLess(ys[i], ys[j]) {
        if i == 0 && j > 1 {
          EntryLessTransitive(x, xs[0], xs[j - 1]);
        }
      }
    } else {
      EntryTotal(x, xs[0]);
      var t := xs[1..];
      InsertStrict(t, x);
      assert forall k :: 0 <= k < |t| ==> t[k] == xs[k + 1];
      InsertAbove(t, x, xs[0]);
    }
  }

  /** Inserting keeps every element above a bound that x and xs are above. */
  lemma InsertAbove(xs: seq<Entry>, x: Entry, lo: Entry)
    requires EntryLess(lo, x) && forall k :: 0 <= k < |xs| ==> EntryLess(lo, xs[k])
    ensures forall j :: 0 <= j < |Insert(xs, x)| ==> EntryLess(lo, Insert(xs, x)[j])
  {
    var ys := Insert(xs, x);
    forall j | 0 <= j < |ys| ensures EntryLess(lo, ys[j]) {
      assert ys[j] in multiset(ys);
      if ys[j] != x {
        assert ys[j] in multiset(xs);
        var k :| 0 <= k < |xs| && xs[k] == ys[j];
      }
    }
  }

  /** Sorting a list without repeats orders it strictly. */
  lemma {:induction false} SortedOfStrict(xs: seq<Entry>)
    requires NoDups(xs)
    ensures StrictlySorted(SortedOf(xs))
    decreases |xs|
  {
    if xs != [] {
      var p, x := xs[..|xs| - 1], xs[|xs| - 1];
      assert NoDups(p);
      SortedOfStrict(p);
      forall k | 0 <= k < |p| ensures p[k] != x {
        assert xs[k] == p[k];
      }
      assert x !in multiset(p);
      InsertStrict(SortedOf(p), x);
    }
  }

  lemma EntryLeAntisymmetric(x: Entry, y: Entry)
    requires EntryLe(x, y) && EntryLe(y, x)
    ensures x == y
  {
    if x != y {
      EntryLessTransitive(x, y, x);
      EntryLessIrreflexive(x);
    }
  }

  /** The head of a strictly sorted list comes no later than any element. */
  lemma HeadIsLeast(a: seq<Entry>, e: Entry)
    requires StrictlySorted(a) && e in a
    ensures EntryLe(a[0], e)
  {
    var i :| 0 <= i < |a| && a[i] == e;
    if i > 0 {
      assert EntryLess(a[0], a[i]);
    }
  }

  lemma SameMembersEmpty(a: seq<Entry>, b: seq<Entry>)
    requires forall e :: e in a <==> e in b
    ensures a == [] <==> b == []
  {
    if a != [] {
      assert a[0] in b;
    }
    if b != [] {
      assert b[0] in a;
    }
  }

  lemma TailMember(a: seq<Entry>, b: seq<Entry>, e: Entry)
    requires StrictlySorted(a) && StrictlySorted(b) && a != [] && b != [] && a[0] == b[0]
    requires forall e :: e in a <==> e in b
    requires e in a[1..]
    ensures e in b[1..]
  {
    var i :| 1 <= i < |a| && a[i] == e;
    assert EntryLess(a[0], e);
    EntryLessIrreflexive(e);
    assert e in a;
    var j :| 0 <= j < |b| && b[j] == e;
    assert b[1..][j - 1] == e;
  }

  lemma SameTails(a: seq<Entry>, b: seq<Entry>)
    requires StrictlySorted(a) && StrictlySorted(b) && a != [] && b != [] && a[0] == b[0]
    requires forall e :: e in a <==> e in b
    ensures forall e :: e in a[1..] <==> e in b[1..]
  {
    forall e ensures e in a[1..] <==> e in b[1..] {
      if e in a[1..] {
        TailMember(a, b, e);
      }
      if e in b[1..] {
        TailMember(b, a, e);
      }
    }
  }

  /** A strictly sorted list is determined by its elements: whatever sort
      algorithm orders the index, the result is the same. */
  lemma {:induction false} StrictlySortedUnique(a: seq<Entry>, b: seq<Entry>)
    requires StrictlySorted(a) && StrictlySorted(b)
    requires forall e :: e in a <==> e in b
    ensures a == b
    decreases |a|
  {
    SameMembersEmpty(a, b);
    if a != [] {
      HeadIsLeast(a, b[0]);
      HeadIsLeast(b, a[0]);
      EntryLeAntisymmetric(a[0], b[0]);
      SameTails(a, b);
      StrictlySortedUnique(a[1..], b[1..]);
      assert a == [a[0]] + a[1..] && b == [b[0]] + b[1..];
    }
  }

  // ---------------------------------------------------------------- the index

  /** The (QQ, date) pair of every cleaned row, in row order. */
  function Entries(rows: seq<Row>): (es: seq<Entry>)
    requires AllValid(rows)
    ensures |es| == |rows|
    ensures forall i :: 0 <= i < |rows| ==> es[i] == Entry(rows[i].name, DayNumber(rows[i].time.date))
  {
    seq(|rows|, i requires 0 <= i < |rows| => Entry(rows[i].name, DayNumber(rows[i].time.date)))
  }

  /** df1: the distinct (author, date) pairs, sorted by author and then date. */
  function ActiveDays(rows: seq<Row>): seq<Entry>
    requires AllValid(rows)
  {
    SortedOf(Dedup(Entries(rows)))
  }

  /** Author a was active on day d: some cleaned row has that name and date. */
  predicate ActiveOn(rows: seq<Row>, a: string, d: int)
    requires AllValid(rows)
  {
    Entry(a, d) in Entries(rows)
  }

  /** Some cleaned row carries the name a. */
  predicate Wrote(rows: seq<Row>, a: string) {
    exists k :: 0 <= k < |rows| && rows[k].name == a
  }

  /** The index holds each pair of the cleaned rows once, and no other pair,
      in strictly ascending (author, date) order. */
  lemma ActiveDaysSpec(rows: seq<Row>)
    requires AllValid(rows)
    ensures StrictlySorted(ActiveDays(rows))
    ensures forall e :: e in ActiveDays(rows) <==> ActiveOn(rows, e.author, e.day)
  {
    var es := Entries(rows);
    DedupSpec(es);
    SortedOfStrict(Dedup(es));
    forall e ensures e in ActiveDays(rows) <==> ActiveOn(rows, e.author, e.day) {
      assert e in ActiveDays(rows) <==> e in multiset(Dedup(es));
    }
  }

  /** main.py:79-83: deduplicate the (QQ, date) pairs, then sort them. */
  method ActiveIndex(rows: seq<Row>) returns (index: seq<Entry>)
    requires AllValid(rows)
    ensures index == ActiveDays(rows)
  {
    var es: seq<Entry> := [];
    var i := 0;
    while i < |rows|
      invariant 0 <= i <= |rows|
      invariant es == Entries(rows[..i])
    {
      es := es + [Entry(rows[i].name, DayNumber(rows[i].time.date))];
      i := i + 1;
    }
    assert rows[..i] == rows;
    var kept := DropDuplicates(es);
    index := SortEntries(kept);
  }

  /** Keying the index on day numbers instead of dates merges exactly the
      rows with the same author and the same calendar date. */
  lemma EntriesKeyDates(rows: seq<Row>, i: nat, j: nat)
    requires AllValid(rows) && i < |rows| && j < |rows|
    ensures Entries(rows)[i] == Entries(rows)[j] <==>
      rows[i].name == rows[j].name && rows[i].time.date == rows[j].time.date
  {
    if DayNumber(rows[i].time.date) == DayNumber(rows[j].time.date) {
      DayNumberInjective(rows[i].time.date, rows[j].time.date);
    }
  }

  // ---------------------------------------------------------------- grouping

  predicate StrLe(a: string, b: string) {
    a == b || StrLess(a, b)
  }

  /** The QQ column of the index. */
  function AuthorColumn(index: seq<Entry>): (col: seq<string>)
    ensures |col| == |index| && forall i :: 0 <= i < |index| ==> col[i] == index[i].author
  {
    seq(|index|, i requires 0 <= i < |index| => index[i].author)
  }

  /** The group keys of `groupby(level=0)`, each author once. */
  function Authors(index: seq<Entry>): (authors: seq<string>)
    ensures NoDups(authors)
    ensures forall a :: a in authors <==> exists i :: 0 <= i < |index| && index[i].author == a
  {
    AuthorsDedup(index);
    Dedup(AuthorColumn(index))
  }

  lemma AuthorsDedup(index: seq<Entry>)
    ensures NoDups(Dedup(AuthorColumn(index)))
    ensures forall a :: a in Dedup(AuthorColumn(index)) <==> exists i :: 0 <= i < |index| && index[i].author == a
  {
    var col := AuthorColumn(index);
    DedupSpec(col);
    forall a | a in col ensures exists i :: 0 <= i < |index| && index[i].author == a {
      var i :| 0 <= i < |col| && col[i] == a;
    }
  }

  /** A non-decreasing column, deduplicated, is strictly ascending. */
  lemma {:induction false} DedupAscending(col: seq<string>)
    requires forall i, j :: 0 <= i < j < |col| ==> StrLe(col[i], col[j])
    ensures forall i, j :: 0 <= i < j < |Dedup(col)| ==> StrLess(Dedup(col)[i], Dedup(col)[j])
    decreases |col|
  {
    if col != [] {
      var p, x := col[..|col| - 1], col[|col| - 1];
      assert col == p + [x];
      DedupAscending(p);
      DedupSnoc(p, x);
      DedupSpec(p);
      if x !in p {
        forall i | 0 <= i < |Dedup(p)| ensures StrLess(Dedup(p)[i], x) {
          assert Dedup(p)[i] in Dedup(p);
          var k :| 0 <= k < |p| && p[k] == Dedup(p)[i];
          assert StrLe(col[k], col[|col| - 1]);
        }
      }
    }
  }

  /** The groups come out in ascending author order, as groupby sorts its keys. */
  lemma AuthorsAscending(index: seq<Entry>)
    requires Sorted(index)
    ensures forall i, j :: 0 <= i < j < |Authors(index)| ==> StrLess(Authors(index)[i], Authors(index)[j])
  {
    var col := AuthorColumn(index);
    forall i, j | 0 <= i < j < |col| ensures StrLe(col[i], col[j]) {
      assert EntryLe(index[i], index[j]);
    }
    DedupAscending(col);
  }

  /** One group: the dates of author a, in index order. */
  function DaysOf(index: seq<Entry>, a: string): (ds: seq<int>)
    ensures |ds| <= |index|
  {
    if index == [] then []
    else
      var p, e := index[..|index| - 1], index[|index| - 1];
      DaysOf(p, a) + (if e.author == a then [e.day] else [])
  }

  lemma {:induction false} DaysOfMembers(index: seq<Entry>, a: string)
    ensures forall d :: d in DaysOf(index, a) <==> Entry(a, d) in index
    decreases |index|
  {
    if index != [] {
      var p, e := index[..|index| - 1], index[|index| - 1];
      assert index == p + [e];
      DaysOfMembers(p, a);
    }
  }

  /** Within a strictly sorted index every group's dates strictly ascend. */
  lemma {:induction false} DaysOfAscending(index: seq<Entry>, a: string)
    requires StrictlySorted(index)
    ensures forall i, j :: 0 <= i < j < |DaysOf(index, a)| ==> DaysOf(index, a)[i] < DaysOf(index, a)[j]
    decreases |index|
  {
    if index != [] {
      var p, e := index[..|index| - 1], index[|index| - 1];
      assert index == p + [e];
      assert StrictlySorted(p);
      DaysOfAscending(p, a);
      DaysOfMembers(p, a);
      if e.author == a {
        forall i | 0 <= i < |DaysOf(p, a)| ensures DaysOf(p, a)[i] < e.day {
          var d := DaysOf(p, a)[i];
          assert Entry(a, d) in p;
          var k :| 0 <= k < |p| && p[k] == Entry(a, d);
          assert EntryLess(index[k], index[|index| - 1]);
          StrLessIrreflexive(a);
        }
      }
    }
  }

  datatype AuthorStreak = AuthorStreak(author: string, streak: Streak)

  /** main.py:108: `calculate_consecutive_days` applied to every group. */
  function StreakTable(index: seq<Entry>): (table: seq<AuthorStreak>)
    ensures |table| == |Authors(index)|
    ensures forall i :: 0 <= i < |table| ==> table[i].author == Authors(index)[i]
  {
    var authors := Authors(index);
    seq(|authors|, i requires 0 <= i < |authors| => AuthorStreak(authors[i], LongestStreak(DaysOf(index, authors[i]))))
  }

  /** Every group of a strictly sorted index is non-empty, strictly
      ascending, and holds exactly the days its author appears with. */
  lemma GroupSpec(index: seq<Entry>, a: string)
    requires StrictlySorted(index) && a in Authors(index)
    ensures DaysOf(index, a) != []
    ensures forall j, k :: 0 <= j < k < |DaysOf(index, a)| ==> DaysOf(index, a)[j] < DaysOf(index, a)[k]
    ensures forall d :: d in DaysOf(index, a) <==> Entry(a, d) in index
  {
    DaysOfMembers(index, a);
    DaysOfAscending(index, a);
    var m :| 0 <= m < |index| && index[m].author == a;
    assert index[m] == Entry(a, index[m].day);
    assert index[m].day in DaysOf(index, a);
  }

  lemma AuthorsOfSameMembers(index: seq<Entry>, es: seq<Entry>, a: string)
    requires forall e :: e in index <==> e in es
    ensures a in Authors(index) <==> exists k :: 0 <= k < |es| && es[k].author == a
  {
    if exists k :: 0 <= k < |es| && es[k].author == a {
      var k :| 0 <= k < |es| && es[k].author == a;
      assert es[k] in index;
      var m :| 0 <= m < |index| && index[m] == es[k];
    }
    if a in Authors(index) {
      var m :| 0 <= m < |index| && index[m].author == a;
      assert index[m] in es;
      var k :| 0 <= k < |es| && es[k] == index[m];
    }
  }

  /** The table for the index of the cleaned rows has one line per author
      of a cleaned row, in strictly ascending author order. */
  lemma StreakTableAuthors(rows: seq<Row>)
    requires AllValid(rows)
    ensures forall a :: a in Authors(ActiveDays(rows)) <==> Wrote(rows, a)
    ensures var table := StreakTable(ActiveDays(rows));
      forall i, j :: 0 <= i < j < |table| ==> StrLess(table[i].author, table[j].author)
  {
    var index := ActiveDays(rows);
    var es := Entries(rows);
    ActiveDaysSpec(rows);
    assert forall e :: e in index <==> e in es;
    AuthorsAscending(index);
    forall a ensures a in Authors(index) <==> Wrote(rows, a) {
      AuthorsOfSameMembers(index, es, a);
    }
  }

  /** Each line holds the longest streak of its author's distinct active
      dates, which are non-empty and strictly ascending, so the empty-group
      case of `calculate_consecutive_days` is never reached. */
  lemma StreakTableRow(rows: seq<Row>, i: nat)
    requires AllValid(rows) && i < |StreakTable(ActiveDays(rows))|
    ensures var line := StreakTable(ActiveDays(rows))[i];
      var ds := DaysOf(ActiveDays(rows), line.author);
      && ds != []
      && (forall j, k :: 0 <= j < k < |ds| ==> ds[j] < ds[k])
      && (forall d :: d in ds <==> ActiveOn(rows, line.author, d))
      && line.streak == LongestStreak(ds)
      && 1 <= line.streak.days <= |ds|
  {
    var index := ActiveDays(rows);
    ActiveDaysSpec(rows);
    var a := Authors(index)[i];
    GroupSpec(index, a);
    StreakBounds(DaysOf(index, a));
  }
}
