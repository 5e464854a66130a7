/** The word-frequency stage of main.py:112-127: the chat contents joined into
    one corpus, the image and emoji placeholders removed, the corpus cut into
    tokens by a word segmenter, the tokens filtered and then counted. */
module Vocabulary {
  import opened Text
  import opened Seqs
  import opened Calendar
  import opened Timestamps
  import opened Tally

  const Separator: char := '。'
  const ImageMark: string := "[Image]"
  const EmojiMark: string := "[Emoji]"

  // ---------------------------------------------------------------- corpus

  /** The content column, in row order. */
  function Contents(rows: seq<Row>): (cs: seq<string>)
    ensures |cs| == |rows| && forall i :: 0 <= i < |rows| ==> cs[i] == rows[i].content
  {
    seq(|rows|, i requires 0 <= i < |rows| => rows[i].content)
  }

  /** `str.cat(sep='。')` followed by the two `replace(…, '')` calls. */
  function Corpus(contents: seq<string>): string {
    RemoveAll(RemoveAll(JoinWith(contents, Separator), ImageMark), EmojiMark)
  }

  /** A character that cannot start pat is kept. */
  lemma RemoveAllStep(s: string, pat: string)
    requires pat != [] && s != [] && s[0] != pat[0]
    ensures RemoveAll(s, pat) == [s[0]] + RemoveAll(s[1..], pat)
  {
    if |s| >= |pat| {
      assert s[..|pat|][0] == s[0];
    }
  }

  /** A text in which pat's first character never appears is passed over
      unchanged, and removal carries on after it. */
  lemma {:induction false} RemoveAllSkip(a: string, rest: string, pat: string)
    requires pat != [] && pat[0] !in a
    ensures RemoveAll(a + rest, pat) == a + RemoveAll(rest, pat)
    decreases |a|
  {
    if a != [] {
      var s := a + rest;
      RemoveAllStep(s, pat);
      assert s[1..] == a[1..] + rest;
      RemoveAllSkip(a[1..], rest, pat);
      assert a == [a[0]] + a[1..];
    } else {
      assert a + rest == rest;
    }
  }

  /** A placeholder is cut out and the text around it is kept. */
  lemma RemoveAllMark(a: string, b: string, pat: string)
    requires pat != [] && pat[0] !in a
    ensures RemoveAll(a + pat + b, pat) == a + RemoveAll(b, pat)
  {
    assert a + pat + b == a + (pat + b);
    RemoveAllSkip(a, pat + b, pat);
    assert (pat + b)[..|pat|] == pat && (pat + b)[|pat|..] == b;
  }

  /** A text without pat's first character has no occurrence of pat. */
  lemma NoOccurrence(s: string, pat: string)
    requires pat != [] && pat[0] !in s
    ensures forall i :: 0 <= i < |s| ==> !OccursAt(pat, s, i)
  {
    forall i | 0 <= i < |s| ensures !OccursAt(pat, s, i) {
      if i + |pat| <= |s| {
        assert s[i..i + |pat|][0] == s[i];
      }
    }
  }

  lemma {:induction false} JoinWithFree(xs: seq<string>, sep: char, c: char)
    requires c != sep && forall k :: 0 <= k < |xs| ==> c !in xs[k]
    ensures c !in JoinWith(xs, sep)
    decreases |xs|
  {
    if |xs| > 1 {
      JoinWithFree(xs[1..], sep, c);
    }
  }

  /** Contents without '[' carry no placeholder: the corpus is their join. */
  lemma CorpusPlain(contents: seq<string>)
    requires forall k :: 0 <= k < |contents| ==> '[' !in contents[k]
    ensures Corpus(contents) == JoinWith(contents, Separator)
  {
    var s := JoinWith(contents, Separator);
    JoinWithFree(contents, Separator, '[');
    NoOccurrence(s, ImageMark);
    RemoveAllAbsent(s, ImageMark);
    NoOccurrence(s, EmojiMark);
    RemoveAllAbsent(s, EmojiMark);
  }

  /** ... and then splitting the corpus at '。' gives the contents back. */
  lemma CorpusSplits(contents: seq<string>)
    requires |contents| >= 1
    requires forall k :: 0 <= k < |contents| ==> '[' !in contents[k] && Separator !in contents[k]
    ensures SplitOn(Corpus(contents), Separator) == contents
  {
    CorpusPlain(contents);
    SplitOnJoin(contents, Separator);
  }

  // ---------------------------------------------------------------- filter

  /** `re.search(r'\d', word)` finds a match. */
  predicate HasDigit(w: string) {
    exists i :: 0 <= i < |w| && IsDigit(w[i])
  }

  /** The condition of the list comprehension at main.py:122-126. */
  predicate Keep(stops: seq<string>, names: set<string>, w: string) {
    && w !in stops
    && |w| > 1
    && !HasDigit(w)
    && w !in names
  }

  /** The comprehension itself: the tokens that pass, in their order. */
  function FilterTokens(ws: seq<string>, stops: seq<string>, names: set<string>): (kept: seq<string>)
    ensures |kept| <= |ws|
  {
    if ws == [] then []
    else
      var p, w := ws[..|ws| - 1], ws[|ws| - 1];
      FilterTokens(p, stops, names) + (if Keep(stops, names, w) then [w] else [])
  }

  /** pos picks xs out of ys at strictly increasing positions. */
  predicate Embeds(pos: seq<nat>, xs: seq<string>, ys: seq<string>) {
    && |pos| == |xs|
    && (forall k :: 0 <= k < |pos| ==> pos[k] < |ys| && xs[k] == ys[pos[k]])
    && (forall j, k :: 0 <= j < k < |pos| ==> pos[j] < pos[k])
  }

  /** pos records which tokens of ws pass. */
  predicate KeptAt(pos: seq<nat>, ws: seq<string>, stops: seq<string>, names: set<string>) {
    forall i :: 0 <= i < |ws| ==> (i in pos <==> Keep(stops, names, ws[i]))
  }

  lemma FilterSnoc(p: seq<string>, w: string, stops: seq<string>, names: set<string>)
    ensures FilterTokens(p + [w], stops, names) == FilterTokens(p, stops, names) + (if Keep(stops, names, w) then [w] else [])
  {
    assert (p + [w])[..|p|] == p;
  }

  lemma EmbedsSnoc(pos: seq<nat>, xs: seq<string>, ys: seq<string>, w: string)
    requires Embeds(pos, xs, ys)
    ensures Embeds(pos + [|ys|], xs + [w], ys + [w])
    ensures Embeds(pos, xs, ys + [w])
  {
  }

  lemma KeptSnoc(pos: seq<nat>, p: seq<string>, w: string, stops: seq<string>, names: set<string>)
    requires KeptAt(pos, p, stops, names) && forall k :: 0 <= k < |pos| ==> pos[k] < |p|
    ensures var pos' := if Keep(stops, names, w) then pos + [|p|] else pos;
      KeptAt(pos', p + [w], stops, names)
  {
    var ws := p + [w];
    var pos' := if Keep(stops, names, w) then pos + [|p|] else pos;
    forall i | 0 <= i < |ws| ensures i in pos' <==> Keep(stops, names, ws[i]) {
      if i < |p| {
        assert ws[i] == p[i];
        assert i in pos' <==> i in pos;
      }
    }
  }

  lemma FilterStep(pos: seq<nat>, p: seq<string>, w: string, stops: seq<string>, names: set<string>)
    requires Embeds(pos, FilterTokens(p, stops, names), p) && KeptAt(pos, p, stops, names)
    ensures var pos' := if Keep(stops, names, w) then pos + [|p|] else pos;
      Embeds(pos', FilterTokens(p + [w], stops, names), p + [w]) && KeptAt(pos', p + [w], stops, names)
  {
    FilterSnoc(p, w, stops, names);
    EmbedsSnoc(pos, FilterTokens(p, stops, names), p, w);
    KeptSnoc(pos, p, w, stops, names);
    if !Keep(stops, names, w) {
      assert FilterTokens(p, stops, names) + [] == FilterTokens(p, stops, names);
    }
  }

  /** The kept tokens are the tokens at exactly the positions whose token
      passes, in their original order. */
  lemma {:induction false} FilterIsSubsequence(ws: seq<string>, stops: seq<string>, names: set<string>)
    ensures exists pos: seq<nat> :: (Embeds(pos, FilterTokens(ws, stops, names), ws) && KeptAt(pos, ws, stops, names))
    decreases |ws|
  {
    if ws == [] {
      var none: seq<nat> := [];
      assert Embeds(none, FilterTokens(ws, stops, names), ws) && KeptAt(none, ws, stops, names);
    } else {
      var p, w := ws[..|ws| - 1], ws[|ws| - 1];
      assert ws == p + [w];
      FilterIsSubsequence(p, stops, names);
      var pos: seq<nat> :| Embeds(pos, FilterTokens(p, stops, names), p) && KeptAt(pos, p, stops, names);
      FilterStep(pos, p, w, stops, names);
      var pos': seq<nat> := if Keep(stops, names, w) then pos + [|p|] else pos;
      assert Embeds(pos', FilterTokens(ws, stops, names), ws) && KeptAt(pos', ws, stops, names);
    }
  }

  /** A token is kept as often as it occurs if it passes, and never otherwise. */
  lemma {:induction false} FilterCount(ws: seq<string>, stops: seq<string>, names: set<string>, w: string)
    ensures Count(FilterTokens(ws, stops, names), w) == if Keep(stops, names, w) then Count(ws, w) else 0
    decreases |ws|
  {
    if ws != [] {
      var p, x := ws[..|ws| - 1], ws[|ws| - 1];
      FilterCount(p, stops, names, w);
      CountSnoc(FilterTokens(p, stops, names), x, w);
      if !Keep(stops, names, x) {
        assert FilterTokens(ws, stops, names) == FilterTokens(p, stops, names) + [];
        assert FilterTokens(p, stops, names) + [] == FilterTokens(p, stops, names);
      }
    }
  }

  /** Every kept token passes all four tests. */
  lemma {:induction false} FilterKeeps(ws: seq<string>, stops: seq<string>, names: set<string>)
    ensures forall k :: 0 <= k < |FilterTokens(ws, stops, names)| ==> Keep(stops, names, FilterTokens(ws, stops, names)[k])
    decreases |ws|
  {
    if ws != [] {
      FilterKeeps(ws[..|ws| - 1], stops, names);
    }
  }

  /** Filtering works token by token: it distributes over concatenation. */
  lemma {:induction false} FilterAppend(a: seq<string>, b: seq<string>, stops: seq<string>, names: set<string>)
    ensures FilterTokens(a + b, stops, names) == FilterTokens(a, stops, names) + FilterTokens(b, stops, names)
    decreases |b|
  {
    if b != [] {
      var q, y := b[..|b| - 1], b[|b| - 1];
      assert a + b == (a + q) + [y];
      assert (a + b)[..|a + b| - 1] == a + q;
      FilterAppend(a, q, stops, names);
    } else {
      assert a + b == a;
    }
  }

  // ---------------------------------------------------------------- counting

  /** `set(df['name'].unique())`. */
  function Names(rows: seq<Row>): (names: set<string>)
    ensures forall a :: a in names <==> exists i :: 0 <= i < |rows| && rows[i].name == a
  {
    set i | 0 <= i < |rows| :: rows[i].name
  }

  /** `stopword.splitlines()`. */
  function StopList(stopText: string): seq<string> {
    SplitLines(stopText)
  }

  /** The kept tokens of the whole chat, cut by the given segmenter. */
  function Words(rows: seq<Row>, stopText: string, segment: string -> seq<string>): seq<string> {
    FilterTokens(segment(Corpus(Contents(rows))), StopList(stopText), Names(rows))
  }

  /** `pd.Series(words).value_counts()`. */
  function WordCounts(rows: seq<Row>, stopText: string, segment: string -> seq<string>): seq<Pair<string>> {
    ValueCounts(Words(rows, stopText, segment))
  }

  /** The frequency table lists, most frequent first, each token of the
      segmented corpus that passes the four tests, once, with the number of
      times the segmenter produced it; its counts add up to the number of
      kept tokens. */
  lemma WordCountsSpec(rows: seq<Row>, stopText: string, segment: string -> seq<string>)
    ensures var tokens := segment(Corpus(Contents(rows)));
      var t := WordCounts(rows, stopText, segment);
      && Descending(t)
      && DistinctKeys(t)
      && (forall i :: 0 <= i < |t| ==>
            && Keep(StopList(stopText), Names(rows), t[i].key)
            && t[i].key in tokens
            && t[i].count == Count(tokens, t[i].key))
      && Total(t) == |Words(rows, stopText, segment)|
  {
    var tokens := segment(Corpus(Contents(rows)));
    var stops, names := StopList(stopText), Names(rows);
    var ws := Words(rows, stopText, segment);
    var t := WordCounts(rows, stopText, segment);
    ValueCountsSpec(ws);
    FilterKeeps(tokens, stops, names);
    forall i | 0 <= i < |t|
      ensures Keep(stops, names, t[i].key) && t[i].key in tokens && t[i].count == Count(tokens, t[i].key)
    {
      var k :| 0 <= k < |ws| && ws[k] == t[i].key;
      FilterCount(tokens, stops, names, t[i].key);
      CountPositive(ws, t[i].key);
      if t[i].key !in tokens {
        CountAbsent(tokens, t[i].key);
      }
    }
  }

  /** A token is in the table exactly when the segmenter produced it and it
      passes the four tests. */
  lemma WordCountsKeys(rows: seq<Row>, stopText: string, segment: string -> seq<string>, w: string)
    ensures HasKey(WordCounts(rows, stopText, segment), w) <==>
      w in segment(Corpus(Contents(rows))) && Keep(StopList(stopText), Names(rows), w)
  {
    var tokens := segment(Corpus(Contents(rows)));
    var stops, names := StopList(stopText), Names(rows);
    var ws := Words(rows, stopText, segment);
    ValueCountsKeys(ws, w);
    FilterCount(tokens, stops, names, w);
    if w in ws {
      CountPositive(ws, w);
      if w !in tokens {
        CountAbsent(tokens, w);
      }
    } else {
      CountAbsent(ws, w);
      if w in tokens {
        CountPositive(tokens, w);
      }
    }
  }
}
