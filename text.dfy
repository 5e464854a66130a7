/** The Python string primitives main.py relies on, written out on `seq<char>`:
    the whitespace class (str.isspace, which is also what `\s`, str.strip() and
    str.split() use), the line boundaries of str.splitlines(), str.strip(),
    str.split(), str.splitlines(), str.join, str.split(sep), str.replace(pat, '')
    and the one-tag strip `re.sub(r'^【[^】]*】', '', s)`. */
module Text {

  /** Python's str.isspace(). */
  predicate IsSpace(c: char) {
    || c == ' '
    || ('\t' <= c <= '\r')
    || ('\U{1C}' <= c <= '\U{1F}')
    || c == '\U{85}' || c == '\U{A0}' || c == '\U{1680}'
    || ('\U{2000}' <= c <= '\U{200A}')
    || c == '\U{2028}' || c == '\U{2029}' || c == '\U{202F}' || c == '\U{205F}' || c == '\U{3000}'
  }

  /** The line boundaries recognised by str.splitlines(). */
  predicate IsLineBreak(c: char) {
    || c == '\n' || c == '\r' || c == '\U{B}' || c == '\U{C}'
    || ('\U{1C}' <= c <= '\U{1E}')
    || c == '\U{85}' || c == '\U{2028}' || c == '\U{2029}'
  }

  /** ASCII decimal digit. */
  predicate IsDigit(c: char) {
    '0' <= c <= '9'
  }

  predicate AllDigits(s: string) {
    forall k :: 0 <= k < |s| ==> IsDigit(s[k])
  }

  predicate AllSpace(s: string) {
    forall i :: 0 <= i < |s| ==> IsSpace(s[i])
  }

  predicate NoSpace(s: string) {
    forall i :: 0 <= i < |s| ==> !IsSpace(s[i])
  }

  predicate NoLineBreak(s: string) {
    forall i :: 0 <= i < |s| ==> !IsLineBreak(s[i])
  }

  // ---------------------------------------------------------------- strip

  /** Every character before position i is whitespace. */
  predicate SpaceBefore(s: string, i: nat)
    requires i <= |s|
  {
    forall k :: 0 <= k < i ==> IsSpace(s[k])
  }

  /** Every character from position j on is whitespace. */
  predicate SpaceFrom(s: string, j: nat)
    requires j <= |s|
  {
    forall k :: j <= k < |s| ==> IsSpace(s[k])
  }

  /** Neither end of r is whitespace. */
  predicate IsTrimmed(r: string) {
    r == [] || (!IsSpace(r[0]) && !IsSpace(r[|r| - 1]))
  }

  /** s[i..j] is what is left once a whitespace-only prefix and suffix are cut
      off, and it has no whitespace at either end. */
  predicate IsCut(s: string, i: nat, j: nat) {
    i <= j <= |s| && SpaceBefore(s, i) && SpaceFrom(s, j) && IsTrimmed(s[i..j])
  }

  /** What str.strip() promises: r is a cut of s. */
  ghost predicate StripsTo(s: string, r: string) {
    exists i: nat, j: nat :: IsCut(s, i, j) && r == s[i..j]
  }

  /** str.strip() with no argument: drop whitespace from the front, then from the back. */
  function Strip(s: string): string
    decreases |s|
  {
    if s == [] then []
    else if IsSpace(s[0]) then Strip(s[1..])
    else if IsSpace(s[|s| - 1]) then Strip(s[..|s| - 1])
    else s
  }

  /** A cut of s past a leading whitespace character is a cut of s. */
  lemma CutFront(s: string, i: nat, j: nat)
    requires s != [] && IsSpace(s[0]) && IsCut(s[1..], i, j)
    ensures IsCut(s, i + 1, j + 1) && s[1..][i..j] == s[i + 1..j + 1]
  {
    var t := s[1..];
    forall k | 0 <= k < i + 1 ensures IsSpace(s[k]) {
      if k > 0 { assert s[k] == t[k - 1]; }
    }
    forall k | j + 1 <= k < |s| ensures IsSpace(s[k]) {
      assert s[k] == t[k - 1];
    }
  }

  /** A cut of s short of a trailing whitespace character is a cut of s. */
  lemma CutBack(s: string, i: nat, j: nat)
    requires s != [] && IsSpace(s[|s| - 1]) && IsCut(s[..|s| - 1], i, j)
    ensures IsCut(s, i, j) && s[..|s| - 1][i..j] == s[i..j]
  {
    var t := s[..|s| - 1];
    forall k | 0 <= k < i ensures IsSpace(s[k]) {
      assert s[k] == t[k];
    }
    forall k | j <= k < |s| ensures IsSpace(s[k]) {
      if k < |s| - 1 { assert s[k] == t[k]; }
    }
  }

  /** Strip does what str.strip() promises. */
  lemma {:induction false} StripMeetsSpec(s: string)
    ensures StripsTo(s, Strip(s))
    decreases |s|
  {
    if s == [] {
      assert IsCut(s, 0, 0) && Strip(s) == s[0..0];
    } else if IsSpace(s[0]) {
      StripMeetsSpec(s[1..]);
      var i: nat, j: nat :| IsCut(s[1..], i, j) && Strip(s[1..]) == s[1..][i..j];
      CutFront(s, i, j);
    } else if IsSpace(s[|s| - 1]) {
      StripMeetsSpec(s[..|s| - 1]);
      var i: nat, j: nat :| IsCut(s[..|s| - 1], i, j) && Strip(s[..|s| - 1]) == s[..|s| - 1][i..j];
      CutBack(s, i, j);
    } else {
      assert IsCut(s, 0, |s|) && Strip(s) == s[0..|s|];
    }
  }

  /** A non-empty cut lies inside every other cut. */
  lemma CutInside(s: string, i: nat, j: nat, i': nat, j': nat)
    requires IsCut(s, i, j) && IsCut(s, i', j') && i < j
    ensures i' <= i && j <= j'
  {
    assert s[i..j][0] == s[i] && s[i..j][j - i - 1] == s[j - 1];
  }

  /** The description in StripsTo determines the result: it is exactly str.strip(). */
  lemma StripUnique(s: string, r1: string, r2: string)
    requires StripsTo(s, r1) && StripsTo(s, r2)
    ensures r1 == r2
  {
    var i1: nat, j1: nat :| IsCut(s, i1, j1) && r1 == s[i1..j1];
    var i2: nat, j2: nat :| IsCut(s, i2, j2) && r2 == s[i2..j2];
    if i1 < j1 {
      CutInside(s, i1, j1, i2, j2);
    }
    if i2 < j2 {
      CutInside(s, i2, j2, i1, j1);
    }
  }

  /** A trimmed string is its own strip. */
  lemma StripOfTrimmed(r: string)
    requires IsTrimmed(r)
    ensures Strip(r) == r
  {
  }

  lemma StripIdempotent(s: string)
    ensures Strip(Strip(s)) == Strip(s)
  {
    StripMeetsSpec(s);
    StripOfTrimmed(Strip(s));
  }

  /** Stripping leaves nothing exactly when the text is whitespace only. */
  lemma StripEmpty(s: string)
    ensures Strip(s) == [] <==> AllSpace(s)
  {
    StripMeetsSpec(s);
    var i: nat, j: nat :| IsCut(s, i, j) && Strip(s) == s[i..j];
    if i < j {
      assert s[i..j][0] == s[i];
    } else {
      forall k | 0 <= k < |s| ensures IsSpace(s[k]) {
        assert k < i || j <= k;
      }
    }
  }

  // ---------------------------------------------------------------- split()

  function WordLength(s: string): (n: nat)
    ensures n <= |s| && NoSpace(s[..n])
    ensures n < |s| ==> IsSpace(s[n])
  {
    if s == [] || IsSpace(s[0]) then 0 else 1 + WordLength(s[1..])
  }

  /** str.split() with no argument: the maximal whitespace-free runs, in order. */
  function Words(s: string): (ws: seq<string>)
    ensures forall k :: 0 <= k < |ws| ==> ws[k] != [] && NoSpace(ws[k])
    decreases |s|
  {
    if s == [] then []
    else if IsSpace(s[0]) then Words(s[1..])
    else
      var n := WordLength(s);
      [s[..n]] + Words(s[n..])
  }

  /** `sep.join(xs)` for a one-character separator. */
  function JoinWith(xs: seq<string>, sep: char): string {
    if |xs| == 0 then []
    else if |xs| == 1 then xs[0]
    else xs[0] + [sep] + JoinWith(xs[1..], sep)
  }

  lemma JoinThree(a: string, b: string, c: string, sep: char)
    ensures JoinWith([a, b, c], sep) == a + [sep] + b + [sep] + c
  {
    var ws := [a, b, c];
    assert ws[1..] == [b, c] && ws[1..][1..] == [c];
    assert JoinWith([b, c], sep) == b + [sep] + JoinWith([c], sep);
  }

  lemma {:induction false} WordLengthOfWord(w: string, rest: string)
    requires NoSpace(w)
    requires rest == [] || IsSpace(rest[0])
    ensures WordLength(w + rest) == |w|
    decreases |w|
  {
    if w != [] {
      assert (w + rest)[1..] == w[1..] + rest;
      WordLengthOfWord(w[1..], rest);
    }
  }

  /** split() undoes ' '.join on non-empty whitespace-free tokens. */
  lemma {:induction false} WordsOfJoined(ws: seq<string>)
    requires forall k :: 0 <= k < |ws| ==> ws[k] != [] && NoSpace(ws[k])
    ensures Words(JoinWith(ws, ' ')) == ws
    decreases |ws|
  {
    if |ws| == 1 {
      WordLengthOfWord(ws[0], []);
      assert ws[0] + [] == ws[0];
      assert ws[0][|ws[0]|..] == [];
    } else if |ws| > 1 {
      var w, tail := ws[0], JoinWith(ws[1..], ' ');
      var s := w + [' '] + tail;
      assert s == w + ([' '] + tail);
      WordLengthOfWord(w, [' '] + tail);
      assert s[..|w|] == w;
      assert s[|w|..] == [' '] + tail;
      assert ([' '] + tail)[1..] == tail;
      WordsOfJoined(ws[1..]);
    }
  }

  // ---------------------------------------------------------------- splitlines()

  function LineLength(s: string): (n: nat)
    ensures n <= |s| && NoLineBreak(s[..n])
    ensures n < |s| ==> IsLineBreak(s[n])
  {
    if s == [] || IsLineBreak(s[0]) then 0 else 1 + LineLength(s[1..])
  }

  /** Width of the line boundary at s[n]: two for "\r\n", one otherwise. */
  function BreakWidth(s: string, n: nat): (w: nat)
    requires n < |s|
    ensures 1 <= w && n + w <= |s|
  {
    if s[n] == '\r' && n + 1 < |s| && s[n + 1] == '\n' then 2 else 1
  }

  /** The first line of s, without its line boundary. */
  function FirstLine(s: string): string {
    s[..LineLength(s)]
  }

  /** Everything after the first line boundary ([] when there is none). */
  function AfterFirstLine(s: string): string {
    var n := LineLength(s);
    if n == |s| then [] else s[n + BreakWidth(s, n)..]
  }

  /** str.splitlines(): the lines without their boundaries; a final boundary
      does not open an empty last line. */
  function SplitLines(s: string): (lines: seq<string>)
    ensures forall k :: 0 <= k < |lines| ==> NoLineBreak(lines[k])
    ensures lines == [] <==> s == []
    ensures lines != [] ==> lines[0] == FirstLine(s) && lines[1..] == SplitLines(AfterFirstLine(s))
    decreases |s|
  {
    if s == [] then []
    else
      var n := LineLength(s);
      if n == |s| then [s]
      else [s[..n]] + SplitLines(s[n + BreakWidth(s, n)..])
  }

  /** ''.join(xs). */
  function Concat(xs: seq<string>): string {
    if xs == [] then [] else xs[0] + Concat(xs[1..])
  }

  /** s with every line-boundary character removed. */
  function DropLineBreaks(s: string): string {
    if s == [] then [] else (if IsLineBreak(s[0]) then [] else [s[0]]) + DropLineBreaks(s[1..])
  }

  lemma {:induction false} DropLineBreaksAppend(a: string, b: string)
    ensures DropLineBreaks(a + b) == DropLineBreaks(a) + DropLineBreaks(b)
    decreases |a|
  {
    if a != [] {
      assert (a + b)[1..] == a[1..] + b;
      DropLineBreaksAppend(a[1..], b);
    } else {
      assert a + b == b;
    }
  }

  lemma {:induction false} DropLineBreaksClean(a: string)
    requires NoLineBreak(a)
    ensures DropLineBreaks(a) == a
    decreases |a|
  {
    if a != [] {
      DropLineBreaksClean(a[1..]);
      assert a == [a[0]] + a[1..];
    }
  }

  lemma ConcatCons(x: string, xs: seq<string>)
    ensures Concat([x] + xs) == x + Concat(xs)
  {
    assert ([x] + xs)[1..] == xs;
  }

  /** A line boundary (one "\r\n" pair or one boundary character) leaves nothing behind. */
  lemma DropBreak(s: string, n: nat)
    requires n < |s| && IsLineBreak(s[n])
    ensures DropLineBreaks(s[n..n + BreakWidth(s, n)]) == []
  {
    var b := s[n..n + BreakWidth(s, n)];
    assert b[0] == s[n];
    if BreakWidth(s, n) == 2 {
      assert b[1..] == [s[n + 1]];
      assert DropLineBreaks(b[1..]) == [] by { assert b[1..][1..] == []; }
    } else {
      assert b[1..] == [];
    }
  }

  /** ''.join(s.splitlines()) deletes exactly the line boundaries of s. */
  lemma {:induction false} ConcatSplitLines(s: string)
    ensures Concat(SplitLines(s)) == DropLineBreaks(s)
    decreases |s|
  {
    if s != [] {
      var n := LineLength(s);
      var line := s[..n];
      DropLineBreaksClean(line);
      if n < |s| {
        var w := BreakWidth(s, n);
        var rest := s[n + w..];
        calc {
          Concat(SplitLines(s));
          { ConcatCons(line, SplitLines(rest)); }
          line + Concat(SplitLines(rest));
          { ConcatSplitLines(rest); }
          line + DropLineBreaks(rest);
          { DropBreak(s, n); }
          DropLineBreaks(line) + DropLineBreaks(s[n..n + w]) + DropLineBreaks(rest);
          { DropLineBreaksAppend(line, s[n..n + w]); }
          DropLineBreaks(line + s[n..n + w]) + DropLineBreaks(rest);
          { DropLineBreaksAppend(line + s[n..n + w], rest); }
          DropLineBreaks(line + s[n..n + w] + rest);
          { assert line + s[n..n + w] + rest == s; }
          DropLineBreaks(s);
        }
      } else {
        assert line == s;
        ConcatCons(s, []);
        assert s + [] == s;
      }
    }
  }

  // ---------------------------------------------------------------- index, split(sep)

  /** Index of the first c in s, or |s|. */
  function IndexOf(s: string, c: char): (k: nat)
    ensures k <= |s| && c !in s[..k]
    ensures k < |s| ==> s[k] == c
  {
    if s == [] || s[0] == c then 0
    else
      var k := 1 + IndexOf(s[1..], c);
      assert s[..k] == [s[0]] + s[1..][..k - 1];
      k
  }

  /** s.split(sep) for a one-character separator. */
  function SplitOn(s: string, sep: char): (parts: seq<string>)
    ensures |parts| >= 1
    ensures forall k :: 0 <= k < |parts| ==> sep !in parts[k]
    decreases |s|
  {
    var k := IndexOf(s, sep);
    if k == |s| then (assert s[..k] == s; [s])
    else [s[..k]] + SplitOn(s[k + 1..], sep)
  }

  /** Joining the pieces of s.split(sep) with sep gives s back. */
  lemma {:induction false} JoinSplitOn(s: string, sep: char)
    ensures JoinWith(SplitOn(s, sep), sep) == s
    decreases |s|
  {
    var k := IndexOf(s, sep);
    var parts := SplitOn(s, sep);
    if k < |s| {
      var rest := SplitOn(s[k + 1..], sep);
      assert parts == [s[..k]] + rest;
      assert parts[1..] == rest;
      JoinSplitOn(s[k + 1..], sep);
      assert JoinWith(parts, sep) == s[..k] + [sep] + JoinWith(rest, sep);
      assert s == s[..k] + [sep] + s[k + 1..];
    } else {
      assert parts == [s];
    }
  }

  lemma {:induction false} IndexOfAppend(x: string, y: string, c: char)
    requires c !in x
    ensures IndexOf(x + y, c) == |x| + IndexOf(y, c)
    decreases |x|
  {
    if x != [] {
      assert (x + y)[1..] == x[1..] + y;
      IndexOfAppend(x[1..], y, c);
    } else {
      assert x + y == y;
    }
  }

  /** s.split(sep) undoes sep.join on pieces free of sep. */
  lemma {:induction false} SplitOnJoin(xs: seq<string>, sep: char)
    requires |xs| >= 1
    requires forall k :: 0 <= k < |xs| ==> sep !in xs[k]
    ensures SplitOn(JoinWith(xs, sep), sep) == xs
    decreases |xs|
  {
    var x := xs[0];
    if |xs| == 1 {
      IndexOfAppend(x, [], sep);
      assert x + [] == x;
    } else {
      var tail := JoinWith(xs[1..], sep);
      var s := x + [sep] + tail;
      assert s == x + ([sep] + tail);
      IndexOfAppend(x, [sep] + tail, sep);
      assert s[..|x|] == x;
      assert s[|x| + 1..] == tail;
      SplitOnJoin(xs[1..], sep);
    }
  }

  // ---------------------------------------------------------------- replace(pat, '')

  /** pat occurs in s at position i. */
  predicate OccursAt(pat: string, s: string, i: nat) {
    i + |pat| <= |s| && s[i..i + |pat|] == pat
  }

  /** s.replace(pat, ''): occurrences removed left to right, without overlap. */
  function RemoveAll(s: string, pat: string): (r: string)
    requires pat != []
    ensures multiset(r) <= multiset(s)
    decreases |s|
  {
    if |s| < |pat| then s
    else if s[..|pat|] == pat then
      (assert s == s[..|pat|] + s[|pat|..]; RemoveAll(s[|pat|..], pat))
    else
      (assert s == [s[0]] + s[1..]; [s[0]] + RemoveAll(s[1..], pat))
  }

  /** A text free of pat is left as it is. */
  lemma {:induction false} RemoveAllAbsent(s: string, pat: string)
    requires pat != []
    requires forall i :: 0 <= i < |s| ==> !OccursAt(pat, s, i)
    ensures RemoveAll(s, pat) == s
    decreases |s|
  {
    if |s| >= |pat| {
      assert !OccursAt(pat, s, 0);
      forall i | 0 <= i < |s| - 1 ensures !OccursAt(pat, s[1..], i) {
        assert !OccursAt(pat, s, i + 1);
        if i + |pat| <= |s| - 1 { assert s[1..][i..i + |pat|] == s[i + 1..i + 1 + |pat|]; }
      }
      RemoveAllAbsent(s[1..], pat);
    }
  }

  // ---------------------------------------------------------------- 【…】 tag

  const TagOpen: char := '【'
  const TagClose: char := '】'

  /** `re.sub(r'^【[^】]*】', '', s)`: drops one leading 【…】 group (the shortest,
      as `[^】]*` cannot cross a 】), and only when it is closed. */
  function StripTag(s: string): (r: string)
    ensures if |s| > 0 && s[0] == TagOpen && TagClose in s then
              exists k :: 0 < k < |s| && s[k] == TagClose && TagClose !in s[..k] && r == s[k + 1..]
            else r == s
  {
    if |s| > 0 && s[0] == TagOpen then
      var k := IndexOf(s, TagClose);
      if k < |s| then s[k + 1..]
      else (assert s[..k] == s; s)
    else s
  }

  /** The first c in s is at j when s[j] is c and no earlier character is. */
  lemma {:induction false} IndexOfFirst(s: string, c: char, j: nat)
    requires j < |s| && s[j] == c
    requires forall i :: 0 <= i < j ==> s[i] != c
    ensures IndexOf(s, c) == j
    decreases j
  {
    if j > 0 {
      assert forall i :: 0 <= i < j - 1 ==> s[1..][i] == s[i + 1];
      IndexOfFirst(s[1..], c, j - 1);
    }
  }

  /** A closed 【tag】 group at the front is removed, and nothing else is. */
  lemma StripTagOf(tag: string, rest: string)
    requires TagClose !in tag
    ensures StripTag([TagOpen] + tag + [TagClose] + rest) == rest
  {
    var s := [TagOpen] + tag + [TagClose] + rest;
    forall i | 0 < i < |tag| + 1 ensures s[i] != TagClose {
      assert s[i] == tag[i - 1];
    }
    IndexOfFirst(s, TagClose, |tag| + 1);
    assert s[|tag| + 2..] == rest;
  }
}
