/** The record split of main.py:16-17:
      re.split(r'(?=^[^\n]+\d{4}/\d{1,2}/\d{1,2}\s\d{1,2}:\d{2}:\d{2})', txt, flags=re.M)
    followed by `[r.strip() for r in records if r.strip() != '']`.
    The lookahead matches with zero width at every position p where a line
    starts (p is 0 or follows a '\n') and, after at least one further character
    of that line, the date-time shape begins; the text is cut at each such p. */
module Segmenter {
  import opened Text

  predicate DigitAt(s: string, i: int) {
    0 <= i < |s| && IsDigit(s[i])
  }

  predicate CharAt(s: string, i: int, c: char) {
    0 <= i < |s| && s[i] == c
  }

  predicate SpaceAt(s: string, i: int) {
    0 <= i < |s| && IsSpace(s[i])
  }

  /** The number of consecutive ASCII digits starting at i. */
  function DigitRun(s: string, i: nat): nat
    decreases |s| - i
  {
    if DigitAt(s, i) then 1 + DigitRun(s, i + 1) else 0
  }

  // The pattern's `\d{4}/`, `\d{1,2}/`, `\d{1,2}\s` and `\d{1,2}:` are each followed
  // by a character that is never a digit, so each can match in exactly one way:
  // with the whole run of digits there (RegexGroupIsRun, and DateTimeAtIsRegex
  // with the three FromIsRegexGroup lemmas for the shape itself). The shape is
  // therefore written deterministically, one run after the other.

  /** `\d{4}/\d{1,2}/\d{1,2}\s\d{1,2}:\d{2}:\d{2}` begins at i. */
  predicate DateTimeAt(s: string, i: nat) {
    DigitRun(s, i) == 4 && CharAt(s, i + 4, '/') && MonthFrom(s, i + 5)
  }

  /** `\d{1,2}/\d{1,2}\s\d{1,2}:\d{2}:\d{2}` begins at a. */
  predicate MonthFrom(s: string, a: nat) {
    var n := DigitRun(s, a);
    1 <= n <= 2 && CharAt(s, a + n, '/') && DayFrom(s, a + n + 1)
  }

  /** `\d{1,2}\s\d{1,2}:\d{2}:\d{2}` begins at b. */
  predicate DayFrom(s: string, b: nat) {
    var n := DigitRun(s, b);
    1 <= n <= 2 && SpaceAt(s, b + n) && HourFrom(s, b + n + 1)
  }

  /** `\d{1,2}:\d{2}:\d{2}` begins at c. */
  predicate HourFrom(s: string, c: nat) {
    var n := DigitRun(s, c);
    1 <= n <= 2 && CharAt(s, c + n, ':') && MinuteSecondAt(s, c + n + 1)
  }

  /** `\d{2}:\d{2}` begins at e. */
  predicate MinuteSecondAt(s: string, e: nat) {
    DigitAt(s, e) && DigitAt(s, e + 1) && CharAt(s, e + 2, ':') && DigitAt(s, e + 3) && DigitAt(s, e + 4)
  }

  /** `\d{1,2}` followed by a non-digit separator that `sep` accepts, written the
      regular expression's way (two alternatives), is the run of digits at i of
      length 1 or 2 followed by the separator. */
  lemma RegexGroupIsRun(s: string, i: nat, sep: char -> bool)
    requires forall c :: sep(c) ==> !IsDigit(c)
    ensures ((DigitAt(s, i) && i + 1 < |s| && sep(s[i + 1]))
             || (DigitAt(s, i) && DigitAt(s, i + 1) && i + 2 < |s| && sep(s[i + 2])))
        <==> (1 <= DigitRun(s, i) <= 2 && i + DigitRun(s, i) < |s| && sep(s[i + DigitRun(s, i)]))
  {
    if DigitAt(s, i) && DigitAt(s, i + 1) {
      assert DigitRun(s, i) == 2 + DigitRun(s, i + 2);
    }
  }

  /** The same with what must follow the separator: the two alternatives of
      `\d{1,2}` each go on at their own position, and at most one of them can. */
  lemma RegexGroupThen(s: string, i: nat, sep: char -> bool, next: nat -> bool)
    requires forall c :: sep(c) ==> !IsDigit(c)
    ensures ((DigitAt(s, i) && i + 1 < |s| && sep(s[i + 1]) && next(i + 2))
             || (DigitAt(s, i) && DigitAt(s, i + 1) && i + 2 < |s| && sep(s[i + 2]) && next(i + 3)))
        <==> (1 <= DigitRun(s, i) <= 2 && i + DigitRun(s, i) < |s| && sep(s[i + DigitRun(s, i)])
              && next(i + DigitRun(s, i) + 1))
  {
    RegexGroupIsRun(s, i, sep);
    if DigitAt(s, i) && i + 1 < |s| && sep(s[i + 1]) {
      assert DigitRun(s, i) == 1;
    }
  }

  /** MonthFrom, DayFrom and HourFrom are the pattern's `\d{1,2}/`, `\d{1,2}\s`
      and `\d{1,2}:` groups with both alternatives written out. */
  lemma MonthFromIsRegexGroup(s: string, a: nat)
    ensures MonthFrom(s, a)
        <==> ((DigitAt(s, a) && CharAt(s, a + 1, '/') && DayFrom(s, a + 2))
              || (DigitAt(s, a) && DigitAt(s, a + 1) && CharAt(s, a + 2, '/') && DayFrom(s, a + 3)))
  {
    RegexGroupThen(s, a, c => c == '/', (b: nat) => DayFrom(s, b));
  }

  lemma DayFromIsRegexGroup(s: string, b: nat)
    ensures DayFrom(s, b)
        <==> ((DigitAt(s, b) && SpaceAt(s, b + 1) && HourFrom(s, b + 2))
              || (DigitAt(s, b) && DigitAt(s, b + 1) && SpaceAt(s, b + 2) && HourFrom(s, b + 3)))
  {
    RegexGroupThen(s, b, IsSpace, (c: nat) => HourFrom(s, c));
  }

  lemma HourFromIsRegexGroup(s: string, c: nat)
    ensures HourFrom(s, c)
        <==> ((DigitAt(s, c) && CharAt(s, c + 1, ':') && MinuteSecondAt(s, c + 2))
              || (DigitAt(s, c) && DigitAt(s, c + 1) && CharAt(s, c + 2, ':') && MinuteSecondAt(s, c + 3)))
  {
    RegexGroupThen(s, c, ch => ch == ':', (e: nat) => MinuteSecondAt(s, e));
  }

  /** DateTimeAt is the pattern's `\d{4}/` followed by the month group: four
      digits that are not followed by a fifth. */
  lemma DateTimeAtIsRegex(s: string, i: nat)
    ensures DateTimeAt(s, i)
        <==> (DigitAt(s, i) && DigitAt(s, i + 1) && DigitAt(s, i + 2) && DigitAt(s, i + 3)
              && CharAt(s, i + 4, '/') && MonthFrom(s, i + 5))
  {
    if DigitAt(s, i) && DigitAt(s, i + 1) && DigitAt(s, i + 2) && DigitAt(s, i + 3) && CharAt(s, i + 4, '/') {
      assert DigitRun(s, i + 3) == 1;
      assert DigitRun(s, i + 2) == 2;
      assert DigitRun(s, i + 1) == 3;
    }
    if DigitRun(s, i) == 4 {
      assert DigitRun(s, i + 1) == 3 && DigitRun(s, i + 2) == 2 && DigitRun(s, i + 3) == 1;
    }
  }

  /** The shape begins with a digit. */
  lemma DateTimeStartsWithDigit(s: string, i: nat)
    requires DateTimeAt(s, i)
    ensures DigitAt(s, i)
  {
  }

  /** `^` under re.M: the start of the text or just after a '\n'. */
  predicate IsLineStart(s: string, p: nat) {
    p == 0 || (p <= |s| && s[p - 1] == '\n')
  }

  /** Some position from q on, in the same line, is where the shape begins. */
  predicate ShapeFrom(s: string, q: nat)
    decreases |s| - q
  {
    q < |s| && s[q] != '\n' && (DateTimeAt(s, q) || ShapeFrom(s, q + 1))
  }

  /** The first position from q on where the shape begins, with no line break from q up to it. */
  function ShapeStart(s: string, q: nat): (r: nat)
    requires ShapeFrom(s, q)
    ensures q <= r < |s| && DateTimeAt(s, r)
    ensures forall j :: q <= j <= r ==> s[j] != '\n'
    decreases |s| - q
  {
    if DateTimeAt(s, q) then q else ShapeStart(s, q + 1)
  }

  /** The lookahead matches at p: a line starts at p, and `[^\n]+` (the character
      at p and possibly more of that line) is followed by the date-time shape. */
  predicate HeaderAt(s: string, p: nat) {
    p < |s| && IsLineStart(s, p) && s[p] != '\n' && ShapeFrom(s, p + 1)
  }

  /** Where the date of a matched header line starts. */
  function DateStart(s: string, p: nat): (q: nat)
    requires HeaderAt(s, p)
    ensures p < q < |s| && DigitAt(s, q)
  {
    var q := ShapeStart(s, p + 1);
    DateTimeStartsWithDigit(s, q);
    q
  }

  /** The date of a header line comes before the next line start. */
  lemma DateBeforeNextLine(s: string, p: nat, e: nat)
    requires HeaderAt(s, p) && p < e <= |s| && IsLineStart(s, e)
    ensures DateStart(s, p) < e
  {
    var q := ShapeStart(s, p + 1);
    assert s[e - 1] == '\n';
  }

  // ---------------------------------------------------------------- header lines

  /** A run of exactly n digits at i, ended by a non-digit or by the end of the text. */
  lemma {:induction false} DigitRunOf(s: string, i: nat, n: nat)
    requires i + n <= |s|
    requires forall k :: i <= k < i + n ==> IsDigit(s[k])
    requires i + n == |s| || !IsDigit(s[i + n])
    ensures DigitRun(s, i) == n
    decreases n
  {
    if n > 0 {
      DigitRunOf(s, i + 1, n - 1);
    }
  }

  /** The date and time of a header as the chat client writes them: `y/mo/d h:mi:sec`. */
  function DateTimeText(y: string, mo: string, d: string, h: string, mi: string, sec: string): string {
    y + ("/" + (mo + ("/" + (d + (" " + (h + (":" + (mi + (":" + sec)))))))))
  }

  /** The widths `\d{4}/\d{1,2}/\d{1,2}\s\d{1,2}:\d{2}:\d{2}` allows, in ASCII digits. */
  predicate HeaderFields(y: string, mo: string, d: string, h: string, mi: string, sec: string) {
    && |y| == 4 && 1 <= |mo| <= 2 && 1 <= |d| <= 2 && 1 <= |h| <= 2 && |mi| == 2 && |sec| == 2
    && AllDigits(y) && AllDigits(mo) && AllDigits(d) && AllDigits(h) && AllDigits(mi) && AllDigits(sec)
  }

  lemma Assoc(a: string, b: string, c: string)
    ensures (a + b) + c == a + (b + c)
  {
  }

  /** From i on, s holds the digits x, then the non-digit c, then v. */
  lemma FieldAt(s: string, i: nat, x: string, c: char, v: string)
    requires i <= |s| && s[i..] == x + ([c] + v) && AllDigits(x) && !IsDigit(c)
    ensures i + |x| < |s| && DigitRun(s, i) == |x| && s[i + |x|] == c && s[i + |x| + 1..] == v
  {
    assert forall k :: 0 <= k < |x| ==> s[i + k] == s[i..][k] == x[k];
    assert s[i + |x|] == s[i..][|x|];
    assert s[i + |x| + 1..] == s[i..][|x| + 1..];
    DigitRunOf(s, i, |x|);
  }

  /** Two digits, a colon and two more digits written from e on. */
  lemma MinuteSecondOf(s: string, e: nat, mi: string, sec: string, rest: string)
    requires e <= |s| && s[e..] == mi + (":" + (sec + rest))
    requires |mi| == 2 && |sec| == 2 && AllDigits(mi) && AllDigits(sec)
    ensures MinuteSecondAt(s, e)
  {
    assert s[e] == s[e..][0] && s[e + 1] == s[e..][1] && s[e + 2] == s[e..][2];
    assert s[e + 3] == s[e..][3] && s[e + 4] == s[e..][4];
  }

  lemma HourOf(s: string, c: nat, h: string, mi: string, sec: string, rest: string)
    requires c <= |s| && s[c..] == h + (":" + (mi + (":" + (sec + rest))))
    requires 1 <= |h| <= 2 && AllDigits(h) && |mi| == 2 && |sec| == 2 && AllDigits(mi) && AllDigits(sec)
    ensures HourFrom(s, c)
  {
    FieldAt(s, c, h, ':', mi + (":" + (sec + rest)));
    MinuteSecondOf(s, c + |h| + 1, mi, sec, rest);
  }

  lemma DayOf(s: string, b: nat, d: string, h: string, mi: string, sec: string, rest: string)
    requires b <= |s| && s[b..] == d + (" " + (h + (":" + (mi + (":" + (sec + rest))))))
    requires 1 <= |d| <= 2 && AllDigits(d)
    requires 1 <= |h| <= 2 && AllDigits(h) && |mi| == 2 && |sec| == 2 && AllDigits(mi) && AllDigits(sec)
    ensures DayFrom(s, b)
  {
    FieldAt(s, b, d, ' ', h + (":" + (mi + (":" + (sec + rest)))));
    HourOf(s, b + |d| + 1, h, mi, sec, rest);
  }

  lemma MonthOf(s: string, a: nat, mo: string, d: string, h: string, mi: string, sec: string, rest: string)
    requires a <= |s| && s[a..] == mo + ("/" + (d + (" " + (h + (":" + (mi + (":" + (sec + rest))))))))
    requires 1 <= |mo| <= 2 && AllDigits(mo) && 1 <= |d| <= 2 && AllDigits(d)
    requires 1 <= |h| <= 2 && AllDigits(h) && |mi| == 2 && |sec| == 2 && AllDigits(mi) && AllDigits(sec)
    ensures MonthFrom(s, a)
  {
    FieldAt(s, a, mo, '/', d + (" " + (h + (":" + (mi + (":" + (sec + rest)))))));
    DayOf(s, a + |mo| + 1, d, h, mi, sec, rest);
  }

  /** The date and time followed by the rest, nested to the right. */
  lemma TextTail(y: string, mo: string, d: string, h: string, mi: string, sec: string, rest: string)
    ensures DateTimeText(y, mo, d, h, mi, sec) + rest
         == y + ("/" + (mo + ("/" + (d + (" " + (h + (":" + (mi + (":" + (sec + rest))))))))))
  {
    var x8 := ":" + sec;
    var x7 := mi + x8;
    var x6 := ":" + x7;
    var x5 := h + x6;
    var x4 := " " + x5;
    var x3 := d + x4;
    var x2 := "/" + x3;
    var x1 := mo + x2;
    var x0 := "/" + x1;
    Assoc(y, x0, rest);
    Assoc("/", x1, rest);
    Assoc(mo, x2, rest);
    Assoc("/", x3, rest);
    Assoc(d, x4, rest);
    Assoc(" ", x5, rest);
    Assoc(h, x6, rest);
    Assoc(":", x7, rest);
    Assoc(mi, x8, rest);
    Assoc(":", sec, rest);
  }

  /** The shape matches at i when the text from i on is a date and time of
      those widths written out field by field. */
  lemma DateTimeFromFields(s: string, i: nat, y: string, mo: string, d: string, h: string, mi: string, sec: string, rest: string)
    requires HeaderFields(y, mo, d, h, mi, sec) && i <= |s|
    requires s[i..] == y + ("/" + (mo + ("/" + (d + (" " + (h + (":" + (mi + (":" + (sec + rest))))))))))
    ensures DateTimeAt(s, i)
  {
    FieldAt(s, i, y, '/', mo + ("/" + (d + (" " + (h + (":" + (mi + (":" + (sec + rest)))))))));
    MonthOf(s, i + 5, mo, d, h, mi, sec, rest);
  }

  /** The shape matches wherever a date and time of those widths are written. */
  lemma DateTimeOfText(pre: string, y: string, mo: string, d: string, h: string, mi: string, sec: string, rest: string)
    requires HeaderFields(y, mo, d, h, mi, sec)
    ensures DateTimeAt(pre + DateTimeText(y, mo, d, h, mi, sec) + rest, |pre|)
  {
    var t := DateTimeText(y, mo, d, h, mi, sec);
    var s := pre + t + rest;
    TextTail(y, mo, d, h, mi, sec, rest);
    Assoc(pre, t, rest);
    assert s[|pre|..] == t + rest;
    DateTimeFromFields(s, |pre|, y, mo, d, h, mi, sec, rest);
  }

  /** Some position from q up to r starts the shape, with no line break on the way. */
  lemma {:induction false} ShapeFromReach(s: string, q: nat, r: nat)
    requires q <= r < |s| && DateTimeAt(s, r)
    requires forall j :: q <= j <= r ==> s[j] != '\n'
    ensures ShapeFrom(s, q)
    decreases r - q
  {
    if q < r {
      ShapeFromReach(s, q + 1, r);
    }
  }

  /** A line start followed, within its line, by the shape is a header line. */
  lemma HeaderFromLead(s: string, p: nat, q: nat)
    requires p < q < |s| && IsLineStart(s, p) && DateTimeAt(s, q)
    requires forall j :: p <= j < q ==> s[j] != '\n'
    ensures HeaderAt(s, p)
  {
    DateTimeStartsWithDigit(s, q);
    ShapeFromReach(s, p + 1, q);
  }

  /** A line that starts with a non-empty lead (the sender's name and a space,
      say) followed by a date and time of the logged widths starts a block,
      whatever follows on that line and after it. */
  lemma HeaderLine(before: string, lead: string, y: string, mo: string, d: string, h: string, mi: string, sec: string, rest: string)
    requires before == [] || before[|before| - 1] == '\n'
    requires lead != [] && '\n' !in lead
    requires HeaderFields(y, mo, d, h, mi, sec)
    ensures HeaderAt(before + lead + DateTimeText(y, mo, d, h, mi, sec) + rest, |before|)
  {
    var pre := before + lead;
    var t := DateTimeText(y, mo, d, h, mi, sec);
    var s := pre + t + rest;
    DateTimeOfText(pre, y, mo, d, h, mi, sec, rest);
    forall j | |before| <= j < |pre| ensures s[j] != '\n' {
      assert s[j] == pre[j] == lead[j - |before|];
    }
    if before != [] {
      assert s[|before| - 1] == pre[|before| - 1] == before[|before| - 1];
    }
    HeaderFromLead(s, |before|, |pre|);
  }

  /** The header written by the chat client for Alice's message of 5 January 2024 at 9:03:07. */
  lemma HeaderExample(s: string)
    requires s == "Alice 2024/1/5 9:03:07"
    ensures HeaderAt(s, 0)
  {
    assert s == [] + "Alice " + DateTimeText("2024", "1", "5", "9", "03", "07") + [];
    HeaderLine([], "Alice ", "2024", "1", "5", "9", "03", "07", []);
  }

  /** A month of three digits does not fit `\d{1,2}`: the shape does not start
      at a year followed by one. */
  lemma ThreeDigitMonthRejected(pre: string, y: string, mo: string, rest: string)
    requires |y| == 4 && AllDigits(y) && |mo| == 3 && AllDigits(mo)
    ensures !DateTimeAt(pre + y + "/" + mo + rest, |pre|)
  {
    var s := pre + y + "/" + mo + rest;
    var a := |pre| + 5;
    assert s[a..] == mo + rest;
    assert forall k :: 0 <= k < 3 ==> s[a + k] == s[a..][k] == mo[k];
    assert DigitAt(s, a) && DigitAt(s, a + 1) && DigitAt(s, a + 2);
    assert DigitRun(s, a) >= 3 by {
      assert DigitRun(s, a) == 1 + DigitRun(s, a + 1);
      assert DigitRun(s, a + 1) == 1 + DigitRun(s, a + 2);
      assert DigitRun(s, a + 2) == 1 + DigitRun(s, a + 3);
    }
  }

  /** Where the lookahead matches among the first n positions: m[q] says whether
      it matches at q. It never matches at |s|, where no line character can follow. */
  function Marks(s: string, n: nat): (m: seq<bool>)
    requires n <= |s|
    ensures |m| == n
  {
    if n == 0 then [] else Marks(s, n - 1) + [HeaderAt(s, n - 1)]
  }

  lemma {:induction false} MarksAt(s: string, n: nat, q: nat)
    requires q < n <= |s|
    ensures Marks(s, n)[q] == HeaderAt(s, q)
    decreases n
  {
    if q < n - 1 {
      MarksAt(s, n - 1, q);
    }
  }

  /** re.split's cut points below p: 0, then every match below p in ascending order. */
  function Cuts(m: seq<bool>, p: nat): (cs: seq<nat>)
    requires p <= |m|
    ensures |cs| >= 1 && cs[0] == 0
  {
    if p == 0 then [0]
    else if m[p - 1] then Cuts(m, p - 1) + [p - 1]
    else Cuts(m, p - 1)
  }

  /** Every cut point after the leading 0 is a match below p. */
  lemma {:induction false} CutsAreMarks(m: seq<bool>, p: nat)
    requires p <= |m|
    ensures forall k :: 0 < k < |Cuts(m, p)| ==> Cuts(m, p)[k] < p && m[Cuts(m, p)[k]]
    decreases p
  {
    if p > 0 {
      CutsAreMarks(m, p - 1);
    }
  }

  /** The cut points after the leading 0 ascend strictly. */
  lemma {:induction false} CutsAscend(m: seq<bool>, p: nat)
    requires p <= |m|
    ensures forall k, l :: 0 < k < l < |Cuts(m, p)| ==> Cuts(m, p)[k] < Cuts(m, p)[l]
    decreases p
  {
    if p > 0 {
      CutsAscend(m, p - 1);
      CutsAreMarks(m, p - 1);
    }
  }

  /** Every match below p is a cut point. */
  lemma {:induction false} CutsComplete(m: seq<bool>, p: nat)
    requires p <= |m|
    ensures forall q :: 0 <= q < p && m[q] ==> q in Cuts(m, p)[1..]
    decreases p
  {
    if p > 0 {
      CutsComplete(m, p - 1);
      if m[p - 1] {
        var prev := Cuts(m, p - 1);
        assert (prev + [p - 1])[1..] == prev[1..] + [p - 1];
      }
    }
  }

  /** The cut points after the leading 0 are exactly the matches below p, each once, in ascending order. */
  lemma CutsAreMatches(m: seq<bool>, p: nat)
    requires p <= |m|
    ensures forall k :: 0 < k < |Cuts(m, p)| ==> Cuts(m, p)[k] < p && m[Cuts(m, p)[k]]
    ensures forall k, l :: 0 < k < l < |Cuts(m, p)| ==> Cuts(m, p)[k] < Cuts(m, p)[l]
    ensures forall q :: 0 <= q < p && m[q] ==> q in Cuts(m, p)[1..]
  {
    CutsAreMarks(m, p);
    CutsAscend(m, p);
    CutsComplete(m, p);
  }

  /** The cut points never decrease. */
  predicate Steps(bs: seq<nat>) {
    forall i, j :: 0 <= i < j < |bs| ==> bs[i] <= bs[j]
  }

  lemma CutsInRange(m: seq<bool>, p: nat)
    requires p <= |m|
    ensures Steps(Cuts(m, p)) && forall k :: 0 <= k < |Cuts(m, p)| ==> Cuts(m, p)[k] <= p
  {
    var cs := Cuts(m, p);
    CutsAreMatches(m, p);
    forall i, j | 0 <= i < j < |cs| ensures cs[i] <= cs[j] {
      if i > 0 { assert cs[i] < cs[j]; }
    }
  }

  /** Every cut point and the end of the text. */
  function Bounds(s: string): (bs: seq<nat>)
    ensures |bs| >= 2 && bs[0] == 0 && bs[|bs| - 1] == |s|
  {
    Cuts(Marks(s, |s|), |s|) + [|s|]
  }

  lemma BoundsInRange(s: string)
    ensures Steps(Bounds(s)) && forall k :: 0 <= k < |Bounds(s)| ==> Bounds(s)[k] <= |s|
  {
    var cs := Cuts(Marks(s, |s|), |s|);
    var bs := Bounds(s);
    CutsInRange(Marks(s, |s|), |s|);
    forall i, j | 0 <= i < j < |bs| ensures bs[i] <= bs[j] {
      if j < |cs| { assert bs[i] == cs[i] && bs[j] == cs[j]; }
    }
  }

  /** s[a..b], or nothing when the bounds are out of order. */
  function Between(s: string, a: nat, b: nat): string {
    if a <= b <= |s| then s[a..b] else []
  }

  /** The texts between consecutive cut points. */
  function Slices(s: string, bs: seq<nat>): (ps: seq<string>)
    ensures |ps| == if bs == [] then 0 else |bs| - 1
  {
    if |bs| < 2 then []
    else Slices(s, bs[..|bs| - 1]) + [Between(s, bs[|bs| - 2], bs[|bs| - 1])]
  }

  lemma {:induction false} SlicesAt(s: string, bs: seq<nat>, k: nat)
    requires k + 1 < |bs|
    ensures Slices(s, bs)[k] == Between(s, bs[k], bs[k + 1])
    decreases |bs|
  {
    if k + 2 < |bs| {
      SlicesAt(s, bs[..|bs| - 1], k);
    }
  }

  lemma SlicesSnoc(s: string, cs: seq<nat>, e: nat)
    requires |cs| >= 1
    ensures Slices(s, cs + [e]) == Slices(s, cs) + [Between(s, cs[|cs| - 1], e)]
  {
    assert (cs + [e])[..|cs|] == cs;
  }

  /** What re.split returns: one piece per match, plus one. */
  function Pieces(s: string): seq<string> {
    Slices(s, Bounds(s))
  }

  /** One piece as the list comprehension keeps it: stripped, or dropped when blank. */
  function KeepOne(x: string): (bs: seq<string>)
    ensures |bs| <= 1
  {
    if Strip(x) == [] then [] else [Strip(x)]
  }

  /** `[r.strip() for r in pieces if r.strip() != '']`. */
  function KeepNonBlank(ps: seq<string>): (bs: seq<string>)
    ensures |bs| <= |ps|
  {
    if ps == [] then []
    else KeepNonBlank(ps[..|ps| - 1]) + KeepOne(ps[|ps| - 1])
  }

  lemma KeepNonBlankSnoc(ps: seq<string>, x: string)
    ensures KeepNonBlank(ps + [x]) == KeepNonBlank(ps) + KeepOne(x)
  {
    assert (ps + [x])[..|ps|] == ps;
  }

  /** Every kept block is non-empty and has no whitespace at either end. */
  lemma {:induction false} KeepNonBlankTrimmed(ps: seq<string>)
    ensures forall k :: 0 <= k < |KeepNonBlank(ps)| ==> KeepNonBlank(ps)[k] != [] && IsTrimmed(KeepNonBlank(ps)[k])
    decreases |ps|
  {
    if ps != [] {
      KeepNonBlankTrimmed(ps[..|ps| - 1]);
      var x := ps[|ps| - 1];
      if Strip(x) != [] {
        StripMeetsSpec(x);
      }
    }
  }

  /** The blocks of a transcript: main.py:16-17 as written. */
  function Blocks(txt: string): seq<string> {
    KeepNonBlank(Pieces(txt))
  }

  /** The blocks of the pieces closed before p (the piece still open at p not included). */
  function ClosedBlocks(s: string, m: seq<bool>, p: nat): seq<string>
    requires p <= |m|
  {
    KeepNonBlank(Slices(s, Cuts(m, p)))
  }

  /** Where the piece open at p starts: the last cut point below p. */
  function OpenStart(m: seq<bool>, p: nat): (st: nat)
    requires p <= |m|
    ensures st <= p
  {
    var cs := Cuts(m, p);
    CutsInRange(m, p);
    cs[|cs| - 1]
  }

  lemma CutsStep(m: seq<bool>, p: nat)
    requires p < |m|
    ensures Cuts(m, p + 1) == if m[p] then Cuts(m, p) + [p] else Cuts(m, p)
  {
  }

  lemma OpenStartStep(m: seq<bool>, p: nat)
    requires p < |m|
    ensures OpenStart(m, p + 1) == if m[p] then p else OpenStart(m, p)
  {
    CutsStep(m, p);
  }

  lemma ClosedBlocksStep(s: string, m: seq<bool>, p: nat)
    requires p < |m|
    ensures ClosedBlocks(s, m, p + 1) == ClosedBlocks(s, m, p) + (if m[p] then KeepOne(Between(s, OpenStart(m, p), p)) else [])
  {
    var cs := Cuts(m, p);
    CutsStep(m, p);
    if m[p] {
      SlicesSnoc(s, cs, p);
      KeepNonBlankSnoc(Slices(s, cs), Between(s, cs[|cs| - 1], p));
    } else {
      assert ClosedBlocks(s, m, p) + [] == ClosedBlocks(s, m, p);
    }
  }

  /** One position of the scan: a match at p closes the open piece and opens a new one. */
  lemma ScanStep(s: string, m: seq<bool>, p: nat)
    requires p < |m|
    ensures OpenStart(m, p + 1) == if m[p] then p else OpenStart(m, p)
    ensures ClosedBlocks(s, m, p + 1) == ClosedBlocks(s, m, p) + (if m[p] then KeepOne(Between(s, OpenStart(m, p), p)) else [])
  {
    OpenStartStep(m, p);
    ClosedBlocksStep(s, m, p);
  }

  lemma ScanEndWith(s: string, m: seq<bool>)
    requires |m| == |s|
    ensures KeepNonBlank(Slices(s, Cuts(m, |s|) + [|s|])) == ClosedBlocks(s, m, |s|) + KeepOne(Between(s, OpenStart(m, |s|), |s|))
  {
    var cs := Cuts(m, |s|);
    SlicesSnoc(s, cs, |s|);
    KeepNonBlankSnoc(Slices(s, cs), Between(s, cs[|cs| - 1], |s|));
  }

  /** At the end of the text the open piece is the last one. */
  lemma ScanEnd(s: string)
    ensures Blocks(s) == ClosedBlocks(s, Marks(s, |s|), |s|) + KeepOne(Between(s, OpenStart(Marks(s, |s|), |s|), |s|))
  {
    ScanEndWith(s, Marks(s, |s|));
  }

  /** One position of the scan: close the open piece when a header starts here. */
  method ScanAt(txt: string, p: nat, start: nat, blocks: seq<string>) returns (start': nat, blocks': seq<string>)
    requires start <= p < |txt| && start == OpenStart(Marks(txt, |txt|), p)
    requires blocks == ClosedBlocks(txt, Marks(txt, |txt|), p)
    ensures start' <= p + 1 && start' == OpenStart(Marks(txt, |txt|), p + 1)
    ensures blocks' == ClosedBlocks(txt, Marks(txt, |txt|), p + 1)
  {
    ghost var m := Marks(txt, |txt|);
    MarksAt(txt, |txt|, p);
    ScanStep(txt, m, p);
    start', blocks' := start, blocks;
    if HeaderAt(txt, p) {
      assert Between(txt, start, p) == txt[start..p];
      blocks' := blocks + KeepOne(txt[start..p]);
      start' := p;
    }
  }

  /** The segmenter: one scan over the text, cutting where the lookahead matches. */
  method Segment(txt: string) returns (blocks: seq<string>)
    ensures blocks == Blocks(txt)
  {
    blocks := [];
    var start := 0;
    var p := 0;
    ScanInit(txt);
    while p < |txt|
      invariant 0 <= start <= p <= |txt|
      invariant start == OpenStart(Marks(txt, |txt|), p)
      invariant blocks == ClosedBlocks(txt, Marks(txt, |txt|), p)
    {
      start, blocks := ScanAt(txt, p, start, blocks);
      p := p + 1;
    }
    ScanFinish(txt, start, blocks);
    blocks := blocks + KeepOne(txt[start..]);
  }

  lemma ScanInit(txt: string)
    ensures OpenStart(Marks(txt, |txt|), 0) == 0 && ClosedBlocks(txt, Marks(txt, |txt|), 0) == []
  {
  }

  lemma ScanFinish(txt: string, start: nat, blocks: seq<string>)
    requires start <= |txt| && start == OpenStart(Marks(txt, |txt|), |txt|)
    requires blocks == ClosedBlocks(txt, Marks(txt, |txt|), |txt|)
    ensures blocks + KeepOne(txt[start..]) == Blocks(txt)
  {
    BetweenToEnd(txt, start);
    ScanEnd(txt);
  }

  lemma BetweenToEnd(s: string, a: nat)
    requires a <= |s|
    ensures Between(s, a, |s|) == s[a..]
  {
  }

  // ---------------------------------------------------------------- properties

  lemma ConcatSnoc(xs: seq<string>, x: string)
    ensures Concat(xs + [x]) == Concat(xs) + x
  {
    if xs == [] {
      assert [] + [x] == [x];
      ConcatCons(x, []);
    } else {
      assert (xs + [x])[1..] == xs[1..] + [x];
      ConcatSnoc(xs[1..], x);
    }
  }

  lemma {:induction false} ConcatSlices(s: string, bs: seq<nat>)
    requires |bs| >= 1 && Steps(bs) && forall k :: 0 <= k < |bs| ==> bs[k] <= |s|
    ensures bs[0] <= bs[|bs| - 1]
    ensures Concat(Slices(s, bs)) == s[bs[0]..bs[|bs| - 1]]
    decreases |bs|
  {
    if |bs| >= 2 {
      var init := bs[..|bs| - 1];
      assert Steps(init) by {
        forall i, j | 0 <= i < j < |init| ensures init[i] <= init[j] { assert init[i] == bs[i] && init[j] == bs[j]; }
      }
      ConcatSlices(s, init);
      assert bs[0] <= bs[|bs| - 2] <= bs[|bs| - 1];
      ConcatSnoc(Slices(s, init), Between(s, bs[|bs| - 2], bs[|bs| - 1]));
      assert s[bs[0]..bs[|bs| - 2]] + s[bs[|bs| - 2]..bs[|bs| - 1]] == s[bs[0]..bs[|bs| - 1]];
    } else {
      assert Slices(s, bs) == [];
    }
  }

  /** The pieces of re.split, read in order, are the transcript itself. */
  lemma PiecesCover(txt: string)
    ensures Concat(Pieces(txt)) == txt
  {
    BoundsInRange(txt);
    ConcatSlices(txt, Bounds(txt));
  }

  /** No position strictly inside a piece is a match. */
  lemma NoMarkInsidePiece(m: seq<bool>, k: nat, q: nat)
    requires var bs := Cuts(m, |m|) + [|m|]; k + 1 < |bs| && bs[k] < q < bs[k + 1] && q < |m|
    ensures !m[q]
  {
    var cs := Cuts(m, |m|);
    var bs := cs + [|m|];
    CutsAreMatches(m, |m|);
    forall l | 0 < l < |cs| ensures cs[l] != q {
      if l < k {
        assert cs[l] < cs[k] == bs[k];
      } else if l == k {
        assert cs[l] == bs[k];
      } else if l == k + 1 {
        assert cs[l] == bs[k + 1];
      } else {
        assert cs[k + 1] < cs[l] && cs[k + 1] == bs[k + 1];
      }
    }
    assert q !in cs[1..];
  }

  /** Piece k is the text between bound k and bound k + 1. */
  lemma PieceAt(txt: string, k: nat)
    requires k < |Pieces(txt)|
    ensures Bounds(txt)[k] <= Bounds(txt)[k + 1] <= |txt|
    ensures Pieces(txt)[k] == txt[Bounds(txt)[k]..Bounds(txt)[k + 1]]
  {
    BoundsInRange(txt);
    SlicesAt(txt, Bounds(txt), k);
  }

  /** Piece k (k >= 1) starts at a match. */
  lemma PieceStartIsMatch(txt: string, k: nat)
    requires 0 < k < |Pieces(txt)|
    ensures Bounds(txt)[k] <= |txt| && HeaderAt(txt, Bounds(txt)[k])
    ensures k + 1 < |Pieces(txt)| ==> Bounds(txt)[k] < Bounds(txt)[k + 1]
  {
    var m := Marks(txt, |txt|);
    CutsAreMatches(m, |txt|);
    assert Bounds(txt)[k] == Cuts(m, |txt|)[k];
    if k + 1 < |Pieces(txt)| {
      assert Bounds(txt)[k + 1] == Cuts(m, |txt|)[k + 1];
    }
    MarksAt(txt, |txt|, Bounds(txt)[k]);
  }

  /** A lookahead split: piece k (k >= 1) starts exactly at a match, and no
      match lies strictly inside any piece. */
  lemma PiecesAreLookaheadSplit(txt: string)
    ensures var bs := Bounds(txt); var ps := Pieces(txt);
      && |ps| == |Cuts(Marks(txt, |txt|), |txt|)| == |bs| - 1
      && (forall k :: 0 <= k < |bs| ==> bs[k] <= |txt|)
      && (forall k :: 0 <= k < |ps| ==> bs[k] <= bs[k + 1] && ps[k] == txt[bs[k]..bs[k + 1]])
      && (forall k :: 0 < k < |ps| ==> HeaderAt(txt, bs[k]))
      && (forall k, q :: 0 <= k < |ps| && bs[k] < q < bs[k + 1] ==> !HeaderAt(txt, q))
  {
    var m := Marks(txt, |txt|);
    var bs := Bounds(txt);
    var ps := Pieces(txt);
    BoundsInRange(txt);
    forall k | 0 <= k < |ps| ensures bs[k] <= bs[k + 1] && ps[k] == txt[bs[k]..bs[k + 1]] {
      PieceAt(txt, k);
    }
    forall k | 0 < k < |ps| ensures HeaderAt(txt, bs[k]) {
      PieceStartIsMatch(txt, k);
    }
    forall k, q | 0 <= k < |ps| && bs[k] < q < bs[k + 1] ensures !HeaderAt(txt, q) {
      NoMarkInsidePiece(m, k, q);
      MarksAt(txt, |txt|, q);
    }
  }

  /** A text with a digit in it is not blank. */
  lemma NotBlank(x: string, k: nat)
    requires k < |x| && IsDigit(x[k])
    ensures Strip(x) != []
  {
    StripEmpty(x);
  }

  /** The date of the header line that opens piece k (k >= 1) lies inside the piece. */
  lemma DateInsidePiece(txt: string, k: nat)
    requires 0 < k < |Pieces(txt)|
    ensures Bounds(txt)[k] <= |txt| && HeaderAt(txt, Bounds(txt)[k])
    ensures Bounds(txt)[k] < DateStart(txt, Bounds(txt)[k]) < Bounds(txt)[k + 1]
  {
    var bs := Bounds(txt);
    PieceStartIsMatch(txt, k);
    if k + 1 < |Pieces(txt)| {
      PieceStartIsMatch(txt, k + 1);
      DateBeforeNextLine(txt, bs[k], bs[k + 1]);
    } else {
      assert bs[k + 1] == |txt|;
    }
  }

  /** Where, inside piece k (k >= 1), the date of its header line starts. */
  function DateOffset(txt: string, k: nat): (i: nat)
    requires 0 < k < |Pieces(txt)|
    ensures i < |Pieces(txt)[k]| && IsDigit(Pieces(txt)[k][i])
  {
    var bs := Bounds(txt);
    PieceAt(txt, k);
    DateInsidePiece(txt, k);
    var q := DateStart(txt, bs[k]);
    assert Pieces(txt)[k][q - bs[k]] == txt[q];
    q - bs[k]
  }

  /** A piece that starts at a match is never blank: the digit the date starts
      with lies inside it, since the piece runs at least to the end of that line. */
  lemma MatchedPieceNotBlank(txt: string, k: nat)
    requires 0 < k < |Pieces(txt)|
    ensures Strip(Pieces(txt)[k]) != []
  {
    NotBlank(Pieces(txt)[k], DateOffset(txt, k));
  }

  lemma {:induction false} KeepNonBlankCount(ps: seq<string>)
    requires forall k :: 0 < k < |ps| ==> Strip(ps[k]) != []
    ensures |KeepNonBlank(ps)| == |ps| - (if ps != [] && Strip(ps[0]) == [] then 1 else 0)
    decreases |ps|
  {
    if |ps| > 1 {
      KeepNonBlankCount(ps[..|ps| - 1]);
    }
  }

  /** Every match yields exactly one block; the only piece that can be dropped
      is the text before the first header line. */
  lemma BlockCount(txt: string)
    ensures |Blocks(txt)| == |Cuts(Marks(txt, |txt|), |txt|)| - 1 + (if Strip(Pieces(txt)[0]) == [] then 0 else 1)
  {
    var ps := Pieces(txt);
    forall k | 0 < k < |ps| ensures Strip(ps[k]) != [] {
      MatchedPieceNotBlank(txt, k);
    }
    KeepNonBlankCount(ps);
  }
}
