/** The record-parsing loop of main.py (lines 21-42): each block's first line
    is its header, from which author, date and time are taken; the remaining
    lines are the message content. */
module Records {
  import opened Text
  import opened Wrappers
  import opened Seqs

  /** One entry of `data_list`: the three header tokens and the content. */
  datatype RawRecord = RawRecord(name: string, date: string, timeText: string, content: string)

  /** The `lines[0].strip()` header with one leading 【…】 group removed. */
  function Header(lines: seq<string>): string
    requires lines != []
  {
    StripTag(Strip(lines[0]))
  }

  /** The content: the lines after the header joined with '', stripped, less one leading 【…】 group. */
  function Content(lines: seq<string>): string
    requires lines != []
  {
    StripTag(Strip(Concat(lines[1..])))
  }

  /** One pass of the loop body: the record a block yields, or None when its
      header has fewer than three whitespace-separated tokens. */
  function ParseBlock(rec: string): (r: Option<RawRecord>)
    requires rec != []
    ensures r.Some? ==> r.value.name != [] && r.value.date != [] && r.value.timeText != []
  {
    var lines := SplitLines(rec);
    var parts := Words(Header(lines));
    if |parts| < 3 then None
    else Some(RawRecord(parts[0], parts[1], parts[2], Content(lines)))
  }

  /** What one block adds to `data_list`. */
  function Yield(rec: string): (rs: seq<RawRecord>)
    requires rec != []
    ensures |rs| <= 1
  {
    match ParseBlock(rec) case Some(r) => [r] case None => []
  }

  predicate AllNonEmpty(recs: seq<string>) {
    forall k :: 0 <= k < |recs| ==> recs[k] != []
  }

  /** `data_list` after the loop over recs. */
  function ParsedAll(recs: seq<string>): (rs: seq<RawRecord>)
    requires AllNonEmpty(recs)
  {
    FlatMap(Yield, recs)
  }

  /** The loop of main.py:22-42: append the record of every block whose header
      has at least three tokens, skip the others and go on. */
  method ParseRecords(recs: seq<string>) returns (dataList: seq<RawRecord>)
    requires AllNonEmpty(recs)
    ensures dataList == ParsedAll(recs)
  {
    dataList := [];
    var i := 0;
    while i < |recs|
      invariant 0 <= i <= |recs|
      invariant dataList == ParsedAll(recs[..i])
    {
      FlatMapPrefix(Yield, recs, i);
      var r := ParseBlock(recs[i]);
      if r.Some? {
        dataList := dataList + [r.value];
      }
      i := i + 1;
    }
    assert recs[..i] == recs;
  }

  // ---------------------------------------------------------------- properties

  /** A record is produced exactly when the cleaned header has at least three
      tokens; author, date and time are the first three, and later tokens are ignored. */
  lemma ParseBlockHeader(rec: string)
    requires rec != []
    ensures var parts := Words(StripTag(Strip(FirstLine(rec))));
            && (ParseBlock(rec).Some? <==> |parts| >= 3)
            && (ParseBlock(rec).Some? ==>
                  && ParseBlock(rec).value.name == parts[0]
                  && ParseBlock(rec).value.date == parts[1]
                  && ParseBlock(rec).value.timeText == parts[2])
  {
  }

  /** The author, date and time tokens are non-empty and whitespace-free. */
  lemma ParseBlockTokens(rec: string)
    requires rec != [] && ParseBlock(rec).Some?
    ensures var r := ParseBlock(rec).value;
            NoSpace(r.name) && NoSpace(r.date) && NoSpace(r.timeText)
  {
  }

  /** The content is the text after the first line boundary with every line
      boundary deleted, stripped, and with at most one leading 【…】 group removed. */
  lemma ParseBlockContent(rec: string)
    requires rec != [] && ParseBlock(rec).Some?
    ensures ParseBlock(rec).value.content == StripTag(Strip(DropLineBreaks(AfterFirstLine(rec))))
  {
    ConcatSplitLines(AfterFirstLine(rec));
  }

  /** Blocks are handled one at a time: the result for a + b is the result for
      a followed by the result for b. */
  lemma ParsedAllAppend(a: seq<string>, b: seq<string>)
    requires AllNonEmpty(a) && AllNonEmpty(b)
    ensures AllNonEmpty(a + b) && ParsedAll(a + b) == ParsedAll(a) + ParsedAll(b)
  {
    FlatMapAppend(Yield, a, b);
  }

  /** A single block contributes its record, or nothing. */
  lemma ParsedOne(rec: string)
    requires rec != []
    ensures ParsedAll([rec]) == (if ParseBlock(rec).Some? then [ParseBlock(rec).value] else [])
  {
    FlatMapOne(Yield, rec);
  }

  /** `data_list` stays empty exactly when no block yields a record. */
  lemma ParsedAllEmpty(recs: seq<string>)
    requires AllNonEmpty(recs)
    ensures ParsedAll(recs) == [] <==> forall k :: 0 <= k < |recs| ==> ParseBlock(recs[k]).None?
  {
    FlatMapEmpty(Yield, recs);
    forall k | 0 <= k < |recs| ensures Yield(recs[k]) == [] <==> ParseBlock(recs[k]).None? {
    }
  }

  // ---------------------------------------------------------------- round trip

  /** The block a chat client writes for one message: "name date time", a
      newline, then the content. */
  function Render(r: RawRecord): string {
    r.name + [' '] + r.date + [' '] + r.timeText + ['\n'] + r.content
  }

  predicate WellFormed(r: RawRecord) {
    && r.name != [] && r.date != [] && r.timeText != []
    && NoSpace(r.name) && NoSpace(r.date) && NoSpace(r.timeText)
    && r.name[0] != TagOpen
    && NoLineBreak(r.content) && IsTrimmed(r.content)
    && (r.content == [] || r.content[0] != TagOpen)
  }

  lemma LineBreakIsSpace(c: char)
    requires IsLineBreak(c)
    ensures IsSpace(c)
  {
  }

  lemma NoSpaceNoLineBreak(s: string)
    requires NoSpace(s)
    ensures NoLineBreak(s)
  {
    forall k | 0 <= k < |s| ensures !IsLineBreak(s[k]) {
      if IsLineBreak(s[k]) { LineBreakIsSpace(s[k]); }
    }
  }

  lemma NoLineBreakAppend(a: string, b: string)
    requires NoLineBreak(a) && NoLineBreak(b)
    ensures NoLineBreak(a + b)
  {
    forall k | 0 <= k < |a + b| ensures !IsLineBreak((a + b)[k]) {
      if k < |a| { assert (a + b)[k] == a[k]; } else { assert (a + b)[k] == b[k - |a|]; }
    }
  }

  lemma {:induction false} LineLengthOfLine(x: string, rest: string)
    requires NoLineBreak(x)
    requires rest == [] || IsLineBreak(rest[0])
    ensures LineLength(x + rest) == |x|
    decreases |x|
  {
    if x != [] {
      assert (x + rest)[1..] == x[1..] + rest;
      LineLengthOfLine(x[1..], rest);
    } else {
      assert x + rest == rest;
    }
  }

  /** A header line, a '\n' and a content line are split into those lines
      (no line at all for an empty content). */
  lemma LinesOfBlock(h: string, c: string)
    requires NoLineBreak(h) && NoLineBreak(c)
    ensures SplitLines(h + ['\n'] + c) == [h] + (if c == [] then [] else [c])
  {
    var s := h + ['\n'] + c;
    assert s == h + (['\n'] + c);
    LineLengthOfLine(h, ['\n'] + c);
    assert s[..|h|] == h;
    assert s[|h| + 1..] == c;
    if c != [] {
      LineLengthOfLine(c, []);
      assert c + [] == c;
    }
  }

  /** The header line of a well-formed record has no line boundary. */
  lemma HeaderLineOfRecord(r: RawRecord)
    requires WellFormed(r)
    ensures var header := JoinWith([r.name, r.date, r.timeText], ' ');
            NoLineBreak(header) && Render(r) == header + ['\n'] + r.content
  {
    JoinThree(r.name, r.date, r.timeText, ' ');
    NoSpaceNoLineBreak(r.name);
    NoSpaceNoLineBreak(r.date);
    NoSpaceNoLineBreak(r.timeText);
    NoLineBreakAppend(r.name, [' ']);
    NoLineBreakAppend(r.name + [' '], r.date);
    NoLineBreakAppend(r.name + [' '] + r.date, [' ']);
    NoLineBreakAppend(r.name + [' '] + r.date + [' '], r.timeText);
  }

  /** The lines of a rendered block: the header line, then the content if any. */
  lemma RenderLines(r: RawRecord)
    requires WellFormed(r)
    ensures var header := JoinWith([r.name, r.date, r.timeText], ' ');
            SplitLines(Render(r)) == [header] + (if r.content == [] then [] else [r.content])
  {
    HeaderLineOfRecord(r);
    LinesOfBlock(JoinWith([r.name, r.date, r.timeText], ' '), r.content);
  }

  /** Parsing undoes rendering for every well-formed record. */
  lemma ParseRender(r: RawRecord)
    requires WellFormed(r)
    ensures ParseBlock(Render(r)) == Some(r)
  {
    var header := JoinWith([r.name, r.date, r.timeText], ' ');
    RenderLines(r);
    JoinThree(r.name, r.date, r.timeText, ' ');
    assert header[0] == r.name[0];
    assert header[|header| - 1] == r.timeText[|r.timeText| - 1];
    StripOfTrimmed(header);
    ParseOfLines(Render(r), r);
  }

  /** The content part of a rendered block, once joined and stripped, is the content. */
  lemma ContentOfLines(r: RawRecord, lines: seq<string>)
    requires WellFormed(r) && lines != []
    requires lines[1..] == (if r.content == [] then [] else [r.content])
    ensures Content(lines) == r.content
  {
    if r.content != [] {
      ConcatCons(r.content, []);
      assert [r.content] + [] == [r.content];
      assert r.content + [] == r.content;
    }
    assert Concat(lines[1..]) == r.content;
    StripOfTrimmed(r.content);
  }

  /** The block a chat client writes when the header carries a 【tag】 before the name. */
  function RenderTagged(tag: string, r: RawRecord): string {
    [TagOpen] + tag + [TagClose] + Render(r)
  }

  /** A header line with a 【tag】 in front: still one line, and cleaning it
      leaves the untagged header. */
  lemma TaggedHeader(tag: string, header: string)
    requires NoLineBreak(tag) && TagClose !in tag
    requires NoLineBreak(header) && header != [] && !IsSpace(header[|header| - 1])
    ensures var th := [TagOpen] + tag + [TagClose] + header;
            NoLineBreak(th) && StripTag(Strip(th)) == header
  {
    var th := [TagOpen] + tag + [TagClose] + header;
    NoLineBreakAppend([TagOpen], tag);
    NoLineBreakAppend([TagOpen] + tag, [TagClose]);
    NoLineBreakAppend([TagOpen] + tag + [TagClose], header);
    assert th[0] == TagOpen && th[|th| - 1] == header[|header| - 1];
    StripOfTrimmed(th);
    StripTagOf(tag, header);
  }

  lemma PrefixLines(pre: string, block: string, h: string, c: string)
    requires block == h + ['\n'] + c
    ensures pre + block == (pre + h) + ['\n'] + c
  {
  }

  /** A block whose cleaned first line is the record's three tokens and whose
      other lines are its content parses to the record. */
  lemma ParseOfLines(rec: string, r: RawRecord)
    requires rec != [] && WellFormed(r) && SplitLines(rec) != []
    requires Header(SplitLines(rec)) == JoinWith([r.name, r.date, r.timeText], ' ')
    requires SplitLines(rec)[1..] == (if r.content == [] then [] else [r.content])
    ensures ParseBlock(rec) == Some(r)
  {
    WordsOfJoined([r.name, r.date, r.timeText]);
    ContentOfLines(r, SplitLines(rec));
  }

  /** Parsing a tagged block drops the tag (spaces in it included, as the tag is
      removed before the header is split) and gives back the record. */
  lemma ParseRenderTagged(tag: string, r: RawRecord)
    requires WellFormed(r) && NoLineBreak(tag) && TagClose !in tag
    ensures ParseBlock(RenderTagged(tag, r)) == Some(r)
  {
    var header := JoinWith([r.name, r.date, r.timeText], ' ');
    var pre := [TagOpen] + tag + [TagClose];
    HeaderLineOfRecord(r);
    JoinThree(r.name, r.date, r.timeText, ' ');
    assert header[|header| - 1] == r.timeText[|r.timeText| - 1];
    TaggedHeader(tag, header);
    PrefixLines(pre, Render(r), header, r.content);
    LinesOfBlock(pre + header, r.content);
    ParseOfLines(RenderTagged(tag, r), r);
  }
}
