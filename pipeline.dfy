/** main.py from transcript text to the statistics it reports: the record
    count, the messages per QQ name, the messages per weekday, the
    deduplicated activity index, the per-author streak table and the word
    frequencies. */
module Pipeline {
  import opened Text
  import opened Seqs
  import opened Calendar
  import opened Segmenter
  import opened Records
  import opened Timestamps
  import opened Tally
  import opened Activity
  import opened Vocabulary

  // ---------------------------------------------------------------- weekdays

  /** `df['weekday']`: 1 for Monday through 7 for Sunday. */
  function Weekdays(rows: seq<Row>): (wds: seq<int>)
    requires AllValid(rows)
    ensures |wds| == |rows|
    ensures forall i :: 0 <= i < |rows| ==> 1 <= wds[i] <= 7
  {
    seq(|rows|, i requires 0 <= i < |rows| => WeekdayOf(rows[i]))
  }

  /** The weekdays from w to 7 that occur, each with its count, in weekday order. */
  function WeekTable(wds: seq<int>, w: int): (t: seq<Pair<int>>)
    requires 1 <= w <= 8
    ensures forall i :: 0 <= i < |t| ==> w <= t[i].key <= 7 && t[i].count == Count(wds, t[i].key) && t[i].count > 0
    ensures forall i, j :: 0 <= i < j < |t| ==> t[i].key < t[j].key
    decreases 8 - w
  {
    if w == 8 then []
    else (if Count(wds, w) > 0 then [Pair(w, Count(wds, w))] else []) + WeekTable(wds, w + 1)
  }

  /** `df['weekday'].value_counts().sort_index()`. */
  function WeekdayCounts(rows: seq<Row>): seq<Pair<int>>
    requires AllValid(rows)
  {
    WeekTable(Weekdays(rows), 1)
  }

  lemma HasKeyAppend(a: seq<Pair<int>>, b: seq<Pair<int>>, v: int)
    ensures HasKey(a + b, v) <==> HasKey(a, v) || HasKey(b, v)
  {
    if HasKey(b, v) {
      var i :| 0 <= i < |b| && b[i].key == v;
      assert (a + b)[|a| + i] == b[i];
    }
    if HasKey(a, v) {
      var i :| 0 <= i < |a| && a[i].key == v;
      assert (a + b)[i] == a[i];
    }
    if HasKey(a + b, v) {
      var i :| 0 <= i < |a + b| && (a + b)[i].key == v;
      if i >= |a| {
        assert b[i - |a|] == (a + b)[i];
      }
    }
  }

  /** A weekday from w on is listed exactly when it occurs. */
  lemma {:induction false} WeekTableKeys(wds: seq<int>, w: int, v: int)
    requires 1 <= w <= v <= 7
    ensures HasKey(WeekTable(wds, w), v) <==> Count(wds, v) > 0
    decreases 8 - w
  {
    var head := if Count(wds, w) > 0 then [Pair(w, Count(wds, w))] else [];
    var rest := WeekTable(wds, w + 1);
    HasKeyAppend(head, rest, v);
    if v > w {
      WeekTableKeys(wds, w + 1, v);
    } else {
      assert !HasKey(rest, v) by {
        forall i | 0 <= i < |rest| ensures rest[i].key != v {
        }
      }
      if Count(wds, w) > 0 {
        assert head[0].key == v;
      }
    }
  }

  /** The weekday table lists, in weekday order, exactly the weekdays on which
      some message was sent, each with its number of messages; it is empty
      exactly when no row survived, the case main.py:69-76 tests for. */
  lemma WeekdayCountsSpec(rows: seq<Row>)
    requires AllValid(rows)
    ensures var t := WeekdayCounts(rows);
      && (forall i, j :: 0 <= i < j < |t| ==> t[i].key < t[j].key)
      && (forall i :: 0 <= i < |t| ==> 1 <= t[i].key <= 7 && t[i].count == Count(Weekdays(rows), t[i].key) && t[i].count > 0)
      && (forall v :: 1 <= v <= 7 ==> (HasKey(t, v) <==> v in Weekdays(rows)))
      && (t == [] <==> rows == [])
  {
    forall v | 1 <= v <= 7 ensures HasKey(WeekdayCounts(rows), v) <==> v in Weekdays(rows) {
      WeekdayKey(Weekdays(rows), v);
    }
    if rows != [] {
      var wds := Weekdays(rows);
      assert wds[0] in wds;
      WeekdayKey(wds, wds[0]);
    }
  }

  lemma WeekdayKey(wds: seq<int>, v: int)
    requires 1 <= v <= 7
    ensures HasKey(WeekTable(wds, 1), v) <==> v in wds
  {
    WeekTableKeys(wds, 1, v);
    if v in wds {
      CountPositive(wds, v);
    } else {
      CountAbsent(wds, v);
    }
  }

  // ---------------------------------------------------------------- the run

  /** `df['QQ']`. */
  function NameColumn(rows: seq<Row>): (names: seq<string>)
    ensures |names| == |rows| && forall i :: 0 <= i < |rows| ==> names[i] == rows[i].name
  {
    seq(|rows|, i requires 0 <= i < |rows| => rows[i].name)
  }

  /** What the script computes and prints. */
  datatype Report = Report(
    recordCount: nat,
    perAuthor: seq<Pair<string>>,
    perWeekday: seq<Pair<int>>,
    index: seq<Entry>,
    streaks: seq<AuthorStreak>,
    words: seq<Pair<string>>)

  lemma BlocksNonEmpty(txt: string)
    ensures AllNonEmpty(Blocks(txt))
  {
    KeepNonBlankTrimmed(Pieces(txt));
  }

  /** `data_list` after the parsing loop. */
  function DataList(txt: string): seq<RawRecord> {
    BlocksNonEmpty(txt);
    ParsedAll(Blocks(txt))
  }

  /** The statistics of a transcript, computed stage by stage. */
  function Analysis(txt: string, stopText: string, segment: string -> seq<string>): Report {
    var blocks := Blocks(txt);
    var data := DataList(txt);
    var rows := Cleaned(data);
    CleanedValid(data);
    var index := ActiveDays(rows);
    Report(|blocks|, ValueCounts(NameColumn(rows)), WeekdayCounts(rows), index,
           StreakTable(index), WordCounts(rows, stopText, segment))
  }

  /** The run of main.py as written: line 49 reads the `date` column, which a
      DataFrame built from an empty `data_list` does not have. */
  datatype Outcome = KeyError(column: string) | Finished(report: Report)

  function AsWritten(txt: string, stopText: string, segment: string -> seq<string>): (o: Outcome)
    ensures o.KeyError? <==> DataList(txt) == []
    ensures o.KeyError? ==> o.column == "date"
    ensures o.Finished? ==> o.report == Analysis(txt, stopText, segment)
  {
    if DataList(txt) == [] then KeyError("date")
    else Finished(Analysis(txt, stopText, segment))
  }

  /** An empty transcript has no blocks. */
  lemma EmptyTranscriptBlocks(txt: string)
    requires txt == []
    ensures Blocks(txt) == []
  {
    assert Marks(txt, 0) == [];
    assert Bounds(txt) == [0, 0];
    assert Pieces(txt) == [[]];
    assert KeepNonBlank([[]]) == KeepNonBlank([]) + KeepOne([]);
  }

  /** The as-written script stops with KeyError on an empty transcript. */
  lemma EmptyTranscriptCrashes(txt: string, stopText: string, segment: string -> seq<string>)
    requires txt == []
    ensures AsWritten(txt, stopText, segment) == KeyError("date")
  {
    EmptyTranscriptBlocks(txt);
    assert DataList(txt) == [];
  }

  /** No record is parsed exactly when every block's header line (stripped,
      one leading 【…】 group removed) has fewer than three tokens. */
  lemma NoRecordsIff(txt: string)
    ensures var bs := Blocks(txt);
      DataList(txt) == [] <==>
        forall k :: 0 <= k < |bs| ==> |Text.Words(StripTag(Strip(FirstLine(bs[k]))))| < 3
  {
    var bs := Blocks(txt);
    BlocksNonEmpty(txt);
    ParsedAllEmpty(bs);
    forall k | 0 <= k < |bs|
      ensures ParseBlock(bs[k]).None? <==> |Text.Words(StripTag(Strip(FirstLine(bs[k]))))| < 3
    {
      ParseBlockHeader(bs[k]);
    }
  }

  /** The as-written script stops with KeyError('date') on every transcript
      in which no block has a header of three tokens, and only then. */
  lemma AsWrittenCrashes(txt: string, stopText: string, segment: string -> seq<string>)
    ensures var bs := Blocks(txt);
      AsWritten(txt, stopText, segment) == KeyError("date") <==>
        forall k :: 0 <= k < |bs| ==> |Text.Words(StripTag(Strip(FirstLine(bs[k]))))| < 3
  {
    NoRecordsIff(txt);
  }

  /** main.py with the empty case handled: every stage runs on whatever
      records there are. */
  method Analyze(txt: string, stopText: string, segment: string -> seq<string>) returns (report: Report)
    ensures report == Analysis(txt, stopText, segment)
  {
    var blocks := Segment(txt);
    BlocksNonEmpty(txt);
    var data := ParseRecords(blocks);
    var rows := CleanRecords(data);
    CleanedValid(data);
    var index := ActiveIndex(rows);
    report := Report(|blocks|, ValueCounts(NameColumn(rows)), WeekdayCounts(rows), index,
                     StreakTable(index), WordCounts(rows, stopText, segment));
  }

  /** A transcript without a single record gives empty tables (only the
      block count is kept), given a segmenter that finds no word in the empty
      corpus, as jieba does. */
  lemma AnalysisOfNoRecords(txt: string, stopText: string, segment: string -> seq<string>)
    requires DataList(txt) == [] && segment([]) == []
    ensures var r := Analysis(txt, stopText, segment);
      && r.recordCount == |Blocks(txt)|
      && r.perAuthor == [] && r.perWeekday == [] && r.index == [] && r.streaks == [] && r.words == []
  {
    var rows := Cleaned(DataList(txt));
    assert rows == [];
    assert Contents(rows) == [];
    assert JoinWith([], Separator) == [];
    assert Corpus([]) == [];
    WeekdayCountsSpec(rows);
    assert NameColumn(rows) == [];
    assert Entries(rows) == [];
  }
}
