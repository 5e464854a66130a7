# qq-chat-viz in Dafny

A model of the analysis done by `main.py` of qq-chat-viz. The script reads an
exported QQ group-chat transcript and produces:

- the number of message blocks;
- the number of messages per QQ name;
- the number of messages per weekday;
- a deduplicated, sorted index of (author, active date) pairs;
- every author's longest run of consecutive active days;
- a word-frequency table of the chat contents.

The stages each have their own module:

| module | stage | main.py |
|---|---|---|
| `Text` | the Python string primitives the script relies on. These are `str.isspace`, `strip`, `split`, `splitlines`, `join`, `split(sep)`, `replace(pat, '')` and the one-tag strip `re.sub(r'^【[^】]*】', '', s)`. | |
| `Segmenter` | `re.split` with the header lookahead, then the drop-blank/strip comprehension | 16-17 |
| `Records` | the header/content parsing loop that builds `data_list` | 21-42 |
| `Calendar` | proleptic Gregorian dates as ordinals (`date.toordinal()`), day gaps, weekdays, the datetime64[ns] range | 49-53, 65, 92 |
| `Timestamps` | `pd.to_datetime(..., format='%Y/%m/%d %H:%M:%S', errors='coerce')`, `dropna`, the cleaned rows | 44-56, 65 |
| `Tally` | `value_counts()`, generic in the value type | 63, 127 |
| `Activity` | `drop_duplicates`/`sort_values` on (QQ, date), then `groupby(level=0)` | 78-88, 108 |
| `Streaks` | `calculate_consecutive_days` | 90-106 |
| `Vocabulary` | the corpus, placeholder removal, the token filter and the frequency table | 112-127 |
| `Pipeline` | the whole run, its weekday table, and its behaviour on a transcript with no records | 44-127 |

Other modelling choices:

- Dates are day numbers. The day gap of `diff().dt.days` is then a subtraction, and `dt.weekday + 1` is `(n + 6) % 7 + 1`.
- The word segmenter (`jieba.lcut`) is a function parameter, so the word-frequency properties hold for every segmenter.
- The contents of `stopwords.txt` are a string parameter.
- The transcript is a string parameter: the file read at lines 10-11 becomes the input `txt`.

The imperative parts of the script are Dafny methods. Each one is proved equal to a specification function, and the properties are lemmas about those functions:

- the parsing loop: `Records.ParseRecords`;
- the row-wise conversion and `dropna`: `Timestamps.CleanRecords`;
- the deduplication and the sort: `Activity.DropDuplicates`, `Activity.SortEntries` and `Activity.ActiveIndex`;
- the split scan: `Segmenter.Segment`;
- the whole run: `Pipeline.Analyze`.

## Model

| member | source | states |
|---|---|---|
| Segmenter.Segment | main.py:16-17 | one scan over the text that cuts where the header lookahead matches, then strips the pieces and drops blank ones; returns exactly `Blocks(txt)` |
| Segmenter.PiecesAreLookaheadSplit | main.py:16 | the pieces are consecutive slices covering the text; every piece after the first starts where the lookahead matches; no match lies strictly inside a piece |
| Segmenter.RegexGroupIsRun | main.py:16 | `\d{1,2}` followed by a non-digit separator matches, in either of its two alternatives, exactly the whole run of digits when that run has length 1 or 2 |
| Segmenter.RegexGroupThen | main.py:16 | the same with the rest of the pattern after the separator: the two alternatives, each continuing at its own position, hold exactly when the digit run has length 1 or 2 and the rest matches after it |
| Segmenter.MonthFromIsRegexGroup | main.py:16 | the modelled month field is the pattern's `\d{1,2}/` group with both alternatives written out |
| Segmenter.DayFromIsRegexGroup | main.py:16 | the modelled day field is the pattern's `\d{1,2}\s` group with both alternatives written out |
| Segmenter.HourFromIsRegexGroup | main.py:16 | the modelled hour field is the pattern's `\d{1,2}:` group with both alternatives written out |
| Segmenter.DateTimeAtIsRegex | main.py:16 | the date-time shape is four digits, a '/', and the month group, with no fifth digit admitted |
| Segmenter.DateTimeOfText | main.py:16 | the shape matches wherever a date and time with widths 4, 1-2, 1-2, 1-2, 2 and 2 are written, whatever precedes or follows them |
| Segmenter.HeaderLine | main.py:16 | a line made of a non-empty lead without a line break, then such a date and time, then anything, is where the lookahead matches |
| Segmenter.HeaderExample | main.py:16 | the header "Alice 2024/1/5 9:03:07" (one-digit month, day and hour) starts a block |
| Segmenter.ThreeDigitMonthRejected | main.py:16 | a year followed by a three-digit month does not start the shape |
| Segmenter.MatchedPieceNotBlank | main.py:16-17 | a piece that starts at a header match is never blank, because the date digit of its header lies inside it |
| Segmenter.BlockCount | main.py:16-18 | the record count is the number of matches, plus one exactly when the text before the first header is not blank |
| Segmenter.KeepNonBlankTrimmed | main.py:17 | every kept block is non-empty and has no whitespace at either end |
| Text.StripMeetsSpec | main.py:17 | `strip()` returns the middle of its input, with only whitespace cut from both ends and no whitespace left at either end |
| Text.StripUnique | main.py:17 | there is only one such trimmed middle |
| Text.StripIdempotent | main.py:17 | stripping a stripped string changes nothing |
| Text.StripTag | main.py:26 | drops the shortest leading 【…】 group when the string starts with 【 and contains a 】, and otherwise returns the string unchanged |
| Text.WordsOfJoined | main.py:27 | `split()` of non-empty, whitespace-free words joined by single spaces gives the words back |
| Text.ConcatSplitLines | main.py:35 | joining the lines of `splitlines()` with '' is the text with every line boundary deleted |
| Text.SplitOnJoin | main.py:112 | splitting a join at a separator that occurs in none of the parts gives the parts back |
| Text.JoinSplitOn | main.py:112 | joining the parts of a split at the separator gives the text back |
| Text.RemoveAllAbsent | main.py:117 | `replace(pat, '')` leaves a text without pat unchanged |
| Records.ParseRecords | main.py:21-42 | the loop appends the record of every block whose header has at least three tokens and skips the others; the result equals the record-by-record specification `ParsedAll` |
| Records.ParseBlockHeader | main.py:23-33 | a block yields a record exactly when its first line, stripped and with a leading 【…】 group removed, has at least three tokens; name, date and time are the first three |
| Records.ParseBlockTokens | main.py:27-33 | name, date and time are non-empty and contain no whitespace |
| Records.ParseBlockContent | main.py:35-36 | the content is the text after the first line boundary, with line boundaries deleted, stripped, and with one leading 【…】 group removed |
| Records.ParsedAllAppend | main.py:22-42 | blocks are parsed independently: parsing a + b gives the records of a followed by those of b |
| Records.ParsedOne | main.py:22-42 | a single block contributes its record or nothing |
| Records.ParseRender | main.py:23-42 | parsing the block "name date time\ncontent" of a well-formed record gives that record back |
| Records.ParseRenderTagged | main.py:23-42 | parsing the block "【tag】name date time\ncontent", with any tag free of 】 and line breaks (spaces allowed), drops the tag and gives the record back |
| Records.ParsedAllEmpty | main.py:22-42 | `data_list` stays empty exactly when no block yields a record |
| Timestamps.ToDatetime | main.py:49 | a conversion that succeeds yields a valid timestamp inside the datetime64[ns] range, and its date and time are the `/`- and `:`-separated tokens of widths 4, 1-2, 1-2 and 1-2, 1-2, 1-2 it was given, read as decimal numbers |
| Timestamps.ToDatetimeOfFormat | main.py:49 | tokens in the `%Y/%m/%d %H:%M:%S` layout convert exactly when their fields form a valid timestamp, and then to that timestamp; otherwise they give NaT |
| Timestamps.ToDatetimeOfTokens | main.py:49 | digit tokens of widths 4 and 1-2, joined by '/' and ':', convert exactly when the numbers they spell form a valid timestamp, and then to that timestamp |
| Timestamps.UnpaddedAccepted | main.py:49 | the unpadded "2024/1/5" "9:03:07" converts to 5 January 2024, 9:03:07 |
| Timestamps.ToDatetimeRoundTrip | main.py:49 | reading back the formatted tokens of any valid timestamp gives the same timestamp |
| Timestamps.ValidYears | main.py:49 | every timestamp that converts has a year between 1677 and 2262 |
| Timestamps.LeapDayAccepted | main.py:49 | 2024/02/29 converts |
| Timestamps.NonLeapDayRejected | main.py:49 | 2023/02/29 is NaT |
| Timestamps.MinuteSixtyRejected | main.py:49 | minute 60 is NaT |
| Timestamps.CleanRecords | main.py:49-56 | the row loop keeps exactly the records whose timestamp converts, in order, each with its name, content and timestamp; the result equals `Cleaned` |
| Timestamps.CleanedValid | main.py:51 | every row left after `dropna` carries a valid timestamp |
| Timestamps.CleanedAppend | main.py:49-51 | records are converted and dropped one at a time, keeping their order |
| Timestamps.CleanedOne | main.py:49-53 | a record survives exactly when its date and time convert; it keeps its name and content |
| Timestamps.WeekdayOf | main.py:65 | `dt.weekday + 1` lies in 1..7 |
| Calendar.WeekdayMonday | main.py:65 | a day is a Monday (1) exactly when its day number is 1 modulo 7 |
| Calendar.WeekdayAnchors | main.py:65 | 1 January 2024 is a Monday (1) and 1 January 1970 a Thursday (4) |
| Calendar.WeekdayNext | main.py:65 | consecutive days have consecutive weekdays, with Sunday (7) followed by Monday (1) |
| Calendar.ConsecutiveDays | main.py:92-93 | a day gap of exactly 1 holds exactly when the later date is the calendar day after the earlier one |
| Calendar.NextDateNumber | main.py:92 | the day after a date has the next day number |
| Calendar.DayNumberMonotone | main.py:82 | chronological order of dates is the order of their day numbers |
| Calendar.DayNumberInjective | main.py:79 | distinct valid dates have distinct day numbers |
| Activity.StrLessTotal | main.py:82 | Python's string order is total |
| Activity.StrLessTransitive | main.py:82 | Python's string order is transitive |
| Activity.StrLessIrreflexive | main.py:82 | Python's string order is irreflexive |
| Activity.StrLessChars | main.py:82 | on one-character strings the order is the order of the code points |
| Activity.StrLessPrefix | main.py:82 | a proper prefix sorts before the longer string |
| Activity.StrLessExample | main.py:82 | "Bob" sorts before "alice", as upper-case letters come first in code-point order |
| Activity.DropDuplicates | main.py:79 | the loop keeps the first row of every (QQ, date) pair; no pair twice and no pair lost; equals `Dedup` |
| Activity.SortEntries | main.py:82 | the result is sorted by author and then date, is a permutation of the input, and equals the insertion-sort specification `SortedOf` |
| Activity.ActiveIndex | main.py:78-83 | df1 built from the cleaned rows equals `ActiveDays`: pairs first deduplicated, then sorted |
| Activity.ActiveDaysSpec | main.py:78-83 | df1 is strictly ascending by (author, date), and a pair is in it exactly when some cleaned row has that author and date |
| Activity.StrictlySortedUnique | main.py:82 | two strictly sorted lists with the same members are equal, so the sort algorithm does not affect df1 |
| Activity.EntriesKeyDates | main.py:79 | two rows get the same entry exactly when they have the same name and the same calendar date |
| Activity.AuthorsAscending | main.py:88-108 | groupby yields the authors of a sorted index in strictly ascending order |
| Activity.GroupSpec | main.py:88-108 | each group is non-empty, strictly ascending, and holds exactly the days its author appears with |
| Activity.StreakTable | main.py:108 | the table has one row per group key, in group order |
| Activity.StreakTableAuthors | main.py:78-108 | the result has one row for each author of a cleaned row and for no one else, in strictly ascending author order |
| Activity.StreakTableRow | main.py:88-108 | each row holds `calculate_consecutive_days` of its author's active dates. Those dates are non-empty, ascending and exactly the days the author wrote; the streak length is between 1 and their number. |
| Streaks.StreakSmall | main.py:102-106 | zero dates give (0, None, None); one date d gives (1, d, d) |
| Streaks.StreakIsRun | main.py:91-99 | the reported run is a run of consecutive days within the dates; it is reported by its length and its first and last day |
| Streaks.StreakIsLongest | main.py:95 | no run of consecutive days is longer than the reported one |
| Streaks.StreakIsEarliest | main.py:96 | a run as long as the reported one does not start before it: ties go to the earliest run |
| Streaks.StreakIsMaximal | main.py:93-97 | the reported run cannot be extended on either side |
| Streaks.StreakBounds | main.py:91-101 | 1 <= length <= number of dates, and end - start = length - 1 days |
| Streaks.StreakTieExample | main.py:95-99 | for the days 10-12, 20-22 and 30, the first run of three, 10..12, is reported |
| Tally.ValueCountsSpec | main.py:127 | every value once with its exact, positive number of occurrences; counts non-increasing; the counts add up to the input length |
| Tally.ValueCountsKeys | main.py:127 | a value is a key of the table exactly when it occurs in the input |
| Vocabulary.RemoveAllMark | main.py:117 | `replace(pat, '')` removes a placeholder and keeps the text around it |
| Vocabulary.CorpusPlain | main.py:112-117 | contents without '[' contain no placeholder, so the corpus is their '。'-join |
| Vocabulary.CorpusSplits | main.py:112-117 | splitting such a corpus at '。' gives the contents back |
| Vocabulary.Names | main.py:119 | the name set holds exactly the names of the cleaned rows |
| Vocabulary.FilterIsSubsequence | main.py:122-126 | the kept words are the segmenter's tokens at exactly the positions whose token passes the four tests, in their original order |
| Vocabulary.FilterCount | main.py:122-126 | a token that passes is kept as often as it occurs, and a token that fails is never kept |
| Vocabulary.FilterKeeps | main.py:122-126 | every kept word is not a stop word, is longer than one character, has no digit and is not a user name |
| Vocabulary.FilterAppend | main.py:122-126 | filtering works token by token, so it distributes over concatenation |
| Vocabulary.WordCountsSpec | main.py:112-127 | the frequency table lists each passing token of the segmented corpus once, most frequent first, with its number of occurrences; the counts add up to the number of kept words |
| Vocabulary.WordCountsKeys | main.py:121-127 | a word is in the table exactly when the segmenter produced it and it passes the four tests |
| Pipeline.WeekTable | main.py:66 | the table lists weekdays in strictly ascending order, each with its exact, positive count |
| Pipeline.WeekdayCountsSpec | main.py:65-69 | the weekday table is in weekday order with keys in 1..7. A weekday is listed exactly when some message was sent on it, with its exact count. The table is empty exactly when no row survived. |
| Pipeline.AsWritten | main.py:44-49 | the run as written stops with a KeyError exactly when `data_list` is empty, and the missing column is 'date'; otherwise it finishes with the statistics of `Analysis` |
| Pipeline.NoRecordsIff | main.py:21-49 | `data_list` is empty exactly when every block's cleaned first line has fewer than three tokens |
| Pipeline.AsWrittenCrashes | main.py:21-49 | the as-written run stops with KeyError('date') exactly when every block's cleaned first line has fewer than three tokens |
| Pipeline.EmptyTranscriptCrashes | main.py:44-49 | the empty transcript makes the as-written run stop with KeyError('date') |
| Pipeline.Analyze | main.py:16-127 | the whole run computed stage by stage with the methods above, equal to `Analysis` |
| Pipeline.AnalysisOfNoRecords | main.py:44-127 | with the empty case handled, a transcript without records gives empty tables and keeps only the block count |

## Left out

- File I/O and printing (main.py:10-13, 113-115 and every `print`): the transcript and the stop-word text are parameters, and nothing is printed.
- Plotting and the word cloud (main.py:69-76, 129-141): drawing, HTML rendering and `head()` are output only.
- jieba's segmentation (main.py:121): a foreign dictionary-based segmenter. It is the `segment` parameter, and every property holds for any segmenter.
- `strftime('%Y-%m-%d')` (main.py:98-99, 103): start and end dates are reported as day numbers. `Calendar.DayNumberInjective` shows that no information is lost.
- `\d` and `re.search(r'\d', …)` match ASCII digits only in the model. Python also matches other Unicode decimal digits.
- Timestamps.ToDatetime: the model reads `%Y` as exactly 4 ASCII digits and every other field as 1 or 2 ASCII digits, accepts seconds 0-59 only, and gives NaT outside datetime64[ns]. This is pandas' exact-format fast path. The fallback parser of pandas 2 (`_parse_with_format`) also admits seconds 60 and 61 and non-ASCII decimal digits; that difference is not modelled. Fractional seconds and nanosecond bounds do not apply to whole-second tokens.
- Tally.ValueCountsSpec: the order among equal counts is not stated. The model uses one stable order, and pandas gives no guarantee.
- Streaks.LongestStreak: the empty-dates branch (main.py:105-106) is modelled by `Streaks.StreakSmall`. `Activity.StreakTableRow` shows that the pipeline never reaches it.
- Activity.Entries: df1 keys a date by its day number, not by a `datetime.date`. `Activity.EntriesKeyDates` proves the two merge the same rows.
- `df['QQ'] = df['name']` (main.py:56) is the `name` field itself.
- `reset_index` and `set_index` (main.py:80, 83, 88) only renumber rows; they are not modelled separately.
- The DataFrame columns `time_str` and `date` as strings are not kept after conversion.

## Findings

| source | as written | input that shows it | evidently intended | confidence | as-written member | corrected member |
|---|---|---|---|---|---|---|
| main.py:44-49 | When no block yields a record, `pd.DataFrame(data_list)` has no columns, so `df['date']` at line 49 raises KeyError | the empty transcript `""`; also any transcript in which no block's cleaned first line has three tokens | the statistics come out empty, as the `weekday_counts.empty` branch at main.py:69-76 expects | not executed | Pipeline.AsWrittenCrashes | Pipeline.AnalysisOfNoRecords |
