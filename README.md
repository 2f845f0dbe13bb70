# Mountain forecast scraper: a verified model of its core

`Weather3.py` scrapes six-day forecasts for a list of mountains. For each
mountain page it reads a header row of day cells and four flat body rows:
time, summary, maximum and minimum temperature. Each day cell carries a
label such as "Thu 13" and a `colspan`. The program aligns the body
columns with the days and emits one record per column,
`[day_of_week, date, time, summary, max, min]`, after the mountain's
`[name, elevation]`. A separate routine, `save_data`, merges a batch of
seven-column forecast rows into the stored dataset, keyed by mountain,
date, elevation and time.

This project models three parts of that program in Dafny:

- **The string helpers** (`text.dfy`, module `Text`).
  - `clean`, which is `re.sub('\s+', ' ', text).strip()`.
  - `str.split(' ')` applied to a day label.
  - `int()` applied to the day-of-month token.
  - The elevation, `url.rsplit('/', 1)[-1]`.
- **The calendar check** that `datetime.date(year, month, day)` performs (`calendar.dfy`).
- **The scrape loop** (`grid.dfy`, `scrape.dfy`).
  - `Grid.DecodeDays` is an imperative method for the day loop. It has an
    inner column loop (`Grid.ReadColumns`) and is proved equal to the
    functional decoder `Grid.DecodeAsWritten`.
  - `Scrape.ScrapeAll` is the mountain loop. It builds `rows` with the
    `append` / `rows[k]` / `k += 1` steps of the source and is proved equal
    to `Scrape.ScrapePages`.
  - Column ranges are computed with the source's formula
    `range(i*colspan[i-1], (i+1)*colspan[i])`, exactly as written.
- **The running-offset alignment** (`grid_offset.dfy`). Each day is read from
  the columns the header row lays out under it. The project proves where
  this alignment and the source's formula agree, and `findings.dfy` gives
  two inputs on which they part ways.
- **The dataset merge** of `save_data` (`dataset.dfy`). It is modelled as a
  function on sequences of rows, with the stored dataset as an `Option`
  (None when there is no file).

Python's exceptions become typed errors in the model:

- The scrape returns a `Result`, whose error names the exception the loop
  raises: an IndexError on the label split or on a body row, or a
  ValueError from `int()`, or a ValueError or OverflowError from
  `datetime.date` (the latter for a day-of-month outside the range of a C
  int). Either way the exception ends the scrape.
- The merge fails only where `DataFrame.update` raises when it reindexes
  the batch on the stored index. That happens when a dataset is already
  stored, the batch holds one index twice, and the batch's index is not
  equal, row for row, to the stored one.

## Model

| member | source | states |
|---|---|---|
| Text.Clean | Weather3.py:77-80 | `clean` computed in one pass: leading whitespace dropped, each inner whitespace run turned into one ' ', trailing whitespace dropped; its meaning is stated by `Text.CleanMatchesSource` and `Text.CleanSpec` |
| Text.CleanMatchesSource | Weather3.py:77-80 | the one-pass `Clean` equals whitespace runs collapsed to one space (`Collapse`) followed by `strip` (`Strip`), the expression `clean` evaluates |
| Text.CleanSpec | Weather3.py:77-80 | `clean`'s result has no whitespace at either end, no two adjacent whitespace characters, no whitespace but ' ', and the input's non-whitespace characters in order |
| Text.CleanFixesNormalized | Weather3.py:77-80 | a string already in that shape is returned unchanged |
| Text.CleanIdempotent | Weather3.py:77-80 | cleaning twice equals cleaning once |
| Text.CleanEmptyIff | Weather3.py:146-153 | the cleaned label is empty exactly when the label is all whitespace |
| Text.Split | Weather3.py:155-160 | `str.split(' ')` yields at least one piece, and no piece holds the separator |
| Text.SplitFirst | Weather3.py:160 | the first piece of a split is the text before the first separator: a prefix of the string, followed by the separator unless it is the whole string |
| Text.JoinSplit | Weather3.py:155 | joining the pieces of `split(' ')` with ' ' gives the string back |
| Text.SplitJoin | Weather3.py:155 | splitting a ' '-join of pieces without ' ' gives the pieces back |
| Text.IntOf | Weather3.py:155 | `int()` of a token: surrounding whitespace ignored, an optional sign, then ASCII decimal digits; anything else is the ValueError (None); its meaning is stated by `Text.IntOfDecimal` and `Text.IntOfNegative` |
| Text.IntOfDecimal | Weather3.py:155 | `int()` reads every decimal numeral back as its value |
| Text.IntOfNegative | Weather3.py:155 | `int()` reads a numeral with a leading '-' as the negated value |
| Text.LastSegment | Weather3.py:125 | the elevation is a suffix of the URL, holds no '/', and is the whole URL or is preceded by '/' |
| Text.LastSegmentOf | Weather3.py:125 | a URL ending in '/' followed by a '/'-free segment yields that segment |
| Calendar.DaysInMonth | Weather3.py:155 | months have 28 to 31 days; February has 29 exactly in Gregorian leap years |
| Calendar.MakeDate | Weather3.py:155 | `datetime.date` succeeds exactly when the day is within the month, and then holds the given year, month and day |
| Grid.DayOfWeek | Weather3.py:160 | `current_day.split(' ', 1)[0]`, the first piece of the label; its meaning is stated by `Grid.DayOfWeekFirstToken` |
| Grid.DayOfWeekFirstToken | Weather3.py:160 | the day of week is a prefix of the label holding no space, followed by a space unless it is the whole label |
| Grid.ParseDate | Weather3.py:155 | the date is built exactly when the label has a second token, `int()` accepts it, and its value is a day of the month; the date is (year, month, that value) |
| Grid.ParseLabel | Weather3.py:146-160 | a label "word numeral" like "Thu 13" is unchanged by `clean`, its day of week is the word and its date is (year, month, numeral) |
| Grid.ShortRow | Weather3.py:161-167 | the reported row is the first, in the order the loop reads them, that lacks the column |
| Grid.BlankDayYieldsNothing | Weather3.py:146-153 | a day whose label is all whitespace yields no records |
| Grid.SpansIgnoreLabels | Weather3.py:145-158 | the source's column ranges depend only on the positions and colspans of the days, so a blank day still shifts the days after it; day 0 starts at column 0 |
| Grid.ColumnBlock | Weather3.py:158-173 | the column loop of one day succeeds exactly when its range is empty or every body row has its last column; on failure the error is an IndexError on a column of the range that some row lacks, the first such column |
| Grid.DayBlock | Weather3.py:153-173 | one day's records: none for a blank label; a non-blank day succeeds only when its date can be built |
| Grid.DayRecords | Weather3.py:153-173 | record k of a day holds the label's first token, the date from its second token, and the cleaned time, summary, max and min cells of column lo + k, in that order |
| Grid.DayBlockFails | Weather3.py:153-173 | a non-blank day fails exactly when its date cannot be built or its range reaches past the shortest body row; the failing column is the first missing one |
| Grid.DecodeFailureSticks | Weather3.py:145-173 | an exception raised by a day ends the loop with that exception |
| Grid.DecodeSucceedsIff | Weather3.py:145-173 | the day loop succeeds exactly when every day does |
| Grid.DecodeFirstError | Weather3.py:145-173 | a failed loop reports the exception of the first day that fails, all days before it having succeeded |
| Grid.DecodeLength | Weather3.py:145-173 | a successful loop yields, per non-blank day, as many records as its range has columns |
| Grid.DecodeAligned | Weather3.py:145-173 | when every range starts where the records before it end, record p holds column p of every body row |
| Grid.DecodeFromBody | Weather3.py:145-173 | every record holds the cleaned cells of a column that every body row has, and a valid date in the given month |
| Grid.BlockPlacement | Weather3.py:145-173 | the records of day i form one contiguous run, right after those of the days before it |
| Grid.RecordOfColumn | Weather3.py:155-173 | the record at position TotalWidth(i) + k is, field by field, the record of column lo + k of day i |
| Grid.ReadColumns | Weather3.py:158-173 | the column loop yields the records of columns lo..hi-1 in order, or the IndexError of the first missing cell |
| Grid.DecodeDays | Weather3.py:145-173 | the day loop, with `current_day`, `num_cols` and `num_cols_last`, computes the decode over the ranges of line 158 |
| Grid.SourceSpan | Weather3.py:147-158 | day i's column range `range(i*num_cols_last, (i+1)*num_cols)`, with `num_cols_last` 0 for day 0; its consequences are stated by `Grid.SourceSpans`, `Grid.SpansIgnoreLabels` and `Findings.TwoSlotFirstDay` |
| Grid.SourceSpans | Weather3.py:147-158 | one range per day; day 0 starts at column 0 and every later range starts where the one before it ends; a range whose end falls below its start is empty and pulls the next range back, so ranges can overlap (`Findings.BackwardRangeOverlap`) |
| Grid.DecodeAsWritten | Weather3.py:145-173 | the day loop over the ranges of line 158; `Grid.DecodeDays` computes it, and the `Grid.Decode*` lemmas state its properties |
| Grid.EqualSpansAsWritten | Weather3.py:147-158 | when every colspan is c, day i is read from columns i*c to (i+1)*c - 1, a block of c columns |
| Grid.EqualSpansCount | Weather3.py:147-158 | ... so the days' ranges add up to c times the number of non-blank days |
| Grid.EqualSpansRecordCount | Weather3.py:145-173 | when every colspan is c, a successful loop yields c records per non-blank day |
| Grid.DecodeSpansAgree | Weather3.py:153-158 | two range assignments that agree on every non-blank day give the same result |
| GridOffset.DecodeByOffset | Weather3.py:145-173 | the day loop with each day read from the colspan columns after those of the days before it; a successful decode yields exactly colspan records per non-blank day |
| GridOffset.OffsetSucceedsIff | Weather3.py:145-173 | the running-offset decode succeeds exactly when every non-blank label yields a date and every non-blank day's columns exist |
| GridOffset.OffsetAttribution | Weather3.py:155-173 | each column the header lays out under a non-blank day is recorded with that day's weekday and date and with that column's cells |
| GridOffset.OffsetPositional | Weather3.py:145-173 | with no blank day, record p is the record of column p, and there is one per column spanned |
| GridOffset.SameSpansSameDecode | Weather3.py:147-158 | where the source's ranges equal the running offsets on every non-blank day, the two decodes are equal |
| GridOffset.EqualSpansAgree | Weather3.py:147-158 | when every colspan is the same, the source's formula and the running offsets decode alike |
| Findings.UnequalSpansOverrun | Weather3.py:158 | colspans 2 and 3 over five columns: the source raises IndexError on column 5; the running offsets decode all five columns |
| Findings.UnequalSpansMisattribute | Weather3.py:158 | colspans 2, 3 and 3 over nine columns: the source records column 5 under day 1's weekday, the running offsets under day 2's, and the two weekdays differ |
| Findings.LabelDayParses | Weather3.py:155 | every label of the form "word numeral" with a valid day meets the premises of the two findings, and its day of week is the word |
| Findings.BackwardRangeOverlap | Weather3.py:147-158 | with colspans 3, 3, 1, 3, day 2's range (6, 3) runs backwards and is empty, and day 3's range starts at column 3, so columns 3 to 5 are read by both day 1 and day 3 |
| Findings.TwoSlotFirstDay | Weather3.py:147-158 | with colspans 2, 3, 3, ..., the layout the display code at Weather3.py:208-209 expects when the first day has two slots left, the source reads day 1 from four columns and every later day one column to the right of the columns the header puts under it |
| Scrape.Take | Weather3.py:130-139 | the slice `[0:n]` keeps the first min(len, n) elements |
| Scrape.TruncatedBody | Weather3.py:133-139 | the body rows cut by `[0:num_days*3]`; its meaning is stated by `Scrape.TruncatedColumns` |
| Scrape.TruncatedColumns | Weather3.py:133-139 | the columns every cut row has are the first eighteen of those every full row has, holding the same cells |
| Scrape.ScrapePage | Weather3.py:118-173 | one mountain's row, or its day loop's exception; a row carries the mountain's name and, as elevation, the part of the URL after its last '/' |
| Scrape.ScrapeAll | Weather3.py:111-178 | the mountain loop builds one row per mountain, each the name, the elevation and the day loop's records, or stops at the first exception |
| Scrape.ScrapeRows | Weather3.py:118-178 | the scrape succeeds exactly when every page does, with rows in page order; otherwise it raises the first page's exception |
| Scrape.ScrapeReadsPrefix | Weather3.py:130-139 | days beyond the sixth and cells beyond the eighteenth never influence a row |
| Scrape.FromTruncatedBody | Weather3.py:133-173 | records read from the cut rows hold the cells of one of the first eighteen columns of the full rows, and a valid date in the given month |
| Scrape.PageRecordsFromFirstCells | Weather3.py:130-173 | every record holds the cells of one of the first eighteen columns and a valid date in the given month |
| Scrape.PageMatchesOffsets | Weather3.py:145-158 | a page whose six days share one colspan yields the running-offset records |
| Dataset.Lookup | Weather3.py:102 | the batch row that `update` takes is a batch row with the stored row's index; none exists when the index is absent from the batch |
| Dataset.DuplicateKey | Weather3.py:102 | a repeated index is found exactly when the batch does not hold each index once |
| Dataset.Update | Weather3.py:102 | `update` keeps the length and the index of every stored row, leaves rows whose index is not in the batch unchanged, and gives every other row the summary and temperatures of a batch row with its index |
| Dataset.UpdateErased | Weather3.py:102-104 | every row `update` changes is dropped by the filter of line 103, so the update has no effect on the result |
| Dataset.Retained | Weather3.py:103-104 | `old_df[only_include]`: the stored rows whose index is not in the batch, in order, never more rows than stored; its meaning is stated by `Dataset.RetainedMembers` |
| Dataset.RetainedMembers | Weather3.py:103-104 | a stored row is kept exactly when its index is not in the batch |
| Dataset.RetainedConcat | Weather3.py:103-104 | the filter keeps the stored order |
| Dataset.RetainedKeys | Weather3.py:103-104 | the kept rows hold the stored index values minus the batch's |
| Dataset.Merge | Weather3.py:95-108 | with no file the result is the batch; otherwise the merge succeeds exactly when the batch holds each index once or its index equals the stored one row for row, and gives the kept stored rows, unchanged and in order, followed by the batch; a failure names an index the batch holds twice |
| Dataset.MergeSameIndex | Weather3.py:99-104 | a batch whose index equals the stored one row for row, repeated values included, replaces the stored dataset |
| Dataset.MergeKeys | Weather3.py:99-104 | whenever the merge succeeds, the merged index values are the stored ones together with the batch's |
| Dataset.MergeByKey | Weather3.py:99-104 | whenever the merge succeeds: for an index the batch holds, the merged rows with that index are the batch's; for any other index they are the stored ones |
| Dataset.MergeIdempotent | Weather3.py:95-108 | whenever a save succeeds, saving the same batch again succeeds and gives the same dataset |
| Dataset.MergeUnique | Weather3.py:99-104 | a stored dataset and a batch that each hold every index once merge into a dataset that does too |

## Left out

- Fetching pages (`requests.get`), parsing the HTML (BeautifulSoup) and `time.sleep`. Weather3.py:36-49 and 121-139 are not part of this model. A page is given as the cells the scraper extracts: day labels with their colspans, and the texts of the four body rows.
- The pickle cache of mountain URLs and its fallback (Weather3.py:17-33, 52-74) are not part of this model. The mountains are given as a sequence of (name, URL) in the dictionary's iteration order.
- Reading and writing the CSV file, and its name built from today's date (Weather3.py:92-93, 97, 105, 108). Whether a file exists is the `Option` given to `Dataset.Merge`. The empty-cell NaNs of `read_csv` and the file layout are not modelled.
- The system clock: the source calls `date.today()` twice for each non-blank label (Weather3.py:155) and sleeps a second after each mountain (Weather3.py:177). The model takes one (year, month) as a parameter for the whole scrape, restricted to what `date.today()` can return, so a scrape that crosses a month or year boundary between those calls is not modelled.
- The tkinter window and its layout (Weather3.py:15, 196-229).
- `save_data` is never called on the scrape's output (Weather3.py:194), and its seven-column rows do not match the scrape's rows. The merge is therefore modelled on seven-field rows on its own.
- The date is kept as a `Date` value. Its `str()` rendering (`YYYY-MM-DD`) is not modelled, and the merge treats the date as an opaque string.
- `int(day['colspan'])` is not modelled. A colspan is a natural number.
- Text.IntOf: accepts only ASCII decimal digits, where Python's `int()` also accepts other Unicode decimal digits. It also strips every `str.isspace` character around the token, including U+001C to U+001F, which `int()` does not skip. Neither difference is reachable from the scrape, whose token comes from a cleaned label split on ' '.
- Dataset.Merge: follows pandas releases whose `DataFrame.update` aligns the batch with `reindex_like`, which leaves an equal index as it is and raises on a non-unique batch index otherwise. Other releases may differ. Duplicates in the stored file, and any other pandas error, are not modelled.
- Dataset.Update: when the batch's index equals the stored one and repeats a value, pandas pairs the rows by position where the model takes the first batch row with that index. Every such row is dropped by the filter of line 103 (`Dataset.UpdateErased`), so the merge result is the same.
- The inner column loop is the method `Grid.ReadColumns`, called from the day loop. In the source it is written inline.

## Findings

| source | as written | input that shows it | evidently intended | confidence | as-written member | corrected member |
|---|---|---|---|---|---|---|
| Weather3.py:158 | day i reads columns `range(i*colspan[i-1], (i+1)*colspan[i])` | (1) days "Thu 13" (colspan 2) and "Fri 14" (colspan 3), five body columns: day 1 reads columns 2..5 and raises IndexError on column 5. (2) colspans 2, 3, 3 over nine columns: column 5, which the header puts under day 2, is recorded under day 1 | day i reads the colspan[i] columns that follow those of the days before it (a running offset) | not executed | Findings.UnequalSpansOverrun, Findings.UnequalSpansMisattribute | GridOffset.DecodeByOffset, with GridOffset.OffsetAttribution |

The two formulas agree whenever every day spans the same number of columns
(`GridOffset.EqualSpansAgree`, `Scrape.PageMatchesOffsets`). The display
code (Weather3.py:208-209) expects tables whose first day has only two
slots left, colspans 2, 3, 3, ...; on those the formulas differ: the
source reads day 1 from four columns, the header's three and the first
of day 2's, and every day from day 2 on one column to the right of where
the header puts it (`Findings.TwoSlotFirstDay`). The scrape itself (`Scrape.ScrapeAll`)
models the program as written. In the corrected decoder, a blank day still
occupies its columns, as it does in the header row. A decoder that instead
skips blank days without moving the offset is an equally plausible reading;
the two agree whenever every blank day has colspan 0.
