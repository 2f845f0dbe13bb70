/** Header/body alignment of the forecast table (the day loop of `scrape`,
    Weather3.py:145-173).

    The header row holds one cell per day, each with a label such as
    "Thu 13" and a `colspan`; the body rows (time, summary, maximum and
    minimum temperature) are flat.  Each non-empty day is read from a
    range of body columns and yields one record per column.  Which range a
    day gets is a parameter here (`spans`), so that the range the source
    computes and the running-offset range can share one decoder. */
module Grid {
  import opened Wrappers
  import opened Text
  import opened Calendar

  /** A header cell: its text and its `colspan` attribute. */
  datatype Header = Header(text: String, colspan: nat)

  /** The cell texts of the four body rows the scraper reads. */
  datatype Body = Body(times: seq<String>, summaries: seq<String>,
                       maxTemps: seq<String>, minTemps: seq<String>)

  datatype BodyRow = TimeRow | SummaryRow | MaxTempRow | MinTempRow

  /** `[day_of_week, date, time_cell, summary, max_temp, min_temp]`. */
  datatype DayRecord = DayRecord(dayOfWeek: String, date: Date, time: String,
                                 summary: String, maxTemp: String, minTemp: String)

  /** The exceptions the day loop can raise. */
  datatype ScrapeError =
    | MissingDayOfMonth(dayLabel: String)              // IndexError on split(' ')[1]
    | BadDayOfMonth(token: String)                  // ValueError from int()
    | InvalidDate(year: int, month: int, day: int)  // ValueError (OverflowError past a C int) from datetime.date
    | ColumnOutOfRange(row: BodyRow, column: nat)   // IndexError on a body row

  /** The half-open column range `range(lo, hi)`. */
  datatype Span = Span(lo: nat, hi: nat)

  function Width(s: Span): nat {
    if s.hi <= s.lo then 0 else s.hi - s.lo
  }

  function Min(a: nat, b: nat): nat {
    if a <= b then a else b
  }

  /** The number of columns every body row has. */
  function MinLen(b: Body): nat {
    Min(Min(|b.times|, |b.summaries|), Min(|b.maxTemps|, |b.minTemps|))
  }

  /** The first row, in the order the loop reads them, that has no cell `j`. */
  function ShortRow(b: Body, j: nat): (row: BodyRow)
    requires MinLen(b) <= j
    ensures row == TimeRow <==> |b.times| <= j
    ensures row == SummaryRow ==> j < |b.times| && |b.summaries| <= j
    ensures row == MaxTempRow ==> j < |b.times| && j < |b.summaries| && |b.maxTemps| <= j
    ensures row == MinTempRow ==> j < |b.times| && j < |b.summaries| && j < |b.maxTemps| && |b.minTemps| <= j
  {
    if |b.times| <= j then TimeRow
    else if |b.summaries| <= j then SummaryRow
    else if |b.maxTemps| <= j then MaxTempRow
    else MinTempRow
  }

  // ---------------------------------------------------------------------
  // The label of a day
  // ---------------------------------------------------------------------

  /** `current_day.split(' ', 1)[0]`: the text before the first space. */
  function DayOfWeek(day: String): (w: String)
  {
    Split(day, ' ')[0]
  }

  /** The day of week is the text of the label before its first space: a
      prefix of the label holding no space, followed by a space unless it
      is the whole label. */
  lemma DayOfWeekFirstToken(day: String)
    ensures var w := DayOfWeek(day);
            && w <= day && ' ' !in w
            && (|w| < |day| ==> day[|w|] == ' ')
  {
    SplitFirst(day, ' ');
  }

  /** `datetime.date(year, month, int(current_day.split(' ')[1]))`. */
  function ParseDate(day: String, year: int, month: int): (r: Result<Date, ScrapeError>)
    requires ValidYearMonth(year, month)
    ensures r.Success? ==> ValidDate(r.value)
    ensures r.Success? <==>
      |Split(day, ' ')| >= 2 && IntOf(Split(day, ' ')[1]).Some? &&
      1 <= IntOf(Split(day, ' ')[1]).value <= DaysInMonth(year, month)
    ensures r.Success? ==> r.value == Date(year, month, IntOf(Split(day, ' ')[1]).value)
  {
    var tokens := Split(day, ' ');
    if |tokens| < 2 then Failure(MissingDayOfMonth(day))
    else
      match IntOf(tokens[1])
      case None => Failure(BadDayOfMonth(tokens[1]))
      case Some(d) =>
        match MakeDate(year, month, d)
        case Success(date) => Success(date)
        case Failure(_) => Failure(InvalidDate(year, month, d))
  }

  /** A label written as a weekday word, one space and a day-of-month
      numeral, the way the forecast table prints "Thu 13", is left alone
      by `clean` and decodes to that word and that date. */
  lemma ParseLabel(word: String, day: nat, year: int, month: int)
    requires ValidYearMonth(year, month)
    requires word != [] && forall i :: 0 <= i < |word| ==> !IsSpace(word[i])
    requires 1 <= day <= DaysInMonth(year, month)
    ensures var written := word + [' '] + Decimal(day);
            && Clean(written) == written
            && DayOfWeek(written) == word
            && ParseDate(written, year, month) == Success(Date(year, month, day))
  {
    var d := Decimal(day);
    var written := word + [' '] + d;
    assert forall i :: 0 <= i < |d| ==> !IsSpace(d[i]) by {
      forall i | 0 <= i < |d| ensures !IsSpace(d[i]) {
        assert IsDigit(d[i]);
      }
    }
    WordsNormalized(word, d);
    CleanFixesNormalized(written);
    assert IsSpace(' ');
    SplitNoSep(d, ' ');
    SplitAtSep(word, ' ', d);
    IntOfDecimal(day);
  }

  // ---------------------------------------------------------------------
  // The records of one day
  // ---------------------------------------------------------------------

  /** `r` holds the cleaned cells of column `j` of the body rows. */
  predicate HoldsColumn(r: DayRecord, b: Body, j: nat) {
    && j < MinLen(b)
    && r.time == Clean(b.times[j])
    && r.summary == Clean(b.summaries[j])
    && r.maxTemp == Clean(b.maxTemps[j])
    && r.minTemp == Clean(b.minTemps[j])
  }

  function CellRecord(dayOfWeek: String, date: Date, b: Body, j: nat): DayRecord
    requires j < MinLen(b)
  {
    DayRecord(dayOfWeek, date, Clean(b.times[j]), Clean(b.summaries[j]),
              Clean(b.maxTemps[j]), Clean(b.minTemps[j]))
  }

  /** The records of the `n` columns from `lo` on, in column order. */
  function Cells(dayOfWeek: String, date: Date, b: Body, lo: nat, n: nat): (rs: seq<DayRecord>)
    requires n == 0 || lo + n <= MinLen(b)
    ensures |rs| == n
  {
    if n == 0 then [] else Cells(dayOfWeek, date, b, lo, n - 1) + [CellRecord(dayOfWeek, date, b, lo + n - 1)]
  }

  /** The `k`-th record of a run of columns is the record of column `lo + k`. */
  lemma {:induction false} CellsAt(dayOfWeek: String, date: Date, b: Body, lo: nat, n: nat, k: nat)
    requires lo + n <= MinLen(b) && k < n
    ensures Cells(dayOfWeek, date, b, lo, n)[k] == CellRecord(dayOfWeek, date, b, lo + k)
  {
    if k < n - 1 {
      CellsAt(dayOfWeek, date, b, lo, n - 1, k);
    }
  }

  /** The records of the columns of `s`, in column order, or the first
      missing cell. */
  function ColumnBlock(dayOfWeek: String, date: Date, b: Body, s: Span): (r: Result<seq<DayRecord>, ScrapeError>)
    ensures r.Success? <==> s.hi <= s.lo || s.hi <= MinLen(b)
    ensures r.Failure? ==>
      && r.error.ColumnOutOfRange? && s.lo <= r.error.column < s.hi && MinLen(b) <= r.error.column
      && (r.error.column == s.lo || r.error.column == MinLen(b))
  {
    if s.hi <= s.lo then Success([])
    else if MinLen(b) < s.hi then
      var j := if s.lo < MinLen(b) then MinLen(b) else s.lo;
      Failure(ColumnOutOfRange(ShortRow(b, j), j))
    else Success(Cells(dayOfWeek, date, b, s.lo, s.hi - s.lo))
  }

  /** Where the column loop stops early: at the first column `j` of the
      span that some row lacks. */
  lemma ColumnBlockStops(dayOfWeek: String, date: Date, b: Body, s: Span, j: nat)
    requires s.lo <= j < s.hi && (j == s.lo || j <= MinLen(b)) && MinLen(b) <= j
    ensures ColumnBlock(dayOfWeek, date, b, s) == Failure(ColumnOutOfRange(ShortRow(b, j), j))
  {
  }

  /** What one header contributes: nothing when its cleaned label is empty,
      otherwise one record per column of its span. */
  function DayBlock(h: Header, s: Span, b: Body, year: int, month: int): (r: Result<seq<DayRecord>, ScrapeError>)
    requires ValidYearMonth(year, month)
    ensures r.Success? && Clean(h.text) != [] ==> ParseDate(Clean(h.text), year, month).Success?
  {
    var day := Clean(h.text);
    if day == [] then Success([])
    else
      match ParseDate(day, year, month)
      case Failure(e) => Failure(e)
      case Success(date) => ColumnBlock(DayOfWeek(day), date, b, s)
  }

  /** What a day yields: its records, or the exception it raises. */
  type BlockResult = Result<seq<DayRecord>, ScrapeError>

  /** The records of the first `n` results, in order, or the first
      exception among them. */
  function Concat(blocks: seq<BlockResult>, n: nat): BlockResult
    requires n <= |blocks|
  {
    if n == 0 then Success([])
    else
      match Concat(blocks, n - 1)
      case Failure(e) => Failure(e)
      case Success(rs) =>
        match blocks[n - 1]
        case Failure(e) => Failure(e)
        case Success(block) => Success(rs + block)
  }

  lemma {:induction false} ConcatFailureSticks(blocks: seq<BlockResult>, n: nat, m: nat)
    requires n <= m <= |blocks|
    requires Concat(blocks, n).Failure?
    ensures Concat(blocks, m) == Concat(blocks, n)
    decreases m - n
  {
    if n < m {
      ConcatFailureSticks(blocks, n, m - 1);
    }
  }

  lemma {:induction false} ConcatSucceedsIff(blocks: seq<BlockResult>, n: nat)
    requires n <= |blocks|
    ensures Concat(blocks, n).Success? <==> forall i :: 0 <= i < n ==> blocks[i].Success?
  {
    if n > 0 {
      ConcatSucceedsIff(blocks, n - 1);
    }
  }

  lemma {:induction false} ConcatFirstError(blocks: seq<BlockResult>, n: nat)
    requires n <= |blocks|
    requires Concat(blocks, n).Failure?
    ensures exists i :: 0 <= i < n && blocks[i] == Failure(Concat(blocks, n).error) && Concat(blocks, i).Success?
  {
    if Concat(blocks, n - 1).Failure? {
      ConcatFirstError(blocks, n - 1);
    } else {
      assert blocks[n - 1] == Failure(Concat(blocks, n).error);
    }
  }

  lemma {:induction false} ConcatPlacement(blocks: seq<BlockResult>, n: nat, i: nat)
    requires i < n <= |blocks|
    requires Concat(blocks, n).Success?
    ensures Concat(blocks, i).Success? && blocks[i].Success?
    ensures var rs := Concat(blocks, n).value;
            var start := |Concat(blocks, i).value|;
            start + |blocks[i].value| <= |rs| && rs[start..start + |blocks[i].value|] == blocks[i].value
  {
    var rs := Concat(blocks, n).value;
    var prev := Concat(blocks, n - 1).value;
    assert rs == prev + blocks[n - 1].value;
    if i < n - 1 {
      ConcatPlacement(blocks, n - 1, i);
      var start := |Concat(blocks, i).value|;
      var len := |blocks[i].value|;
      assert rs[start..start + len] == prev[start..start + len];
    }
  }

  /** What each of the headers yields, read from its span. */
  function Blocks(headers: seq<Header>, spans: seq<Span>, b: Body, year: int, month: int): (bs: seq<BlockResult>)
    requires ValidYearMonth(year, month)
    requires |spans| == |headers|
    ensures |bs| == |headers|
  {
    seq(|headers|, i requires 0 <= i < |headers| => DayBlock(headers[i], spans[i], b, year, month))
  }

  /** The records of the first `n` headers, each header read from its span,
      stopping at the first error. */
  function Decode(headers: seq<Header>, spans: seq<Span>, b: Body, year: int, month: int, n: nat)
    : BlockResult
    requires ValidYearMonth(year, month)
    requires |spans| == |headers| && n <= |headers|
  {
    Concat(Blocks(headers, spans, b, year, month), n)
  }

  /** An error raised while decoding a header ends the whole decode with
      that error: later headers are never looked at. */
  lemma DecodeFailureSticks(headers: seq<Header>, spans: seq<Span>, b: Body,
                            year: int, month: int, n: nat, m: nat)
    requires ValidYearMonth(year, month)
    requires |spans| == |headers| && n <= m <= |headers|
    requires Decode(headers, spans, b, year, month, n).Failure?
    ensures Decode(headers, spans, b, year, month, m) == Decode(headers, spans, b, year, month, n)
  {
    ConcatFailureSticks(Blocks(headers, spans, b, year, month), n, m);
  }

  /** One step of the decode: the records of the first `n - 1` headers
      followed by those of header `n - 1`, or the first error. */
  lemma DecodeStep(headers: seq<Header>, spans: seq<Span>, b: Body, year: int, month: int, n: nat)
    requires ValidYearMonth(year, month)
    requires |spans| == |headers| && 0 < n <= |headers|
    ensures var prev := Decode(headers, spans, b, year, month, n - 1);
            var block := DayBlock(headers[n - 1], spans[n - 1], b, year, month);
            Decode(headers, spans, b, year, month, n) ==
              if prev.Failure? then prev
              else if block.Failure? then Failure(block.error)
              else Success(prev.value + block.value)
  {
    assert Blocks(headers, spans, b, year, month)[n - 1] == DayBlock(headers[n - 1], spans[n - 1], b, year, month);
  }

  /** Record `p` of `rs` holds column `p` of the body, for every `p`. */
  predicate Aligned(rs: seq<DayRecord>, b: Body) {
    |rs| <= MinLen(b) && forall p :: 0 <= p < |rs| ==> HoldsColumn(rs[p], b, p)
  }

  /** Appending the block of a day whose span starts right after `prev`
      keeps "record `p` holds column `p`" true. */
  lemma AppendBlockColumns(h: Header, s: Span, b: Body, year: int, month: int, prev: seq<DayRecord>)
    requires ValidYearMonth(year, month)
    requires DayBlock(h, s, b, year, month).Success?
    requires s.lo == |prev| && Aligned(prev, b)
    ensures Aligned(prev + DayBlock(h, s, b, year, month).value, b)
  {
    var block := DayBlock(h, s, b, year, month).value;
    if Clean(h.text) != [] {
      DayRecords(h, s, b, year, month);
      forall p | |prev| <= p < |prev + block|
        ensures HoldsColumn((prev + block)[p], b, p)
      {
        assert (prev + block)[p] == block[p - |prev|];
      }
    }
  }

  /** How many records the first `n` headers yield when they all decode. */
  function TotalWidth(headers: seq<Header>, spans: seq<Span>, n: nat): nat
    requires |spans| == |headers| && n <= |headers|
  {
    if n == 0 then 0
    else TotalWidth(headers, spans, n - 1)
         + (if Clean(headers[n - 1].text) == [] then 0 else Width(spans[n - 1]))
  }

  // ---------------------------------------------------------------------
  // Properties of one day and of the whole decode, for any spans
  // ---------------------------------------------------------------------

  /** A header whose label is all whitespace yields no records. */
  lemma BlankDayYieldsNothing(h: Header, s: Span, b: Body, year: int, month: int)
    requires ValidYearMonth(year, month)
    requires forall i :: 0 <= i < |h.text| ==> IsSpace(h.text[i])
    ensures DayBlock(h, s, b, year, month) == Success([])
  {
    CleanEmptyIff(h.text);
  }

  /** When a day decodes, the columns of its span exist in every row and
      the `k`-th record carries the first token of the cleaned label, the
      date with the day-of-month read from its second token, and the
      cleaned cells of column `lo + k`, in the source's field order. */
  lemma DayRecords(h: Header, s: Span, b: Body, year: int, month: int)
    requires ValidYearMonth(year, month)
    requires Clean(h.text) != []
    requires DayBlock(h, s, b, year, month).Success?
    ensures var block := DayBlock(h, s, b, year, month).value;
            var tokens := Split(Clean(h.text), ' ');
            && |block| == Width(s)
            && (Width(s) > 0 ==> s.hi <= MinLen(b))
            && |tokens| >= 2 && IntOf(tokens[1]).Some?
            && 1 <= IntOf(tokens[1]).value <= DaysInMonth(year, month)
            && forall k :: 0 <= k < |block| ==>
                 && block[k].dayOfWeek == tokens[0]
                 && block[k].date == Date(year, month, IntOf(tokens[1]).value)
                 && HoldsColumn(block[k], b, s.lo + k)
  {
    var day := Clean(h.text);
    var date := ParseDate(day, year, month).value;
    var block := DayBlock(h, s, b, year, month).value;
    if s.lo < s.hi {
      forall k | 0 <= k < |block|
        ensures block[k] == CellRecord(DayOfWeek(day), date, b, s.lo + k)
      {
        CellsAt(DayOfWeek(day), date, b, s.lo, s.hi - s.lo, k);
      }
    }
  }

  /** A day fails exactly when its label has no valid day-of-month, or when
      its span is not empty and reaches past the shortest body row. */
  lemma DayBlockFails(h: Header, s: Span, b: Body, year: int, month: int)
    requires ValidYearMonth(year, month)
    ensures DayBlock(h, s, b, year, month).Failure? <==>
      Clean(h.text) != [] &&
      (ParseDate(Clean(h.text), year, month).Failure? || (s.lo < s.hi && MinLen(b) < s.hi))
    ensures DayBlock(h, s, b, year, month).Failure? &&
            ParseDate(Clean(h.text), year, month).Success? ==>
      var e := DayBlock(h, s, b, year, month).error;
      && e.ColumnOutOfRange? && s.lo <= e.column < s.hi && MinLen(b) <= e.column
      && (e.column == s.lo || e.column == MinLen(b))
  {
  }

  /** The decode of `n` headers succeeds exactly when each of them does. */
  lemma DecodeSucceedsIff(headers: seq<Header>, spans: seq<Span>, b: Body,
                                             year: int, month: int, n: nat)
    requires ValidYearMonth(year, month)
    requires |spans| == |headers| && n <= |headers|
    ensures Decode(headers, spans, b, year, month, n).Success? <==>
      forall i :: 0 <= i < n ==> DayBlock(headers[i], spans[i], b, year, month).Success?
  {
    var bs := Blocks(headers, spans, b, year, month);
    ConcatSucceedsIff(bs, n);
    assert forall i :: 0 <= i < n ==> bs[i] == DayBlock(headers[i], spans[i], b, year, month);
  }

  /** A failed decode reports the error of the first header that fails. */
  lemma DecodeFirstError(headers: seq<Header>, spans: seq<Span>, b: Body,
                                            year: int, month: int, n: nat)
    requires ValidYearMonth(year, month)
    requires |spans| == |headers| && n <= |headers|
    requires Decode(headers, spans, b, year, month, n).Failure?
    ensures exists i ::
      && 0 <= i < n
      && DayBlock(headers[i], spans[i], b, year, month) == Failure(Decode(headers, spans, b, year, month, n).error)
      && Decode(headers, spans, b, year, month, i).Success?
  {
    var bs := Blocks(headers, spans, b, year, month);
    ConcatFirstError(bs, n);
    var i :| 0 <= i < n && bs[i] == Failure(Concat(bs, n).error) && Concat(bs, i).Success?;
    assert bs[i] == DayBlock(headers[i], spans[i], b, year, month);
  }

  /** A successful decode of `n` headers yields `TotalWidth(n)` records: the
      widths of the spans of the non-blank days, added up. */
  lemma {:induction false} DecodeLength(headers: seq<Header>, spans: seq<Span>, b: Body,
                                        year: int, month: int, n: nat)
    requires ValidYearMonth(year, month)
    requires |spans| == |headers| && n <= |headers|
    requires Decode(headers, spans, b, year, month, n).Success?
    ensures |Decode(headers, spans, b, year, month, n).value| == TotalWidth(headers, spans, n)
  {
    if n > 0 {
      DecodeStep(headers, spans, b, year, month, n);
      DecodeLength(headers, spans, b, year, month, n - 1);
      var h := headers[n - 1];
      if Clean(h.text) != [] {
        DayRecords(h, spans[n - 1], b, year, month);
      }
    }
  }

  /** Every span among the first `n` starts where the records of the days
      before it end. */
  predicate Contiguous(headers: seq<Header>, spans: seq<Span>, n: nat)
    requires |spans| == |headers| && n <= |headers|
  {
    n == 0 || (Contiguous(headers, spans, n - 1) && spans[n - 1].lo == TotalWidth(headers, spans, n - 1))
  }

  /** One more day keeps a decode aligned when its span starts right after
      the records already produced. */
  lemma AlignedStep(headers: seq<Header>, spans: seq<Span>, b: Body, year: int, month: int, n: nat)
    requires ValidYearMonth(year, month)
    requires |spans| == |headers| && 0 < n <= |headers|
    requires Decode(headers, spans, b, year, month, n).Success?
    requires Aligned(Decode(headers, spans, b, year, month, n - 1).value, b)
    requires spans[n - 1].lo == |Decode(headers, spans, b, year, month, n - 1).value|
    ensures Aligned(Decode(headers, spans, b, year, month, n).value, b)
  {
    DecodeStep(headers, spans, b, year, month, n);
    AppendBlockColumns(headers[n - 1], spans[n - 1], b, year, month,
                       Decode(headers, spans, b, year, month, n - 1).value);
  }

  /** With contiguous spans, record `p` of a successful decode holds
      column `p` of every body row. */
  lemma {:induction false} DecodeAligned(headers: seq<Header>, spans: seq<Span>, b: Body,
                                         year: int, month: int, n: nat)
    requires ValidYearMonth(year, month)
    requires |spans| == |headers| && n <= |headers|
    requires Contiguous(headers, spans, n)
    requires Decode(headers, spans, b, year, month, n).Success?
    ensures Aligned(Decode(headers, spans, b, year, month, n).value, b)
  {
    if n > 0 {
      DecodeStep(headers, spans, b, year, month, n);
      DecodeAligned(headers, spans, b, year, month, n - 1);
      DecodeLength(headers, spans, b, year, month, n - 1);
      AlignedStep(headers, spans, b, year, month, n);
    }
  }

  /** `r` is the record of some column of `b`, dated in the given month. */
  predicate FromBody(r: DayRecord, b: Body, year: int, month: int) {
    && r.date.year == year && r.date.month == month && ValidDate(r.date)
    && exists j :: 0 <= j < MinLen(b) && HoldsColumn(r, b, j)
  }

  predicate AllFromBody(rs: seq<DayRecord>, b: Body, year: int, month: int) {
    forall p :: 0 <= p < |rs| ==> FromBody(rs[p], b, year, month)
  }

  lemma BlockFromBody(h: Header, s: Span, b: Body, year: int, month: int)
    requires ValidYearMonth(year, month)
    requires DayBlock(h, s, b, year, month).Success?
    ensures AllFromBody(DayBlock(h, s, b, year, month).value, b, year, month)
  {
    if Clean(h.text) != [] {
      DayRecords(h, s, b, year, month);
      var block := DayBlock(h, s, b, year, month).value;
      forall k | 0 <= k < |block|
        ensures FromBody(block[k], b, year, month)
      {
        assert HoldsColumn(block[k], b, s.lo + k);
      }
    }
  }

  lemma AllFromBodyConcat(rs: seq<DayRecord>, more: seq<DayRecord>, b: Body, year: int, month: int)
    requires AllFromBody(rs, b, year, month) && AllFromBody(more, b, year, month)
    ensures AllFromBody(rs + more, b, year, month)
  {
    forall p | 0 <= p < |rs + more|
      ensures FromBody((rs + more)[p], b, year, month)
    {
      if p >= |rs| {
        assert (rs + more)[p] == more[p - |rs|];
      }
    }
  }

  /** Every record of a successful decode is the record of a column that
      exists in every body row, dated in the given month. */
  lemma {:induction false} DecodeFromBody(headers: seq<Header>, spans: seq<Span>, b: Body,
                                          year: int, month: int, n: nat)
    requires ValidYearMonth(year, month)
    requires |spans| == |headers| && n <= |headers|
    requires Decode(headers, spans, b, year, month, n).Success?
    ensures AllFromBody(Decode(headers, spans, b, year, month, n).value, b, year, month)
  {
    if n > 0 {
      DecodeStep(headers, spans, b, year, month, n);
      DecodeFromBody(headers, spans, b, year, month, n - 1);
      BlockFromBody(headers[n - 1], spans[n - 1], b, year, month);
      AllFromBodyConcat(Decode(headers, spans, b, year, month, n - 1).value,
                        DayBlock(headers[n - 1], spans[n - 1], b, year, month).value, b, year, month);
    }
  }

  /** In a successful decode, the records of header `i` come right after
      those of the headers before it, as one contiguous run. */
  lemma BlockPlacement(headers: seq<Header>, spans: seq<Span>, b: Body,
                                          year: int, month: int, n: nat, i: nat)
    requires ValidYearMonth(year, month)
    requires |spans| == |headers| && i < n <= |headers|
    requires Decode(headers, spans, b, year, month, n).Success?
    ensures Decode(headers, spans, b, year, month, i).Success?
    ensures DayBlock(headers[i], spans[i], b, year, month).Success?
    ensures var rs := Decode(headers, spans, b, year, month, n).value;
            var start := |Decode(headers, spans, b, year, month, i).value|;
            var block := DayBlock(headers[i], spans[i], b, year, month).value;
            start + |block| <= |rs| && rs[start..start + |block|] == block
  {
    var bs := Blocks(headers, spans, b, year, month);
    ConcatPlacement(bs, n, i);
    assert bs[i] == DayBlock(headers[i], spans[i], b, year, month);
  }

  lemma SliceAt<T>(rs: seq<T>, p: nat, block: seq<T>, k: nat)
    requires p + |block| <= |rs| && rs[p..p + |block|] == block && k < |block|
    ensures rs[p + k] == block[k]
  {
    assert rs[p..p + |block|][k] == block[k];
  }

  /** Record `k` of a day's block, spelled out. */
  lemma BlockRecord(h: Header, s: Span, b: Body, year: int, month: int, k: nat)
    requires ValidYearMonth(year, month)
    requires Clean(h.text) != [] && DayBlock(h, s, b, year, month).Success? && k < Width(s)
    ensures var block := DayBlock(h, s, b, year, month).value;
            var tokens := Split(Clean(h.text), ' ');
            var j := s.lo + k;
            && k < |block| && j < MinLen(b)
            && |tokens| >= 2 && IntOf(tokens[1]).Some?
            && block[k] == DayRecord(tokens[0], Date(year, month, IntOf(tokens[1]).value),
                                     Clean(b.times[j]), Clean(b.summaries[j]),
                                     Clean(b.maxTemps[j]), Clean(b.minTemps[j]))
  {
    DayRecords(h, s, b, year, month);
  }

  /** The record at position `TotalWidth(i) + k` of a successful decode is
      the record of column `lo + k` of day `i`: the day's first token and
      date, and that column's cleaned cells. */
  lemma RecordOfColumn(headers: seq<Header>, spans: seq<Span>, b: Body,
                       year: int, month: int, i: nat, k: nat)
    requires ValidYearMonth(year, month)
    requires |spans| == |headers| && i < |headers|
    requires Decode(headers, spans, b, year, month, |headers|).Success?
    requires Clean(headers[i].text) != [] && k < Width(spans[i])
    ensures var rs := Decode(headers, spans, b, year, month, |headers|).value;
            var p := TotalWidth(headers, spans, i);
            var tokens := Split(Clean(headers[i].text), ' ');
            var j := spans[i].lo + k;
            && p + k < |rs| && j < MinLen(b)
            && |tokens| >= 2 && IntOf(tokens[1]).Some?
            && rs[p + k] == DayRecord(tokens[0], Date(year, month, IntOf(tokens[1]).value),
                                      Clean(b.times[j]), Clean(b.summaries[j]),
                                      Clean(b.maxTemps[j]), Clean(b.minTemps[j]))
  {
    var n := |headers|;
    BlockPlacement(headers, spans, b, year, month, n, i);
    DecodeLength(headers, spans, b, year, month, i);
    BlockRecord(headers[i], spans[i], b, year, month, k);
    var rs := Decode(headers, spans, b, year, month, n).value;
    var block := DayBlock(headers[i], spans[i], b, year, month).value;
    SliceAt(rs, TotalWidth(headers, spans, i), block, k);
  }

  // ---------------------------------------------------------------------
  // The span the source computes (Weather3.py:147-158):
  //   range(i * colspan[i-1], (i+1) * colspan[i]), colspan[-1] taken as 0
  // ---------------------------------------------------------------------

  function SourceSpan(headers: seq<Header>, i: nat): (s: Span)
    requires i < |headers|
  {
    var numColsLast := if i == 0 then 0 else headers[i - 1].colspan;
    Span(i * numColsLast, (i + 1) * headers[i].colspan)
  }

  function SourceSpans(headers: seq<Header>): (spans: seq<Span>)
    ensures |spans| == |headers|
    ensures |headers| > 0 ==> spans[0].lo == 0
    ensures forall i :: 0 < i < |headers| ==> spans[i].lo == spans[i - 1].hi
  {
    seq(|headers|, i requires 0 <= i < |headers| => SourceSpan(headers, i))
  }

  /** The source's spans depend on the positions and `colspan`s of the
      headers only: a blank day keeps its position `i` and so moves the
      columns of every later day exactly as a non-blank one would.  Day 0
      starts at column 0. */
  lemma SpansIgnoreLabels(headers: seq<Header>, others: seq<Header>)
    requires |others| == |headers|
    requires forall i :: 0 <= i < |headers| ==> others[i].colspan == headers[i].colspan
    ensures SourceSpans(others) == SourceSpans(headers)
    ensures |headers| > 0 ==> SourceSpans(headers)[0] == Span(0, headers[0].colspan)
  {
    assert forall i :: 0 <= i < |headers| ==> SourceSpans(others)[i] == SourceSpans(headers)[i];
  }

  function DecodeAsWritten(headers: seq<Header>, b: Body, year: int, month: int): (r: Result<seq<DayRecord>, ScrapeError>)
    requires ValidYearMonth(year, month)
  {
    Decode(headers, SourceSpans(headers), b, year, month, |headers|)
  }

  /** The inner loop of the day loop (Weather3.py:158-173): one record per
      column of `range(lo, hi)`, or the IndexError of the first missing
      cell. */
  method ReadColumns(currentDay: String, date: Date, b: Body, lo: nat, hi: nat)
    returns (r: Result<seq<DayRecord>, ScrapeError>)
    ensures r == ColumnBlock(DayOfWeek(currentDay), date, b, Span(lo, hi))
  {
    var block: seq<DayRecord> := [];
    var j := lo;
    while j < hi
      invariant lo <= j && (j <= hi || j == lo)
      invariant j == lo || j <= MinLen(b)
      invariant block == Cells(DayOfWeek(currentDay), date, b, lo, j - lo)
    {
      var dayOfWeek := DayOfWeek(currentDay);
      if j >= MinLen(b) {
        ColumnBlockStops(dayOfWeek, date, b, Span(lo, hi), j);
      }
      if j >= |b.times| { return Failure(ColumnOutOfRange(TimeRow, j)); }
      var timeCell := Clean(b.times[j]);
      if j >= |b.summaries| { return Failure(ColumnOutOfRange(SummaryRow, j)); }
      var summary := Clean(b.summaries[j]);
      if j >= |b.maxTemps| { return Failure(ColumnOutOfRange(MaxTempRow, j)); }
      var maxTemp := Clean(b.maxTemps[j]);
      if j >= |b.minTemps| { return Failure(ColumnOutOfRange(MinTempRow, j)); }
      var minTemp := Clean(b.minTemps[j]);
      block := block + [DayRecord(dayOfWeek, date, timeCell, summary, maxTemp, minTemp)];
      j := j + 1;
    }
    return Success(block);
  }

  /** The day loop of `scrape` (Weather3.py:145-173) for one mountain: the
      records it appends to that mountain's row, or the exception it
      raises. */
  method DecodeDays(days: seq<Header>, b: Body, year: int, month: int)
    returns (r: Result<seq<DayRecord>, ScrapeError>)
    requires ValidYearMonth(year, month)
    ensures r == DecodeAsWritten(days, b, year, month)
  {
    var records: seq<DayRecord> := [];
    for i := 0 to |days|
      invariant Decode(days, SourceSpans(days), b, year, month, i) == Success(records)
    {
      var currentDay := Clean(days[i].text);
      var numCols := days[i].colspan;
      var numColsLast := if i == 0 then 0 else days[i - 1].colspan;
      assert SourceSpans(days)[i] == Span(i * numColsLast, (i + 1) * numCols);
      if currentDay == [] {
        assert DayBlock(days[i], SourceSpans(days)[i], b, year, month) == Success([]);
        assert records + [] == records;
      } else {
        var date := ParseDate(currentDay, year, month);
        if date.Failure? {
          DecodeFailureSticks(days, SourceSpans(days), b, year, month, i + 1, |days|);
          return Failure(date.error);
        }
        var block := ReadColumns(currentDay, date.value, b, i * numColsLast, (i + 1) * numCols);
        if block.Failure? {
          DecodeFailureSticks(days, SourceSpans(days), b, year, month, i + 1, |days|);
          return Failure(block.error);
        }
        records := records + block.value;
      }
    }
    return Success(records);
  }

  /** The number of headers among the first `n` whose label is not blank. */
  function NonBlankCount(headers: seq<Header>, n: nat): (count: nat)
    requires n <= |headers|
    ensures count <= n
  {
    if n == 0 then 0
    else NonBlankCount(headers, n - 1) + (if Clean(headers[n - 1].text) == [] then 0 else 1)
  }

  /** When every header spans `c` columns, the source reads day `i` from
      columns `i*c .. (i+1)*c - 1`: consecutive, disjoint blocks of `c`
      columns, with day 0 starting at column 0. */
  lemma EqualSpansAsWritten(headers: seq<Header>, c: nat, i: nat)
    requires i < |headers|
    requires forall k :: 0 <= k < |headers| ==> headers[k].colspan == c
    ensures SourceSpan(headers, i) == Span(i * c, (i + 1) * c)
    ensures Width(SourceSpan(headers, i)) == c
  {
    assert (i + 1) * c == i * c + c;
  }

  lemma MulSucc(c: nat, m: nat)
    ensures c * (m + 1) == c * m + c
  {
  }

  /** ... so a successful decode yields `c` records per non-blank day. */
  lemma {:induction false} EqualSpansCount(headers: seq<Header>, c: nat, n: nat)
    requires n <= |headers|
    requires forall k :: 0 <= k < |headers| ==> headers[k].colspan == c
    ensures TotalWidth(headers, SourceSpans(headers), n) == c * NonBlankCount(headers, n)
  {
    if n > 0 {
      EqualSpansCount(headers, c, n - 1);
      EqualSpansAsWritten(headers, c, n - 1);
      var spans := SourceSpans(headers);
      var m := NonBlankCount(headers, n - 1);
      assert spans[n - 1] == SourceSpan(headers, n - 1);
      if Clean(headers[n - 1].text) != [] {
        assert TotalWidth(headers, spans, n) == TotalWidth(headers, spans, n - 1) + c;
        assert NonBlankCount(headers, n) == m + 1;
        MulSucc(c, m);
      }
    }
  }

  /** A successful decode of the source's spans with every header spanning
      `c` columns has exactly `c` times the number of non-blank days. */
  lemma EqualSpansRecordCount(headers: seq<Header>, b: Body, year: int, month: int, c: nat)
    requires ValidYearMonth(year, month)
    requires forall k :: 0 <= k < |headers| ==> headers[k].colspan == c
    requires DecodeAsWritten(headers, b, year, month).Success?
    ensures |DecodeAsWritten(headers, b, year, month).value| == c * NonBlankCount(headers, |headers|)
  {
    DecodeLength(headers, SourceSpans(headers), b, year, month, |headers|);
    EqualSpansCount(headers, c, |headers|);
  }

  /** Blank days ignore their span, so two span assignments that agree on
      every non-blank day decode alike. */
  lemma {:induction false} DecodeSpansAgree(headers: seq<Header>, spans1: seq<Span>, spans2: seq<Span>,
                                            b: Body, year: int, month: int, n: nat)
    requires ValidYearMonth(year, month)
    requires |spans1| == |headers| && |spans2| == |headers| && n <= |headers|
    requires forall i :: 0 <= i < n && Clean(headers[i].text) != [] ==> spans1[i] == spans2[i]
    ensures Decode(headers, spans1, b, year, month, n) == Decode(headers, spans2, b, year, month, n)
  {
    if n > 0 {
      DecodeSpansAgree(headers, spans1, spans2, b, year, month, n - 1);
      DecodeStep(headers, spans1, b, year, month, n);
      DecodeStep(headers, spans2, b, year, month, n);
      assert DayBlock(headers[n - 1], spans1[n - 1], b, year, month)
          == DayBlock(headers[n - 1], spans2[n - 1], b, year, month);
    }
  }
}
