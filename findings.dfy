/** Where the column range of Weather3.py:158 goes wrong: two header
    layouts on which the source's `range(i * colspan[i-1], (i+1) * colspan[i])`
    and the running-offset range part ways. */
module Findings {
  import opened Wrappers
  import opened Text
  import opened Calendar
  import opened Grid
  import opened GridOffset

  /** A day whose cleaned label is non-blank and names a valid day of the
      month, such as "Thu 13". */
  predicate DayParses(h: Header, year: int, month: int)
    requires ValidYearMonth(year, month)
  {
    Clean(h.text) != [] && ParseDate(Clean(h.text), year, month).Success?
  }

  /** A parsing day reads exactly the columns of its span. */
  lemma ParsingDayBlock(h: Header, s: Span, b: Body, year: int, month: int)
    requires ValidYearMonth(year, month) && DayParses(h, year, month)
    ensures DayBlock(h, s, b, year, month)
         == ColumnBlock(DayOfWeek(Clean(h.text)), ParseDate(Clean(h.text), year, month).value, b, s)
  {
  }

  lemma OffsetsOfTwo(hs: seq<Header>, b: Body, year: int, month: int)
    requires ValidYearMonth(year, month) && |hs| == 2
    requires DayParses(hs[0], year, month) && DayParses(hs[1], year, month)
    requires hs[0].colspan + hs[1].colspan <= MinLen(b)
    ensures NonBlankSpanSum(hs, 2) == hs[0].colspan + hs[1].colspan
    ensures DatesParse(hs, year, month, 2) && SpansFit(hs, b, 2)
  {
    assert OffsetStart(hs, 1) == hs[0].colspan;
    assert OffsetStart(hs, 2) == hs[0].colspan + hs[1].colspan;
    assert NonBlankSpanSum(hs, 1) == hs[0].colspan;
    assert DatesParse(hs, year, month, 1) && SpansFit(hs, b, 1);
  }

  lemma OffsetsOfThree(hs: seq<Header>, b: Body, year: int, month: int)
    requires ValidYearMonth(year, month) && |hs| == 3
    requires DayParses(hs[0], year, month) && DayParses(hs[1], year, month) && DayParses(hs[2], year, month)
    requires hs[0].colspan + hs[1].colspan + hs[2].colspan <= MinLen(b)
    ensures OffsetStart(hs, 2) == hs[0].colspan + hs[1].colspan
    ensures NonBlankSpanSum(hs, 2) == hs[0].colspan + hs[1].colspan
    ensures NonBlankSpanSum(hs, 3) == hs[0].colspan + hs[1].colspan + hs[2].colspan
    ensures DatesParse(hs, year, month, 3) && SpansFit(hs, b, 3)
  {
    assert OffsetStart(hs, 1) == hs[0].colspan;
    assert OffsetStart(hs, 2) == hs[0].colspan + hs[1].colspan;
    assert OffsetStart(hs, 3) == hs[0].colspan + hs[1].colspan + hs[2].colspan;
    assert NonBlankSpanSum(hs, 1) == hs[0].colspan;
    assert NonBlankSpanSum(hs, 2) == hs[0].colspan + hs[1].colspan;
    assert DatesParse(hs, year, month, 1) && SpansFit(hs, b, 1);
    assert DatesParse(hs, year, month, 2) && SpansFit(hs, b, 2);
  }

  /** Spans 2 and 3 over a five-column body: the source asks day 1 for
      columns 2..5 and fails on the missing column 5, while the running
      offsets read columns 2..4 and decode all five columns. */
  lemma UnequalSpansOverrun(h0: Header, h1: Header, b: Body, year: int, month: int)
    requires ValidYearMonth(year, month)
    requires DayParses(h0, year, month) && DayParses(h1, year, month)
    requires h0.colspan == 2 && h1.colspan == 3
    requires |b.times| == 5 && MinLen(b) == 5
    ensures DecodeAsWritten([h0, h1], b, year, month) == Failure(ColumnOutOfRange(TimeRow, 5))
    ensures var r := DecodeByOffset([h0, h1], b, year, month);
            r.Success? && |r.value| == 5
  {
    var hs := [h0, h1];
    var spans := SourceSpans(hs);
    assert spans[0] == Span(0, 2);
    assert spans[1] == Span(2, 6);
    ParsingDayBlock(h0, spans[0], b, year, month);
    ParsingDayBlock(h1, spans[1], b, year, month);
    DecodeStep(hs, spans, b, year, month, 1);
    DecodeStep(hs, spans, b, year, month, 2);
    assert Decode(hs, spans, b, year, month, 0) == Success([]);
    assert DayBlock(h1, spans[1], b, year, month) == Failure(ColumnOutOfRange(TimeRow, 5));
    OffsetsOfTwo(hs, b, year, month);
    OffsetSucceedsIff(hs, b, year, month, 2);
  }

  /** Spans 2, 3 and 3 over a nine-column body: the source succeeds but
      reads day 1 from columns 2..5 and day 2 from 6..8, so column 5,
      which the header puts under day 2, is recorded under day 1's weekday
      where the running offsets record it under day 2's. */
  lemma UnequalSpansMisattribute(h0: Header, h1: Header, h2: Header, b: Body, year: int, month: int)
    requires ValidYearMonth(year, month)
    requires DayParses(h0, year, month) && DayParses(h1, year, month) && DayParses(h2, year, month)
    requires DayOfWeek(Clean(h1.text)) != DayOfWeek(Clean(h2.text))
    requires h0.colspan == 2 && h1.colspan == 3 && h2.colspan == 3
    requires MinLen(b) == 9
    ensures var w := DecodeAsWritten([h0, h1, h2], b, year, month);
            && w.Success? && |w.value| == 9
            && w.value[5].dayOfWeek == DayOfWeek(Clean(h1.text))
            && HoldsColumn(w.value[5], b, 5)
    ensures var r := DecodeByOffset([h0, h1, h2], b, year, month);
            && r.Success? && |r.value| == 8
            && r.value[5].dayOfWeek == DayOfWeek(Clean(h2.text))
            && HoldsColumn(r.value[5], b, 5)
    ensures DecodeAsWritten([h0, h1, h2], b, year, month).value[5].dayOfWeek
         != DecodeByOffset([h0, h1, h2], b, year, month).value[5].dayOfWeek
  {
    var hs := [h0, h1, h2];
    var spans := SourceSpans(hs);
    assert spans[0] == Span(0, 2);
    assert spans[1] == Span(2, 6);
    assert spans[2] == Span(6, 9);
    ParsingDayBlock(h0, spans[0], b, year, month);
    ParsingDayBlock(h1, spans[1], b, year, month);
    ParsingDayBlock(h2, spans[2], b, year, month);
    assert Decode(hs, spans, b, year, month, 0) == Success([]);
    DecodeStep(hs, spans, b, year, month, 1);
    DecodeStep(hs, spans, b, year, month, 2);
    DecodeStep(hs, spans, b, year, month, 3);
    DecodeLength(hs, spans, b, year, month, 3);
    assert TotalWidth(hs, spans, 1) == 2;
    assert TotalWidth(hs, spans, 2) == 6;
    RecordOfColumn(hs, spans, b, year, month, 1, 3);
    OffsetsOfThree(hs, b, year, month);
    OffsetSucceedsIff(hs, b, year, month, 3);
    OffsetAttribution(hs, b, year, month, 2, 5);
  }

  /** Labels as the forecast table prints them meet `DayParses`, and
      their day of week is the word, so two days with different words
      meet the premise of `UnequalSpansMisattribute`. */
  lemma LabelDayParses(word: String, day: nat, colspan: nat, year: int, month: int)
    requires ValidYearMonth(year, month)
    requires word != [] && forall i :: 0 <= i < |word| ==> !IsSpace(word[i])
    requires 1 <= day <= DaysInMonth(year, month)
    ensures var h := Header(word + [' '] + Decimal(day), colspan);
            DayParses(h, year, month) && DayOfWeek(Clean(h.text)) == word
  {
    ParseLabel(word, day, year, month);
  }

  lemma {:induction false} TwoSlotOffsets(headers: seq<Header>, i: nat)
    requires 1 <= |headers| && headers[0].colspan == 2
    requires forall k :: 1 <= k < |headers| ==> headers[k].colspan == 3
    requires 1 <= i <= |headers|
    ensures OffsetStart(headers, i) == 3 * i - 1
  {
    if i > 1 {
      TwoSlotOffsets(headers, i - 1);
    }
  }

  /** The layout of a table whose first day has two forecast slots left
      and every later day three (colspans 2, 3, 3, ...): the source gives
      day 1 four columns, the first column the header puts under day 2
      among them, and reads every later day one column to the right of
      the columns the header puts under it. */
  lemma TwoSlotFirstDay(headers: seq<Header>, i: nat)
    requires 2 <= |headers| && headers[0].colspan == 2
    requires forall k :: 1 <= k < |headers| ==> headers[k].colspan == 3
    requires 2 <= i < |headers|
    ensures SourceSpans(headers)[1] == Span(2, 6) && OffsetSpans(headers)[1] == Span(2, 5)
    ensures var start := OffsetStart(headers, i);
            && OffsetSpans(headers)[i] == Span(start, start + 3)
            && SourceSpans(headers)[i] == Span(start + 1, start + 4)
  {
    TwoSlotOffsets(headers, 1);
    TwoSlotOffsets(headers, i);
    assert SourceSpans(headers)[1] == SourceSpan(headers, 1);
    assert SourceSpans(headers)[i] == SourceSpan(headers, i);
    assert headers[i - 1].colspan == 3;
  }

  /** Colspans 3, 3, 1, 3: day 2's range ends below its start, so it is
      empty and pulls day 3's start back to column 3, and day 3 reads
      columns 3..5 again, which day 1 has already read. */
  lemma BackwardRangeOverlap(headers: seq<Header>)
    requires |headers| == 4
    requires headers[0].colspan == 3 && headers[1].colspan == 3
    requires headers[2].colspan == 1 && headers[3].colspan == 3
    ensures SourceSpans(headers)[1] == Span(3, 6)
    ensures SourceSpans(headers)[2] == Span(6, 3) && Width(SourceSpans(headers)[2]) == 0
    ensures SourceSpans(headers)[3] == Span(3, 12)
  {
    assert SourceSpans(headers)[1] == SourceSpan(headers, 1);
    assert SourceSpans(headers)[2] == SourceSpan(headers, 2);
    assert SourceSpans(headers)[3] == SourceSpan(headers, 3);
  }
}
