/** The running-offset alignment: each non-blank day is read from its own
    `colspan` columns, starting where the previous day's columns end.
    Day `i` covers the columns the header row lays out under it: from the
    sum of the spans of the days before it, for its own `colspan`.  The
    source instead reads day `i` from `i * colspan[i-1]` to
    `(i+1) * colspan[i]` (Weather3.py:147-158); the two agree when every
    day spans the same number of columns, and differ otherwise. */
module GridOffset {
  import opened Wrappers
  import opened Text
  import opened Calendar
  import opened Grid

  /** The first column of day `i`: the spans of all the days before it,
      blank or not, added up, as the header row lays them out. */
  function OffsetStart(headers: seq<Header>, i: nat): nat
    requires i <= |headers|
  {
    if i == 0 then 0 else OffsetStart(headers, i - 1) + headers[i - 1].colspan
  }

  function OffsetSpans(headers: seq<Header>): (spans: seq<Span>)
    ensures |spans| == |headers|
  {
    seq(|headers|, i requires 0 <= i < |headers| =>
      Span(OffsetStart(headers, i), OffsetStart(headers, i) + headers[i].colspan))
  }

  /** The records of the days, each non-blank day read from the columns
      the header lays out under it; a successful decode yields one record
      per column of every non-blank day (span conservation). */
  function DecodeByOffset(headers: seq<Header>, b: Body, year: int, month: int): (r: Result<seq<DayRecord>, ScrapeError>)
    requires ValidYearMonth(year, month)
    ensures r.Success? ==> |r.value| == NonBlankSpanSum(headers, |headers|)
  {
    var r := Decode(headers, OffsetSpans(headers), b, year, month, |headers|);
    if r.Success? then
      DecodeLength(headers, OffsetSpans(headers), b, year, month, |headers|);
      OffsetTotalWidth(headers, |headers|);
      r
    else r
  }

  /** The spans of the non-blank days among the first `n`, added up. */
  function NonBlankSpanSum(headers: seq<Header>, n: nat): nat
    requires n <= |headers|
  {
    if n == 0 then 0
    else NonBlankSpanSum(headers, n - 1) + (if Clean(headers[n - 1].text) == [] then 0 else headers[n - 1].colspan)
  }

  /** None of the first `n` labels is blank. */
  predicate NoBlankDay(headers: seq<Header>, n: nat)
    requires n <= |headers|
  {
    n == 0 || (NoBlankDay(headers, n - 1) && Clean(headers[n - 1].text) != [])
  }

  /** Every non-blank label among the first `n` has a valid day-of-month. */
  predicate DatesParse(headers: seq<Header>, year: int, month: int, n: nat)
    requires ValidYearMonth(year, month) && n <= |headers|
  {
    n == 0 ||
    (&& DatesParse(headers, year, month, n - 1)
     && (Clean(headers[n - 1].text) != [] ==> ParseDate(Clean(headers[n - 1].text), year, month).Success?))
  }

  /** Every non-blank, non-empty day among the first `n` ends within the
      shortest body row. */
  predicate SpansFit(headers: seq<Header>, b: Body, n: nat)
    requires n <= |headers|
  {
    n == 0 ||
    (&& SpansFit(headers, b, n - 1)
     && (Clean(headers[n - 1].text) != [] && headers[n - 1].colspan > 0 ==> OffsetStart(headers, n) <= MinLen(b)))
  }

  lemma {:induction false} OffsetStartMonotone(headers: seq<Header>, i: nat, n: nat)
    requires i <= n <= |headers|
    ensures OffsetStart(headers, i) <= OffsetStart(headers, n)
    decreases n - i
  {
    if i < n {
      OffsetStartMonotone(headers, i, n - 1);
    }
  }

  /** The running-offset decode succeeds exactly when every non-blank label
      has a valid day-of-month and every non-blank day's columns exist in
      every body row. */
  lemma {:induction false} OffsetSucceedsIff(headers: seq<Header>, b: Body, year: int, month: int, n: nat)
    requires ValidYearMonth(year, month) && n <= |headers|
    ensures Decode(headers, OffsetSpans(headers), b, year, month, n).Success? <==>
      DatesParse(headers, year, month, n) && SpansFit(headers, b, n)
  {
    if n > 0 {
      OffsetSucceedsIff(headers, b, year, month, n - 1);
      DayBlockFails(headers[n - 1], OffsetSpans(headers)[n - 1], b, year, month);
    }
  }

  /** With running offsets every non-blank day yields exactly `colspan`
      records. */
  lemma {:induction false} OffsetTotalWidth(headers: seq<Header>, n: nat)
    requires n <= |headers|
    ensures TotalWidth(headers, OffsetSpans(headers), n) == NonBlankSpanSum(headers, n)
  {
    if n > 0 {
      OffsetTotalWidth(headers, n - 1);
    }
  }

  lemma {:induction false} NoBlankSpanSum(headers: seq<Header>, n: nat)
    requires n <= |headers| && NoBlankDay(headers, n)
    ensures NonBlankSpanSum(headers, n) == OffsetStart(headers, n)
  {
    if n > 0 {
      NoBlankSpanSum(headers, n - 1);
    }
  }

  lemma {:induction false} OffsetContiguous(headers: seq<Header>, n: nat)
    requires n <= |headers| && NoBlankDay(headers, n)
    ensures Contiguous(headers, OffsetSpans(headers), n)
  {
    if n > 0 {
      OffsetContiguous(headers, n - 1);
      OffsetTotalWidth(headers, n - 1);
      NoBlankSpanSum(headers, n - 1);
    }
  }

  /** Day attribution: in a successful running-offset decode, column `p`
      of a non-blank day `i` (the columns `[OffsetStart(i), OffsetStart(i) +
      colspan)` the header puts under it) is recorded, after the records
      of the days before it, with that day's weekday and date and with the
      cleaned cells of column `p`. */
  lemma OffsetAttribution(headers: seq<Header>, b: Body, year: int, month: int, i: nat, p: nat)
    requires ValidYearMonth(year, month)
    requires DecodeByOffset(headers, b, year, month).Success?
    requires i < |headers| && Clean(headers[i].text) != []
    requires OffsetStart(headers, i) <= p < OffsetStart(headers, i) + headers[i].colspan
    ensures var rs := DecodeByOffset(headers, b, year, month).value;
            var q := NonBlankSpanSum(headers, i) + (p - OffsetStart(headers, i));
            var tokens := Split(Clean(headers[i].text), ' ');
            && q < |rs| && |tokens| >= 2 && IntOf(tokens[1]).Some?
            && rs[q].dayOfWeek == tokens[0]
            && rs[q].date == Date(year, month, IntOf(tokens[1]).value)
            && HoldsColumn(rs[q], b, p)
  {
    OffsetTotalWidth(headers, i);
    RecordOfColumn(headers, OffsetSpans(headers), b, year, month, i, p - OffsetStart(headers, i));
  }

  /** With no blank label, record `p` of a successful running-offset decode
      is the record of column `p`, and there is one per column the days
      span. */
  lemma OffsetPositional(headers: seq<Header>, b: Body, year: int, month: int)
    requires ValidYearMonth(year, month)
    requires NoBlankDay(headers, |headers|)
    requires DecodeByOffset(headers, b, year, month).Success?
    ensures var rs := DecodeByOffset(headers, b, year, month).value;
            |rs| == OffsetStart(headers, |headers|) && Aligned(rs, b)
  {
    NoBlankSpanSum(headers, |headers|);
    OffsetContiguous(headers, |headers|);
    DecodeAligned(headers, OffsetSpans(headers), b, year, month, |headers|);
  }

  // ---------------------------------------------------------------------
  // Where the source's spans and the running offsets agree
  // ---------------------------------------------------------------------

  /** If the source's span equals the running-offset span on every
      non-blank day, the two decodes are the same. */
  lemma SameSpansSameDecode(headers: seq<Header>, b: Body, year: int, month: int)
    requires ValidYearMonth(year, month)
    requires forall i :: 0 <= i < |headers| && Clean(headers[i].text) != [] ==>
               SourceSpan(headers, i) == OffsetSpans(headers)[i]
    ensures DecodeAsWritten(headers, b, year, month) == DecodeByOffset(headers, b, year, month)
  {
    DecodeSpansAgree(headers, SourceSpans(headers), OffsetSpans(headers), b, year, month, |headers|);
  }

  lemma {:induction false} EqualSpansOffsets(headers: seq<Header>, c: nat, n: nat)
    requires n <= |headers|
    requires forall k :: 0 <= k < |headers| ==> headers[k].colspan == c
    ensures OffsetStart(headers, n) == n * c
  {
    if n > 0 {
      EqualSpansOffsets(headers, c, n - 1);
      assert n * c == (n - 1) * c + c;
    }
  }

  /** When every day spans the same `c` columns, blank or not, the source's
      formula reads exactly the running-offset columns, so the two decodes
      coincide. */
  lemma EqualSpansAgree(headers: seq<Header>, b: Body, year: int, month: int, c: nat)
    requires ValidYearMonth(year, month)
    requires forall k :: 0 <= k < |headers| ==> headers[k].colspan == c
    ensures DecodeAsWritten(headers, b, year, month) == DecodeByOffset(headers, b, year, month)
  {
    forall i | 0 <= i < |headers|
      ensures SourceSpan(headers, i) == OffsetSpans(headers)[i]
    {
      EqualSpansAsWritten(headers, c, i);
      EqualSpansOffsets(headers, c, i);
    }
    SameSpansSameDecode(headers, b, year, month);
  }
}
