/** The mountain loop of `scrape` (Weather3.py:113-178): for each mountain
    page, a row made of the mountain's name, the elevation read off its
    URL, and the records of its first six days.

    A page is given by what the scraper extracts from it: the header cells
    of the day row and the cell texts of the four body rows it reads.
    Fetching and parsing the page are not part of this model. */
module Scrape {
  import opened Wrappers
  import opened Text
  import opened Calendar
  import opened Grid
  import opened GridOffset

  /** `num_days` (Weather3.py:114). */
  const NumDays: nat := 6
  /** How many cells of each body row are kept: `num_days * 3`. */
  const NumCells: nat := NumDays * 3

  /** One entry of `mountains_urls`, with the table its page holds. */
  datatype Page = Page(name: String, url: String, days: seq<Header>, body: Body)

  /** `rows[k]`: `[mountain_name, elevation]` followed by one record per
      column read. */
  datatype MountainRow = MountainRow(name: String, elevation: String, records: seq<DayRecord>)

  /** The slice `s[0:n]`: the first `n` elements, or all of `s` when it is
      shorter. */
  function Take<T>(s: seq<T>, n: nat): (r: seq<T>)
    ensures |r| == Min(|s|, n)
    ensures forall i :: 0 <= i < |r| ==> r[i] == s[i]
  {
    if |s| <= n then s else s[..n]
  }

  /** The body rows cut to their first `NumCells` cells (Weather3.py:133-139). */
  function TruncatedBody(b: Body): Body {
    Body(Take(b.times, NumCells), Take(b.summaries, NumCells),
         Take(b.maxTemps, NumCells), Take(b.minTemps, NumCells))
  }

  /** The columns every truncated row has are the first `NumCells` of
      those every full row has, with the same cells. */
  lemma TruncatedColumns(b: Body)
    ensures var t := TruncatedBody(b);
            && MinLen(t) == Min(MinLen(b), NumCells)
            && forall j :: 0 <= j < MinLen(t) ==>
                 && t.times[j] == b.times[j] && t.summaries[j] == b.summaries[j]
                 && t.maxTemps[j] == b.maxTemps[j] && t.minTemps[j] == b.minTemps[j]
  {
  }

  /** The row one page contributes, or the exception its day loop raises.
      The row carries the mountain's name and, as its elevation, the part
      of the URL after its last `/`. */
  function ScrapePage(p: Page, year: int, month: int): (r: Result<MountainRow, ScrapeError>)
    requires ValidYearMonth(year, month)
    ensures r.Success? ==> r.value.name == p.name && r.value.elevation == LastSegment(p.url)
  {
    match DecodeAsWritten(Take(p.days, NumDays), TruncatedBody(p.body), year, month)
    case Failure(e) => Failure(e)
    case Success(records) => Success(MountainRow(p.name, LastSegment(p.url), records))
  }

  /** What each page yields, in the order the pages are visited. */
  function PageResults(pages: seq<Page>, year: int, month: int): (rs: seq<Result<MountainRow, ScrapeError>>)
    requires ValidYearMonth(year, month)
    ensures |rs| == |pages|
  {
    seq(|pages|, i requires 0 <= i < |pages| => ScrapePage(pages[i], year, month))
  }

  /** The rows of the first `n` results, or the first exception among them. */
  function Collect(results: seq<Result<MountainRow, ScrapeError>>, n: nat): Result<seq<MountainRow>, ScrapeError>
    requires n <= |results|
  {
    if n == 0 then Success([])
    else
      match Collect(results, n - 1)
      case Failure(e) => Failure(e)
      case Success(rows) =>
        match results[n - 1]
        case Failure(e) => Failure(e)
        case Success(row) => Success(rows + [row])
  }

  /** The rows of the first `n` pages, or the first exception raised. */
  function ScrapePages(pages: seq<Page>, year: int, month: int, n: nat): Result<seq<MountainRow>, ScrapeError>
    requires ValidYearMonth(year, month) && n <= |pages|
  {
    Collect(PageResults(pages, year, month), n)
  }

  /** An exception ends the collection: later results are never looked at. */
  lemma {:induction false} CollectFailureSticks(results: seq<Result<MountainRow, ScrapeError>>, n: nat, m: nat)
    requires n <= m <= |results|
    requires Collect(results, n).Failure?
    ensures Collect(results, m) == Collect(results, n)
    decreases m - n
  {
    if n < m {
      CollectFailureSticks(results, n, m - 1);
    }
  }

  /** Collecting succeeds exactly when every result does. */
  lemma {:induction false} CollectSucceedsIff(results: seq<Result<MountainRow, ScrapeError>>, n: nat)
    requires n <= |results|
    ensures Collect(results, n).Success? <==> forall i :: 0 <= i < n ==> results[i].Success?
  {
    if n > 0 {
      CollectSucceedsIff(results, n - 1);
    }
  }

  /** A successful collection yields the rows in order. */
  lemma {:induction false} CollectRows(results: seq<Result<MountainRow, ScrapeError>>, n: nat)
    requires n <= |results|
    requires Collect(results, n).Success?
    ensures var rows := Collect(results, n).value;
            |rows| == n && forall i :: 0 <= i < n ==> results[i].Success? && rows[i] == results[i].value
  {
    if n > 0 {
      CollectRows(results, n - 1);
    }
  }

  /** A failed collection reports the exception of the first failing result. */
  lemma {:induction false} CollectFirstError(results: seq<Result<MountainRow, ScrapeError>>, n: nat)
    requires n <= |results|
    requires Collect(results, n).Failure?
    ensures exists i :: 0 <= i < n && results[i] == Failure(Collect(results, n).error)
                        && forall k :: 0 <= k < i ==> results[k].Success?
  {
    if Collect(results, n - 1).Failure? {
      assert Collect(results, n) == Collect(results, n - 1);
      CollectFirstError(results, n - 1);
    } else {
      CollectSucceedsIff(results, n - 1);
      assert results[n - 1] == Failure(Collect(results, n).error);
    }
  }

  /** One more page: its row is appended, or its exception ends the scrape. */
  lemma ScrapePagesStep(pages: seq<Page>, year: int, month: int, m: nat)
    requires ValidYearMonth(year, month) && m < |pages|
    requires ScrapePages(pages, year, month, m).Success?
    ensures var page := pages[m];
            var decoded := DecodeAsWritten(Take(page.days, NumDays), TruncatedBody(page.body), year, month);
            ScrapePages(pages, year, month, m + 1) ==
              if decoded.Failure? then Failure(decoded.error)
              else Success(ScrapePages(pages, year, month, m).value
                           + [MountainRow(page.name, LastSegment(page.url), decoded.value)])
  {
    assert PageResults(pages, year, month)[m] == ScrapePage(pages[m], year, month);
  }

  /** Appending the records to the row just added gives that row with
      those records. */
  lemma FillLastRow(done: seq<MountainRow>, name: String, elevation: String, records: seq<DayRecord>)
    ensures var rows := done + [MountainRow(name, elevation, [])];
            rows[|done| := rows[|done|].(records := rows[|done|].records + records)]
              == done + [MountainRow(name, elevation, records)]
  {
    var rows := done + [MountainRow(name, elevation, [])];
    assert rows[|done|].records + records == records;
  }

  /** `scrape(mountains_urls)`, with today's year and month as parameters:
      `rows.append([mountain_name, elevation])`, then the day loop appends
      the records to `rows[k]`, then `k += 1`. */
  method ScrapeAll(pages: seq<Page>, year: int, month: int) returns (r: Result<seq<MountainRow>, ScrapeError>)
    requires ValidYearMonth(year, month)
    ensures r == ScrapePages(pages, year, month, |pages|)
  {
    var k := 0;
    var rows: seq<MountainRow> := [];
    for m := 0 to |pages|
      invariant k == m == |rows|
      invariant ScrapePages(pages, year, month, m) == Success(rows)
    {
      var page := pages[m];
      ghost var done := rows;
      var elevation := LastSegment(page.url);
      rows := rows + [MountainRow(page.name, elevation, [])];
      var records := DecodeDays(Take(page.days, NumDays), TruncatedBody(page.body), year, month);
      ScrapePagesStep(pages, year, month, m);
      if records.Failure? {
        CollectFailureSticks(PageResults(pages, year, month), m + 1, |pages|);
        return Failure(records.error);
      }
      FillLastRow(done, page.name, elevation, records.value);
      rows := rows[k := rows[k].(records := rows[k].records + records.value)];
      k := k + 1;
    }
    return Success(rows);
  }

  /** The scrape succeeds exactly when every page does; then there is one
      row per page, in page order; otherwise the scrape raises the
      exception of the first page that fails. */
  lemma ScrapeRows(pages: seq<Page>, year: int, month: int)
    requires ValidYearMonth(year, month)
    ensures ScrapePages(pages, year, month, |pages|).Success? <==>
      forall i :: 0 <= i < |pages| ==> ScrapePage(pages[i], year, month).Success?
    ensures ScrapePages(pages, year, month, |pages|).Success? ==>
      var rows := ScrapePages(pages, year, month, |pages|).value;
      |rows| == |pages| && forall i :: 0 <= i < |pages| ==> rows[i] == ScrapePage(pages[i], year, month).value
    ensures ScrapePages(pages, year, month, |pages|).Failure? ==>
      exists i :: 0 <= i < |pages|
        && ScrapePage(pages[i], year, month) == Failure(ScrapePages(pages, year, month, |pages|).error)
        && forall k :: 0 <= k < i ==> ScrapePage(pages[k], year, month).Success?
  {
    var results := PageResults(pages, year, month);
    assert forall i :: 0 <= i < |pages| ==> results[i] == ScrapePage(pages[i], year, month);
    CollectSucceedsIff(results, |pages|);
    if Collect(results, |pages|).Success? {
      CollectRows(results, |pages|);
    } else {
      CollectFirstError(results, |pages|);
    }
  }

  lemma TakeSame<T>(s: seq<T>, t: seq<T>, n: nat)
    requires |s| >= n && |t| >= n && s[..n] == t[..n]
    ensures Take(s, n) == Take(t, n)
  {
    assert Take(s, n) == s[..n];
    assert Take(t, n) == t[..n];
  }

  /** A page's table beyond its sixth day and eighteenth column never
      reaches its row. */
  lemma ScrapeReadsPrefix(p: Page, q: Page, year: int, month: int)
    requires ValidYearMonth(year, month)
    requires p.name == q.name && p.url == q.url
    requires |p.days| >= NumDays && |q.days| >= NumDays && p.days[..NumDays] == q.days[..NumDays]
    requires |p.body.times| >= NumCells && |q.body.times| >= NumCells
    requires |p.body.summaries| >= NumCells && |q.body.summaries| >= NumCells
    requires |p.body.maxTemps| >= NumCells && |q.body.maxTemps| >= NumCells
    requires |p.body.minTemps| >= NumCells && |q.body.minTemps| >= NumCells
    requires p.body.times[..NumCells] == q.body.times[..NumCells]
    requires p.body.summaries[..NumCells] == q.body.summaries[..NumCells]
    requires p.body.maxTemps[..NumCells] == q.body.maxTemps[..NumCells]
    requires p.body.minTemps[..NumCells] == q.body.minTemps[..NumCells]
    ensures ScrapePage(p, year, month) == ScrapePage(q, year, month)
  {
    TakeSame(p.days, q.days, NumDays);
    TakeSame(p.body.times, q.body.times, NumCells);
    TakeSame(p.body.summaries, q.body.summaries, NumCells);
    TakeSame(p.body.maxTemps, q.body.maxTemps, NumCells);
    TakeSame(p.body.minTemps, q.body.minTemps, NumCells);
    assert TruncatedBody(p.body) == TruncatedBody(q.body);
  }

  /** Records drawn from the truncated body hold cells of the first
      `NumCells` columns of the full body. */
  lemma FromTruncatedBody(b: Body, rs: seq<DayRecord>, year: int, month: int)
    requires AllFromBody(rs, TruncatedBody(b), year, month)
    ensures forall r :: r in rs ==>
      && r.date.year == year && r.date.month == month && ValidDate(r.date)
      && exists j :: 0 <= j < NumCells && HoldsColumn(r, b, j)
  {
    var tb := TruncatedBody(b);
    TruncatedColumns(b);
    forall r | r in rs
      ensures exists j :: 0 <= j < NumCells && HoldsColumn(r, b, j)
    {
      var idx :| 0 <= idx < |rs| && rs[idx] == r;
      assert FromBody(rs[idx], tb, year, month);
      var j :| 0 <= j < MinLen(tb) && HoldsColumn(r, tb, j);
      assert HoldsColumn(r, b, j);
    }
  }

  /** Every record of a page holds the cleaned cells of one of the first
      eighteen columns of its body rows, and a valid date in the given
      month. */
  lemma PageRecordsFromFirstCells(p: Page, year: int, month: int)
    requires ValidYearMonth(year, month)
    requires ScrapePage(p, year, month).Success?
    ensures forall r :: r in ScrapePage(p, year, month).value.records ==>
      && r.date.year == year && r.date.month == month && ValidDate(r.date)
      && exists j :: 0 <= j < NumCells && HoldsColumn(r, p.body, j)
  {
    var days := Take(p.days, NumDays);
    var tb := TruncatedBody(p.body);
    var decoded := DecodeAsWritten(days, tb, year, month);
    assert ScrapePage(p, year, month).value.records == decoded.value;
    DecodeFromBody(days, SourceSpans(days), tb, year, month, |days|);
    FromTruncatedBody(p.body, decoded.value, year, month);
  }

  /** When the six days read all span the same number of columns, a page's
      records are those of the running-offset alignment. */
  lemma PageMatchesOffsets(p: Page, c: nat, year: int, month: int)
    requires ValidYearMonth(year, month)
    requires forall k :: 0 <= k < |p.days| && k < NumDays ==> p.days[k].colspan == c
    ensures var offsets := DecodeByOffset(Take(p.days, NumDays), TruncatedBody(p.body), year, month);
            && (ScrapePage(p, year, month).Success? <==> offsets.Success?)
            && (offsets.Success? ==> ScrapePage(p, year, month).value.records == offsets.value)
  {
    EqualSpansAgree(Take(p.days, NumDays), TruncatedBody(p.body), year, month, c);
  }
}
