/** The three pages of the dashboard, without their rendering: what each
    computes from the text the user typed and the response of its one
    request. */
module Pages {
  import opened Wrappers
  import opened Sequences
  import opened Tally
  import Text
  import opened Events
  import opened Roles
  import opened Dates

  /** `nlargest(10)` on the top-drugs page. */
  const TopCount: nat := 10

  /** `head(20)` of the recent-reports listing. */
  const RecentCount: nat := 20

  /** What a page shows: a prompt to type a drug name, the failure of its
      request, a "no reports" warning, or its content. */
  datatype View<T> = Prompt | Unavailable(error: FetchError) | NoReports | Shown(content: T)

  function DrugColumn(rows: seq<Row>): (drugs: seq<string>)
    ensures |drugs| == |rows|
  {
    seq(|rows|, i requires 0 <= i < |rows| => rows[i].drug)
  }

  function CodeColumn(rows: seq<Row>): (codes: seq<Option<string>>)
    ensures |codes| == |rows|
  {
    seq(|rows|, i requires 0 <= i < |rows| => rows[i].role)
  }

  // ---------------------------------------------------------------------
  // Top drugs
  // ---------------------------------------------------------------------

  /** `df["drug"].value_counts().nlargest(10)`: at most ten drugs. */
  function TopDrugs(rows: seq<Row>): (top: seq<(string, nat)>)
    ensures |top| <= TopCount
  {
    Largest(ValueCounts(DrugColumn(rows)), TopCount)
  }

  /** The ranking has min(10, number of distinct names) entries, each a
      distinct name of the table with its exact, case-sensitive number of
      rows, in non-increasing order of count; no name left out has more
      rows than any name listed. */
  lemma TopDrugsSpec(rows: seq<Row>)
    ensures var drugs, top := DrugColumn(rows), TopDrugs(rows);
            && |top| == Min(TopCount, |ValueCounts(drugs)|)
            && (forall i :: 0 <= i < |top| ==> top[i].0 in drugs && top[i].1 == Count(drugs, top[i].0))
            && NonIncreasing(top)
            && NoDuplicates(Keys(top))
            && (forall d :: d in drugs && d !in Keys(top) ==> forall k :: 0 <= k < |top| ==> Count(drugs, d) <= top[k].1)
  {
    LargestSpec(ValueCounts(DrugColumn(rows)), TopCount);
    TopDrugsExact(rows);
    TopDrugsLeftOut(rows);
  }

  lemma TopDrugsExact(rows: seq<Row>)
    ensures var drugs, top := DrugColumn(rows), TopDrugs(rows);
            forall i :: 0 <= i < |top| ==> top[i].0 in drugs && top[i].1 == Count(drugs, top[i].0)
  {
    LargestSubset(ValueCounts(DrugColumn(rows)), TopCount);
    DrawnCountsExact(DrugColumn(rows), TopDrugs(rows));
  }

  lemma TopDrugsLeftOut(rows: seq<Row>)
    ensures var drugs, top := DrugColumn(rows), TopDrugs(rows);
            forall d :: d in drugs && d !in Keys(top) ==> forall k :: 0 <= k < |top| ==> Count(drugs, d) <= top[k].1
  {
    LargestLeftOut(ValueCounts(DrugColumn(rows)), TopCount);
    LeftOutCounts(DrugColumn(rows), TopDrugs(rows));
  }

  /** A drug reported strictly more often than every other drug is ranked
      first, with its count (ten IBUPROFEN rows among singletons, say). */
  lemma StrictLeaderRanksFirst(rows: seq<Row>, leader: string)
    requires leader in DrugColumn(rows)
    requires forall d :: d in DrugColumn(rows) && d != leader ==> Count(DrugColumn(rows), d) < Count(DrugColumn(rows), leader)
    ensures TopDrugs(rows)[0] == (leader, Count(DrugColumn(rows), leader))
  {
    CountLeaderFirst(DrugColumn(rows), TopCount, leader);
  }

  /** `page_top_drugs`: an error status, 404 included, fails the page, an
      empty table warns, and otherwise the page shows the ranking of every
      row of the latest events. */
  function TopDrugsPage(resp: Response): (v: View<seq<(string, nat)>>)
    ensures !v.Prompt?
    ensures v.Unavailable? <==> IsErrorStatus(resp.status)
    ensures v.NoReports? <==> !IsErrorStatus(resp.status) && TotalDrugs(ResultsOf(resp)) == 0
    ensures v.Shown? ==> v.content == TopDrugs(Flatten(ResultsOf(resp))) && 0 < |v.content| <= TopCount
  {
    match LoadEvents(resp)
    case Err(e) => Unavailable(e)
    case Ok(rows) =>
      if rows == [] then NoReports
      else
        TopDrugsSpec(rows);
        assert rows[0].drug in DrugColumn(rows);
        Shown(TopDrugs(rows))
  }

  // ---------------------------------------------------------------------
  // Search by drug
  // ---------------------------------------------------------------------

  /** A row of the search page's table once its date is parsed and its
      role described. */
  datatype Report = Report(date: Date, drug: string, role: Role)

  /** `pd.to_datetime(..., errors="coerce")` on one cell: a missing or
      malformed date becomes null. */
  function ParseDate(date: Option<string>): (r: Option<Date>)
    ensures date.None? ==> r.None?
    ensures r.Some? ==> ValidDate(r.value) && date == Some(Format(r.value))
  {
    match date
    case None => None
    case Some(s) => ParseYmd(s)
  }

  predicate HasValidDate(row: Row) {
    ParseDate(row.date).Some?
  }

  /** `dropna(subset=["date"])` */
  function DropInvalidDates(rows: seq<Row>): (kept: seq<Row>)
    ensures forall k :: 0 <= k < |kept| ==> HasValidDate(kept[k])
  {
    Filter(HasValidDate, rows)
  }

  /** A row survives the date filter exactly when its date text is the
      `YYYYMMDD` text of a real calendar day, and it survives as many times
      as it occurs. */
  lemma DateFilterSpec(rows: seq<Row>)
    ensures forall row, d :: row in rows && ValidDate(d) && row.date == Some(Format(d)) ==> row in DropInvalidDates(rows)
    ensures forall k :: 0 <= k < |DropInvalidDates(rows)| ==>
              var dr := DropInvalidDates(rows)[k].date;
              dr.Some? && ValidDate(ParseYmd(dr.value).value) && Format(ParseYmd(dr.value).value) == dr.value
    ensures forall x :: Count(DropInvalidDates(rows), x) == if HasValidDate(x) then Count(rows, x) else 0
  {
    FilterSpec(HasValidDate, rows);
    forall row, d | row in rows && ValidDate(d) && row.date == Some(Format(d)) ensures row in DropInvalidDates(rows) {
      ParseFormat(d);
      var i :| 0 <= i < |rows| && rows[i] == row;
    }
  }

  function ToReport(row: Row): (r: Report)
    requires HasValidDate(row)
    ensures ValidDate(r.date) && row.date == Some(Format(r.date))
    ensures r.drug == row.drug && r.role == Classify(row.role)
  {
    Report(ParseDate(row.date).value, row.drug, Classify(row.role))
  }

  /** `.dt.date` and `role_desc` over the surviving rows. */
  function Reports(kept: seq<Row>): (rs: seq<Report>)
    requires forall k :: 0 <= k < |kept| ==> HasValidDate(kept[k])
    ensures |rs| == |kept|
    ensures forall k :: 0 <= k < |kept| ==> ValidDate(rs[k].date) && kept[k].date == Some(Format(rs[k].date))
    ensures forall k :: 0 <= k < |kept| ==> rs[k].drug == kept[k].drug && rs[k].role == Classify(kept[k].role)
  {
    seq(|kept|, k requires 0 <= k < |kept| && HasValidDate(kept[k]) => ToReport(kept[k]))
  }

  function DateColumn(rs: seq<Report>): (dates: seq<Date>)
    ensures |dates| == |rs|
  {
    seq(|rs|, i requires 0 <= i < |rs| => rs[i].date)
  }

  function Earlier(a: Date, b: Date): Date {
    if NotAfter(a, b) then a else b
  }

  function Later(a: Date, b: Date): Date {
    if NotAfter(a, b) then b else a
  }

  /** `df["date"].min()` and `.max()`: absent for an empty table; otherwise
      two dates of the table with every date of the table between them. */
  function DateSpan(rs: seq<Report>): (span: Option<(Date, Date)>)
    ensures span.None? <==> rs == []
    ensures span.Some? ==> span.value.0 in DateColumn(rs) && span.value.1 in DateColumn(rs)
    ensures span.Some? ==> NotAfter(span.value.0, span.value.1)
    ensures span.Some? ==> forall k :: 0 <= k < |rs| ==> NotAfter(span.value.0, rs[k].date) && NotAfter(rs[k].date, span.value.1)
  {
    if rs == [] then None
    else
      var d := rs[0].date;
      assert DateColumn(rs) == [d] + DateColumn(rs[1..]);
      match DateSpan(rs[1..])
      case None => Some((d, d))
      case Some((lo, hi)) =>
        assert forall k :: 1 <= k < |rs| ==> NotAfter(lo, rs[k].date) && NotAfter(rs[k].date, hi) by {
          assert forall k :: 1 <= k < |rs| ==> rs[k] == rs[1..][k - 1];
        }
        SpanWidens(rs, lo, hi);
        Some((Earlier(d, lo), Later(d, hi)))
  }

  /** Widening the span of the later reports by the first report's date
      covers every report. */
  lemma SpanWidens(rs: seq<Report>, lo: Date, hi: Date)
    requires rs != [] && NotAfter(lo, hi)
    requires forall k :: 1 <= k < |rs| ==> NotAfter(lo, rs[k].date) && NotAfter(rs[k].date, hi)
    ensures NotAfter(Earlier(rs[0].date, lo), Later(rs[0].date, hi))
    ensures forall k :: 0 <= k < |rs| ==>
              NotAfter(Earlier(rs[0].date, lo), rs[k].date) && NotAfter(rs[k].date, Later(rs[0].date, hi))
  {
  }

  /** Dates never increase along the listing. */
  ghost predicate NewestFirst(rs: seq<Report>) {
    forall i, j :: 0 <= i < j < |rs| ==> NotAfter(rs[j].date, rs[i].date)
  }

  /** Inserts `x` in front of the first report that is not newer than it. */
  function InsertByDate(x: Report, rs: seq<Report>): (r: seq<Report>)
    ensures multiset(r) == multiset(rs) + multiset{x}
  {
    if rs == [] || NotAfter(rs[0].date, x.date) then
      [x] + rs
    else
      assert rs == [rs[0]] + rs[1..];
      [rs[0]] + InsertByDate(x, rs[1..])
  }

  lemma {:induction false} InsertByDateNewestFirst(x: Report, rs: seq<Report>)
    requires NewestFirst(rs)
    ensures NewestFirst(InsertByDate(x, rs))
  {
    if rs != [] && !NotAfter(rs[0].date, x.date) {
      var r' := InsertByDate(x, rs[1..]);
      assert rs == [rs[0]] + rs[1..];
      assert NewestFirst(rs[1..]) by {
        forall i, j | 0 <= i < j < |rs| - 1 ensures NotAfter(rs[1..][j].date, rs[1..][i].date) {
          assert rs[1..][j] == rs[j + 1] && rs[1..][i] == rs[i + 1];
        }
      }
      InsertByDateNewestFirst(x, rs[1..]);
      PrependNewest(rs[0], x, rs[1..], r');
    }
  }

  lemma PrependNewest(head: Report, x: Report, tail: seq<Report>, r': seq<Report>)
    requires NewestFirst([head] + tail) && NewestFirst(r')
    requires !NotAfter(head.date, x.date)
    requires multiset(r') == multiset(tail) + multiset{x}
    ensures NewestFirst([head] + r')
  {
    var r := [head] + r';
    forall i, j | 0 <= i < j < |r| ensures NotAfter(r[j].date, r[i].date) {
      if i == 0 {
        var y := r[j];
        assert y == r'[j - 1];
        assert y in multiset(r');
        if y != x {
          assert y in multiset(tail);
          var q :| 0 <= q < |tail| && tail[q] == y;
          assert ([head] + tail)[q + 1] == y && ([head] + tail)[0] == head;
        } else {
          NotAfterTotalOrder(head.date, x.date, x.date);
        }
      } else {
        assert r[i] == r'[i - 1] && r[j] == r'[j - 1];
      }
    }
  }

  /** `sort_values("date", ascending=False)`: a permutation with dates
      never increasing. */
  function SortNewestFirst(rs: seq<Report>): (r: seq<Report>)
    ensures NewestFirst(r)
    ensures multiset(r) == multiset(rs)
  {
    if rs == [] then []
    else
      assert rs == [rs[0]] + rs[1..];
      InsertByDateNewestFirst(rs[0], SortNewestFirst(rs[1..]));
      InsertByDate(rs[0], SortNewestFirst(rs[1..]))
  }

  /** The first `n` reports of a listing sorted newest first are sorted, are
      drawn from it, and none of the rest is newer than any of them. */
  lemma TakeNewest(sorted: seq<Report>, n: nat)
    requires NewestFirst(sorted) && n <= |sorted|
    ensures NewestFirst(sorted[..n])
    ensures multiset(sorted[..n]) <= multiset(sorted)
    ensures forall x :: x in multiset(sorted) - multiset(sorted[..n])
                        ==> forall k :: 0 <= k < n ==> NotAfter(x.date, sorted[..n][k].date)
  {
    var r := sorted[..n];
    assert multiset(sorted) == multiset(r) + multiset(sorted[n..]) by {
      assert sorted == r + sorted[n..];
    }
    forall x | x in multiset(sorted) - multiset(r) ensures forall k :: 0 <= k < n ==> NotAfter(x.date, r[k].date) {
      LaterNotNewer(sorted, n, x);
    }
  }

  /** A report past the first `n` of a listing sorted newest first is not
      newer than any of them. */
  lemma LaterNotNewer(sorted: seq<Report>, n: nat, x: Report)
    requires NewestFirst(sorted) && n <= |sorted|
    requires x in multiset(sorted[n..])
    ensures forall k :: 0 <= k < n ==> NotAfter(x.date, sorted[..n][k].date)
  {
    var q :| 0 <= q < |sorted[n..]| && sorted[n..][q] == x;
    assert sorted[n + q] == x;
    forall k | 0 <= k < n ensures NotAfter(x.date, sorted[..n][k].date) {
      assert sorted[..n][k] == sorted[k];
    }
  }

  /** The recent-reports listing: sorted newest first, `head(20)`. */
  function RecentReports(rs: seq<Report>): (r: seq<Report>)
    ensures |r| == Min(RecentCount, |rs|)
    ensures NewestFirst(r)
    ensures multiset(r) <= multiset(rs)
    ensures forall x :: x in multiset(rs) - multiset(r) ==> forall k :: 0 <= k < |r| ==> NotAfter(x.date, r[k].date)
  {
    var sorted := SortNewestFirst(rs);
    TakeNewest(sorted, Min(RecentCount, |sorted|));
    sorted[..Min(RecentCount, |sorted|)]
  }

  /** Everything the search page reports about its table. */
  datatype SearchSummary = SearchSummary(
    found: nat,
    span: Option<(Date, Date)>,
    roleCounts: seq<(Role, nat)>,
    recent: seq<Report>)

  /** The body of `page_search_drug` after loading: date parsing, the
      dropping of rows without a date, the span, the role breakdown of
      the surviving rows and the recent listing. */
  function Summarize(rows: seq<Row>): (s: SearchSummary)
    ensures var kept := DropInvalidDates(rows);
            var roles, reports := RoleColumn(CodeColumn(kept)), Reports(kept);
            && s.found == |kept| <= |rows|
            && (forall i :: 0 <= i < |s.roleCounts| ==> s.roleCounts[i].1 == Count(roles, s.roleCounts[i].0) > 0)
            && (forall k :: 0 <= k < |roles| ==> roles[k] in Keys(s.roleCounts))
            && SumCounts(s.roleCounts) == s.found
            && (s.span.None? <==> s.found == 0)
            && (s.span.Some? ==> s.span.value.0 in DateColumn(reports) && s.span.value.1 in DateColumn(reports))
            && (s.span.Some? ==> forall k :: 0 <= k < |reports| ==>
                  NotAfter(s.span.value.0, reports[k].date) && NotAfter(reports[k].date, s.span.value.1))
            && |s.recent| == Min(RecentCount, s.found)
            && NewestFirst(s.recent)
            && multiset(s.recent) <= multiset(reports)
            && (forall x :: x in multiset(reports) - multiset(s.recent) ==>
                  forall k :: 0 <= k < |s.recent| ==> NotAfter(x.date, s.recent[k].date))
  {
    var kept := DropInvalidDates(rows);
    var reports := Reports(kept);
    SearchSummary(|kept|, DateSpan(reports), RoleCounts(RoleColumn(CodeColumn(kept))), RecentReports(reports))
  }

  /** The page's numbers hang together: the breakdown and the listing are
      over the rows with a valid date only, the breakdown sums to their
      number and the listing holds min(20, that number) of them, newest
      first; the span exists exactly when some row survived. */
  lemma SummarizeSpec(rows: seq<Row>)
    ensures var s, kept := Summarize(rows), DropInvalidDates(rows);
            && s.found == |kept| <= |rows|
            && SumCounts(s.roleCounts) == s.found
            && |s.recent| == Min(RecentCount, s.found)
            && NewestFirst(s.recent)
            && multiset(s.recent) <= multiset(Reports(kept))
            && (s.span.None? <==> s.found == 0)
  {
  }

  /** The rows both search pages work on once the request succeeds: every
      row of the response whose name matches the stripped query. */
  function Matching(input: string, resp: Response): (rows: seq<Row>)
    ensures IsSubsequence(rows, Flatten(ResultsOf(resp)))
    ensures forall k :: 0 <= k < |rows| ==> Text.SameIgnoringCase(rows[k].drug, Text.Strip(input))
    ensures forall x :: Count(rows, x) ==
              if Text.SameIgnoringCase(x.drug, Text.Strip(input)) then Count(Flatten(ResultsOf(resp)), x) else 0
  {
    FilterSpec(MatchesQuery(Text.Strip(input)), Flatten(ResultsOf(resp)));
    Filter(MatchesQuery(Text.Strip(input)), Flatten(ResultsOf(resp)))
  }

  /** `page_search_drug`: nothing is fetched until the stripped query is
      non-empty; a 404 or an empty match list warns; another error status
      fails the page; otherwise the summary of the matching rows, which
      reports the number of those with a valid date and breaks them down
      by role. */
  function SearchPage(input: string, resp: Response): (v: View<SearchSummary>)
    ensures v.Prompt? <==> Text.Strip(input) == []
    ensures v.Unavailable? <==> Text.Strip(input) != [] && resp.status != 404 && IsErrorStatus(resp.status)
    ensures Text.Strip(input) != [] && resp.status == 404 ==> v.NoReports?
    ensures v.Shown? <==> Text.Strip(input) != [] && !IsErrorStatus(resp.status) && Matching(input, resp) != []
    ensures v.Shown? ==> v.content.found == |DropInvalidDates(Matching(input, resp))| <= |Matching(input, resp)|
    ensures v.Shown? ==>
              var roles := RoleColumn(CodeColumn(DropInvalidDates(Matching(input, resp))));
              && (forall i :: 0 <= i < |v.content.roleCounts| ==>
                    v.content.roleCounts[i].1 == Count(roles, v.content.roleCounts[i].0) > 0)
              && (forall k :: 0 <= k < |roles| ==> roles[k] in Keys(v.content.roleCounts))
              && SumCounts(v.content.roleCounts) == v.content.found
    ensures v.Shown? ==>
              var reports := Reports(DropInvalidDates(Matching(input, resp)));
              && v.content == Summarize(Matching(input, resp))
              && v.content.span == DateSpan(reports)
              && v.content.recent == RecentReports(reports)
  {
    var query := Text.Strip(input);
    if query == [] then Prompt
    else
      match LoadSearchEvents(query, resp)
      case Err(e) => Unavailable(e)
      case Ok(rows) => if rows == [] then NoReports else Shown(Summarize(rows))
  }

  // ---------------------------------------------------------------------
  // Role distribution
  // ---------------------------------------------------------------------

  /** `page_role_distribution`: the same prompt, warnings and failures as
      the search page, then the number of rows of each role among all
      matching rows; dates are never parsed here, so no row is dropped. */
  function RoleDistributionPage(input: string, resp: Response): (v: View<seq<(Role, nat)>>)
    ensures v.Prompt? <==> Text.Strip(input) == []
    ensures v.Unavailable? <==> Text.Strip(input) != [] && resp.status != 404 && IsErrorStatus(resp.status)
    ensures Text.Strip(input) != [] && resp.status == 404 ==> v.NoReports?
    ensures v.Shown? <==> Text.Strip(input) != [] && !IsErrorStatus(resp.status) && Matching(input, resp) != []
    ensures v.Shown? ==> SumCounts(v.content) == |Matching(input, resp)| > 0
    ensures v.Shown? ==>
              var roles := RoleColumn(CodeColumn(Matching(input, resp)));
              && (forall i :: 0 <= i < |v.content| ==> v.content[i].1 == Count(roles, v.content[i].0) > 0)
              && (forall k :: 0 <= k < |roles| ==> roles[k] in Keys(v.content))
  {
    var query := Text.Strip(input);
    if query == [] then Prompt
    else
      match LoadSearchEvents(query, resp)
      case Err(e) => Unavailable(e)
      case Ok(rows) => if rows == [] then NoReports else Shown(RoleCounts(RoleColumn(CodeColumn(rows))))
  }

  /** The two search pages load the same table, and the search page's role
      breakdown counts no more rows than the role-distribution page's; it
      counts the same number exactly when every matching row has a valid
      date. */
  lemma DateFilterOnlyOnSearchPage(input: string, resp: Response)
    ensures SearchPage(input, resp).Shown? <==> RoleDistributionPage(input, resp).Shown?
    ensures SearchPage(input, resp).Shown? ==>
              var rows := LoadSearchEvents(Text.Strip(input), resp).value;
              && SumCounts(SearchPage(input, resp).content.roleCounts) <= SumCounts(RoleDistributionPage(input, resp).content)
              && (SumCounts(SearchPage(input, resp).content.roleCounts) == SumCounts(RoleDistributionPage(input, resp).content)
                  <==> forall k :: 0 <= k < |rows| ==> HasValidDate(rows[k]))
  {
    var query := Text.Strip(input);
    if SearchPage(input, resp).Shown? {
      var rows := LoadSearchEvents(query, resp).value;
      FilterKeepsAll(HasValidDate, rows);
    }
  }

  /** A response holding one report, received on "20230145" (a day that
      does not exist), with one IBUPROFEN record as primary suspect. */
  function InvalidDateResponse(): Response {
    Response(200, Some([Event(Some("20230145"), Some(Patient(Some([DrugRecord(Some("IBUPROFEN"), Some("1"))]))))]))
  }

  /** The search loader turns that response into a single row. */
  lemma InvalidDateRows()
    ensures Text.Strip("IBUPROFEN") == "IBUPROFEN"
    ensures LoadSearchEvents("IBUPROFEN", InvalidDateResponse()) == Ok([Row(Some("20230145"), "IBUPROFEN", Some("1"))])
  {
    var name := "IBUPROFEN";
    var d := DrugRecord(Some(name), Some("1"));
    var ev := Event(Some("20230145"), Some(Patient(Some([d]))));
    var row := Row(Some("20230145"), name, Some("1"));
    assert Text.Strip(name) == name by {
      assert Text.Trimmed(name);
      assert [] + name + [] == name;
      Text.StripUnique([], name, []);
    }
    assert Drugs(ev) == [d];
    assert MatchingRows(name, ev, [d]) == [row];
    assert SearchRows(name, [ev]) == [row];
  }

  /** For that response the search page drops the report before counting
      roles, while the role-distribution page counts it as a primary
      suspect. */
  lemma InvalidDateScenario()
    ensures SearchPage("IBUPROFEN", InvalidDateResponse()) == Shown(SearchSummary(0, None, [], []))
    ensures RoleDistributionPage("IBUPROFEN", InvalidDateResponse()) == Shown([(PrimarySuspect, 1)])
  {
    var row := Row(Some("20230145"), "IBUPROFEN", Some("1"));
    InvalidDateRows();
    PagesOfLoadedRows("IBUPROFEN", InvalidDateResponse(), [row]);
    InvalidDateSummary(row);
    InvalidDateRoles(row);
  }

  /** When the stripped query loads a non-empty table, both search pages
      show what they compute from that table. */
  lemma PagesOfLoadedRows(input: string, resp: Response, rows: seq<Row>)
    requires Text.Strip(input) != [] && rows != []
    requires LoadSearchEvents(Text.Strip(input), resp) == Ok(rows)
    ensures SearchPage(input, resp) == Shown(Summarize(rows))
    ensures RoleDistributionPage(input, resp) == Shown(RoleCounts(RoleColumn(CodeColumn(rows))))
  {
  }

  lemma InvalidDateSummary(row: Row)
    requires row == Row(Some("20230145"), "IBUPROFEN", Some("1"))
    ensures Summarize([row]) == SearchSummary(0, None, [], [])
  {
    InvalidDayRejected();
    assert DropInvalidDates([row]) == [];
    assert RoleColumn(CodeColumn([])) == [];
    assert ValueCounts<Role>([]) == [];
  }

  lemma InvalidDateRoles(row: Row)
    requires row == Row(Some("20230145"), "IBUPROFEN", Some("1"))
    ensures RoleCounts(RoleColumn(CodeColumn([row]))) == [(PrimarySuspect, 1)]
  {
    assert RoleColumn(CodeColumn([row])) == [PrimarySuspect];
    ValueCountsSingle(PrimarySuspect);
  }
}
