/** The two loaders: the openFDA response of one request, flattened from
    nested events with `patient.drug[]` sub-records into flat
    (date, drug, role) rows. */
module Events {
  import opened Wrappers
  import opened Sequences
  import Text

  /** One entry of `patient.drug[]`; `None` stands for a key the JSON lacks. */
  datatype DrugRecord = DrugRecord(medicinalProduct: Option<string>, drugCharacterization: Option<string>)

  datatype Patient = Patient(drug: Option<seq<DrugRecord>>)

  /** One adverse-event report of the `results` list. */
  datatype Event = Event(receiptDate: Option<string>, patient: Option<Patient>)

  /** A row of the table both loaders build: the raw receipt date, the
      stripped drug name and the raw role code. */
  datatype Row = Row(date: Option<string>, drug: string, role: Option<string>)

  /** What the single HTTP request returns: its status and, when the body
      has one, its `results` list. */
  datatype Response = Response(status: int, results: Option<seq<Event>>)

  /** The exception `raise_for_status` raises. */
  datatype FetchError = HttpError(status: int)

  /** Statuses `raise_for_status` rejects: client and server errors. */
  predicate IsErrorStatus(status: int) {
    400 <= status < 600
  }

  /** `resp.json().get("results", [])` */
  function ResultsOf(resp: Response): seq<Event> {
    resp.results.GetOr([])
  }

  /** `ev.get("patient", {}).get("drug", [])` */
  function Drugs(ev: Event): seq<DrugRecord> {
    match ev.patient
    case None => []
    case Some(p) => p.drug.GetOr([])
  }

  /** `drug.get("medicinalproduct", "").strip()` */
  function DrugName(d: DrugRecord): string {
    Text.Strip(d.medicinalProduct.GetOr(""))
  }

  function MakeRow(ev: Event, d: DrugRecord): Row {
    Row(ev.receiptDate, DrugName(d), d.drugCharacterization)
  }

  /** The rows of event `ev` for its sub-records `ds`, one per sub-record. */
  function RowsOf(ev: Event, ds: seq<DrugRecord>): (rows: seq<Row>)
    ensures |rows| == |ds|
  {
    if ds == [] then [] else [MakeRow(ev, ds[0])] + RowsOf(ev, ds[1..])
  }

  lemma {:induction false} RowsOfIndex(ev: Event, ds: seq<DrugRecord>, j: nat)
    requires j < |ds|
    ensures RowsOf(ev, ds)[j] == MakeRow(ev, ds[j])
  {
    if j > 0 {
      RowsOfIndex(ev, ds[1..], j - 1);
    }
  }

  function EventRows(ev: Event): seq<Row> {
    RowsOf(ev, Drugs(ev))
  }

  /** Number of drug sub-records over all events. */
  function TotalDrugs(evs: seq<Event>): nat {
    if evs == [] then 0 else |Drugs(evs[0])| + TotalDrugs(evs[1..])
  }

  /** The nested loop of `load_events`: every sub-record of every event,
      in event order and then sub-record order, nothing dropped. */
  function Flatten(evs: seq<Event>): (rows: seq<Row>)
    ensures |rows| == TotalDrugs(evs)
  {
    if evs == [] then [] else EventRows(evs[0]) + Flatten(evs[1..])
  }

  lemma {:induction false} FlattenAppend(a: seq<Event>, b: seq<Event>)
    ensures Flatten(a + b) == Flatten(a) + Flatten(b)
  {
    if a == [] {
      assert a + b == b;
    } else {
      assert (a + b)[1..] == a[1..] + b;
      FlattenAppend(a[1..], b);
    }
  }

  /** Sub-record `j` of event `i` lands at the position after all
      sub-records of the events before it; its row copies the event's
      receipt date and the sub-record's stripped name and role code. */
  lemma FlattenIndex(evs: seq<Event>, i: nat, j: nat)
    requires i < |evs| && j < |Drugs(evs[i])|
    ensures TotalDrugs(evs[..i]) + j < |Flatten(evs)|
    ensures Flatten(evs)[TotalDrugs(evs[..i]) + j] == MakeRow(evs[i], Drugs(evs[i])[j])
  {
    FlattenPosition(evs, i, j);
    RowsOfIndex(evs[i], Drugs(evs[i]), j);
  }

  /** The rows of event `i` follow the rows of all events before it. */
  lemma FlattenPosition(evs: seq<Event>, i: nat, j: nat)
    requires i < |evs| && j < |EventRows(evs[i])|
    ensures TotalDrugs(evs[..i]) + j < |Flatten(evs)|
    ensures Flatten(evs)[TotalDrugs(evs[..i]) + j] == EventRows(evs[i])[j]
  {
    var a, b, c := Flatten(evs[..i]), EventRows(evs[i]), Flatten(evs[i + 1..]);
    assert Flatten(evs) == a + (b + c) by { FlattenSplit(evs, i); }
    assert |a| == TotalDrugs(evs[..i]);
    IndexIntoMiddle(a, b, c, j);
  }

  lemma FlattenSplit(evs: seq<Event>, i: nat)
    requires i < |evs|
    ensures Flatten(evs) == Flatten(evs[..i]) + (EventRows(evs[i]) + Flatten(evs[i + 1..]))
  {
    var pre, post := evs[..i], evs[i..];
    assert evs == pre + post;
    FlattenAppend(pre, post);
    assert post[0] == evs[i] && post[1..] == evs[i + 1..];
  }

  lemma IndexIntoMiddle<T>(a: seq<T>, b: seq<T>, c: seq<T>, j: nat)
    requires j < |b|
    ensures |a| + j < |a + (b + c)| && (a + (b + c))[|a| + j] == b[j]
  {
  }

  /** An event whose sub-record has no name, or a name of white space only,
      still yields a row, with the empty string as drug name. */
  lemma {:induction false} EmptyNamesKept(evs: seq<Event>, i: nat, j: nat)
    requires i < |evs| && j < |Drugs(evs[i])|
    requires Text.AllSpace(Drugs(evs[i])[j].medicinalProduct.GetOr(""))
    ensures Row(evs[i].receiptDate, "", Drugs(evs[i])[j].drugCharacterization) in Flatten(evs)
  {
    FlattenIndex(evs, i, j);
    assert MakeRow(evs[i], Drugs(evs[i])[j]) in Flatten(evs);
    var raw := Drugs(evs[i])[j].medicinalProduct.GetOr("");
    assert Text.Strip(raw) == [] by {
      assert raw + [] == raw;
      Text.StripStartOfSpaces(raw, []);
    }
  }

  /** `load_events`: the loader of the top-drugs page. Any client or server
      error status, 404 included, raises; otherwise the response's events
      are flattened, one row per sub-record. */
  function LoadEvents(resp: Response): (r: Result<seq<Row>, FetchError>)
    ensures r.Err? <==> IsErrorStatus(resp.status)
    ensures r.Err? ==> r.error == HttpError(resp.status)
    ensures r.Ok? ==> r.value == Flatten(ResultsOf(resp)) && |r.value| == TotalDrugs(ResultsOf(resp))
    ensures r.Ok? && resp.results.None? ==> r.value == []
  {
    if IsErrorStatus(resp.status) then Err(HttpError(resp.status))
    else Ok(Flatten(ResultsOf(resp)))
  }

  /** The search filter: the stripped name equals the query, ignoring case. */
  function MatchesQuery(query: string): Row -> bool {
    (row: Row) => Text.SameIgnoringCase(row.drug, query)
  }

  /** The inner loop of `load_search_events` over the sub-records `ds` of
      event `ev`. */
  function MatchingRows(query: string, ev: Event, ds: seq<DrugRecord>): (rows: seq<Row>)
    ensures |rows| <= |ds|
    ensures forall k :: 0 <= k < |rows| ==> Text.SameIgnoringCase(rows[k].drug, query)
  {
    if ds == [] then []
    else
      var name := DrugName(ds[0]);
      var rest := MatchingRows(query, ev, ds[1..]);
      if Text.Lower(name) == Text.Lower(query) then [Row(ev.receiptDate, name, ds[0].drugCharacterization)] + rest
      else rest
  }

  /** The nested loop of `load_search_events`. */
  function SearchRows(query: string, evs: seq<Event>): (rows: seq<Row>)
    ensures |rows| <= TotalDrugs(evs)
    ensures forall k :: 0 <= k < |rows| ==> Text.SameIgnoringCase(rows[k].drug, query)
  {
    if evs == [] then [] else MatchingRows(query, evs[0], Drugs(evs[0])) + SearchRows(query, evs[1..])
  }

  lemma {:induction false} MatchingRowsIsFilter(query: string, ev: Event, ds: seq<DrugRecord>)
    ensures MatchingRows(query, ev, ds) == Filter(MatchesQuery(query), RowsOf(ev, ds))
  {
    if ds != [] {
      MatchingRowsIsFilter(query, ev, ds[1..]);
      assert RowsOf(ev, ds)[1..] == RowsOf(ev, ds[1..]);
    }
  }

  /** The loop that filters while it flattens selects exactly the rows of
      the unfiltered flattening whose name matches the query. */
  lemma {:induction false} SearchRowsIsFilter(query: string, evs: seq<Event>)
    ensures SearchRows(query, evs) == Filter(MatchesQuery(query), Flatten(evs))
  {
    if evs != [] {
      var p := MatchesQuery(query);
      SearchRowsIsFilter(query, evs[1..]);
      MatchingRowsIsFilter(query, evs[0], Drugs(evs[0]));
      FilterAppend(p, EventRows(evs[0]), Flatten(evs[1..]));
      assert Flatten(evs) == EventRows(evs[0]) + Flatten(evs[1..]);
      assert SearchRows(query, evs) == MatchingRows(query, evs[0], Drugs(evs[0])) + SearchRows(query, evs[1..]);
    }
  }

  /** `load_search_events`: the loader of the two search pages. A 404 is an
      empty table; any other client or server error raises; otherwise the
      result is exactly the flattened rows whose stripped name equals the
      query ignoring case, in order. */
  function LoadSearchEvents(query: string, resp: Response): (r: Result<seq<Row>, FetchError>)
    ensures resp.status == 404 ==> r == Ok([])
    ensures r.Err? <==> resp.status != 404 && IsErrorStatus(resp.status)
    ensures r.Err? ==> r.error == HttpError(resp.status)
    ensures r.Ok? && resp.status != 404 ==> r.value == Filter(MatchesQuery(query), Flatten(ResultsOf(resp)))
    ensures r.Ok? ==> forall k :: 0 <= k < |r.value| ==> Text.SameIgnoringCase(r.value[k].drug, query)
  {
    if resp.status == 404 then Ok([])
    else if IsErrorStatus(resp.status) then Err(HttpError(resp.status))
    else
      SearchRowsIsFilter(query, ResultsOf(resp));
      Ok(SearchRows(query, ResultsOf(resp)))
  }
}
