/** The attendance viewer (attendance_filter.py): the filtered report query,
    what a fetch yields on each error path, and the Excel export with its
    column widths. The store answers a query with rows; how it evaluates
    `LIKE` and the join is outside the model. */
module Reports {
  import opened Records
  import opened Text

  /** The three filter entries: name, department, date. */
  datatype Filters = Filters(name: string, department: string, date: string)

  const NoFilters: Filters := Filters("", "", "")

  /** The SQL text and the parameter list handed to `cursor.execute`. */
  datatype Query = Query(sql: string, params: seq<string>)

  /** The `%s` parameter marker of the MySQL driver. */
  const Marker: string := "%s"

  /** The fixed part of the report query, line by line, and the three
      filter clauses. */
  const SelectLine: string :=
    "\n        SELECT s.student_id," + " s.name, s.department," + " s.email, a.date, a.time"
  const FromLine: string := "\n        FROM students s"
  const JoinLine: string := "\n        JOIN attendance a" + " ON s.student_id = a.student_id"
  const WhereLine: string := "\n        WHERE 1=1\n        "
  const BaseQuery: string := SelectLine + FromLine + JoinLine + WhereLine
  const NameClause: string := " AND s.name LIKE " + Marker
  const DepartmentClause: string := " AND s.department LIKE " + Marker
  const DateClause: string := " AND a.date = " + Marker
  const OrderBy: string := " ORDER BY a.date DESC, a.time DESC"

  /** The pattern `f"%{x}%"`: `x` anywhere in the column. */
  function Contains(x: string): string {
    "%" + x + "%"
  }

  /** The SQL text carries one `%s` marker per parameter, and does not end in
      a `%` that a following piece could turn into a marker. */
  predicate WellFormed(q: Query) {
    CountMarkers(q.sql) == |q.params| && (q.sql == [] || q.sql[|q.sql| - 1] != '%')
  }

  lemma CountMarkersWithoutPercent(s: string)
    requires '%' !in s
    ensures CountMarkers(s) == 0
  {
  }

  /** A filter clause carries exactly one marker, at its end. */
  lemma ClauseHasOneMarker(prefix: string)
    requires '%' !in prefix
    ensures CountMarkers(prefix + Marker) == 1
  {
    CountMarkersWithoutPercent(prefix);
    CountMarkersConcat(prefix, Marker);
    assert CountMarkers(Marker[1..]) == 0;
  }

  lemma ClausesHaveOneMarker()
    ensures CountMarkers(NameClause) == 1
    ensures CountMarkers(DepartmentClause) == 1
    ensures CountMarkers(DateClause) == 1
  {
    ClauseHasOneMarker(" AND s.name LIKE ");
    ClauseHasOneMarker(" AND s.department LIKE ");
    ClauseHasOneMarker(" AND a.date = ");
  }

  lemma SelectLineHasNoPercent()
    ensures '%' !in SelectLine
  {
  }

  lemma JoinLineHasNoPercent()
    ensures '%' !in JoinLine
  {
  }

  /** The fixed texts contain no `%`, so they carry no marker. */
  lemma FixedTextsHaveNoPercent()
    ensures '%' !in BaseQuery && '%' !in OrderBy
  {
    SelectLineHasNoPercent();
    JoinLineHasNoPercent();
    assert '%' !in FromLine;
    assert '%' !in WhereLine;
  }

  /** A clause text: one marker, not ending in `%`. */
  predicate IsClause(clause: string) {
    CountMarkers(clause) == 1 && clause != [] && clause[|clause| - 1] != '%'
  }

  lemma FilterClausesAreClauses()
    ensures IsClause(NameClause) && IsClause(DepartmentClause) && IsClause(DateClause)
  {
    ClausesHaveOneMarker();
  }

  lemma StartsWithTransitive(a: string, b: string, c: string)
    requires StartsWith(a, b) && StartsWith(b, c)
    ensures StartsWith(a, c)
  {
  }

  /** `query += clause; params.append(param)` */
  function AddClause(q: Query, clause: string, param: string): (r: Query)
    requires WellFormed(q) && IsClause(clause)
    ensures WellFormed(r)
    ensures r.sql == q.sql + clause && r.params == q.params + [param]
    ensures StartsWith(r.sql, q.sql)
  {
    CountMarkersConcat(q.sql, clause);
    assert (q.sql + clause)[..|q.sql|] == q.sql;
    Query(q.sql + clause, q.params + [param])
  }

  /** `query += clause` when `cond` holds. */
  function AddClauseIf(q: Query, cond: bool, clause: string, param: string): (r: Query)
    requires WellFormed(q) && IsClause(clause)
    ensures WellFormed(r)
    ensures r.sql == q.sql + (if cond then clause else [])
    ensures StartsWith(r.sql, q.sql)
    ensures r.params == q.params + (if cond then [param] else [])
  {
    if cond then AddClause(q, clause, param) else q
  }

  datatype Built = InvalidDate | Built(query: Query)

  /** The clause texts the filters contribute: one per non-empty filter, in
      the order name, department, date. */
  function FilterClauses(f: Filters): string {
    (if f.name != [] then NameClause else [])
    + (if f.department != [] then DepartmentClause else [])
    + (if f.date != [] then DateClause else [])
  }

  /** The parameters the filters contribute, in clause order. */
  function FilterParams(f: Filters): seq<string> {
    (if f.name != [] then [Contains(f.name)] else [])
    + (if f.department != [] then [Contains(f.department)] else [])
    + (if f.date != [] then [f.date] else [])
  }

  /** The three `if` blocks of `fetch_data` (with the date already accepted). */
  function AddFilterClauses(q: Query, f: Filters): (r: Query)
    requires WellFormed(q)
    ensures WellFormed(r)
    ensures r.sql == q.sql + FilterClauses(f)
    ensures StartsWith(r.sql, q.sql)
    ensures r.params == q.params + FilterParams(f)
  {
    FilterClausesAreClauses();
    var q1 := AddClauseIf(q, f.name != [], NameClause, Contains(f.name));
    var q2 := AddClauseIf(q1, f.department != [], DepartmentClause, Contains(f.department));
    var q3 := AddClauseIf(q2, f.date != [], DateClause, f.date);
    StartsWithTransitive(q2.sql, q1.sql, q.sql);
    StartsWithTransitive(q3.sql, q2.sql, q.sql);
    ParamsOfClauses(q.params, q1.params, q2.params, q3.params, f);
    TextOfClauses(q.sql, q1.sql, q2.sql, q3.sql, f);
    q3
  }

  lemma ParamsOfClauses(p0: seq<string>, p1: seq<string>, p2: seq<string>, p3: seq<string>, f: Filters)
    requires p1 == p0 + (if f.name != [] then [Contains(f.name)] else [])
    requires p2 == p1 + (if f.department != [] then [Contains(f.department)] else [])
    requires p3 == p2 + (if f.date != [] then [f.date] else [])
    ensures p3 == p0 + FilterParams(f)
  {
  }

  lemma TextOfClauses(s0: string, s1: string, s2: string, s3: string, f: Filters)
    requires s1 == s0 + (if f.name != [] then NameClause else [])
    requires s2 == s1 + (if f.department != [] then DepartmentClause else [])
    requires s3 == s2 + (if f.date != [] then DateClause else [])
    ensures s3 == s0 + FilterClauses(f)
  {
  }

  /** The text starts with `base` and ends with `order`, and carries one
      marker per parameter. */
  predicate Framed(q: Query, base: string, order: string) {
    && CountMarkers(q.sql) == |q.params|
    && StartsWith(q.sql, base)
    && |order| <= |q.sql| && q.sql[|q.sql| - |order|..] == order
  }

  /** The query for any fixed head and tail without `%`. */
  function Assemble(base: string, order: string, f: Filters): (r: Query)
    requires '%' !in base && '%' !in order
    ensures Framed(r, base, order)
    ensures r.sql == base + FilterClauses(f) + order
    ensures r.params == FilterParams(f)
  {
    CountMarkersWithoutPercent(base);
    CountMarkersWithoutPercent(order);
    assert base != [] ==> base[|base| - 1] in base;
    var q := AddFilterClauses(Query(base, []), f);
    CountMarkersConcat(q.sql, order);
    var sql := q.sql + order;
    assert sql == base + FilterClauses(f) + order;
    assert sql[..|base|] == q.sql[..|base|];
    assert sql[|sql| - |order|..] == order;
    Query(sql, q.params)
  }

  /** The query of `fetch_data`. An empty entry adds no clause. A date that
      `strptime(..., '%Y-%m-%d')` rejects (`isValidDate`) stops the fetch
      before the store sees anything. Otherwise the SQL text has exactly one
      `%s` per parameter, the parameters come in the order name, department,
      date, and the text is the base query followed by the clauses and the
      ordering. */
  function BuildQuery(f: Filters, isValidDate: string -> bool): (r: Built)
    ensures r.InvalidDate? <==> f.date != [] && !isValidDate(f.date)
    ensures r.Built? ==> Framed(r.query, BaseQuery, OrderBy) && r.query.params == FilterParams(f)
    ensures r.Built? ==> r.query.sql == BaseQuery + FilterClauses(f) + OrderBy
  {
    if f.date != [] && !isValidDate(f.date) then InvalidDate
    else
      FixedTextsHaveNoPercent();
      Built(Assemble(BaseQuery, OrderBy, f))
  }

  /** The number of parameters is the number of non-empty filters. */
  lemma ParamsCountFilters(f: Filters, isValidDate: string -> bool)
    requires BuildQuery(f, isValidDate).Built?
    ensures |BuildQuery(f, isValidDate).query.params| ==
      (if f.name != [] then 1 else 0) + (if f.department != [] then 1 else 0) + (if f.date != [] then 1 else 0)
  {
  }

  /** With no filters the query has no parameters: the whole join, newest first. */
  lemma UnfilteredQuery(isValidDate: string -> bool)
    ensures BuildQuery(NoFilters, isValidDate) == Built(Query(BaseQuery + OrderBy, []))
  {
  }

  /** A row of the result: the six selected values, each rendered with
      `str()`; `None` stands for SQL NULL. */
  type Cell = Option<string>
  type ReportRow = seq<Cell>

  /** What the store does with the connection attempt and the query. */
  datatype Store = ConnectFails | Connected(queryOk: bool, rows: seq<ReportRow>)

  /** A fetch either yields rows or raises out of `fetch_data`. */
  datatype FetchOutcome = Rows(rows: seq<ReportRow>) | Raised

  /** `fetch_data` as written: when `connect` fails, `cursor` was never
      assigned, so `if cursor:` in the `finally` raises `UnboundLocalError`
      after the error message is shown, and the `return []` of the `except`
      never happens. */
  function FetchDataAsWritten(f: Filters, isValidDate: string -> bool, store: Store): (r: FetchOutcome)
    ensures r.Raised? <==> store.ConnectFails?
    ensures store.Connected? ==> r == Rows(FetchData(f, isValidDate, store))
  {
    match store
    case ConnectFails => Raised
    case Connected(_, _) => Rows(FetchData(f, isValidDate, store))
  }

  /** `fetch_data` with the `finally` guarded so that a failed connection
      yields no rows, as the `except` clause intends. An invalid date, a
      failed connection and a failed query all yield no rows; otherwise the
      rows the store returns for the built query. */
  function FetchData(f: Filters, isValidDate: string -> bool, store: Store): (r: seq<ReportRow>)
    ensures BuildQuery(f, isValidDate).InvalidDate? ==> r == []
    ensures store.ConnectFails? || (store.Connected? && !store.queryOk) ==> r == []
    ensures r != [] ==> store.Connected? && store.queryOk && BuildQuery(f, isValidDate).Built? && r == store.rows
    ensures store.Connected? && store.queryOk && BuildQuery(f, isValidDate).Built? ==> r == store.rows
  {
    match store
    case ConnectFails => []
    case Connected(queryOk, rows) =>
      match BuildQuery(f, isValidDate)
      case InvalidDate => []
      case Built(_) => if queryOk then rows else []
  }

  /** Opening the viewer with the database down ends in an exception rather
      than an empty table. */
  lemma ConnectFailureRaises(isValidDate: string -> bool)
    ensures FetchDataAsWritten(NoFilters, isValidDate, ConnectFails) == Raised
    ensures FetchData(NoFilters, isValidDate, ConnectFails) == []
  {
  }

  /** The entries as `search_data` and `export_excel` read them: stripped. */
  function EntryFilters(entries: Filters): (r: Filters)
    ensures r.name == [] <==> IsBlank(entries.name)
    ensures r.department == [] <==> IsBlank(entries.department)
    ensures r.date == [] <==> IsBlank(entries.date)
    ensures r == Filters(Strip(entries.name), Strip(entries.department), Strip(entries.date))
  {
    Filters(Strip(entries.name), Strip(entries.department), Strip(entries.date))
  }

  /** `initial_load`: everything, unfiltered, on the corrected fetch (as
      written, a failed connection raises out of `initial_load`). */
  function InitialLoad(isValidDate: string -> bool, store: Store): (r: seq<ReportRow>)
    ensures store.Connected? && store.queryOk ==> r == store.rows
    ensures !(store.Connected? && store.queryOk) ==> r == []
  {
    UnfilteredQuery(isValidDate);
    FetchData(NoFilters, isValidDate, store)
  }

  /** `search_data`: the rows for the stripped entries, on the corrected
      fetch. */
  function Search(entries: Filters, isValidDate: string -> bool, store: Store): seq<ReportRow> {
    FetchData(EntryFilters(entries), isValidDate, store)
  }

  /** Entries holding only whitespace filter nothing: the search shows what
      the initial load shows. */
  lemma BlankSearchIsInitialLoad(entries: Filters, isValidDate: string -> bool, store: Store)
    requires IsBlank(entries.name) && IsBlank(entries.department) && IsBlank(entries.date)
    ensures Search(entries, isValidDate, store) == InitialLoad(isValidDate, store)
  {
  }

  // ---------------------------------------------------------------------
  // Export

  const Headers: seq<string> := ["Student ID", "Name", "Department", "Email", "Date", "Time"]

  const SheetTitle: string := "Attendance Report"

  /** `str(ws.cell(...).value)`: NULL, and a column the row lacks, read "None". */
  function CellText(row: ReportRow, c: nat): string {
    if c < |row| then (match row[c] case None => "None" case Some(t) => t) else "None"
  }

  /** `w` is the column width `export_excel` sets for column `c`: two more
      than the longest text in that column, header included. */
  predicate IsColumnWidth(data: seq<ReportRow>, c: nat, w: int)
    requires c < |Headers|
  {
    && w >= |Headers[c]| + 2
    && (forall i :: 0 <= i < |data| ==> w >= |CellText(data[i], c)| + 2)
    && (w == |Headers[c]| + 2 || exists i :: 0 <= i < |data| && w == |CellText(data[i], c)| + 2)
  }

  /** A column has one width. */
  lemma ColumnWidthUnique(data: seq<ReportRow>, c: nat, w1: int, w2: int)
    requires c < |Headers|
    requires IsColumnWidth(data, c, w1) && IsColumnWidth(data, c, w2)
    ensures w1 == w2
  {
  }

  /** The width loop of `export_excel`, one column at a time. */
  method ColumnWidths(data: seq<ReportRow>) returns (widths: seq<nat>)
    ensures |widths| == |Headers|
    ensures forall c :: 0 <= c < |Headers| ==> IsColumnWidth(data, c, widths[c])
  {
    widths := [];
    var c := 0;
    while c < |Headers|
      invariant 0 <= c <= |Headers| && |widths| == c
      invariant forall k :: 0 <= k < c ==> IsColumnWidth(data, k, widths[k])
    {
      var w := |Headers[c]|;
      var i := 0;
      while i < |data|
        invariant 0 <= i <= |data|
        invariant w >= |Headers[c]|
        invariant forall j :: 0 <= j < i ==> w >= |CellText(data[j], c)|
        invariant w == |Headers[c]| || exists j :: 0 <= j < i && w == |CellText(data[j], c)|
      {
        var n := |CellText(data[i], c)|;
        if n > w {
          w := n;
        }
        i := i + 1;
      }
      widths := widths + [w + 2];
      c := c + 1;
    }
  }

  /** The saved workbook: file name, sheet title, bold header row, the data
      rows in query order, and the column widths. */
  datatype Workbook = Workbook(fileName: string, title: string, header: seq<string>,
                               body: seq<ReportRow>, widths: seq<nat>)

  datatype ExportOutcome = NoData | Cancelled | ExportFailed | Saved(book: Workbook)

  /** The body of `export_excel` once the rows are fetched: with no rows it
      only says so, and no file name is asked for. A cancelled or empty file
      name ends quietly. A save error is reported. Otherwise `<name>.xlsx`
      holds the header and every row, with the computed widths. */
  method ExportRows(data: seq<ReportRow>, fileName: Option<string>, saveOk: bool) returns (r: ExportOutcome)
    ensures r == NoData <==> data == []
    ensures r == Cancelled <==> data != [] && (fileName.None? || fileName.value == [])
    ensures r.ExportFailed? <==> data != [] && fileName.Some? && fileName.value != [] && !saveOk
    ensures r.Saved? <==> data != [] && fileName.Some? && fileName.value != [] && saveOk
    ensures r.Saved? ==>
      && fileName.Some? && fileName.value != []
      && r.book.fileName == fileName.value + ".xlsx"
      && r.book.title == SheetTitle
      && r.book.header == Headers
      && r.book.body == data
      && |r.book.widths| == |Headers|
      && forall c :: 0 <= c < |Headers| ==> IsColumnWidth(data, c, r.book.widths[c])
  {
    if data == [] {
      return NoData;
    }
    if fileName.None? || fileName.value == [] {
      return Cancelled;
    }
    if !saveOk {
      return ExportFailed;
    }
    var widths := ColumnWidths(data);
    r := Saved(Workbook(fileName.value + ".xlsx", SheetTitle, Headers, data, widths));
  }

  /** `export_excel`: the rows exported are the rows a search with the same
      entries shows; both use the corrected fetch. */
  method ExportReport(entries: Filters, isValidDate: string -> bool, store: Store,
                      fileName: Option<string>, saveOk: bool) returns (r: ExportOutcome)
    ensures r == NoData <==> Search(entries, isValidDate, store) == []
    ensures r == Cancelled <==> Search(entries, isValidDate, store) != [] && (fileName.None? || fileName.value == [])
    ensures r.ExportFailed? <==>
      Search(entries, isValidDate, store) != [] && fileName.Some? && fileName.value != [] && !saveOk
    ensures r.Saved? <==>
      Search(entries, isValidDate, store) != [] && fileName.Some? && fileName.value != [] && saveOk
    ensures r.Saved? ==>
      && r.book.fileName == fileName.value + ".xlsx"
      && r.book.title == SheetTitle
      && r.book.header == Headers
      && r.book.body == Search(entries, isValidDate, store)
      && |r.book.widths| == |Headers|
      && forall c :: 0 <= c < |Headers| ==> IsColumnWidth(r.book.body, c, r.book.widths[c])
  {
    var data := Search(entries, isValidDate, store);
    r := ExportRows(data, fileName, saveOk);
  }
}
