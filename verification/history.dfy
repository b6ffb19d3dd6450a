/** The server side of a user's history: the credential check
    (`isValidUser`), the row normalisation (`normalizeLog`) and `getHistory`,
    which gathers the log rows of one person from the monitor tabs and the
    "Activity Logs" sheet, keeps the rows whose timestamp has a day key and
    lists them newest first. */
module History {
  import opened Wrappers
  import opened Text
  import opened NameMatch
  import opened DateKeys
  import opened TimeLabels
  import opened Sheets
  import opened Aggregate
  import opened Sorting

  const AdminName := "CIAL-Admin"

  // ---------------------------------------------------------------------
  // Credentials.

  /** Row `i` is the first row whose name cell the matcher equates with
      `name` (the row's name first, as the source calls it). */
  predicate FirstNameRow(rows: seq<Row>, name: string, i: int) {
    && 0 <= i < |rows| && AreNamesEquivalent(Cell(rows[i], 0), name)
    && forall j :: 0 <= j < i ==> !AreNamesEquivalent(Cell(rows[j], 0), name)
  }

  /** The first row whose name the matcher equates with `name`. */
  function FindByName(rows: seq<Row>, name: string): (r: Option<nat>)
    ensures r.Some? ==> FirstNameRow(rows, name, r.value)
    ensures r.None? ==> forall j :: 0 <= j < |rows| ==> !AreNamesEquivalent(Cell(rows[j], 0), name)
  {
    var p := (row: Row) => AreNamesEquivalent(Cell(row, 0), name);
    var r := FirstWhere(rows, p);
    assert r.None? ==> forall j :: 0 <= j < |rows| ==> !p(rows[j]);
    r
  }

  /** All rows of the users sheet as the credential check scans them,
      header included. A missing sheet reads as an empty one. */
  function UsersData(sheet: UsersSheet): seq<Row> {
    [sheet.header] + sheet.rows
  }

  /** `isValidUser`: both fields must be non-empty; the admin pair passes;
      otherwise the first row of the users sheet (header included) whose
      name matches decides, by comparing its trimmed id with the trimmed
      id given. */
  function IsValidUser(sheet: UsersSheet, name: string, internId: string, adminId: AdminId): (ok: bool)
    ensures name == "" || internId == "" ==> !ok
    ensures name == AdminName && internId == adminId ==> ok
  {
    if name == "" || internId == "" then false
    else if name == AdminName && internId == adminId then true
    else
      var data := UsersData(sheet);
      match FindByName(data, name)
      case Some(i) => Trim(Cell(data[i], 1)) == Trim(internId)
      case None => false
  }

  lemma FirstNameRowUnique(rows: seq<Row>, name: string, i: int, k: int)
    requires FirstNameRow(rows, name, i) && FirstNameRow(rows, name, k)
    ensures i == k
  {
  }

  /** Away from the admin pair, a name and an id pass exactly when the
      first users row (header included) whose name matches carries that
      id, up to surrounding white space. */
  lemma ValidUserIff(sheet: UsersSheet, name: string, internId: string, adminId: AdminId)
    requires name != "" && internId != "" && !(name == AdminName && internId == adminId)
    ensures IsValidUser(sheet, name, internId, adminId) <==>
      exists i :: FirstNameRow(UsersData(sheet), name, i) && Trim(Cell(UsersData(sheet)[i], 1)) == Trim(internId)
  {
    var data := UsersData(sheet);
    var r := FindByName(data, name);
    if r.Some? {
      forall i | FirstNameRow(data, name, i)
        ensures i == r.value
      {
        FirstNameRowUnique(data, name, i, r.value);
      }
    }
  }

  /** Only the first matching row counts: a later row carrying the right
      id does not help when an earlier row with the name has another. */
  lemma FirstMatchDecides(sheet: UsersSheet, name: string, internId: string, adminId: AdminId, i: nat, later: nat)
    requires FirstNameRow(UsersData(sheet), name, i)
    requires Trim(Cell(UsersData(sheet)[i], 1)) != Trim(internId)
    requires i < later < |UsersData(sheet)| && AreNamesEquivalent(Cell(UsersData(sheet)[later], 0), name)
    requires name != "" && internId != "" && !(name == AdminName && internId == adminId)
    ensures !IsValidUser(sheet, name, internId, adminId)
  {
    var data := UsersData(sheet);
    ValidUserIff(sheet, name, internId, adminId);
    forall k | FirstNameRow(data, name, k)
      ensures k == i
    {
      FirstNameRowUnique(data, name, i, k);
    }
  }

  // ---------------------------------------------------------------------
  // Log records.

  /** Where a record came from: monitor tab M`number`, or "Activity Logs". */
  datatype Source = MonitorTab(number: nat) | ActivityLogs

  /** One history entry. Fields a source does not fill (`email` for
      "Activity Logs", `proof` and `file` for the monitor tabs) read as "". */
  datatype LogRecord = LogRecord(
    date: string,
    time: string,
    email: string,
    name: string,
    course: string,
    duration: string,
    issues: string,
    learning: string,
    proof: string,
    file: string,
    source: Source)

  /** `a || d` on display strings: only "" is falsy. */
  function OrElse(a: string, d: string): (r: string)
    ensures r == a || (a == "" && r == d)
    ensures d != "" ==> r != ""
  {
    if a == "" then d else a
  }

  /** `normalizeLog`: a monitor-tab row (timestamp, e-mail, name, course,
      duration, issues, learning) as a record, with "Learning" and "No" for
      an empty course and an empty issues cell. */
  function NormalizeLog(row: Row, source: Source): (r: LogRecord)
    ensures r.date == Cell(row, 0) && r.email == Cell(row, 1) && r.name == Cell(row, 2)
    ensures r.course != "" && r.issues != "" && r.source == source
    ensures Cell(row, 3) != "" ==> r.course == Cell(row, 3)
    ensures Cell(row, 3) == "" ==> r.course == "Learning"
    ensures Cell(row, 5) != "" ==> r.issues == Cell(row, 5)
    ensures Cell(row, 5) == "" ==> r.issues == "No"
    ensures r.duration == Cell(row, 4) && r.learning == Cell(row, 6)
    ensures r.time == "" && r.proof == "" && r.file == ""
  {
    LogRecord(Cell(row, 0), "", Cell(row, 1), Cell(row, 2), OrElse(Cell(row, 3), "Learning"),
      OrElse(Cell(row, 4), ""), OrElse(Cell(row, 5), "No"), OrElse(Cell(row, 6), ""), "", "", source)
  }

  /** The e-mail of the first users row whose name matches, lower-cased and
      trimmed; "" without an e-mail column, a matching row or an e-mail. */
  function UserEmail(sheet: UsersSheet, name: string): (e: string)
    ensures e != "" ==> exists i :: FirstNameRow(sheet.rows, name, i) && e == RowEmail(EmailColumn(sheet.header), sheet.rows[i])
    ensures forall i :: FirstNameRow(sheet.rows, name, i) ==> e == RowEmail(EmailColumn(sheet.header), sheet.rows[i])
    ensures (forall j :: 0 <= j < |sheet.rows| ==> !AreNamesEquivalent(Cell(sheet.rows[j], 0), name)) ==> e == ""
    ensures EmailColumn(sheet.header).None? ==> e == ""
  {
    match FindByName(sheet.rows, name)
    case Some(i) =>
      assert forall k :: FirstNameRow(sheet.rows, name, k) ==> k == i by {
        forall k | FirstNameRow(sheet.rows, name, k) ensures k == i {
          FirstNameRowUnique(sheet.rows, name, i, k);
        }
      }
      RowEmail(EmailColumn(sheet.header), sheet.rows[i])
    case None => ""
  }

  /** A monitor-tab row belongs to the person when its name matches, or when
      its e-mail (lower-cased, trimmed) is the person's and holds an "@". */
  predicate MonitorRowMatches(row: Row, name: string, userEmail: string) {
    var rowEmail := if Cell(row, 1) != "" then Trim(Lower(Cell(row, 1))) else "";
    AreNamesEquivalent(Cell(row, 2), name) || (userEmail != "" && rowEmail == userEmail && Includes(rowEmail, "@"))
  }

  /** The record a monitor-tab row contributes when it belongs to the
      person and its timestamp has a day key: the normalised row, dated by
      the day key, with the time label of the timestamp. */
  function MonitorRecord(row: Row, tab: nat, name: string, userEmail: string, parse: DateParser): (o: Option<LogRecord>)
    ensures o.Some? <==> MonitorRowMatches(row, name, userEmail) && DateKey(Cell(row, 0), parse).Some?
    ensures o.Some? ==> IsKey(o.value.date) && o.value.source == MonitorTab(tab)
    ensures o.Some? ==> o.value.date == DateKey(Cell(row, 0), parse).value && o.value.time == TimeLabel(Cell(row, 0), parse)
    ensures o.Some? ==> o.value.(date := Cell(row, 0), time := "") == NormalizeLog(row, MonitorTab(tab))
  {
    var key := DateKey(Cell(row, 0), parse);
    if MonitorRowMatches(row, name, userEmail) && key.Some? then
      Some(NormalizeLog(row, MonitorTab(tab)).(date := key.value, time := TimeLabel(Cell(row, 0), parse)))
    else None
  }

  /** The records of one monitor tab (data rows only), in row order. */
  function MonitorRecords(rows: seq<Row>, tab: nat, name: string, userEmail: string, parse: DateParser): seq<LogRecord> {
    Keep(rows, (row: Row) => MonitorRecord(row, tab, name, userEmail, parse))
  }

  /** The records of the tabs M`first`, M`first + 1`, ... in tab order. */
  function AllMonitorRecords(tabs: seq<seq<Row>>, first: nat, name: string, userEmail: string, parse: DateParser): seq<LogRecord> {
    if tabs == [] then []
    else MonitorRecords(tabs[0], first, name, userEmail, parse) + AllMonitorRecords(tabs[1..], first + 1, name, userEmail, parse)
  }

  /** The record an "Activity Logs" row (name, timestamp, course, learning,
      proof, file, duration) contributes when its name matches and its
      timestamp has a day key: "Learning" for an empty course, issues always
      "No", no e-mail. */
  function ActivityRecord(row: Row, name: string, parse: DateParser): (o: Option<LogRecord>)
    ensures o.Some? <==> AreNamesEquivalent(Cell(row, 0), name) && DateKey(Cell(row, 1), parse).Some?
    ensures o.Some? ==> IsKey(o.value.date) && o.value.source == ActivityLogs && o.value.name == Cell(row, 0)
    ensures o.Some? ==> o.value.date == DateKey(Cell(row, 1), parse).value && o.value.time == TimeLabel(Cell(row, 1), parse)
    ensures o.Some? ==> o.value.email == "" && o.value.issues == "No"
    ensures o.Some? ==> o.value.course == (if Cell(row, 2) == "" then "Learning" else Cell(row, 2))
    ensures o.Some? ==> o.value.learning == Cell(row, 3) && o.value.proof == Cell(row, 4)
                        && o.value.file == Cell(row, 5) && o.value.duration == Cell(row, 6)
  {
    var key := DateKey(Cell(row, 1), parse);
    if AreNamesEquivalent(Cell(row, 0), name) && key.Some? then
      Some(LogRecord(key.value, TimeLabel(Cell(row, 1), parse), "", Cell(row, 0), OrElse(Cell(row, 2), "Learning"),
        OrElse(Cell(row, 6), ""), "No", OrElse(Cell(row, 3), ""), OrElse(Cell(row, 4), ""), OrElse(Cell(row, 5), ""), ActivityLogs))
    else None
  }

  /** The records of "Activity Logs" (data rows only), in row order. */
  function ActivityRecords(rows: seq<Row>, name: string, parse: DateParser): seq<LogRecord> {
    Keep(rows, (row: Row) => ActivityRecord(row, name, parse))
  }

  /** Every record of one monitor tab is tagged with that tab. */
  lemma MonitorRecordsTagged(rows: seq<Row>, tab: nat, name: string, userEmail: string, parse: DateParser)
    ensures forall x :: x in MonitorRecords(rows, tab, name, userEmail, parse) ==> x.source == MonitorTab(tab)
  {
    var f := (row: Row) => MonitorRecord(row, tab, name, userEmail, parse);
    forall x | x in MonitorRecords(rows, tab, name, userEmail, parse)
      ensures x.source == MonitorTab(tab)
    {
      var i :| 0 <= i < |rows| && f(rows[i]) == Some(x);
    }
  }

  /** Tab numbering starts at `first`. */
  lemma {:induction false} MonitorTabsFrom(tabs: seq<seq<Row>>, first: nat, name: string, userEmail: string, parse: DateParser)
    ensures forall x :: x in AllMonitorRecords(tabs, first, name, userEmail, parse) ==> x.source.MonitorTab? && x.source.number >= first
    decreases |tabs|
  {
    if tabs != [] {
      MonitorTabsFrom(tabs[1..], first + 1, name, userEmail, parse);
      MonitorRecordsTagged(tabs[0], first, name, userEmail, parse);
    }
  }

  /** Record `x` of tab M`first + k` is among the records of the tabs
      M`first`, ... exactly when it is among the records of its own tab. */
  lemma {:induction false} AllMonitorRecordsExact(tabs: seq<seq<Row>>, first: nat, name: string, userEmail: string, parse: DateParser, k: nat, x: LogRecord)
    requires x.source == MonitorTab(first + k)
    ensures x in AllMonitorRecords(tabs, first, name, userEmail, parse) <==>
      k < |tabs| && x in MonitorRecords(tabs[k], first + k, name, userEmail, parse)
    decreases |tabs|
  {
    if tabs != [] {
      var here := MonitorRecords(tabs[0], first, name, userEmail, parse);
      var later := AllMonitorRecords(tabs[1..], first + 1, name, userEmail, parse);
      assert AllMonitorRecords(tabs, first, name, userEmail, parse) == here + later;
      assert x in here <==> k == 0 && x in MonitorRecords(tabs[k], first + k, name, userEmail, parse) by {
        if k != 0 {
          MonitorRecordsTagged(tabs[0], first, name, userEmail, parse);
          assert x !in here;
        }
      }
      assert x in later <==> 0 < k < |tabs| && x in MonitorRecords(tabs[k], first + k, name, userEmail, parse) by {
        MonitorTabsFrom(tabs[1..], first + 1, name, userEmail, parse);
        if k > 0 {
          AllMonitorRecordsExact(tabs[1..], first + 1, name, userEmail, parse, k - 1, x);
          if k < |tabs| {
            assert tabs[1..][k - 1] == tabs[k];
          }
        }
      }
    }
  }

  /** A record is among the records of a monitor tab exactly when some row
      of the tab contributes it. */
  lemma MonitorRecordsExact(rows: seq<Row>, tab: nat, name: string, userEmail: string, parse: DateParser, x: LogRecord)
    ensures x in MonitorRecords(rows, tab, name, userEmail, parse) <==>
      exists i :: 0 <= i < |rows| && MonitorRecord(rows[i], tab, name, userEmail, parse) == Some(x)
  {
    var f := (row: Row) => MonitorRecord(row, tab, name, userEmail, parse);
    assert x in MonitorRecords(rows, tab, name, userEmail, parse) <==> exists i :: 0 <= i < |rows| && f(rows[i]) == Some(x);
  }

  // ---------------------------------------------------------------------
  // getHistory.

  /** The request is served: a name is given, and the credential check
      passes or the id given is the admin id, whatever the name. */
  predicate Authorized(sheet: UsersSheet, name: string, internId: string, adminId: AdminId) {
    name != "" && (IsValidUser(sheet, name, internId, adminId) || internId == adminId)
  }

  /** The records before sorting: M1 to M10 in order, then "Activity Logs";
      the legacy sheet is not read. */
  function Gathered(sheet: UsersSheet, logs: LogSheets, name: string, parse: DateParser): seq<LogRecord> {
    AllMonitorRecords(ReadTabs(logs), 1, name, UserEmail(sheet, name), parse) + ActivityRecords(logs.activity, name, parse)
  }

  /** `new Date(x.date)` as a day number. */
  function DayOf(x: LogRecord): Option<int> {
    ParseDay(x.date)
  }

  /** `getHistory`: nothing unless authorized; otherwise the gathered
      records, newest first. */
  function GetHistory(sheet: UsersSheet, logs: LogSheets, name: string, internId: string, parse: DateParser, adminId: AdminId): (r: seq<LogRecord>)
    ensures !Authorized(sheet, name, internId, adminId) ==> r == []
    ensures Authorized(sheet, name, internId, adminId) ==> multiset(r) == multiset(Gathered(sheet, logs, name, parse))
    ensures NewestFirst(r, DayOf)
  {
    if !Authorized(sheet, name, internId, adminId) then []
    else
      var g := Gathered(sheet, logs, name, parse);
      SortPermutes(g, DayOf);
      SortSorts(g, DayOf);
      Sort(g, DayOf)
  }

  /** In the history, no entry's day is strictly later than the day of an
      entry listed before it. */
  lemma HistoryNewestFirst(sheet: UsersSheet, logs: LogSheets, name: string, internId: string, parse: DateParser, adminId: AdminId)
    ensures var r := GetHistory(sheet, logs, name, internId, parse, adminId);
      forall i, j :: 0 <= i < j < |r| ==> !Later(r[j].date, r[i].date)
  {
    var r := GetHistory(sheet, logs, name, internId, parse, adminId);
    forall i, j | 0 <= i < j < |r|
      ensures !Later(r[j].date, r[i].date)
    {
      assert !Newer(r[j], r[i], DayOf);
    }
  }

  /** Records of the same day, and records whose date `new Date` cannot
      read, keep the order in which they were gathered. */
  lemma HistoryStable(sheet: UsersSheet, logs: LogSheets, name: string, internId: string, parse: DateParser, adminId: AdminId, d: Option<int>)
    requires Authorized(sheet, name, internId, adminId)
    ensures Only(GetHistory(sheet, logs, name, internId, parse, adminId), DayOf, d) == Only(Gathered(sheet, logs, name, parse), DayOf, d)
  {
    SortStable(Gathered(sheet, logs, name, parse), DayOf, d);
  }

  /** Records gathered newest first already come back in the same order. */
  lemma HistoryKeepsSortedOrder(sheet: UsersSheet, logs: LogSheets, name: string, internId: string, parse: DateParser, adminId: AdminId)
    requires Authorized(sheet, name, internId, adminId)
    requires NewestFirst(Gathered(sheet, logs, name, parse), DayOf)
    ensures GetHistory(sheet, logs, name, internId, parse, adminId) == Gathered(sheet, logs, name, parse)
  {
    SortKeepsSorted(Gathered(sheet, logs, name, parse), DayOf);
  }

  /** The legacy sheet never reaches the history. */
  lemma HistoryIgnoresLegacy(sheet: UsersSheet, logs: LogSheets, legacy: seq<Row>, name: string, internId: string, parse: DateParser, adminId: AdminId)
    ensures GetHistory(sheet, logs.(legacy := legacy), name, internId, parse, adminId)
      == GetHistory(sheet, logs, name, internId, parse, adminId)
  {
    assert Gathered(sheet, logs.(legacy := legacy), name, parse) == Gathered(sheet, logs, name, parse);
  }

  /** The history holds exactly the gathered records of an authorized
      request. */
  lemma HistoryMembers(sheet: UsersSheet, logs: LogSheets, name: string, internId: string, parse: DateParser, adminId: AdminId, x: LogRecord)
    ensures x in GetHistory(sheet, logs, name, internId, parse, adminId) <==>
      && Authorized(sheet, name, internId, adminId)
      && (x in AllMonitorRecords(ReadTabs(logs), 1, name, UserEmail(sheet, name), parse) || x in ActivityRecords(logs.activity, name, parse))
  {
    if Authorized(sheet, name, internId, adminId) {
      var r := GetHistory(sheet, logs, name, internId, parse, adminId);
      var g := Gathered(sheet, logs, name, parse);
      assert x in r <==> x in multiset(g);
    }
  }

  /** Every "Activity Logs" record says so. */
  lemma ActivitySource(rows: seq<Row>, name: string, parse: DateParser)
    ensures forall y :: y in ActivityRecords(rows, name, parse) ==> y.source == ActivityLogs
  {
    var f := (row: Row) => ActivityRecord(row, name, parse);
    forall y | y in ActivityRecords(rows, name, parse)
      ensures y.source == ActivityLogs
    {
      var i :| 0 <= i < |rows| && f(rows[i]) == Some(y);
    }
  }

  /** An "Activity Logs" record is in the history exactly when the request
      is authorized and some row of the sheet contributes it. */
  lemma ActivityInHistory(sheet: UsersSheet, logs: LogSheets, name: string, internId: string, parse: DateParser, adminId: AdminId, x: LogRecord)
    requires x.source == ActivityLogs
    ensures x in GetHistory(sheet, logs, name, internId, parse, adminId) <==>
      Authorized(sheet, name, internId, adminId) && exists i :: 0 <= i < |logs.activity| && ActivityRecord(logs.activity[i], name, parse) == Some(x)
  {
    var userEmail := UserEmail(sheet, name);
    var f := (row: Row) => ActivityRecord(row, name, parse);
    HistoryMembers(sheet, logs, name, internId, parse, adminId, x);
    MonitorTabsFrom(ReadTabs(logs), 1, name, userEmail, parse);
    assert x in ActivityRecords(logs.activity, name, parse) <==> exists i :: 0 <= i < |logs.activity| && f(logs.activity[i]) == Some(x);
  }

  /** A record of tab M`k + 1` is in the history exactly when the request
      is authorized, the tab is one of M1 to M10, and some row of that tab,
      matched by name or by the person's e-mail, contributes it. */
  lemma MonitorInHistory(sheet: UsersSheet, logs: LogSheets, name: string, internId: string, parse: DateParser, adminId: AdminId, k: nat, x: LogRecord)
    requires x.source == MonitorTab(k + 1)
    ensures x in GetHistory(sheet, logs, name, internId, parse, adminId) <==>
      && Authorized(sheet, name, internId, adminId) && k < MonitorTabCount && k < |logs.monitors|
      && exists i :: 0 <= i < |logs.monitors[k]| && MonitorRecord(logs.monitors[k][i], k + 1, name, UserEmail(sheet, name), parse) == Some(x)
  {
    var email := UserEmail(sheet, name);
    var tabs := ReadTabs(logs);
    HistoryMembers(sheet, logs, name, internId, parse, adminId, x);
    assert x !in ActivityRecords(logs.activity, name, parse) by {
      ActivitySource(logs.activity, name, parse);
    }
    assert x in AllMonitorRecords(tabs, 1, name, email, parse) <==>
      k < |tabs| && exists i :: 0 <= i < |tabs[k]| && MonitorRecord(tabs[k][i], k + 1, name, email, parse) == Some(x)
    by {
      AllMonitorRecordsExact(tabs, 1, name, email, parse, k, x);
      if k < |tabs| {
        MonitorRecordsExact(tabs[k], k + 1, name, email, parse, x);
      }
    }
    assert k < |tabs| <==> k < MonitorTabCount && k < |logs.monitors|;
    if k < |tabs| {
      assert tabs[k] == logs.monitors[k];
    }
  }

  /** Tabs past M10 never reach the history. */
  lemma HistoryIgnoresExtraTabs(sheet: UsersSheet, logs: LogSheets, extra: seq<seq<Row>>, name: string, internId: string, parse: DateParser, adminId: AdminId)
    requires |logs.monitors| >= MonitorTabCount
    ensures GetHistory(sheet, logs.(monitors := logs.monitors + extra), name, internId, parse, adminId)
      == GetHistory(sheet, logs, name, internId, parse, adminId)
  {
    ReadTabsIgnoresExtra(logs, extra);
  }

  /** A request carrying a name but no id is served nothing: the front end
      asks for the history by name alone, so its history is always empty. */
  lemma NameOnlyRequestGetsNothing(sheet: UsersSheet, logs: LogSheets, name: string, parse: DateParser, adminId: AdminId)
    ensures GetHistory(sheet, logs, name, "", parse, adminId) == []
  {
  }
}
