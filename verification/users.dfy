/** `getUsers`: the roster the dashboard receives. One view per row of the
    users sheet, carrying the day count and latest day collected for that
    name, the profile photo and the monitor flag, followed by the admin
    account. */
module Users {
  import opened Wrappers
  import opened Text
  import opened Sheets
  import opened DateKeys
  import opened Aggregate

  /** The source's `role` strings "user" and "admin". */
  datatype Role = Intern | Admin

  /** One user object of the response. The admin object has no
      `lastLogDate` and no `photo`; they read as "" here. */
  datatype UserView = UserView(
    name: string,
    internId: string,
    status: string,
    role: Role,
    daysCompleted: nat,
    lastLogDate: string,
    photo: string,
    isMonitor: bool,
    hasCourseAccess: bool)

  predicate IsMonitorHeader(h: string) {
    Includes(Lower(h), "monitor")
  }

  /** The first header mentioning "monitor" in any case, else column D. */
  function MonitorColumn(header: Row): (c: nat)
    ensures (exists i :: 0 <= i < |header| && IsMonitorHeader(header[i])) ==>
      c < |header| && IsMonitorHeader(header[c]) && forall i :: 0 <= i < c ==> !IsMonitorHeader(header[i])
    ensures (forall i :: 0 <= i < |header| ==> !IsMonitorHeader(header[i])) ==> c == 3
  {
    match FirstWhere(header, IsMonitorHeader)
    case Some(i) => i
    case None => 3
  }

  /** A profiles row (name, bio, photo) that names both a person and a
      photo. */
  predicate HasPhoto(row: Row) {
    Cell(row, 0) != "" && Cell(row, 2) != ""
  }

  /** `userPhotos`: the profiles rows read top to bottom, each row with a
      name and a photo setting that name's photo. */
  function Photos(profiles: seq<Row>): (r: map<string, string>)
    ensures forall n :: n in r ==> n != "" && r[n] != ""
    decreases |profiles|
  {
    if profiles == [] then map[]
    else
      var m := Photos(profiles[..|profiles| - 1]);
      var row := profiles[|profiles| - 1];
      if HasPhoto(row) then m[Cell(row, 0) := Cell(row, 2)] else m
  }

  /** Row `i` is the last profiles row giving `n` a photo. */
  predicate LastPhotoRow(profiles: seq<Row>, n: string, i: int) {
    && 0 <= i < |profiles| && HasPhoto(profiles[i]) && Cell(profiles[i], 0) == n
    && forall j :: i < j < |profiles| && HasPhoto(profiles[j]) ==> Cell(profiles[j], 0) != n
  }

  /** A name has a photo exactly when some profiles row gives it one, and
      the photo is the one on the last such row. */
  lemma {:induction false} PhotosLastWins(profiles: seq<Row>, n: string)
    ensures n in Photos(profiles) <==> exists i :: 0 <= i < |profiles| && HasPhoto(profiles[i]) && Cell(profiles[i], 0) == n
    ensures n in Photos(profiles) ==> exists i :: LastPhotoRow(profiles, n, i) && Cell(profiles[i], 2) == Photos(profiles)[n]
    decreases |profiles|
  {
    if profiles != [] {
      var prefix := profiles[..|profiles| - 1];
      var k := |profiles| - 1;
      var row := profiles[k];
      PhotosLastWins(prefix, n);
      assert forall i :: 0 <= i < k ==> prefix[i] == profiles[i];
      if HasPhoto(row) && Cell(row, 0) == n {
        assert LastPhotoRow(profiles, n, k);
      } else if n in Photos(prefix) {
        var i :| LastPhotoRow(prefix, n, i) && Cell(prefix[i], 2) == Photos(prefix)[n];
        assert LastPhotoRow(profiles, n, i);
      }
    }
  }

  /** The view of one users row. A checkbox cell reads as "true" when
      ticked. */
  function View(stats: StatsMap, photos: map<string, string>, monitorCol: nat, row: Row): UserView {
    var name := Cell(row, 0);
    var isMonitor := Lower(Cell(row, monitorCol)) == "true";
    UserView(
      name, Cell(row, 1), Cell(row, 2), Intern,
      if name in stats then |stats[name].days| else 0,
      if name in stats && stats[name].latest != "" then stats[name].latest else "",
      if name in photos then photos[name] else "",
      isMonitor, isMonitor)
  }

  /** The admin account appended to every non-empty roster; its id is a
      deployment secret, passed in. */
  function AdminView(adminId: AdminId): UserView {
    UserView("CIAL-Admin", adminId, "Active", Admin, 0, "", "", true, true)
  }

  /** `getUsers`: nothing for a users sheet without data rows; otherwise one
      view per row, in sheet order, then the admin account. */
  function GetUsers(sheet: UsersSheet, logs: LogSheets, profiles: seq<Row>, parse: DateParser, adminId: AdminId): (r: seq<UserView>)
    ensures sheet.rows == [] ==> r == []
    ensures sheet.rows != [] ==> |r| == |sheet.rows| + 1 && r[|sheet.rows|].role == Admin
    ensures forall i :: 0 <= i < |sheet.rows| ==>
      && r[i].name == Cell(sheet.rows[i], 0) && r[i].role == Intern
      && r[i].internId == Cell(sheet.rows[i], 1) && r[i].status == Cell(sheet.rows[i], 2)
      && r[i].hasCourseAccess == r[i].isMonitor
  {
    if sheet.rows == [] then []
    else
      var stats := Statistics(sheet, logs, parse);
      var photos := Photos(profiles);
      var col := MonitorColumn(sheet.header);
      seq(|sheet.rows|, i requires 0 <= i < |sheet.rows| => View(stats, photos, col, sheet.rows[i])) + [AdminView(adminId)]
  }

  /** The statistics `getUsers` reports from. */
  function Statistics(sheet: UsersSheet, logs: LogSheets, parse: DateParser): StatsMap {
    Collect(Lookup(sheet), Entries(logs), parse)
  }

  /** The view of row `i` reads the statistics under its own name. */
  lemma ViewOfRow(sheet: UsersSheet, logs: LogSheets, profiles: seq<Row>, parse: DateParser, adminId: AdminId, i: nat)
    requires i < |sheet.rows|
    ensures GetUsers(sheet, logs, profiles, parse, adminId)[i]
      == View(Statistics(sheet, logs, parse), Photos(profiles), MonitorColumn(sheet.header), sheet.rows[i])
  {
  }

  /** With the shortcut never disagreeing with the matcher, a user's day
      count is the number of distinct days of the rows credited to that
      name on their own, whatever the order of the rows. */
  lemma DaysCompletedIsReference(sheet: UsersSheet, logs: LogSheets, profiles: seq<Row>, parse: DateParser, adminId: AdminId, i: nat)
    requires i < |sheet.rows| && Stable(Lookup(sheet), Entries(logs), parse)
    ensures GetUsers(sheet, logs, profiles, parse, adminId)[i].daysCompleted
      == |ReferenceDays(Lookup(sheet), Entries(logs), parse, Cell(sheet.rows[i], 0))|
  {
    ViewOfRow(sheet, logs, profiles, parse, adminId, i);
    CollectIsReference(Lookup(sheet), Entries(logs), parse);
  }

  /** Tabs past M10 change no user's view. */
  lemma UsersIgnoreExtraTabs(sheet: UsersSheet, logs: LogSheets, extra: seq<seq<Row>>, profiles: seq<Row>, parse: DateParser, adminId: AdminId)
    requires |logs.monitors| >= MonitorTabCount
    ensures GetUsers(sheet, logs.(monitors := logs.monitors + extra), profiles, parse, adminId)
      == GetUsers(sheet, logs, profiles, parse, adminId)
  {
    EntriesIgnoreExtraTabs(logs, extra);
  }

  /** A user has a latest day exactly when the day count is positive; the
      latest day is one of the counted days, no counted day is later, and
      it is the day key of some log row. */
  lemma LastLogIsLatest(sheet: UsersSheet, logs: LogSheets, profiles: seq<Row>, parse: DateParser, adminId: AdminId, i: nat)
    requires i < |sheet.rows|
    ensures var v := GetUsers(sheet, logs, profiles, parse, adminId)[i];
      var stats := Statistics(sheet, logs, parse);
      && (v.lastLogDate == "" <==> v.daysCompleted == 0)
      && (v.lastLogDate != "" ==>
            && v.name in stats && v.lastLogDate in stats[v.name].days
            && (forall d :: d in stats[v.name].days ==> !Later(d, v.lastLogDate))
            && exists j :: 0 <= j < |Entries(logs)| && DateKey(Entries(logs)[j].date, parse) == Some(v.lastLogDate))
  {
    var users, entries := Lookup(sheet), Entries(logs);
    var stats := Statistics(sheet, logs, parse);
    ViewOfRow(sheet, logs, profiles, parse, adminId, i);
    CollectInvariant(users, entries, parse);
    DaysComeFromRows(users, entries, parse);
    var name := Cell(sheet.rows[i], 0);
    if name in stats {
      var latest := stats[name].latest;
      assert latest in stats[name].days;
      var j :| 0 <= j < |entries| && DateKey(entries[j].date, parse) == Some(latest);
      assert IsKey(latest);
    }
  }

  /** A user's photo is the one on the last profiles row naming that user
      with a photo, or "" when no row does. */
  lemma PhotoIsLastProfile(sheet: UsersSheet, logs: LogSheets, profiles: seq<Row>, parse: DateParser, adminId: AdminId, i: nat)
    requires i < |sheet.rows|
    ensures var v := GetUsers(sheet, logs, profiles, parse, adminId)[i];
      && (v.photo == "" <==> forall j :: 0 <= j < |profiles| && HasPhoto(profiles[j]) ==> Cell(profiles[j], 0) != v.name)
      && (v.photo != "" ==> exists j :: LastPhotoRow(profiles, v.name, j) && Cell(profiles[j], 2) == v.photo)
  {
    ViewOfRow(sheet, logs, profiles, parse, adminId, i);
    PhotosLastWins(profiles, Cell(sheet.rows[i], 0));
  }

  /** A user is a monitor, and has course access, exactly when the monitor
      column of the row reads "true" in any case. */
  lemma MonitorFlag(sheet: UsersSheet, logs: LogSheets, profiles: seq<Row>, parse: DateParser, adminId: AdminId, i: nat)
    requires i < |sheet.rows|
    ensures var v := GetUsers(sheet, logs, profiles, parse, adminId)[i];
      && (v.isMonitor <==> Lower(Cell(sheet.rows[i], MonitorColumn(sheet.header))) == "true")
      && v.hasCourseAccess == v.isMonitor
  {
    ViewOfRow(sheet, logs, profiles, parse, adminId, i);
  }

  /** The admin account closes every non-empty roster. */
  lemma AdminLast(sheet: UsersSheet, logs: LogSheets, profiles: seq<Row>, parse: DateParser, adminId: AdminId)
    requires sheet.rows != []
    ensures GetUsers(sheet, logs, profiles, parse, adminId)[|sheet.rows|]
      == UserView("CIAL-Admin", adminId, "Active", Admin, 0, "", "", true, true)
  {
  }
}
