/** The roster statistics of `getUsers`: every row of every log sheet is
    credited to a name (a roster member's, or the raw name written in the
    row), and each name collects the set of distinct days it logged and the
    latest of them. */
module Aggregate {
  import opened Wrappers
  import opened Text
  import opened NameMatch
  import opened DateKeys
  import opened Sheets

  /** One entry of `userLookup`: the roster name and the recorded e-mail. */
  datatype RosterUser = RosterUser(name: string, email: string)

  /** `userLookup`, one entry per data row of the users sheet. */
  function Lookup(sheet: UsersSheet): (users: seq<RosterUser>)
    ensures |users| == |sheet.rows|
    ensures forall i :: 0 <= i < |users| ==>
      users[i] == RosterUser(Cell(sheet.rows[i], 0), RowEmail(EmailColumn(sheet.header), sheet.rows[i]))
  {
    var col := EmailColumn(sheet.header);
    seq(|sheet.rows|, i requires 0 <= i < |sheet.rows| => RosterUser(Cell(sheet.rows[i], 0), RowEmail(col, sheet.rows[i])))
  }

  /** One log row, as `processLogEntry` receives it. Rows of sheets that
      record no e-mail carry "". */
  datatype Entry = Entry(name: string, email: string, date: string)

  /** The log sheets, data rows only: "Student Activity" (name, timestamp),
      M1 to M10 (timestamp, e-mail, name) and "Activity Logs" (name,
      timestamp, ...). A missing sheet has no rows. */
  datatype LogSheets = LogSheets(legacy: seq<Row>, monitors: seq<seq<Row>>, activity: seq<Row>)

  /** The entry of a row holding the name in column A and the timestamp in
      column B, when both are present. */
  function NameDateEntry(row: Row): Option<Entry> {
    if Cell(row, 0) != "" && Cell(row, 1) != "" then Some(Entry(Cell(row, 0), "", Cell(row, 1))) else None
  }

  /** The entry of a monitor-tab row (timestamp, e-mail, name), when it has
      a timestamp. */
  function MonitorEntry(row: Row): Option<Entry> {
    if Cell(row, 0) != "" then Some(Entry(Cell(row, 2), Cell(row, 1), Cell(row, 0))) else None
  }

  /** Rows of a sheet holding the name in column A and the timestamp in
      column B; rows missing either are skipped. */
  function NameDateEntries(rows: seq<Row>): (r: seq<Entry>)
    ensures |r| <= |rows|
    ensures forall i :: 0 <= i < |r| ==> r[i].name != "" && r[i].date != "" && r[i].email == ""
    ensures forall i :: 0 <= i < |rows| && Cell(rows[i], 0) != "" && Cell(rows[i], 1) != "" ==>
      Entry(Cell(rows[i], 0), "", Cell(rows[i], 1)) in r
  {
    if rows == [] then []
    else
      var rest := NameDateEntries(rows[1..]);
      var row := rows[0];
      var r := if Cell(row, 0) != "" && Cell(row, 1) != "" then [Entry(Cell(row, 0), "", Cell(row, 1))] + rest else rest;
      assert forall i :: 1 <= i < |rows| ==> rows[i] == rows[1..][i - 1];
      r
  }

  /** Rows of a monitor tab; rows without a timestamp are skipped. */
  function MonitorEntries(rows: seq<Row>): (r: seq<Entry>)
    ensures |r| <= |rows|
    ensures forall i :: 0 <= i < |r| ==> r[i].date != ""
    ensures forall i :: 0 <= i < |rows| && Cell(rows[i], 0) != "" ==>
      Entry(Cell(rows[i], 2), Cell(rows[i], 1), Cell(rows[i], 0)) in r
  {
    if rows == [] then []
    else
      var rest := MonitorEntries(rows[1..]);
      var row := rows[0];
      var r := if Cell(row, 0) != "" then [Entry(Cell(row, 2), Cell(row, 1), Cell(row, 0))] + rest else rest;
      assert forall i :: 1 <= i < |rows| ==> rows[i] == rows[1..][i - 1];
      r
  }

  /** The entries are the qualifying rows' entries and nothing else, one
      per row, in row order. */
  lemma {:induction false} NameDateEntriesKeep(rows: seq<Row>)
    ensures NameDateEntries(rows) == Keep(rows, NameDateEntry)
  {
    if rows != [] {
      NameDateEntriesKeep(rows[1..]);
      KeepStep(rows, NameDateEntry);
    }
  }

  /** A monitor tab's entries are its timestamped rows' entries and nothing
      else, one per row, in row order. */
  lemma {:induction false} MonitorEntriesKeep(rows: seq<Row>)
    ensures MonitorEntries(rows) == Keep(rows, MonitorEntry)
  {
    if rows != [] {
      MonitorEntriesKeep(rows[1..]);
      KeepStep(rows, MonitorEntry);
    }
  }

  function AllMonitorEntries(tabs: seq<seq<Row>>): (r: seq<Entry>)
    ensures forall i :: 0 <= i < |r| ==> r[i].date != ""
  {
    if tabs == [] then [] else MonitorEntries(tabs[0]) + AllMonitorEntries(tabs[1..])
  }

  /** The scripts open the tabs M1 to M10 by name and no others. */
  const MonitorTabCount := 10

  /** The monitor tabs that are read: the first ten given. */
  function ReadTabs(logs: LogSheets): (tabs: seq<seq<Row>>)
    ensures |tabs| == if |logs.monitors| < MonitorTabCount then |logs.monitors| else MonitorTabCount
    ensures forall k :: 0 <= k < |tabs| ==> tabs[k] == logs.monitors[k]
  {
    if |logs.monitors| <= MonitorTabCount then logs.monitors else logs.monitors[..MonitorTabCount]
  }

  /** Tabs past M10 are never read. */
  lemma ReadTabsIgnoresExtra(logs: LogSheets, extra: seq<seq<Row>>)
    requires |logs.monitors| >= MonitorTabCount
    ensures ReadTabs(logs.(monitors := logs.monitors + extra)) == ReadTabs(logs)
  {
    assert (logs.monitors + extra)[..MonitorTabCount] == logs.monitors[..MonitorTabCount];
  }

  /** Every entry in the order `getUsers` processes them: the legacy sheet,
      then M1 to M10, then "Activity Logs". */
  function Entries(logs: LogSheets): (r: seq<Entry>)
    ensures forall i :: 0 <= i < |r| ==> r[i].date != ""
  {
    NameDateEntries(logs.legacy) + AllMonitorEntries(ReadTabs(logs)) + NameDateEntries(logs.activity)
  }

  /** A tab beyond M10 adds no entry. */
  lemma EntriesIgnoreExtraTabs(logs: LogSheets, extra: seq<seq<Row>>)
    requires |logs.monitors| >= MonitorTabCount
    ensures Entries(logs.(monitors := logs.monitors + extra)) == Entries(logs)
  {
    ReadTabsIgnoresExtra(logs, extra);
  }

  /** The days a name has logged, and the latest of them. */
  datatype Stats = Stats(days: set<string>, latest: string)

  type StatsMap = map<string, Stats>

  /** `addToStats`: add the day, and move `latest` only to a strictly later
      valid day. */
  function AddToStats(m: StatsMap, name: string, key: string): (r: StatsMap)
    ensures r.Keys == m.Keys + {name}
    ensures forall n :: n in m && n != name ==> r[n] == m[n]
  {
    if name !in m then m[name := Stats({key}, key)]
    else
      var s := m[name];
      m[name := Stats(s.days + {key}, if Later(key, s.latest) then key else s.latest)]
  }

  /** The roster member whose recorded e-mail is the row's e-mail, for an
      e-mail holding an "@". */
  function EmailOwner(users: seq<RosterUser>, email: string): (r: Option<string>)
    ensures r.Some? ==> Includes(email, "@") && exists i :: 0 <= i < |users| && users[i].name == r.value && users[i].email == Trim(Lower(email))
    ensures r.None? <==> !Includes(email, "@") || forall i :: 0 <= i < |users| ==> users[i].email != Trim(Lower(email))
    ensures r.Some? ==> exists i :: 0 <= i < |users| && users[i].name == r.value && users[i].email == Trim(Lower(email))
                          && forall j :: 0 <= j < i ==> users[j].email != Trim(Lower(email))
  {
    if !Includes(email, "@") then None
    else
      var clean := Trim(Lower(email));
      match FirstWhere(users, (u: RosterUser) => u.email == clean)
      case Some(i) => Some(users[i].name)
      case None => None
  }

  /** The first roster member whose name the matcher equates with the raw
      name (roster name first, as the source calls it). */
  function FuzzyOwner(users: seq<RosterUser>, rawName: string): (r: Option<string>)
    ensures r.Some? ==> exists i :: 0 <= i < |users| && users[i].name == r.value && AreNamesEquivalent(users[i].name, rawName)
    ensures r.None? <==> forall i :: 0 <= i < |users| ==> !AreNamesEquivalent(users[i].name, rawName)
    ensures r.Some? ==> exists i :: 0 <= i < |users| && users[i].name == r.value && AreNamesEquivalent(users[i].name, rawName)
                          && forall j :: 0 <= j < i ==> !AreNamesEquivalent(users[j].name, rawName)
  {
    match FirstWhere(users, (u: RosterUser) => AreNamesEquivalent(u.name, rawName))
    case Some(i) => Some(users[i].name)
    case None => None
  }

  /** Who a row is credited to, given the names already collected: the
      e-mail owner first; then, for a non-empty name, the raw name itself
      when it is already collected, else the first fuzzy match, else the
      raw name. `None` drops the row. */
  function Attribute(users: seq<RosterUser>, m: StatsMap, e: Entry): Option<string> {
    match EmailOwner(users, e.email)
    case Some(n) => Some(n)
    case None =>
      if e.name == "" then None
      else if e.name in m then Some(e.name)
      else match FuzzyOwner(users, e.name)
        case Some(n) => Some(n)
        case None => Some(e.name)
  }

  /** `processLogEntry`: a row without a timestamp is skipped; otherwise it
      is credited with its day key to whoever it is attributed to. */
  function Process(users: seq<RosterUser>, m: StatsMap, e: Entry, parse: DateParser): StatsMap {
    if e.date == "" then m else Credit(m, DateKey(e.date, parse), Attribute(users, m, e))
  }

  /** The rest of `processLogEntry`: a row without a day key, or attributed
      to no one, changes nothing. */
  function Credit(m: StatsMap, key: Option<string>, who: Option<string>): StatsMap {
    if key.Some? && who.Some? then AddToStats(m, who.value, key.value) else m
  }

  /** The statistics after processing `entries` in order. */
  function Collect(users: seq<RosterUser>, entries: seq<Entry>, parse: DateParser): StatsMap
    decreases |entries|
  {
    if entries == [] then map[]
    else Process(users, Collect(users, entries[..|entries| - 1], parse), entries[|entries| - 1], parse)
  }

  // ---------------------------------------------------------------------
  // Invariants of the collected statistics.

  /** Every name's latest day is one of its days. */
  predicate WellFormed(m: StatsMap) {
    forall n :: n in m ==> m[n].latest in m[n].days
  }

  /** No day of a name is strictly later than its latest day. */
  predicate LatestIsMaximal(m: StatsMap) {
    forall n, d :: n in m && d in m[n].days ==> !Later(d, m[n].latest)
  }

  lemma LaterTransitive(a: string, b: string, c: string)
    requires Later(a, b) && Later(b, c)
    ensures Later(a, c)
  {
  }

  /** Adding a day keeps the latest day one of the days and keeps it
      maximal. */
  lemma AddToStatsInvariant(m: StatsMap, name: string, key: string)
    requires WellFormed(m) && LatestIsMaximal(m)
    ensures WellFormed(AddToStats(m, name, key)) && LatestIsMaximal(AddToStats(m, name, key))
  {
    var r := AddToStats(m, name, key);
    forall n, d | n in r && d in r[n].days
      ensures !Later(d, r[n].latest)
    {
      if n == name && name in m && Later(key, m[name].latest) && d in m[name].days && Later(d, key) {
        LaterTransitive(d, key, m[name].latest);
      }
    }
  }

  /** Adding a day keeps every name and every day, and the latest day of a
      name stays put or moves to a strictly later day. */
  lemma AddToStatsGrows(m: StatsMap, name: string, key: string)
    ensures var r := AddToStats(m, name, key);
      && name in r && key in r[name].days
      && (forall n :: n in m ==> n in r && m[n].days <= r[n].days)
      && (forall n :: n in m ==> r[n].latest == m[n].latest || Later(r[n].latest, m[n].latest))
      && (forall n :: n in r ==> r[n].days <= (if n in m then m[n].days else {}) + (if n == name then {key} else {}))
  {
  }

  /** The part of `AddToStatsGrows` about names and days only. */
  lemma AddToStatsAdds(m: StatsMap, name: string, key: string)
    ensures var r := AddToStats(m, name, key);
      && name in r && key in r[name].days
      && (forall n :: n in m ==> n in r && m[n].days <= r[n].days)
      && (forall n :: n in r ==> r[n].days <= (if n in m then m[n].days else {}) + (if n == name then {key} else {}))
  {
  }

  lemma {:induction false} CollectInvariant(users: seq<RosterUser>, entries: seq<Entry>, parse: DateParser)
    ensures WellFormed(Collect(users, entries, parse)) && LatestIsMaximal(Collect(users, entries, parse))
    decreases |entries|
  {
    if entries != [] {
      var prefix := entries[..|entries| - 1];
      var e := entries[|entries| - 1];
      var m := Collect(users, prefix, parse);
      CollectInvariant(users, prefix, parse);
      if e.date != "" && DateKey(e.date, parse).Some? && Attribute(users, m, e).Some? {
        AddToStatsInvariant(m, Attribute(users, m, e).value, DateKey(e.date, parse).value);
      }
    }
  }

  /** Processing a row never loses a name or a day, and never moves a
      latest day earlier. */
  lemma ProcessGrows(users: seq<RosterUser>, m: StatsMap, e: Entry, parse: DateParser)
    ensures var r := Process(users, m, e, parse);
      && (forall n :: n in m ==> n in r && m[n].days <= r[n].days)
      && (forall n :: n in m ==> r[n].latest == m[n].latest || Later(r[n].latest, m[n].latest))
  {
    if e.date != "" && DateKey(e.date, parse).Some? && Attribute(users, m, e).Some? {
      AddToStatsGrows(m, Attribute(users, m, e).value, DateKey(e.date, parse).value);
    }
  }

  /** The attribution of a row judged on its own, as if nothing had been
      collected yet: the e-mail owner, else the first fuzzy match, else the
      raw name; nobody for a row with neither owner nor name. */
  function FreshOwner(users: seq<RosterUser>, e: Entry): Option<string> {
    match EmailOwner(users, e.email)
    case Some(n) => Some(n)
    case None => if e.name == "" then None else Some(FuzzyOwner(users, e.name).GetOr(e.name))
  }

  /** The attribution differs from the fresh one only through the
      exact-name shortcut: it agrees whenever the row has an e-mail owner,
      or its raw name is not yet collected, or the fresh attribution is the
      raw name itself. */
  lemma AttributeIsFresh(users: seq<RosterUser>, m: StatsMap, e: Entry)
    ensures EmailOwner(users, e.email).Some? || e.name !in m || FreshOwner(users, e) == Some(e.name) ==>
      Attribute(users, m, e) == FreshOwner(users, e)
    ensures Attribute(users, map[], e) == FreshOwner(users, e)
  {
  }

  /** The shortcut: a row without an e-mail owner whose raw name is already
      collected is credited to that raw name. */
  lemma AttributeShortcut(users: seq<RosterUser>, m: StatsMap, e: Entry)
    requires EmailOwner(users, e.email).None? && e.name != "" && e.name in m
    ensures Attribute(users, m, e) == Some(e.name)
  {
  }

  /** A row is attributed to someone exactly when it is freshly attributed. */
  lemma AttributeDefinedAlike(users: seq<RosterUser>, m: StatsMap, e: Entry)
    ensures Attribute(users, m, e).None? <==> FreshOwner(users, e).None?
  {
  }

  /** Whether a row is credited at all does not depend on the names already
      collected: only a row with no e-mail owner and no name is dropped. */
  lemma AttributeDropsAlike(users: seq<RosterUser>, m: StatsMap, m': StatsMap, e: Entry)
    ensures Attribute(users, m, e).None? <==> Attribute(users, m', e).None?
    ensures Attribute(users, m, e).None? <==> EmailOwner(users, e.email).None? && e.name == ""
  {
  }

  /** A row is credited when it has a day key and someone to credit. */
  predicate Resolvable(users: seq<RosterUser>, e: Entry, parse: DateParser) {
    DateKey(e.date, parse).Some? && FreshOwner(users, e).Some?
  }

  /** A row that is not resolvable changes nothing. */
  lemma UnresolvableIsNoOp(users: seq<RosterUser>, m: StatsMap, e: Entry, parse: DateParser)
    requires !Resolvable(users, e, parse)
    ensures Process(users, m, e, parse) == m
  {
    if e.date != "" {
      AttributeDefinedAlike(users, m, e);
      assert Process(users, m, e, parse) == Credit(m, DateKey(e.date, parse), Attribute(users, m, e));
    }
  }

  function Resolvables(users: seq<RosterUser>, entries: seq<Entry>, parse: DateParser): (r: seq<Entry>)
    ensures forall i :: 0 <= i < |r| ==> Resolvable(users, r[i], parse)
    decreases |entries|
  {
    if entries == [] then []
    else
      var rest := Resolvables(users, entries[..|entries| - 1], parse);
      var e := entries[|entries| - 1];
      if Resolvable(users, e, parse) then rest + [e] else rest
  }

  /** Dropping the rows that are not resolvable leaves the statistics as
      they are. */
  lemma {:induction false} CollectIgnoresUnresolvable(users: seq<RosterUser>, entries: seq<Entry>, parse: DateParser)
    ensures Collect(users, Resolvables(users, entries, parse), parse) == Collect(users, entries, parse)
    decreases |entries|
  {
    if entries != [] {
      var prefix := entries[..|entries| - 1];
      var e := entries[|entries| - 1];
      CollectIgnoresUnresolvable(users, prefix, parse);
      var rs := Resolvables(users, prefix, parse);
      var m := Collect(users, prefix, parse);
      assert Collect(users, entries, parse) == Process(users, m, e, parse);
      if Resolvable(users, e, parse) {
        assert Resolvables(users, entries, parse) == rs + [e];
        assert (rs + [e])[..|rs + [e]| - 1] == rs;
        assert Collect(users, rs + [e], parse) == Process(users, Collect(users, rs, parse), e, parse);
      } else {
        assert Resolvables(users, entries, parse) == rs;
        UnresolvableIsNoOp(users, m, e, parse);
      }
    }
  }

  /** Every day of `r` was a day of `m` or is `key`. */
  predicate DaysFrom(m: StatsMap, r: StatsMap, key: Option<string>) {
    forall n, d :: n in r && d in r[n].days ==> (n in m && d in m[n].days) || key == Some(d)
  }

  /** A day present after a row is processed was present before, or is
      that row's key. */
  lemma ProcessDays(users: seq<RosterUser>, m: StatsMap, e: Entry, parse: DateParser)
    ensures DaysFrom(m, Process(users, m, e, parse), DateKey(e.date, parse))
  {
    if e.date != "" {
      CreditDays(m, DateKey(e.date, parse), Attribute(users, m, e));
    }
  }

  lemma CreditDays(m: StatsMap, key: Option<string>, who: Option<string>)
    ensures DaysFrom(m, Credit(m, key, who), key)
  {
    if key.Some? && who.Some? {
      AddToStatsAdds(m, who.value, key.value);
    }
  }

  /** Every collected day is the key of some row. */
  lemma {:induction false} DaysComeFromRows(users: seq<RosterUser>, entries: seq<Entry>, parse: DateParser)
    ensures forall n, d :: n in Collect(users, entries, parse) && d in Collect(users, entries, parse)[n].days ==>
      exists i :: 0 <= i < |entries| && DateKey(entries[i].date, parse) == Some(d)
    decreases |entries|
  {
    if entries != [] {
      var prefix := entries[..|entries| - 1];
      var e := entries[|entries| - 1];
      var m := Collect(users, prefix, parse);
      DaysComeFromRows(users, prefix, parse);
      ProcessDays(users, m, e, parse);
      var r := Collect(users, entries, parse);
      assert r == Process(users, m, e, parse);
      forall n, d | n in r && d in r[n].days
        ensures exists i :: 0 <= i < |entries| && DateKey(entries[i].date, parse) == Some(d)
      {
        if n in m && d in m[n].days {
          var i :| 0 <= i < |prefix| && DateKey(prefix[i].date, parse) == Some(d);
          assert entries[i] == prefix[i];
        } else {
          assert DateKey(entries[|entries| - 1].date, parse) == Some(d);
        }
      }
    } else {
      assert Collect(users, entries, parse) == map[];
    }
  }

  /** A row whose e-mail belongs to a roster member is credited to that
      member, whatever name the row carries and whatever was collected. */
  lemma EmailTakesPrecedence(users: seq<RosterUser>, m: StatsMap, e: Entry, parse: DateParser)
    requires EmailOwner(users, e.email).Some? && DateKey(e.date, parse).Some?
    ensures var owner := EmailOwner(users, e.email).value;
      owner in Process(users, m, e, parse) && DateKey(e.date, parse).value in Process(users, m, e, parse)[owner].days
  {
    assert e.date != "";
    assert Attribute(users, m, e) == EmailOwner(users, e.email);
    AddToStatsAdds(m, EmailOwner(users, e.email).value, DateKey(e.date, parse).value);
  }

  /** A name already collected is credited as written, without consulting
      the matcher (the exact-name shortcut). */
  lemma CollectedNameShortcut(users: seq<RosterUser>, m: StatsMap, e: Entry)
    requires EmailOwner(users, e.email).None? && e.name != "" && e.name in m
    ensures Attribute(users, m, e) == Some(e.name)
  {
  }

  /** A row credited under a name never collected before goes to the first
      fuzzy match in the roster, or else under its raw name. */
  lemma NewNameAttribution(users: seq<RosterUser>, m: StatsMap, e: Entry)
    requires EmailOwner(users, e.email).None? && e.name != "" && e.name !in m
    ensures FuzzyOwner(users, e.name).Some? ==> Attribute(users, m, e) == FuzzyOwner(users, e.name)
    ensures FuzzyOwner(users, e.name).None? ==>
      Attribute(users, m, e) == Some(e.name) && forall i :: 0 <= i < |users| ==> !AreNamesEquivalent(users[i].name, e.name)
  {
    if FuzzyOwner(users, e.name).None? {
      var p := (u: RosterUser) => AreNamesEquivalent(u.name, e.name);
      assert FirstWhere(users, p).None?;
      forall i | 0 <= i < |users|
        ensures !AreNamesEquivalent(users[i].name, e.name)
      {
        assert !p(users[i]);
      }
    }
  }

  // ---------------------------------------------------------------------
  // The statistics against an order-free reference.

  /** What a row contributes, judged on its own: `credit` is the fresh owner
      with the day key (nothing for a row that is not resolvable), and
      `written` is the raw name the exact-name shortcut would look up (only
      for a row with a name and no e-mail owner). */
  datatype Contribution = Contribution(credit: Option<Credited>, written: Option<string>)

  /** A credit: the owner and the day key. */
  datatype Credited = Credited(owner: string, day: string)

  function Contribute(users: seq<RosterUser>, e: Entry, parse: DateParser): (c: Contribution)
    ensures c.credit.Some? <==> Resolvable(users, e, parse)
    ensures c.credit.Some? ==> FreshOwner(users, e) == Some(c.credit.value.owner) && DateKey(e.date, parse) == Some(c.credit.value.day)
    ensures c.written.Some? <==> EmailOwner(users, e.email).None? && e.name != ""
    ensures c.written.Some? ==> c.written.value == e.name
  {
    var credit := match DateKey(e.date, parse)
      case None => None
      case Some(k) => (match FreshOwner(users, e) case None => None case Some(n) => Some(Credited(n, k)));
    Contribution(credit, if EmailOwner(users, e.email).None? && e.name != "" then Some(e.name) else None)
  }

  function Contributions(users: seq<RosterUser>, entries: seq<Entry>, parse: DateParser): (cs: seq<Contribution>)
    ensures |cs| == |entries|
    ensures forall i :: 0 <= i < |entries| ==> cs[i] == Contribute(users, entries[i], parse)
  {
    seq(|entries|, i requires 0 <= i < |entries| => Contribute(users, entries[i], parse))
  }

  /** `processLogEntry` in terms of contributions: the shortcut wins when
      its raw name is already collected. */
  function Step(m: StatsMap, c: Contribution): StatsMap {
    match c.credit
    case None => m
    case Some(t) =>
      AddToStats(m, if c.written.Some? && c.written.value in m then c.written.value else t.owner, t.day)
  }

  function Fold(cs: seq<Contribution>): StatsMap
    decreases |cs|
  {
    if cs == [] then map[] else Step(Fold(cs[..|cs| - 1]), cs[|cs| - 1])
  }

  /** Processing a row is the step on its contribution. */
  lemma ProcessIsStep(users: seq<RosterUser>, m: StatsMap, e: Entry, parse: DateParser)
    ensures Process(users, m, e, parse) == Step(m, Contribute(users, e, parse))
  {
    var c := Contribute(users, e, parse);
    if c.credit.None? {
      UnresolvableIsNoOp(users, m, e, parse);
    } else {
      var t := c.credit.value;
      var who := if c.written.Some? && c.written.value in m then c.written.value else t.owner;
      if c.written.Some? && c.written.value in m {
        AttributeShortcut(users, m, e);
      } else {
        AttributeIsFresh(users, m, e);
      }
      ProcessCredits(users, m, e, parse, who, t.day);
    }
  }

  lemma ProcessCredits(users: seq<RosterUser>, m: StatsMap, e: Entry, parse: DateParser, who: string, day: string)
    requires DateKey(e.date, parse) == Some(day) && Attribute(users, m, e) == Some(who)
    ensures Process(users, m, e, parse) == AddToStats(m, who, day)
  {
    assert e.date != "";
  }

  /** The statistics are the fold of the contributions. */
  lemma {:induction false} CollectIsFold(users: seq<RosterUser>, entries: seq<Entry>, parse: DateParser)
    ensures Collect(users, entries, parse) == Fold(Contributions(users, entries, parse))
    decreases |entries|
  {
    var cs := Contributions(users, entries, parse);
    if entries == [] {
      assert cs == [];
    } else {
      var prefix := entries[..|entries| - 1];
      CollectIsFold(users, prefix, parse);
      assert Contributions(users, prefix, parse) == cs[..|cs| - 1];
      ProcessIsStep(users, Collect(users, prefix, parse), entries[|entries| - 1], parse);
    }
  }

  /** The days a list of contributions gives the name `n`. */
  function DaysOf(cs: seq<Contribution>, n: string): set<string> {
    set i | 0 <= i < |cs| && cs[i].credit.Some? && cs[i].credit.value.owner == n :: cs[i].credit.value.day
  }

  /** The days of `n` by the reference reading: the keys of every resolvable
      row whose fresh attribution is `n`, in whatever order the rows come. */
  function ReferenceDays(users: seq<RosterUser>, entries: seq<Entry>, parse: DateParser, n: string): set<string> {
    DaysOf(Contributions(users, entries, parse), n)
  }

  /** The exact-name shortcut never disagrees with the matcher: whenever a
      row's raw name is the fresh owner of an earlier resolvable row, its
      own fresh owner is that raw name. */
  predicate ShortcutSafe(cs: seq<Contribution>) {
    forall i, j :: 0 <= j < i < |cs| && cs[j].credit.Some? && cs[i].credit.Some? && cs[i].written == Some(cs[j].credit.value.owner)
      ==> cs[i].credit.value.owner == cs[i].written.value
  }

  predicate Stable(users: seq<RosterUser>, entries: seq<Entry>, parse: DateParser) {
    ShortcutSafe(Contributions(users, entries, parse))
  }

  /** `m` holds exactly the names with days in `cs`, each with those days. */
  ghost predicate AgreesWith(m: StatsMap, cs: seq<Contribution>) {
    forall n :: (n in m <==> DaysOf(cs, n) != {}) && (n in m ==> m[n].days == DaysOf(cs, n))
  }

  /** The days of a list are those of its prefix plus the last contribution. */
  lemma DaysOfStep(cs: seq<Contribution>, n: string)
    requires cs != []
    ensures var t := cs[|cs| - 1].credit;
      DaysOf(cs, n) == DaysOf(cs[..|cs| - 1], n) + (if t.Some? && t.value.owner == n then {t.value.day} else {})
  {
    var prefix := cs[..|cs| - 1];
    var t := cs[|cs| - 1].credit;
    forall d | d in DaysOf(cs, n)
      ensures d in DaysOf(prefix, n) || (t.Some? && t.value.owner == n && d == t.value.day)
    {
      var i :| 0 <= i < |cs| && cs[i].credit.Some? && cs[i].credit.value.owner == n && cs[i].credit.value.day == d;
      if i < |prefix| {
        assert prefix[i] == cs[i];
      }
    }
    forall d | d in DaysOf(prefix, n)
      ensures d in DaysOf(cs, n)
    {
      var i :| 0 <= i < |prefix| && prefix[i].credit.Some? && prefix[i].credit.value.owner == n && prefix[i].credit.value.day == d;
      assert prefix[i] == cs[i];
    }
  }

  /** Adding a key to a name extends exactly that name's days. */
  lemma AddToStatsDays(m: StatsMap, name: string, key: string)
    ensures var r := AddToStats(m, name, key);
      forall n :: n in r <==> n in m || n == name
    ensures var r := AddToStats(m, name, key);
      forall n :: n in r ==> r[n].days == (if n in m then m[n].days else {}) + (if n == name then {key} else {})
  {
    AddToStatsAdds(m, name, key);
  }

  /** A name collected so far has a contribution. */
  lemma NameHasContribution(m: StatsMap, cs: seq<Contribution>, name: string)
    requires AgreesWith(m, cs) && name in m
    ensures exists j :: 0 <= j < |cs| && cs[j].credit.Some? && cs[j].credit.value.owner == name
  {
    assert DaysOf(cs, name) != {};
    var d :| d in DaysOf(cs, name);
  }

  /** On a safe list, the last step credits the fresh owner. */
  lemma StepIsFresh(m: StatsMap, cs: seq<Contribution>)
    requires cs != [] && ShortcutSafe(cs) && AgreesWith(m, cs[..|cs| - 1])
    requires cs[|cs| - 1].credit.Some?
    ensures var t := cs[|cs| - 1].credit.value; Step(m, cs[|cs| - 1]) == AddToStats(m, t.owner, t.day)
  {
    var c := cs[|cs| - 1];
    if c.written.Some? && c.written.value in m {
      NameHasContribution(m, cs[..|cs| - 1], c.written.value);
      var j :| 0 <= j < |cs| - 1 && cs[..|cs| - 1][j].credit.Some? && cs[..|cs| - 1][j].credit.value.owner == c.written.value;
      assert cs[j] == cs[..|cs| - 1][j];
    }
  }

  /** On a safe list of contributions the fold agrees with the reference. */
  lemma {:induction false} FoldAgrees(cs: seq<Contribution>)
    requires ShortcutSafe(cs)
    ensures AgreesWith(Fold(cs), cs)
    decreases |cs|
  {
    if cs == [] {
      assert Fold(cs) == map[];
    } else {
      var prefix := cs[..|cs| - 1];
      var m := Fold(prefix);
      var t := cs[|cs| - 1].credit;
      assert ShortcutSafe(prefix) by {
        forall i | 0 <= i < |prefix|
          ensures prefix[i] == cs[i]
        {
        }
      }
      FoldAgrees(prefix);
      if t.Some? {
        StepIsFresh(m, cs);
      }
      AgreesStep(m, cs, Fold(cs));
    }
  }

  /** One more contribution, credited to its fresh owner, keeps the
      statistics and the reference in step. */
  lemma AgreesStep(m: StatsMap, cs: seq<Contribution>, r: StatsMap)
    requires cs != [] && AgreesWith(m, cs[..|cs| - 1])
    requires var t := cs[|cs| - 1].credit;
      r == (if t.Some? then AddToStats(m, t.value.owner, t.value.day) else m)
    ensures AgreesWith(r, cs)
  {
    var t := cs[|cs| - 1].credit;
    if t.Some? {
      AddToStatsDays(m, t.value.owner, t.value.day);
    }
    forall n
      ensures n in r <==> DaysOf(cs, n) != {}
      ensures n in r ==> r[n].days == DaysOf(cs, n)
    {
      DaysOfStep(cs, n);
      if t.Some? && t.value.owner == n {
        assert t.value.day in DaysOf(cs, n);
      }
    }
  }

  /** With the shortcut never disagreeing with the matcher, every name's
      collected days are its reference days, whatever the order of the
      rows. */
  lemma CollectIsReference(users: seq<RosterUser>, entries: seq<Entry>, parse: DateParser)
    requires Stable(users, entries, parse)
    ensures forall n :: n in Collect(users, entries, parse) <==> ReferenceDays(users, entries, parse, n) != {}
    ensures forall n :: n in Collect(users, entries, parse) ==>
      Collect(users, entries, parse)[n].days == ReferenceDays(users, entries, parse, n)
  {
    CollectIsFold(users, entries, parse);
    FoldAgrees(Contributions(users, entries, parse));
  }

  // ---------------------------------------------------------------------
  // Without a stable sequence the order of the rows matters.

  /** A roster holding the same name twice in different case, the second
      spelling with an e-mail. */
  const TwinRoster := [RosterUser("ravi", ""), RosterUser("Ravi", "r@x")]

  lemma TwinMailOwner()
    ensures EmailOwner(TwinRoster, "r@x") == Some("Ravi")
  {
    assert "@" <= "r@x"[1..];
    assert Includes("r@x", "@");
    LowerLit("r@x", "r@x");
    TrimOfTrimmed("r@x");
    var p := (u: RosterUser) => u.email == "r@x";
    assert !p(TwinRoster[0]) && p(TwinRoster[1]);
    assert FirstWhere(TwinRoster, p) == Some(1);
  }

  lemma TwinNoMail()
    ensures EmailOwner(TwinRoster, "") == None
  {
  }

  lemma TwinFuzzyOwner()
    ensures FuzzyOwner(TwinRoster, "Ravi") == Some("ravi")
  {
    LowerLit("Ravi", "ravi");
    LowerLit("ravi", "ravi");
    TrimOfTrimmed("ravi");
    assert AreNamesEquivalent("ravi", "Ravi");
    var p := (u: RosterUser) => AreNamesEquivalent(u.name, "Ravi");
    assert p(TwinRoster[0]);
    assert FirstWhere(TwinRoster, p) == Some(0);
  }

  /** Two rows are processed one after the other. */
  lemma CollectTwo(users: seq<RosterUser>, a: Entry, b: Entry, parse: DateParser)
    ensures Collect(users, [a, b], parse) == Process(users, Process(users, map[], a, parse), b, parse)
  {
    CollectSnoc(users, [], a, parse);
    assert [] + [a] == [a];
    CollectSnoc(users, [a], b, parse);
    assert [a] + [b] == [a, b];
  }

  /** Appending a row processes it last. */
  lemma CollectSnoc(users: seq<RosterUser>, es: seq<Entry>, e: Entry, parse: DateParser)
    ensures Collect(users, es + [e], parse) == Process(users, Collect(users, es, parse), e, parse)
  {
    assert (es + [e])[..|es|] == es;
  }

  /** The statistics of the twin rows, in both orders. */
  lemma TwinCollect(d1: string, d2: string, k1: string, k2: string, parse: DateParser)
    requires DateKey(d1, parse) == Some(k1) && DateKey(d2, parse) == Some(k2)
    ensures var byMail, byName := Entry("", "r@x", d1), Entry("Ravi", "", d2);
      && Collect(TwinRoster, [byMail, byName], parse) == AddToStats(AddToStats(map[], "Ravi", k1), "Ravi", k2)
      && Collect(TwinRoster, [byName, byMail], parse) == AddToStats(AddToStats(map[], "ravi", k2), "Ravi", k1)
  {
    var byMail, byName := Entry("", "r@x", d1), Entry("Ravi", "", d2);
    TwinMailOwner();
    TwinNoMail();
    TwinFuzzyOwner();
    var m1 := AddToStats(map[], "Ravi", k1);
    ProcessCredits(TwinRoster, map[], byMail, parse, "Ravi", k1);
    AttributeShortcut(TwinRoster, m1, byName);
    ProcessCredits(TwinRoster, m1, byName, parse, "Ravi", k2);
    CollectTwo(TwinRoster, byMail, byName, parse);
    var m2 := AddToStats(map[], "ravi", k2);
    ProcessCredits(TwinRoster, map[], byName, parse, "ravi", k2);
    ProcessCredits(TwinRoster, m2, byMail, parse, "Ravi", k1);
    CollectTwo(TwinRoster, byName, byMail, parse);
  }

  /** One name credited twice. */
  lemma SameNameTwice(a: string, k1: string, k2: string)
    ensures var r := AddToStats(AddToStats(map[], a, k1), a, k2);
      r.Keys == {a} && r[a].days == {k1, k2}
  {
  }

  /** Two names credited once each. */
  lemma TwoNamesOnce(a: string, b: string, ka: string, kb: string)
    requires a != b
    ensures var r := AddToStats(AddToStats(map[], a, ka), b, kb);
      r.Keys == {a, b} && r[a].days == {ka} && r[b].days == {kb}
  {
  }

  /** The days of a name over two contributions. */
  lemma DaysOfTwo(c0: Contribution, c1: Contribution, n: string)
    ensures DaysOf([c0, c1], n)
      == (if c0.credit.Some? && c0.credit.value.owner == n then {c0.credit.value.day} else {})
       + (if c1.credit.Some? && c1.credit.value.owner == n then {c1.credit.value.day} else {})
  {
    var cs := [c0, c1];
    if c0.credit.Some? && c0.credit.value.owner == n {
      assert c0.credit.value.day in DaysOf(cs, n) by { assert cs[0] == c0; }
    }
    if c1.credit.Some? && c1.credit.value.owner == n {
      assert c1.credit.value.day in DaysOf(cs, n) by { assert cs[1] == c1; }
    }
  }

  /** The contributions of two rows. */
  lemma ContributionsTwo(users: seq<RosterUser>, a: Entry, b: Entry, parse: DateParser)
    ensures Contributions(users, [a, b], parse) == [Contribute(users, a, parse), Contribute(users, b, parse)]
  {
  }

  /** The fresh owners of the twin rows. */
  lemma TwinFresh(d1: string, d2: string)
    ensures FreshOwner(TwinRoster, Entry("", "r@x", d1)) == Some("Ravi")
    ensures FreshOwner(TwinRoster, Entry("Ravi", "", d2)) == Some("ravi")
  {
    TwinMailOwner();
    TwinNoMail();
    TwinFuzzyOwner();
  }

  /** A resolvable row contributes its fresh owner and its day. */
  lemma ContributedAs(users: seq<RosterUser>, e: Entry, parse: DateParser, owner: string, day: string)
    requires DateKey(e.date, parse) == Some(day) && FreshOwner(users, e) == Some(owner)
    ensures Contribute(users, e, parse).credit == Some(Credited(owner, day))
  {
  }

  /** The reference credits the row carrying the name to the first roster
      spelling the matcher finds. */
  lemma TwinReference(d1: string, d2: string, k1: string, k2: string, parse: DateParser)
    requires DateKey(d1, parse) == Some(k1) && DateKey(d2, parse) == Some(k2)
    ensures ReferenceDays(TwinRoster, [Entry("", "r@x", d1), Entry("Ravi", "", d2)], parse, "Ravi") == {k1}
  {
    var byMail, byName := Entry("", "r@x", d1), Entry("Ravi", "", d2);
    var c0, c1 := Contribute(TwinRoster, byMail, parse), Contribute(TwinRoster, byName, parse);
    ContributionsTwo(TwinRoster, byMail, byName, parse);
    TwinFresh(d1, d2);
    ContributedAs(TwinRoster, byMail, parse, "Ravi", k1);
    ContributedAs(TwinRoster, byName, parse, "ravi", k2);
    DaysOfTwo(c0, c1, "Ravi");
  }

  /** A row found by its e-mail followed by a row carrying the e-mail
      owner's name: the exact-name shortcut credits the second row to the
      owner, while the matcher alone would credit it to the first roster
      spelling; processed the other way round, the second row goes to that
      first spelling. The same rows give different statistics in different
      orders, and the first order disagrees with the reference. */
  lemma ShortcutMakesOrderMatter(d1: string, d2: string, k1: string, k2: string, parse: DateParser)
    requires DateKey(d1, parse) == Some(k1) && DateKey(d2, parse) == Some(k2) && k1 != k2
    ensures var byMail, byName := Entry("", "r@x", d1), Entry("Ravi", "", d2);
      && Collect(TwinRoster, [byMail, byName], parse).Keys == {"Ravi"}
      && Collect(TwinRoster, [byMail, byName], parse)["Ravi"].days == {k1, k2}
      && Collect(TwinRoster, [byName, byMail], parse).Keys == {"ravi", "Ravi"}
      && Collect(TwinRoster, [byName, byMail], parse)["Ravi"].days == {k1}
      && Collect(TwinRoster, [byName, byMail], parse)["ravi"].days == {k2}
      && ReferenceDays(TwinRoster, [byMail, byName], parse, "Ravi") == {k1}
  {
    TwinCollect(d1, d2, k1, k2, parse);
    TwinReference(d1, d2, k1, k2, parse);
    SameNameTwice("Ravi", k1, k2);
    TwoNamesOnce("ravi", "Ravi", k2, k1);
  }
}
