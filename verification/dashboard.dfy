/** The intern dashboard: the login lookup and the name suggestions of the
    login screen, the submission lock (one log per calendar day, and twelve
    hours between logs), and the programme thresholds. Times are integer
    milliseconds; parsing a date text and the local calendar day of an
    instant are parameters. */
module Dashboard {
  import opened Wrappers
  import opened Text
  import opened Sheets
  import opened Users
  import opened DateKeys
  import opened Aggregate
  import opened History

  // ---------------------------------------------------------------------
  // Login.

  /** `handleLogin`: nothing happens unless both fields are filled; then the
      first user whose name equals the typed name up to case, and whose id
      is exactly the typed id, is logged in. The admin account may log in
      too. */
  function Login(users: seq<UserView>, name: string, internId: string): (r: Option<UserView>)
    ensures r.Some? ==> name != "" && internId != ""
    ensures r.Some? ==> r.value in users && Lower(r.value.name) == Lower(name) && r.value.internId == internId
    ensures r.Some? ==>
      exists i :: 0 <= i < |users| && users[i] == r.value &&
                  forall j :: 0 <= j < i ==> !(Lower(users[j].name) == Lower(name) && users[j].internId == internId)
    ensures r.None? && name != "" && internId != "" ==>
      forall i :: 0 <= i < |users| ==> !(Lower(users[i].name) == Lower(name) && users[i].internId == internId)
  {
    if name == "" || internId == "" then None
    else
      var p := (u: UserView) => Lower(u.name) == Lower(name) && u.internId == internId;
      var found := FirstWhere(users, p);
      assert found.None? ==> forall i :: 0 <= i < |users| ==> !p(users[i]);
      match found
      case Some(i) =>
        assert forall j :: 0 <= j < i ==> !p(users[j]);
        Some(users[i])
      case None => None
  }

  /** Names that differ only in case log in alike. */
  lemma LoginIgnoresCase(users: seq<UserView>, name: string, name': string, internId: string)
    requires Lower(name) == Lower(name')
    ensures Login(users, name, internId) == Login(users, name', internId)
  {
    var p := (u: UserView) => Lower(u.name) == Lower(name) && u.internId == internId;
    var p' := (u: UserView) => Lower(u.name) == Lower(name') && u.internId == internId;
    assert forall u :: p(u) == p'(u);
    SameWhere(users, p, p');
  }

  lemma {:induction false} SameWhere<T>(s: seq<T>, p: T -> bool, q: T -> bool)
    requires forall x :: p(x) == q(x)
    ensures FirstWhere(s, p) == FirstWhere(s, q)
  {
    if s != [] {
      SameWhere(s[1..], p, q);
    }
  }

  /** Who the suggestion list shows: a non-admin whose lower-cased name
      contains the lower-cased text typed so far. */
  predicate Suggested(u: UserView, typed: string) {
    u.role != Admin && Includes(Lower(u.name), Lower(typed))
  }

  /** `filteredUsers`: the suggested users, in roster order. */
  function Suggestions(users: seq<UserView>, typed: string): (r: seq<UserView>)
    ensures |r| <= |users|
    ensures forall u :: u in r <==> u in users && Suggested(u, typed)
  {
    if users == [] then []
    else
      var rest := Suggestions(users[1..], typed);
      assert forall u :: u in users <==> u == users[0] || u in users[1..];
      if Suggested(users[0], typed) then [users[0]] + rest else rest
  }

  /** The suggestions keep roster order: those of a roster split in two are
      those of the first part followed by those of the second, and a single
      user is suggested alone or not at all. */
  lemma {:induction false} SuggestionsInOrder(a: seq<UserView>, b: seq<UserView>, typed: string)
    ensures Suggestions(a + b, typed) == Suggestions(a, typed) + Suggestions(b, typed)
    ensures |a| == 1 ==> Suggestions(a, typed) == if Suggested(a[0], typed) then a else []
  {
    if a == [] {
      assert a + b == b;
    } else {
      assert (a + b)[0] == a[0] && (a + b)[1..] == a[1..] + b;
      SuggestionsInOrder(a[1..], b, typed);
      if |a| == 1 {
        assert a[1..] == [];
      }
    }
  }

  /** With nothing typed, every user but the admin is suggested. */
  lemma EmptyTextSuggestsAll(users: seq<UserView>)
    ensures forall u :: u in Suggestions(users, "") <==> u in users && u.role != Admin
  {
    forall u | u in users && u.role != Admin
      ensures Includes(Lower(u.name), Lower(""))
    {
      assert "" <= Lower(u.name)[0..];
    }
  }

  // ---------------------------------------------------------------------
  // The submission lock.

  /** What `new Date(text)` gives: an instant, or an invalid date. */
  type TimeParser = string -> Option<int>

  /** The newest log as the lock sees it: none, an invalid date (truthy,
      but comparing false with everything), or an instant. */
  datatype LastLog = NoLog | InvalidDate | At(ms: int)

  function AsLastLog(t: Option<int>): LastLog {
    match t
    case Some(ms) => At(ms)
    case None => InvalidDate
  }

  /** The first occurrence of `pat` in `s`, from position `from` on. */
  function FindFrom(s: string, pat: string, from: nat): (r: Option<nat>)
    requires pat != []
    ensures r.Some? ==> from <= r.value && r.value + |pat| <= |s| && pat <= s[r.value..]
    ensures r.Some? ==> forall j :: from <= j < r.value ==> !(pat <= s[j..])
    ensures r.None? ==> forall j :: from <= j <= |s| ==> !(pat <= s[j..])
    decreases |s| - from
  {
    if from + |pat| > |s| then None
    else if pat <= s[from..] then Some(from)
    else FindFrom(s, pat, from + 1)
  }

  /** `s.replace(pat, rep)` with a string pattern: only the first
      occurrence is replaced. */
  function ReplaceFirst(s: string, pat: string, rep: string): (r: string)
    requires pat != []
    ensures !Includes(s, pat) ==> r == s
  {
    match FindFrom(s, pat, 0)
    case Some(i) => s[..i] + rep + s[i + |pat|..]
    case None => s
  }

  /** The text handed to `new Date` for the newest history entry: an ISO
      text as it is, any other with its first " •" removed. */
  function HistoryDateText(d: string): string {
    if Includes(d, "T") && Includes(d, "Z") then d else ReplaceFirst(d, " •", "")
  }

  /** The newest log: the first history entry (the history is newest
      first), replaced by the locally stored submission time when there is
      no entry or when both are valid and the stored time is later. */
  function NewestLog(historyDates: seq<string>, stored: string, parse: TimeParser): (r: LastLog)
    ensures r == NoLog <==> historyDates == [] && stored == ""
    ensures r.At? <==> (historyDates != [] && parse(HistoryDateText(historyDates[0])).Some?)
                       || (historyDates == [] && stored != "" && parse(stored).Some?)
    ensures historyDates == [] && stored != "" ==> r == AsLastLog(parse(stored))
    ensures r.At? && historyDates != [] ==>
      var h := parse(HistoryDateText(historyDates[0])).value;
      r.ms == if stored != "" && parse(stored).Some? then Max(h, parse(stored).value) else h
  {
    var fromHistory := if historyDates == [] then NoLog else AsLastLog(parse(HistoryDateText(historyDates[0])));
    if stored == "" then fromHistory
    else
      var local := AsLastLog(parse(stored));
      if fromHistory == NoLog || (local.At? && fromHistory.At? && local.ms > fromHistory.ms) then local
      else fromHistory
  }

  function Max(a: int, b: int): int {
    if a < b then b else a
  }

  /** Twelve hours in milliseconds. */
  const Cooldown := 12 * 60 * 60 * 1000

  /** The lock status: open (`idle`), locked for the rest of the calendar
      day (`same_day`), or locked until `unlockAt` (`cooldown`). */
  datatype Lock = Idle | SameDay | CoolingDown(unlockAt: int)

  predicate Locked(l: Lock) {
    !l.Idle?
  }

  /** The lock effect: the same calendar day locks first; otherwise less
      than twelve hours since the newest log locks until twelve hours after
      it; an invalid newest date never locks. `dayOf` is the local calendar
      day of an instant. */
  function LockStatus(last: LastLog, now: int, dayOf: int -> int): (r: Lock)
    ensures last.At? && dayOf(now) == dayOf(last.ms) ==> r == SameDay
    ensures r.CoolingDown? ==> last.At? && dayOf(now) != dayOf(last.ms) && now < r.unlockAt && r.unlockAt == last.ms + Cooldown
    ensures last.At? && dayOf(now) != dayOf(last.ms) && now - last.ms < Cooldown ==> r == CoolingDown(last.ms + Cooldown)
    ensures r == Idle <==> !last.At? || (dayOf(now) != dayOf(last.ms) && now - last.ms >= Cooldown)
  {
    match last
    case At(t) =>
      if dayOf(now) == dayOf(t) then SameDay
      else if now - t < Cooldown then CoolingDown(t + Cooldown)
      else Idle
    case _ => Idle
  }

  /** The dashboard's lock, from the history dates, the stored submission
      time, the clock and the calendar. */
  function DashboardLock(historyDates: seq<string>, stored: string, now: int, parse: TimeParser, dayOf: int -> int): Lock {
    LockStatus(NewestLog(historyDates, stored, parse), now, dayOf)
  }

  /** With no history and nothing stored, submission is open. */
  lemma NoLogIsIdle(now: int, parse: TimeParser, dayOf: int -> int)
    ensures DashboardLock([], "", now, parse, dayOf) == Idle
  {
  }

  /** A cooldown ends at its unlock time: from then on the same newest log
      no longer cools down (it may still lock for the calendar day). */
  lemma CooldownEnds(last: LastLog, now: int, later: int, dayOf: int -> int)
    requires LockStatus(last, now, dayOf).CoolingDown?
    requires later >= LockStatus(last, now, dayOf).unlockAt
    ensures LockStatus(last, later, dayOf) == SameDay || LockStatus(last, later, dayOf) == Idle
  {
  }

  /** The lock's purpose: a submission stored less than twelve hours ago
      keeps the form locked, unless the history's first date is invalid or
      lies in the future. */
  lemma RecentSubmissionLocks(historyDates: seq<string>, stored: string, t: int, now: int, parse: TimeParser, dayOf: int -> int)
    requires stored != "" && parse(stored) == Some(t) && t <= now < t + Cooldown
    requires historyDates != [] ==> parse(HistoryDateText(historyDates[0])).Some? && parse(HistoryDateText(historyDates[0])).value <= now
    ensures Locked(DashboardLock(historyDates, stored, now, parse, dayOf))
  {
  }

  /** An invalid newest history date keeps the lock open, whatever was
      stored: it is truthy, so the stored time is never preferred to it. */
  lemma InvalidHistoryDateUnlocks(historyDates: seq<string>, stored: string, now: int, parse: TimeParser, dayOf: int -> int)
    requires historyDates != [] && parse(HistoryDateText(historyDates[0])).None?
    ensures DashboardLock(historyDates, stored, now, parse, dayOf) == Idle
  {
  }

  // ---------------------------------------------------------------------
  // Thresholds.

  /** The programme length in days. */
  const ProgramDays := 90

  /** `daysCompleted`: the number of history entries. */
  function DaysCompleted<T>(history: seq<T>): nat {
    |history|
  }

  /** The dashboard counts history records, not days: an authorized
      request shows as many days as records were gathered (two records of
      one day count twice), an unauthorized one shows none. */
  lemma DaysCompletedCountsRecords(sheet: UsersSheet, logs: LogSheets, name: string, internId: string, parse: DateParser, adminId: AdminId)
    ensures var h := GetHistory(sheet, logs, name, internId, parse, adminId);
      DaysCompleted(h) == if Authorized(sheet, name, internId, adminId) then |Gathered(sheet, logs, name, parse)| else 0
  {
    var h := GetHistory(sheet, logs, name, internId, parse, adminId);
    if Authorized(sheet, name, internId, adminId) {
      assert |multiset(h)| == |multiset(Gathered(sheet, logs, name, parse))|;
    }
  }

  /** `Math.max(90 - daysCompleted, 0)`. */
  function DaysRemaining(daysCompleted: nat): (r: nat)
    ensures r + daysCompleted >= ProgramDays
    ensures daysCompleted <= ProgramDays ==> r + daysCompleted == ProgramDays
    ensures daysCompleted >= ProgramDays ==> r == 0
  {
    if daysCompleted >= ProgramDays then 0 else ProgramDays - daysCompleted
  }

  /** `daysCompleted >= 90`. */
  predicate CertificateUnlocked(daysCompleted: nat) {
    daysCompleted >= ProgramDays
  }

  /** The certificate shows exactly when no day remains. */
  lemma CertificateWhenNothingRemains(daysCompleted: nat)
    ensures CertificateUnlocked(daysCompleted) <==> DaysRemaining(daysCompleted) == 0
  {
  }

  /** The dashboard asks for the history by name alone, and a request
      without an id is served nothing: the dashboard shows no day done,
      all 90 to go and no certificate, whatever the logs hold. */
  lemma NameOnlyRequestShowsNoProgress(sheet: UsersSheet, logs: LogSheets, name: string, parse: DateParser, adminId: AdminId)
    ensures var done := DaysCompleted(GetHistory(sheet, logs, name, "", parse, adminId));
      done == 0 && DaysRemaining(done) == ProgramDays && !CertificateUnlocked(done)
  {
    NameOnlyRequestGetsNothing(sheet, logs, name, parse, adminId);
  }

  /** Another log never brings the certificate further away. */
  lemma ProgressMonotone(d: nat, e: nat)
    requires d <= e
    ensures DaysRemaining(e) <= DaysRemaining(d)
    ensures CertificateUnlocked(d) ==> CertificateUnlocked(e)
  {
  }
}
