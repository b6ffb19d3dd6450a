# Intern activity tracker: log reconciliation, history and dashboard lock

A Dafny model of the core of an intern-programme tracker. The tracker is a Google
Apps Script back end over a spreadsheet plus a React dashboard. The modelled core has
three parts:

- **Reconciling log rows with people and days.**
  - A fuzzy name matcher (`areNamesEquivalent`).
  - A canonical day key for a timestamp cell (`getCanonicalDateKey`).
  - A 12-hour clock label (`getTimeString`).
  - The fold inside `getUsers` that credits every log row of the legacy sheet, the
    monitor tabs M1 to M10 and "Activity Logs" to a person and a day
    (`processLogEntry`, `addToStats`).
  - The roster `getUsers` returns.
- **One person's history.**
  - The credential check (`isValidUser`).
  - The row normalisation (`normalizeLog`).
  - `getHistory`, which gathers that person's rows, keeps those with a day key and
    sorts them newest first.
- **The dashboard.**
  - The login lookup and the name suggestions.
  - The submission lock: one log per calendar day, and twelve hours between logs.
  - The 90-day certificate threshold.

Sheets are passed in as sequences of rows of display text. The platform's date parser
(`new Date(text)` read in GMT+05:30), the browser's date parser and the local calendar
day of an instant are parameters (`DateParser`, `TimeParser`, `dayOf`).

Modules, one per file, in dependency order:

- `Wrappers`: `Option`.
- `Text`: JavaScript's `trim`, `\s`, `toLowerCase`, `split(/\s+/)`, `includes`,
  `parseInt` and `padStart`.
- `NameMatch`: the name matcher.
- `DateKeys`: the day key, and `new Date(key)` as a day number.
- `TimeLabels`: the clock label.
- `Sheets`: cells, `find`, and the e-mail column.
- `Aggregate`: the `getUsers` fold and its order-free reference.
- `Users`: the `getUsers` roster.
- `Sorting`: a stable newest-first sort (`Sorting.SortStable`).
- `History`: `isValidUser`, `normalizeLog` and `getHistory`.
- `Dashboard`: the front end's login, lock and thresholds.

Where the code departs from its own comments or evident intent, the model follows the code:

- **The fast path makes attribution depend on row order.** The exact-name shortcut in
  `processLogEntry` (google_apps_script_code.js:450) credits a raw name as written once
  that name is a key of the statistics. So the same rows can yield different day counts
  in different orders. The day counts are not the union of each row's own attribution.
  - `Aggregate.ShortcutMakesOrderMatter` exhibits two rows and a two-line roster where
    this happens.
  - `Aggregate.CollectIsReference` proves the union reading whenever the shortcut
    never disagrees with the matcher (`Stable`).
- **`latest` is not always the chronological maximum.** `addToStats` moves `latest`
  only to a key that `new Date` reads as strictly later. A key that is not a date, such
  as "2026-13-13" from "13/13/2026" (`DateKeys.UncheckedMonth`), never replaces
  `latest` and is never replaced by a valid key.
- **A comment claims more than the matcher does.** The comment above the matcher says
  "Mulkala Laxmanacharry" matches "Mulkala Laxman". The code rejects that pair
  (`NameMatch.CommentCases`).
- **The two day counts differ.** The dashboard's day count is the number of history
  records (`history.length`). The roster's `daysCompleted` is the number of distinct
  day keys. Two records of one day count twice on the dashboard
  (`Dashboard.DaysCompletedCountsRecords`).
- **An invalid newest history date unlocks.** When the newest history entry's date does
  not parse, the front end keeps the invalid date as the newest log, because it is
  truthy. It never prefers the stored submission time over it. So the lock is open
  (`Dashboard.InvalidHistoryDateUnlocks`).
- **The credential check scans the header row.** `isValidUser` reads the users sheet
  with `getDataRange`, so the header row takes part in the name search.
  `getHistory` serves any name when the id given is the admin id.
- **The dashboard's history request is never served.** The front end asks for the
  history with the name alone (src/services/api.js:25). `getHistory` answers a request
  without an id with `[]` (google_apps_script_code.js:763), since `isValidUser` rejects
  an empty id and the empty id is not the admin id. So once the history is fetched, the
  dashboard's `history.length` is 0 (`History.NameOnlyRequestGetsNothing`,
  `Dashboard.NameOnlyRequestShowsNoProgress`). Only the optimistic entry added after a
  submission (src/App.jsx:332) shows until the refetch two seconds later replaces it.

## Model

| member | source | states |
|---|---|---|
| `Text.SplitJoin` | google_apps_script_code.js:967 | splitting on white-space runs gives back words joined by single spaces |
| `Sheets.FirstWhere` | google_apps_script_code.js:439 | the position found satisfies the predicate and no earlier one does; none is found exactly when no element satisfies it |
| `Sheets.RowEmail` | google_apps_script_code.js:372-376 | a users row's e-mail is the lower-cased, trimmed e-mail cell whenever that cell is non-empty, and "" without an e-mail column |
| `NameMatch.Clean` | google_apps_script_code.js:964-965 | removing characters outside `[a-z0-9\s]` keeps only those characters and leaves a clean string unchanged |
| `NameMatch.LongFields` | google_apps_script_code.js:967-968 | the filter keeps exactly the pieces longer than one character |
| `NameMatch.TokensAreTokens` | google_apps_script_code.js:964-968 | every token is at least two lower-case letters or digits |
| `NameMatch.EmptyNeverMatches` | google_apps_script_code.js:955 | an empty name matches nothing, not even another empty name |
| `NameMatch.Reflexive` | google_apps_script_code.js:956-960 | every non-empty name matches itself |
| `NameMatch.NoTokensOnlyFastPath` | google_apps_script_code.js:956-970 | a name with no token matches exactly the names with the same trimmed lower-case form |
| `NameMatch.SubsetRule` | google_apps_script_code.js:983-989 | when every token of the shorter list is matched, the names match |
| `NameMatch.RatioRule` | google_apps_script_code.js:991-995 | past the fast path and the subset rule, with three or more tokens in the longer list, the names match iff matched tokens exceed 70% of that list |
| `NameMatch.SingleTokenExact` | google_apps_script_code.js:976-989 | two different one-token names match iff their tokens are equal, so containment ("test" in "contest") does not count |
| `NameMatch.MatchCountPermutation` | google_apps_script_code.js:976-981 | the match count depends on the first token list only through its multiset |
| `NameMatch.MatchCountSameMembers` | google_apps_script_code.js:974-981 | the match count depends on the second token list only through its set of tokens |
| `NameMatch.MatchCountDistinct` | google_apps_script_code.js:973-981 | without repeated tokens, the match count is the size of the intersection of the token sets |
| `NameMatch.SymmetricWhenDistinct` | google_apps_script_code.js:954-1001 | for names without repeated tokens the matcher is symmetric |
| `NameMatch.TokenOrderInvariant` | google_apps_script_code.js:964-1000 | permuting the tokens of either name does not change the verdict |
| `NameMatch.AsymmetricWithRepeatedToken` | google_apps_script_code.js:976-989 | with a repeated token the matcher is not symmetric: "aa aa bb" matches "aa cc" but not the other way round |
| `NameMatch.ShortFallbackUnreachable` | google_apps_script_code.js:997-998 | when the first name repeats no token, the matcher agrees with one without the `matchCount >= 2` fallback |
| `NameMatch.PlainName` | google_apps_script_code.js:956-968 | a name spelled as plain words has their space-joined text as normal form and its words as tokens |
| `NameMatch.PlainVerdict` | google_apps_script_code.js:954-1001 | the verdict on two plainly spelled names is that of the rules on their normal forms and word lists |
| `NameMatch.DiagnosticCases` | google_apps_script_code.js:1321-1331 | "Shiva" does not match "Shivam Kumar Jha", matches "Shiva Rama Krishna Boga"; "Shivam" does not match the latter |
| `NameMatch.CommentCases` | google_apps_script_code.js:950-953 | "Test" does not match "Contest" and matches "Test User"; reordered names match; "Mulkala Laxmanacharry" does not match "Mulkala Laxman" |
| `DateKeys.MatchDmySound` | google_apps_script_code.js:647-648 | whatever the day-month-year pattern captures, the text starts with those digits and separators |
| `DateKeys.MatchDmyComplete` | google_apps_script_code.js:647-648 | a text starting with such digits and separators is matched with exactly those captures |
| `DateKeys.FormatOfFields` | google_apps_script_code.js:672 | every key is the format of the year, month and day it spells |
| `DateKeys.FieldsOfFormat` | google_apps_script_code.js:672 | reading a formatted key back gives the year, month and day it was made from |
| `DateKeys.DateKey` | google_apps_script_code.js:639-682 | a key, when there is one, is four digits, dash, two digits, dash, two digits; an empty cell has none |
| `DateKeys.MonthFirstKey` | google_apps_script_code.js:659-672 | a first number of at most 12 is the month, whatever follows the year and whatever the platform parser says |
| `DateKeys.DayFirstKey` | google_apps_script_code.js:659-661 | a first number above 12 is the day and the second the month |
| `DateKeys.FallbackKey` | google_apps_script_code.js:675-681 | a text the pattern misses is keyed by the platform parser's date, or not at all |
| `DateKeys.KeyOfKey` | google_apps_script_code.js:639-682 | a key is its own key when the platform reads it as the day it names |
| `DateKeys.UncheckedMonth` | google_apps_script_code.js:647-672 | "13/13/2026" keys to "2026-13-13", which reading back as a date rejects |
| `DateKeys.ParseDay` | google_apps_script_code.js:469 | `new Date(key)` is valid exactly for keys with month 1 to 12 and day 1 to 31 |
| `DateKeys.LaterIsCalendarOrder` | google_apps_script_code.js:469 | for keys of real calendar dates, "later" is calendar order |
| `TimeLabels.FirstTimeAt` | google_apps_script_code.js:732-733 | the match is at the leftmost position where the time pattern applies; none iff it applies nowhere |
| `TimeLabels.TimeLabel` | google_apps_script_code.js:724-756 | the label is "" or two digits, colon, two digits, space, AM or PM; an empty cell gives "" |
| `TimeLabels.MarkedLabel` | google_apps_script_code.js:740-741 | with a marker, the label shows the hour as written, even past 12, the same minutes and the marker's half of the day in upper case |
| `TimeLabels.LabelOfMarkedMatch` | google_apps_script_code.js:733-741 | a cell whose first time carries a marker is labelled from that hour, minutes and marker |
| `TimeLabels.Clock12RoundTrip` | google_apps_script_code.js:743-746 | a 24-hour time's label shows an hour from 1 to 12, keeps the minutes, and its hour and marker give back the 24-hour hour |
| `TimeLabels.LabelIdempotent` | google_apps_script_code.js:724-756 | labelling a label gives it back |
| `TimeLabels.Clock12` | google_apps_script_code.js:743-745 | the 24-hour conversion shows `hour % 12`, or 12 for a multiple of 12, keeps the minutes, and says PM exactly when the hour is 12 or more |
| `TimeLabels.LabelOfUnmarkedMatch` | google_apps_script_code.js:731-746 | a cell whose first time has no marker is labelled by converting that hour from 24-hour time, whatever comes before it and whether or not seconds follow |
| `TimeLabels.TimeLabelFallback` | google_apps_script_code.js:749-755 | a cell with no time of day is labelled from the platform's reading of the whole text, converted to 12-hour time, or gets "" when that reading fails |
| `TimeLabels.MonitorTimestampLabel` | google_apps_script_code.js:726-746 | the monitor-tab stamp "1/8/2026 21:30:45" is labelled "09:30 PM" |
| `TimeLabels.TwentyFourHourText` | google_apps_script_code.js:728-746 | "hh:mm" at the start of a cell with no seconds or marker becomes its 12-hour label |
| `Aggregate.Lookup` | google_apps_script_code.js:372-376 | one roster entry per users row, in row order: that row's name cell and its trimmed, lower-cased e-mail cell |
| `Aggregate.NameDateEntriesKeep` | google_apps_script_code.js:384-394 | the legacy and "Activity Logs" rows enter in row order, each exactly when name and timestamp are non-empty, as (name, no e-mail, timestamp), and nothing else enters |
| `Aggregate.MonitorEntriesKeep` | google_apps_script_code.js:400-412 | the rows of a monitor tab enter in row order, each exactly when its timestamp is non-empty, as (name column C, e-mail column B, timestamp column A), and nothing else enters |
| `Aggregate.ReadTabs` | google_apps_script_code.js:397-398 | the tabs read are M1 to M10: the first ten tabs, or all when there are fewer, unchanged |
| `Aggregate.EntriesIgnoreExtraTabs` | google_apps_script_code.js:397-398 | tabs past M10 add no entry to the statistics |
| `Aggregate.NameDateEntries` | google_apps_script_code.js:384-394 | every row with a non-empty name and timestamp gives its entry (name, no e-mail, timestamp); every entry has a name and a timestamp and no e-mail; there are no more entries than rows |
| `Aggregate.MonitorEntries` | google_apps_script_code.js:396-412 | every monitor-tab row with a non-empty timestamp gives its entry (column C, column B, column A); every entry has a timestamp; there are no more entries than rows |
| `Aggregate.AddToStats` | google_apps_script_code.js:465-472 | the names become the old names plus the credited one, and every other name keeps its statistics |
| `Aggregate.EmailOwner` | google_apps_script_code.js:436-444 | an e-mail holding "@" has an owner iff some roster member has that e-mail lower-cased and trimmed, and the owner is the first such member, as `find` returns |
| `Aggregate.FuzzyOwner` | google_apps_script_code.js:455-458 | a raw name has a fuzzy owner iff the matcher equates some roster name with it, and the owner is the first such member, as `find` returns |
| `Aggregate.AddToStatsInvariant` | google_apps_script_code.js:465-472 | crediting a day keeps every latest day one of its days and no day later than it |
| `Aggregate.AddToStatsGrows` | google_apps_script_code.js:465-472 | crediting a day loses no name or day and never moves a latest day earlier |
| `Aggregate.CollectInvariant` | google_apps_script_code.js:430-472 | after any rows, every latest day is one of its days and no day of that name is later |
| `Aggregate.ProcessGrows` | google_apps_script_code.js:430-472 | processing a row loses no name or day and never moves a latest day earlier |
| `Aggregate.AttributeDropsAlike` | google_apps_script_code.js:436-447 | a row is dropped exactly when no e-mail owner exists and its name is empty, whatever was collected |
| `Aggregate.UnresolvableIsNoOp` | google_apps_script_code.js:430-447 | a row without a day key or anyone to credit changes nothing |
| `Aggregate.CollectIgnoresUnresolvable` | google_apps_script_code.js:430-434 | removing those rows leaves the statistics unchanged |
| `Aggregate.DaysComeFromRows` | google_apps_script_code.js:430-472 | every collected day is the day key of some row |
| `Aggregate.EmailTakesPrecedence` | google_apps_script_code.js:436-444 | a row whose e-mail has an owner credits its day to that owner, whatever its name |
| `Aggregate.CollectedNameShortcut` | google_apps_script_code.js:449-453 | without an e-mail owner, a name already collected is credited as written |
| `Aggregate.NewNameAttribution` | google_apps_script_code.js:455-462 | otherwise the first fuzzy match is credited, or the raw name when nobody matches |
| `Aggregate.AttributeIsFresh` | google_apps_script_code.js:436-462 | the attribution equals the one judged on the row alone except through the exact-name shortcut |
| `Aggregate.ProcessIsStep` | google_apps_script_code.js:430-463 | processing a row is a step on what the row contributes on its own |
| `Aggregate.CollectIsFold` | google_apps_script_code.js:384-472 | the statistics are the fold of the rows' own contributions |
| `Aggregate.CollectIsReference` | google_apps_script_code.js:430-472 | when the shortcut never disagrees with the matcher, each name's days are the day keys of the rows attributed to it on their own, in any order |
| `Aggregate.ShortcutMakesOrderMatter` | google_apps_script_code.js:449-458 | two rows give one name two days in one order and two names one day each in the other; the first differs from the reference |
| `Users.MonitorColumn` | google_apps_script_code.js:346-356 | the monitor column is the first header containing "monitor" in any case, else column D |
| `Users.Photos` | google_apps_script_code.js:474-488 | every photo entry has a non-empty name and a non-empty photo |
| `Users.PhotosLastWins` | google_apps_script_code.js:481-487 | a name has a photo iff some profile row gives it one, and the photo is from the last such row |
| `Users.GetUsers` | google_apps_script_code.js:340-521 | no data rows give an empty roster; otherwise one intern per row in order with its name, id and status, then the admin |
| `Users.DaysCompletedIsReference` | google_apps_script_code.js:493 | when the shortcut is stable, a user's day count is the number of distinct reference days of that name, over the rows of the legacy sheet, M1 to M10 and "Activity Logs" |
| `Users.UsersIgnoreExtraTabs` | google_apps_script_code.js:397-398 | tabs past M10 change no user's view |
| `Users.LastLogIsLatest` | google_apps_script_code.js:506 | a latest day is shown iff the day count is positive; it is a counted day, no counted day is later, and it keys some log row |
| `Users.PhotoIsLastProfile` | google_apps_script_code.js:494 | a user's photo is from the last profile row naming them with a photo, or "" when none does |
| `Users.MonitorFlag` | google_apps_script_code.js:496-509 | a user is a monitor, and has course access, iff the monitor cell reads "true" in any case |
| `Users.AdminLast` | google_apps_script_code.js:513-521 | every non-empty roster ends with the admin account |
| `Sorting.SortPermutes` | google_apps_script_code.js:875 | sorting only reorders: the multiset of records is kept |
| `Sorting.SortSorts` | google_apps_script_code.js:875 | after sorting, no record is strictly newer than one before it |
| `Sorting.SortKeepsSorted` | google_apps_script_code.js:875 | records already newest first keep their order, so sorting twice is sorting once |
| `Sorting.SortStable` | google_apps_script_code.js:875 | the sort is stable: for every day, and for the items without a day, the items of that day come out in their input order |
| `History.FindByName` | google_apps_script_code.js:696 | the row found is the first whose name the matcher equates with the given name; none iff no row matches |
| `History.IsValidUser` | google_apps_script_code.js:685-689 | an empty name or id fails, and the admin pair passes |
| `History.ValidUserIff` | google_apps_script_code.js:694-702 | otherwise the check passes iff the first matching row, header included, carries the id up to surrounding white space |
| `History.FirstMatchDecides` | google_apps_script_code.js:696-701 | a later matching row with the right id does not help when the first has another |
| `History.OrElse` | google_apps_script_code.js:715-718 | the `or` default of a display cell is the cell unless it is "", then the default |
| `History.NormalizeLog` | google_apps_script_code.js:706-721 | date, e-mail and name are columns A to C, duration and learning columns E and G; course and issues are columns D and F, or "Learning" and "No" when those are empty |
| `Sheets.Keep` | google_apps_script_code.js:807-829 | the records kept are exactly those some row yields, never more than the rows |
| `Sheets.KeepCounts` | google_apps_script_code.js:807-829 | each record occurs in the list as often as rows yield it: nothing is merged or deduplicated |
| `Sheets.KeepLength` | google_apps_script_code.js:807-829 | the list has one record per row that yields one |
| `Sheets.KeepAppend` | google_apps_script_code.js:801-829 | scanning rows one stretch after another gives the records of each stretch, joined in order |
| `History.UserEmail` | google_apps_script_code.js:770-797 | the person's e-mail is the row e-mail of the first users row the matcher equates with the name, and "" without an e-mail column or a matching row |
| `History.MonitorRecord` | google_apps_script_code.js:807-828 | a monitor row yields a record iff its name or e-mail matches and its timestamp has a day key; the record is dated by that key, timed by the timestamp's clock label, and otherwise is the normalised row |
| `History.ActivityRecord` | google_apps_script_code.js:845-868 | an "Activity Logs" row yields a record iff its name matches and its timestamp has a day key; the record carries that key and the clock label, the row's name, course (or "Learning"), learning, proof, file and duration, issues "No" and no e-mail |
| `History.AllMonitorRecordsExact` | google_apps_script_code.js:801-831 | a record of tab M(first + k) is gathered from the tabs iff tab k exists and the record is among that tab's own records |
| `History.MonitorRecordsTagged` | google_apps_script_code.js:815-825 | every record a monitor tab yields carries that tab's name as its source |
| `History.MonitorRecordsExact` | google_apps_script_code.js:807-826 | a record is among a tab's records iff some data row of the tab yields it |
| `History.GetHistory` | google_apps_script_code.js:759-877 | unauthorized requests get nothing; otherwise exactly the records gathered from M1 to M10 and "Activity Logs", newest first |
| `History.HistoryNewestFirst` | google_apps_script_code.js:875 | no history entry's day is later than that of an entry before it |
| `History.HistoryKeepsSortedOrder` | google_apps_script_code.js:875 | records gathered newest first come back in the same order |
| `History.HistoryStable` | google_apps_script_code.js:875 | records of one day, and records without a readable date, keep the order in which they were gathered |
| `History.HistoryIgnoresLegacy` | google_apps_script_code.js:833-834 | the legacy sheet does not affect the history |
| `History.ActivityInHistory` | google_apps_script_code.js:839-870 | an "Activity Logs" record is in the history iff the request is authorized and some row yields it |
| `History.MonitorInHistory` | google_apps_script_code.js:799-831 | a record of tab M(k + 1) is in the history iff the request is authorized, the tab is one of M1 to M10, and some row of that tab yields it |
| `History.HistoryIgnoresExtraTabs` | google_apps_script_code.js:801 | tabs past M10 do not affect the history |
| `History.NameOnlyRequestGetsNothing` | google_apps_script_code.js:763-765 | a request with a name and an empty id gets `[]` |
| `Dashboard.Login` | src/App.jsx:115-123 | nobody logs in with an empty field; the user found has the typed name up to case and exactly the typed id, and no earlier user has both, as `find` returns; none found means no user has both |
| `Dashboard.LoginIgnoresCase` | src/App.jsx:123 | names differing only in case log in alike |
| `Dashboard.Suggestions` | src/App.jsx:111-113 | suggested users are exactly the non-admins whose lower-cased name contains the lower-cased text |
| `Dashboard.SuggestionsInOrder` | src/App.jsx:111-113 | suggestions keep roster order: a split roster's suggestions are those of each part in turn, and one user is suggested alone or not at all |
| `Dashboard.EmptyTextSuggestsAll` | src/App.jsx:111-113 | with nothing typed every non-admin is suggested |
| `Dashboard.FindFrom` | src/App.jsx:270 | the occurrence found is the first at or after the start position; none iff there is no occurrence |
| `Dashboard.NewestLog` | src/App.jsx:260-282 | no entry and nothing stored give no log; the log is a valid time iff the first history date is valid, or there is no history and the stored time is valid; then it is the later of the valid candidates |
| `Dashboard.LockStatus` | src/App.jsx:284-308 | the same calendar day locks; otherwise under twelve hours is a cooldown until exactly twelve hours after the log; open iff no valid log or both conditions fail |
| `Dashboard.RecentSubmissionLocks` | src/App.jsx:259-310 | a valid submission stored less than twelve hours ago locks the form whenever the first history date is valid and not in the future |
| `Dashboard.NoLogIsIdle` | src/App.jsx:284-287 | without history and stored time the lock is open |
| `Dashboard.CooldownEnds` | src/App.jsx:295-305 | from the unlock time on, the same log no longer cools down |
| `Dashboard.InvalidHistoryDateUnlocks` | src/App.jsx:264-308 | an invalid newest history date leaves the lock open whatever was stored |
| `Dashboard.DaysCompletedCountsRecords` | src/App.jsx:253 | the dashboard's day count is the number of gathered history records, or 0 when unauthorized |
| `Dashboard.NameOnlyRequestShowsNoProgress` | src/App.jsx:253 | with the history fetched by name alone, the dashboard shows no day done, 90 to go and no certificate |
| `Dashboard.DaysRemaining` | src/App.jsx:443 | days remaining and days completed add up to exactly 90 while at most 90 are completed; none remain from 90 on |
| `Dashboard.CertificateWhenNothingRemains` | src/App.jsx:428-443 | the certificate shows iff no day remains |
| `Dashboard.ProgressMonotone` | src/App.jsx:428-443 | more completed days never increase the days remaining or hide the certificate |

## Left out

- Spreadsheet, Drive, Mail and HTTP plumbing is not modelled. That covers `doGet` and `doPost`, `LockService`, sheet reads and writes, `submitLog`, `saveProfile`, `saveCourseProgress`, `syncStudentEmails`, uploads and the sheet setup. Sheets are passed in as rows of display text, and a missing sheet is an empty one.
- The header search for the e-mail column is modelled. Reading the header row itself is I/O.
- Cells are text. A ticked checkbox reads as "true", and `null`, `undefined` and an absent field all read as "".
- The statistics map is a Dafny map. JavaScript's inherited object keys, such as a name "constructor", are not modelled.
- `toLowerCase` is modelled on ASCII letters only. `trim` and `\s` use the full JavaScript white-space set.
- The 0.7 ratio is the integer test `10 * matchCount > 7 * maxLen`. It equals the floating-point test for any realistic token count.
- DateKeys.DateKey: the platform's `new Date(text)` with `Utilities.formatDate` in GMT+05:30 is a parameter returning a calendar reading with a year from 0 to 9999. So every key has a four-digit year. The source's comment at google_apps_script_code.js:833 reports six-digit years ("Year 202757") from the legacy sheet's cells. Keys like that, which `getUsers` can still produce from that sheet, are not modelled. Widening the year would break the fixed key shape that the key round trip and the order of keys rest on.
- The browser's `new Date(text)` in the front end is a parameter. So is the calendar day of an instant, used for `toDateString`.
- `new Date(key)` on a day key is modelled as the V8 reading: month 1 to 12, day 1 to 31, with days past the month's end rolling over. Nothing else is ever read back.
- History.GetHistory: the comparator `new Date(b.date) - new Date(a.date)` gives NaN for an invalid key. The model treats NaN as a tie and uses a stable insertion sort (`History.HistoryStable`). With only valid keys that is the one stable newest-first order. With invalid keys the comparator is inconsistent and the source's order is implementation-defined. The model then promises only that no record is strictly newer than one before it and that each day's records keep their gathered order.
- The monitor tabs are the sequence M1, M2, ... in order, and a missing tab is an empty one. Both `getUsers` and `getHistory` read only the first ten (`Aggregate.ReadTabs`).
- The admin credential is a parameter (`adminId`, never empty, like the deployment's literal id), not that literal.
- The unlock time's text (`toLocaleTimeString`) is not modelled, nor are React rendering, the percentages, `CircularProgress`, timers and `localStorage` writes. The stored submission time is a parameter.
- The optimistic history update after a submission and the admin dashboard are not modelled. src/RocketLoader.jsx and src/SplashScreen.jsx are not part of this model. Of src/services/api.js, only the parameters of the history request are.
- The commented-out body of `syncMonitorPermissions` is dead code and is not modelled.
