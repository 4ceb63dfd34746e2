# Monthly challenge app: a verified model of its bookkeeping

The application is a small Django site where users define recurring goals. A
goal has one flag per weekday. Users tick each day's goals in a daily tracker,
and the site shows progress in four places:
- a dashboard of week-to-date and month-to-date completion percentages;
- a month-to-date leaderboard across all users;
- a Sunday-first monthly calendar;
- a signup gate that admits only active whitelisted email addresses.

This project models that bookkeeping in Dafny, over the records of
`challenges/models.py`. Each table is a sequence of records held by a
`Database` object. The schema's constraints are the object's invariant:
- one completion record per (goal, date);
- one whitelist row per email;
- distinct ids;
- foreign keys.

Every operation that writes a table keeps that invariant. The views'
computations are modelled over those sequences. The clock is a `today`
parameter.

Modules, in dependency order:

- `Wrappers`: `Option` and `Result`.
- `Dates`: proleptic Gregorian dates as Python's `datetime.date` computes them:
  - ordinals, with 0001-01-01 as day 1;
  - `weekday()`, with 0 = Monday;
  - tuple comparison;
  - stepping by `timedelta(days=k)`.
- `IsoDate`: the `YYYY-MM-DD` full-date form (section 5.6 of RFC 3339). The tracker parses it and `str(date)` prints it.
- `Models`: the four record types and their field defaults.
- `Tables`:
  - the constraints;
  - `update_or_create` on (goal, date) and on email;
  - the tracker's batch of upserts;
  - the `ON DELETE CASCADE` deletions.
- `Store`: the `Database` class whose methods write the tables, with reads/modifies frames.
- `Whitelist`: `clean_email` and the administrator's whitelist POST.
- `Tracker`: the daily tracker's GET and POST.
- `Progress`: the dashboard's windows, counts, percentages and their rounding to one decimal.
- `Leaderboard`: the month-to-date filter, the sort and the ranking.
- `MonthGrid`: `calendar.Calendar(firstweekday=6).itermonthdays4`.
- `Calendar`: the calendar view, which fills its grid with goals and completion flags and adds navigation.

Python's `round(x, 1)` is modelled as exact rounding of `1000 * done / total`
to the nearest integer, with ties going to the even value (`Progress.RoundTenths`).
The result is the number of tenths of a percent. Sorting and display use that
rounded value, as the code does.

Two behaviours of the calendar view, as the code has them:
- A month of 0 (or a year of 0) is falsy. The view then shows the current month; it does not read month 0 as December of the previous year.
- A month of 13 or more is not rolled over. `calendar.Calendar.itermonthdays4` raises `IllegalMonthError` for it, which `Calendar.CalendarGet` returns as `Failure(IllegalMonth(month))`.

## Model

| member | source | states |
|---|---|---|
| Dates.DaysInMonth | challenges/views.py:354-355 | a month has 28..31 days; it has 29 exactly for February of a leap year and 28 exactly for February of a common year |
| Dates.IsLeapYear | challenges/views.py:354-355 | the Gregorian leap rule of `calendar.isleap`: divisible by 4, and not by 100 unless by 400; it fixes February's length in `DaysInMonth` |
| Dates.PrevMonthOf | challenges/views.py:354-355 | `calendar._prevmonth`: the month before, in 1..12, with the year one lower only for January; `DaysBackFromFirst` proves the grid's leading days taken from it end on the day before the 1st |
| Dates.NextMonthOf | challenges/views.py:354-355 | `calendar._nextmonth`: the month after, in 1..12, with the year one higher only for December; `NextOfPrev` shows it undoes `PrevMonthOf` |
| Dates.Ordinal | challenges/views.py:97-102 | the day count from 0001-01-01 on which every `timedelta` step of the views is proved (`SubDaysOrdinal`, `AddDaysOrdinal`); it computes Python's `toordinal()` |
| Dates.Weekday | challenges/views.py:297 | `weekday()` is one of 0..6 |
| Dates.FirstDayIsMonday | challenges/views.py:297 | 0001-01-01 has ordinal 1 and `weekday()` 0, Monday, which anchors the numbering 0 = Monday ... 6 = Sunday |
| Dates.YearStep | challenges/views.py:97-102 | the days before January 1 of the next year are the days before this year plus this year's length |
| Dates.PrevDayOrdinal | challenges/views.py:102 | `date - timedelta(days=1)` has the ordinal one less, and is a different, earlier date |
| Dates.NextDayOrdinal | challenges/views.py:98 | `date + timedelta(days=1)` has the ordinal one more, and is a different, later date |
| Dates.PrevDay | challenges/views.py:102 | `date - timedelta(days=1)` on a valid date, a valid date; `PrevDayOrdinal` states its ordinal |
| Dates.NextDay | challenges/views.py:102 | `date + timedelta(days=1)` on a valid date, a valid date; `NextDayOrdinal` states its ordinal |
| Dates.SubDays | challenges/views.py:97 | `date - timedelta(days=k)` as k single steps back; `SubDaysOrdinal` states its ordinal |
| Dates.AddDays | challenges/views.py:98 | `date + timedelta(days=k)` as k single steps forward; `AddDaysOrdinal`, `AddDaysWithinMonth` and `AddDaysIntoNextMonth` state where it lands |
| Dates.SubDaysOrdinal | challenges/views.py:97 | subtracting k days lowers the ordinal by exactly k and never gives a later date |
| Dates.AddDaysOrdinal | challenges/views.py:98 | adding k days raises the ordinal by exactly k and never gives an earlier date |
| Dates.WeekdayStep | challenges/views.py:297 | when the ordinal moves by k, `weekday()` moves by k modulo 7 |
| Dates.AddDaysWithinMonth | challenges/views.py:355 | adding days that stay inside the month only advances the day of the month |
| Dates.AddDaysIntoNextMonth | challenges/views.py:102 | adding days that pass the month's end but not the next month's end lands on the matching day of the next month |
| IsoDate.Parse | challenges/views.py:288-292 | an accepted string gives a valid date with a year in 1..9999 (otherwise `None`, where strptime or `date()` raises ValueError) |
| IsoDate.Format | challenges/views.py:338 | `str(date)` as the redirect writes it; its meaning is fixed by the round trips `ParseFormat` and `FormatParse` |
| IsoDate.ParseFormat | challenges/views.py:338 | every representable date, printed by `str(date)`, parses back to itself |
| IsoDate.FormatParse | challenges/views.py:290 | every string the parser accepts is the printed form of the date it returns |
| Models.NewGoal | challenges/models.py:7-15 | a new goal has a blank description and no weekday flag set |
| Models.NewCompletion | challenges/models.py:25 | a new completion record is not completed |
| Models.NewWhitelistedEmail | challenges/models.py:48 | a new whitelist row is active |
| Models.Goal.ScheduledOn | challenges/views.py:301-302 | the weekday-number-to-flag lookup, 0 = Monday ... 6 = Sunday, and False for any other number, as `days_of_week.get(wd, False)` at line 363 |
| Tables.GoalsOf | challenges/views.py:105 | the user's goals are exactly the goals whose owner is the user |
| Tables.ChallengesOf | challenges/views.py:275-277 | the challenge list view's rows: exactly the challenges owned by the user, in table order |
| Tables.Consistent | challenges/models.py:5-48 | the schema's constraints: distinct ids, one record per (goal, date), one row per email, every foreign key and many-to-many row pointing at an existing row, valid dates; `Store.Database.Valid` is this predicate and every write keeps it |
| Tables.OwnedIds | challenges/models.py:8 | the ids of the user's goals: every goal of the user is in it, and, with distinct goal ids, only those |
| Tables.Upsert | challenges/views.py:335 | after `update_or_create`, the record (goal, date, completed) is present, nothing new but it appears, and every record with another key is kept |
| Tables.UpsertAt | challenges/views.py:335 | the first record with the key is rewritten in place, or a record is appended when none has the key |
| Tables.UpsertUnique | challenges/models.py:28 | the upsert keeps at most one record per (goal, date) |
| Tables.UpsertOutside | challenges/views.py:335 | the upsert leaves every record of another goal or another date exactly as it was |
| Tables.UpsertIdempotent | challenges/views.py:335 | repeating an upsert with the same value changes nothing |
| Tables.UpsertPresent | challenges/views.py:335 | the upsert of a record already present is a no-op |
| Tables.UpsertConsistent | challenges/models.py:23-28 | an upsert for an existing goal and a valid date keeps every schema constraint |
| Tables.PostAllStep | challenges/views.py:333-335 | the loop's batch is built one goal at a time, in goal order |
| Tables.PostAll | challenges/views.py:332-335 | the tracker's loop of upserts over the user's goals in order, each with its checkbox value; its properties are the `PostAll*` lemmas |
| Tables.Checked | challenges/views.py:334 | a goal counts as completed exactly when its `goal_<id>` field reads 'on'; an absent field reads 'off' |
| Tables.PostAllUnique | challenges/views.py:333-335 | the tracker's batch of upserts keeps at most one record per (goal, date) |
| Tables.PostAllSets | challenges/views.py:333-335 | after the batch, every goal submitted has the record (goal, date, its checkbox value) |
| Tables.PostAllOutside | challenges/views.py:333-335 | the batch leaves every record of another date or of another user's goal unchanged |
| Tables.PostAllPresent | challenges/views.py:333-335 | a batch whose records are all present already is a no-op |
| Tables.PostAllIdempotent | challenges/views.py:333-335 | submitting the same tracker form twice gives the table that submitting it once gives |
| Tables.UpsertEmail | challenges/views.py:40 | the row (email, active) is present after the upsert, nothing else new appears, and rows with other emails stay |
| Tables.UpsertEmailAt | challenges/views.py:40 | the row with the email is rewritten in place, or a row is appended when there is none |
| Tables.UpsertEmailUnique | challenges/models.py:47 | one row per email survives the upsert, and it holds the submitted active flag |
| Tables.Edited | challenges/views.py:246 | a goal saved by the edit form takes the form's name, description and seven weekday flags, and keeps its id and owner |
| Tables.EditGoal | challenges/views.py:242-247 | the goal with the edited id is replaced by its edited form, row by row; no other goal changes and no id or owner changes |
| Tables.EditGoalAt | challenges/views.py:242-247 | with distinct ids, the edit rewrites in place the one goal a search finds, and is a no-op when no goal has the id |
| Tables.EditGoalConsistent | challenges/models.py:5-15 | editing a goal keeps the set of goal ids and each user's goal ids, and every schema constraint |
| Tables.DropGoals | challenges/models.py:8 | the goals left are exactly those whose id is not deleted, and ids stay distinct |
| Tables.DropCompletions | challenges/models.py:23 | the records left are exactly those of goals not deleted, and (goal, date) uniqueness is kept |
| Tables.StripGoals | challenges/models.py:39 | each challenge loses exactly the deleted goals from its many-to-many set, in place |
| Tables.DropChallenges | challenges/models.py:36 | the challenges left are exactly those not owned by the deleted user (or not the deleted one), ids distinct |
| Tables.RemoveUser | challenges/models.py:8 | the users left are exactly the others, still distinct |
| Tables.GoalIdsAfterDrop | challenges/models.py:23 | after a goal deletion the remaining goal ids are the old ids minus the deleted ones |
| Tables.DropGoalsConsistent | challenges/models.py:23-39 | deleting goals with their completion records and challenge memberships keeps every schema constraint |
| Tables.DeleteGoalConsistent | challenges/models.py:23 | deleting a goal keeps the schema consistent and leaves no completion record of it |
| Tables.DeleteUserConsistent | challenges/models.py:8-36 | deleting a user keeps the schema consistent and leaves no goal and no challenge of that user |
| Tables.DeleteChallengeConsistent | challenges/models.py:35-39 | deleting a challenge (its many-to-many rows with it) keeps the schema consistent and leaves no challenge with that id |
| Store.Database.AddUser | challenges/models.py:8 | a new account is appended and the invariant holds |
| Store.Database.AddGoal | challenges/models.py:5-15 | a goal of an existing user with a fresh id is appended and the invariant holds |
| Store.Database.UpdateGoal | challenges/views.py:242-254 | the goals become `EditGoal` of the old ones; an id no goal has is reported as not found and changes nothing; the other tables are unchanged; the invariant holds |
| Store.Database.AddChallenge | challenges/models.py:35-39 | a challenge of an existing user over existing goals, with a fresh id, is appended; no other table changes; the invariant holds |
| Store.Database.UpsertCompletion | challenges/views.py:335 | the table becomes `Upsert` of the old one, the other tables are unchanged, and the invariant holds |
| Store.Database.UpsertWhitelisted | challenges/views.py:40 | the whitelist becomes `UpsertEmail` of the old one, the other tables are unchanged, and the invariant holds |
| Store.Database.DeleteGoal | challenges/models.py:23 | the goal, its records and its memberships go; users and whitelist are unchanged; the invariant holds |
| Store.Database.DeleteOwnGoal | challenges/views.py:257-265 | the delete view finds only the requester's own goals: it deletes with the cascade exactly when a goal with the id belongs to the user, and otherwise reports not found and changes nothing |
| Store.Database.DeleteUser | challenges/models.py:36 | the user, the user's goals, their records and the user's challenges go; the invariant holds |
| Store.Database.DeleteChallenge | challenges/models.py:39 | only the challenge goes; goals and records stay; the invariant holds |
| Whitelist.ActiveListed | challenges/forms.py:29 | true exactly when an active row has exactly that email |
| Whitelist.CleanEmail | challenges/forms.py:23-32 | success exactly when an active row has the email; it returns the input unchanged; otherwise it fails with the message "This email address is not allowed to register. Please contact the admin."; it only reads the rows |
| Whitelist.GateAfterUpsert | challenges/views.py:40 | after the administrator's upsert, signup with that email passes exactly when the submitted flag was on, and every other email's verdict is unchanged |
| Whitelist.ManageWhitelistPost | challenges/views.py:36-41 | the checkbox is on exactly when it reads 'on'; the whitelist becomes the upsert; without an email field nothing is saved; other tables are unchanged |
| Tracker.SelectedDate | challenges/views.py:287-294 | the date is the parsed `YYYY-MM-DD` value, and today when the parameter is absent, empty or invalid |
| Tracker.RedirectKeepsDate | challenges/views.py:338 | the date the POST redirects to is the date the following GET selects |
| Tracker.ScheduledGoals | challenges/views.py:301-302 | exactly the goals whose flag for the weekday is set |
| Tracker.Recorded | challenges/views.py:306-308 | the status loop overwrites a goal's entry with each of its records in turn, so the last record's flag stands; `RecordedIsTheRecord` ties it to the one record |
| Tracker.CompletionsOn | challenges/views.py:305 | exactly the records of the shown goals on the date |
| Tracker.RecordedIsTheRecord | challenges/models.py:28 | with one record per (goal, date), the last record is the record: its flag, or none when the date has no record |
| Tracker.RecordedOfFiltered | challenges/views.py:305-308 | filtering the records to the shown goals and date does not change any shown goal's last record |
| Tracker.StatusMap | challenges/views.py:306-308 | the map's keys are exactly the shown goals; each maps to its last fetched record's flag, or False |
| Tracker.TrackerGet | challenges/views.py:284-315 | the selected date; exactly the user's goals scheduled on its weekday; a status map keyed by exactly those goals, each holding its record's flag or False |
| Tracker.TrackerPost | challenges/views.py:319-338 | the completions become the batch of upserts over every owned goal, scheduled or not; no other table changes; the invariant holds; the redirect carries `str(selected_date)` |
| Tracker.PostEffect | challenges/views.py:332-335 | after a POST, every owned goal has exactly one record for the date, holding its checkbox value; records of other dates and other users are unchanged; repeating the POST changes nothing |
| Progress.WeekStartBounds | challenges/views.py:97 | `start_of_week` is a Monday, on or before today, at most six days earlier |
| Progress.WeekEndBounds | challenges/views.py:98 | `end_of_week` is the Sunday six days after `start_of_week` |
| Progress.MonthBounds | challenges/views.py:101-102 | `start_of_month` is day 1 of today's month and year, not after today; `end_of_month` is that month's last day |
| Progress.WeekStart | challenges/views.py:97 | `start_of_week`; `WeekStartBounds` proves it is the Monday on or before today |
| Progress.WeekEnd | challenges/views.py:98 | `end_of_week`; `WeekEndBounds` proves it is the following Sunday |
| Progress.MonthStart | challenges/views.py:101 | `start_of_month`; `MonthBounds` proves it is day 1 of today's month |
| Progress.MonthEnd | challenges/views.py:102 | `end_of_month`; `MonthBounds` proves it is the month's last day, for every month length |
| Progress.Count | challenges/views.py:108-109 | the `filter(...).count()` of the records of a set of goals inside a window, optionally only the completed ones; bounded by `CountAtMostRecords` and `CompletedAtMostTracked` |
| Progress.InWindow | challenges/views.py:108-127 | the `date__gte` bound and, when present, the `date__lte` bound |
| Progress.Percentage | challenges/views.py:110 | the completed share times 100, and 0 when nothing was tracked; `PercentageBounds` keeps it in 0..100 |
| Progress.RoundTenths | challenges/views.py:135 | `round(percentage, 1)` counted in tenths; `RoundTenthsSpec` and `RoundTenthsNearPercentage` state what it is |
| Progress.CompletedAtMostTracked | challenges/views.py:108-109 | the completed records of a window never outnumber its records |
| Progress.CountAtMostRecords | challenges/views.py:108-109 | a count is at most the table size, and 0 when no record of the goals falls in the window |
| Progress.CountLaterRecord | challenges/views.py:108-109 | a record dated after today never changes a count bounded by today; with no upper bound a matching later record is counted |
| Progress.PercentageBounds | challenges/views.py:110 | the percentage lies within 0..100, and is 0 when the window has no records |
| Progress.RoundTenthsSpec | challenges/views.py:135 | the rounded figure is the nearest number of tenths to the exact percentage, a tie goes to the even neighbour, it is 0 with no records, and it lies in 0..1000 tenths |
| Progress.RoundTenthsNearPercentage | challenges/views.py:144-145 | the displayed value is within 0.05 of the exact percentage |
| Progress.StatOf | challenges/views.py:121-139 | a goal's row: its name; its month-to-date and week-to-date record counts, with completed at most set; the rounded percentages in 0..1000 tenths |
| Progress.GoalStats | challenges/views.py:118-139 | one statistics row per goal of the user, in goal order |
| Progress.Dashboard | challenges/views.py:94-147 | the overall month and week figures over all the user's goals, each in 0..1000 tenths, and one row per goal |
| Leaderboard.EntryOf | challenges/views.py:180-191 | a user's row holds the user's month-to-date record counts, completed at most set, and the rounded percentage in 0..1000 tenths |
| Leaderboard.UserCount | challenges/views.py:166-175 | the annotated counts: the user's records, or completed records, dated on or after the 1st of the month, with no upper bound |
| Leaderboard.Active | challenges/views.py:175 | the filter keeping users whose record count is above 0 |
| Leaderboard.Standings | challenges/views.py:166-191 | the unsorted rows: one per user with a record this month, in user order; `StandingsMembers` states the membership |
| Leaderboard.Before | challenges/views.py:194 | the sort key: higher rounded percentage first, then more completed records |
| Leaderboard.StandingsMembers | challenges/views.py:166-175 | the rows before sorting are exactly those of the users with at least one record dated on or after the 1st of the month, future-dated records included |
| Leaderboard.CollectStandings | challenges/views.py:178-191 | the loop appends exactly the rows of the active users, in user order |
| Leaderboard.Insert | challenges/views.py:194 | insertion adds exactly one row to the multiset of rows |
| Leaderboard.InsertSorted | challenges/views.py:194 | inserting into a list in key order gives a list in key order |
| Leaderboard.Sort | challenges/views.py:194 | the sorted rows are a permutation of the rows |
| Leaderboard.SortSorted | challenges/views.py:194 | the sorted rows are non-increasing by (rounded percentage, completed count) |
| Leaderboard.Rank | challenges/views.py:197-198 | each row's rank becomes its 1-based position and nothing else changes |
| Leaderboard.RankedMembers | challenges/views.py:194-198 | ranking and sorting keep the rows: with the rank cleared, the board is the sorted list |
| Leaderboard.LeaderboardPage | challenges/views.py:160-198 | the board is a permutation of the rows of exactly the active users. Each row holds its user's counts. It is in key order, and the ranks are 1..N in list order, ties included |
| MonthGrid.GridShape | challenges/views.py:354-355 | the grid is whole weeks, four to six of them, and its first cell is tagged Sunday |
| MonthGrid.MonthDays | challenges/views.py:355 | `itermonthdays4(year, month)`: the grid's dates, each tagged with its position's weekday; its shape and contents are the `Grid*` lemmas |
| MonthGrid.GridDates | challenges/views.py:355 | `itermonthdays3`: the last `DaysBefore` days of the previous month, the month's days, then the first `DaysAfter` days of the next month, as long as the three together |
| MonthGrid.DaysBefore | challenges/views.py:355 | the leading padding, fewer than 7 cells |
| MonthGrid.DaysAfter | challenges/views.py:355 | the trailing padding, fewer than 7 cells; `GridShape` proves the three parts make whole weeks |
| MonthGrid.GridDays | challenges/views.py:355 | the cells of the month are exactly the block after the leading padding, with the days 1..N in order; no cell has day 0 |
| MonthGrid.DaysBackFromFirst | challenges/views.py:355 | the last days of the previous month are valid dates, exactly k ordinals before the 1st |
| MonthGrid.LeadingOrdinals | challenges/views.py:355 | the leading cells are the consecutive days just before the 1st |
| MonthGrid.MiddleOrdinals | challenges/views.py:355 | the month's own cells follow the 1st day by day |
| MonthGrid.DaysPastEnd | challenges/views.py:355 | the first days of the next month are valid dates, consecutive after the month's last day |
| MonthGrid.TrailingOrdinals | challenges/views.py:355 | the trailing cells are the consecutive days just after the month's last day |
| MonthGrid.GridWeekdays | challenges/views.py:355 | every cell holds a valid date, and its weekday tag is that date's real `weekday()` |
| MonthGrid.GridCell | challenges/views.py:364-365 | the cell's month is the requested one exactly for the cells of the month, each with its day and its real weekday |
| Calendar.Requested | challenges/views.py:348-351 | a missing or zero year or month selects today's year and month; otherwise the parameters are used |
| Calendar.NavigationInRange | challenges/views.py:385-392 | for a real month both neighbours are real months; the year falls by one only for January and rises by one only for December |
| Calendar.NavigationAdjacent | challenges/views.py:385-392 | the previous month is that of the day before the 1st, the next that of the day after the last day |
| Calendar.NavigationRoundTrip | challenges/views.py:385-392 | back then forward, or forward then back, returns to the month shown |
| Calendar.MonthNavigation | challenges/views.py:385-392 | `prev_month`/`prev_year` and `next_month`/`next_year`, wrapping at 0 and 13; the `Navigation*` lemmas state what they are |
| Calendar.MonthName | challenges/views.py:399 | `calendar.month_name[month]`, the English month names January .. December |
| Calendar.DayGoals | challenges/views.py:361-366 | a day's goal list; `DayGoalsMembers` and `DayGoalsAppend` state its members and order |
| Calendar.DayGoalsMembers | challenges/views.py:363-366 | a day lists exactly the goals scheduled on its weekday |
| Calendar.DayGoalsAppend | challenges/views.py:362-366 | a day's list keeps the goals' iteration order |
| Calendar.AppendToDays | challenges/views.py:364-366 | the inner loop appends the goal to exactly the days of the month on one of its weekdays, keeps the key set, and changes nothing else |
| Calendar.DayGoalMap | challenges/views.py:361-366 | `day_goal_map` has exactly the keys 1..31; each day of the month lists the user's goals for its weekday, in goal order; every other key lists none |
| Calendar.CompletionMapLookup | challenges/views.py:369-372 | `completion_map.get((goal.id, d), False)` is the flag of the (goal, date) record that is last in table order, or False when there is none |
| Calendar.CompletionMap | challenges/views.py:372 | the dict comprehension keyed by (goal id, day), later records overwriting earlier ones; `CompletionMapLookup` states its lookups |
| Calendar.MonthRecords | challenges/views.py:369 | the records of the user's goals dated in the requested year and month, in table order |
| Calendar.Lookup | challenges/views.py:381 | `completion_map.get(key, False)` |
| Calendar.ExpectedEntriesSpec | challenges/views.py:381 | an in-month cell lists exactly the user's goals flagged for its weekday; each entry holds its record's flag when the record exists, and False otherwise |
| Calendar.ExpectedCell | challenges/views.py:376-382 | the reference cell: padding cells have no day and no goals, a month cell its day and `ExpectedEntries` |
| Calendar.EntriesAgree | challenges/views.py:381 | the entries built through `completion_map` are the reference entries |
| Calendar.Entries | challenges/views.py:381 | the comprehension pairing each goal of the day with its flag from the map; `EntriesAgree` equates it with the reference entries |
| Calendar.MonthData | challenges/views.py:375-382 | the cell list is as long as the grid, with one built cell per grid cell |
| Calendar.BuiltCellAgrees | challenges/views.py:376-382 | every built cell is the reference cell: its day and the reference goal list inside the month, `None`/`None` outside |
| Calendar.CalendarGet | challenges/views.py:345-405 | a month outside 1..12 fails with `IllegalMonth`; otherwise a year outside 1..9999 fails with `YearOutOfRange`; otherwise every cell is the reference cell of the month's grid, and the year, month, name, navigation and today are those of the month shown |

## Left out

- Authentication, login and logout, sessions, and the password hashing in the signup form's `save`. These sit in the framework and in cryptography.
- The `admin_required` and `login_required` decorators. The model passes the acting user as a parameter. `dashboard` carries no `login_required` decorator, so for an anonymous visitor its user filter would fail; this is not modelled.
- `render`, `redirect`, templates, URL routing and the admin site registration. These are presentation. The redirect of the tracker POST is kept as the date string it carries.
- The list, create, update and delete class views of goals, and the challenge list view, as views: their forms, templates and redirects are left out.
  - Their effect on the tables is modelled. `Store.Database.AddGoal` models create, `Store.Database.UpdateGoal` update, and `Store.Database.DeleteOwnGoal` delete (with the view's filter to the requester's own goals). The goal list view reads `Tables.GoalsOf` and the challenge list view `Tables.ChallengesOf`.
  - `Store.Database.DeleteGoal` is the model-level delete with its cascade, without any owner check.
  - `GoalUpdateView` does not restrict its queryset to the owner, so any signed-in user may edit any goal by id. `Store.Database.UpdateGoal` accordingly takes any id.
  - The source has no challenge create, update or delete view. `Store.Database.AddChallenge` and `Store.Database.DeleteChallenge` model those writes at the table level only.
- The clock and time zones. `now()` and `timezone.localtime()` become the `today` parameter.
- ORM internals:
  - the joins of `Count`/`Q`;
  - the atomicity of `update_or_create`;
  - transaction isolation and concurrent requests.

  Each request is one call on one `Database` object.
- Row order of unordered queries: `User.objects` and `Goal.objects.filter` are taken in table (insertion) order.
- Progress.RoundTenths, Progress.RoundTenthsSpec: round the exact rational percentage. Python rounds a binary float, which can differ at an exact half, and `StatOf`, `Dashboard`, `EntryOf` and `LeaderboardPage` inherit the difference. For example, 23 completed of 80 records is exactly 28.75 %: the model gives 28.8 (ties to even), while Python's `(23 / 80) * 100` is a float just below 28.75 and rounds to 28.7.
- Sort: the leaderboard sort is modelled as a function (an insertion sort over a sequence), not as Python's in-place list sort.
- Leaderboard.LeaderboardPage: does not state that rows with equal keys keep the user table's order. Python's sort is stable, and the insertion sort used here also places earlier rows first, but this is not proved.
- IsoDate.Parse: accepts only the strict four-two-two ASCII-digit form. `strptime("%Y-%m-%d")` also accepts one-digit months and days (`2024-3-5`), a space-padded day (`2024-03- 5`) and non-ASCII decimal digits, which its regular expression's `\d` matches.
- Django's `EmailField` syntax validation: emails are compared as plain strings.
- Dates: years are unbounded integers. Python's `date` limits them to 1..9999. The bound is modelled in three places:
  - `IsoDate.Parse` accepts only years 1..9999;
  - `IsoDate.Format` requires them;
  - `Calendar.CalendarGet` fails with `YearOutOfRange` for a requested year outside 1..9999. In the source, `calendar/10000/1/` passes the URL's `int` converter, and the month's `date__year` lookup then raises ValueError.
- `calendar.month_name` is the English list. Locales are not modelled.
- Record fields that no computation of the core reads, such as a goal's name length limit, are left out. The text fields are plain strings.
