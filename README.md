# Duty roster: a verified model of the assignment engine

This project models, in Dafny, the core of a Go service that gives one
person a daily duty. It covers five parts:

- **The assignment engine** (`internal/scheduler/scheduler.go` and
  `adapter.go`). Each day after 11:00 Berlin time it keeps an existing
  duty. Otherwise it draws from the volunteer queue, then the admin queue,
  then a fairness draw over all active users. Off-duty users are filtered
  out of every pool. Queue draws take the highest queue level, and ties go
  to the fairness draw. The fairness draw takes the first user with the
  fewest non-admin duties completed in the last 14 days. A queue day is
  consumed only after the duty was created. The side operations are queue
  top-ups, off-duty windows, changing a duty's user, and completing the
  day.
- **The ledger endpoints of the web API** (`internal/http/handlers/duties.go`):
  volunteer, admin assign (both delete then create), admin modify and
  admin delete.
- **The schedule projection** (`internal/http/handlers/schedule.go`). It
  validates the month, gives one row per duty, and hides names and
  counters from callers who are not authorised. The prognosis endpoint
  validates and answers with an empty list.
- **The month calendar keyboard** (`internal/telegram/keyboard/keyboard.go`).
  Users are numbered in order of first appearance. Weeks are Monday-first
  rows of seven cells, each day appears exactly once, and the legend comes
  last.
- **The chat notifications** (`internal/notification/formatter.go`):
  Telegram MarkdownV2 escaping and the two message templates.

**Layout.**

| file | contents |
|---|---|
| `store.dfy` | the data model, and the store as a class |
| `balancing.dfy` | the selection helpers |
| `scheduler.dfy` | the engine as a class over the store |
| `duties.dfy` | the ledger handlers |
| `schedule.dfy` | the projection |
| `keyboard.dfy` | the calendar |
| `formatter.dfy` | escaping and messages |
| `civil.dfy` | day-number calendar arithmetic and the date layouts the program reads and writes |

**How the model is stated.**

- The ledger is a `map<Date, Duty>`, with dates as day numbers. The
  `duties` table declares `duty_date` UNIQUE
  (`internal/store/sqlite/sqlite.go:53`), so there is one duty per date.
- The ledger holds only what the table holds: a stored duty carries no
  user. The user appears when a duty is read (`Store.DutyByDate`): the
  read joins the user row on its id and fills in only the columns it
  selects (`sqlite.go:161-194`). The engine's lookup of today's duty, the
  change of assignee and the admin modify endpoint all go through that
  read.
- Every state-changing method is specified by a pure step function of the
  old state: `(r, store.Snapshot()) == AssignStep(old(store.Snapshot()), …)`.
  The properties of the source are lemmas about those functions.
- Loops keep their form. The selection scans, the first pass over the
  duties, the grid filling over a seven-cell `array`, the legend loop and
  the 18 `ReplaceAll` passes are each proved equal to a function on their
  inputs.
- Every store call that can fail takes a `fail` flag, or a `Faults` record
  for the daily assignment. A database error is therefore an input, and
  "nothing changes on an error path" can be proved.
- "Today", the current Berlin hour and "now" are parameters.

**Behaviour of the code that the model keeps as it is.**

- The cascade is volunteer queue, then admin queue, then fairness draw
  (`scheduler.go:52`, `:71-111`): the volunteer queue is asked first.
- Nothing relocates a displaced admin duty. A volunteer request simply
  overwrites any record at its date (`duties.go:53`).
- The fallback pool includes admins (`scheduler.go:114`).
- The fairness window is `[today-14, today]`, both ends included
  (`scheduler.go:197-200`): today's own duties count.
- Ties in the fairness draw go to the first user in list order
  (`scheduler.go:218-224`). There is no tie-break by last assignment or by
  id.
- Delete-then-create in the handlers is not atomic (`duties.go:53-57`).
  `AdminDeleteDuty` does delete records.
- The duty read is an inner join (`sqlite.go:166`). A duty whose user row
  is missing is not found. The daily assignment then tries to create a
  duty at the taken date and fails (`Scheduler.OrphanDutyBlocksAssignment`).
  The change of assignee and the modify endpoint answer "not found".
- A freshly created duty is returned without a user (`scheduler.go:234-247`).
  A second call on the same day returns the read row, joined with its user
  (`Scheduler.AssignIdempotent`).
- `ChangeDutyUser` returns the record it read with the new user id but the
  joined row of the previous user (`scheduler.go:276-281`). Its one caller
  ignores the record.

## Model

| member | source | states |
|---|---|---|
| Civil.DaysInMonth | internal/telegram/keyboard/keyboard.go:71-72 | the length of a month lies in 28..31; that it is the day before the first of the next month is `Civil.MonthEnd` |
| Civil.MonthEnd | internal/telegram/keyboard/keyboard.go:71-72 | the last day of a month, as the model counts it, is a valid date whose next day number is the first of the following month (the first day plus one month minus one day), and the day after it is not a date of that month |
| Civil.CivilDaysRoundTrip | internal/http/handlers/duties.go:27-31 | every valid date converts to its day number and back to itself, so a date parsed from a request names one day and one only |
| Civil.CivilFromDaysValid | internal/notification/formatter.go:21 | every day number converts to a valid calendar date, so the weekday and month names of the long layout are always defined |
| Civil.Weekday | internal/telegram/keyboard/keyboard.go:74 | the weekday of a day number is in 0..6, with 0 = Sunday |
| Civil.NextDayOfMonth | internal/telegram/keyboard/keyboard.go:92 | consecutive days of one month have consecutive day numbers, so the grid advances one day per cell |
| Civil.Epoch | internal/telegram/keyboard/keyboard.go:74 | 1970-01-01 is day 0 and a Thursday, both ways of the conversion |
| Civil.FridayExample | internal/notification/formatter_test.go:13-19 | 2023-10-27 is day 19657 and a Friday, both ways of the conversion |
| Civil.SaturdayExample | internal/notification/formatter_test.go:27-33 | 2023-10-28 is day 19658 and a Saturday |
| Civil.LeapDayExample | internal/telegram/keyboard/keyboard.go:71-72 | 2024-02-29 is day 19782, and it converts back |
| Civil.ParseIso | internal/http/handlers/duties.go:27-31 | a text accepted in the "2006-01-02" layout names a real calendar date with a four-digit year |
| Civil.ParseFormatIso | internal/telegram/keyboard/keyboard.go:53 | a date written in the "2006-01-02" layout parses back to itself |
| Civil.FormatParseIso | internal/http/handlers/duties.go:27 | a text that parses in the "2006-01-02" layout is exactly the formatting of the date it gives, so the layout is one-to-one |
| Store.VolunteerQueue | internal/store/store.go:85 | exactly the active users with a positive volunteer counter, as a subsequence of the table (table order kept) |
| Store.AdminQueue | internal/store/store.go:86 | exactly the active users with a positive admin counter, as a subsequence of the table (table order kept) |
| Store.ActiveUsers | internal/store/store.go:64 | exactly the active users, admins included, as a subsequence of the table (table order kept) |
| Store.FindUser | internal/store/sqlite/sqlite.go:166 | finds a row with the id exactly when the table has one |
| Store.DutyByDate | internal/store/sqlite/sqlite.go:161-194 | finds the duty at the date exactly when there is one and its user row exists (inner join); the duty columns are the stored ones, the completion is not selected, and the user is the selected columns of a user row with that id |
| Store.Store.GetDutyByDate | internal/store/sqlite/sqlite.go:161-194 | a failing query is an error; otherwise the answer is the joined read, and nothing changes |
| Store.Store.CreateDuty | internal/store/sqlite/sqlite.go:146-159 | the insert succeeds exactly when the call does not fail and the date is free (the UNIQUE date); it gives the caller's record a fresh id, files it without a user and changes nothing else |
| Store.Store.UpdateDuty | internal/store/sqlite/sqlite.go:198-206 | rewrites the user and type of the duty at that date, if there is one, and keeps the ledger valid |
| Store.Store.DeleteDuty | internal/store/sqlite/sqlite.go:208-216 | removes whatever is at the date; deleting nothing is not an error |
| Store.Store.CompleteDuty | internal/store/store.go:76 | marks the duty at the date completed at `now`; fails when there is none |
| Store.Store.AddToVolunteerQueue | internal/store/store.go:81 | adds the days to that user's volunteer counter only |
| Store.Store.AddToAdminQueue | internal/store/store.go:82 | adds the days to that user's admin counter only |
| Store.Store.DecrementVolunteerQueue | internal/store/store.go:83 | takes one day off that user's volunteer counter, never below zero |
| Store.Store.DecrementAdminQueue | internal/store/store.go:84 | takes one day off that user's admin counter, never below zero |
| Store.Store.SetOffDuty | internal/store/store.go:89 | stores the inclusive off-duty window of that user |
| Store.Store.ClearOffDuty | internal/store/store.go:90 | removes that user's off-duty window |
| Balancing.Without | internal/scheduler/scheduler.go:137-146 | a user is kept if and only if it was in the input and is not reported off duty; the result is no longer than the input |
| Balancing.FilterOffDutyUsers | internal/scheduler/scheduler.go:137-146 | the filtering loop returns exactly `Without(users, off)`, an order-preserving subsequence; a failed lookup counts as "not off duty" |
| Balancing.AtLevel | internal/scheduler/scheduler.go:167-177 | a user is kept if and only if its queue level equals the maximum |
| Balancing.MaxLevelIsMaximum | internal/scheduler/scheduler.go:155-165 | the running maximum, started at 0, bounds every level and is reached by some user when any level is non-negative |
| Balancing.FirstMin | internal/scheduler/scheduler.go:214-224 | the scan's index is a valid position of the list |
| Balancing.FirstMinIsFirstMinimum | internal/scheduler/scheduler.go:214-230 | the scan returns a position of least count with no earlier position of that count, and it is the only such position |
| Balancing.CountDuties | internal/scheduler/scheduler.go:206-212 | the counting loop gives each user its number of non-admin duties in the window |
| Balancing.SelectRoundRobinUser | internal/scheduler/scheduler.go:189-231 | the method returns the fairness choice: nothing for an empty list, the first user when the query failed, else the first user with the fewest counted duties |
| Balancing.RoundRobinChoiceInPool | internal/scheduler/scheduler.go:189-231 | on a non-empty pool the fairness draw returns a member of the pool |
| Balancing.SelectUserWithBalancing | internal/scheduler/scheduler.go:150-186 | the method returns the balanced choice: the sole top-level user, or the fairness draw among the top-level users |
| Balancing.BalancedChoiceIsMaximal | internal/scheduler/scheduler.go:150-186 | the queue draw returns a pool member whose level max(volunteer, admin) equals the pool's maximum |
| Balancing.BalancedChoiceUniqueTop | internal/scheduler/scheduler.go:179-182 | a user alone at the top level is returned directly |
| Balancing.BalancedChoiceTieBreak | internal/scheduler/scheduler.go:184-185 | with several users at the top level, the choice is the fairness draw among exactly those users |
| Scheduler.QueueDraw | internal/scheduler/scheduler.go:80-82 | a queue draw returns a pool member with the highest level of the pool |
| Scheduler.FairDraw | internal/scheduler/scheduler.go:126-127 | the fallback draw returns a pool member: the first when the duty query failed, else the first user of least count |
| Scheduler.Choose | internal/scheduler/scheduler.go:71-127 | a drawn user is always an active user of the table who is not off duty today |
| Scheduler.TooEarlyChangesNothing | internal/scheduler/scheduler.go:58-61 | before 11:00 Berlin time the call fails with the "too early" error and the state is unchanged |
| Scheduler.ExistingDutyReturned | internal/scheduler/scheduler.go:65-69 | an existing duty for today whose user row exists is returned as read: its stored columns joined with that user row; no create and no decrement |
| Scheduler.OrphanDutyBlocksAssignment | internal/scheduler/scheduler.go:65-69 | a duty for today whose user row is missing is not found; the call fails (at the create, when a user was drawn) and nothing changes |
| Scheduler.DrawnDutyIsFound | internal/scheduler/scheduler.go:234-247 | a duty just created is found by the next read, with the same columns and joined with its assignee's row |
| Scheduler.ErrorChangesNothing | internal/scheduler/scheduler.go:53-134 | every failing daily assignment leaves the store exactly as it was |
| Scheduler.OneDutyCreated | internal/scheduler/scheduler.go:71-133 | a success leaves today's duty filed with the returned columns and the ledger valid; when today was empty, exactly the returned duty was added, at today, and no other date changed |
| Scheduler.CascadeOrder | internal/scheduler/scheduler.go:71-124 | voluntary duties come from the volunteer pool; admin duties only when that pool is empty; fairness duties only when both are empty; with no available active user the call fails with "no available users" |
| Scheduler.FairPoolIncludesAdmins | internal/scheduler/scheduler.go:113-120 | every active user not off duty is in the fallback pool, admins included |
| Scheduler.DrawnUserIsBalanced | internal/scheduler/scheduler.go:71-127 | a queue draw picks a user of the highest level in its pool; the fallback picks the first user with the fewest non-admin duties in the 14-day window |
| Scheduler.QueueConsumedOnSuccessOnly | internal/scheduler/scheduler.go:80-110 | counters change only after a successful create, only for the drawn user and the queue drawn from; a failing decrement is ignored |
| Scheduler.AssignIdempotent | internal/scheduler/scheduler.go:65-69 | calling again on the same day changes nothing more and returns the same duty columns, joined with the assignee's user row; a duty that was read the first time comes back exactly |
| Scheduler.ConsumeTakesOneDay | internal/scheduler/scheduler.go:87-88 | consuming takes exactly one day off the drawn user's counter of that queue, leaves others alone and never makes a counter negative |
| Scheduler.AddQueueEffect | internal/scheduler/scheduler.go:22-35 | days <= 0 are refused before the store is touched; otherwise only that user's counter of that queue grows by `days` |
| Scheduler.SetOffDutyValidation | internal/scheduler/scheduler.go:38-44 | a window ending before it starts is refused with no change; a one-day window is accepted and covers both ends |
| Scheduler.ChangeDutyUserEffect | internal/scheduler/scheduler.go:259-282 | past dates, dates without a duty and duties whose user row is missing are refused with no change; otherwise only the user id at that date changes, and type, id and queues stay; the record returned has the new id but the previous user's joined row |
| Scheduler.Scheduler.AddToVolunteerQueue | internal/scheduler/scheduler.go:22-27 | the new state and result are those of the volunteer top-up step |
| Scheduler.Scheduler.AddToAdminQueue | internal/scheduler/scheduler.go:30-35 | the new state and result are those of the admin top-up step |
| Scheduler.Scheduler.SetOffDuty | internal/scheduler/scheduler.go:38-44 | the new state and result are those of the window step |
| Scheduler.Scheduler.ClearOffDuty | internal/scheduler/scheduler.go:47-49 | the new state and result are those of the clearing step |
| Scheduler.Scheduler.AssignTodaysDuty | internal/scheduler/scheduler.go:53-134 | the new state and result are those of the daily assignment step (an existing duty comes back as the joined read), and the ledger stays valid |
| Scheduler.Scheduler.ChooseUser | internal/scheduler/scheduler.go:71-127 | the three-stage cascade returns exactly the specified pick or error |
| Scheduler.Scheduler.DrawDuty | internal/scheduler/scheduler.go:83-89 | creates the drawn duty, then consumes the queue day only when the create succeeded |
| Scheduler.Scheduler.CreateDutyFor | internal/scheduler/scheduler.go:234-248 | succeeds exactly when the date is free and the store does not fail; the new duty carries the user, date, type and creation time, and nothing else changes |
| Scheduler.Scheduler.CompleteTodaysDuty | internal/scheduler/scheduler.go:251-256 | marks today's duty completed at `now`, or fails without change |
| Scheduler.Scheduler.ChangeDutyUser | internal/scheduler/scheduler.go:259-282 | the new state and result are those of the change step |
| Scheduler.Scheduler.AssignDuty | internal/scheduler/adapter.go:33-35 | has exactly the effect of adding days to the user's admin queue |
| Scheduler.Scheduler.VolunteerForDuty | internal/scheduler/adapter.go:38-40 | has exactly the effect of adding days to the user's volunteer queue |
| Scheduler.Scheduler.AutoAssignDuty | internal/scheduler/adapter.go:43-45 | ignores its date and has exactly the effect of the daily assignment |
| Duties.DateOfIso | internal/http/handlers/duties.go:27-31 | a date written as "YYYY-MM-DD" is accepted and names that date |
| Duties.VolunteerOverwrites | internal/http/handlers/duties.go:44-59 | an authenticated volunteer request for a well-formed date answers 201 and leaves a voluntary duty of the caller there, whatever was there before; no other date changes |
| Duties.AdminAssignOverwrites | internal/http/handlers/duties.go:84-98 | a well-formed admin request answers 201 and leaves an admin duty of the requested user at the date, overwriting any record; no other date changes |
| Duties.RejectedRequestsChangeNothing | internal/http/handlers/duties.go:20-38 | a body that does not bind or a malformed date gives 400, a missing caller 401, and neither changes the ledger |
| Duties.ReplaceNotAtomic | internal/http/handlers/duties.go:53-57 | when the create fails after the delete, the answer is 500 and the date is left empty; when the delete fails, the create meets the old record and fails too |
| Duties.ModifyChangesOnlyAssignee | internal/http/handlers/duties.go:129-146 | an empty date, or a duty whose user row is missing, gives 404 and no change; on 200 only the user id of that date's duty changes and its type is kept |
| Duties.DeleteRemovesOnlyDate | internal/http/handlers/duties.go:154-168 | a successful delete answers 204, leaves nothing at the date and touches no other date |
| Duties.HandlersTouchOneDate | internal/http/handlers/duties.go:14-170 | each of the four handlers changes at most the one date it was given |
| Duties.Replace | internal/http/handlers/duties.go:53-57 | the delete-then-create sequence has exactly the effect of the replace step |
| Duties.VolunteerForDuty | internal/http/handlers/duties.go:14-61 | the handler's answer and new ledger are those of the volunteer step |
| Duties.AdminAssignDuty | internal/http/handlers/duties.go:65-100 | the handler's answer and new ledger are those of the admin-assign step |
| Duties.AdminModifyDuty | internal/http/handlers/duties.go:104-148 | the handler's answer and new ledger are those of the modify step |
| Duties.AdminDeleteDuty | internal/http/handlers/duties.go:152-170 | the handler's answer and new ledger are those of the delete step |
| Schedule.AtoiOfIntToString | internal/http/handlers/schedule.go:17-27 | every 64-bit integer written in decimal is read back as itself by the path parser |
| Schedule.RowOf | internal/http/handlers/schedule.go:56-78 | a row keeps the duty's id, date, user id and type; a duty without its user shows an empty name; an unauthorised caller sees `***` and zero counters; an authorised one sees the name and counters |
| Schedule.Rows | internal/http/handlers/schedule.go:55-79 | one row per duty, in the store's order |
| Schedule.InvalidMonthRejected | internal/http/handlers/schedule.go:17-32 | a non-numeric year or month, or a month outside 1..12, gets 400 with its message whatever the store holds |
| Schedule.ScheduleListsEveryDuty | internal/http/handlers/schedule.go:34-81 | a valid request lists exactly one row per stored duty, in order, projected by the caller's authorisation |
| Schedule.AnonymousViewHidesUsers | internal/http/handlers/schedule.go:61-68 | what an unauthorised caller sees does not depend on users' names or counters |
| Schedule.PrognosisIsEmpty | internal/http/handlers/schedule.go:87-108 | a valid prognosis request answers with an empty list |
| Schedule.GetSchedule | internal/http/handlers/schedule.go:15-83 | the handler's loop builds exactly the specified answer |
| Schedule.GetPrognosis | internal/http/handlers/schedule.go:87-109 | the handler returns exactly the specified answer |
| Keyboard.Filed | internal/telegram/keyboard/keyboard.go:29-30 | every duty's day is a key of the day map, and each key maps to a duty of the input filed under that day |
| Keyboard.FiledLastWins | internal/telegram/keyboard/keyboard.go:30 | among duties filed under one key, the last one in the input stays |
| Keyboard.DayMapLastWins | internal/telegram/keyboard/keyboard.go:30 | when two duties fall on the same day of the month, the later one wins the cell |
| Keyboard.Firsts | internal/telegram/keyboard/keyboard.go:38-43 | the first duty of each user, in order of appearance: users are the same as the input's, and no user repeats |
| Keyboard.NumberOfMember | internal/telegram/keyboard/keyboard.go:38-43 | every user of the month has a number in 1..(number of users) that leads back to that user |
| Keyboard.NumberingByFirstAppearance | internal/telegram/keyboard/keyboard.go:27-44 | numbers are 1, 2, 3, … in order of first appearance: a user who appears earlier gets a smaller number |
| Keyboard.TallyDays | internal/telegram/keyboard/keyboard.go:29-30 | the first pass's day map is the day map of the duties |
| Keyboard.TallyKinds | internal/telegram/keyboard/keyboard.go:32-36 | the first pass records for each user exactly the kinds of duty that user holds |
| Keyboard.TallyNumbers | internal/telegram/keyboard/keyboard.go:38-43 | the first pass numbers exactly the users of the month, by first appearance, lists their users in that order and ends the counter at one past the last number |
| Keyboard.CollectUsers | internal/telegram/keyboard/keyboard.go:22-44 | the first loop builds the day map, kinds, numbers and user list as specified |
| Keyboard.MondayColumn | internal/telegram/keyboard/keyboard.go:74-79 | Sunday goes to column 6 and every other weekday w to w - 1, that is (w + 6) mod 7 |
| Keyboard.GridOf | internal/telegram/keyboard/keyboard.go:71-79 | the grid has a Monday-first offset in 0..6 and a last day in 28..31 |
| Keyboard.WeekRow | internal/telegram/keyboard/keyboard.go:85-131 | every week row has exactly seven cells |
| Keyboard.Position | internal/telegram/keyboard/keyboard.go:85-131 | each day of the month has a week inside the grid and a column in 0..6 |
| Keyboard.EachDayOnce | internal/telegram/keyboard/keyboard.go:85-131 | each day 1..lastDay appears in its cell, and in no other cell |
| Keyboard.DayUnderItsWeekday | internal/telegram/keyboard/keyboard.go:74-90 | each day stands in the column of its own weekday, Monday first |
| Keyboard.WeeksAreTight | internal/telegram/keyboard/keyboard.go:87-131 | the grid has 1 to 6 weeks, and its first and last week each show a day |
| Keyboard.DayCell | internal/telegram/keyboard/keyboard.go:92-125 | the cell code builds exactly the specified day button |
| Keyboard.FillRow | internal/telegram/keyboard/keyboard.go:88-128 | filling the seven-cell array gives the specified week row, and the day counter advances past that week's days |
| Keyboard.FillWeeks | internal/telegram/keyboard/keyboard.go:85-131 | the week loop appends exactly the grid's week rows |
| Keyboard.Legend | internal/telegram/keyboard/keyboard.go:138-176 | one legend row per listed user |
| Keyboard.MarksInOrder | internal/telegram/keyboard/keyboard.go:147-157 | the marks come in the fixed order volunteer, admin, automatic, each only for a kind the user holds |
| Keyboard.QueueInfoShown | internal/telegram/keyboard/keyboard.go:162-172 | the counters appear in parentheses exactly when one of them is positive, and only the positive ones, volunteer first |
| Keyboard.BothCountersShown | internal/telegram/keyboard/keyboard.go:164-171 | with both counters positive, the suffix is " (V:x A:y)" |
| Keyboard.NumberCircle | internal/telegram/keyboard/keyboard.go:140-145 | a legend label is the circled digit for 1..10 and the decimal number beyond |
| Keyboard.MarksOf | internal/telegram/keyboard/keyboard.go:148-157 | the marks loop collects the marks as specified |
| Keyboard.QueueInfo | internal/telegram/keyboard/keyboard.go:163-169 | the counter loop collects the positive counters, volunteer first |
| Keyboard.AppendQueueInfo | internal/telegram/keyboard/keyboard.go:170-172 | the entry gains the counter suffix |
| Keyboard.LegendButton | internal/telegram/keyboard/keyboard.go:139-174 | one legend button is the label, a space, the marks, the first name and the counter suffix |
| Keyboard.FillLegend | internal/telegram/keyboard/keyboard.go:138-176 | the legend loop appends one row per listed user, in numbering order |
| Keyboard.Top | internal/telegram/keyboard/keyboard.go:51-135 | header, weekday names, week rows, then the key to the marks |
| Keyboard.CalendarOf | internal/telegram/keyboard/keyboard.go:21-179 | the keyboard has the header, the weekday row, one row per week, the key to the marks and one legend row per user, in that order |
| Keyboard.Calendar | internal/telegram/keyboard/keyboard.go:21-179 | the whole keyboard method builds exactly the specified rows |
| Keyboard.CalendarLegendRow | internal/telegram/keyboard/keyboard.go:138-176 | below the key, row k of the keyboard is the legend row of listed user k |
| Keyboard.ListedUsers | internal/telegram/keyboard/keyboard.go:38-43 | the legend lists one known user per user of the month |
| Keyboard.CalendarShape | internal/telegram/keyboard/keyboard.go:52-131 | 1 to 6 week rows of 7 cells; the arrows carry "prev_month:" / "next_month:" and a date that parses back to the month shown |
| Keyboard.HeaderCarriesMonth | internal/telegram/keyboard/keyboard.go:52-56 | the arrows' data is the action, a colon and the shown date in the "2006-01-02" layout, and that date parses back |
| Keyboard.DayButtonMeaning | internal/telegram/keyboard/keyboard.go:92-125 | a day's button is the today mark exactly on today, the day number, and the label of the user on duty that day, with callback `select_day:YYYY-MM-DD` |
| Keyboard.DayLabelNamesLegendUser | internal/telegram/keyboard/keyboard.go:98-106 | the number shown on a day with a duty leads, in the legend, back to that duty's user |
| Keyboard.CalendarShowsEveryDay | internal/telegram/keyboard/keyboard.go:85-131 | every day of the month has its button in the calendar, at the week row and column the grid gives it |
| Keyboard.WeekRowsShowDays | internal/telegram/keyboard/keyboard.go:85-131 | rows that hold a grid's weeks show every day at its position |
| Keyboard.CalendarLegend | internal/telegram/keyboard/keyboard.go:138-176 | legend row k names the (k+1)-th user to appear, with exactly the kinds of duty that user holds and its counters |
| Formatter.ReplaceAll | internal/notification/formatter.go:50 | a replacement never shortens the text |
| Formatter.ReservedSet | internal/notification/formatter.go:48 | the set holds exactly the listed characters: 18 distinct ones, the backslash not among them |
| Formatter.BackslashNotReserved | internal/notification/formatter.go:48 | the backslash is not one of the characters escaped, while `*` is |
| Formatter.ReplaceEachEscapes | internal/notification/formatter.go:49-51 | the passes, one character after another, escape exactly those characters where they stand, as long as no character repeats and only the first may be the backslash |
| Formatter.EscapeMarkdown | internal/notification/formatter.go:47-53 | the loop of 18 `ReplaceAll` passes returns the escape of the input |
| Formatter.EscapePlain | internal/notification/formatter.go:47-53 | text without reserved characters is returned unchanged |
| Formatter.EscapeShape | internal/notification/formatter.go:48 | the output length is the input length plus the number of reserved characters, and the output does not start with a reserved character |
| Formatter.EscapedIsSafe | internal/notification/formatter.go:48-51 | in the output every reserved character is preceded by a backslash |
| Formatter.UnescapeEscape | internal/notification/formatter.go:48-51 | dropping the backslash before each reserved character recovers the input exactly |
| Formatter.EscapeSplice | internal/notification/formatter.go:48-51 | a reserved character between plain texts becomes a backslash and that character, and the rest is kept in order |
| Formatter.EscapeLeavesBackslash | internal/notification/formatter.go:48 | a name ending in a backslash, escaped and then followed by `*`, reads as a plain `*` instead of a plain backslash and markup |
| Formatter.EscapeV2IsPlainText | internal/notification/formatter.go:47-53 | text escaped with the backslash added to the set reads back as exactly its own characters, as plain text, and leaves the markup after it intact |
| Formatter.EscapesAgree | internal/notification/formatter.go:47-53 | on text without backslashes, the corrected escape and the one as written agree |
| Formatter.EscapeMarkdownV2 | internal/notification/formatter.go:47-53 | the corrected loop, which replaces the backslash first, returns the corrected escape |
| Formatter.FormatDutyAssignedMessage | internal/notification/formatter.go:17-28 | the reminder, escaped as written, is the error text exactly when the duty or its user is missing |
| Formatter.FormatDutyAutoAssignedMessage | internal/notification/formatter.go:32-43 | the announcement, escaped as written, is its own error text exactly when the duty or its user is missing |
| Formatter.FormatDutyAssignedMessageV2 | internal/notification/formatter.go:17-28 | the reminder with the corrected escape keeps the same error case |
| Formatter.FormatDutyAutoAssignedMessageV2 | internal/notification/formatter.go:32-43 | the announcement with the corrected escape keeps the same error case |
| Formatter.ReminderIsNotError | internal/notification/formatter.go:18-27 | no reminder text, whatever is spliced into it, equals the error text |
| Formatter.AnnouncementIsNotError | internal/notification/formatter.go:33-42 | no announcement text, whatever is spliced into it, equals the error text |
| Formatter.BackslashNameBreaksReminder | internal/notification/formatter.go:23-27 | for the first name `\`, the reminder as written ends in `*\*\.` and reads with no markup after the name, so the bold opened before it never closes; the corrected reminder shows the backslash and closes the bold |
| Formatter.LongDateHasNoBackslash | internal/notification/formatter.go:21 | a date in the "Monday, 02 January 2006" layout holds no backslash |
| Formatter.CorrectedMessagesAgree | internal/notification/formatter.go:17-43 | the messages as written and the corrected ones are the same text whenever the first name holds no backslash |
| Formatter.ReminderMarkup | internal/notification/formatter.go:23-27 | in the corrected reminder the date and the first name read as plain text, whatever they hold; all markup comes from the fixed text |
| Formatter.AnnouncementMarkup | internal/notification/formatter.go:38-42 | the same holds for the corrected announcement of an automatic assignment |
| Formatter.ReminderExample | internal/notification/formatter_test.go:11-23 | the reminder for John on 2023-10-27 is the expected text, with "Friday, 27 October 2023" |
| Formatter.AutoAssignedExample | internal/notification/formatter_test.go:25-37 | the announcement for Jane on 2023-10-28 is the expected text, with "Saturday, 28 October 2023" |
| Formatter.EscapePlainExample | internal/notification/formatter_test.go:67 | "Hello world" is left as it is |
| Formatter.EscapeSpliceExamples | internal/notification/formatter_test.go:68-69 | "hello_world" becomes "hello\_world" and "hello*world" becomes "hello\*world" |
| Formatter.EscapeSentenceExample | internal/notification/formatter_test.go:70 | "This is a test. (v1.0) #important" becomes "This is a test\. \(v1\.0\) \#important" |
| Formatter.EscapeAllExample | internal/notification/formatter_test.go:71 | the 18 reserved characters in a row each get a backslash in front |

## Left out

- I/O and time: `time.Now`, `time.LoadLocation("Europe/Berlin")` and the cron triggers are not modelled. "Today", the Berlin hour and "now" are parameters. The source computes "today" separately in `AssignTodaysDuty` and in `selectRoundRobinUser` (`scheduler.go:63`, `:195-196`); the model passes one value to both.
- `time.Parse` and `Format`: modelled only for the layouts the core uses ("2006-01-02", "Jan 2006", "Monday, 02 January 2006"), with years 0..9999. RFC 3339 rendering of dates in the schedule rows is left out: a row carries the day number.
- The HTTP layer (gin binding, JSON rendering, the auth middleware): a request body is an `Option` that is `None` when it does not bind. The binding error text is a fixed message. The caller is an `Option<User>`.
- Store implementations that are not shown: the queue, off-duty and completion queries. They are given the plain reading of their names in the store interface. A decrement never takes a counter below zero. `IsUserOffDuty` is true inside an inclusive window. A failed lookup is passed in as a set of ids treated as "not off duty". The source asks `IsUserOffDuty` again in each of the three passes (`scheduler.go:77`, `:97`, `:118`, through `:137-146`); the model uses one set of failed lookups for all three, so a lookup that fails in one pass and succeeds in another is not modelled.
- SQL, the database driver and the round-robin state table (`sqlite.go`): only the UNIQUE date, the columns of the tables and the inner join of the duty read are used.
- Telegram front-end, bot wiring, the notifier, the prognosis handler file (`prognosis.go`, which does not compile against the engine), mocks and tests that target methods the code no longer has.
- Store.Store.CreateDuty: a duty id is a counter, not SQLite's row id, and `CreatedAt` is the `now` parameter.
- Store.DutyByDate: timestamps are whole seconds, so the RFC 3339 round trip of `created_at` (`sqlite.go:148`, `:188`) is the identity; the loss of sub-second precision and the UTC conversion of `CreatedAt` are not modelled. Parse errors of the stored date and timestamp are not modelled either.
- Store.DutyByDate: the completion of a duty is kept by a store implementation that is not shown; the read shown does not select it, so a read duty has no completion.
- Scheduler.AddQueueEffect: counters are unbounded integers; the 64-bit overflow of `VolunteerQueueDays + days` is not modelled.
- Keyboard.CalendarOf: requires that every duty carries its joined user (`UsersPresent`). The legend reads `user.ID` of each listed user (`keyboard.go:149`), and the source would dereference nil for a duty without one.
- Keyboard.Calendar: the calendar is built by the helper methods `CollectUsers`, `FillWeeks`, `FillRow`, `DayCell`, `FillLegend`, `LegendButton`, `NumberCircle`, `MarksOf`, `QueueInfo` and `AppendQueueInfo`, each specified by a function. Only the seven-cell row is an `array`; the keyboard is a `seq` of rows.
- Keyboard.CalendarShowsEveryDay: states the position and the button of each day. The column-is-its-weekday fact is stated by `Keyboard.DayUnderItsWeekday`, and the button's meaning by `Keyboard.DayButtonMeaning`.
- Store.VolunteerQueue, Store.AdminQueue: the queue queries are bare signatures in the store interface (`store.go:85-86`) and their SQL is not part of this model. The model assumes they return only active users with a positive counter, in table order (stated as `Store.Subsequence`); the scheduler filters off-duty users itself.

## Findings

| source | as written | input that shows it | evidently intended | confidence | as-written member | corrected member |
|---|---|---|---|---|---|---|
| internal/notification/formatter.go:48 | the list of characters to escape does not contain the backslash, which MarkdownV2 also requires to be escaped | the first name `\` (one backslash): it is sent as `*\*\.`, so the escaped `*` becomes a plain asterisk and the bold never closes | escape the backslash too, first, so that escaped text always reads back as itself | not executed | Formatter.BackslashNameBreaksReminder | Formatter.ReminderMarkup |
