# Habit King front end: the client-side rules, in Dafny

Habit King is a gamified habit tracker. Users log daily habits, study hours and to-dos, and each group crowns a
monthly champion. Streaks, monthly totals and the champion are computed on the server.
The React front end only fetches and displays them. Inside its page components, though, it computes a
set of small rules of its own, and this project models and proves those rules:

- **To-do page** (`src/pages/ToDoList.jsx`): the selected month's to-dos and their productivity,
  kept as a percentage with one decimal. Also the bonus tier it earns (85% → 20, 75% → 15, 65% → 10,
  50% → 5), the advice towards the next tier, and the checkbox toggle with its tier-up notice.
- **Habit dashboard** (`src/pages/Dashboard.jsx`):
  - the one-hour delete window and the delete guard;
  - the `completed` flag of a study-hours log;
  - a habit's status on the selected date, with the per-section counts and the "Complete" badge;
  - the number of days in the month and the calendar's date cells;
  - drag-and-drop reordering inside one section.
- **Friend's to-do list** (`src/pages/FriendTodos.jsx`): the month's to-dos sorted by date, grouped by date,
  the sorted group dates, and the rounded completion percentage.
- **Hall of fame** (`src/pages/HallOfFame.jsx`):
  - whether opening the page celebrates the latest champion (this month or last month);
  - at most once per group and month per browser session;
  - whether the viewer is that champion.

Everything is a pure function over immutable records:
- "Now" is a parameter.
- Session storage is a set of keys.
- Percentages and times are integers: tenths of a percent, whole percents, milliseconds and half-hours.

The modules follow the pages:
- `Text`: decimal text, `padStart`, and the string order of `Array.prototype.sort`.
- `Calendar`: the proleptic Gregorian calendar of JavaScript's `Date`, plus the `YYYY-MM` and `YYYY-MM-DD`
  texts. These are the month keys and full-dates of sections 5.6 and 5.7 of RFC 3339. It includes the `Date`
  constructor's reading of a year 0..99 as 1900..1999 (section 21.4.2.1 of ECMAScript 2023).
- `Todos`: the shared to-do record, the reference month selection and half-up rounding.
- `TodoList`, `Dashboard`, `FriendTodos`, `HallOfFame`: one module per page.
- `Wrappers`: an `Option` type.

Dates in the records are structured values with four-digit years. Their text is derived. The month filters
work on text, as the pages do, and are proved equal to a filter on the structured date. The text sorts are
likewise proved equal to chronological order.

Two page rules worth stating plainly:
- Only the Personal and Study rows carry a delete button and drag handlers; the Team rows have neither.
  The button is shown for one hour after creation, with no other exception such as an early-month grace
  period. The `deleteHabit` guard itself checks only the hour, whatever the habit's section.
- The bonus tier is decided on the productivity already rounded to one decimal. So 84.95% and above
  earns +20.

## Model

| member | source | states |
|---|---|---|
| `TodoList.MonthTodos` | src/pages/ToDoList.jsx:33-41 | Filtering by `task_date.substring(0, 7)` against the zero-padded `YYYY-MM` selects exactly the to-dos dated in that month, in list order. This holds for any year, including those whose key matches no date text. |
| `Calendar.MonthKeyPrefix` | src/pages/ToDoList.jsx:34-39 | A date text's first seven characters equal the month key, and likewise the key is a prefix of the text, exactly when the date lies in that month. |
| `TodoList.Productivity` | src/pages/ToDoList.jsx:43-49 | The month's productivity in tenths of a percent is completed/total rounded half up, 0 for an empty month, and never above 100.0%. |
| `Todos.RoundRatio` | src/pages/ToDoList.jsx:48 | The rounded ratio r satisfies 2·whole·r ≤ 2·scale·part + whole < 2·whole·(r+1), is 0 for an empty whole and is at most the scale. |
| `Todos.RoundRatioMonotone` | src/pages/ToDoList.jsx:48 | More completed tasks of the same total never give a lower rounded percentage. |
| `Todos.RoundRatioExtremes` | src/pages/FriendTodos.jsx:78 | No completed task gives 0 and all tasks completed give the full 100%. |
| `TodoList.Bonus` | src/pages/ToDoList.jsx:51-59 | The bonus equals the best single tier whose floor the productivity reaches, read off the tier table, so tiers never add up. It is one of 0, 5, 10, 15 and 20. |
| `TodoList.BonusMonotone` | src/pages/ToDoList.jsx:51-59 | A higher productivity never earns fewer points. |
| `TodoList.NextLevelOf` | src/pages/ToDoList.jsx:61-89 | "Maximum" holds exactly when productivity is at least 85%. Otherwise: the next floor is the smallest of 50/65/75/85 strictly above the productivity; its points are the bonus at that floor; `tasksNeeded` is the least k with completed + k ≥ floor·total/100; that k is at least 1 and never more than the open tasks. |
| `TodoList.NextLevelInfo` | src/pages/ToDoList.jsx:61-64 | The advice is computed from the month's productivity, its size and its completed count. |
| `TodoList.CeilDiv` | src/pages/ToDoList.jsx:85 | `Math.ceil(a / b)` is the least r with a ≤ b·r. |
| `TodoList.ToggleTodo` | src/pages/ToDoList.jsx:127-129 | The list keeps its length; to-dos with the given id get `completed = !currentStatus` and all other entries are unchanged. |
| `TodoList.ToggleTodoRestores` | src/pages/ToDoList.jsx:127-129 | Toggling back with the status just set restores the original list. |
| `TodoList.ToggleKeepsMonthSize` | src/pages/ToDoList.jsx:127-129 | A toggle never changes how many to-dos the month has. |
| `TodoList.ToggleMovesCountOneWay` | src/pages/ToDoList.jsx:123-129 | Completing never lowers the month's completed count, and unchecking never raises it. |
| `TodoList.ToggleMovesBonusOneWay` | src/pages/ToDoList.jsx:121-134 | Completing never lowers the month's bonus, and unchecking never raises it. |
| `TodoList.ToggleAsWritten` | src/pages/ToDoList.jsx:118-137 | The handler as written updates the list but never produces a tier-up notice: its later bonus reading sees the pre-update list. |
| `TodoList.ToggleTodoWithNotice` | src/pages/ToDoList.jsx:132-137 | The corrected handler notifies exactly when a completion raised the bonus, and the notice carries the new bonus, one of 5/10/15/20. |
| `TodoList.NoticeLostExample` | src/pages/ToDoList.jsx:133-137 | For one open task in May 2024, checking it gives no notice as written, but a +20 notice when corrected. |
| `Dashboard.CanDeleteHabit` | src/pages/Dashboard.jsx:176-183 | `canDeleteHabit` is false for a missing, empty or `null` timestamp. Otherwise it holds exactly when at most one hour (3 600 000 ms, inclusive) has passed since a parsable creation time. |
| `Dashboard.ShowsDeleteButton` | src/pages/Dashboard.jsx:497-607 | A Team row never shows the delete button. A Personal or Study row shows it exactly when at most one hour has passed since a parsable creation time. |
| `Dashboard.ShownRowDeleteIsHonoured` | src/pages/Dashboard.jsx:543-551 | A delete button on the table is never on a Team row, and clicking it at that instant is not refused by the guard. |
| `Dashboard.DeleteHabit` | src/pages/Dashboard.jsx:90-98 | The guard refuses exactly when a parsable creation time lies more than one hour back, or the time is `null` (read as the epoch) and more than one hour has passed since the epoch. A missing or unparsable time gives NaN and is not refused. |
| `Dashboard.DeleteGuardAgreesWithButton` | src/pages/Dashboard.jsx:90-98 | For any present timestamp, the delete request goes out exactly when the button would be shown. |
| `Dashboard.ShownButtonIsHonoured` | src/pages/Dashboard.jsx:95 | Whenever the button is shown, the guard at that instant lets the deletion through. |
| `Dashboard.DeleteWindowStaysClosed` | src/pages/Dashboard.jsx:176-183 | Once the delete window has closed it never reopens later. |
| `Dashboard.LogStudyHours` | src/pages/Dashboard.jsx:136-145 | The posted log is completed exactly when the posted hours are positive. A blank field posts 0 hours; a number posts itself. |
| `Dashboard.FindLog` | src/pages/Dashboard.jsx:156 | The lookup finds nothing exactly when no log has the date. Otherwise it returns the first log with that date. |
| `Dashboard.HabitStatus` | src/pages/Dashboard.jsx:155-158 | For any log list, duplicates included, a habit is done on a date exactly when the first log of that date says completed. |
| `Dashboard.HabitStatusWithUniqueLogs` | src/pages/Dashboard.jsx:155-158 | With one log per date, the status is exactly "a completed log exists on that date". |
| `Dashboard.OfCategory` | src/pages/Dashboard.jsx:224-226 | A section holds exactly the habits of its category. |
| `Dashboard.CategorySplit` | src/pages/Dashboard.jsx:210-211 | The section and the other habits together are the whole list, as a multiset. |
| `Dashboard.CompletedOn` | src/pages/Dashboard.jsx:228-229 | The displayed count is the number of positions in the section whose habit is done on the date. It is at most the section size, and equals it exactly when every habit of the section is done. |
| `Dashboard.SectionComplete` | src/pages/Dashboard.jsx:328 | "Complete" shows exactly when the section has habits and all of them are done. |
| `Dashboard.GetDaysInMonth` | src/pages/Dashboard.jsx:170-174 | The day count is 28 to 31, and it is the day before the first of the following month, measured by an independent day-number formula. A year 0..99 gets the month length of 1900..1999, as the `Date` constructor reads it. |
| `Calendar.DaysInMonth` | src/pages/Dashboard.jsx:173 | Months have 28 to 31 days; only February has fewer than 30; February has 29 exactly in leap years. |
| `Calendar.LastDayPrecedesNextMonth` | src/pages/Dashboard.jsx:173 | The last day of each month is immediately followed by the first day of the next month, including December into January. |
| `Dashboard.CellDates` | src/pages/Dashboard.jsx:474-478 | The calendar has one cell per day of the month. |
| `Dashboard.CellDateIsFullDate` | src/pages/Dashboard.jsx:474-478 | For four-digit years each cell text is the zero-padded `YYYY-MM-DD` full-date of a real day of that month. |
| `Dashboard.CellDatesAscending` | src/pages/Dashboard.jsx:474-478 | Cell texts are strictly increasing from day to day. |
| `Dashboard.FindIndex` | src/pages/Dashboard.jsx:213-214 | `findIndex` gives -1 exactly when no habit has the id. Otherwise it gives the first position with that id. |
| `Dashboard.SpliceRemove` | src/pages/Dashboard.jsx:217 | For every start `findIndex` can return (−1 up to length−1), removing one element keeps every other element: the rest plus the removed one is the original multiset. A non-negative start removes exactly that element. |
| `Dashboard.SpliceInsert` | src/pages/Dashboard.jsx:218 | Inserting adds exactly the element. At an in-range index it lands there, and removing it gives back the array. |
| `Dashboard.MoveInSection` | src/pages/Dashboard.jsx:213-218 | The reordered section has the section's length and is a permutation of it. The dragged habit lands at the target's index, and the other habits keep their relative order. |
| `Dashboard.HandleDrop` | src/pages/Dashboard.jsx:195-222 | A drop with nothing dragged, or onto itself, is ignored. A drop across sections is refused. Any reordering is a permutation of the habit list. |
| `Dashboard.DropMovesWithinSection` | src/pages/Dashboard.jsx:210-220 | After a drop, the other sections come first in their original order. The dragged section follows, with the dragged habit at the target's former index and the rest in their original order. |
| `Dashboard.DropKeepsOtherSections` | src/pages/Dashboard.jsx:210-220 | A drop leaves each section other than the dragged habit's exactly as it was, in order. |
| `Dashboard.TeamSectionStaysPut` | src/pages/Dashboard.jsx:497-537 | Only Personal and Study rows can be dragged, so a drop never changes the Team section. |
| `FriendTodos.FilterMonth` | src/pages/FriendTodos.jsx:46-52 | `startsWith` on the month key selects exactly the month's to-dos, in list order. |
| `FriendTodos.SortByDate` | src/pages/FriendTodos.jsx:53 | The sort returns a permutation of its input, in chronological order. |
| `FriendTodos.SortByDateStable` | src/pages/FriendTodos.jsx:53 | The sort is stable: the to-dos of each date keep their original relative order. |
| `FriendTodos.MonthTodos` | src/pages/FriendTodos.jsx:46-54 | The month list is sorted by date, holds exactly the month's to-dos, and is a permutation of the month selection. |
| `FriendTodos.MonthTodosKeepDateOrder` | src/pages/FriendTodos.jsx:51-53 | Within each date, the month list keeps the server's order. |
| `FriendTodos.AddToGroupsEffect` | src/pages/FriendTodos.jsx:58-63 | Adding a to-do appends it to the group of its date, or adds a new group at the end; no other group changes. |
| `FriendTodos.GroupTodosByDateSpec` | src/pages/FriendTodos.jsx:56-65 | Group dates are distinct. Each group is non-empty and holds exactly its date's to-dos in list order. Every to-do has a group, and the group sizes add up to the input length. |
| `FriendTodos.EachTodoInOneGroup` | src/pages/FriendTodos.jsx:56-65 | Every to-do lies in exactly one group, the one keyed by its own date. |
| `FriendTodos.SortTexts` | src/pages/FriendTodos.jsx:74 | The string sort returns a permutation of its input. When the texts are distinct, as an object's keys are, the result is strictly ascending in string order. |
| `FriendTodos.SortedDatesSpec` | src/pages/FriendTodos.jsx:74 | The sorted dates are strictly ascending without duplicates, and they are exactly the dates of the month's to-dos. |
| `FriendTodos.SortedDatesChronological` | src/pages/FriendTodos.jsx:74 | Every sorted date text reads back as a real date, strictly earlier than each text after it. |
| `Calendar.DateStringOrder` | src/pages/FriendTodos.jsx:74 | Comparing `YYYY-MM-DD` texts as strings gives chronological order. |
| `Calendar.DateStringRoundTrip` | src/pages/FriendTodos.jsx:74 | A date text reads back as the date it was written from. |
| `FriendTodos.Productivity` | src/pages/FriendTodos.jsx:76-78 | The percentage is at most 100. It is 0 for an empty month or when nothing is done, and 100 when everything is. |
| `FriendTodos.ProductivityOfMonth` | src/pages/FriendTodos.jsx:72-78 | The percentage is the rounded completed/total ratio of the month's selection; sorting does not change it. |
| `HallOfFame.LastMonth` | src/pages/HallOfFame.jsx:55-57 | The previous month is one month index back. January wraps to December of the previous year; other months step back within the year. For a year 0..99 it is the month before the same month of 1900..1999. |
| `Calendar.NormalizeMonth` | src/pages/HallOfFame.jsx:56 | `new Date(year, month0, 1)` with an out-of-range 0-based month lands on month index 12·year + month0. A year 0..99 is first read as 1900..1999. |
| `HallOfFame.MonthKeysReadBack` | src/pages/HallOfFame.jsx:47-57 | For four-digit years, the current and previous month keys are seven-character `YYYY-MM` texts that read back as their months. |
| `Calendar.MonthKeyRoundTrip` | src/pages/HallOfFame.jsx:104-106 | Splitting a `YYYY-MM` key and reading both parts gives back the month it names. |
| `HallOfFame.CheckForCelebration` | src/pages/HallOfFame.jsx:44-71 | A missing or empty champion list changes nothing. Otherwise it celebrates exactly when the latest champion's month is this month or last month and its session key is absent. Celebrating adds that key, and nothing else changes. |
| `HallOfFame.CheckIsIdempotent` | src/pages/HallOfFame.jsx:62-68 | Repeating the check with the session it left behind celebrates nothing and changes nothing. |
| `HallOfFame.CelebrationKeyInjective` | src/pages/HallOfFame.jsx:62 | For `YYYY-MM` months, the session key determines both the group and the month. |
| `HallOfFame.CelebratedMonthIsRecent` | src/pages/HallOfFame.jsx:51-60 | A celebrated champion's month is a real month, either the current one or the one before. |
| `HallOfFame.SessionRecords` | src/pages/HallOfFame.jsx:62-67 | Over a run of page visits, every celebration's key ends up in the session. The session gains no other keys. |
| `HallOfFame.CelebrateAtMostOnce` | src/pages/HallOfFame.jsx:59-70 | Within one session, two visits that both celebrate have different keys: at most one celebration per group and month. |
| `HallOfFame.LatestChampion` | src/pages/HallOfFame.jsx:144 | The latest champion exists exactly when the list is non-empty, and it is the first entry. |
| `HallOfFame.IsUserTheWinner` | src/pages/HallOfFame.jsx:143-145 | The viewer is the winner exactly when signed in, a latest champion exists, and the ids agree. |

## Left out

- HTTP calls, tokens, `localStorage`, React state and rendering. Inputs are already-fetched record sequences, and the current time and month are parameters.
- The server's scoring engine: streaks, monthly totals and champion selection. The pages only display its values.
- Toast messages, alert and confirm dialogs, message texts, confetti and the `setTimeout` delay are not modelled. The confirmation after the delete guard is outside the model; `Dashboard.DeleteHabit` stops at "request".
- Locale formatting (`toLocaleDateString`) and time zones. The month and day are taken as given; which clock produces them is not modelled.
- Floating point. Percentages are exact integers rounded half up. `toFixed(1)` on a binary double can round a ratio that lies exactly on .x5 the other way.
- TodoList.Productivity: computed in exact rational arithmetic, not IEEE doubles; see above.
- FriendTodos.Productivity: computed in exact rational arithmetic, not IEEE doubles; see above.
- Dashboard.LogStudyHours: hours are whole half-hours (the field's `step="0.5"`). Other decimals the number field also accepts, such as 0.3, are not modelled.
- Dates outside years 1000 to 9999. Date records carry four-digit years, the form of the `task_date` and `log_date` texts the server sends. The selected month may lie in any year, including the years 0..99 that the `Date` constructor reads as 1900..1999. Its keys are still computed, and they match no date.
- Dashboard.SpliceRemove: a start past the end of the array, where `splice` removes nothing, is not modelled; `findIndex` never returns one.
- Dashboard.HandleDrop: assumes the target row is one of the listed habits, as every rendered row is. A stale dragged habit that is no longer listed is handled with JavaScript's `findIndex`/`splice` semantics.
- `src/pages/FriendDashboard.jsx` repeats the habit dashboard's read-only rules for a friend's habits. These are the month length (lines 46-50), the split by category (lines 54-56), the cell dates, and each cell's `logs.find` lookup. `Dashboard.GetDaysInMonth`, `Dashboard.OfCategory`, `Dashboard.CellDates` and `Dashboard.HabitStatus` model them; the page has no rules of its own beyond these.
- Rules page prose, and the other pages (Friends, Settings, Leaderboard, payments, routing): these contain no client-side rules beyond fetching and display.
- HallOfFame.LatestChampion: takes the champion list as present. When the response has no `champions`, the render's unguarded `champions.length` (src/pages/HallOfFame.jsx:143-144) throws. That crash is not modelled; only `checkForCelebration`, which guards the case, takes an optional list.

## Findings

| source | as written | input that shows it | evidently intended | confidence | as-written member | corrected member |
|---|---|---|---|---|---|---|
| src/pages/ToDoList.jsx:132-137 | The timer callback calls the `getProductivityBonus` of the render that created the handler. That function reads the pre-update `todos`, so the new bonus always equals the old one and the tier-up notice never appears. | One open task dated 2024-05-10, month May 2024, checked: productivity goes from 0% to 100%, but no notice (`TodoList.NoticeLostExample`). | Compare the bonus of the updated list with the old bonus, and notify on a rise while completing. | not executed | `TodoList.ToggleAsWritten` | `TodoList.ToggleTodoWithNotice` |
