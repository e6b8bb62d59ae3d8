/** The habit dashboard (`src/pages/Dashboard.jsx`): the one-hour delete window, the
    study-hours log, a habit's status on the selected date and the section counts, the
    month grid, and drag-and-drop reordering inside one section. */
module Dashboard {
  import opened Wrappers
  import opened Text
  import opened Calendar

  datatype Category = Team | Personal | Study

  /** A habit log; study hours are counted in half-hours (the input steps by 0.5). */
  datatype HabitLog = HabitLog(logDate: Date, completed: bool, halfHours: int)

  /** `created_at` as `new Date(createdAt)` sees it: absent or empty, `null` (which
      `new Date` reads as the epoch), a text that is not a date, or an instant in
      milliseconds since the epoch. */
  datatype CreatedAt = Missing | Null | Unparsable | At(ms: int)

  datatype Habit = Habit(id: int, name: string, category: Category, createdAt: CreatedAt, logs: seq<HabitLog>)

  /** One hour in milliseconds: `hoursSinceCreation` is the elapsed time over this. */
  const HourMs: int := 3_600_000

  /** Milliseconds since creation, or None where JavaScript computes NaN. */
  function Elapsed(createdAt: CreatedAt, nowMs: int): Option<int> {
    match createdAt
    case At(ms) => Some(nowMs - ms)
    case Null => Some(nowMs)
    case _ => None
  }

  /** `canDeleteHabit`: whether the delete button is shown. */
  function CanDeleteHabit(createdAt: CreatedAt, nowMs: int): (r: bool)
    ensures createdAt.Missing? || createdAt.Null? ==> !r
    ensures r <==> exists ms :: createdAt == At(ms) && nowMs - ms <= HourMs
  {
    if createdAt.Missing? || createdAt.Null? then false
    else
      match Elapsed(createdAt, nowMs)
      case Some(e) => e <= HourMs
      case None => false
  }

  datatype DeleteOutcome = Refused | Requested

  /** `deleteHabit`'s guard: refuse when more than an hour has passed, otherwise go on
      to the confirmation and the delete request. A NaN elapsed time is not `> 1`;
      `null` counts from the epoch. */
  function DeleteHabit(createdAt: CreatedAt, nowMs: int): (r: DeleteOutcome)
    ensures r == Refused <==> || (exists ms :: createdAt == At(ms) && nowMs - ms > HourMs)
                              || (createdAt == Null && nowMs > HourMs)
  {
    match Elapsed(createdAt, nowMs)
    case Some(e) => if e > HourMs then Refused else Requested
    case None => Requested
  }

  /** For a present timestamp the guard and the button agree at every instant: the
      request goes out exactly when the button would be shown. */
  lemma DeleteGuardAgreesWithButton(ms: int, nowMs: int)
    ensures DeleteHabit(At(ms), nowMs) == Requested <==> CanDeleteHabit(At(ms), nowMs)
  {
  }

  /** Whenever the button is shown, clicking it at that instant is not refused. */
  lemma ShownButtonIsHonoured(createdAt: CreatedAt, nowMs: int)
    requires CanDeleteHabit(createdAt, nowMs)
    ensures DeleteHabit(createdAt, nowMs) == Requested
  {
  }

  /** Once the window has closed it stays closed. */
  lemma DeleteWindowStaysClosed(createdAt: CreatedAt, nowMs: int, laterMs: int)
    requires nowMs <= laterMs && !CanDeleteHabit(createdAt, nowMs)
    ensures !CanDeleteHabit(createdAt, laterMs)
  {
  }

  /** Whether a habit's row shows the delete button: the Team rows render none, the
      Personal and Study rows render it while `canDeleteHabit` holds. */
  function ShowsDeleteButton(habit: Habit, nowMs: int): (r: bool)
    ensures habit.category == Team ==> !r
    ensures r <==> (habit.category == Personal || habit.category == Study)
                   && exists ms :: habit.createdAt == At(ms) && nowMs - ms <= HourMs
  {
    habit.category != Team && CanDeleteHabit(habit.createdAt, nowMs)
  }

  /** A delete button on the table is never on a Team row, and clicking it at that instant
      is not refused by the guard. */
  lemma ShownRowDeleteIsHonoured(habit: Habit, nowMs: int)
    requires ShowsDeleteButton(habit, nowMs)
    ensures habit.category != Team
    ensures DeleteHabit(habit.createdAt, nowMs) == Requested
  {
  }

  /** The value of the hours field: empty, or a number of half-hours. */
  datatype HoursInput = Blank | Number(halfHours: int)

  /** The body `logStudyHours` posts. */
  datatype StudyLogRequest = StudyLogRequest(completed: bool, halfHours: int)

  /** `logStudyHours`: `completed` is `hours > 0` on the raw field (a blank field is 0)
      and `hours` is `parseFloat(hours) || 0` (a blank field parses to NaN, hence 0). */
  function LogStudyHours(input: HoursInput): (r: StudyLogRequest)
    ensures r.completed <==> r.halfHours > 0
    ensures r.halfHours == if input.Number? then input.halfHours else 0
  {
    var completed := match input
      case Blank => false
      case Number(h) => h > 0;
    var parsed := match input
      case Blank => None
      case Number(h) => Some(h);
    StudyLogRequest(completed, parsed.GetOr(0))
  }

  /** `logs.find(l => l.log_date === date)`: the first log of that date. */
  function FindLog(logs: seq<HabitLog>, date: Date): (r: Option<HabitLog>)
    ensures r.None? <==> forall i :: 0 <= i < |logs| ==> logs[i].logDate != date
    ensures r.Some? ==> exists i :: 0 <= i < |logs| && logs[i] == r.value && logs[i].logDate == date
                          && forall j :: 0 <= j < i ==> logs[j].logDate != date
  {
    if |logs| == 0 then None
    else if logs[0].logDate == date then Some(logs[0])
    else
      var r := FindLog(logs[1..], date);
      if r.Some? then
        assert exists i :: 0 <= i < |logs| && logs[i] == r.value && logs[i].logDate == date
                 && forall j :: 0 <= j < i ==> logs[j].logDate != date by {
          var k :| 0 <= k < |logs[1..]| && logs[1..][k] == r.value && logs[1..][k].logDate == date
                   && forall j :: 0 <= j < k ==> logs[1..][j].logDate != date;
          assert logs[k + 1] == r.value;
          forall j | 0 <= j < k + 1
            ensures logs[j].logDate != date
          {
            if j > 0 { assert logs[j] == logs[1..][j - 1]; }
          }
        }
        r
      else
        assert forall i :: 0 <= i < |logs| ==> logs[i].logDate != date by {
          forall i | 0 <= i < |logs|
            ensures logs[i].logDate != date
          {
            if i > 0 { assert logs[i] == logs[1..][i - 1]; }
          }
        }
        r
  }

  /** `getHabitStatus`: the `completed` flag of the habit's log on the date, false
      when there is none. */
  function HabitStatus(habit: Habit, date: Date): (r: bool)
    ensures r ==> exists i :: 0 <= i < |habit.logs| && habit.logs[i].logDate == date && habit.logs[i].completed
    ensures r <==> exists i :: && 0 <= i < |habit.logs| && habit.logs[i].logDate == date
                              && (forall j :: 0 <= j < i ==> habit.logs[j].logDate != date)
                              && habit.logs[i].completed
  {
    FirstLogDecides(habit.logs, date);
    match FindLog(habit.logs, date)
    case Some(log) => log.completed
    case None => false
  }

  /** The log `find` returns is the first of its date, so any first log of the date is it. */
  lemma FirstLogDecides(logs: seq<HabitLog>, date: Date)
    ensures forall i :: 0 <= i < |logs| && logs[i].logDate == date
                        && (forall j :: 0 <= j < i ==> logs[j].logDate != date)
                        ==> FindLog(logs, date) == Some(logs[i])
  {
    forall i | 0 <= i < |logs| && logs[i].logDate == date && (forall j :: 0 <= j < i ==> logs[j].logDate != date)
      ensures FindLog(logs, date) == Some(logs[i])
    {
      var r := FindLog(logs, date);
      var k :| 0 <= k < |logs| && logs[k] == r.value && logs[k].logDate == date
               && forall j :: 0 <= j < k ==> logs[j].logDate != date;
      assert !(k < i) && !(i < k);
    }
  }

  /** At most one log per date, as the server keeps them. */
  predicate UniqueLogDates(logs: seq<HabitLog>) {
    forall i, j :: 0 <= i < j < |logs| ==> logs[i].logDate != logs[j].logDate
  }

  /** With one log per date, the status is exactly "a completed log exists on that date". */
  lemma HabitStatusWithUniqueLogs(habit: Habit, date: Date)
    requires UniqueLogDates(habit.logs)
    ensures HabitStatus(habit, date)
            <==> exists i :: 0 <= i < |habit.logs| && habit.logs[i].logDate == date && habit.logs[i].completed
  {
    if exists i :: 0 <= i < |habit.logs| && habit.logs[i].logDate == date && habit.logs[i].completed {
      var i :| 0 <= i < |habit.logs| && habit.logs[i].logDate == date && habit.logs[i].completed;
      var r := FindLog(habit.logs, date);
      var k :| 0 <= k < |habit.logs| && habit.logs[k] == r.value && habit.logs[k].logDate == date
               && forall j :: 0 <= j < k ==> habit.logs[j].logDate != date;
      assert k == i;
    }
  }

  /** `habits.filter(h => h.category === category)`. */
  function OfCategory(habits: seq<Habit>, category: Category): (r: seq<Habit>)
    ensures |r| <= |habits|
    ensures forall h :: h in r <==> h in habits && h.category == category
    ensures forall i :: 0 <= i < |r| ==> r[i].category == category
  {
    if |habits| == 0 then []
    else
      var last := habits[|habits| - 1];
      OfCategory(habits[..|habits| - 1], category) + (if last.category == category then [last] else [])
  }

  /** `habits.filter(h => h.category !== category)`. */
  function NotOfCategory(habits: seq<Habit>, category: Category): (r: seq<Habit>)
    ensures |r| <= |habits|
    ensures forall h :: h in r <==> h in habits && h.category != category
    ensures forall i :: 0 <= i < |r| ==> r[i].category != category
  {
    if |habits| == 0 then []
    else
      var last := habits[|habits| - 1];
      NotOfCategory(habits[..|habits| - 1], category) + (if last.category != category then [last] else [])
  }

  /** Splitting by category loses and duplicates nothing. */
  lemma {:induction false} CategorySplit(habits: seq<Habit>, category: Category)
    ensures multiset(NotOfCategory(habits, category)) + multiset(OfCategory(habits, category)) == multiset(habits)
  {
    if |habits| > 0 {
      var init, last := habits[..|habits| - 1], habits[|habits| - 1];
      assert habits == init + [last];
      CategorySplit(init, category);
      var ofInit, notInit := OfCategory(init, category), NotOfCategory(init, category);
      if last.category == category {
        assert OfCategory(habits, category) == ofInit + [last];
        assert NotOfCategory(habits, category) == notInit;
      } else {
        assert OfCategory(habits, category) == ofInit;
        assert NotOfCategory(habits, category) == notInit + [last];
      }
    }
  }

  /** `teamCompleted` / `personalCompleted`: habits of a section done on the date. */
  function CompletedOn(habits: seq<Habit>, date: Date): (r: nat)
    ensures r == |set i | 0 <= i < |habits| && HabitStatus(habits[i], date)|
    ensures r <= |habits|
    ensures r == |habits| <==> forall i :: 0 <= i < |habits| ==> HabitStatus(habits[i], date)
  {
    if |habits| == 0 then 0
    else
      var init, last := habits[..|habits| - 1], habits[|habits| - 1];
      var c := CompletedOn(init, date);
      CountStep(habits, date, c);
      AllDoneStep(habits, date, c);
      c + (if HabitStatus(last, date) then 1 else 0)
  }

  /** One habit more: the done positions gain the last one exactly when it is done. */
  lemma CountStep(habits: seq<Habit>, date: Date, c: nat)
    requires |habits| > 0
    requires var init := habits[..|habits| - 1];
             c == |set i | 0 <= i < |init| && HabitStatus(init[i], date)|
    ensures c + (if HabitStatus(habits[|habits| - 1], date) then 1 else 0)
            == |set i | 0 <= i < |habits| && HabitStatus(habits[i], date)|
  {
    DoneIndicesSnoc(habits, date);
  }

  /** One habit more: all are done exactly when all but the last are and the last is. */
  lemma AllDoneStep(habits: seq<Habit>, date: Date, c: nat)
    requires |habits| > 0
    requires var init := habits[..|habits| - 1];
             c <= |init| && (c == |init| <==> forall i :: 0 <= i < |init| ==> HabitStatus(init[i], date))
    ensures var r := c + (if HabitStatus(habits[|habits| - 1], date) then 1 else 0);
            r <= |habits| && (r == |habits| <==> forall i :: 0 <= i < |habits| ==> HabitStatus(habits[i], date))
  {
    var init := habits[..|habits| - 1];
    assert forall i :: 0 <= i < |init| ==> init[i] == habits[i];
  }

  /** The done positions of a list are those of all but its last habit, plus the last
      position when that habit is done. */
  lemma DoneIndicesSnoc(habits: seq<Habit>, date: Date)
    requires |habits| > 0
    ensures var n := |habits| - 1;
            var before := set i | 0 <= i < n && HabitStatus(habits[..n][i], date);
            var after := set i | 0 <= i < |habits| && HabitStatus(habits[i], date);
            n !in before && after == before + (if HabitStatus(habits[n], date) then {n} else {})
  {
    var n := |habits| - 1;
    assert forall i :: 0 <= i < n ==> habits[..n][i] == habits[i];
  }

  /** The section badge: "Complete" exactly when the section has habits and all are done. */
  function SectionComplete(habits: seq<Habit>, date: Date): (r: bool)
    ensures r <==> |habits| > 0 && forall i :: 0 <= i < |habits| ==> HabitStatus(habits[i], date)
  {
    CompletedOn(habits, date) == |habits| && |habits| > 0
  }

  /** `getDaysInMonth`: the day of `new Date(year, month, 0)`, the day before the first of
      the following month. The constructor reads a year 0..99 as 1900..1999, so such a
      year gets the month lengths of that twentieth-century year. */
  function GetDaysInMonth(ym: CalendarMonth): (r: int)
    ensures 28 <= r <= 31
    ensures var y := ConstructorYear(ym.year);
            var next := NormalizeMonth(ym.year, ym.month);
            FixedDay(y, ym.month, r) + 1 == FixedDay(next.year, next.month, 1)
    ensures 0 <= ym.year <= 99 ==> r == DaysInMonth(1900 + ym.year, ym.month)
  {
    var y := ConstructorYear(ym.year);
    LastDayPrecedesNextMonth(y, ym.month);
    DaysInMonth(y, ym.month)
  }

  /** The `YYYY-MM-DD` text of the grid cell for `day` (the cell index plus one). */
  function CellDate(ym: CalendarMonth, day: int): string {
    Decimal(ym.year) + "-" + PadStart(Decimal(ym.month), 2, '0') + "-" + PadStart(Decimal(day), 2, '0')
  }

  /** The grid's date texts, one per day of the month. */
  function CellDates(ym: CalendarMonth): (r: seq<string>)
    ensures |r| == GetDaysInMonth(ym)
  {
    seq(GetDaysInMonth(ym), i => CellDate(ym, i + 1))
  }

  /** Every cell of a four-digit year is the RFC 3339 full-date of a real day of the month. */
  lemma CellDateIsFullDate(ym: CalendarMonth, day: int)
    requires 1000 <= ym.year <= 9999 && 1 <= day <= GetDaysInMonth(ym)
    ensures IsValidDate(CivilDate(ym.year, ym.month, day))
    ensures CellDate(ym, day) == DateString(CivilDate(ym.year, ym.month, day))
  {
    MonthKeyShape(ym);
    PadTwoDigits(day);
    assert CellDate(ym, day) == MonthKey(ym) + "-" + PadStart(Decimal(day), 2, '0');
  }

  /** Two days of a four-digit year's month: the earlier day's cell text sorts first. */
  lemma CellDateOrder(ym: CalendarMonth, d1: int, d2: int)
    requires 1000 <= ym.year <= 9999
    requires 1 <= d1 < d2 <= GetDaysInMonth(ym)
    ensures LexLe(CellDate(ym, d1), CellDate(ym, d2)) && CellDate(ym, d1) != CellDate(ym, d2)
  {
    CellDateIsFullDate(ym, d1);
    CellDateIsFullDate(ym, d2);
    var a, b := CivilDate(ym.year, ym.month, d1), CivilDate(ym.year, ym.month, d2);
    DateStringOrder(a, b);
    if DateString(a) == DateString(b) {
      DateStringInjective(a, b);
    }
  }

  lemma CellAt(ym: CalendarMonth, i: int)
    requires 0 <= i < GetDaysInMonth(ym)
    ensures CellDates(ym)[i] == CellDate(ym, i + 1)
  {
  }

  /** The grid's cells are strictly increasing as texts. */
  lemma CellDatesAscending(ym: CalendarMonth, i: int, j: int)
    requires 1000 <= ym.year <= 9999
    requires 0 <= i < j < GetDaysInMonth(ym)
    ensures LexLe(CellDates(ym)[i], CellDates(ym)[j]) && CellDates(ym)[i] != CellDates(ym)[j]
  {
    CellAt(ym, i);
    CellAt(ym, j);
    CellDateOrder(ym, i + 1, j + 1);
  }

  /** `findIndex(h => h.id === id)`: the first position with that id, or -1. */
  function FindIndex(s: seq<Habit>, id: int): (r: int)
    ensures -1 <= r < |s|
    ensures r == -1 <==> forall i :: 0 <= i < |s| ==> s[i].id != id
    ensures r >= 0 ==> s[r].id == id && forall j :: 0 <= j < r ==> s[j].id != id
  {
    if |s| == 0 then -1
    else if s[0].id == id then 0
    else
      var r := FindIndex(s[1..], id);
      if r == -1 then
        assert forall i :: 1 <= i < |s| ==> s[i] == s[1..][i - 1];
        -1
      else
        assert forall j :: 1 <= j < r + 1 ==> s[j] == s[1..][j - 1];
        r + 1
  }

  /** Where `splice(start, …)` begins on an array of `len` elements. */
  function SpliceStart(len: nat, start: int): (r: nat)
    ensures r <= len
    ensures 0 <= start <= len ==> r == start
  {
    if start < 0 then (if len + start < 0 then 0 else len + start)
    else if start < len then start else len
  }

  /** `const [removed] = a.splice(start, 1)` on a non-empty array, for a start below the
      length (as every `findIndex` result is): the rest and the removed element. A start
      past the end removes nothing and is not modelled. */
  function SpliceRemove(s: seq<Habit>, start: int): (r: (seq<Habit>, Habit))
    requires |s| > 0 && start < |s|
    ensures |r.0| == |s| - 1
    ensures multiset(r.0) + multiset{r.1} == multiset(s)
    ensures 0 <= start < |s| ==> r.1 == s[start] && r.0 == s[..start] + s[start + 1..]
  {
    var a := SpliceStart(|s|, start);
    assert s == s[..a] + [s[a]] + s[a + 1..];
    (s[..a] + s[a + 1..], s[a])
  }

  /** `a.splice(start, 0, x)`. */
  function SpliceInsert(s: seq<Habit>, start: int, x: Habit): (r: seq<Habit>)
    ensures |r| == |s| + 1
    ensures multiset(r) == multiset(s) + multiset{x}
    ensures 0 <= start <= |s| ==> r[start] == x && r[..start] + r[start + 1..] == s
  {
    var a := SpliceStart(|s|, start);
    assert s == s[..a] + s[a..];
    var r := s[..a] + [x] + s[a..];
    assert r[..a] == s[..a] && r[a + 1..] == s[a..];
    r
  }

  /** The reordering inside one section: take the dragged habit out at its index and
      splice it back in at the target's index. */
  function MoveInSection(section: seq<Habit>, draggedId: int, targetId: int): (r: seq<Habit>)
    requires |section| > 0
    ensures |r| == |section|
    ensures multiset(r) == multiset(section)
    ensures var from, to := FindIndex(section, draggedId), FindIndex(section, targetId);
            from >= 0 && to >= 0 ==>
              && r[to] == section[from]
              && r[..to] + r[to + 1..] == section[..from] + section[from + 1..]
  {
    var (rest, removed) := SpliceRemove(section, FindIndex(section, draggedId));
    SpliceInsert(rest, FindIndex(section, targetId), removed)
  }

  /** The rows that carry the drag handlers: the Personal and Study rows, not the Team rows. */
  predicate Draggable(habit: Habit) {
    habit.category != Team
  }

  /** What a drop does: nothing (no drag, or dropped on itself), an alert for another
      section, or the reordered list. */
  datatype DropOutcome = Ignored | WrongSection | Reordered(habits: seq<Habit>)

  /** `handleDrop`: the dragged habit's section reordered by `MoveInSection`, placed after
      the other sections. The target row is one of the rendered habits. */
  function HandleDrop(habits: seq<Habit>, dragged: Option<Habit>, target: Habit): (r: DropOutcome)
    requires target in habits
    ensures (dragged.None? || dragged.value.id == target.id) <==> r.Ignored?
    ensures r.WrongSection? <==> dragged.Some? && dragged.value.id != target.id
                                 && dragged.value.category != target.category
    ensures r.Reordered? ==> multiset(r.habits) == multiset(habits)
  {
    if dragged.None? || dragged.value.id == target.id then Ignored
    else if dragged.value.category != target.category then WrongSection
    else
      var category := dragged.value.category;
      var section := OfCategory(habits, category);
      assert target in section;
      CategorySplit(habits, category);
      Reordered(NotOfCategory(habits, category) + MoveInSection(section, dragged.value.id, target.id))
  }

  /** After a drop the other sections come first, in their original order, followed by
      the dragged section; inside it the dragged habit sits at the target's former index
      and the remaining habits of the section keep their order. */
  lemma DropMovesWithinSection(habits: seq<Habit>, dragged: Habit, target: Habit)
    requires target in habits && dragged in habits
    requires dragged.id != target.id && dragged.category == target.category
    ensures var r := HandleDrop(habits, Some(dragged), target);
            var section := OfCategory(habits, dragged.category);
            var others := NotOfCategory(habits, dragged.category);
            var from, to := FindIndex(section, dragged.id), FindIndex(section, target.id);
            var moved := r.habits[|others|..];
            && r.Reordered?
            && 0 <= from < |section| && 0 <= to < |section|
            && r.habits[..|others|] == others
            && |moved| == |section|
            && (forall i :: 0 <= i < |moved| ==> moved[i].category == dragged.category)
            && moved[to] == section[from]
            && moved[..to] + moved[to + 1..] == section[..from] + section[from + 1..]
  {
    var category := dragged.category;
    var section := OfCategory(habits, category);
    var others := NotOfCategory(habits, category);
    assert dragged in section && target in section;
    var moved := MoveInSection(section, dragged.id, target.id);
    assert HandleDrop(habits, Some(dragged), target).habits == others + moved;
    assert (others + moved)[|others|..] == moved;
    assert (others + moved)[..|others|] == others;
    SameCategory(section, moved, category);
  }

  /** A rearrangement of one section holds only habits of that section. */
  lemma SameCategory(section: seq<Habit>, moved: seq<Habit>, category: Category)
    requires forall i :: 0 <= i < |section| ==> section[i].category == category
    requires multiset(moved) == multiset(section)
    ensures forall i :: 0 <= i < |moved| ==> moved[i].category == category
  {
    forall i | 0 <= i < |moved|
      ensures moved[i].category == category
    {
      assert moved[i] in multiset(section);
    }
  }

  /** A drop leaves every other section as it was, in order. Since only Personal and Study
      rows can be dragged, the Team section never changes. */
  lemma DropKeepsOtherSections(habits: seq<Habit>, dragged: Habit, target: Habit, category: Category)
    requires target in habits
    requires category != dragged.category
    ensures var r := HandleDrop(habits, Some(dragged), target);
            r.Reordered? ==> OfCategory(r.habits, category) == OfCategory(habits, category)
  {
    var r := HandleDrop(habits, Some(dragged), target);
    if r.Reordered? {
      var section := OfCategory(habits, dragged.category);
      var others := NotOfCategory(habits, dragged.category);
      assert target in section;
      var moved := MoveInSection(section, dragged.id, target.id);
      assert r.habits == others + moved;
      OfCategoryAppend(others, moved, category);
      SameCategory(section, moved, dragged.category);
      OfCategoryNone(moved, category);
      OfCategoryOfOthers(habits, dragged.category, category);
    }
  }

  /** A dragged row is never a Team row, so a drop never reorders the Team section. */
  lemma TeamSectionStaysPut(habits: seq<Habit>, dragged: Habit, target: Habit)
    requires target in habits && Draggable(dragged)
    ensures var r := HandleDrop(habits, Some(dragged), target);
            r.Reordered? ==> OfCategory(r.habits, Team) == OfCategory(habits, Team)
  {
    DropKeepsOtherSections(habits, dragged, target, Team);
  }

  lemma {:induction false} OfCategoryAppend(a: seq<Habit>, b: seq<Habit>, category: Category)
    ensures OfCategory(a + b, category) == OfCategory(a, category) + OfCategory(b, category)
  {
    if |b| == 0 {
      assert a + b == a;
    } else {
      var init := b[..|b| - 1];
      assert (a + b)[..|a + b| - 1] == a + init;
      assert (a + b)[|a + b| - 1] == b[|b| - 1];
      OfCategoryAppend(a, init, category);
    }
  }

  lemma {:induction false} OfCategoryNone(s: seq<Habit>, category: Category)
    requires forall i :: 0 <= i < |s| ==> s[i].category != category
    ensures OfCategory(s, category) == []
  {
    if |s| > 0 {
      OfCategoryNone(s[..|s| - 1], category);
    }
  }

  /** Filtering out one category keeps the sections of every other category. */
  lemma {:induction false} OfCategoryOfOthers(habits: seq<Habit>, removed: Category, category: Category)
    requires removed != category
    ensures OfCategory(NotOfCategory(habits, removed), category) == OfCategory(habits, category)
  {
    if |habits| > 0 {
      var init, last := habits[..|habits| - 1], habits[|habits| - 1];
      OfCategoryOfOthers(init, removed, category);
      var rest := NotOfCategory(init, removed);
      var tail := if last.category == category then [last] else [];
      assert OfCategory(habits, category) == OfCategory(init, category) + tail;
      if last.category != removed {
        assert NotOfCategory(habits, removed) == rest + [last];
        assert (rest + [last])[..|rest|] == rest;
        assert OfCategory(rest + [last], category) == OfCategory(rest, category) + tail;
      } else {
        assert NotOfCategory(habits, removed) == rest;
      }
    }
  }
}
