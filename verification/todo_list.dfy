/** The to-do page (`src/pages/ToDoList.jsx`): the selected month's list, its
    productivity, the bonus tier it earns, the advice towards the next tier, and the
    checkbox toggle with its tier-up notice. */
module TodoList {
  import opened Wrappers
  import opened Calendar
  import opened Todos

  /** `getMonthTodos`: the to-dos whose `task_date.substring(0, 7)` equals the
      selected `YYYY-MM`, in list order. */
  function MonthTodos(todos: seq<Todo>, ym: CalendarMonth): (r: seq<Todo>)
    ensures r == SelectMonth(todos, ym)
  {
    if |todos| == 0 then []
    else
      var last := todos[|todos| - 1];
      MonthKeyPrefix(last.taskDate, ym);
      MonthTodos(todos[..|todos| - 1], ym) + (if Key(last)[..7] == MonthKey(ym) then [last] else [])
  }

  /** `calculateProductivity` in tenths of a percent: completed over total times 100,
      to one decimal (`toFixed(1)`, halves upward), and 0 for an empty month. */
  function Productivity(todos: seq<Todo>, ym: CalendarMonth): (r: nat)
    ensures r <= 1000
    ensures r == RoundRatio(CompletedCount(SelectMonth(todos, ym)), |SelectMonth(todos, ym)|, 1000)
  {
    var m := MonthTodos(todos, ym);
    RoundRatio(CompletedCount(m), |m|, 1000)
  }

  /** A bonus tier: its floor in tenths of a percent and the points it awards. */
  datatype Tier = Tier(floor: int, points: int)

  const Tiers: seq<Tier> := [Tier(850, 20), Tier(750, 15), Tier(650, 10), Tier(500, 5)]

  function Max(a: int, b: int): int {
    if a < b then b else a
  }

  /** Reading of the tier table: the most points of any one tier whose floor is
      reached, none when no floor is. One tier, never a sum of tiers. */
  function BestTier(tiers: seq<Tier>, p: int): int {
    if |tiers| == 0 then 0
    else Max(if tiers[0].floor <= p then tiers[0].points else 0, BestTier(tiers[1..], p))
  }

  lemma BestTierOfTiers(p: int)
    ensures BestTier(Tiers, p)
            == if p >= 850 then 20 else if p >= 750 then 15 else if p >= 650 then 10 else if p >= 500 then 5 else 0
  {
    assert Tiers[1..][1..][1..][1..] == [];
    assert BestTier(Tiers[1..][1..][1..], p) == if p >= 500 then 5 else 0;
    assert BestTier(Tiers[1..][1..], p) == if p >= 650 then 10 else if p >= 500 then 5 else 0;
  }

  /** `getProductivityBonus` for a productivity `p` in tenths of a percent. */
  function Bonus(p: int): (r: int)
    ensures r == BestTier(Tiers, p)
    ensures r == 0 || r == 5 || r == 10 || r == 15 || r == 20
  {
    BestTierOfTiers(p);
    if p >= 850 then 20
    else if p >= 750 then 15
    else if p >= 650 then 10
    else if p >= 500 then 5
    else 0
  }

  /** A higher productivity never earns fewer points. */
  lemma BonusMonotone(p: int, q: int)
    requires p <= q
    ensures Bonus(p) <= Bonus(q)
  {
  }

  /** The bonus the page shows for a month. */
  function MonthBonus(todos: seq<Todo>, ym: CalendarMonth): int {
    Bonus(Productivity(todos, ym))
  }

  /** The floors of the four tiers, in percent. */
  const Floors: seq<int> := [50, 65, 75, 85]

  /** `getNextLevelInfo`: either the maximum tier is held, or the next floor to reach,
      its points, and how many more tasks of the month must be completed. */
  datatype NextLevel = MaximumReached | Reach(threshold: int, points: int, tasksNeeded: int)

  /** `Math.ceil(a / b)` for a positive divisor. */
  function CeilDiv(a: int, b: int): (r: int)
    requires b > 0
    ensures b * (r - 1) < a <= b * r
  {
    -((-a) / b)
  }

  /** The advice for productivity `p` (tenths of a percent) of a month with `c` of `n`
      tasks completed. */
  function NextLevelOf(p: nat, n: nat, c: nat): (r: NextLevel)
    requires c <= n && p == RoundRatio(c, n, 1000)
    ensures r.MaximumReached? <==> p >= 850
    ensures r.Reach? ==>
              && r.threshold in Floors
              && p < 10 * r.threshold
              && (forall f :: f in Floors && p < 10 * f ==> r.threshold <= f)
              && r.points == Bonus(10 * r.threshold)
    ensures r.Reach? ==>
              && r.threshold * n <= 100 * (c + r.tasksNeeded)
              && 100 * (c + r.tasksNeeded - 1) < r.threshold * n
              && c + r.tasksNeeded <= n
              && (n > 0 ==> r.tasksNeeded >= 1)
  {
    if p >= 850 then MaximumReached
    else
      var threshold := if p >= 750 then 85 else if p >= 650 then 75 else if p >= 500 then 65 else 50;
      var points := if p >= 750 then 20 else if p >= 650 then 15 else if p >= 500 then 10 else 5;
      var k := CeilDiv(threshold * n - 100 * c, 100);
      TasksNeededBounds(threshold, n, c, p, k);
      Reach(threshold, points, k)
  }

  /** `getNextLevelInfo` for the selected month. */
  function NextLevelInfo(todos: seq<Todo>, ym: CalendarMonth): (r: NextLevel)
    ensures var m := SelectMonth(todos, ym);
            r == NextLevelOf(Productivity(todos, ym), |m|, CompletedCount(m))
  {
    var m := MonthTodos(todos, ym);
    NextLevelOf(Productivity(todos, ym), |m|, CompletedCount(m))
  }

  /** Below a floor `t`, the tasks still needed are at least one (for a non-empty
      month) and never more than the tasks left open. */
  lemma TasksNeededBounds(t: int, n: nat, c: nat, p: nat, k: int)
    requires 0 < t <= 100 && c <= n
    requires p == RoundRatio(c, n, 1000)
    requires p < 10 * t
    requires 100 * (k - 1) < t * n - 100 * c <= 100 * k
    ensures c + k <= n
    ensures n > 0 ==> k >= 1
  {
    MulMonotone(n, t, 100);
    if n > 0 {
      MulMonotone(2 * n, p + 1, 10 * t);
    }
  }

  /** `toggleTodo`'s list update: every to-do carrying `id` gets `completed = !currentStatus`. */
  function ToggleTodo(todos: seq<Todo>, id: int, currentStatus: bool): (r: seq<Todo>)
    ensures |r| == |todos|
    ensures forall i :: 0 <= i < |todos| && todos[i].id != id ==> r[i] == todos[i]
    ensures forall i :: 0 <= i < |todos| && todos[i].id == id ==>
              r[i] == todos[i].(completed := !currentStatus)
  {
    if |todos| == 0 then []
    else
      var last := todos[|todos| - 1];
      ToggleTodo(todos[..|todos| - 1], id, currentStatus)
        + [if last.id == id then last.(completed := !currentStatus) else last]
  }

  /** Toggling back with the status just set restores the list, when the checkbox
      passed the stored status of every to-do with that id. */
  lemma ToggleTodoRestores(todos: seq<Todo>, id: int, currentStatus: bool)
    requires forall i :: 0 <= i < |todos| && todos[i].id == id ==> todos[i].completed == currentStatus
    ensures ToggleTodo(ToggleTodo(todos, id, currentStatus), id, !currentStatus) == todos
  {
    var once := ToggleTodo(todos, id, currentStatus);
    var twice := ToggleTodo(once, id, !currentStatus);
    assert forall i :: 0 <= i < |todos| ==> twice[i] == todos[i];
  }

  /** A toggle keeps the month's to-dos: same number, same dates. */
  lemma {:induction false} ToggleKeepsMonthSize(todos: seq<Todo>, ym: CalendarMonth, id: int, currentStatus: bool)
    ensures |SelectMonth(ToggleTodo(todos, id, currentStatus), ym)| == |SelectMonth(todos, ym)|
  {
    if |todos| > 0 {
      var init, last := todos[..|todos| - 1], todos[|todos| - 1];
      var last' := if last.id == id then last.(completed := !currentStatus) else last;
      var toggledInit := ToggleTodo(init, id, currentStatus);
      assert todos == init + [last];
      assert ToggleTodo(todos, id, currentStatus) == toggledInit + [last'];
      ToggleKeepsMonthSize(init, ym, id, currentStatus);
      SelectMonthSnoc(init, last, ym);
      SelectMonthSnoc(toggledInit, last', ym);
    }
  }

  /** Completing can only add completed to-dos to the month; unchecking can only remove them. */
  lemma {:induction false} ToggleMovesCountOneWay(todos: seq<Todo>, ym: CalendarMonth, id: int, currentStatus: bool)
    ensures var before := CompletedCount(SelectMonth(todos, ym));
            var after := CompletedCount(SelectMonth(ToggleTodo(todos, id, currentStatus), ym));
            if currentStatus then after <= before else before <= after
  {
    if |todos| > 0 {
      var init, last := todos[..|todos| - 1], todos[|todos| - 1];
      assert todos == init + [last];
      ToggleMovesCountOneWay(init, ym, id, currentStatus);
      MonthCountSnoc(init, last, ym);
      ToggleCountSnoc(init, last, ym, id, currentStatus);
    }
  }

  /** The month's completed count after toggling a list with one more to-do at the end. */
  lemma ToggleCountSnoc(init: seq<Todo>, last: Todo, ym: CalendarMonth, id: int, currentStatus: bool)
    ensures var last' := if last.id == id then last.(completed := !currentStatus) else last;
            CompletedCount(SelectMonth(ToggleTodo(init + [last], id, currentStatus), ym))
            == CompletedCount(SelectMonth(ToggleTodo(init, id, currentStatus), ym))
               + (if InMonth(last.taskDate, ym) && last'.completed then 1 else 0)
  {
    var todos := init + [last];
    var last' := if last.id == id then last.(completed := !currentStatus) else last;
    assert todos[..|todos| - 1] == init;
    assert ToggleTodo(todos, id, currentStatus) == ToggleTodo(init, id, currentStatus) + [last'];
    MonthCountSnoc(ToggleTodo(init, id, currentStatus), last', ym);
  }

  /** Completing a to-do never lowers the bonus; unchecking one never raises it. */
  lemma ToggleMovesBonusOneWay(todos: seq<Todo>, ym: CalendarMonth, id: int, currentStatus: bool)
    ensures var after := ToggleTodo(todos, id, currentStatus);
            && (!currentStatus ==> MonthBonus(todos, ym) <= MonthBonus(after, ym))
            && (currentStatus ==> MonthBonus(after, ym) <= MonthBonus(todos, ym))
  {
    var after := ToggleTodo(todos, id, currentStatus);
    var before, selected := SelectMonth(todos, ym), SelectMonth(after, ym);
    ToggleKeepsMonthSize(todos, ym, id, currentStatus);
    ToggleMovesCountOneWay(todos, ym, id, currentStatus);
    if !currentStatus {
      RoundRatioMonotone(CompletedCount(before), CompletedCount(selected), |before|, 1000);
      BonusMonotone(Productivity(todos, ym), Productivity(after, ym));
    } else {
      RoundRatioMonotone(CompletedCount(selected), CompletedCount(before), |before|, 1000);
      BonusMonotone(Productivity(after, ym), Productivity(todos, ym));
    }
  }

  /** What a checkbox click produces: the new list and the tier notice, if any. */
  datatype ToggleOutcome = ToggleOutcome(todos: seq<Todo>, notice: Option<int>)

  /** The notice condition: the new tier's points, only when completing raised the tier. */
  function TierUpNotice(oldBonus: int, newBonus: int, currentStatus: bool): Option<int> {
    if newBonus > oldBonus && !currentStatus then Some(newBonus) else None
  }

  /** `toggleTodo` as written: the timer callback calls the `getProductivityBonus` of
      the render that created the handler, whose `todos` is the list before the
      update, so the new bonus is computed from the old list. */
  function ToggleAsWritten(todos: seq<Todo>, ym: CalendarMonth, id: int, currentStatus: bool): (r: ToggleOutcome)
    ensures r.todos == ToggleTodo(todos, id, currentStatus)
    ensures r.notice == None
  {
    var oldBonus := MonthBonus(todos, ym);
    var updated := ToggleTodo(todos, id, currentStatus);
    var newBonus := MonthBonus(todos, ym);
    ToggleOutcome(updated, TierUpNotice(oldBonus, newBonus, currentStatus))
  }

  /** `toggleTodo` with the new bonus read from the updated list, as its comment intends. */
  function ToggleTodoWithNotice(todos: seq<Todo>, ym: CalendarMonth, id: int, currentStatus: bool): (r: ToggleOutcome)
    ensures r.todos == ToggleTodo(todos, id, currentStatus)
    ensures r.notice.Some? <==> !currentStatus && MonthBonus(todos, ym) < MonthBonus(r.todos, ym)
    ensures r.notice.Some? ==> r.notice.value == MonthBonus(r.todos, ym)
    ensures r.notice.Some? ==> r.notice.value in {5, 10, 15, 20}
  {
    var oldBonus := MonthBonus(todos, ym);
    var updated := ToggleTodo(todos, id, currentStatus);
    var newBonus := MonthBonus(updated, ym);
    ToggleOutcome(updated, TierUpNotice(oldBonus, newBonus, currentStatus))
  }

  /** One open task in May 2024: checking it lifts productivity from 0% to 100% and the
      bonus from 0 to 20, yet the handler as written shows no notice. */
  lemma NoticeLostExample()
    ensures var todos := [Todo(1, "Write report", CivilDate(2024, 5, 10), false)];
            var ym := YearMonth(2024, 5);
            && ToggleAsWritten(todos, ym, 1, false).notice == None
            && ToggleTodoWithNotice(todos, ym, 1, false).notice == Some(20)
  {
    var todos := [Todo(1, "Write report", CivilDate(2024, 5, 10), false)];
    var ym := YearMonth(2024, 5);
    var after := ToggleTodo(todos, 1, false);
    assert after == [Todo(1, "Write report", CivilDate(2024, 5, 10), true)];
    assert todos[..0] == [] && after[..0] == [];
    assert SelectMonth(todos, ym) == todos;
    assert SelectMonth(after, ym) == after;
    assert Productivity(todos, ym) == 0;
    assert Productivity(after, ym) == 1000;
  }
}
