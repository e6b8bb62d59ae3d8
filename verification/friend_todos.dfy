/** A friend's to-do list, read-only (`src/pages/FriendTodos.jsx`): the month's
    to-dos sorted by date, grouped by date, the sorted group dates, and the
    month's completion percentage. */
module FriendTodos {
  import opened Wrappers
  import opened Text
  import opened Calendar
  import opened Todos

  /** `s.startsWith(prefix)`. */
  predicate StartsWith(s: string, prefix: string) {
    prefix <= s
  }

  /** The `filter(todo => todo.task_date.startsWith(monthStr))` step. */
  function FilterMonth(todos: seq<Todo>, ym: CalendarMonth): (r: seq<Todo>)
    ensures r == SelectMonth(todos, ym)
  {
    if |todos| == 0 then []
    else
      var last := todos[|todos| - 1];
      MonthKeyPrefix(last.taskDate, ym);
      FilterMonth(todos[..|todos| - 1], ym) + (if StartsWith(Key(last), MonthKey(ym)) then [last] else [])
  }

  predicate SortedByDate(s: seq<Todo>) {
    forall i, j :: 0 <= i < j < |s| ==> DateLe(s[i].taskDate, s[j].taskDate)
  }

  /** Puts `x` after every to-do that is not later than it. */
  function InsertByDate(s: seq<Todo>, x: Todo): (r: seq<Todo>)
    ensures |r| == |s| + 1
    ensures multiset(r) == multiset(s) + multiset{x}
  {
    if |s| == 0 then [x]
    else
      var init, last := s[..|s| - 1], s[|s| - 1];
      assert s == init + [last];
      if DateLe(last.taskDate, x.taskDate) then s + [x]
      else InsertByDate(init, x) + [last]
  }

  lemma {:induction false} InsertByDateSorted(s: seq<Todo>, x: Todo)
    requires SortedByDate(s)
    ensures SortedByDate(InsertByDate(s, x))
  {
    if |s| > 0 {
      var init, last := s[..|s| - 1], s[|s| - 1];
      if !DateLe(last.taskDate, x.taskDate) {
        InsertByDateSorted(init, x);
        var mid := InsertByDate(init, x);
        forall i | 0 <= i < |mid|
          ensures DateLe(mid[i].taskDate, last.taskDate)
        {
          assert mid[i] in multiset(init) + multiset{x} by {
            assert mid[i] in multiset(mid);
          }
          if mid[i] != x {
            var k :| 0 <= k < |init| && init[k] == mid[i];
            assert s[k] == init[k];
          }
        }
      }
    }
  }

  /** The to-dos of one date keep their order when `x` is inserted. */
  lemma {:induction false} InsertByDateOnDate(s: seq<Todo>, x: Todo, key: string)
    ensures OnDate(InsertByDate(s, x), key) == OnDate(s, key) + (if Key(x) == key then [x] else [])
  {
    if |s| == 0 {
      OnDateSnoc([], x, key);
    } else {
      var init, last := s[..|s| - 1], s[|s| - 1];
      if DateLe(last.taskDate, x.taskDate) {
        assert InsertByDate(s, x) == s + [x];
        OnDateSnoc(s, x, key);
      } else {
        var mid := InsertByDate(init, x);
        assert InsertByDate(s, x) == mid + [last];
        InsertByDateOnDate(init, x, key);
        OnDateSnoc(mid, last, key);
        LaterHasOtherKey(x, last);
        if Key(x) == key {
          assert OnDate(mid, key) == OnDate(init, key) + [x];
          assert OnDate(mid + [last], key) == OnDate(mid, key);
          assert OnDate(s, key) == OnDate(init, key);
        } else {
          assert OnDate(mid, key) == OnDate(init, key);
          assert OnDate(s, key) == OnDate(init, key) + (if Key(last) == key then [last] else []);
        }
      }
    }
  }

  /** Two to-dos of different dates never share a `task_date` text. */
  lemma LaterHasOtherKey(x: Todo, y: Todo)
    requires !DateLe(y.taskDate, x.taskDate)
    ensures Key(x) != Key(y)
  {
    KeyInjective(x, y);
  }

  lemma {:induction false} InsertByDateCompleted(s: seq<Todo>, x: Todo)
    ensures CompletedCount(InsertByDate(s, x)) == CompletedCount(s) + (if x.completed then 1 else 0)
  {
    if |s| == 0 {
      CompletedCountSnoc([], x);
    } else {
      var init, last := s[..|s| - 1], s[|s| - 1];
      assert s == init + [last];
      CompletedCountSnoc(init, last);
      if DateLe(last.taskDate, x.taskDate) {
        assert InsertByDate(s, x) == s + [x];
        CompletedCountSnoc(s, x);
      } else {
        assert InsertByDate(s, x) == InsertByDate(init, x) + [last];
        InsertByDateCompleted(init, x);
        CompletedCountSnoc(InsertByDate(init, x), last);
      }
    }
  }

  /** `sort((a, b) => new Date(a.task_date) - new Date(b.task_date))`: a stable sort by
      date, as `Array.prototype.sort` is. */
  function SortByDate(s: seq<Todo>): (r: seq<Todo>)
    ensures |r| == |s|
    ensures multiset(r) == multiset(s)
    ensures SortedByDate(r)
  {
    if |s| == 0 then []
    else
      var init := s[..|s| - 1];
      assert s == init + [s[|s| - 1]];
      InsertByDateSorted(SortByDate(init), s[|s| - 1]);
      InsertByDate(SortByDate(init), s[|s| - 1])
  }

  /** Stability: the to-dos of each date appear in the sorted list in their original order. */
  lemma {:induction false} SortByDateStable(s: seq<Todo>, key: string)
    ensures OnDate(SortByDate(s), key) == OnDate(s, key)
  {
    if |s| > 0 {
      var init, last := s[..|s| - 1], s[|s| - 1];
      var sorted := SortByDate(init);
      assert SortByDate(s) == InsertByDate(sorted, last);
      SortByDateStable(init, key);
      InsertByDateOnDate(sorted, last, key);
      assert OnDate(s, key) == OnDate(init, key) + (if Key(last) == key then [last] else []);
    }
  }

  lemma {:induction false} SortByDateCompleted(s: seq<Todo>)
    ensures CompletedCount(SortByDate(s)) == CompletedCount(s)
  {
    if |s| > 0 {
      var init, last := s[..|s| - 1], s[|s| - 1];
      var sorted := SortByDate(init);
      assert SortByDate(s) == InsertByDate(sorted, last);
      SortByDateCompleted(init);
      InsertByDateCompleted(sorted, last);
      assert CompletedCount(s) == CompletedCount(init) + (if last.completed then 1 else 0);
    }
  }

  /** `getMonthTodos`: the month's to-dos in date order. */
  function MonthTodos(todos: seq<Todo>, ym: CalendarMonth): (r: seq<Todo>)
    ensures SortedByDate(r)
    ensures multiset(r) == multiset(SelectMonth(todos, ym))
    ensures forall t :: t in r <==> t in todos && InMonth(t.taskDate, ym)
  {
    var r := SortByDate(FilterMonth(todos, ym));
    assert forall t :: t in r <==> t in multiset(SelectMonth(todos, ym));
    r
  }

  /** Within each date, the month's to-dos keep the order the server sent them in. */
  lemma MonthTodosKeepDateOrder(todos: seq<Todo>, ym: CalendarMonth, key: string)
    ensures OnDate(MonthTodos(todos, ym), key) == OnDate(SelectMonth(todos, ym), key)
  {
    SortByDateStable(SelectMonth(todos, ym), key);
  }

  /** One entry of the `grouped` object: a date text and its to-dos. */
  datatype Group = Group(date: string, todos: seq<Todo>)

  /** The `grouped[todo.task_date]` step: append to the group of the to-do's date,
      creating the group (after the existing ones) when there is none. */
  function AddToGroups(gs: seq<Group>, t: Todo): (r: seq<Group>)
    ensures |gs| <= |r| <= |gs| + 1
  {
    if |gs| == 0 then [Group(Key(t), [t])]
    else if gs[0].date == Key(t) then [Group(gs[0].date, gs[0].todos + [t])] + gs[1..]
    else [gs[0]] + AddToGroups(gs[1..], t)
  }

  /** `groupTodosByDate`, groups in the order their dates first occur. */
  function GroupTodosByDate(s: seq<Todo>): seq<Group> {
    if |s| == 0 then [] else AddToGroups(GroupTodosByDate(s[..|s| - 1]), s[|s| - 1])
  }

  predicate DistinctDates(gs: seq<Group>) {
    forall i, j :: 0 <= i < j < |gs| ==> gs[i].date != gs[j].date
  }

  predicate HasDate(gs: seq<Group>, key: string) {
    exists i :: 0 <= i < |gs| && gs[i].date == key
  }

  /** `gs` is a grouping of `s` by date: one group per date, each holding exactly the
      to-dos of that date in list order, and a group for every to-do. */
  predicate GroupsOf(gs: seq<Group>, s: seq<Todo>) {
    && DistinctDates(gs)
    && (forall i :: 0 <= i < |gs| ==> gs[i].todos == OnDate(s, gs[i].date) && gs[i].todos != [])
    && (forall t :: t in s ==> HasDate(gs, Key(t)))
  }

  function TotalSize(gs: seq<Group>): nat {
    if |gs| == 0 then 0 else |gs[0].todos| + TotalSize(gs[1..])
  }

  /** With distinct dates, adding a to-do touches only the group of its date, or appends
      a new one. */
  lemma {:induction false} AddToGroupsEffect(gs: seq<Group>, t: Todo)
    requires DistinctDates(gs)
    ensures var r := AddToGroups(gs, t);
            && (HasDate(gs, Key(t)) ==>
                 |r| == |gs| &&
                 forall i :: 0 <= i < |gs| ==>
                   r[i] == if gs[i].date == Key(t) then Group(gs[i].date, gs[i].todos + [t]) else gs[i])
            && (!HasDate(gs, Key(t)) ==> r == gs + [Group(Key(t), [t])])
  {
    if |gs| > 0 {
      var r := AddToGroups(gs, t);
      if gs[0].date == Key(t) {
        assert forall i :: 1 <= i < |gs| ==> gs[i].date != Key(t);
      } else {
        var tail := gs[1..];
        assert DistinctDates(tail) by {
          forall i, j | 0 <= i < j < |tail|
            ensures tail[i].date != tail[j].date
          {
            assert tail[i] == gs[i + 1] && tail[j] == gs[j + 1];
          }
        }
        AddToGroupsEffect(tail, t);
        assert r[1..] == AddToGroups(tail, t);
        assert HasDate(gs, Key(t)) <==> HasDate(tail, Key(t)) by {
          if HasDate(gs, Key(t)) {
            var k :| 0 <= k < |gs| && gs[k].date == Key(t);
            assert tail[k - 1] == gs[k];
          }
          if HasDate(tail, Key(t)) {
            var k :| 0 <= k < |tail| && tail[k].date == Key(t);
            assert gs[k + 1] == tail[k];
          }
        }
        if HasDate(gs, Key(t)) {
          forall i | 0 <= i < |gs|
            ensures r[i] == if gs[i].date == Key(t) then Group(gs[i].date, gs[i].todos + [t]) else gs[i]
          {
            if i > 0 { assert r[i] == r[1..][i - 1] && gs[i] == tail[i - 1]; }
          }
        } else {
          assert r == [gs[0]] + (tail + [Group(Key(t), [t])]);
          assert gs == [gs[0]] + tail;
        }
      }
    }
  }

  /** Adding a to-do to a grouping of `s` gives a grouping of `s + [t]`. */
  lemma AddToGroupsGroups(gs: seq<Group>, s: seq<Todo>, t: Todo)
    requires GroupsOf(gs, s)
    ensures GroupsOf(AddToGroups(gs, t), s + [t])
  {
    AddToGroupsEffect(gs, t);
    if HasDate(gs, Key(t)) {
      AddToExistingGroup(gs, s, t);
    } else {
      AddNewGroup(gs, s, t);
    }
  }

  lemma AddToExistingGroup(gs: seq<Group>, s: seq<Todo>, t: Todo)
    requires GroupsOf(gs, s) && HasDate(gs, Key(t))
    requires |AddToGroups(gs, t)| == |gs|
    requires forall i :: 0 <= i < |gs| ==>
               AddToGroups(gs, t)[i] == if gs[i].date == Key(t) then Group(gs[i].date, gs[i].todos + [t]) else gs[i]
    ensures GroupsOf(AddToGroups(gs, t), s + [t])
  {
    var r := AddToGroups(gs, t);
    forall i | 0 <= i < |r|
      ensures r[i].date == gs[i].date
      ensures r[i].todos == OnDate(s + [t], r[i].date) && r[i].todos != []
    {
      OnDateSnoc(s, t, gs[i].date);
    }
    forall u | u in s + [t]
      ensures HasDate(r, Key(u))
    {
      var k :| 0 <= k < |gs| && gs[k].date == Key(u);
      assert r[k].date == gs[k].date;
    }
  }

  lemma AddNewGroup(gs: seq<Group>, s: seq<Todo>, t: Todo)
    requires GroupsOf(gs, s) && !HasDate(gs, Key(t))
    requires AddToGroups(gs, t) == gs + [Group(Key(t), [t])]
    ensures GroupsOf(AddToGroups(gs, t), s + [t])
  {
    var r := gs + [Group(Key(t), [t])];
    NoTodoOfNewDate(gs, s, t);
    NewGroupContents(gs, s, t);
    NewGroupCovers(gs, s, t);
    assert DistinctDates(r);
  }

  lemma NoTodoOfNewDate(gs: seq<Group>, s: seq<Todo>, t: Todo)
    requires forall u :: u in s ==> HasDate(gs, Key(u))
    requires !HasDate(gs, Key(t))
    ensures OnDate(s, Key(t)) == []
  {
    assert forall u :: u in s ==> Key(u) != Key(t);
    OnDateNone(s, Key(t));
  }

  lemma NewGroupContents(gs: seq<Group>, s: seq<Todo>, t: Todo)
    requires !HasDate(gs, Key(t)) && OnDate(s, Key(t)) == []
    requires forall i :: 0 <= i < |gs| ==> gs[i].todos == OnDate(s, gs[i].date) && gs[i].todos != []
    ensures var r := gs + [Group(Key(t), [t])];
            forall i :: 0 <= i < |r| ==> r[i].todos == OnDate(s + [t], r[i].date) && r[i].todos != []
  {
    var r := gs + [Group(Key(t), [t])];
    forall i | 0 <= i < |r|
      ensures r[i].todos == OnDate(s + [t], r[i].date) && r[i].todos != []
    {
      OnDateSnoc(s, t, r[i].date);
      if i < |gs| {
        assert r[i] == gs[i];
      }
    }
  }

  lemma NewGroupCovers(gs: seq<Group>, s: seq<Todo>, t: Todo)
    requires forall u :: u in s ==> HasDate(gs, Key(u))
    ensures var r := gs + [Group(Key(t), [t])];
            forall u :: u in s + [t] ==> HasDate(r, Key(u))
  {
    var r := gs + [Group(Key(t), [t])];
    forall u | u in s + [t]
      ensures HasDate(r, Key(u))
    {
      if u in s {
        var k :| 0 <= k < |gs| && gs[k].date == Key(u);
        assert r[k] == gs[k];
      } else {
        assert r[|gs|].date == Key(t);
      }
    }
  }

  /** `groupTodosByDate` is a grouping of its input and loses no to-do: the group sizes
      add up to the input's length. */
  lemma {:induction false} GroupTodosByDateSpec(s: seq<Todo>)
    ensures GroupsOf(GroupTodosByDate(s), s)
    ensures TotalSize(GroupTodosByDate(s)) == |s|
  {
    GroupTodosByDateGroups(s);
    GroupTodosByDateSize(s);
  }

  lemma {:induction false} GroupTodosByDateGroups(s: seq<Todo>)
    ensures GroupsOf(GroupTodosByDate(s), s)
  {
    if |s| > 0 {
      var init, last := s[..|s| - 1], s[|s| - 1];
      GroupTodosByDateGroups(init);
      AddToGroupsGroups(GroupTodosByDate(init), init, last);
      assert init + [last] == s;
    }
  }

  lemma {:induction false} GroupTodosByDateSize(s: seq<Todo>)
    ensures TotalSize(GroupTodosByDate(s)) == |s|
  {
    if |s| > 0 {
      GroupTodosByDateSize(s[..|s| - 1]);
      AddToGroupsSize(GroupTodosByDate(s[..|s| - 1]), s[|s| - 1]);
    }
  }

  lemma {:induction false} AddToGroupsSize(gs: seq<Group>, t: Todo)
    ensures TotalSize(AddToGroups(gs, t)) == TotalSize(gs) + 1
  {
    if |gs| > 0 && gs[0].date != Key(t) {
      AddToGroupsSize(gs[1..], t);
      assert AddToGroups(gs, t)[1..] == AddToGroups(gs[1..], t);
    } else if |gs| > 0 {
      assert AddToGroups(gs, t)[1..] == gs[1..];
    }
  }

  /** Every to-do lies in exactly one group, the one keyed by its own date, at the
      position its date gives it among that date's to-dos. */
  lemma EachTodoInOneGroup(s: seq<Todo>, t: Todo)
    requires t in s
    ensures var gs := GroupTodosByDate(s);
            exists i :: 0 <= i < |gs| && gs[i].date == Key(t) && t in gs[i].todos
              && forall j :: 0 <= j < |gs| && j != i ==> t !in gs[j].todos
  {
    var gs := GroupTodosByDate(s);
    GroupTodosByDateSpec(s);
    var i :| 0 <= i < |gs| && gs[i].date == Key(t);
    assert t in OnDate(s, gs[i].date);
    forall j | 0 <= j < |gs| && j != i
      ensures t !in gs[j].todos
    {
      assert gs[j].date != gs[i].date;
    }
  }

  /** `Object.keys(grouped)`. */
  function DateKeys(gs: seq<Group>): (r: seq<string>)
    ensures |r| == |gs| && forall i :: 0 <= i < |gs| ==> r[i] == gs[i].date
  {
    seq(|gs|, i requires 0 <= i < |gs| => gs[i].date)
  }

  predicate Ascending(s: seq<string>) {
    forall i, j :: 0 <= i < j < |s| ==> LexLe(s[i], s[j])
  }

  predicate NoDuplicates(s: seq<string>) {
    forall i, j :: 0 <= i < j < |s| ==> s[i] != s[j]
  }

  /** Puts `x` after every text not above it. */
  function InsertText(s: seq<string>, x: string): (r: seq<string>)
    ensures |r| == |s| + 1
    ensures multiset(r) == multiset(s) + multiset{x}
  {
    if |s| == 0 then [x]
    else
      var init, last := s[..|s| - 1], s[|s| - 1];
      assert s == init + [last];
      if LexLe(last, x) then s + [x] else InsertText(init, x) + [last]
  }

  lemma {:induction false} InsertTextSorted(s: seq<string>, x: string)
    requires Ascending(s) && NoDuplicates(s) && x !in s
    ensures Ascending(InsertText(s, x)) && NoDuplicates(InsertText(s, x))
  {
    if |s| > 0 {
      var init, last := s[..|s| - 1], s[|s| - 1];
      if LexLe(last, x) {
        assert InsertText(s, x) == s + [x];
        AppendAbove(s, x);
      } else {
        var mid := InsertText(init, x);
        assert InsertText(s, x) == mid + [last];
        assert x !in init;
        InsertTextSorted(init, x);
        LexLeTotal(last, x);
        BelowLast(s, x, mid);
      }
    }
  }

  lemma AppendAbove(s: seq<string>, x: string)
    requires |s| > 0 && Ascending(s) && NoDuplicates(s) && x !in s && LexLe(s[|s| - 1], x)
    ensures Ascending(s + [x]) && NoDuplicates(s + [x])
  {
    forall i | 0 <= i < |s|
      ensures LexLe(s[i], x)
    {
      if i < |s| - 1 { LexLeTransitive(s[i], s[|s| - 1], x); }
    }
  }

  /** Everything inserted below the last text stays below it. */
  lemma BelowLast(s: seq<string>, x: string, mid: seq<string>)
    requires |s| > 0 && Ascending(s) && NoDuplicates(s)
    requires LexLe(x, s[|s| - 1]) && x != s[|s| - 1]
    requires multiset(mid) == multiset(s[..|s| - 1]) + multiset{x}
    requires Ascending(mid) && NoDuplicates(mid)
    ensures Ascending(mid + [s[|s| - 1]]) && NoDuplicates(mid + [s[|s| - 1]])
  {
    var init, last := s[..|s| - 1], s[|s| - 1];
    forall i | 0 <= i < |mid|
      ensures LexLe(mid[i], last) && mid[i] != last
    {
      assert mid[i] in multiset(init) + multiset{x} by {
        assert mid[i] in multiset(mid);
      }
      if mid[i] != x {
        var k :| 0 <= k < |init| && init[k] == mid[i];
        assert s[k] == init[k];
      }
    }
  }

  /** `Array.prototype.sort` on strings: the same texts, in ascending string order
      whenever they are distinct, as the keys of an object always are. */
  function SortTexts(s: seq<string>): (r: seq<string>)
    ensures |r| == |s|
    ensures multiset(r) == multiset(s)
    ensures NoDuplicates(s) ==> Ascending(r) && NoDuplicates(r)
  {
    if |s| == 0 then []
    else
      var init, last := s[..|s| - 1], s[|s| - 1];
      assert s == init + [last];
      var sorted := SortTexts(init);
      assert NoDuplicates(s) ==> NoDuplicates(init) && last !in sorted by {
        if NoDuplicates(s) {
          assert last !in init;
          assert last !in multiset(sorted);
        }
      }
      InsertKeepsOrder(sorted, last);
      InsertText(sorted, last)
  }

  lemma InsertKeepsOrder(s: seq<string>, x: string)
    ensures Ascending(s) && NoDuplicates(s) && x !in s ==> Ascending(InsertText(s, x)) && NoDuplicates(InsertText(s, x))
  {
    if Ascending(s) && NoDuplicates(s) && x !in s {
      InsertTextSorted(s, x);
    }
  }

  /** `sortedDates`: the group dates in string order. */
  function SortedDates(monthTodos: seq<Todo>): seq<string> {
    SortTexts(DateKeys(GroupTodosByDate(monthTodos)))
  }

  /** The sorted dates are strictly ascending, and they are exactly the dates of the to-dos. */
  lemma SortedDatesSpec(s: seq<Todo>)
    ensures var r := SortedDates(s);
            && (forall i, j :: 0 <= i < j < |r| ==> LexLe(r[i], r[j]) && r[i] != r[j])
            && (forall k :: k in r <==> exists t :: t in s && Key(t) == k)
  {
    SortedDatesAscending(s);
    var gs := GroupTodosByDate(s);
    var keys := DateKeys(gs);
    GroupTodosByDateSpec(s);
    var r := SortedDates(s);
    forall k
      ensures k in r <==> exists t :: t in s && Key(t) == k
    {
      assert k in r <==> k in keys by {
        assert k in r <==> k in multiset(keys);
      }
      if k in keys {
        var i :| 0 <= i < |keys| && keys[i] == k;
        var t := gs[i].todos[0];
        assert t in OnDate(s, k);
      }
      if exists t :: t in s && Key(t) == k {
        var t :| t in s && Key(t) == k;
        var i :| 0 <= i < |gs| && gs[i].date == Key(t);
        assert keys[i] == k;
      }
    }
  }

  lemma SortedDatesAscending(s: seq<Todo>)
    ensures Ascending(SortedDates(s)) && NoDuplicates(SortedDates(s))
  {
    var gs := GroupTodosByDate(s);
    GroupTodosByDateSpec(s);
    assert DistinctDates(gs);
    assert NoDuplicates(DateKeys(gs));
  }

  /** Sorting the date texts sorts the dates: each sorted text is a real date, strictly
      earlier than every text after it. */
  lemma SortedDatesChronological(s: seq<Todo>, i: int, j: int)
    requires 0 <= i < j < |SortedDates(s)|
    ensures var r := SortedDates(s);
            && ParseDate(r[i]).Some? && ParseDate(r[j]).Some?
            && DateLe(ParseDate(r[i]).value, ParseDate(r[j]).value)
            && ParseDate(r[i]).value != ParseDate(r[j]).value
  {
    var r := SortedDates(s);
    SortedDatesSpec(s);
    assert r[i] in r && r[j] in r;
    var a :| a in s && Key(a) == r[i];
    var b :| b in s && Key(b) == r[j];
    DateStringRoundTrip(a.taskDate);
    DateStringRoundTrip(b.taskDate);
    DateStringOrder(a.taskDate, b.taskDate);
  }

  /** `productivity`: the month's completion as a whole percentage, `Math.round`ed. */
  function Productivity(monthTodos: seq<Todo>): (r: nat)
    ensures r <= 100
    ensures |monthTodos| == 0 ==> r == 0
    ensures CompletedCount(monthTodos) == |monthTodos| && |monthTodos| > 0 ==> r == 100
    ensures CompletedCount(monthTodos) == 0 ==> r == 0
  {
    RoundRatioExtremes(CompletedCount(monthTodos), |monthTodos|, 100);
    RoundRatio(CompletedCount(monthTodos), |monthTodos|, 100)
  }

  /** The page's figure depends only on which to-dos the month holds, not on the sort. */
  lemma ProductivityOfMonth(todos: seq<Todo>, ym: CalendarMonth)
    ensures Productivity(MonthTodos(todos, ym))
            == RoundRatio(CompletedCount(SelectMonth(todos, ym)), |SelectMonth(todos, ym)|, 100)
  {
    SortByDateCompleted(SelectMonth(todos, ym));
  }
}
