/** The to-do record both to-do pages read, and the selections and ratios they share. */
module Todos {
  import opened Calendar

  /** A to-do as the server returns it; `taskDate` is sent as `YYYY-MM-DD` text. */
  datatype Todo = Todo(id: int, taskName: string, taskDate: Date, completed: bool)

  /** The `task_date` text of a to-do. */
  function Key(t: Todo): string {
    DateString(t.taskDate)
  }

  lemma KeyInjective(a: Todo, b: Todo)
    ensures Key(a) == Key(b) <==> a.taskDate == b.taskDate
  {
    if Key(a) == Key(b) {
      DateStringInjective(a.taskDate, b.taskDate);
    }
  }

  /** `list.filter(t => t.completed).length`. */
  function CompletedCount(s: seq<Todo>): (r: nat)
    ensures r <= |s|
    ensures r == |s| <==> forall i :: 0 <= i < |s| ==> s[i].completed
  {
    if |s| == 0 then 0
    else CompletedCount(s[..|s| - 1]) + (if s[|s| - 1].completed then 1 else 0)
  }

  /** The to-dos dated in a calendar month, in list order: the reference selection
      against which the pages' text-based filters are checked. */
  function SelectMonth(s: seq<Todo>, ym: YearMonth): (r: seq<Todo>)
    ensures |r| <= |s|
    ensures forall t :: t in r <==> t in s && InMonth(t.taskDate, ym)
  {
    if |s| == 0 then []
    else
      var last := s[|s| - 1];
      SelectMonth(s[..|s| - 1], ym) + (if InMonth(last.taskDate, ym) then [last] else [])
  }

  /** The to-dos whose `task_date` text is `key`, in list order. */
  function OnDate(s: seq<Todo>, key: string): (r: seq<Todo>)
    ensures |r| <= |s|
    ensures forall t :: t in r <==> t in s && Key(t) == key
  {
    if |s| == 0 then []
    else
      var last := s[|s| - 1];
      OnDate(s[..|s| - 1], key) + (if Key(last) == key then [last] else [])
  }

  lemma SelectMonthSnoc(s: seq<Todo>, x: Todo, ym: YearMonth)
    ensures SelectMonth(s + [x], ym) == SelectMonth(s, ym) + (if InMonth(x.taskDate, ym) then [x] else [])
  {
    assert (s + [x])[..|s|] == s;
  }

  lemma OnDateSnoc(s: seq<Todo>, x: Todo, key: string)
    ensures OnDate(s + [x], key) == OnDate(s, key) + (if Key(x) == key then [x] else [])
  {
    assert (s + [x])[..|s|] == s;
  }

  lemma {:induction false} OnDateNone(s: seq<Todo>, key: string)
    requires forall t :: t in s ==> Key(t) != key
    ensures OnDate(s, key) == []
  {
    if |s| > 0 {
      assert s[|s| - 1] in s;
      OnDateNone(s[..|s| - 1], key);
    }
  }

  lemma CompletedCountSnoc(s: seq<Todo>, x: Todo)
    ensures CompletedCount(s + [x]) == CompletedCount(s) + (if x.completed then 1 else 0)
  {
    assert (s + [x])[..|s|] == s;
  }

  lemma MonthCountSnoc(s: seq<Todo>, x: Todo, ym: YearMonth)
    ensures CompletedCount(SelectMonth(s + [x], ym))
            == CompletedCount(SelectMonth(s, ym)) + (if InMonth(x.taskDate, ym) && x.completed then 1 else 0)
  {
    SelectMonthSnoc(s, x, ym);
    var before := SelectMonth(s, ym);
    if InMonth(x.taskDate, ym) {
      assert SelectMonth(s + [x], ym) == before + [x];
      CompletedCountSnoc(before, x);
    } else {
      assert SelectMonth(s + [x], ym) == before;
    }
  }

  /** `part / whole * scale` rounded to the nearest integer, halves upward, and 0 for an
      empty whole: `toFixed(1)` of a percentage is scale 1000 (tenths of a percent),
      `Math.round` of a percentage is scale 100. */
  function RoundRatio(part: nat, whole: nat, scale: nat): (r: nat)
    requires part <= whole
    ensures whole == 0 ==> r == 0
    ensures whole > 0 ==> 2 * whole * r <= 2 * scale * part + whole < 2 * whole * (r + 1)
    ensures r <= scale
  {
    if whole == 0 then 0
    else
      DivBracket(2 * scale * part + whole, 2 * whole);
      RatioAtMostScale(part, whole, scale);
      (2 * scale * part + whole) / (2 * whole)
  }

  lemma DivBracket(a: nat, b: nat)
    requires b > 0
    ensures b * (a / b) <= a < b * (a / b + 1)
  {
  }

  lemma RatioAtMostScale(part: nat, whole: nat, scale: nat)
    requires 0 < whole && part <= whole
    ensures (2 * scale * part + whole) / (2 * whole) <= scale
  {
    var r := (2 * scale * part + whole) / (2 * whole);
    DivBracket(2 * scale * part + whole, 2 * whole);
    MulMonotone(2 * scale, part, whole);
    if r > scale {
      MulMonotone(2 * whole, scale + 1, r);
    }
  }

  /** No part rounds to 0 and the whole part rounds to the full scale. */
  lemma RoundRatioExtremes(part: nat, whole: nat, scale: nat)
    requires part <= whole
    ensures part == 0 ==> RoundRatio(part, whole, scale) == 0
    ensures 0 < part == whole ==> RoundRatio(part, whole, scale) == scale
  {
    if whole > 0 && part == 0 {
      RoundRatioNone(whole, scale);
    }
    if 0 < part == whole {
      RoundRatioAll(whole, scale);
    }
  }

  lemma RoundRatioNone(whole: nat, scale: nat)
    requires whole > 0
    ensures RoundRatio(0, whole, scale) == 0
  {
    var r := RoundRatio(0, whole, scale);
    if r > 0 {
      MulMonotone(2 * whole, 1, r);
    }
  }

  lemma RoundRatioAll(whole: nat, scale: nat)
    requires whole > 0
    ensures RoundRatio(whole, whole, scale) == scale
  {
    var r := RoundRatio(whole, whole, scale);
    if r < scale {
      MulMonotone(2 * whole, r + 1, scale);
    }
  }

  /** Rounding is monotone in the part. */
  lemma RoundRatioMonotone(p1: nat, p2: nat, whole: nat, scale: nat)
    requires p1 <= p2 <= whole
    ensures RoundRatio(p1, whole, scale) <= RoundRatio(p2, whole, scale)
  {
    if whole > 0 {
      var r1, r2 := RoundRatio(p1, whole, scale), RoundRatio(p2, whole, scale);
      MulMonotone(2 * scale, p1, p2);
      if r1 > r2 {
        MulMonotone(2 * whole, r2 + 1, r1);
        assert false;
      }
    }
  }

  lemma MulMonotone(a: nat, x: int, y: int)
    requires x <= y
    ensures a * x <= a * y
  {
  }
}
