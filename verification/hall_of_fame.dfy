/** The group's hall of fame (`src/pages/HallOfFame.jsx`): whether opening the page
    celebrates the latest champion, remembered per group and month in the browser
    session, and whether the viewer is that champion. */
module HallOfFame {
  import opened Wrappers
  import opened Text
  import opened Calendar

  /** A past monthly champion as the server lists them, newest first; `month` is the
      `YYYY-MM` text the server sends. */
  datatype Champion = Champion(userId: int, month: string)

  datatype User = User(id: int)

  /** `currentMonth`: the `YYYY-MM` key of the month `now` lies in. */
  function CurrentMonthKey(now: CalendarMonth): string {
    MonthKey(now)
  }

  /** `lastMonthDate`, `new Date(year, month0 - 1, 1)`: the calendar month before `now`.
      The constructor reads a year 0..99 as 1900..1999, so for such a year it is the month
      before the same month of that twentieth-century year. */
  function LastMonth(now: CalendarMonth): (r: CalendarMonth)
    ensures (now.year < 0 || 100 <= now.year) ==>
              && MonthIndex(r) == MonthIndex(now) - 1
              && (now.month == 1 ==> r == YearMonth(now.year - 1, 12))
              && (now.month > 1 ==> r == YearMonth(now.year, now.month - 1))
    ensures 0 <= now.year <= 99 ==> MonthIndex(r) == MonthIndex(YearMonth(1900 + now.year, now.month)) - 1
  {
    NormalizeMonth(now.year, (now.month - 1) - 1)
  }

  /** For four-digit years both keys are `YYYY-MM` texts that read back as the month they name. */
  lemma MonthKeysReadBack(now: CalendarMonth)
    requires 1001 <= now.year <= 9999
    ensures |CurrentMonthKey(now)| == 7 && ParseMonthKey(CurrentMonthKey(now)) == Some(now)
    ensures |MonthKey(LastMonth(now))| == 7 && ParseMonthKey(MonthKey(LastMonth(now))) == Some(LastMonth(now))
  {
    MonthKeyShape(now);
    MonthKeyRoundTrip(now);
    MonthKeyShape(LastMonth(now));
    MonthKeyRoundTrip(LastMonth(now));
  }

  /** The session-storage key that records a celebration. */
  function CelebrationKey(groupId: string, month: string): string {
    "celebration_shown_" + groupId + "_" + month
  }

  /** Keys of `YYYY-MM` months never collide: the key determines the group and the month. */
  lemma CelebrationKeyInjective(g1: string, m1: string, g2: string, m2: string)
    requires |m1| == 7 && |m2| == 7
    requires CelebrationKey(g1, m1) == CelebrationKey(g2, m2)
    ensures g1 == g2 && m1 == m2
  {
    var k := CelebrationKey(g1, m1);
    var p := "celebration_shown_";
    assert k == p + g1 + "_" + m1 && k == p + g2 + "_" + m2;
    assert |g1| == |g2|;
    assert m1 == k[|k| - 7..] == m2;
    assert g1 == k[|p|..|p| + |g1|] == g2;
  }

  /** The outcome of `checkForCelebration`: whether the banner and confetti start, and
      the session's keys afterwards. */
  datatype Check = Check(celebrate: bool, session: set<string>)

  /** `checkForCelebration`: with a latest champion from this month or the last one and
      no record of it in the session, celebrate and record it. A missing champion list
      is treated like an empty one. */
  function CheckForCelebration(champions: Option<seq<Champion>>, groupId: string, now: CalendarMonth,
                               session: set<string>): (r: Check)
    ensures (champions.None? || |champions.value| == 0) ==> r == Check(false, session)
    ensures r.celebrate <==>
              && champions.Some? && |champions.value| > 0
              && (champions.value[0].month == MonthKey(now) || champions.value[0].month == MonthKey(LastMonth(now)))
              && CelebrationKey(groupId, champions.value[0].month) !in session
    ensures r.session == if r.celebrate then session + {CelebrationKey(groupId, champions.value[0].month)} else session
  {
    if champions.None? || |champions.value| == 0 then Check(false, session)
    else
      var currentMonth := CurrentMonthKey(now);
      var championMonth := champions.value[0].month;
      var lastMonth := MonthKey(LastMonth(now));
      if championMonth == currentMonth || championMonth == lastMonth then
        var key := CelebrationKey(groupId, championMonth);
        if key !in session then Check(true, session + {key}) else Check(false, session)
      else Check(false, session)
  }

  /** Checking again with the session the first check left behind celebrates nothing and
      changes nothing. */
  lemma CheckIsIdempotent(champions: Option<seq<Champion>>, groupId: string, now: CalendarMonth, session: set<string>)
    ensures var first := CheckForCelebration(champions, groupId, now, session);
            CheckForCelebration(champions, groupId, now, first.session) == Check(false, first.session)
  {
  }

  /** A celebrated champion's month is the current month or the one before it. */
  lemma CelebratedMonthIsRecent(champions: seq<Champion>, groupId: string, now: CalendarMonth, session: set<string>)
    requires 1001 <= now.year <= 9999
    requires CheckForCelebration(Some(champions), groupId, now, session).celebrate
    ensures var ym := ParseMonthKey(champions[0].month);
            ym.Some? && (MonthIndex(ym.value) == MonthIndex(now) || MonthIndex(ym.value) == MonthIndex(now) - 1)
  {
    MonthKeysReadBack(now);
  }

  /** One opening of a hall-of-fame page. */
  datatype Visit = Visit(groupId: string, champions: Option<seq<Champion>>, now: CalendarMonth)

  /** The key a visit would record, when it has a latest champion. */
  function VisitKey(v: Visit): Option<string> {
    if v.champions.Some? && |v.champions.value| > 0 then Some(CelebrationKey(v.groupId, v.champions.value[0].month))
    else None
  }

  /** Visits in one browser session, each check seeing the keys the earlier ones stored. */
  function Session(visits: seq<Visit>, session: set<string>): (r: (seq<bool>, set<string>))
    ensures |r.0| == |visits|
    ensures session <= r.1
  {
    if |visits| == 0 then ([], session)
    else
      var (before, s) := Session(visits[..|visits| - 1], session);
      var v := visits[|visits| - 1];
      var c := CheckForCelebration(v.champions, v.groupId, v.now, s);
      (before + [c.celebrate], c.session)
  }

  /** Every celebration's key is in the final session, and the final session adds no
      key other than those celebrated. */
  lemma {:induction false} SessionRecords(visits: seq<Visit>, session: set<string>)
    ensures var (fired, s) := Session(visits, session);
            && (forall i :: 0 <= i < |visits| && fired[i] ==> VisitKey(visits[i]).Some? && VisitKey(visits[i]).value in s)
            && (forall k :: k in s ==> k in session || exists i :: 0 <= i < |visits| && fired[i] && VisitKey(visits[i]) == Some(k))
  {
    if |visits| > 0 {
      var init := visits[..|visits| - 1];
      SessionRecords(init, session);
      var (before, s) := Session(init, session);
      var v := visits[|visits| - 1];
      var c := CheckForCelebration(v.champions, v.groupId, v.now, s);
      var fired := before + [c.celebrate];
      assert Session(visits, session) == (fired, c.session);
      VisitRecords(v, s);
      forall i | 0 <= i < |visits| && fired[i]
        ensures VisitKey(visits[i]).Some? && VisitKey(visits[i]).value in c.session
      {
        if i < |init| {
          assert fired[i] == before[i] && visits[i] == init[i];
        }
      }
      forall k | k in c.session
        ensures k in session || exists i :: 0 <= i < |visits| && fired[i] && VisitKey(visits[i]) == Some(k)
      {
        if k in s {
          if k !in session {
            var i :| 0 <= i < |init| && before[i] && VisitKey(init[i]) == Some(k);
            assert fired[i] && visits[i] == init[i];
          }
        } else {
          assert fired[|init|] && VisitKey(visits[|init|]) == Some(k);
        }
      }
    }
  }

  /** One visit's check: a celebration records the visit's key, and nothing else is added. */
  lemma VisitRecords(v: Visit, session: set<string>)
    ensures var c := CheckForCelebration(v.champions, v.groupId, v.now, session);
            && (c.celebrate ==> VisitKey(v).Some? && VisitKey(v).value in c.session)
            && (forall k :: k in c.session ==> k in session || (c.celebrate && VisitKey(v) == Some(k)))
  {
  }

  /** At most once per group and month per session: two visits that both celebrate
      record different keys. */
  lemma {:induction false} CelebrateAtMostOnce(visits: seq<Visit>, session: set<string>, i: int, j: int)
    requires 0 <= i < j < |visits|
    requires Session(visits, session).0[i] && Session(visits, session).0[j]
    ensures VisitKey(visits[i]) != VisitKey(visits[j])
  {
    var init := visits[..|visits| - 1];
    var (before, s) := Session(init, session);
    var v := visits[|visits| - 1];
    var c := CheckForCelebration(v.champions, v.groupId, v.now, s);
    assert Session(visits, session) == (before + [c.celebrate], c.session);
    assert Session(visits, session).0[i] == before[i] && visits[i] == init[i];
    if j < |visits| - 1 {
      assert Session(visits, session).0[j] == before[j] && visits[j] == init[j];
      CelebrateAtMostOnce(init, session, i, j);
    } else {
      SessionRecords(init, session);
    }
  }

  /** `latestChampion`: the first listed champion, when there is one. */
  function LatestChampion(champions: seq<Champion>): (r: Option<Champion>)
    ensures r.Some? <==> |champions| > 0
    ensures r.Some? ==> r.value == champions[0] && r.value in champions
  {
    if |champions| > 0 then Some(champions[0]) else None
  }

  /** `isUserTheWinner`: a signed-in viewer who is the latest champion. */
  function IsUserTheWinner(currentUser: Option<User>, champions: seq<Champion>): (r: bool)
    ensures r <==> currentUser.Some? && |champions| > 0 && champions[0].userId == currentUser.value.id
  {
    match (currentUser, LatestChampion(champions))
    case (Some(user), Some(latest)) => latest.userId == user.id
    case _ => false
  }
}
