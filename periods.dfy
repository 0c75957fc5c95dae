/** The calendar split shared by weekend_weekday.py, dlss.py and combined.py:
    the day of the week of a reading's date, the rows of chosen days, and the
    clients the scripts skip. */
module Periods {
  import opened Metrics

  /** Days are counted from 1970-01-01, a Thursday; pandas' `dayofweek`
      numbers Monday 0 through Sunday 6. */
  function DayOfWeek(d: int): (w: int)
    ensures 0 <= w < 7
  {
    (d + 3) % 7
  }

  /** pandas' `day_name()`. */
  const DayNames: seq<string> := ["Monday", "Tuesday", "Wednesday", "Thursday", "Friday", "Saturday", "Sunday"]

  function DayName(d: int): string
  {
    DayNames[DayOfWeek(d)]
  }

  /** Monday to Friday: `dayofweek < 5` in weekend_weekday.py, the five
      weekday names in dlss.py and combined.py. */
  const WeekdayDays: set<int> := {0, 1, 2, 3, 4}
  /** `dayofweek >= 5`. */
  const WeekendDays: set<int> := {5, 6}
  const SaturdayDays: set<int> := {5}
  const SundayDays: set<int> := {6}

  const WeekdayNames: set<string> := {"Monday", "Tuesday", "Wednesday", "Thursday", "Friday"}

  /** `df[mask]`: the rows whose date falls on one of `days`, in order. */
  function RowsOn(rows: seq<Row>, days: set<int>): (r: seq<Row>)
    ensures |r| <= |rows|
    ensures forall x :: x in r <==> x in rows && DayOfWeek(x.date) in days
  {
    if rows == [] then []
    else
      var init := RowsOn(rows[..|rows| - 1], days);
      var last := rows[|rows| - 1];
      assert rows == rows[..|rows| - 1] + [last];
      if DayOfWeek(last.date) in days then init + [last] else init
  }

  /** `IGNORE_SCNOS`. */
  const IgnoreScnos: set<string> := {"ELR1115", "ELR1158"}

  /** The client list after the ignore filter, in database order. */
  function Eligible(clients: seq<string>): (r: seq<string>)
    ensures forall s :: s in r <==> s in clients && s !in IgnoreScnos
  {
    if clients == [] then []
    else
      var init := Eligible(clients[..|clients| - 1]);
      var last := clients[|clients| - 1];
      assert clients == clients[..|clients| - 1] + [last];
      if last in IgnoreScnos then init else init + [last]
  }

  /** Membership in a list split before its last element. */
  lemma InInitOrLast(xs: seq<string>, s: string)
    requires xs != []
    ensures s in xs <==> s in xs[..|xs| - 1] || s == xs[|xs| - 1]
  {
    if s in xs {
      var k :| 0 <= k < |xs| && xs[k] == s;
      if k < |xs| - 1 {
        assert xs[..|xs| - 1][k] == s;
      }
    }
    if s in xs[..|xs| - 1] {
      var k :| 0 <= k < |xs| - 1 && xs[..|xs| - 1][k] == s;
      assert xs[k] == s;
    }
  }

  /** The name-based masks of dlss.py select the same days as the number
      based ones of weekend_weekday.py. */
  lemma DayNamesAgree(d: int)
    ensures DayName(d) in WeekdayNames <==> DayOfWeek(d) in WeekdayDays
    ensures DayName(d) == "Saturday" <==> DayOfWeek(d) in SaturdayDays
    ensures DayName(d) == "Sunday" <==> DayOfWeek(d) in SundayDays
    ensures DayOfWeek(d) in WeekendDays <==> DayOfWeek(d) >= 5
  {
  }

  /** Filtering on two disjoint sets of days splits the rows filtered on
      their union. */
  lemma {:induction false} SplitDays(rows: seq<Row>, a: set<int>, b: set<int>)
    requires a !! b
    ensures multiset(RowsOn(rows, a)) + multiset(RowsOn(rows, b)) == multiset(RowsOn(rows, a + b))
  {
    if rows != [] {
      SplitDays(rows[..|rows| - 1], a, b);
    }
  }

  /** Every row falls on some day of the week. */
  lemma {:induction false} AllDaysKeepsAll(rows: seq<Row>)
    ensures RowsOn(rows, WeekdayDays + WeekendDays) == rows
  {
    if rows != [] {
      AllDaysKeepsAll(rows[..|rows| - 1]);
      var w := DayOfWeek(rows[|rows| - 1].date);
      assert w in WeekdayDays + WeekendDays by {
        assert 0 <= w < 7;
      }
    }
  }

  /** The weekday and weekend frames together hold each row exactly once. */
  lemma WeekdayWeekendPartition(rows: seq<Row>)
    ensures multiset(RowsOn(rows, WeekdayDays)) + multiset(RowsOn(rows, WeekendDays)) == multiset(rows)
  {
    SplitDays(rows, WeekdayDays, WeekendDays);
    AllDaysKeepsAll(rows);
  }

  /** The weekday, Saturday and Sunday frames together hold each row
      exactly once. */
  lemma WeekdaySaturdaySundayPartition(rows: seq<Row>)
    ensures multiset(RowsOn(rows, WeekdayDays)) + multiset(RowsOn(rows, SaturdayDays))
      + multiset(RowsOn(rows, SundayDays)) == multiset(rows)
  {
    SplitDays(rows, SaturdayDays, SundayDays);
    assert SaturdayDays + SundayDays == WeekendDays;
    WeekdayWeekendPartition(rows);
  }

  /** A reading goes to the weekend frame exactly when its date is a
      Saturday or a Sunday. */
  lemma WeekendMembership(rows: seq<Row>, x: Row)
    requires x in rows
    ensures x in RowsOn(rows, WeekendDays) <==> DayName(x.date) == "Saturday" || DayName(x.date) == "Sunday"
    ensures x in RowsOn(rows, WeekdayDays) <==> DayName(x.date) in WeekdayNames
  {
    DayNamesAgree(x.date);
  }

  /** 1970-01-01 (day 0) was a Thursday; a week later is the same weekday. */
  lemma CalendarAnchor(d: int)
    ensures DayName(0) == "Thursday"
    ensures DayOfWeek(d + 7) == DayOfWeek(d)
  {
  }
}
