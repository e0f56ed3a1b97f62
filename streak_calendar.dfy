/** The activity calendar of the dashboard (StreakCalendar.tsx): the last
    year of days laid out as week columns starting on a Sunday, each day
    carrying the number of questions completed on it, and the shade a
    count is drawn with. Dates are day numbers (day 0 is 1970-01-01, a
    Thursday); "today" is a parameter. */
module StreakCalendar {
  import opened Types

  /** `getDay()`: 0 for Sunday up to 6 for Saturday. */
  function Weekday(d: int): (r: int)
    ensures 0 <= r < 7
  {
    (d + 4) % 7
  }

  /** The first day shown: 364 days back, then back to that week's Sunday. */
  function StartDate(today: int): int {
    var back := today - 364;
    back - Weekday(back)
  }

  /** The first day shown is a Sunday, between 364 and 370 days before
      today, so the calendar holds between 365 and 371 days. */
  lemma StartDateSpec(today: int)
    ensures Weekday(StartDate(today)) == 0
    ensures 364 <= today - StartDate(today) <= 370
  {
  }

  /** `new Map(progress.map(p => [p.date, p.count]))`: later entries for a
      date overwrite earlier ones. */
  function ProgressMap(progress: seq<DailyProgress>): map<int, int> {
    if progress == [] then map[]
    else
      var last := progress[|progress| - 1];
      ProgressMap(progress[..|progress| - 1])[last.date := last.count]
  }

  /** The map has a key for every logged date and for nothing else, and holds
      the count of the last entry with that date. */
  lemma {:induction false} ProgressMapSpec(progress: seq<DailyProgress>)
    ensures forall d :: d in ProgressMap(progress) <==> exists i :: 0 <= i < |progress| && progress[i].date == d
    ensures forall i :: 0 <= i < |progress| && (forall j :: i < j < |progress| ==> progress[j].date != progress[i].date) ==>
              ProgressMap(progress)[progress[i].date] == progress[i].count
  {
    if progress != [] {
      var init, last := progress[..|progress| - 1], progress[|progress| - 1];
      ProgressMapSpec(init);
      forall d | d in ProgressMap(progress) ensures exists i :: 0 <= i < |progress| && progress[i].date == d {
        if d != last.date {
          assert d in ProgressMap(init);
          var i :| 0 <= i < |init| && init[i].date == d;
          assert progress[i] == init[i];
        }
      }
      forall d | exists i :: 0 <= i < |progress| && progress[i].date == d ensures d in ProgressMap(progress) {
        var i :| 0 <= i < |progress| && progress[i].date == d;
        if i < |init| {
          assert init[i] == progress[i];
        }
      }
      forall i | 0 <= i < |progress| && (forall j :: i < j < |progress| ==> progress[j].date != progress[i].date)
        ensures ProgressMap(progress)[progress[i].date] == progress[i].count
      {
        if i < |init| {
          assert init[i] == progress[i];
          forall j | i < j < |init| ensures init[j].date != init[i].date {
            assert init[j] == progress[j];
          }
        }
      }
    }
  }

  /** `progressMap.get(dateStr) || 0`: a missing date (and a zero) reads as 0. */
  function CountOn(m: map<int, int>, d: int): int {
    if d in m then m[d] else 0
  }

  /** One calendar cell. */
  datatype Day = Day(date: int, count: int)

  /** The cells from the start date up to today, one per day, in order. */
  function Cells(progress: seq<DailyProgress>, today: int): seq<Day> {
    var start := StartDate(today);
    var m := ProgressMap(progress);
    seq(today - start + 1, k requires 0 <= k < today - start + 1 => Day(start + k, CountOn(m, start + k)))
  }

  /** The days cut into consecutive weeks of seven, the last one possibly shorter. */
  function Weeks<T>(s: seq<T>): seq<seq<T>>
    decreases |s|
  {
    if s == [] then []
    else if |s| <= 7 then [s]
    else [s[..7]] + Weeks(s[7..])
  }

  /** Cutting a whole number of weeks first does not change the cut. */
  lemma {:induction false} WeeksAppend<T>(a: seq<T>, b: seq<T>, k: nat)
    requires |a| == 7 * k
    ensures Weeks(a + b) == Weeks(a) + Weeks(b)
  {
    if k == 0 {
      assert a + b == b;
    } else if b == [] {
      assert a + b == a;
    } else {
      var ab := a + b;
      assert ab[..7] == a[..7];
      assert ab[7..] == a[7..] + b;
      WeeksAppend(a[7..], b, k - 1);
      if k == 1 {
        assert a[7..] == [] && a[..7] == a;
      }
    }
  }

  /** `calendarData`: walk the days from the start date to today, pushing each
      day to the current week and the week to `weeks` once it has seven days;
      a last, unfinished week is pushed at the end. */
  method CalendarData(progress: seq<DailyProgress>, today: int) returns (weeks: seq<seq<Day>>)
    ensures weeks == Weeks(Cells(progress, today))
  {
    var startDate := today - 364;
    startDate := startDate - Weekday(startDate);
    var progressMap := ProgressMap(progress);
    ghost var cells := Cells(progress, today);
    var currentWeek: seq<Day> := [];
    var currentDate := startDate;
    weeks := [];
    while currentDate <= today
      invariant startDate <= currentDate <= today + 1
      invariant |currentWeek| < 7 && currentDate - startDate == 7 * |weeks| + |currentWeek|
      invariant weeks == Weeks(cells[..7 * |weeks|])
      invariant currentWeek == cells[7 * |weeks|..currentDate - startDate]
      decreases today - currentDate
    {
      ghost var done := 7 * |weeks|;
      currentWeek := currentWeek + [Day(currentDate, CountOn(progressMap, currentDate))];
      assert currentWeek == cells[done..currentDate - startDate + 1];
      if |currentWeek| == 7 {
        assert cells[..done + 7] == cells[..done] + currentWeek;
        WeeksAppend(cells[..done], currentWeek, |weeks|);
        weeks := weeks + [currentWeek];
        currentWeek := [];
      }
      currentDate := currentDate + 1;
    }
    ghost var done := 7 * |weeks|;
    assert cells == cells[..done] + currentWeek;
    WeeksAppend(cells[..done], currentWeek, |weeks|);
    if |currentWeek| > 0 {
      weeks := weeks + [currentWeek];
    } else {
      assert cells[..done] == cells;
    }
  }

  /** The week of `s` holding position `7 * w + k` holds it at place `k`;
      every week but the last has seven days and the last has one to seven. */
  lemma {:induction false} WeeksShape<T>(s: seq<T>)
    ensures |Weeks(s)| == (|s| + 6) / 7
    ensures forall w :: 0 <= w < |Weeks(s)| ==> 1 <= |Weeks(s)[w]| <= 7
    ensures forall w :: 0 <= w < |Weeks(s)| - 1 ==> |Weeks(s)[w]| == 7
    ensures s != [] ==> |Weeks(s)[|Weeks(s)| - 1]| == |s| - 7 * (|Weeks(s)| - 1)
    ensures forall w, k :: 0 <= w < |Weeks(s)| && 0 <= k < |Weeks(s)[w]| ==>
              7 * w + k < |s| && Weeks(s)[w][k] == s[7 * w + k]
    decreases |s|
  {
    if |s| > 7 {
      var rest := s[7..];
      WeeksShape(rest);
      var ws := Weeks(s);
      assert ws == [s[..7]] + Weeks(rest);
      assert |ws| == |Weeks(rest)| + 1;
      assert 7 * (|ws| - 1) == 7 * (|Weeks(rest)| - 1) + 7;
      forall w, k | 0 <= w < |ws| && 0 <= k < |ws[w]| ensures 7 * w + k < |s| && ws[w][k] == s[7 * w + k] {
        if w > 0 {
          assert ws[w] == Weeks(rest)[w - 1];
          assert 7 * (w - 1) + k + 7 == 7 * w + k;
          assert rest[7 * (w - 1) + k] == s[7 * w + k];
        }
      }
    }
  }

  /** Seven days later is the same weekday. */
  lemma {:induction false} WeekdayShift(d: int, w: nat, k: int)
    requires Weekday(d) == 0 && 0 <= k < 7
    ensures Weekday(d + 7 * w + k) == k
  {
    if w > 0 {
      WeekdayShift(d, w - 1, k);
      assert d + 7 * w + k == (d + 7 * (w - 1) + k) + 7;
    }
  }

  /** The calendar has 53 week columns: 52 full weeks and a last one of one
      to seven days, the last of which is today. */
  lemma CalendarLayout(progress: seq<DailyProgress>, today: int)
    ensures var weeks := Weeks(Cells(progress, today));
            |weeks| == 53
            && (forall w :: 0 <= w < 52 ==> |weeks[w]| == 7)
            && 1 <= |weeks[52]| <= 7
            && weeks[52][|weeks[52]| - 1].date == today
  {
    var cells := Cells(progress, today);
    StartDateSpec(today);
    assert 365 <= |cells| <= 371;
    WeeksShape(cells);
    var weeks: seq<seq<Day>> := Weeks(cells);
    assert |weeks| == 53;
    assert |weeks[52]| == |cells| - 7 * 52;
    assert weeks[52][|weeks[52]| - 1] == cells[|cells| - 1];
  }

  /** Column `w`, row `k` of the calendar shows the day `7 * w + k` days
      after the start date, which falls on weekday `k`, with its logged count. */
  lemma CalendarCells(progress: seq<DailyProgress>, today: int)
    ensures var weeks := Weeks(Cells(progress, today));
            forall w, k :: 0 <= w < |weeks| && 0 <= k < |weeks[w]| ==>
              weeks[w][k].date == StartDate(today) + 7 * w + k
              && Weekday(weeks[w][k].date) == k
              && weeks[w][k].count == CountOn(ProgressMap(progress), weeks[w][k].date)
  {
    var cells := Cells(progress, today);
    StartDateSpec(today);
    WeeksShape(cells);
    var weeks: seq<seq<Day>> := Weeks(cells);
    forall w, k | 0 <= w < |weeks| && 0 <= k < |weeks[w]|
      ensures weeks[w][k].date == StartDate(today) + 7 * w + k && Weekday(weeks[w][k].date) == k
    {
      assert weeks[w][k] == cells[7 * w + k];
      WeekdayShift(StartDate(today), w, k);
    }
  }

  /** A day's cell shows the count of the last log entry for that day, or 0
      when the day has no entry. */
  lemma CellCount(progress: seq<DailyProgress>, d: int)
    ensures (forall i :: 0 <= i < |progress| ==> progress[i].date != d) ==> CountOn(ProgressMap(progress), d) == 0
    ensures forall i :: 0 <= i < |progress| && progress[i].date == d
                        && (forall j :: i < j < |progress| ==> progress[j].date != d) ==>
              CountOn(ProgressMap(progress), d) == progress[i].count
  {
    ProgressMapSpec(progress);
  }

  // ---------------------------------------------------------------------------
  // Intensity shades
  // ---------------------------------------------------------------------------

  /** The five shades, from no activity to the most. */
  const Shades := ["bg-muted/30", "bg-primary/30", "bg-primary/50", "bg-primary/70", "bg-primary"]

  /** `getIntensityClass`. */
  function IntensityClass(count: int): string {
    if count == 0 then "bg-muted/30"
    else if count == 1 then "bg-primary/30"
    else if count <= 3 then "bg-primary/50"
    else if count <= 5 then "bg-primary/70"
    else "bg-primary"
  }

  /** The position of a shade in `Shades`, 5 for any other string. */
  function ShadeLevel(shade: string): (r: nat)
    ensures r <= 5
    ensures r < 5 ==> Shades[r] == shade
  {
    if shade == Shades[0] then 0
    else if shade == Shades[1] then 1
    else if shade == Shades[2] then 2
    else if shade == Shades[3] then 3
    else if shade == Shades[4] then 4
    else 5
  }

  /** The five shades are distinct, so each level is told apart on screen. */
  lemma ShadesDistinct()
    ensures forall i, j :: 0 <= i < j < |Shades| ==> Shades[i] != Shades[j]
  {
  }

  /** A count's shade is one of the five, picked by the buckets 0, 1, 2-3,
      4-5 and 6 or more; a negative count falls in the 2-3 bucket. */
  lemma IntensityBuckets(count: int)
    ensures ShadeLevel(IntensityClass(count)) < 5
    ensures ShadeLevel(IntensityClass(count)) == 0 <==> count == 0
    ensures ShadeLevel(IntensityClass(count)) == 1 <==> count == 1
    ensures ShadeLevel(IntensityClass(count)) == 2 <==> count < 0 || 2 <= count <= 3
    ensures ShadeLevel(IntensityClass(count)) == 3 <==> 4 <= count <= 5
    ensures ShadeLevel(IntensityClass(count)) == 4 <==> count >= 6
  {
  }

  /** More activity is never drawn lighter. */
  lemma IntensityMonotone(c1: int, c2: int)
    requires 0 <= c1 <= c2
    ensures ShadeLevel(IntensityClass(c1)) <= ShadeLevel(IntensityClass(c2))
  {
  }
}
