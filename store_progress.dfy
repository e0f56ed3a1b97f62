/** The daily progress log of the store, as values: what `addToProgress`,
    `removeFromProgress`, the progress half of `toggleQuestionComplete` and
    `getStreak` in storage.ts compute from it, and what they promise. Dates
    are day numbers; `today` is passed in. */
module StoreProgress {
  import opened Seqs
  import opened Types
  import opened StoreQuestions

  // ---------------------------------------------------------------------------
  // Adding and removing today's completions
  // ---------------------------------------------------------------------------

  /** `progress.find(p => p.date === date)`, as the position found. */
  function FindDate(progress: seq<DailyProgress>, date: int): (r: Option<nat>)
    ensures r.None? <==> forall i :: 0 <= i < |progress| ==> progress[i].date != date
    ensures r.Some? ==> r.value < |progress| && progress[r.value].date == date
                        && forall i :: 0 <= i < r.value ==> progress[i].date != date
  {
    if progress == [] then None
    else if progress[0].date == date then Some(0)
    else match FindDate(progress[1..], date)
      case None => None
      case Some(k) => Some(k + 1)
  }

  /** `addToProgress`: a first completion today opens `{today, 1, [id]}`;
      otherwise an id not yet listed is appended and the count refreshed,
      and an id already listed changes nothing. */
  function Added(progress: seq<DailyProgress>, today: int, id: string): seq<DailyProgress> {
    match FindDate(progress, today)
    case None => progress + [DailyProgress(today, 1, [id])]
    case Some(k) =>
      var e := progress[k];
      if id in e.questions then progress
      else progress[k := e.(questions := e.questions + [id], count := |e.questions| + 1)]
  }

  /** The test `id !== questionId`. */
  function IdIsNot(id: string): string -> bool {
    (x: string) => x != id
  }

  /** `removeFromProgress`: without an entry for today nothing changes;
      otherwise every occurrence of the id leaves today's list and the count
      is refreshed. The entry stays, even when it becomes empty. */
  function Removed(progress: seq<DailyProgress>, today: int, id: string): seq<DailyProgress> {
    match FindDate(progress, today)
    case None => progress
    case Some(k) =>
      var e := progress[k];
      var kept := Filter(e.questions, IdIsNot(id));
      progress[k := e.(questions := kept, count := |kept|)]
  }

  predicate NoDuplicates<T(==)>(s: seq<T>) {
    forall a, b :: 0 <= a < b < |s| ==> s[a] != s[b]
  }

  /** The log the store keeps: each count is the number of listed ids, no id
      is listed twice on a day, and no day has two entries. */
  predicate Consistent(progress: seq<DailyProgress>) {
    (forall i :: 0 <= i < |progress| ==> progress[i].count == |progress[i].questions|)
    && (forall i :: 0 <= i < |progress| ==> NoDuplicates(progress[i].questions))
    && (forall i, j :: 0 <= i < j < |progress| ==> progress[i].date != progress[j].date)
  }

  /** Today's entry in a log, when there is one. */
  function TodayEntry(progress: seq<DailyProgress>, today: int): Option<DailyProgress> {
    match FindDate(progress, today)
    case None => None
    case Some(k) => Some(progress[k])
  }

  /** Adding creates today's entry when it is missing, lists the id in it,
      touches no other entry, and keeps the log consistent. */
  lemma AddedSpec(progress: seq<DailyProgress>, today: int, id: string)
    ensures var r := Added(progress, today, id);
            (FindDate(progress, today).None? ==> r == progress + [DailyProgress(today, 1, [id])])
            && (FindDate(progress, today).Some? ==>
                  var k := FindDate(progress, today).value;
                  |r| == |progress| && r[k].date == today
                  && r[k].questions == (if id in progress[k].questions then progress[k].questions
                                        else progress[k].questions + [id])
                  && (id !in progress[k].questions ==> r[k].count == |r[k].questions|)
                  && (id in progress[k].questions ==> r == progress)
                  && forall i :: 0 <= i < |progress| && i != k ==> r[i] == progress[i])
            && TodayEntry(r, today).Some? && id in TodayEntry(r, today).value.questions
            && (Consistent(progress) ==> Consistent(r))
  {
    var r := Added(progress, today, id);
    assert TodayEntry(r, today).Some? && id in TodayEntry(r, today).value.questions by {
      AddedToday(progress, today, id);
    }
    assert Consistent(progress) ==> Consistent(r) by {
      if Consistent(progress) {
        AddedConsistent(progress, today, id);
      }
    }
  }

  /** After adding, today has an entry and it lists the id. */
  lemma AddedToday(progress: seq<DailyProgress>, today: int, id: string)
    ensures TodayEntry(Added(progress, today, id), today).Some?
    ensures id in TodayEntry(Added(progress, today, id), today).value.questions
  {
    var r := Added(progress, today, id);
    match FindDate(progress, today)
    case None =>
      assert r[|progress|].date == today;
      assert FindDate(r, today) == Some(|progress|);
    case Some(k) =>
      assert FindDate(r, today) == Some(k) by {
        FindDateSameDates(progress, r, today);
      }
  }

  /** Adding keeps the log consistent. */
  lemma AddedConsistent(progress: seq<DailyProgress>, today: int, id: string)
    requires Consistent(progress)
    ensures Consistent(Added(progress, today, id))
  {
    var r := Added(progress, today, id);
    match FindDate(progress, today)
    case None =>
      assert r == progress + [DailyProgress(today, 1, [id])];
    case Some(k) =>
      if id !in progress[k].questions {
        assert NoDuplicates(r[k].questions);
      }
  }

  /** Removing, when today has an entry, takes the id out of it and refreshes
      its count, keeps the entry, touches no other entry, and keeps the log
      consistent; without an entry for today it changes nothing. */
  lemma RemovedSpec(progress: seq<DailyProgress>, today: int, id: string)
    ensures var r := Removed(progress, today, id);
            (FindDate(progress, today).None? ==> r == progress)
            && (FindDate(progress, today).Some? ==>
                  var k := FindDate(progress, today).value;
                  |r| == |progress| && r[k].date == today
                  && IsSubseq(r[k].questions, progress[k].questions)
                  && (forall x :: x in r[k].questions <==> x in progress[k].questions && x != id)
                  && (forall x :: multiset(r[k].questions)[x] ==
                                  (if x == id then 0 else multiset(progress[k].questions)[x]))
                  && r[k].count == |r[k].questions|
                  && forall i :: 0 <= i < |progress| && i != k ==> r[i] == progress[i])
            && (Consistent(progress) ==> Consistent(r))
  {
    match FindDate(progress, today)
    case None =>
    case Some(k) =>
      var qs := progress[k].questions;
      FilterIsSubseq(qs, IdIsNot(id));
      forall x ensures x in Filter(qs, IdIsNot(id)) <==> x in qs && x != id {
        FilterMembership(qs, IdIsNot(id), x);
      }
      forall x
        ensures multiset(Filter(qs, IdIsNot(id)))[x] == (if x == id then 0 else multiset(qs)[x])
      {
        FilterCount(qs, IdIsNot(id), x);
      }
      if Consistent(progress) {
        FilterNoDuplicates(qs, IdIsNot(id));
      }
  }

  /** Filtering a list without duplicates leaves none. */
  lemma {:induction false} FilterNoDuplicates<T>(s: seq<T>, p: T -> bool)
    requires NoDuplicates(s)
    ensures NoDuplicates(Filter(s, p))
  {
    if s != [] {
      var init, x := s[..|s| - 1], s[|s| - 1];
      FilterNoDuplicates(init, p);
      FilterMembership(init, p, x);
      assert x !in init;
    }
  }

  /** Two logs with the same dates, position by position, find the same entry. */
  lemma {:induction false} FindDateSameDates(a: seq<DailyProgress>, b: seq<DailyProgress>, date: int)
    requires |a| == |b| && forall i :: 0 <= i < |a| ==> a[i].date == b[i].date
    ensures FindDate(a, date) == FindDate(b, date)
  {
    if a != [] {
      FindDateSameDates(a[1..], b[1..], date);
    }
  }

  /** After a removal today's entry, if any, no longer lists the id. */
  lemma RemovedDropsId(progress: seq<DailyProgress>, today: int, id: string)
    ensures TodayEntry(Removed(progress, today, id), today).Some? == FindDate(progress, today).Some?
    ensures TodayEntry(Removed(progress, today, id), today).Some? ==>
              id !in TodayEntry(Removed(progress, today, id), today).value.questions
  {
    var r := Removed(progress, today, id);
    RemovedSpec(progress, today, id);
    if FindDate(progress, today).Some? {
      FindDateSameDates(progress, r, today);
    }
  }

  // ---------------------------------------------------------------------------
  // The completion toggle (the progress side)
  // ---------------------------------------------------------------------------

  /** The log after `toggleQuestionComplete(id)`: nothing for an unknown id;
      otherwise the id is added to today's entry when the question becomes
      completed and removed when it stops being completed. */
  function ToggledProgress(qs: seq<Question>, progress: seq<DailyProgress>, today: int, id: string): seq<DailyProgress> {
    match FindById(qs, id)
    case None => progress
    case Some(k) => if !qs[k].completed then Added(progress, today, id) else Removed(progress, today, id)
  }

  /** An unknown id changes neither list. */
  lemma ToggleUnknownId(qs: seq<Question>, progress: seq<DailyProgress>, today: int, id: string)
    requires forall i :: 0 <= i < |qs| ==> qs[i].id != id
    ensures ToggledQuestions(qs, id) == qs
    ensures ToggledProgress(qs, progress, today, id) == progress
  {
  }

  /** Adding the id and then removing it leaves today's entry as a removal
      alone would, or an empty entry for today when there was none. */
  lemma AddThenRemove(progress: seq<DailyProgress>, today: int, id: string)
    ensures FindDate(progress, today).Some? ==>
              Removed(Added(progress, today, id), today, id) == Removed(progress, today, id)
    ensures FindDate(progress, today).None? ==>
              Removed(Added(progress, today, id), today, id) == progress + [DailyProgress(today, 0, [])]
  {
    if FindDate(progress, today).Some? {
      AddThenRemoveExisting(progress, today, id);
    } else {
      AddThenRemoveNew(progress, today, id);
    }
  }

  lemma AddThenRemoveNew(progress: seq<DailyProgress>, today: int, id: string)
    requires FindDate(progress, today).None?
    ensures Removed(Added(progress, today, id), today, id) == progress + [DailyProgress(today, 0, [])]
  {
    var p1 := progress + [DailyProgress(today, 1, [id])];
    assert Added(progress, today, id) == p1;
    assert FindDate(p1, today) == Some(|progress|) by {
      FindDateAppend(progress, DailyProgress(today, 1, [id]), today);
    }
    assert Filter([id], IdIsNot(id)) == [];
  }

  /** A date missing from a log is found at the entry appended to it. */
  lemma {:induction false} FindDateAppend(progress: seq<DailyProgress>, e: DailyProgress, date: int)
    requires FindDate(progress, date).None? && e.date == date
    ensures FindDate(progress + [e], date) == Some(|progress|)
  {
    if progress != [] {
      FindDateAppend(progress[1..], e, date);
      assert (progress + [e])[1..] == progress[1..] + [e];
    }
  }

  lemma AddThenRemoveExisting(progress: seq<DailyProgress>, today: int, id: string)
    requires FindDate(progress, today).Some?
    ensures Removed(Added(progress, today, id), today, id) == Removed(progress, today, id)
  {
    var j := FindDate(progress, today).value;
    var p1 := Added(progress, today, id);
    var e := progress[j];
    FindDateSameDates(progress, p1, today);
    if id !in e.questions {
      assert p1[j].questions == e.questions + [id];
      FilterConcat(e.questions, [id], IdIsNot(id));
      assert Filter([id], IdIsNot(id)) == [];
      assert Filter(p1[j].questions, IdIsNot(id)) == Filter(e.questions, IdIsNot(id));
    }
  }

  /** Removing an id that today's entry of a consistent log does not list changes nothing. */
  lemma RemoveAbsent(progress: seq<DailyProgress>, today: int, id: string)
    requires Consistent(progress) && FindDate(progress, today).Some?
    requires id !in progress[FindDate(progress, today).value].questions
    ensures Removed(progress, today, id) == progress
  {
    var e := progress[FindDate(progress, today).value];
    forall i | 0 <= i < |e.questions| ensures IdIsNot(id)(e.questions[i]) {
    }
    FilterKeepsAll(e.questions, IdIsNot(id));
  }

  /** Toggling an uncompleted question twice on the same day restores the
      question list, and leaves today's entry as a removal of the id would:
      exactly the old log when today's entry existed without the id, the old
      log plus an empty entry for today when there was none. */
  lemma ToggleTwice(qs: seq<Question>, progress: seq<DailyProgress>, today: int, id: string)
    requires FindById(qs, id).Some? && !qs[FindById(qs, id).value].completed
    ensures var qs1 := ToggledQuestions(qs, id);
            var p1 := ToggledProgress(qs, progress, today, id);
            var p2 := ToggledProgress(qs1, p1, today, id);
            ToggledQuestions(qs1, id) == qs
            && (FindDate(progress, today).Some? ==> p2 == Removed(progress, today, id))
            && (FindDate(progress, today).None? ==> p2 == progress + [DailyProgress(today, 0, [])])
            && ((Consistent(progress) && FindDate(progress, today).Some?
                 && id !in progress[FindDate(progress, today).value].questions) ==> p2 == progress)
            && TodayEntry(p2, today).Some? && id !in TodayEntry(p2, today).value.questions
  {
    var k := FindById(qs, id).value;
    var qs1 := ToggledQuestions(qs, id);
    ToggleTwiceQuestions(qs, id);
    ToggleKeepsIds(qs, id, id);
    var p1 := Added(progress, today, id);
    assert ToggledProgress(qs, progress, today, id) == p1;
    assert qs1[k].completed;
    assert ToggledProgress(qs1, p1, today, id) == Removed(p1, today, id);
    AddedSpec(progress, today, id);
    RemovedDropsId(p1, today, id);
    AddThenRemove(progress, today, id);
    if Consistent(progress) && FindDate(progress, today).Some?
       && id !in progress[FindDate(progress, today).value].questions {
      RemoveAbsent(progress, today, id);
    }
  }

  // ---------------------------------------------------------------------------
  // The streak
  // ---------------------------------------------------------------------------

  /** `progress.filter(p => p.count > 0).map(p => p.date)`. */
  function ActiveDates(progress: seq<DailyProgress>): (r: seq<int>)
    ensures |r| <= |progress|
  {
    if progress == [] then []
    else
      var last := progress[|progress| - 1];
      ActiveDates(progress[..|progress| - 1]) + (if last.count > 0 then [last.date] else [])
  }

  /** A date is active exactly when some entry with a positive count carries it. */
  lemma {:induction false} ActiveDatesMembership(progress: seq<DailyProgress>, d: int)
    ensures d in ActiveDates(progress) <==> exists i :: 0 <= i < |progress| && progress[i].count > 0 && progress[i].date == d
  {
    if progress != [] {
      var init := progress[..|progress| - 1];
      ActiveDatesMembership(init, d);
      if exists i :: 0 <= i < |progress| && progress[i].count > 0 && progress[i].date == d {
        var i :| 0 <= i < |progress| && progress[i].count > 0 && progress[i].date == d;
        if i < |init| {
          assert init[i] == progress[i];
        }
      }
    }
  }

  /** Distinct entry dates give distinct active dates. */
  lemma {:induction false} ActiveDatesDistinct(progress: seq<DailyProgress>)
    requires forall i, j :: 0 <= i < j < |progress| ==> progress[i].date != progress[j].date
    ensures NoDuplicates(ActiveDates(progress))
  {
    if progress != [] {
      var init, last := progress[..|progress| - 1], progress[|progress| - 1];
      ActiveDatesDistinct(init);
      ActiveDatesMembership(init, last.date);
    }
  }

  /** Descending order, the order `sort((a, b) => b - a)` produces. */
  predicate SortedDesc(s: seq<int>) {
    forall i, j :: 0 <= i < j < |s| ==> s[i] >= s[j]
  }

  function Insert(x: int, s: seq<int>): seq<int> {
    if s == [] then [x] else if x >= s[0] then [x] + s else [s[0]] + Insert(x, s[1..])
  }

  /** The array sort with a descending comparator. */
  function SortDesc(s: seq<int>): seq<int> {
    if s == [] then [] else Insert(s[0], SortDesc(s[1..]))
  }

  /** A list headed by `h` is descending when its tail is and `h` bounds it. */
  lemma SortedCons(h: int, t: seq<int>)
    requires SortedDesc(t) && forall y :: y in multiset(t) ==> h >= y
    ensures SortedDesc([h] + t)
  {
    var r := [h] + t;
    forall i, j | 0 <= i < j < |r| ensures r[i] >= r[j] {
      assert r[j] == t[j - 1];
      assert t[j - 1] in multiset(t);
      if i > 0 {
        assert r[i] == t[i - 1];
      }
    }
  }

  /** The head of a descending list bounds its tail. */
  lemma SortedHead(s: seq<int>)
    requires s != [] && SortedDesc(s)
    ensures SortedDesc(s[1..]) && forall y :: y in multiset(s) ==> s[0] >= y
  {
    forall y | y in multiset(s) ensures s[0] >= y {
      var m :| 0 <= m < |s| && s[m] == y;
    }
  }

  lemma {:induction false} InsertMultiset(x: int, s: seq<int>)
    ensures multiset(Insert(x, s)) == multiset(s) + multiset{x}
  {
    if s != [] && x < s[0] {
      InsertMultiset(x, s[1..]);
      assert s == [s[0]] + s[1..];
    }
  }

  lemma {:induction false} InsertSpec(x: int, s: seq<int>)
    requires SortedDesc(s)
    ensures SortedDesc(Insert(x, s))
    ensures multiset(Insert(x, s)) == multiset(s) + multiset{x}
  {
    InsertMultiset(x, s);
    if s == [] {
    } else if x >= s[0] {
      SortedHead(s);
      SortedCons(x, s);
    } else {
      SortedHead(s);
      var t := s[1..];
      assert s == [s[0]] + t;
      InsertSpec(x, t);
      SortedCons(s[0], Insert(x, t));
    }
  }

  /** Sorting yields a descending permutation of the dates. */
  lemma {:induction false} SortDescSpec(s: seq<int>)
    ensures SortedDesc(SortDesc(s))
    ensures multiset(SortDesc(s)) == multiset(s)
    ensures |SortDesc(s)| == |s|
  {
    if s != [] {
      SortDescSpec(s[1..]);
      InsertSpec(s[0], SortDesc(s[1..]));
      assert s == [s[0]] + s[1..];
    }
    assert |SortDesc(s)| == |multiset(SortDesc(s))|;
  }

  /** The loop of `getStreak` from position `i` on: it advances while the
      previous date is exactly one day after the current one, and the streak
      is the position where it stops. */
  function RunFrom(s: seq<int>, i: nat): (r: nat)
    requires 1 <= i <= |s|
    ensures i <= r <= |s|
    decreases |s| - i
  {
    if i < |s| && s[i - 1] - s[i] == 1 then RunFrom(s, i + 1) else i
  }

  /** `getStreak`, on day `today`. */
  function Streak(progress: seq<DailyProgress>, today: int): nat {
    if |progress| == 0 then 0
    else
      var sorted := SortDesc(ActiveDates(progress));
      if sorted == [] then 0
      else if sorted[0] != today && sorted[0] != today - 1 then 0
      else RunFrom(sorted, 1)
  }

  /** The run stops at a gap other than one day, or at the end, and before
      that the dates go down one day at a time. */
  lemma {:induction false} RunFromSpec(s: seq<int>, i: nat)
    requires 1 <= i <= |s|
    requires forall k :: 0 <= k < i ==> s[k] == s[0] - k
    ensures var r := RunFrom(s, i);
            (forall k :: 0 <= k < r ==> s[k] == s[0] - k)
            && (r == |s| || s[r - 1] - s[r] != 1)
    decreases |s| - i
  {
    if i < |s| && s[i - 1] - s[i] == 1 {
      RunFromSpec(s, i + 1);
    }
  }

  /** The streak never exceeds the number of entries with a positive count. */
  lemma StreakBound(progress: seq<DailyProgress>, today: int)
    ensures Streak(progress, today) <= |ActiveDates(progress)|
  {
    SortDescSpec(ActiveDates(progress));
  }

  /** The first sorted date is the latest active date. */
  lemma SortedNewest(active: seq<int>) returns (newest: int)
    requires active != []
    ensures SortDesc(active) != [] && newest == SortDesc(active)[0]
    ensures newest in active && forall d :: d in active ==> d <= newest
  {
    var s := SortDesc(active);
    SortDescSpec(active);
    assert active[0] in multiset(s);
    newest := s[0];
    assert newest in multiset(active);
    forall d | d in active ensures d <= newest {
      assert d in multiset(s);
      var m :| 0 <= m < |s| && s[m] == d;
      if m > 0 {
        assert s[0] >= s[m];
      }
    }
  }

  /** In a strictly descending list whose first `n` entries go down one day
      at a time and then stop, the days `s[0] - n + 1 .. s[0]` are all
      present and `s[0] - n` is not. */
  lemma RunCovers(s: seq<int>, n: nat)
    requires 1 <= n <= |s|
    requires forall i, j :: 0 <= i < j < |s| ==> s[i] > s[j]
    requires forall k :: 0 <= k < n ==> s[k] == s[0] - k
    requires n == |s| || s[n - 1] - s[n] != 1
    ensures forall d :: s[0] - n < d <= s[0] ==> d in s
    ensures s[0] - n !in s
  {
    forall d | s[0] - n < d <= s[0] ensures d in s {
      assert s[s[0] - d] == d;
    }
    forall m | 0 <= m < |s| ensures s[m] != s[0] - n {
      if m >= n {
        assert s[n] < s[n - 1];
        assert s[m] <= s[n];
      }
    }
  }

  /** What the streak means. Let `newest` be the latest day with a positive
      count. The streak is 0 exactly when there is no such day or `newest` is
      neither today nor yesterday. Otherwise, with one entry per day, the
      streak is the length of the unbroken run of active days ending at
      `newest`: each of the `Streak` days up to `newest` is active, and the
      day before them is not. The requirement holds for every log the store
      can reach: `ConsistentDistinctActive` derives it from `Consistent`,
      which every store operation keeps. */
  lemma StreakSpec(progress: seq<DailyProgress>, today: int) returns (newest: int)
    requires NoDuplicates(ActiveDates(progress))
    ensures var active := ActiveDates(progress);
            var n := Streak(progress, today);
            (active != [] ==> newest in active && forall d :: d in active ==> d <= newest)
            && (n == 0 <==> active == [] || (newest != today && newest != today - 1))
            && (n > 0 ==> (forall d :: newest - n < d <= newest ==> d in active) && newest - n !in active)
  {
    var active := ActiveDates(progress);
    if active == [] {
      newest := today;
      SortDescSpec(active);
    } else {
      newest := SortedNewest(active);
      if newest == today || newest == today - 1 {
        ActiveRun(active);
      }
    }
  }

  /** The run counted from the latest active date covers consecutive active
      days and stops just before a day that is not active. */
  lemma ActiveRun(active: seq<int>)
    requires active != [] && NoDuplicates(active)
    ensures SortDesc(active) != []
    ensures var s := SortDesc(active);
            var n := RunFrom(s, 1);
            (forall d :: s[0] - n < d <= s[0] ==> d in active) && s[0] - n !in active
  {
    var s := SortDesc(active);
    SortDescSpec(active);
    var n := RunFrom(s, 1);
    RunFromSpec(s, 1);
    SortedDistinct(s, active);
    RunCovers(s, n);
    forall d | s[0] - n < d <= s[0] ensures d in active {
      assert d in s;
      assert d in multiset(s);
      assert d in multiset(active);
    }
    assert s[0] - n !in multiset(s);
    assert s[0] - n !in multiset(active);
  }

  /** A descending permutation of a list without duplicates strictly descends. */
  lemma SortedDistinct(s: seq<int>, a: seq<int>)
    requires SortedDesc(s) && multiset(s) == multiset(a) && NoDuplicates(a)
    ensures forall i, j :: 0 <= i < j < |s| ==> s[i] > s[j]
  {
    NoDuplicatesCount(a);
    forall i, j | 0 <= i < j < |s| ensures s[i] > s[j] {
      if s[i] == s[j] {
        TwiceCounted(s, i, j);
      }
    }
  }

  lemma {:induction false} NoDuplicatesCount(a: seq<int>)
    requires NoDuplicates(a)
    ensures forall x :: multiset(a)[x] <= 1
  {
    if a != [] {
      var init := a[..|a| - 1];
      NoDuplicatesCount(init);
      assert a == init + [a[|a| - 1]];
      assert a[|a| - 1] !in multiset(init);
    }
  }

  lemma TwiceCounted(s: seq<int>, i: nat, j: nat)
    requires i < j < |s| && s[i] == s[j]
    ensures multiset(s)[s[i]] >= 2
  {
    assert s == s[..j] + s[j..];
    assert s[i] in multiset(s[..j]);
    assert s[j] in multiset(s[j..]);
  }

  /** A consistent log has one entry per day, so the streak lemma applies. */
  lemma ConsistentDistinctActive(progress: seq<DailyProgress>)
    requires Consistent(progress)
    ensures NoDuplicates(ActiveDates(progress))
  {
    ActiveDatesDistinct(progress);
  }

  /** Three sample logs: activity yesterday and today gives 2; activity today
      and two days before gives 1; activity last three days ago gives 0. */
  lemma StreakSamples(today: int)
    ensures Streak([DailyProgress(today - 1, 2, ["a", "b"]), DailyProgress(today, 1, ["c"])], today) == 2
    ensures Streak([DailyProgress(today - 2, 1, ["a"]), DailyProgress(today, 1, ["b"])], today) == 1
    ensures Streak([DailyProgress(today - 3, 1, ["a"])], today) == 0
  {
    var p1 := [DailyProgress(today - 1, 2, ["a", "b"]), DailyProgress(today, 1, ["c"])];
    assert p1[..1] == [p1[0]];
    assert ActiveDates([p1[0]]) == [today - 1];
    assert ActiveDates(p1) == [today - 1, today];
    SortPair(today - 1, today);
    RunFromPair(today, today - 1);
    var p2 := [DailyProgress(today - 2, 1, ["a"]), DailyProgress(today, 1, ["b"])];
    assert p2[..1] == [p2[0]];
    assert ActiveDates([p2[0]]) == [today - 2];
    assert ActiveDates(p2) == [today - 2, today];
    SortPair(today - 2, today);
    RunFromPair(today, today - 2);
    var p3 := [DailyProgress(today - 3, 1, ["a"])];
    assert ActiveDates(p3) == [today - 3];
    assert SortDesc([today - 3]) == Insert(today - 3, []);
  }

  lemma SortPair(a: int, b: int)
    requires a < b
    ensures SortDesc([a, b]) == [b, a]
  {
    assert [a, b][1..] == [b];
    assert SortDesc([b]) == Insert(b, SortDesc([])) == [b];
    assert Insert(a, [b]) == [b] + Insert(a, []);
  }

  lemma RunFromPair(a: int, b: int)
    ensures RunFrom([a, b], 1) == if a - b == 1 then 2 else 1
  {
    if a - b == 1 {
      assert RunFrom([a, b], 1) == RunFrom([a, b], 2);
    }
  }
}
