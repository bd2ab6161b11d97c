/** The reports screen: the ranked category list with its percentages, the
    evangelism and bible-study totals of the shown period, the weekly task
    count, and stepping the shown date back and forth. */
module ReportsView {
  import opened Base
  import opened Calendar
  import opened TaskTypes
  import opened TaskUtils
  import SubCategorySelector

  datatype ViewType = Daily | Weekly

  datatype Direction = Prev | Next

  // ---------------------------------------------------------------------------
  // Date navigation
  // ---------------------------------------------------------------------------

  /** One day in the daily view, seven in the weekly one. */
  function StepDays(v: ViewType): int {
    if v == Daily then 1 else 7
  }

  /** `navigateDate`: back by `subDays`, forward by adding whole days of
      milliseconds; on a fixed-offset clock both move the date by whole
      days and keep its time of day. */
  function NavigateDate(z: Zone, v: ViewType, dir: Direction, date: int): (r: int)
    ensures DayOf(z, r) == DayOf(z, date) + (if dir == Next then StepDays(v) else -StepDays(v))
    ensures MsOfDay(z, r) == MsOfDay(z, date)
  {
    var days := StepDays(v);
    var r := if dir == Prev then AddDays(date, -days) else date + days * 24 * 60 * 60 * 1000;
    assert r == AddDays(date, if dir == Next then days else -days);
    AddDaysShiftsDay(z, date, if dir == Next then days else -days);
    r
  }

  /** Forward undoes back and back undoes forward. */
  lemma NavigateRoundTrip(z: Zone, v: ViewType, date: int)
    ensures NavigateDate(z, v, Next, NavigateDate(z, v, Prev, date)) == date
    ensures NavigateDate(z, v, Prev, NavigateDate(z, v, Next, date)) == date
  {
    AddDaysCompose(date, -StepDays(v), StepDays(v));
    AddDaysCompose(date, StepDays(v), -StepDays(v));
  }

  /** In the weekly view a step lands in the neighbouring week, on the same
      weekday. */
  lemma WeeklyStepIsNeighbourWeek(z: Zone, dir: Direction, date: int)
    ensures var r := NavigateDate(z, Weekly, dir, date);
            && WeekStartDay(z, r) == WeekStartDay(z, date) + (if dir == Next then 7 else -7)
            && Weekday(z, r) == Weekday(z, date)
  {
    var r := NavigateDate(z, Weekly, dir, date);
    var k := if dir == Next then 7 else -7;
    WeekStartDayShift(WeekStartDay(z, date), DayOf(z, date), WeekStartDay(z, r), DayOf(z, r), k);
  }

  lemma WeekStartDayShift(w: int, d: int, w2: int, d2: int, k: int)
    requires w <= d < w + 7 && (w + 4) % 7 == 0
    requires w2 <= d2 < w2 + 7 && (w2 + 4) % 7 == 0
    requires d2 == d + k && k % 7 == 0
    ensures w2 == w + k
    ensures (d2 + 4) % 7 == (d + 4) % 7
  {
    assert (w2 - w - k) % 7 == 0;
    assert -7 < w2 - w - k < 7;
  }

  // ---------------------------------------------------------------------------
  // Ranked categories
  // ---------------------------------------------------------------------------

  /** A category's position among the breakdown's keys. */
  function Rank(c: Category): (r: nat)
    ensures r < |Categories| && Categories[r] == c
  {
    match c
    case Evangelism => 0
    case Prayer => 1
    case BibleStudy => 2
    case Meditation => 3
    case Literature => 4
    case Fellowship => 5
    case Other => 6
  }

  /** One `[category, time]` pair of `Object.entries`. */
  type Entry = (Category, int)

  /** `Object.entries(categoryBreakdown)`: the pairs in key order. */
  function Entries(b: Breakdown): (r: seq<Entry>)
    requires IsTotal(b)
    ensures |r| == |Categories|
    ensures forall i :: 0 <= i < |r| ==> r[i] == (Categories[i], b[Categories[i]])
    ensures forall e :: e in r <==> e.1 == b[e.0]
  {
    var r := [(Evangelism, b[Evangelism]), (Prayer, b[Prayer]), (BibleStudy, b[BibleStudy]),
              (Meditation, b[Meditation]), (Literature, b[Literature]), (Fellowship, b[Fellowship]),
              (Other, b[Other])];
    assert forall e: Entry :: e.1 == b[e.0] ==> r[Rank(e.0)] == e;
    r
  }

  /** `x` comes before `y` in the ranked list: more time first, and on equal
      time the earlier key first, as a stable sort of the keys by
      decreasing time leaves them. */
  predicate Before(x: Entry, y: Entry) {
    x.1 > y.1 || (x.1 == y.1 && Rank(x.0) < Rank(y.0))
  }

  predicate Ordered(s: seq<Entry>) {
    forall i, j :: 0 <= i < j < |s| ==> Before(s[i], s[j])
  }

  /** The keys of `s` appear in key order. */
  predicate KeyOrder(s: seq<Entry>) {
    forall i, j :: 0 <= i < j < |s| ==> Rank(s[i].0) < Rank(s[j].0)
  }

  /** Puts `x` into the ranked list `s`: before the first entry with less
      time, so after every entry with as much. */
  function Insert(x: Entry, s: seq<Entry>): (r: seq<Entry>)
    ensures multiset(r) == multiset(s) + multiset{x}
  {
    if |s| == 0 || s[0].1 < x.1 then [x] + s
    else
      assert s == [s[0]] + s[1..];
      [s[0]] + Insert(x, s[1..])
  }

  /** Equal multisets have equal members. */
  lemma SameMembers(r: seq<Entry>, s: seq<Entry>)
    requires multiset(r) == multiset(s)
    ensures forall e :: e in r <==> e in s
  {
    forall e ensures e in r <==> e in s {
      assert e in r <==> e in multiset(r);
      assert e in s <==> e in multiset(s);
    }
  }

  /** A ranked list stays ranked after `x` goes in, when `x`'s key comes
      after all of the list's keys. */
  lemma {:induction false} InsertOrdered(x: Entry, s: seq<Entry>)
    requires Ordered(s)
    requires forall k :: 0 <= k < |s| ==> Rank(s[k].0) < Rank(x.0)
    ensures Ordered(Insert(x, s))
  {
    var r := Insert(x, s);
    if |s| == 0 || s[0].1 < x.1 {
      forall i, j | 0 <= i < j < |r| ensures Before(r[i], r[j]) {
        if i == 0 {
          if j > 1 {
            assert Before(s[0], s[j - 1]);
          }
        } else {
          assert Before(s[i - 1], s[j - 1]);
        }
      }
    } else {
      var tail := s[1..];
      assert Ordered(tail) by {
        forall i, j | 0 <= i < j < |tail| ensures Before(tail[i], tail[j]) {
          assert Before(s[i + 1], s[j + 1]);
        }
      }
      InsertOrdered(x, tail);
      var rest := Insert(x, tail);
      SameMembers(rest, tail + [x]);
      forall i, j | 0 <= i < j < |r| ensures Before(r[i], r[j]) {
        if i == 0 {
          assert r[j] == rest[j - 1];
          assert r[j] in tail + [x];
          if r[j] != x {
            var k :| 0 <= k < |tail| && tail[k] == r[j];
            assert Before(s[0], s[k + 1]);
          }
        } else {
          assert r[i] == rest[i - 1] && r[j] == rest[j - 1];
        }
      }
    }
  }

  /** The stable sort by decreasing time of a list already in key order:
      each later entry goes in after the ones with as much time. */
  function Sort(s: seq<Entry>): (r: seq<Entry>)
    ensures multiset(r) == multiset(s)
  {
    if |s| == 0 then []
    else
      var init := s[..|s| - 1];
      assert s == init + [s[|s| - 1]];
      Insert(s[|s| - 1], Sort(init))
  }

  /** Sorting a list in key order ranks it. */
  lemma {:induction false} SortOrdered(s: seq<Entry>)
    requires KeyOrder(s)
    ensures Ordered(Sort(s))
  {
    if |s| > 0 {
      var init := s[..|s| - 1];
      var last := s[|s| - 1];
      assert KeyOrder(init) by {
        forall i, j | 0 <= i < j < |init| ensures Rank(init[i].0) < Rank(init[j].0) {
          assert init[i] == s[i] && init[j] == s[j];
        }
      }
      SortOrdered(init);
      var sorted := Sort(init);
      SameMembers(sorted, init);
      forall k | 0 <= k < |sorted| ensures Rank(sorted[k].0) < Rank(last.0) {
        assert sorted[k] in init;
        var m :| 0 <= m < |init| && init[m] == sorted[k];
        assert s[m] == init[m];
      }
      InsertOrdered(last, sorted);
    }
  }

  /** A breakdown pair with some time. */
  predicate HasTime(e: Entry) {
    e.1 > 0
  }

  /** `topCategories`: the categories with time, most time first, ties in
      key order. */
  function TopCategories(b: Breakdown): (r: seq<Entry>)
    requires IsTotal(b)
    ensures forall e :: e in r <==> e.1 > 0 && e.1 == b[e.0]
    ensures Ordered(r)
  {
    var s := Filter(Entries(b), HasTime);
    EntriesKeyOrder(b);
    FilterKeyOrder(Entries(b), HasTime);
    SortOrdered(s);
    SameMembers(Sort(s), s);
    Sort(s)
  }

  lemma EntriesKeyOrder(b: Breakdown)
    requires IsTotal(b)
    ensures KeyOrder(Entries(b))
  {
    var r := Entries(b);
    assert forall i :: 0 <= i < |r| ==> Rank(r[i].0) == i by {
      assert Rank(r[0].0) == 0 && Rank(r[1].0) == 1 && Rank(r[2].0) == 2 && Rank(r[3].0) == 3;
      assert Rank(r[4].0) == 4 && Rank(r[5].0) == 5 && Rank(r[6].0) == 6;
    }
  }

  /** Filtering keeps a list in key order. */
  lemma {:induction false} FilterKeyOrder(s: seq<Entry>, p: Entry -> bool)
    requires KeyOrder(s)
    ensures KeyOrder(Filter(s, p))
  {
    if |s| > 0 {
      KeyOrderTail(s);
      FilterKeyOrder(s[1..], p);
      if p(s[0]) {
        var rest := Filter(s[1..], p);
        forall e | e in rest ensures Rank(s[0].0) < Rank(e.0) {
          KeyOrderHead(s, e);
        }
        KeyOrderCons(s[0], rest);
        assert Filter(s, p) == [s[0]] + rest;
      } else {
        assert Filter(s, p) == Filter(s[1..], p);
      }
    }
  }

  lemma KeyOrderTail(s: seq<Entry>)
    requires KeyOrder(s) && |s| > 0
    ensures KeyOrder(s[1..])
  {
    var t := s[1..];
    forall i, j | 0 <= i < j < |t| ensures Rank(t[i].0) < Rank(t[j].0) {
      assert t[i] == s[i + 1] && t[j] == s[j + 1];
    }
  }

  lemma KeyOrderHead(s: seq<Entry>, e: Entry)
    requires KeyOrder(s) && |s| > 0 && e in s[1..]
    ensures Rank(s[0].0) < Rank(e.0)
  {
    var k :| 0 <= k < |s[1..]| && s[1..][k] == e;
    assert s[k + 1] == e;
  }

  lemma KeyOrderCons(x: Entry, rest: seq<Entry>)
    requires KeyOrder(rest)
    requires forall e :: e in rest ==> Rank(x.0) < Rank(e.0)
    ensures KeyOrder([x] + rest)
  {
    var r := [x] + rest;
    forall i, j | 0 <= i < j < |r| ensures Rank(r[i].0) < Rank(r[j].0) {
      assert r[j] == rest[j - 1];
      if i > 0 {
        assert r[i] == rest[i - 1];
      }
    }
  }

  /** In a ranked list the head comes before every other member. */
  lemma OrderedHead(a: seq<Entry>, e: Entry)
    requires Ordered(a) && |a| > 0 && e in a
    ensures e == a[0] || Before(a[0], e)
  {
    var k :| 0 <= k < |a| && a[k] == e;
    if k > 0 {
      assert Before(a[0], a[k]);
    }
  }

  lemma TailMultiset(a: seq<Entry>)
    requires |a| > 0
    ensures multiset(a[1..]) == multiset(a) - multiset{a[0]}
  {
    assert a == [a[0]] + a[1..];
  }

  lemma OrderedTail(a: seq<Entry>)
    requires Ordered(a) && |a| > 0
    ensures Ordered(a[1..])
  {
    var t := a[1..];
    forall i, j | 0 <= i < j < |t| ensures Before(t[i], t[j]) {
      assert Before(a[i + 1], a[j + 1]);
    }
  }

  /** Two ranked lists with the same entries start with the same entry. */
  lemma HeadsAgree(a: seq<Entry>, b: seq<Entry>)
    requires Ordered(a) && Ordered(b) && |a| > 0 && |b| > 0
    requires forall e :: e in a <==> e in b
    ensures a[0] == b[0]
  {
    OrderedHead(a, b[0]);
    OrderedHead(b, a[0]);
  }

  /** Two ranked lists with the same entries are the same list: the ranked
      list is fully determined by the breakdown. */
  lemma {:induction false} OrderedUnique(a: seq<Entry>, b: seq<Entry>)
    requires Ordered(a) && Ordered(b) && multiset(a) == multiset(b)
    ensures a == b
    decreases |a|
  {
    assert |a| == |b| by {
      assert |multiset(a)| == |a| && |multiset(b)| == |b|;
    }
    if |a| > 0 {
      SameMembers(a, b);
      HeadsAgree(a, b);
      TailMultiset(a);
      TailMultiset(b);
      OrderedTail(a);
      OrderedTail(b);
      OrderedUnique(a[1..], b[1..]);
      assert a == [a[0]] + a[1..] && b == [b[0]] + b[1..];
    }
  }

  /** Any ranking of the categories with time, by decreasing time with ties
      in key order, is `topCategories`. */
  lemma TopCategoriesIsTheRanking(b: Breakdown, r: seq<Entry>)
    requires IsTotal(b)
    requires multiset(r) == multiset(Filter(Entries(b), HasTime)) && Ordered(r)
    ensures r == TopCategories(b)
  {
    var s := Filter(Entries(b), HasTime);
    EntriesKeyOrder(b);
    FilterKeyOrder(Entries(b), HasTime);
    SortOrdered(s);
    OrderedUnique(r, Sort(s));
  }

  /** The shares of the ranked categories in the period's total, each
      between 0 and 100 when no category's time is negative. */
  lemma TopPercentagesBounded(b: Breakdown, e: Entry)
    requires IsTotal(b)
    requires b[Evangelism] >= 0 && b[Prayer] >= 0 && b[BibleStudy] >= 0 && b[Meditation] >= 0
    requires b[Literature] >= 0 && b[Fellowship] >= 0 && b[Other] >= 0
    requires e in TopCategories(b)
    ensures 0 <= SubCategorySelector.Percentage(e.1, BreakdownSum(b)) <= 100
  {
    assert e.1 == b[e.0];
    assert e.1 <= BreakdownSum(b) by {
      match e.0
      case Evangelism =>
      case Prayer =>
      case BibleStudy =>
      case Meditation =>
      case Literature =>
      case Fellowship =>
      case Other =>
    }
    SubCategorySelector.PercentageBounds(e.1, BreakdownSum(b));
  }

  // ---------------------------------------------------------------------------
  // The period's tasks
  // ---------------------------------------------------------------------------

  /** `dailySummaries.flatMap(d => d.tasks)`. */
  function Flatten(ds: seq<DailySummary>): seq<Task> {
    if |ds| == 0 then [] else Flatten(ds[..|ds| - 1]) + ds[|ds| - 1].tasks
  }

  /** The tasks the report covers: the day's, or the week's days' in order. */
  function ReportTasks(v: ViewType, daily: DailySummary, weekly: WeeklySummary): seq<Task> {
    if v == Daily then daily.tasks else Flatten(weekly.dailySummaries)
  }

  /** The weekly count: `reduce((acc, d) => acc + d.tasks.length, 0)`. */
  function WeeklyTaskCount(ds: seq<DailySummary>): (n: int)
    ensures n == |Flatten(ds)|
  {
    if |ds| == 0 then 0 else WeeklyTaskCount(ds[..|ds| - 1]) + |ds[|ds| - 1].tasks|
  }

  /** A task is in the weekly report exactly when some day of the week lists
      it. */
  lemma {:induction false} FlattenMembers(ds: seq<DailySummary>, t: Task)
    ensures t in Flatten(ds) <==> exists k :: 0 <= k < |ds| && t in ds[k].tasks
  {
    if |ds| > 0 {
      var init := ds[..|ds| - 1];
      FlattenMembers(init, t);
      if t in Flatten(init) {
        var k :| 0 <= k < |init| && t in init[k].tasks;
        assert ds[k] == init[k];
      }
      if exists k :: 0 <= k < |ds| && t in ds[k].tasks {
        var k :| 0 <= k < |ds| && t in ds[k].tasks;
        if k < |ds| - 1 {
          assert init[k] == ds[k];
        }
      }
    }
  }

  // ---------------------------------------------------------------------------
  // Evangelism and bible-study totals
  // ---------------------------------------------------------------------------

  datatype EvangelismTotals = EvangelismTotals(tractsShared: int, peoplePrayed: int, repentances: int, invitations: int)

  const NoEvangelism: EvangelismTotals := EvangelismTotals(0, 0, 0, 0)

  function Plus(a: EvangelismTotals, b: EvangelismTotals): EvangelismTotals {
    EvangelismTotals(a.tractsShared + b.tractsShared, a.peoplePrayed + b.peoplePrayed,
                     a.repentances + b.repentances, a.invitations + b.invitations)
  }

  /** An evangelism task that carries its record. */
  predicate IsEvangelismReport(t: Task) {
    t.category == Evangelism && t.evangelismDetails.Some?
  }

  /** The counts one task adds to the totals. */
  function EvangelismCounts(t: Task): EvangelismTotals {
    if t.evangelismDetails.Some? then
      var d := t.evangelismDetails.value;
      EvangelismTotals(d.tractsShared, d.peoplePrayed, d.repentances, d.invitations)
    else NoEvangelism
  }

  /** The `reduce` over the selected tasks. */
  function SumEvangelism(ts: seq<Task>): EvangelismTotals {
    if |ts| == 0 then NoEvangelism else Plus(SumEvangelism(ts[..|ts| - 1]), EvangelismCounts(ts[|ts| - 1]))
  }

  /** `evangelismTotals`: the counts of the evangelism tasks with a record. */
  function EvangelismTotalsOf(ts: seq<Task>): (r: EvangelismTotals)
    ensures r == SumShares(ts)
  {
    EvangelismTotalsAreShares(ts);
    SumEvangelism(Filter(ts, IsEvangelismReport))
  }

  /** Every task's share, counted only for evangelism tasks. */
  function EvangelismShare(t: Task): EvangelismTotals {
    if t.category == Evangelism then EvangelismCounts(t) else NoEvangelism
  }

  function SumShares(ts: seq<Task>): EvangelismTotals {
    if |ts| == 0 then NoEvangelism else Plus(SumShares(ts[..|ts| - 1]), EvangelismShare(ts[|ts| - 1]))
  }

  /** The totals are every evangelism task's counts summed, with a missing
      record counting as zero: tasks of other categories add nothing. */
  lemma {:induction false} EvangelismTotalsAreShares(ts: seq<Task>)
    ensures SumEvangelism(Filter(ts, IsEvangelismReport)) == SumShares(ts)
  {
    if |ts| > 0 {
      var init, last := ts[..|ts| - 1], ts[|ts| - 1];
      var fi, fl := Filter(init, IsEvangelismReport), Filter([last], IsEvangelismReport);
      assert ts == init + [last];
      FilterAppend(init, [last], IsEvangelismReport);
      SumEvangelismAppend(fi, fl);
      EvangelismTotalsAreShares(init);
      OneTaskShare(last);
      calc {
        SumEvangelism(Filter(ts, IsEvangelismReport));
        SumEvangelism(fi + fl);
        Plus(SumEvangelism(fi), SumEvangelism(fl));
        Plus(SumShares(init), EvangelismShare(last));
        SumShares(ts);
      }
    }
  }

  /** A single task adds its share to the totals, whatever its category. */
  lemma OneTaskShare(t: Task)
    ensures SumEvangelism(Filter([t], IsEvangelismReport)) == EvangelismShare(t)
  {
    if IsEvangelismReport(t) {
      assert Filter([t], IsEvangelismReport) == [t];
      assert SumEvangelism([t]) == EvangelismShare(t) by {
        assert [t][..0] == [];
      }
    } else {
      assert Filter([t], IsEvangelismReport) == [];
    }
  }

  lemma PlusAssociative(x: EvangelismTotals, y: EvangelismTotals, z: EvangelismTotals)
    ensures Plus(Plus(x, y), z) == Plus(x, Plus(y, z))
  {
  }

  lemma {:induction false} SumEvangelismAppend(a: seq<Task>, b: seq<Task>)
    ensures SumEvangelism(a + b) == Plus(SumEvangelism(a), SumEvangelism(b))
    decreases |b|
  {
    if |b| == 0 {
      assert a + b == a;
    } else {
      var b' := b[..|b| - 1];
      var last := b[|b| - 1];
      assert (a + b)[..|a + b| - 1] == a + b';
      assert (a + b)[|a + b| - 1] == last;
      SumEvangelismAppend(a, b');
      PlusAssociative(SumEvangelism(a), SumEvangelism(b'), EvangelismCounts(last));
    }
  }

  /** Totals of one week's days, day by day. */
  function DailyEvangelism(ds: seq<DailySummary>): EvangelismTotals {
    if |ds| == 0 then NoEvangelism
    else Plus(DailyEvangelism(ds[..|ds| - 1]), EvangelismTotalsOf(ds[|ds| - 1].tasks))
  }

  /** The weekly evangelism totals are the sum of the daily ones. */
  lemma {:induction false} WeeklyEvangelismIsDailySum(ds: seq<DailySummary>)
    ensures EvangelismTotalsOf(Flatten(ds)) == DailyEvangelism(ds)
  {
    if |ds| > 0 {
      var init := ds[..|ds| - 1];
      WeeklyEvangelismIsDailySum(init);
      FilterAppend(Flatten(init), ds[|ds| - 1].tasks, IsEvangelismReport);
      SumEvangelismAppend(Filter(Flatten(init), IsEvangelismReport),
                          Filter(ds[|ds| - 1].tasks, IsEvangelismReport));
    }
  }

  /** A bible-study task that carries its record. */
  predicate IsBibleStudyReport(t: Task) {
    t.category == BibleStudy && t.bibleStudyDetails.Some?
  }

  function SumChapters(ts: seq<Task>): int {
    if |ts| == 0 then 0
    else
      var last := ts[|ts| - 1];
      SumChapters(ts[..|ts| - 1]) + (if last.bibleStudyDetails.Some? then last.bibleStudyDetails.value.chaptersRead else 0)
  }

  /** `bibleStudyTotals.chaptersRead`. */
  function ChaptersRead(ts: seq<Task>): (n: int)
    ensures n == ChapterShares(ts)
  {
    ChaptersAreShares(ts);
    SumChapters(Filter(ts, IsBibleStudyReport))
  }

  /** A task's chapters, counted only for bible-study tasks. */
  function ChapterShare(t: Task): int {
    if t.category == BibleStudy && t.bibleStudyDetails.Some? then t.bibleStudyDetails.value.chaptersRead else 0
  }

  /** Every task's chapter share summed over the whole list. */
  function ChapterShares(ts: seq<Task>): int {
    if |ts| == 0 then 0 else ChapterShares(ts[..|ts| - 1]) + ChapterShare(ts[|ts| - 1])
  }

  /** The chapter total is the bible-study tasks' chapters summed: the
      filtered sum equals a sum over every task in which other tasks, and
      bible-study tasks without a record, add nothing. */
  lemma {:induction false} ChaptersAreShares(ts: seq<Task>)
    ensures SumChapters(Filter(ts, IsBibleStudyReport)) == ChapterShares(ts)
  {
    if |ts| > 0 {
      var init, last := ts[..|ts| - 1], ts[|ts| - 1];
      var fi, fl := Filter(init, IsBibleStudyReport), Filter([last], IsBibleStudyReport);
      assert ts == init + [last];
      FilterAppend(init, [last], IsBibleStudyReport);
      SumChaptersAppend(fi, fl);
      ChaptersAreShares(init);
      if IsBibleStudyReport(last) {
        assert fl == [last];
        assert SumChapters(fl) == ChapterShare(last) by { assert [last][..0] == []; }
      } else {
        assert fl == [];
      }
    }
  }

  lemma {:induction false} SumChaptersAppend(a: seq<Task>, b: seq<Task>)
    ensures SumChapters(a + b) == SumChapters(a) + SumChapters(b)
    decreases |b|
  {
    if |b| > 0 {
      var b' := b[..|b| - 1];
      assert (a + b)[..|a + b| - 1] == a + b';
      SumChaptersAppend(a, b');
    } else {
      assert a + b == a;
    }
  }
}
