/** The data model of the ministry-task tracker: categories and their default
    sub-categories, the per-category detail records, timing sessions, tasks,
    the partial-task patch the store accepts, and the derived daily and
    weekly summaries.  Timestamps are integer milliseconds; durations are
    integer seconds. */
module TaskTypes {
  import opened Base

  /** The seven task categories, in the order the source declares them. */
  datatype Category = Evangelism | Prayer | BibleStudy | Meditation | Literature | Fellowship | Other

  const Categories: seq<Category> :=
    [Evangelism, Prayer, BibleStudy, Meditation, Literature, Fellowship, Other]

  /** There are exactly seven categories: the list names each one once. */
  lemma CategoriesComplete()
    ensures |Categories| == 7
    ensures forall c: Category :: c in Categories
    ensures forall i, j :: 0 <= i < j < |Categories| ==> Categories[i] != Categories[j]
  {
    forall c: Category ensures c in Categories {
      match c
      case Evangelism => assert Categories[0] == c;
      case Prayer => assert Categories[1] == c;
      case BibleStudy => assert Categories[2] == c;
      case Meditation => assert Categories[3] == c;
      case Literature => assert Categories[4] == c;
      case Fellowship => assert Categories[5] == c;
      case Other => assert Categories[6] == c;
    }
  }

  /** `SUB_CATEGORIES`: the default sub-category names offered per category. */
  function DefaultSubCategories(c: Category): seq<string> {
    match c
    case Evangelism => ["Street Evangelism", "Door-to-Door", "Campus Outreach", "Hospital Visitation", "Market Evangelism", "One-on-One", "Online Evangelism"]
    case Prayer => ["Personal Prayer", "Intercession", "Group Prayer", "Night Vigil", "Fasting Prayer", "Warfare Prayer", "Thanksgiving"]
    case BibleStudy => ["Personal Study", "Group Study", "Bible School", "Devotional", "Topical Study", "Book Study"]
    case Meditation => ["Scripture Meditation", "Worship Meditation", "Silent Meditation", "Listening Prayer"]
    case Literature => ["Christian Books", "Devotionals", "Theology", "Biography", "Ministry Materials"]
    case Fellowship => ["Cell Meeting", "Youth Fellowship", "Sunday Service", "Bible Study Group", "Prayer Meeting", "Outreach Team"]
    case Other => ["Ministry Work", "Volunteer Service", "Training", "Other"]
  }

  /** No two names in a list are equal. */
  predicate Distinct(names: seq<string>) {
    forall i, j :: 0 <= i < j < |names| ==> names[i] != names[j]
  }

  /** The shape every default list has: non-empty, of non-empty, pairwise
      distinct names. */
  predicate GoodNameList(names: seq<string>) {
    && |names| > 0
    && (forall i :: 0 <= i < |names| ==> |names[i]| > 0)
    && Distinct(names)
  }

  /** Every category has a non-empty default list of non-empty, pairwise
      distinct names. */
  lemma DefaultSubCategoriesWellFormed(c: Category)
    ensures |DefaultSubCategories(c)| > 0
    ensures forall i :: 0 <= i < |DefaultSubCategories(c)| ==> |DefaultSubCategories(c)[i]| > 0
    ensures Distinct(DefaultSubCategories(c))
  {
    match c
    case Evangelism => EvangelismDefaults();
    case Prayer => PrayerDefaults();
    case BibleStudy => BibleStudyDefaults();
    case Meditation => MeditationDefaults();
    case Literature => LiteratureDefaults();
    case Fellowship => FellowshipDefaults();
    case Other => OtherDefaults();
  }

  lemma EvangelismDefaults()
    ensures GoodNameList(DefaultSubCategories(Evangelism))
  {
  }

  lemma PrayerDefaults()
    ensures GoodNameList(DefaultSubCategories(Prayer))
  {
  }

  lemma BibleStudyDefaults()
    ensures GoodNameList(DefaultSubCategories(BibleStudy))
  {
  }

  lemma MeditationDefaults()
    ensures GoodNameList(DefaultSubCategories(Meditation))
  {
  }

  lemma LiteratureDefaults()
    ensures GoodNameList(DefaultSubCategories(Literature))
  {
  }

  lemma FellowshipDefaults()
    ensures GoodNameList(DefaultSubCategories(Fellowship))
  {
  }

  lemma OtherDefaults()
    ensures GoodNameList(DefaultSubCategories(Other))
  {
  }

  /** JavaScript truthiness of an optional string: present and non-empty. */
  predicate IsNamed(o: Option<string>) {
    o.Some? && |o.value| > 0
  }

  /** Seconds credited to one named sub-category of a task. */
  datatype SubCategoryTime = SubCategoryTime(subCategory: string, duration: int)

  datatype EvangelismDetails = EvangelismDetails(
    tractsShared: int, peoplePrayed: int, repentances: int, invitations: int, location: string)

  datatype PrayerType = Personal | Group | Intercession

  datatype PrayerDetails = PrayerDetails(prayerType: PrayerType, prayerPoints: seq<string>)

  datatype BibleStudyDetails = BibleStudyDetails(chaptersRead: int, book: string, notes: string)

  datatype MeditationDetails = MeditationDetails(scripture: string, revelation: string)

  datatype LiteratureDetails = LiteratureDetails(title: string, author: string, pagesRead: int)

  /** One timing interval of a task; `duration` is in whole seconds. */
  datatype Session = Session(
    id: string,
    startTime: int,
    endTime: Option<int>,
    duration: int,
    subCategory: Option<string>)

  /** A task.  The optional lists `customSubCategories` and
      `subCategoryBreakdown` are plain sequences: every reader treats a
      missing list as the empty one. */
  datatype Task = Task(
    id: string,
    title: string,
    category: Category,
    description: Option<string>,
    location: Option<string>,
    notes: Option<string>,
    createdAt: int,
    updatedAt: int,
    sessions: seq<Session>,
    totalTime: int,
    isActive: bool,
    currentSessionStart: Option<int>,
    currentSubCategory: Option<string>,
    customSubCategories: seq<string>,
    subCategoryBreakdown: seq<SubCategoryTime>,
    evangelismDetails: Option<EvangelismDetails>,
    prayerDetails: Option<PrayerDetails>,
    bibleStudyDetails: Option<BibleStudyDetails>,
    meditationDetails: Option<MeditationDetails>,
    literatureDetails: Option<LiteratureDetails>)

  /** `Partial<Task>`: each field is either absent (`None`) or given.  For a
      field that is itself optional, `Some(None)` is an explicit `undefined`. */
  datatype TaskPatch = TaskPatch(
    id: Option<string>,
    title: Option<string>,
    category: Option<Category>,
    description: Option<Option<string>>,
    location: Option<Option<string>>,
    notes: Option<Option<string>>,
    createdAt: Option<int>,
    updatedAt: Option<int>,
    sessions: Option<seq<Session>>,
    totalTime: Option<int>,
    isActive: Option<bool>,
    currentSessionStart: Option<Option<int>>,
    currentSubCategory: Option<Option<string>>,
    customSubCategories: Option<seq<string>>,
    subCategoryBreakdown: Option<seq<SubCategoryTime>>,
    evangelismDetails: Option<Option<EvangelismDetails>>,
    prayerDetails: Option<Option<PrayerDetails>>,
    bibleStudyDetails: Option<Option<BibleStudyDetails>>,
    meditationDetails: Option<Option<MeditationDetails>>,
    literatureDetails: Option<Option<LiteratureDetails>>)

  /** The empty patch `{}`. */
  const EmptyPatch: TaskPatch :=
    TaskPatch(None, None, None, None, None, None, None, None, None, None,
              None, None, None, None, None, None, None, None, None, None)

  // ---------------------------------------------------------------------------
  // Timing ledger
  // ---------------------------------------------------------------------------

  /** `Math.floor((now - start) / 1000)`: whole seconds between two instants.
      Dafny's `/` by a positive divisor rounds down, as `Math.floor` does. */
  function ElapsedSeconds(start: int, now: int): (r: int)
    ensures r * 1000 <= now - start < (r + 1) * 1000
  {
    (now - start) / 1000
  }

  /** The summed duration of a list of sessions (the source's
      `sessions.reduce((acc, s) => acc + s.duration, 0)`). */
  function SessionTotal(ss: seq<Session>): int {
    if |ss| == 0 then 0 else SessionTotal(ss[..|ss| - 1]) + ss[|ss| - 1].duration
  }

  /** The summed duration of the sessions tagged with sub-category `name`. */
  function TaggedTotal(ss: seq<Session>, name: string): int {
    if |ss| == 0 then 0
    else
      TaggedTotal(ss[..|ss| - 1], name) +
      (if ss[|ss| - 1].subCategory == Some(name) then ss[|ss| - 1].duration else 0)
  }

  /** Some breakdown entry is named `name`. */
  predicate HasEntry(bd: seq<SubCategoryTime>, name: string) {
    exists i :: 0 <= i < |bd| && bd[i].subCategory == name
  }

  /** Every breakdown entry carries a non-empty name. */
  predicate NamedEntries(bd: seq<SubCategoryTime>) {
    forall i :: 0 <= i < |bd| ==> |bd[i].subCategory| > 0
  }

  /** No two breakdown entries carry the same name. */
  predicate UniqueNames(bd: seq<SubCategoryTime>) {
    forall i, j :: 0 <= i < j < |bd| ==> bd[i].subCategory != bd[j].subCategory
  }

  /** Each entry holds the summed durations of the sessions tagged with its
      name. */
  predicate EntriesMatch(ss: seq<Session>, bd: seq<SubCategoryTime>) {
    forall i :: 0 <= i < |bd| ==> bd[i].duration == TaggedTotal(ss, bd[i].subCategory)
  }

  /** Every session tagged with a non-empty name has an entry. */
  predicate TagsCovered(ss: seq<Session>, bd: seq<SubCategoryTime>) {
    forall k :: 0 <= k < |ss| && IsNamed(ss[k].subCategory) ==> HasEntry(bd, ss[k].subCategory.value)
  }

  /** The bookkeeping a task's timer maintains: `totalTime` is the sum of the
      closed sessions; the breakdown has one entry per non-empty name, each
      holding the summed durations of the sessions tagged with that name; and
      every session tagged with a non-empty name has its entry. */
  predicate LedgerConsistent(t: Task) {
    && t.totalTime == SessionTotal(t.sessions)
    && NamedEntries(t.subCategoryBreakdown)
    && UniqueNames(t.subCategoryBreakdown)
    && EntriesMatch(t.sessions, t.subCategoryBreakdown)
    && TagsCovered(t.sessions, t.subCategoryBreakdown)
  }

  /** A task is running exactly when it holds the start of its open session. */
  predicate TimerCoherent(t: Task) {
    t.isActive <==> t.currentSessionStart.Some?
  }

  predicate WellFormed(t: Task) {
    LedgerConsistent(t) && TimerCoherent(t)
  }

  predicate StoreWellFormed(tasks: seq<Task>) {
    forall t :: t in tasks ==> WellFormed(t)
  }

  predicate UniqueIds(tasks: seq<Task>) {
    forall i, j :: 0 <= i < j < |tasks| ==> tasks[i].id != tasks[j].id
  }

  /** Appending a session adds its duration to the total. */
  lemma SessionTotalAppend(ss: seq<Session>, s: Session)
    ensures SessionTotal(ss + [s]) == SessionTotal(ss) + s.duration
  {
    assert (ss + [s])[..|ss|] == ss;
  }

  /** Appending a session adds its duration to its own tag's total only. */
  lemma TaggedTotalAppend(ss: seq<Session>, s: Session, name: string)
    ensures TaggedTotal(ss + [s], name) ==
            TaggedTotal(ss, name) + (if s.subCategory == Some(name) then s.duration else 0)
  {
    assert (ss + [s])[..|ss|] == ss;
  }

  /** A name no session carries has nothing credited to it. */
  lemma {:induction false} TaggedTotalUnused(ss: seq<Session>, name: string)
    requires forall k :: 0 <= k < |ss| ==> ss[k].subCategory != Some(name)
    ensures TaggedTotal(ss, name) == 0
  {
    if |ss| > 0 {
      TaggedTotalUnused(ss[..|ss| - 1], name);
    }
  }

  /** A per-category time table (`Record<TaskCategory, number>`). */
  type Breakdown = map<Category, int>

  /** The table has an entry for every category. */
  predicate IsTotal(b: Breakdown) {
    forall c: Category :: c in b
  }

  /** The sum of a total table's seven entries. */
  function BreakdownSum(b: Breakdown): int
    requires IsTotal(b)
  {
    b[Evangelism] + b[Prayer] + b[BibleStudy] + b[Meditation] +
    b[Literature] + b[Fellowship] + b[Other]
  }

  /** The table with every category at 0 seconds. */
  const ZeroBreakdown: Breakdown :=
    map[Evangelism := 0, Prayer := 0, BibleStudy := 0, Meditation := 0,
        Literature := 0, Fellowship := 0, Other := 0]

  datatype DailySummary = DailySummary(
    date: int, tasks: seq<Task>, totalTime: int, categoryBreakdown: Breakdown)

  datatype WeeklySummary = WeeklySummary(
    weekStart: int, weekEnd: int, dailySummaries: seq<DailySummary>,
    totalTime: int, categoryBreakdown: Breakdown)
}
