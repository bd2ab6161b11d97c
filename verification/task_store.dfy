/** The task store (`useTaskStore`): the list of tasks and the operations the
    application performs on it.  Every operation maps or filters the list.
    `now` is the instant an operation runs at and fresh ids are passed in,
    standing in for `new Date()` and `generateId()`. */
module TaskStore {
  import opened Base
  import opened Calendar
  import opened TaskTypes
  import opened TaskUtils

  // ---------------------------------------------------------------------------
  // Applying an operation to the tasks with one id
  // ---------------------------------------------------------------------------

  /** `prev.map(task => task.id === taskId ? f(task) : task)`: `f` applied to
      every task with the id, every other task left exactly as it was. */
  function MapWhere(tasks: seq<Task>, id: string, f: Task -> Task): (r: seq<Task>)
    ensures |r| == |tasks|
    ensures forall i :: 0 <= i < |tasks| && tasks[i].id != id ==> r[i] == tasks[i]
    ensures forall i :: 0 <= i < |tasks| && tasks[i].id == id ==> r[i] == f(tasks[i])
  {
    if |tasks| == 0 then []
    else
      var rest := MapWhere(tasks[1..], id, f);
      var r := [if tasks[0].id == id then f(tasks[0]) else tasks[0]] + rest;
      assert forall i :: 1 <= i < |tasks| ==> r[i] == rest[i - 1] && tasks[1..][i - 1] == tasks[i];
      r
  }

  /** An operation that keeps ids and well-formedness, applied through
      `MapWhere`, keeps both for the whole store. */
  lemma MapWhereStore(tasks: seq<Task>, id: string, f: Task -> Task)
    requires forall t :: f(t).id == t.id
    requires forall t :: WellFormed(t) ==> WellFormed(f(t))
    ensures StoreWellFormed(tasks) ==> StoreWellFormed(MapWhere(tasks, id, f))
    ensures UniqueIds(tasks) ==> UniqueIds(MapWhere(tasks, id, f))
  {
    var r := MapWhere(tasks, id, f);
    assert forall i :: 0 <= i < |r| ==> r[i].id == tasks[i].id;
    if StoreWellFormed(tasks) {
      forall t | t in r ensures WellFormed(t) {
        var i :| 0 <= i < |r| && r[i] == t;
        assert tasks[i] in tasks;
      }
    }
  }

  // ---------------------------------------------------------------------------
  // createTask, updateTask, deleteTask
  // ---------------------------------------------------------------------------

  const UntitledTask: string := "Untitled Task"

  /** A patch field that is absent leaves an optional task field undefined. */
  function Given<T>(o: Option<Option<T>>): Option<T> {
    if o.Some? then o.value else None
  }

  /** The task `createTask` builds: the given title (or "Untitled Task" when
      it is missing or empty), the given category (or `other`), the given
      description, location, notes and detail records, and an idle timer
      with no sessions and no time. */
  function NewTask(id: string, data: TaskPatch, now: int): (t: Task)
    ensures t.id == id && t.createdAt == now && t.updatedAt == now
    ensures t.title == (if IsNamed(data.title) then data.title.value else UntitledTask)
    ensures t.category == (if data.category.Some? then data.category.value else Other)
    ensures t.sessions == [] && t.totalTime == 0 && t.subCategoryBreakdown == []
    ensures !t.isActive && t.currentSessionStart == None && t.currentSubCategory == None
    ensures t.customSubCategories == []
    ensures t.description == Given(data.description)
    ensures t.location == Given(data.location) && t.notes == Given(data.notes)
    ensures t.evangelismDetails == Given(data.evangelismDetails)
    ensures t.prayerDetails == Given(data.prayerDetails)
    ensures t.bibleStudyDetails == Given(data.bibleStudyDetails)
    ensures t.meditationDetails == Given(data.meditationDetails)
    ensures t.literatureDetails == Given(data.literatureDetails)
    ensures WellFormed(t)
  {
    Task(id,
         if IsNamed(data.title) then data.title.value else UntitledTask,
         if data.category.Some? then data.category.value else Other,
         Given(data.description), Given(data.location), Given(data.notes),
         now, now, [], 0, false, None, None, [], [],
         Given(data.evangelismDetails), Given(data.prayerDetails), Given(data.bibleStudyDetails),
         Given(data.meditationDetails), Given(data.literatureDetails))
  }

  /** `createTask`: the new task goes in front of the list and is returned. */
  function CreateTask(tasks: seq<Task>, id: string, data: TaskPatch, now: int): (r: (seq<Task>, Task))
    ensures r.0 == [r.1] + tasks
    ensures |r.0| == |tasks| + 1 && r.0[1..] == tasks
    ensures r.1.id == id && r.1.sessions == [] && r.1.totalTime == 0 && !r.1.isActive
  {
    var t := NewTask(id, data, now);
    ([t] + tasks, t)
  }

  /** Creating a task keeps every task well-formed, and keeps the ids unique
      when the new id is fresh. */
  lemma CreateTaskPreserves(tasks: seq<Task>, id: string, data: TaskPatch, now: int)
    ensures StoreWellFormed(tasks) ==> StoreWellFormed(CreateTask(tasks, id, data, now).0)
    ensures UniqueIds(tasks) && (forall t :: t in tasks ==> t.id != id) ==>
              UniqueIds(CreateTask(tasks, id, data, now).0)
  {
    var r := CreateTask(tasks, id, data, now).0;
    assert forall i :: 1 <= i < |r| ==> r[i] == tasks[i - 1];
    if UniqueIds(tasks) && (forall t :: t in tasks ==> t.id != id) {
      forall i, j | 0 <= i < j < |r| ensures r[i].id != r[j].id {
        if i > 0 {
          assert r[i] == tasks[i - 1] && r[j] == tasks[j - 1];
        } else {
          assert r[j] == tasks[j - 1] && tasks[j - 1] in tasks;
        }
      }
    }
  }

  /** `{ ...task, ...updates, updatedAt: new Date() }`: every field the patch
      gives takes the patch's value, every other field keeps the task's, and
      the update time is `now` whatever the patch says. */
  function Merge(t: Task, p: TaskPatch, now: int): (r: Task)
    ensures r.updatedAt == now
    ensures Spreads(p.id, t.id, r.id) && Spreads(p.title, t.title, r.title)
    ensures Spreads(p.category, t.category, r.category)
    ensures Spreads(p.description, t.description, r.description)
    ensures Spreads(p.location, t.location, r.location) && Spreads(p.notes, t.notes, r.notes)
    ensures Spreads(p.createdAt, t.createdAt, r.createdAt)
    ensures Spreads(p.sessions, t.sessions, r.sessions) && Spreads(p.totalTime, t.totalTime, r.totalTime)
    ensures Spreads(p.isActive, t.isActive, r.isActive)
    ensures Spreads(p.currentSessionStart, t.currentSessionStart, r.currentSessionStart)
    ensures Spreads(p.currentSubCategory, t.currentSubCategory, r.currentSubCategory)
    ensures Spreads(p.customSubCategories, t.customSubCategories, r.customSubCategories)
    ensures Spreads(p.subCategoryBreakdown, t.subCategoryBreakdown, r.subCategoryBreakdown)
    ensures Spreads(p.evangelismDetails, t.evangelismDetails, r.evangelismDetails)
    ensures Spreads(p.prayerDetails, t.prayerDetails, r.prayerDetails)
    ensures Spreads(p.bibleStudyDetails, t.bibleStudyDetails, r.bibleStudyDetails)
    ensures Spreads(p.meditationDetails, t.meditationDetails, r.meditationDetails)
    ensures Spreads(p.literatureDetails, t.literatureDetails, r.literatureDetails)
  {
    Task(
      Pick(p.id, t.id), Pick(p.title, t.title), Pick(p.category, t.category),
      Pick(p.description, t.description), Pick(p.location, t.location), Pick(p.notes, t.notes),
      Pick(p.createdAt, t.createdAt), now,
      Pick(p.sessions, t.sessions), Pick(p.totalTime, t.totalTime), Pick(p.isActive, t.isActive),
      Pick(p.currentSessionStart, t.currentSessionStart), Pick(p.currentSubCategory, t.currentSubCategory),
      Pick(p.customSubCategories, t.customSubCategories), Pick(p.subCategoryBreakdown, t.subCategoryBreakdown),
      Pick(p.evangelismDetails, t.evangelismDetails), Pick(p.prayerDetails, t.prayerDetails),
      Pick(p.bibleStudyDetails, t.bibleStudyDetails), Pick(p.meditationDetails, t.meditationDetails),
      Pick(p.literatureDetails, t.literatureDetails))
  }

  /** One field after an object spread: the patch's value when the patch
      has the field, the old value when it does not. */
  predicate Spreads<T(==)>(given: Option<T>, before: T, after: T) {
    && (given.Some? ==> after == given.value)
    && (given.None? ==> after == before)
  }

  /** One field of an object spread: the patch's value when it gives one. */
  function Pick<T>(o: Option<T>, v: T): T {
    if o.Some? then o.value else v
  }

  /** The empty patch only refreshes the update time. */
  lemma MergeEmpty(t: Task, now: int)
    ensures Merge(t, EmptyPatch, now) == t.(updatedAt := now)
  {
  }

  /** Applying the same patch twice is the same as applying it once. */
  lemma MergeIdempotent(t: Task, p: TaskPatch, now: int)
    ensures Merge(Merge(t, p, now), p, now) == Merge(t, p, now)
  {
  }

  /** The patch leaves the timer and its ledger alone. */
  predicate KeepsTimer(p: TaskPatch) {
    && p.sessions.None? && p.totalTime.None? && p.isActive.None?
    && p.currentSessionStart.None? && p.subCategoryBreakdown.None?
  }

  /** A patch that does not touch the timer's fields keeps a task
      well-formed. */
  lemma MergeKeepsWellFormed(t: Task, p: TaskPatch, now: int)
    requires KeepsTimer(p)
    ensures WellFormed(t) ==> WellFormed(Merge(t, p, now))
  {
    var r := Merge(t, p, now);
    assert r.sessions == t.sessions && r.subCategoryBreakdown == t.subCategoryBreakdown;
  }

  /** `updateTask`: the patch is merged into the tasks with the id only. */
  function UpdateTask(tasks: seq<Task>, id: string, p: TaskPatch, now: int): (r: seq<Task>)
    ensures |r| == |tasks|
    ensures forall i :: 0 <= i < |tasks| && tasks[i].id != id ==> r[i] == tasks[i]
    ensures forall i :: 0 <= i < |tasks| && tasks[i].id == id ==> r[i] == Merge(tasks[i], p, now)
  {
    MapWhere(tasks, id, t => Merge(t, p, now))
  }

  /** An update that keeps the id and leaves the timer alone keeps the store
      well-formed and its ids unique. */
  lemma UpdateTaskPreserves(tasks: seq<Task>, id: string, p: TaskPatch, now: int)
    requires KeepsTimer(p) && p.id.None?
    ensures StoreWellFormed(tasks) ==> StoreWellFormed(UpdateTask(tasks, id, p, now))
    ensures UniqueIds(tasks) ==> UniqueIds(UpdateTask(tasks, id, p, now))
  {
    forall t | WellFormed(t) ensures WellFormed(Merge(t, p, now)) {
      MergeKeepsWellFormed(t, p, now);
    }
    MapWhereStore(tasks, id, t => Merge(t, p, now));
  }

  /** `updateTask` does not guard the ledger: a patch that sets the total to
      anything but the session sum leaves the patched task, and so the
      store, out of balance. */
  lemma UpdateTaskCanBreakLedger(tasks: seq<Task>, i: nat, p: TaskPatch, now: int)
    requires i < |tasks|
    requires p.totalTime.Some? && p.totalTime.value != SessionTotal(Merge(tasks[i], p, now).sessions)
    ensures !StoreWellFormed(UpdateTask(tasks, tasks[i].id, p, now))
  {
    var r := UpdateTask(tasks, tasks[i].id, p, now);
    assert r[i] == Merge(tasks[i], p, now);
    assert !WellFormed(r[i]);
    assert r[i] in r;
  }

  /** `deleteTask`: exactly the tasks with the id are removed; the rest keep
      their order. */
  function DeleteTask(tasks: seq<Task>, id: string): (r: seq<Task>)
    ensures forall t :: t in r <==> t in tasks && t.id != id
    ensures IsSubsequence(r, tasks)
  {
    Filter(tasks, (t: Task) => t.id != id)
  }

  /** Deleting twice removes nothing more. */
  lemma DeleteTaskIdempotent(tasks: seq<Task>, id: string)
    ensures DeleteTask(DeleteTask(tasks, id), id) == DeleteTask(tasks, id)
  {
    FilterIdempotent(tasks, (t: Task) => t.id != id);
  }

  /** Filtering keeps ids unique. */
  lemma {:induction false} FilterUniqueIds(tasks: seq<Task>, p: Task -> bool)
    requires UniqueIds(tasks)
    ensures UniqueIds(Filter(tasks, p))
  {
    if |tasks| > 0 {
      var tail := tasks[1..];
      assert UniqueIds(tail) by {
        assert forall i :: 0 <= i < |tail| ==> tail[i] == tasks[i + 1];
      }
      FilterUniqueIds(tail, p);
      var rest := Filter(tail, p);
      if p(tasks[0]) {
        var r := [tasks[0]] + rest;
        forall i, j | 0 <= i < j < |r| ensures r[i].id != r[j].id {
          if i == 0 {
            assert r[j] == rest[j - 1] && rest[j - 1] in tail;
            var k :| 0 <= k < |tail| && tail[k] == rest[j - 1];
            assert tail[k] == tasks[k + 1];
          } else {
            assert r[i] == rest[i - 1] && r[j] == rest[j - 1];
          }
        }
      }
    }
  }

  /** Deleting keeps the store well-formed and its ids unique. */
  lemma DeleteTaskPreserves(tasks: seq<Task>, id: string)
    ensures StoreWellFormed(tasks) ==> StoreWellFormed(DeleteTask(tasks, id))
    ensures UniqueIds(tasks) ==> UniqueIds(DeleteTask(tasks, id))
  {
    if UniqueIds(tasks) {
      FilterUniqueIds(tasks, (t: Task) => t.id != id);
    }
  }

  // ---------------------------------------------------------------------------
  // The sub-category breakdown
  // ---------------------------------------------------------------------------

  /** `findIndex(s => s.subCategory === name)`: the first entry with the
      name, or -1 when there is none. */
  function FindIndex(bd: seq<SubCategoryTime>, name: string): (k: int)
    ensures -1 <= k < |bd|
    ensures k >= 0 ==> bd[k].subCategory == name
    ensures k >= 0 ==> forall j :: 0 <= j < k ==> bd[j].subCategory != name
    ensures k < 0 <==> !HasEntry(bd, name)
  {
    if |bd| == 0 then -1
    else if bd[0].subCategory == name then 0
    else
      var k := FindIndex(bd[1..], name);
      assert forall j :: 1 <= j < |bd| ==> bd[1..][j - 1] == bd[j];
      if k < 0 then -1 else k + 1
  }

  /** The seconds the breakdown credits to `name`: its first entry's
      duration, or 0 when it has none. */
  function Amount(bd: seq<SubCategoryTime>, name: string): int {
    var k := FindIndex(bd, name);
    if k < 0 then 0 else bd[k].duration
  }

  /** Adds `d` seconds to the entry named `name`, appending a new entry when
      there is none (the source's update-or-push on `subCategoryBreakdown`). */
  function Credit(bd: seq<SubCategoryTime>, name: string, d: int): (r: seq<SubCategoryTime>)
    ensures |r| == if HasEntry(bd, name) then |bd| else |bd| + 1
  {
    var k := FindIndex(bd, name);
    if k >= 0 then bd[k := SubCategoryTime(name, bd[k].duration + d)]
    else bd + [SubCategoryTime(name, d)]
  }

  /** Two breakdowns with the same names in the same places find the same
      first index for every name. */
  lemma {:induction false} FindIndexSameNames(a: seq<SubCategoryTime>, b: seq<SubCategoryTime>, n: string)
    requires |a| == |b|
    requires forall i :: 0 <= i < |a| ==> a[i].subCategory == b[i].subCategory
    ensures FindIndex(a, n) == FindIndex(b, n)
  {
    var ka := FindIndex(a, n);
    var kb := FindIndex(b, n);
    if ka >= 0 && kb >= 0 {
      assert !(ka < kb) && !(kb < ka);
    }
  }

  /** Appending an entry with another name changes no existing name's
      first index. */
  lemma FindIndexSnoc(bd: seq<SubCategoryTime>, e: SubCategoryTime, n: string)
    requires e.subCategory != n
    ensures FindIndex(bd + [e], n) == FindIndex(bd, n)
  {
    var r := bd + [e];
    var kr := FindIndex(r, n);
    var kb := FindIndex(bd, n);
    if kb >= 0 {
      assert r[kb] == bd[kb];
      assert !(kr < kb) && !(kb < kr);
    }
  }

  /** Crediting adds `d` to the named amount and changes no other. */
  lemma CreditAmounts(bd: seq<SubCategoryTime>, name: string, d: int, n: string)
    ensures Amount(Credit(bd, name, d), n) == Amount(bd, n) + (if n == name then d else 0)
  {
    var r := Credit(bd, name, d);
    var k := FindIndex(bd, name);
    if k >= 0 {
      FindIndexSameNames(r, bd, n);
    } else if n == name {
      assert r[|bd|].subCategory == name;
      var kr := FindIndex(r, n);
    } else {
      FindIndexSnoc(bd, SubCategoryTime(name, d), n);
      var kb := FindIndex(bd, n);
      if kb >= 0 { assert r[kb] == bd[kb]; }
    }
  }

  /** After crediting, the breakdown names are the old names plus `name`;
      unique, non-empty names stay unique and non-empty. */
  lemma CreditNames(bd: seq<SubCategoryTime>, name: string, d: int)
    ensures forall n :: HasEntry(Credit(bd, name, d), n) <==> HasEntry(bd, n) || n == name
    ensures UniqueNames(bd) ==> UniqueNames(Credit(bd, name, d))
    ensures NamedEntries(bd) && |name| > 0 ==> NamedEntries(Credit(bd, name, d))
  {
    var r := Credit(bd, name, d);
    var k := FindIndex(bd, name);
    if k >= 0 {
      assert forall i :: 0 <= i < |bd| ==> r[i].subCategory == bd[i].subCategory;
      forall n ensures HasEntry(r, n) <==> HasEntry(bd, n) || n == name {
        if HasEntry(r, n) {
          var i :| 0 <= i < |r| && r[i].subCategory == n;
          assert bd[i].subCategory == n;
        }
        if HasEntry(bd, n) {
          var i :| 0 <= i < |bd| && bd[i].subCategory == n;
          assert r[i].subCategory == n;
        }
        if n == name {
          assert r[k].subCategory == n;
        }
      }
    } else {
      forall n ensures HasEntry(r, n) <==> HasEntry(bd, n) || n == name {
        if HasEntry(r, n) {
          var i :| 0 <= i < |r| && r[i].subCategory == n;
          if i < |bd| { assert bd[i].subCategory == n; }
        }
        if HasEntry(bd, n) {
          var i :| 0 <= i < |bd| && bd[i].subCategory == n;
          assert r[i].subCategory == n;
        }
        if n == name {
          assert r[|bd|].subCategory == n;
        }
      }
      if UniqueNames(bd) {
        forall i, j | 0 <= i < j < |r| ensures r[i].subCategory != r[j].subCategory {
          if j == |bd| {
            assert r[i] == bd[i];
          }
        }
      }
    }
  }

  /** With unique names, an entry's duration is its name's amount. */
  lemma AmountAt(bd: seq<SubCategoryTime>, i: int)
    requires UniqueNames(bd) && 0 <= i < |bd|
    ensures Amount(bd, bd[i].subCategory) == bd[i].duration
  {
    var k := FindIndex(bd, bd[i].subCategory);
    assert k >= 0;
    assert !(k < i) && !(i < k);
  }

  /** The breakdown after a session closes: its seconds are credited to its
      sub-category when that has a name (the source's `if
      (task.currentSubCategory)`), and the breakdown is unchanged otherwise. */
  function CreditSession(bd: seq<SubCategoryTime>, s: Session): seq<SubCategoryTime> {
    if IsNamed(s.subCategory) then Credit(bd, s.subCategory.value, s.duration) else bd
  }

  /** Recording a session keeps the breakdown's names non-empty and unique,
      and every tagged session covered. */
  lemma CreditSessionNames(ss: seq<Session>, bd: seq<SubCategoryTime>, s: Session)
    requires NamedEntries(bd) && UniqueNames(bd) && TagsCovered(ss, bd)
    ensures NamedEntries(CreditSession(bd, s))
    ensures UniqueNames(CreditSession(bd, s))
    ensures TagsCovered(ss + [s], CreditSession(bd, s))
  {
    var bd' := CreditSession(bd, s);
    var ss' := ss + [s];
    if IsNamed(s.subCategory) {
      CreditNames(bd, s.subCategory.value, s.duration);
    }
    forall k | 0 <= k < |ss'| && IsNamed(ss'[k].subCategory)
      ensures HasEntry(bd', ss'[k].subCategory.value)
    {
      if k < |ss| {
        assert ss'[k] == ss[k];
      }
    }
  }

  /** A name with no entry tags no session. */
  lemma UncoveredName(ss: seq<Session>, bd: seq<SubCategoryTime>, n: string)
    requires TagsCovered(ss, bd) && |n| > 0 && !HasEntry(bd, n)
    ensures TaggedTotal(ss, n) == 0
  {
    TaggedTotalUnused(ss, n);
  }

  /** Recording a session keeps every entry equal to the time tagged with
      its name. */
  lemma CreditSessionEntries(ss: seq<Session>, bd: seq<SubCategoryTime>, s: Session)
    requires NamedEntries(bd) && UniqueNames(bd) && EntriesMatch(ss, bd) && TagsCovered(ss, bd)
    ensures EntriesMatch(ss + [s], CreditSession(bd, s))
  {
    var bd' := CreditSession(bd, s);
    CreditSessionNames(ss, bd, s);
    forall i | 0 <= i < |bd'|
      ensures bd'[i].duration == TaggedTotal(ss + [s], bd'[i].subCategory)
    {
      var n := bd'[i].subCategory;
      TaggedTotalAppend(ss, s, n);
      if IsNamed(s.subCategory) {
        var name := s.subCategory.value;
        AmountAt(bd', i);
        CreditAmounts(bd, name, s.duration, n);
        CreditNames(bd, name, s.duration);
        assert HasEntry(bd', n);
        if HasEntry(bd, n) {
          AmountAt(bd, FindIndex(bd, n));
        } else {
          UncoveredName(ss, bd, n);
        }
      }
    }
  }

  // ---------------------------------------------------------------------------
  // startTimer, pauseTimer, changeSubCategory, addCustomSubCategory
  // ---------------------------------------------------------------------------

  /** `startTimer` on one task: an idle task starts a session at `now`; a
      running task is left as it is, so its original start is kept. */
  function Start(t: Task, now: int): (r: Task)
    ensures r.isActive
    ensures t.isActive ==> r == t
    ensures !t.isActive ==> r.currentSessionStart == Some(now) && r.updatedAt == now
    ensures r.sessions == t.sessions && r.totalTime == t.totalTime
    ensures r.subCategoryBreakdown == t.subCategoryBreakdown
    ensures r == t.(isActive := r.isActive, currentSessionStart := r.currentSessionStart, updatedAt := r.updatedAt)
  {
    if t.isActive then t
    else t.(isActive := true, currentSessionStart := Some(now), updatedAt := now)
  }

  /** The session that closes at `now`, from the recorded start, tagged with
      the current sub-category, lasting the whole seconds in between. */
  function ClosingSession(t: Task, sid: string, now: int): (s: Session)
    requires t.currentSessionStart.Some?
    ensures s.id == sid && s.startTime == t.currentSessionStart.value && s.endTime == Some(now)
    ensures s.subCategory == t.currentSubCategory
    ensures s.duration * 1000 <= now - s.startTime < (s.duration + 1) * 1000
  {
    var start := t.currentSessionStart.value;
    Session(sid, start, Some(now), ElapsedSeconds(start, now), t.currentSubCategory)
  }

  /** Records the running session: appended to the sessions, added to the
      total and credited to its sub-category. */
  function Close(t: Task, sid: string, now: int): (r: Task)
    requires t.currentSessionStart.Some?
    ensures |r.sessions| == |t.sessions| + 1 && r.sessions[..|t.sessions|] == t.sessions
    ensures r.sessions[|t.sessions|] == ClosingSession(t, sid, now)
    ensures r.totalTime == t.totalTime + r.sessions[|t.sessions|].duration
    ensures r.subCategoryBreakdown == CreditSession(t.subCategoryBreakdown, r.sessions[|t.sessions|])
    ensures r.updatedAt == now
    ensures r == t.(sessions := r.sessions, totalTime := r.totalTime,
                    subCategoryBreakdown := r.subCategoryBreakdown, updatedAt := r.updatedAt)
  {
    var s := ClosingSession(t, sid, now);
    t.(sessions := t.sessions + [s],
       totalTime := t.totalTime + s.duration,
       subCategoryBreakdown := CreditSession(t.subCategoryBreakdown, s),
       updatedAt := now)
  }

  /** Recording the running session keeps the ledger consistent. */
  lemma CloseKeepsLedger(t: Task, sid: string, now: int)
    requires t.currentSessionStart.Some? && LedgerConsistent(t)
    ensures LedgerConsistent(Close(t, sid, now))
  {
    var s := ClosingSession(t, sid, now);
    SessionTotalAppend(t.sessions, s);
    CreditSessionNames(t.sessions, t.subCategoryBreakdown, s);
    CreditSessionEntries(t.sessions, t.subCategoryBreakdown, s);
  }

  /** A task is running with a recorded start (the source's `task.isActive
      && task.currentSessionStart`). */
  predicate Running(t: Task) {
    t.isActive && t.currentSessionStart.Some?
  }

  /** `pauseTimer` on one task: a running task gets exactly one more
      session, lasting the whole seconds since its start, whose duration is
      added to the total; the timer stops.  Any other task is unchanged. */
  function Pause(t: Task, sid: string, now: int): (r: Task)
    ensures !Running(t) ==> r == t
    ensures Running(t) ==> && !r.isActive && r.currentSessionStart == None
                           && |r.sessions| == |t.sessions| + 1
                           && r.sessions[..|t.sessions|] == t.sessions
                           && r.sessions[|t.sessions|].startTime == t.currentSessionStart.value
                           && r.sessions[|t.sessions|].endTime == Some(now)
                           && r.sessions[|t.sessions|].subCategory == t.currentSubCategory
                           && r.totalTime == t.totalTime + r.sessions[|t.sessions|].duration
                           && r.sessions[|t.sessions|].duration == ElapsedSeconds(t.currentSessionStart.value, now)
    ensures Running(t) ==> && r.sessions[|t.sessions|].id == sid
                           && r.subCategoryBreakdown == CreditSession(t.subCategoryBreakdown, r.sessions[|t.sessions|])
                           && r.updatedAt == now
    ensures r == t.(isActive := r.isActive, currentSessionStart := r.currentSessionStart, sessions := r.sessions,
                    totalTime := r.totalTime, subCategoryBreakdown := r.subCategoryBreakdown, updatedAt := r.updatedAt)
  {
    if Running(t) then
      var c := Close(t, sid, now);
      assert c.sessions[..|t.sessions|] == t.sessions;
      c.(isActive := false, currentSessionStart := None)
    else t
  }

  /** Pausing keeps a task well-formed. */
  lemma PauseKeepsWellFormed(t: Task, sid: string, now: int)
    requires WellFormed(t)
    ensures WellFormed(Pause(t, sid, now))
  {
    if Running(t) {
      CloseKeepsLedger(t, sid, now);
    }
  }

  /** Pausing loses no time: the live total at the pause instant is the same
      before and after. */
  lemma PauseKeepsLiveTime(t: Task, sid: string, now: int)
    ensures CalculateTotalTime(Pause(t, sid, now), now) == CalculateTotalTime(t, now)
  {
    if Running(t) {
      SessionTotalAppend(t.sessions, ClosingSession(t, sid, now));
    }
  }

  /** A task paused right after it was started at `t0` has gained exactly
      the whole seconds between the two instants. */
  lemma StartThenPause(t: Task, sid: string, t0: int, t1: int)
    requires !t.isActive
    ensures Pause(Start(t, t0), sid, t1).totalTime == t.totalTime + ElapsedSeconds(t0, t1)
    ensures !Pause(Start(t, t0), sid, t1).isActive
    ensures |Pause(Start(t, t0), sid, t1).sessions| == |t.sessions| + 1
  {
  }

  /** Starting keeps a task well-formed, and starting twice keeps the first
      start. */
  lemma StartFacts(t: Task, t0: int, t1: int)
    ensures WellFormed(t) ==> WellFormed(Start(t, t0))
    ensures Start(Start(t, t0), t1) == Start(t, t0)
  {
  }

  /** The recording branch of `changeSubCategory`: running, at least one
      whole second elapsed, and a named current sub-category. */
  predicate RecordsOnSwitch(t: Task, now: int) {
    Running(t) && ElapsedSeconds(t.currentSessionStart.value, now) > 0 && IsNamed(t.currentSubCategory)
  }

  /** `changeSubCategory` on one task.  In the recording branch the running
      session is closed and credited to the old sub-category and a new one
      starts at `now` under the new name, the timer still running.
      Otherwise only the name changes, and a running timer restarts at
      `now` without recording anything. */
  function Switch(t: Task, name: string, sid: string, now: int): (r: Task)
    ensures r.currentSubCategory == Some(name) && r.isActive == t.isActive && r.updatedAt == now
    ensures RecordsOnSwitch(t, now) ==>
              && r.currentSessionStart == Some(now)
              && |r.sessions| == |t.sessions| + 1
              && r.sessions[|t.sessions|].subCategory == t.currentSubCategory
              && r.sessions[|t.sessions|].duration == ElapsedSeconds(t.currentSessionStart.value, now)
              && r.totalTime == t.totalTime + ElapsedSeconds(t.currentSessionStart.value, now)
    ensures RecordsOnSwitch(t, now) ==>
              && r.sessions[..|t.sessions|] == t.sessions
              && r.sessions[|t.sessions|].id == sid
              && r.sessions[|t.sessions|].startTime == t.currentSessionStart.value
              && r.sessions[|t.sessions|].endTime == Some(now)
              && r.subCategoryBreakdown == CreditSession(t.subCategoryBreakdown, r.sessions[|t.sessions|])
    ensures r == t.(currentSubCategory := r.currentSubCategory, currentSessionStart := r.currentSessionStart,
                    sessions := r.sessions, totalTime := r.totalTime,
                    subCategoryBreakdown := r.subCategoryBreakdown, updatedAt := r.updatedAt)
    ensures !RecordsOnSwitch(t, now) ==>
              && r.sessions == t.sessions && r.totalTime == t.totalTime
              && r.subCategoryBreakdown == t.subCategoryBreakdown
              && r.currentSessionStart == (if t.isActive then Some(now) else t.currentSessionStart)
  {
    if RecordsOnSwitch(t, now) then
      Close(t, sid, now).(currentSubCategory := Some(name), currentSessionStart := Some(now))
    else
      t.(currentSubCategory := Some(name),
         currentSessionStart := if t.isActive then Some(now) else t.currentSessionStart,
         updatedAt := now)
  }

  /** Switching sub-category keeps a task well-formed. */
  lemma SwitchKeepsWellFormed(t: Task, name: string, sid: string, now: int)
    requires WellFormed(t)
    ensures WellFormed(Switch(t, name, sid, now))
  {
    if RecordsOnSwitch(t, now) {
      CloseKeepsLedger(t, sid, now);
    }
  }

  /** In the recording branch no time is lost; otherwise a running task
      loses the seconds since its start from its live total. */
  lemma SwitchLiveTime(t: Task, name: string, sid: string, now: int)
    ensures RecordsOnSwitch(t, now) ==>
              CalculateTotalTime(Switch(t, name, sid, now), now) == CalculateTotalTime(t, now)
    ensures !RecordsOnSwitch(t, now) && Running(t) ==>
              CalculateTotalTime(Switch(t, name, sid, now), now) ==
              CalculateTotalTime(t, now) - ElapsedSeconds(t.currentSessionStart.value, now)
    ensures !t.isActive ==>
              CalculateTotalTime(Switch(t, name, sid, now), now) == CalculateTotalTime(t, now)
  {
    if RecordsOnSwitch(t, now) {
      SessionTotalAppend(t.sessions, ClosingSession(t, sid, now));
    }
  }

  /** `addCustomSubCategory` on one task: the name is appended unless it is
      already in the list (exact match), in which case nothing changes. */
  function AddCustom(t: Task, name: string, now: int): (r: Task)
    ensures name in r.customSubCategories
    ensures name in t.customSubCategories ==> r == t
    ensures name !in t.customSubCategories ==>
              r.customSubCategories == t.customSubCategories + [name] && r.updatedAt == now
    ensures r.sessions == t.sessions && r.subCategoryBreakdown == t.subCategoryBreakdown
    ensures r.totalTime == t.totalTime && r.isActive == t.isActive
    ensures r.currentSessionStart == t.currentSessionStart
    ensures r == t.(customSubCategories := r.customSubCategories, updatedAt := r.updatedAt)
  {
    if name !in t.customSubCategories then
      t.(customSubCategories := t.customSubCategories + [name], updatedAt := now)
    else t
  }

  /** Adding a name twice adds it once, and a list without duplicates keeps
      none. */
  lemma AddCustomFacts(t: Task, name: string, t0: int, t1: int)
    ensures AddCustom(AddCustom(t, name, t0), name, t1) == AddCustom(t, name, t0)
    ensures Distinct(t.customSubCategories) ==> Distinct(AddCustom(t, name, t0).customSubCategories)
  {
  }

  /** `startTimer`. */
  function StartTimer(tasks: seq<Task>, id: string, now: int): (r: seq<Task>)
    ensures |r| == |tasks|
    ensures forall i :: 0 <= i < |tasks| && tasks[i].id != id ==> r[i] == tasks[i]
    ensures forall i :: 0 <= i < |tasks| && tasks[i].id == id ==> r[i] == Start(tasks[i], now)
  {
    MapWhere(tasks, id, t => Start(t, now))
  }

  /** `pauseTimer`. */
  function PauseTimer(tasks: seq<Task>, id: string, sid: string, now: int): (r: seq<Task>)
    ensures |r| == |tasks|
    ensures forall i :: 0 <= i < |tasks| && tasks[i].id != id ==> r[i] == tasks[i]
    ensures forall i :: 0 <= i < |tasks| && tasks[i].id == id ==> r[i] == Pause(tasks[i], sid, now)
  {
    MapWhere(tasks, id, t => Pause(t, sid, now))
  }

  /** `changeSubCategory`. */
  function ChangeSubCategory(tasks: seq<Task>, id: string, name: string, sid: string, now: int): (r: seq<Task>)
    ensures |r| == |tasks|
    ensures forall i :: 0 <= i < |tasks| && tasks[i].id != id ==> r[i] == tasks[i]
    ensures forall i :: 0 <= i < |tasks| && tasks[i].id == id ==> r[i] == Switch(tasks[i], name, sid, now)
  {
    MapWhere(tasks, id, t => Switch(t, name, sid, now))
  }

  /** `addCustomSubCategory`. */
  function AddCustomSubCategory(tasks: seq<Task>, id: string, name: string, now: int): (r: seq<Task>)
    ensures |r| == |tasks|
    ensures forall i :: 0 <= i < |tasks| && tasks[i].id != id ==> r[i] == tasks[i]
    ensures forall i :: 0 <= i < |tasks| && tasks[i].id == id ==> r[i] == AddCustom(tasks[i], name, now)
  {
    MapWhere(tasks, id, t => AddCustom(t, name, now))
  }

  /** Every timer operation keeps every task well-formed and the ids
      unique. */
  lemma TimerOperationsPreserve(tasks: seq<Task>, id: string, name: string, sid: string, now: int)
    requires StoreWellFormed(tasks)
    ensures StoreWellFormed(StartTimer(tasks, id, now))
    ensures StoreWellFormed(PauseTimer(tasks, id, sid, now))
    ensures StoreWellFormed(ChangeSubCategory(tasks, id, name, sid, now))
    ensures StoreWellFormed(AddCustomSubCategory(tasks, id, name, now))
    ensures UniqueIds(tasks) ==>
              && UniqueIds(StartTimer(tasks, id, now))
              && UniqueIds(PauseTimer(tasks, id, sid, now))
              && UniqueIds(ChangeSubCategory(tasks, id, name, sid, now))
              && UniqueIds(AddCustomSubCategory(tasks, id, name, now))
  {
    forall t | WellFormed(t) ensures WellFormed(Pause(t, sid, now)) {
      PauseKeepsWellFormed(t, sid, now);
    }
    forall t | WellFormed(t) ensures WellFormed(Switch(t, name, sid, now)) {
      SwitchKeepsWellFormed(t, name, sid, now);
    }
    MapWhereStore(tasks, id, t => Start(t, now));
    MapWhereStore(tasks, id, t => Pause(t, sid, now));
    MapWhereStore(tasks, id, t => Switch(t, name, sid, now));
    MapWhereStore(tasks, id, t => AddCustom(t, name, now));
  }

  // ---------------------------------------------------------------------------
  // Queries
  // ---------------------------------------------------------------------------

  /** `getActiveTasks`. */
  function ActiveTasks(tasks: seq<Task>): (r: seq<Task>)
    ensures forall t :: t in r <==> t in tasks && t.isActive
    ensures IsSubsequence(r, tasks)
  {
    Filter(tasks, (t: Task) => t.isActive)
  }

  /** `getTodayTasks`: the tasks whose creation instant, truncated to local
      midnight, is today's local midnight. */
  function TodayTasks(z: Zone, tasks: seq<Task>, now: int): (r: seq<Task>)
    ensures forall t :: t in r <==> t in tasks && StartOfDay(z, t.createdAt) == StartOfDay(z, now)
    ensures IsSubsequence(r, tasks)
  {
    Filter(tasks, (t: Task) => StartOfDay(z, t.createdAt) == StartOfDay(z, now))
  }

  /** `getTasksByCategory`. */
  function TasksByCategory(tasks: seq<Task>, c: Category): (r: seq<Task>)
    ensures forall t :: t in r <==> t in tasks && t.category == c
    ensures IsSubsequence(r, tasks)
  {
    Filter(tasks, (t: Task) => t.category == c)
  }

  /** `getTasksByDateRange`: creation instant within `[lo, hi]`, both ends
      included. */
  function TasksByDateRange(tasks: seq<Task>, lo: int, hi: int): (r: seq<Task>)
    ensures forall t :: t in r <==> t in tasks && lo <= t.createdAt <= hi
    ensures IsSubsequence(r, tasks)
  {
    Filter(tasks, (t: Task) => lo <= t.createdAt <= hi)
  }

  /** Two instants have the same local midnight exactly when they are on the
      same local day. */
  lemma SameMidnight(z: Zone, a: int, b: int)
    ensures StartOfDay(z, a) == StartOfDay(z, b) <==> DayOf(z, a) == DayOf(z, b)
  {
  }

  /** Today's tasks are the tasks created between today's first and last
      millisecond, and they are the tasks of today's daily summary. */
  lemma TodayTasksAgree(z: Zone, tasks: seq<Task>, now: int)
    ensures TodayTasks(z, tasks, now) == TasksByDateRange(tasks, StartOfDay(z, now), EndOfDay(z, now))
    ensures TodayTasks(z, tasks, now) == GetDailySummary(z, tasks, now, now).tasks
  {
    var lo := StartOfDay(z, now);
    var hi := EndOfDay(z, now);
    forall t: Task ensures (StartOfDay(z, t.createdAt) == StartOfDay(z, now)) == (lo <= t.createdAt <= hi) {
      SameMidnight(z, t.createdAt, now);
      WithinDay(z, now, t.createdAt);
    }
    FilterCongruent(tasks, (t: Task) => StartOfDay(z, t.createdAt) == StartOfDay(z, now),
                           (t: Task) => lo <= t.createdAt <= hi);
  }

  /** The live time of a category's tasks is the category's share of the
      live time of all tasks. */
  lemma {:induction false} TasksByCategoryTime(tasks: seq<Task>, c: Category, now: int)
    ensures EffectiveSum(TasksByCategory(tasks, c), now) == CategoryTime(tasks, c, now)
  {
    if |tasks| > 0 {
      var init, last := tasks[..|tasks| - 1], tasks[|tasks| - 1];
      var fi, fl := TasksByCategory(init, c), TasksByCategory([last], c);
      assert tasks == init + [last];
      CategorySplit(init, last, c);
      EffectiveSumAppend(fi, fl, now);
      TasksByCategoryTime(init, c, now);
      OneTaskCategoryTime(last, c, now);
      calc {
        EffectiveSum(TasksByCategory(tasks, c), now);
        EffectiveSum(fi + fl, now);
        EffectiveSum(fi, now) + EffectiveSum(fl, now);
        CategoryTime(init, c, now) + (if last.category == c then CalculateTotalTime(last, now) else 0);
        CategoryTime(tasks, c, now);
      }
    }
  }

  /** A single task adds its live time exactly when it has the category. */
  lemma OneTaskCategoryTime(t: Task, c: Category, now: int)
    ensures EffectiveSum(TasksByCategory([t], c), now) == if t.category == c then CalculateTotalTime(t, now) else 0
  {
    CategorySplit([], t, c);
    assert [] + [t] == [t];
    if t.category == c {
      assert EffectiveSum([t], now) == CalculateTotalTime(t, now) by { assert [t][..0] == []; }
    }
  }

  /** Selecting a category from a list with one more task selects from the
      shorter list, then from the last task alone. */
  lemma CategorySplit(init: seq<Task>, last: Task, c: Category)
    ensures TasksByCategory(init + [last], c) == TasksByCategory(init, c) + TasksByCategory([last], c)
    ensures TasksByCategory([last], c) == if last.category == c then [last] else []
  {
    FilterAppend(init, [last], (t: Task) => t.category == c);
  }

  /** Live time adds up over concatenation. */
  lemma {:induction false} EffectiveSumAppend(a: seq<Task>, b: seq<Task>, now: int)
    ensures EffectiveSum(a + b, now) == EffectiveSum(a, now) + EffectiveSum(b, now)
  {
    if |b| == 0 {
      assert a + b == a;
    } else {
      var b' := b[..|b| - 1];
      assert (a + b)[..|a + b| - 1] == a + b';
      EffectiveSumAppend(a, b', now);
    }
  }

  /** After `pauseTimer`, no task with the id is active in a well-formed
      store. */
  lemma PauseTimerStopsTask(tasks: seq<Task>, id: string, sid: string, now: int)
    requires StoreWellFormed(tasks)
    ensures forall t :: t in ActiveTasks(PauseTimer(tasks, id, sid, now)) ==> t.id != id
  {
    var r := PauseTimer(tasks, id, sid, now);
    forall t | t in ActiveTasks(r) ensures t.id != id {
      var i :| 0 <= i < |r| && r[i] == t;
      assert tasks[i] in tasks;
    }
  }

  /** After `startTimer`, every task with the id is active. */
  lemma StartTimerStartsTask(tasks: seq<Task>, id: string, now: int)
    ensures forall t :: t in StartTimer(tasks, id, now) && t.id == id ==> t in ActiveTasks(StartTimer(tasks, id, now))
  {
    var r := StartTimer(tasks, id, now);
    forall t | t in r && t.id == id ensures t.isActive {
      var i :| 0 <= i < |r| && r[i] == t;
    }
  }

  /** A task created at `0`, started at one second and paused at 126
      seconds holds one session of 125 seconds. */
  lemma TimerScenario()
    ensures var t := Pause(Start(NewTask("t1", EmptyPatch, 0), 1000), "s1", 126_000);
            && t.totalTime == 125 && |t.sessions| == 1 && !t.isActive && WellFormed(t)
  {
    var t0 := NewTask("t1", EmptyPatch, 0);
    StartFacts(t0, 1000, 1000);
    PauseKeepsWellFormed(Start(t0, 1000), "s1", 126_000);
  }
}
