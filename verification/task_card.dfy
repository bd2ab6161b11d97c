/** The counter buttons on a task card: each press patches one count of the
    task's detail record, never below zero, through the card's optional
    update callback. */
module TaskCard {
  import opened Base
  import opened TaskTypes
  import opened TaskStore

  /** `Math.max(0, value)`. */
  function Clamp(v: int): (r: int)
    ensures r >= 0 && r >= v
    ensures v >= 0 ==> r == v
    ensures v < 0 ==> r == 0
  {
    if v > 0 then v else 0
  }

  /** The minus button is disabled exactly when the count is not positive. */
  predicate DecrementEnabled(value: int) {
    !(value <= 0)
  }

  /** The minus button is enabled exactly when a press lowers the count by
      one; on a disabled button a press would change nothing on a count of
      zero. */
  lemma DecrementEnabledExactly(value: int)
    ensures DecrementEnabled(value) <==> Clamp(value - 1) == value - 1
    ensures value == 0 ==> Clamp(value - 1) == value
  {
  }

  // ---------------------------------------------------------------------------
  // Evangelism counts
  // ---------------------------------------------------------------------------

  datatype EvangelismField = TractsShared | PeoplePrayed | Repentances | Invitations

  /** A patch that gives an evangelism record and nothing else. */
  predicate OnlyEvangelism(p: TaskPatch) {
    p.evangelismDetails.Some? && p.evangelismDetails.value.Some? &&
    p == EmptyPatch.(evangelismDetails := p.evangelismDetails)
  }

  /** A patch that gives a bible-study record and nothing else. */
  predicate OnlyBibleStudy(p: TaskPatch) {
    p.bibleStudyDetails.Some? && p.bibleStudyDetails.value.Some? &&
    p == EmptyPatch.(bibleStudyDetails := p.bibleStudyDetails)
  }

  /** A patch that gives a literature record and nothing else. */
  predicate OnlyLiterature(p: TaskPatch) {
    p.literatureDetails.Some? && p.literatureDetails.value.Some? &&
    p == EmptyPatch.(literatureDetails := p.literatureDetails)
  }

  /** The record the card starts from when the task has none. */
  const EvangelismDefault: EvangelismDetails := EvangelismDetails(0, 0, 0, 0, "")

  function CurrentEvangelism(t: Task): EvangelismDetails {
    if t.evangelismDetails.Some? then t.evangelismDetails.value else EvangelismDefault
  }

  function EvangelismCount(d: EvangelismDetails, f: EvangelismField): int {
    match f
    case TractsShared => d.tractsShared
    case PeoplePrayed => d.peoplePrayed
    case Repentances => d.repentances
    case Invitations => d.invitations
  }

  function WithEvangelismCount(d: EvangelismDetails, f: EvangelismField, v: int): (r: EvangelismDetails)
    ensures EvangelismCount(r, f) == v
    ensures forall g :: g != f ==> EvangelismCount(r, g) == EvangelismCount(d, g)
    ensures r.location == d.location
  {
    match f
    case TractsShared => d.(tractsShared := v)
    case PeoplePrayed => d.(peoplePrayed := v)
    case Repentances => d.(repentances := v)
    case Invitations => d.(invitations := v)
  }

  /** `updateEvangelismDetail`: no patch without an update callback;
      otherwise a patch of the evangelism record alone, with the one count
      moved by `delta` but kept at zero or above and everything else of the
      current (or default) record kept. */
  function UpdateEvangelismDetail(t: Task, hasCallback: bool, f: EvangelismField, delta: int): (r: Option<TaskPatch>)
    ensures r.None? <==> !hasCallback
    ensures r.Some? ==> OnlyEvangelism(r.value)
    ensures r.Some? && OnlyEvangelism(r.value) ==>
              (var d := r.value.evangelismDetails.value.value;
               && EvangelismCount(d, f) == Clamp(EvangelismCount(CurrentEvangelism(t), f) + delta)
               && (forall g :: g != f ==> EvangelismCount(d, g) == EvangelismCount(CurrentEvangelism(t), g))
               && d.location == CurrentEvangelism(t).location)
  {
    if !hasCallback then None
    else
      var cur := CurrentEvangelism(t);
      var d := WithEvangelismCount(cur, f, Clamp(EvangelismCount(cur, f) + delta));
      Some(EmptyPatch.(evangelismDetails := Some(Some(d))))
  }

  /** Plus then minus on the same count, each applied to the task as it then
      stands, gives back the record the card started from. */
  lemma EvangelismPlusMinus(t: Task, f: EvangelismField, now1: int, now2: int)
    requires EvangelismCount(CurrentEvangelism(t), f) >= 0
    ensures var t1 := Merge(t, UpdateEvangelismDetail(t, true, f, 1).value, now1);
            var t2 := Merge(t1, UpdateEvangelismDetail(t1, true, f, -1).value, now2);
            t2.evangelismDetails == Some(CurrentEvangelism(t))
  {
    var cur := CurrentEvangelism(t);
    var t1 := Merge(t, UpdateEvangelismDetail(t, true, f, 1).value, now1);
    assert CurrentEvangelism(t1) == WithEvangelismCount(cur, f, EvangelismCount(cur, f) + 1);
    EvangelismRestore(cur, f, EvangelismCount(cur, f) + 1);
  }

  lemma EvangelismRestore(d: EvangelismDetails, f: EvangelismField, v: int)
    ensures WithEvangelismCount(WithEvangelismCount(d, f, v), f, EvangelismCount(d, f)) == d
  {
  }

  // ---------------------------------------------------------------------------
  // Bible study and literature counts
  // ---------------------------------------------------------------------------

  const BibleStudyDefault: BibleStudyDetails := BibleStudyDetails(0, "", "")

  function CurrentBibleStudy(t: Task): BibleStudyDetails {
    if t.bibleStudyDetails.Some? then t.bibleStudyDetails.value else BibleStudyDefault
  }

  /** `updateBibleStudyDetail('chaptersRead', delta)`: the chapter count
      moves by `delta`, kept at zero or above; book and notes are kept. */
  function UpdateBibleStudyDetail(t: Task, hasCallback: bool, delta: int): (r: Option<TaskPatch>)
    ensures r.None? <==> !hasCallback
    ensures r.Some? ==> OnlyBibleStudy(r.value)
    ensures r.Some? && OnlyBibleStudy(r.value) ==>
              (var d := r.value.bibleStudyDetails.value.value;
               && d.chaptersRead == Clamp(CurrentBibleStudy(t).chaptersRead + delta)
               && d.book == CurrentBibleStudy(t).book && d.notes == CurrentBibleStudy(t).notes)
  {
    if !hasCallback then None
    else
      var cur := CurrentBibleStudy(t);
      Some(EmptyPatch.(bibleStudyDetails := Some(Some(cur.(chaptersRead := Clamp(cur.chaptersRead + delta))))))
  }

  const LiteratureDefault: LiteratureDetails := LiteratureDetails("", "", 0)

  function CurrentLiterature(t: Task): LiteratureDetails {
    if t.literatureDetails.Some? then t.literatureDetails.value else LiteratureDefault
  }

  /** `updateLiteratureDetail('pagesRead', delta)`: the page count moves by
      `delta`, kept at zero or above; title and author are kept. */
  function UpdateLiteratureDetail(t: Task, hasCallback: bool, delta: int): (r: Option<TaskPatch>)
    ensures r.None? <==> !hasCallback
    ensures r.Some? ==> OnlyLiterature(r.value)
    ensures r.Some? && OnlyLiterature(r.value) ==>
              (var d := r.value.literatureDetails.value.value;
               && d.pagesRead == Clamp(CurrentLiterature(t).pagesRead + delta)
               && d.title == CurrentLiterature(t).title && d.author == CurrentLiterature(t).author)
  {
    if !hasCallback then None
    else
      var cur := CurrentLiterature(t);
      Some(EmptyPatch.(literatureDetails := Some(Some(cur.(pagesRead := Clamp(cur.pagesRead + delta))))))
  }

  // ---------------------------------------------------------------------------
  // Through the store
  // ---------------------------------------------------------------------------

  /** A press sent to the store touches only the task's detail record and its
      update time, and keeps the task well-formed. */
  lemma PressTouchesOnlyDetails(t: Task, f: EvangelismField, delta: int, now: int)
    requires WellFormed(t)
    ensures var t1 := Merge(t, UpdateEvangelismDetail(t, true, f, delta).value, now);
            && t1 == t.(updatedAt := now, evangelismDetails := t1.evangelismDetails)
            && WellFormed(t1)
  {
    var p := UpdateEvangelismDetail(t, true, f, delta).value;
    MergeKeepsWellFormed(t, p, now);
  }

  /** However the buttons are pressed, counts that start at zero or above
      stay at zero or above. */
  lemma {:induction false} PressesKeepCountsNatural(t: Task, presses: seq<(EvangelismField, int)>, now: int)
    requires forall g :: EvangelismCount(CurrentEvangelism(t), g) >= 0
    ensures forall g :: EvangelismCount(CurrentEvangelism(ApplyPresses(t, presses, now)), g) >= 0
    decreases |presses|
  {
    if |presses| > 0 {
      var t1 := Merge(t, UpdateEvangelismDetail(t, true, presses[0].0, presses[0].1).value, now);
      assert forall g :: EvangelismCount(CurrentEvangelism(t1), g) >= 0;
      PressesKeepCountsNatural(t1, presses[1..], now);
    }
  }

  /** A run of presses, each patching the task as the previous one left it. */
  function ApplyPresses(t: Task, presses: seq<(EvangelismField, int)>, now: int): Task
    decreases |presses|
  {
    if |presses| == 0 then t
    else
      var t1 := Merge(t, UpdateEvangelismDetail(t, true, presses[0].0, presses[0].1).value, now);
      ApplyPresses(t1, presses[1..], now)
  }
}
