/** The "New Ministry Task" form: its fields, the payload it hands to the
    store on submit, the reset that follows, and the counter buttons. */
module CreateTaskSheet {
  import opened Base
  import opened TaskTypes
  import opened TaskUtils
  import opened TaskStore

  /** The form's state: the common fields and every category's own fields,
      all kept whether or not the chosen category uses them. */
  datatype Form = Form(
    title: string,
    category: Category,
    location: string,
    notes: string,
    tractsShared: int,
    peoplePrayed: int,
    repentances: int,
    invitations: int,
    chaptersRead: int,
    book: string,
    literatureTitle: string,
    author: string,
    pagesRead: int,
    scripture: string)

  /** The form as first shown and as `resetForm` leaves it. */
  const BlankForm: Form := Form("", Evangelism, "", "", 0, 0, 0, 0, 0, "", "", "", 0, "")

  /** The counter buttons: `value + 1`, and `Math.max(0, value - 1)`. */
  function Increment(v: int): (r: int)
    ensures r > v
  {
    v + 1
  }

  function Decrement(v: int): (r: int)
    ensures r >= 0
    ensures r <= v || v < 0
    ensures r == v - 1 || r == 0
  {
    if v - 1 > 0 then v - 1 else 0
  }

  /** Minus undoes plus on a count; plus undoes minus on a positive count,
      and minus on zero stays at zero. */
  lemma CounterRoundTrip(v: int)
    ensures v >= 0 ==> Decrement(Increment(v)) == v
    ensures v > 0 ==> Increment(Decrement(v)) == v
    ensures v <= 0 ==> Decrement(v) == 0
  {
  }

  /** A run of presses on one counter: `true` for plus, `false` for minus. */
  function Press(v: int, presses: seq<bool>): int
    decreases |presses|
  {
    if |presses| == 0 then v
    else Press(if presses[0] then Increment(v) else Decrement(v), presses[1..])
  }

  /** However the buttons are pressed, a counter that starts at zero never
      goes negative and never exceeds the number of plus presses. */
  lemma {:induction false} PressBounds(v: int, presses: seq<bool>)
    requires v >= 0
    ensures 0 <= Press(v, presses) <= v + |presses|
    decreases |presses|
  {
    if |presses| > 0 {
      var next := if presses[0] then Increment(v) else Decrement(v);
      assert 0 <= next <= v + 1;
      PressBounds(next, presses[1..]);
    }
  }

  /** `handleSubmit`'s `taskData`: the title (or the category's label when it
      is empty), the category, location and notes, and the detail record of
      the chosen category only. */
  function Payload(f: Form): (p: TaskPatch)
    ensures p.title == Some(if |f.title| > 0 then f.title else CategoryLabel(f.category))
    ensures p.category == Some(f.category)
    ensures p.location == Some(Some(f.location)) && p.notes == Some(Some(f.notes))
    ensures OneDetailRecord(p, f.category)
  {
    EmptyPatch.(
      title := Some(if |f.title| > 0 then f.title else CategoryLabel(f.category)),
      category := Some(f.category),
      location := Some(Some(f.location)),
      notes := Some(Some(f.notes)),
      evangelismDetails :=
        if f.category == Evangelism then
          Some(Some(EvangelismDetails(f.tractsShared, f.peoplePrayed, f.repentances, f.invitations, f.location)))
        else None,
      bibleStudyDetails :=
        if f.category == BibleStudy then Some(Some(BibleStudyDetails(f.chaptersRead, f.book, f.notes)))
        else None,
      literatureDetails :=
        if f.category == Literature then
          Some(Some(LiteratureDetails(f.literatureTitle, f.author, f.pagesRead)))
        else None,
      meditationDetails :=
        if f.category == Meditation then Some(Some(MeditationDetails(f.scripture, f.notes)))
        else None)
  }

  /** A patch carries a detail record exactly for the categories that have
      one on the form, and only the record of `c`. */
  predicate OneDetailRecord(p: TaskPatch, c: Category) {
    && (p.evangelismDetails.Some? <==> c == Evangelism)
    && (p.bibleStudyDetails.Some? <==> c == BibleStudy)
    && (p.literatureDetails.Some? <==> c == Literature)
    && (p.meditationDetails.Some? <==> c == Meditation)
    && p.prayerDetails.None?
  }

  /** `handleSubmit`: the payload to hand on, and the form reset: category
      evangelism, every counter zero and every text field empty. */
  function Submit(f: Form): (r: (TaskPatch, Form))
    ensures r.0.category == Some(f.category) && OneDetailRecord(r.0, f.category)
    ensures |f.title| > 0 ==> FormOf(r.0) == Relevant(f)
    ensures r.1.category == Evangelism
    ensures r.1.title == "" && r.1.location == "" && r.1.notes == ""
    ensures r.1.book == "" && r.1.literatureTitle == "" && r.1.author == "" && r.1.scripture == ""
    ensures r.1.tractsShared == 0 && r.1.peoplePrayed == 0 && r.1.repentances == 0 && r.1.invitations == 0
    ensures r.1.chaptersRead == 0 && r.1.pagesRead == 0
  {
    PayloadReadsBackWhenTitled(f);
    (Payload(f), BlankForm)
  }

  lemma PayloadReadsBackWhenTitled(f: Form)
    ensures |f.title| > 0 ==> FormOf(Payload(f)) == Relevant(f)
  {
    if |f.title| > 0 {
      PayloadReadsBack(f);
    }
  }

  /** Submitting the reset form straight away hands on an evangelism task
      titled with the category's label, with zero counts and empty text. */
  lemma ResetFormSubmits(f: Form)
    ensures var p := Submit(Submit(f).1).0;
            && p.title == Some(CategoryLabel(Evangelism))
            && p.category == Some(Evangelism)
            && p.location == Some(Some("")) && p.notes == Some(Some(""))
            && p.evangelismDetails == Some(Some(EvangelismDetails(0, 0, 0, 0, "")))
            && p.bibleStudyDetails.None? && p.literatureDetails.None? && p.meditationDetails.None?
  {
  }

  /** The fields of `f` that its category puts into the payload; every other
      category's fields are blanked. */
  function Relevant(f: Form): Form {
    BlankForm.(
      title := f.title, category := f.category, location := f.location, notes := f.notes,
      tractsShared := if f.category == Evangelism then f.tractsShared else 0,
      peoplePrayed := if f.category == Evangelism then f.peoplePrayed else 0,
      repentances := if f.category == Evangelism then f.repentances else 0,
      invitations := if f.category == Evangelism then f.invitations else 0,
      chaptersRead := if f.category == BibleStudy then f.chaptersRead else 0,
      book := if f.category == BibleStudy then f.book else "",
      literatureTitle := if f.category == Literature then f.literatureTitle else "",
      author := if f.category == Literature then f.author else "",
      pagesRead := if f.category == Literature then f.pagesRead else 0,
      scripture := if f.category == Meditation then f.scripture else "")
  }

  /** Reads a form back out of a payload. */
  function FormOf(p: TaskPatch): Form {
    var c := if p.category.Some? then p.category.value else Other;
    var ev := Given(p.evangelismDetails);
    var bs := Given(p.bibleStudyDetails);
    var lit := Given(p.literatureDetails);
    var med := Given(p.meditationDetails);
    Form(
      if p.title.Some? then p.title.value else "",
      c,
      if Given(p.location).Some? then Given(p.location).value else "",
      if Given(p.notes).Some? then Given(p.notes).value else "",
      if ev.Some? then ev.value.tractsShared else 0,
      if ev.Some? then ev.value.peoplePrayed else 0,
      if ev.Some? then ev.value.repentances else 0,
      if ev.Some? then ev.value.invitations else 0,
      if bs.Some? then bs.value.chaptersRead else 0,
      if bs.Some? then bs.value.book else "",
      if lit.Some? then lit.value.title else "",
      if lit.Some? then lit.value.author else "",
      if lit.Some? then lit.value.pagesRead else 0,
      if med.Some? then med.value.scripture else "")
  }

  /** The payload loses nothing the chosen category uses: a titled form is
      read back exactly up to the other categories' fields. */
  lemma PayloadReadsBack(f: Form)
    requires |f.title| > 0
    ensures FormOf(Payload(f)) == Relevant(f)
  {
  }

  /** An untitled form reads back with the category's label as its title. */
  lemma UntitledPayloadReadsBack(f: Form)
    requires |f.title| == 0
    ensures FormOf(Payload(f)) == Relevant(f).(title := CategoryLabel(f.category))
  {
  }

  /** Submitting to the store: the new task is titled with the form's title
      or the category's label, never the store's own fallback, and carries
      the form's category, location and notes and the chosen category's
      detail record. */
  lemma SubmitCreates(tasks: seq<Task>, id: string, f: Form, now: int)
    ensures var t := CreateTask(tasks, id, Submit(f).0, now).1;
            && t.title == (if |f.title| > 0 then f.title else CategoryLabel(f.category))
            && t.category == f.category
            && t.location == Some(f.location) && t.notes == Some(f.notes)
            && (t.evangelismDetails.Some? <==> f.category == Evangelism)
            && (t.bibleStudyDetails.Some? <==> f.category == BibleStudy)
            && (t.literatureDetails.Some? <==> f.category == Literature)
            && (t.meditationDetails.Some? <==> f.category == Meditation)
            && t.prayerDetails.None?
            && WellFormed(t)
  {
  }

  /** The evangelism record copies the four counters and the location; the
      meditation record's revelation is the form's notes. */
  lemma SubmitCopiesDetails(tasks: seq<Task>, id: string, f: Form, now: int)
    ensures var t := CreateTask(tasks, id, Submit(f).0, now).1;
            && (f.category == Evangelism ==>
                  t.evangelismDetails ==
                  Some(EvangelismDetails(f.tractsShared, f.peoplePrayed, f.repentances, f.invitations, f.location)))
            && (f.category == BibleStudy ==> t.bibleStudyDetails == Some(BibleStudyDetails(f.chaptersRead, f.book, f.notes)))
            && (f.category == Literature ==>
                  t.literatureDetails == Some(LiteratureDetails(f.literatureTitle, f.author, f.pagesRead)))
            && (f.category == Meditation ==> t.meditationDetails == Some(MeditationDetails(f.scripture, f.notes)))
  {
  }
}
