/** The sub-category picker of a running task and the compact breakdown
    under it: the option list, adding a custom name, and the per-name time
    and percentage rows. */
module SubCategorySelector {
  import opened Base
  import opened JsText
  import opened TaskTypes
  import opened TaskUtils
  import opened TaskStore

  // ---------------------------------------------------------------------------
  // Options and custom names
  // ---------------------------------------------------------------------------

  /** `allSubCategories`: the category's defaults, then the task's own
      names, each list in its order. */
  function AllSubCategories(c: Category, custom: seq<string>): (r: seq<string>)
    ensures |r| == |DefaultSubCategories(c)| + |custom|
    ensures r[..|DefaultSubCategories(c)|] == DefaultSubCategories(c)
    ensures r[|DefaultSubCategories(c)|..] == custom
    ensures forall x :: x in r <==> x in DefaultSubCategories(c) || x in custom
  {
    DefaultSubCategories(c) + custom
  }

  /** The text box of the picker. */
  datatype Editor = Editor(text: string, adding: bool)

  /** `handleAddCustom`: a name that is not blank once trimmed is handed on,
      trimmed, and the editor is cleared and closed; blank input changes
      nothing. */
  function HandleAddCustom(e: Editor): (r: (Option<string>, Editor))
    ensures r.0.None? <==> AllWhitespace(e.text)
    ensures r.0.None? ==> r.1 == e
    ensures r.0.Some? ==> r.0.value == Trim(e.text) && r.1 == Editor("", false)
    ensures r.0.Some? ==> |r.0.value| > 0 && !IsJsWhitespace(r.0.value[0]) &&
                          !IsJsWhitespace(r.0.value[|r.0.value| - 1])
  {
    var name := Trim(e.text);
    if |name| > 0 then (Some(name), Editor("", false)) else (None, e)
  }

  /** The name handed on is a piece of the typed text. */
  lemma HandleAddCustomPiece(e: Editor)
    ensures var r := HandleAddCustom(e);
            r.0.Some? ==> Includes(e.text, r.0.value)
  {
    var name := Trim(e.text);
    var k := LeadingWhitespace(e.text);
    assert OccursAt(e.text, name, k);
    IncludesIsInfix(e.text, name);
  }

  /** Typing the handed-on name again hands on the same name. */
  lemma HandleAddCustomStable(e: Editor)
    ensures var r := HandleAddCustom(e);
            r.0.Some? ==> HandleAddCustom(Editor(r.0.value, true)).0 == r.0
  {
    TrimIdempotent(e.text);
  }

  /** Adding a custom name through the picker: the same trimmed name is
      added to the task's list and made its current sub-category. */
  function AddFromPicker(tasks: seq<Task>, id: string, e: Editor, sid: string, now: int): (r: seq<Task>)
    ensures |r| == |tasks|
    ensures AllWhitespace(e.text) ==> r == tasks
    ensures forall i :: 0 <= i < |tasks| && tasks[i].id != id ==> r[i] == tasks[i]
  {
    var out := HandleAddCustom(e).0;
    if out.Some? then
      ChangeSubCategory(AddCustomSubCategory(tasks, id, out.value, now), id, out.value, sid, now)
    else tasks
  }

  /** After adding through the picker, every task with the id offers the
      trimmed name and has it as its current sub-category. */
  lemma AddFromPickerSelects(tasks: seq<Task>, id: string, e: Editor, sid: string, now: int, i: int)
    requires 0 <= i < |tasks| && tasks[i].id == id && !AllWhitespace(e.text)
    ensures var r := AddFromPicker(tasks, id, e, sid, now);
            && Trim(e.text) in AllSubCategories(r[i].category, r[i].customSubCategories)
            && r[i].currentSubCategory == Some(Trim(e.text))
  {
    var name := Trim(e.text);
    var added := AddCustomSubCategory(tasks, id, name, now);
    assert added[i] == AddCustom(tasks[i], name, now);
    var r := ChangeSubCategory(added, id, name, sid, now);
    assert r[i] == Switch(added[i], name, sid, now);
  }

  // ---------------------------------------------------------------------------
  // The breakdown rows
  // ---------------------------------------------------------------------------

  /** The breakdown's `formatTime`: seconds below a minute, whole minutes
      below an hour, else whole hours and the minutes left over. */
  function BreakdownTime(seconds: int): (s: string)
    ensures |s| >= 2 && s[|s| - 1] == (if seconds < 60 then 's' else 'm')
    ensures seconds >= 0 ==> (' ' in s <==> seconds >= 3600)
  {
    if seconds < 60 then
      if seconds >= 0 then DigitsExclude(IntToString(seconds), ' '); IntToString(seconds) + "s"
      else IntToString(seconds) + "s"
    else
      var mins := seconds / 60;
      if mins < 60 then DigitsExclude(IntToString(mins), ' '); IntToString(mins) + "m"
      else
        CompactHasSpace(IntToString(mins / 60), IntToString(mins % 60));
        IntToString(mins / 60) + "h " + IntToString(mins % 60) + "m"
  }

  /** From a minute on, the breakdown's label is the compact duration
      label. */
  lemma BreakdownTimeIsCompact(seconds: int)
    requires seconds >= 60
    ensures BreakdownTime(seconds) == FormatTimeCompact(seconds)
  {
    MinuteHourFields(seconds);
  }

  lemma MinuteHourFields(seconds: int)
    requires seconds >= 60
    ensures seconds / 60 < 60 <==> seconds / 3600 == 0
    ensures (seconds / 60) / 60 == seconds / 3600
    ensures (seconds / 60) % 60 == JsRem(seconds, 3600) / 60
  {
    var h := seconds / 3600;
    var x := seconds % 3600;
    var m := x / 60;
    assert seconds == h * 3600 + x;
    assert seconds == (h * 60 + m) * 60 + x % 60;
    assert seconds / 60 == h * 60 + m;
  }

  /** A seconds label reads back as its seconds. */
  lemma SecondsReadBack(seconds: int)
    requires 0 <= seconds < 60
    ensures ParseUnits(BreakdownTime(seconds)) == Some(seconds)
  {
    var a := NatToString(seconds);
    TokenRoundTrip(a, 's');
    ParseNatToString(seconds);
    ParseUnitsOne(a + ['s']);
  }

  /** Every breakdown label reads back as its duration: exactly below a
      minute, cut to whole minutes from a minute on. */
  lemma BreakdownTimeRoundTrip(seconds: int)
    requires seconds >= 0
    ensures ParseUnits(BreakdownTime(seconds)) == Some(if seconds < 60 then seconds else seconds - seconds % 60)
  {
    if seconds < 60 {
      SecondsReadBack(seconds);
    } else {
      BreakdownTimeIsCompact(seconds);
      FormatTimeCompactRoundTrip(seconds);
    }
  }

  /** `breakdown.reduce((sum, b) => sum + b.duration, 0)`. */
  function Total(bd: seq<SubCategoryTime>): int {
    if |bd| == 0 then 0 else Total(bd[..|bd| - 1]) + bd[|bd| - 1].duration
  }

  predicate NonNegative(bd: seq<SubCategoryTime>) {
    forall i :: 0 <= i < |bd| ==> bd[i].duration >= 0
  }

  /** With no negative duration, each entry is at most the total. */
  lemma {:induction false} EntryAtMostTotal(bd: seq<SubCategoryTime>, i: int)
    requires NonNegative(bd) && 0 <= i < |bd|
    ensures 0 <= bd[i].duration <= Total(bd)
  {
    var init := bd[..|bd| - 1];
    assert NonNegative(init) by {
      assert forall j :: 0 <= j < |init| ==> init[j] == bd[j];
    }
    TotalNonNegative(init);
    if i < |bd| - 1 {
      assert init[i] == bd[i];
      EntryAtMostTotal(init, i);
    }
  }

  lemma {:induction false} TotalNonNegative(bd: seq<SubCategoryTime>)
    requires NonNegative(bd)
    ensures Total(bd) >= 0
  {
    if |bd| > 0 {
      var init := bd[..|bd| - 1];
      assert forall j :: 0 <= j < |init| ==> init[j] == bd[j];
      TotalNonNegative(init);
    }
  }

  /** In a consistent ledger the breakdown's total is the time of the named
      sessions, which is all of the task's time when every session is named. */
  lemma {:induction false} TotalIsTaggedTime(ss: seq<Session>, bd: seq<SubCategoryTime>)
    requires EntriesMatch(ss, bd)
    ensures Total(bd) == TaggedSum(ss, bd)
  {
    if |bd| > 0 {
      var init := bd[..|bd| - 1];
      assert EntriesMatch(ss, init) by {
        assert forall j :: 0 <= j < |init| ==> init[j] == bd[j];
      }
      TotalIsTaggedTime(ss, init);
    }
  }

  /** The time of the sessions tagged with each entry's name, summed over the
      entries. */
  function TaggedSum(ss: seq<Session>, bd: seq<SubCategoryTime>): int {
    if |bd| == 0 then 0 else TaggedSum(ss, bd[..|bd| - 1]) + TaggedTotal(ss, bd[|bd| - 1].subCategory)
  }

  /** `Math.round((duration / total) * 100)`, or 0 when the total is 0: the
      whole percentage nearest to the exact share, halves rounded up. */
  function Percentage(duration: int, total: int): (p: int)
    ensures total > 0 ==> (2 * p - 1) * total <= 200 * duration < (2 * p + 1) * total
    ensures total <= 0 ==> p == 0
  {
    if total > 0 then
      var p := (200 * duration + total) / (2 * total);
      RoundHalfUp(200 * duration + total, 2 * total, p);
      p
    else 0
  }

  lemma RoundHalfUp(n: int, d: int, p: int)
    requires d > 0 && p == n / d
    ensures p * d <= n < (p + 1) * d
  {
  }

  /** A share of a non-negative total is between 0 and 100 percent. */
  lemma PercentageBounds(duration: int, total: int)
    requires 0 <= duration <= total
    ensures 0 <= Percentage(duration, total) <= 100
  {
    if total > 0 {
      var p := Percentage(duration, total);
      assert (2 * p - 1) * total <= 200 * duration <= 200 * total;
      assert 0 <= 200 * duration < (2 * p + 1) * total;
      PositiveFactor(2 * p + 1, total);
      BelowBound(2 * p - 1, total);
    }
  }

  lemma BelowBound(a: int, b: int)
    requires b > 0 && a * b <= 200 * b
    ensures a <= 200
  {
  }

  lemma PositiveFactor(a: int, b: int)
    requires b > 0 && a * b > 0
    ensures a > 0
  {
  }

  /** One line of the breakdown. */
  datatype Row = Row(subCategory: string, time: string, percentage: int)

  /** `SubCategoryBreakdown`: nothing for an empty breakdown, else one row
      per entry in order, with its label and its share of the total. */
  function BreakdownRows(bd: seq<SubCategoryTime>): (r: Option<seq<Row>>)
    ensures r.None? <==> |bd| == 0
    ensures r.Some? ==> |r.value| == |bd|
    ensures r.Some? ==> forall i :: 0 <= i < |bd| ==>
              r.value[i].subCategory == bd[i].subCategory &&
              r.value[i].time == BreakdownTime(bd[i].duration) &&
              r.value[i].percentage == Percentage(bd[i].duration, Total(bd))
  {
    if |bd| == 0 then None else Some(RowsOf(bd, Total(bd)))
  }

  /** The row for one entry: its name, its time label and its share. */
  function RowFor(e: SubCategoryTime, total: int): Row {
    Row(e.subCategory, BreakdownTime(e.duration), Percentage(e.duration, total))
  }

  function RowsOf(bd: seq<SubCategoryTime>, total: int): (r: seq<Row>)
    ensures |r| == |bd|
    ensures forall i :: 0 <= i < |bd| ==> r[i] == RowFor(bd[i], total)
  {
    seq(|bd|, i requires 0 <= i < |bd| => RowFor(bd[i], total))
  }

  /** With no negative duration, every row's share is between 0 and 100. */
  lemma RowsBounded(bd: seq<SubCategoryTime>)
    requires NonNegative(bd)
    ensures BreakdownRows(bd).Some? ==>
              forall i :: 0 <= i < |bd| ==> 0 <= BreakdownRows(bd).value[i].percentage <= 100
  {
    forall i | 0 <= i < |bd| ensures 0 <= Percentage(bd[i].duration, Total(bd)) <= 100 {
      EntryAtMostTotal(bd, i);
      PercentageBounds(bd[i].duration, Total(bd));
    }
  }
}
