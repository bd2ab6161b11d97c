/** The summary calculator: duration formatters, category labels, a task's
    live elapsed time, and the daily and weekly roll-ups. */
module TaskUtils {
  import opened Base
  import opened JsText
  import opened Calendar
  import opened TaskTypes

  // ---------------------------------------------------------------------------
  // Duration formatting
  // ---------------------------------------------------------------------------

  /** `n.toString().padStart(2, '0')` for any integer. */
  function JsPad2(n: int): string {
    PadStart(IntToString(n), 2, '0')
  }

  /** The hours, minutes and seconds fields `formatTime` computes, with
      JavaScript's flooring division and truncating remainder. */
  function ClockFields(seconds: int): (int, int, int) {
    (seconds / 3600, JsRem(seconds, 3600) / 60, JsRem(seconds, 60))
  }

  /** Euclidean division by a positive constant is determined by its
      quotient and remainder. */
  lemma DivModUnique(a: int, d: int, q: int, x: int)
    requires d > 0 && a == d * q + x && 0 <= x < d
    ensures a / d == q && a % d == x
  {
    var q' := a / d;
    var x' := a % d;
    assert a == d * q' + x' && 0 <= x' < d;
    if q' > q {
      assert d * q' >= d * (q + 1) by { MulMonotone(d, q + 1, q'); }
    } else if q' < q {
      assert d * q >= d * (q' + 1) by { MulMonotone(d, q' + 1, q); }
    }
  }

  lemma MulMonotone(d: int, a: int, b: int)
    requires d > 0 && a <= b
    ensures d * a <= d * b
  {
  }

  /** For a non-negative count the fields are a proper clock decomposition. */
  lemma ClockFieldsDecompose(seconds: int)
    requires seconds >= 0
    ensures ClockFields(seconds).0 >= 0
    ensures 0 <= ClockFields(seconds).1 < 60
    ensures 0 <= ClockFields(seconds).2 < 60
    ensures ClockFields(seconds).0 * 3600 + ClockFields(seconds).1 * 60 + ClockFields(seconds).2 == seconds
  {
    var h := seconds / 3600;
    var r := seconds % 3600;
    assert seconds == 3600 * h + r && 0 <= r < 3600;
    var m := r / 60;
    var x := r % 60;
    assert r == 60 * m + x && 0 <= x < 60;
    DivModUnique(seconds, 60, 60 * h + m, x);
    assert JsRem(seconds, 60) == x;
    assert JsRem(seconds, 3600) == r;
  }

  /** `formatTime`: `HH:MM:SS` when there is at least an hour, else `MM:SS`. */
  function FormatTime(seconds: int): (s: string)
    ensures seconds >= 0 ==> ClockShaped(s, seconds)
  {
    var f := ClockFields(seconds);
    var hh, mm, xx := JsPad2(f.0), JsPad2(f.1), JsPad2(f.2);
    var text := if f.0 > 0 then hh + ":" + mm + ":" + xx else mm + ":" + xx;
    if seconds >= 0 then
      ClockFieldWidths(seconds);
      ClockTextFacts(seconds, hh, mm, xx, f.0 > 0, text);
      text
    else text
  }

  /** The shape and the trailing fields of the clock text built from the
      padded fields of a non-negative count. */
  lemma ClockTextFacts(seconds: int, hh: string, mm: string, xx: string, withHours: bool, text: string)
    requires seconds >= 0 && |hh| >= 2
    requires mm == Pad2((seconds % 3600) / 60) && xx == Pad2(seconds % 60)
    requires withHours <==> seconds >= 3600
    requires text == if withHours then hh + ":" + mm + ":" + xx else mm + ":" + xx
    ensures ClockShaped(text, seconds)
  {
    JoinedClockShape(hh, mm, xx, withHours);
  }

  /** The clock text of a non-negative count: `mm:ss` below an hour and
      longer from an hour on, its last two fields reading as the minutes
      past the hour and the seconds past the minute. */
  predicate ClockShaped(s: string, seconds: int) {
    && |s| >= 5 && (|s| == 5 <==> seconds < 3600)
    && ClockTail(s, (seconds % 3600) / 60, seconds % 60)
  }

  /** A clock text ending in `mm:ss`: two digits reading as `minutes`, a
      colon, and two digits reading as `secs`. */
  predicate ClockTail(s: string, minutes: int, secs: int) {
    && |s| >= 5 && s[|s| - 3] == ':'
    && AllDigits(s[|s| - 5..|s| - 3]) && ParseNat(s[|s| - 5..|s| - 3]) == minutes
    && AllDigits(s[|s| - 2..]) && ParseNat(s[|s| - 2..]) == secs
  }

  /** With two-letter minute and second fields, the seconds' colon is third
      from the end, and the text is longer than five letters exactly when the
      hours field is shown. */
  lemma JoinedClockShape(hh: string, mm: string, xx: string, withHours: bool)
    requires |hh| >= 2 && |mm| == 2 && |xx| == 2
    ensures var s := if withHours then hh + ":" + mm + ":" + xx else mm + ":" + xx;
            && |s| >= 5 && s[|s| - 3] == ':' && (|s| == 5 <==> !withHours)
            && s[|s| - 5..|s| - 3] == mm && s[|s| - 2..] == xx
  {
  }

  /** For a non-negative count the minute and second fields print as two
      digits, the hours field as at least two, and hours appear from 3600
      seconds on. */
  lemma ClockFieldWidths(seconds: int)
    requires seconds >= 0
    ensures var (h, m, x) := ClockFields(seconds);
            && |JsPad2(m)| == 2 && |JsPad2(x)| == 2 && |JsPad2(h)| >= 2
            && (h > 0 <==> seconds >= 3600)
            && JsPad2(m) == Pad2(m) && JsPad2(x) == Pad2(x)
            && m == (seconds % 3600) / 60 && x == seconds % 60
  {
    ClockFieldsDecompose(seconds);
    var (h, m, x) := ClockFields(seconds);
    NatToStringSmall(m);
    NatToStringSmall(x);
  }

  /** Reads a `H:M:S` or `M:S` clock text back into seconds. */
  function ParseClock(text: string): Option<int> {
    ClockValue(SplitOn(text, ':'))
  }

  /** The seconds three (`H:M:S`) or two (`M:S`) digit fields denote. */
  function ClockValue(f: seq<string>): Option<int> {
    if |f| == 3 && AllDigits(f[0]) && AllDigits(f[1]) && AllDigits(f[2]) then
      Some(ParseNat(f[0]) * 3600 + ParseNat(f[1]) * 60 + ParseNat(f[2]))
    else if |f| == 2 && AllDigits(f[0]) && AllDigits(f[1]) then
      Some(ParseNat(f[0]) * 60 + ParseNat(f[1]))
    else None
  }

  /** Three digit fields joined by colons split back into those fields. */
  lemma ClockSplitThree(a: string, b: string, c: string)
    requires AllDigits(a) && AllDigits(b) && AllDigits(c)
    ensures SplitOn(a + ":" + b + ":" + c, ':') == [a, b, c]
  {
    DigitsExclude(a, ':');
    ClockSplitTwo(b, c);
    JoinThree(a, b, c, ':');
    SplitOnField(a, ':', b + [':'] + c);
  }

  lemma JoinThree(a: string, b: string, c: string, sep: char)
    ensures a + [sep] + b + [sep] + c == a + [sep] + (b + [sep] + c)
  {
  }

  /** Two digit fields joined by a colon split back into those fields. */
  lemma ClockSplitTwo(b: string, c: string)
    requires AllDigits(b) && AllDigits(c)
    ensures SplitOn(b + ":" + c, ':') == [b, c]
  {
    DigitsExclude(b, ':');
    DigitsExclude(c, ':');
    SplitOnNoSep(c, ':');
    SplitOnField(b, ':', c);
  }

  /** The text `formatTime` produces, in terms of the decomposed fields. */
  lemma FormatTimeText(seconds: int)
    requires seconds >= 0
    ensures var f := ClockFields(seconds);
            FormatTime(seconds) ==
              if f.0 > 0 then Pad2(f.0) + ":" + Pad2(f.1) + ":" + Pad2(f.2)
              else Pad2(f.1) + ":" + Pad2(f.2)
  {
    ClockFieldsDecompose(seconds);
  }

  /** Three digit fields joined by colons read back as hours, minutes and
      seconds. */
  lemma ParseClockThree(a: string, b: string, c: string)
    requires AllDigits(a) && AllDigits(b) && AllDigits(c)
    ensures ParseClock(a + ":" + b + ":" + c) ==
            Some(ParseNat(a) * 3600 + ParseNat(b) * 60 + ParseNat(c))
  {
    ClockSplitThree(a, b, c);
    ClockValueThree(a + ":" + b + ":" + c, a, b, c);
  }

  /** Two digit fields joined by a colon read back as minutes and seconds. */
  lemma ParseClockTwo(b: string, c: string)
    requires AllDigits(b) && AllDigits(c)
    ensures ParseClock(b + ":" + c) == Some(ParseNat(b) * 60 + ParseNat(c))
  {
    ClockSplitTwo(b, c);
    ClockValueTwo(b + ":" + c, b, c);
  }

  lemma ClockValueThree(text: string, a: string, b: string, c: string)
    requires AllDigits(a) && AllDigits(b) && AllDigits(c)
    requires SplitOn(text, ':') == [a, b, c]
    ensures ParseClock(text) == Some(ParseNat(a) * 3600 + ParseNat(b) * 60 + ParseNat(c))
  {
    var f := [a, b, c];
    assert f[0] == a && f[1] == b && f[2] == c;
    assert ClockValue(f) == Some(ParseNat(a) * 3600 + ParseNat(b) * 60 + ParseNat(c));
  }

  lemma ClockValueTwo(text: string, b: string, c: string)
    requires AllDigits(b) && AllDigits(c)
    requires SplitOn(text, ':') == [b, c]
    ensures ParseClock(text) == Some(ParseNat(b) * 60 + ParseNat(c))
  {
    var f := [b, c];
    assert f[0] == b && f[1] == c;
    assert ClockValue(f) == Some(ParseNat(b) * 60 + ParseNat(c));
  }

  /** A text that splits into digit fields reading as `h`, `m` and `s`
      (the hours field absent when `h` is 0) reads back as the total. */
  lemma ReadClockFields(text: string, f: seq<string>, h: nat, m: nat, s: nat, seconds: int)
    requires seconds == h * 3600 + m * 60 + s
    requires SplitOn(text, ':') == f
    requires |f| == (if h > 0 then 3 else 2)
    requires forall i :: 0 <= i < |f| ==> AllDigits(f[i])
    requires ParseNat(f[|f| - 1]) == s && ParseNat(f[|f| - 2]) == m
    requires h > 0 ==> ParseNat(f[0]) == h
    ensures ParseClock(text) == Some(seconds)
  {
    if h > 0 {
      ClockValueThree(text, f[0], f[1], f[2]);
    } else {
      ClockValueTwo(text, f[0], f[1]);
    }
  }

  /** `formatTime` splits at its colons into its padded fields. */
  lemma FormatTimeFields(seconds: int)
    requires seconds >= 0
    ensures var f := ClockFields(seconds);
            SplitOn(FormatTime(seconds), ':') ==
              if f.0 > 0 then [Pad2(f.0), Pad2(f.1), Pad2(f.2)] else [Pad2(f.1), Pad2(f.2)]
  {
    ClockFieldsDecompose(seconds);
    FormatTimeText(seconds);
    var f := ClockFields(seconds);
    if f.0 > 0 {
      ClockSplitThree(Pad2(f.0), Pad2(f.1), Pad2(f.2));
    } else {
      ClockSplitTwo(Pad2(f.1), Pad2(f.2));
    }
  }

  /** `formatTime` loses nothing: reading its text back gives the number of
      seconds. */
  lemma FormatTimeRoundTrip(seconds: int)
    requires seconds >= 0
    ensures ParseClock(FormatTime(seconds)) == Some(seconds)
  {
    ClockFieldsDecompose(seconds);
    var text := FormatTime(seconds);
    var c := ClockFields(seconds);
    var f := SplitOn(text, ':');
    FormatTimeFieldValues(seconds, f, c);
    ReadClockFields(text, f, c.0, c.1, c.2, seconds);
  }

  /** The fields of `formatTime`'s text are digit strings reading as the
      hours (when shown), the minutes and the seconds. */
  lemma FormatTimeFieldValues(seconds: int, f: seq<string>, c: (int, int, int))
    requires seconds >= 0
    requires f == SplitOn(FormatTime(seconds), ':') && c == ClockFields(seconds)
    ensures |f| == (if c.0 > 0 then 3 else 2)
    ensures forall i :: 0 <= i < |f| ==> AllDigits(f[i])
    ensures ParseNat(f[|f| - 1]) == c.2 && ParseNat(f[|f| - 2]) == c.1
    ensures c.0 > 0 ==> ParseNat(f[0]) == c.0
  {
    ClockFieldsDecompose(seconds);
    FormatTimeFields(seconds);
    PaddedFields(c.0, c.1, c.2, f);
  }

  lemma PaddedFields(h: nat, m: nat, s: nat, f: seq<string>)
    requires f == if h > 0 then [Pad2(h), Pad2(m), Pad2(s)] else [Pad2(m), Pad2(s)]
    ensures |f| == (if h > 0 then 3 else 2)
    ensures forall i :: 0 <= i < |f| ==> AllDigits(f[i])
    ensures ParseNat(f[|f| - 1]) == s && ParseNat(f[|f| - 2]) == m
    ensures h > 0 ==> ParseNat(f[0]) == h
  {
    if h > 0 {
      DigitFields3(Pad2(h), Pad2(m), Pad2(s));
    } else {
      DigitFields2(Pad2(m), Pad2(s));
    }
  }

  lemma DigitFields3(a: string, b: string, c: string)
    requires AllDigits(a) && AllDigits(b) && AllDigits(c)
    ensures forall i :: 0 <= i < 3 ==> AllDigits([a, b, c][i])
  {
  }

  lemma DigitFields2(b: string, c: string)
    requires AllDigits(b) && AllDigits(c)
    ensures forall i :: 0 <= i < 2 ==> AllDigits([b, c][i])
  {
  }

  /** The shape of `formatTime`'s text: three colon-separated fields exactly
      when the count reaches an hour, every field at least two digits wide,
      and the minute and second fields exactly two (the leading field is
      the hours or the minutes, so every field is covered). */
  lemma FormatTimeShape(seconds: int)
    requires seconds >= 0
    ensures var f := SplitOn(FormatTime(seconds), ':');
            && |f| == (if seconds >= 3600 then 3 else 2)
            && |f[0]| >= 2
            && |f[|f| - 1]| == 2 && |f[|f| - 2]| == 2
  {
    var f := SplitOn(FormatTime(seconds), ':');
    FormatTimeFieldCount(seconds, f);
    FormatTimeFieldWidths(seconds, f);
  }

  lemma FormatTimeFieldCount(seconds: int, f: seq<string>)
    requires seconds >= 0 && f == SplitOn(FormatTime(seconds), ':')
    ensures |f| == (if seconds >= 3600 then 3 else 2)
  {
    FormatTimeFields(seconds);
    HourFieldPresent(seconds);
  }

  lemma FormatTimeFieldWidths(seconds: int, f: seq<string>)
    requires seconds >= 0 && f == SplitOn(FormatTime(seconds), ':')
    ensures |f| >= 2
    ensures |f[0]| >= 2 && |f[|f| - 1]| == 2 && |f[|f| - 2]| == 2
  {
    ClockFieldsDecompose(seconds);
    FormatTimeFields(seconds);
    var c := ClockFields(seconds);
    FieldWidths(c.0, c.1, c.2, f);
  }

  lemma HourFieldPresent(seconds: int)
    requires seconds >= 0
    ensures seconds >= 3600 <==> ClockFields(seconds).0 > 0
  {
  }

  lemma FieldWidths(h: nat, m: nat, s: nat, f: seq<string>)
    requires m < 60 && s < 60
    requires f == if h > 0 then [Pad2(h), Pad2(m), Pad2(s)] else [Pad2(m), Pad2(s)]
    ensures |f| == (if h > 0 then 3 else 2)
    ensures |f[0]| >= 2 && |f[|f| - 1]| == 2 && |f[|f| - 2]| == 2
  {
  }

  /** `formatTimeCompact`: `"Hh Mm"` from an hour upwards, else `"Mm"`;
      seconds are dropped. */
  function FormatTimeCompact(seconds: int): (s: string)
    ensures |s| >= 2 && s[|s| - 1] == 'm'
    ensures seconds >= 0 ==> (' ' in s <==> seconds >= 3600)
  {
    var hours := seconds / 3600;
    var minutes := JsRem(seconds, 3600) / 60;
    if hours > 0 then
      CompactHasSpace(IntToString(hours), IntToString(minutes));
      IntToString(hours) + "h " + IntToString(minutes) + "m"
    else
      if seconds >= 0 then DigitsExclude(IntToString(minutes), ' '); IntToString(minutes) + "m"
      else IntToString(minutes) + "m"
  }

  /** The two-part compact text has its space. */
  lemma CompactHasSpace(a: string, b: string)
    ensures ' ' in a + "h " + b + "m"
  {
    assert (a + "h " + b + "m")[|a| + 1] == ' ';
  }

  /** The seconds one unit letter stands for. */
  function UnitSeconds(u: char): int {
    if u == 'h' then 3600 else if u == 'm' then 60 else if u == 's' then 1 else 0
  }

  /** Reads one `<digits><unit>` token, for the units `h`, `m` and `s`. */
  function ParseToken(tok: string): Option<int> {
    if |tok| >= 2 && UnitSeconds(tok[|tok| - 1]) > 0 && AllDigits(tok[..|tok| - 1]) then
      Some(ParseNat(tok[..|tok| - 1]) * UnitSeconds(tok[|tok| - 1]))
    else None
  }

  /** The tokens' values summed; `None` when any token is unreadable. */
  function ParseTokens(toks: seq<string>): Option<int> {
    if |toks| == 0 then Some(0)
    else
      var first := ParseToken(toks[0]);
      var rest := ParseTokens(toks[1..]);
      if first.Some? && rest.Some? then Some(first.value + rest.value) else None
  }

  /** Reads a space-separated duration text such as `"2h 5m"` or `"40s"` into
      the seconds it denotes. */
  function ParseUnits(text: string): Option<int> {
    ParseTokens(SplitOn(text, ' '))
  }

  /** `<digits><unit>` reads back as the digits' value times the unit. */
  lemma TokenRoundTrip(a: string, u: char)
    requires |a| >= 1 && AllDigits(a) && UnitSeconds(u) > 0
    ensures ' ' !in a + [u]
    ensures ParseToken(a + [u]) == Some(ParseNat(a) * UnitSeconds(u))
  {
    var tok := a + [u];
    assert tok[..|tok| - 1] == a;
    DigitsExclude(a, ' ');
  }

  /** A text without spaces is read as one token. */
  lemma ParseUnitsOne(t: string)
    requires ' ' !in t
    ensures ParseUnits(t) == ParseToken(t)
  {
    SplitOnNoSep(t, ' ');
    assert ParseTokens([t][1..]) == Some(0) by { assert [t][1..] == []; }
  }

  /** Two space-free tokens joined by one space split back into the two. */
  lemma SplitTwoTokens(t1: string, t2: string)
    requires ' ' !in t1 && ' ' !in t2
    ensures SplitOn(t1 + " " + t2, ' ') == [t1, t2]
  {
    assert t1 + " " + t2 == t1 + [' '] + t2;
    SplitOnField(t1, ' ', t2);
    SplitOnNoSep(t2, ' ');
  }

  /** A two-token list reads as the sum of its tokens. */
  lemma ParseTokensTwo(t1: string, t2: string)
    requires ParseToken(t1).Some? && ParseToken(t2).Some?
    ensures ParseTokens([t1, t2]) == Some(ParseToken(t1).value + ParseToken(t2).value)
  {
    var toks := [t1, t2];
    assert ParseTokens([t2]) == ParseToken(t2) by { assert [t2][1..] == []; }
    assert toks[1..] == [t2];
  }

  /** A text's value is the value of the tokens it splits into. */
  lemma UnitsOfTokens(text: string, toks: seq<string>)
    requires SplitOn(text, ' ') == toks
    ensures ParseUnits(text) == ParseTokens(toks)
  {
  }

  /** The hours and minutes `formatTimeCompact` shows make up the duration
      truncated to whole minutes. */
  lemma CompactFields(seconds: int)
    requires seconds >= 0
    ensures seconds / 3600 >= 0 && 0 <= JsRem(seconds, 3600) / 60 < 60
    ensures seconds - seconds % 60 == (seconds / 3600) * 3600 + (JsRem(seconds, 3600) / 60) * 60
    ensures seconds >= 3600 <==> seconds / 3600 > 0
  {
    ClockFieldsDecompose(seconds);
  }

  /** `formatTimeCompact` shows the duration truncated to whole minutes; the
      hours token is present exactly from one hour upwards. */
  lemma FormatTimeCompactRoundTrip(seconds: int)
    requires seconds >= 0
    ensures ParseUnits(FormatTimeCompact(seconds)) == Some(seconds - seconds % 60)
    ensures |SplitOn(FormatTimeCompact(seconds), ' ')| == if seconds >= 3600 then 2 else 1
  {
    CompactFields(seconds);
    CompactReadsBack(seconds, seconds / 3600, JsRem(seconds, 3600) / 60);
  }

  /** The compact text reads back as its hours and minutes. */
  lemma CompactReadsBack(seconds: int, h: nat, m: nat)
    requires h == seconds / 3600 && m == JsRem(seconds, 3600) / 60
    ensures ParseUnits(FormatTimeCompact(seconds)) == Some(h * 3600 + m * 60)
    ensures |SplitOn(FormatTimeCompact(seconds), ' ')| == if h > 0 then 2 else 1
  {
    var toks := CompactTokens(NatToString(h), NatToString(m), h > 0);
    CompactSplit(seconds, h, m);
    ParseNatToString(h);
    ParseNatToString(m);
    CompactTokensValue(NatToString(h), NatToString(m), h, m, toks);
    UnitsOfTokens(FormatTimeCompact(seconds), toks);
  }

  /** The unit tokens of a compact text with hour digits `a` and minute
      digits `b`. */
  function CompactTokens(a: string, b: string, withHours: bool): seq<string> {
    if withHours then [a + ['h'], b + ['m']] else [b + ['m']]
  }

  /** The compact text splits at its space into its unit tokens. */
  lemma CompactSplit(seconds: int, h: nat, m: nat)
    requires h == seconds / 3600 && m == JsRem(seconds, 3600) / 60
    ensures SplitOn(FormatTimeCompact(seconds), ' ') ==
            CompactTokens(NatToString(h), NatToString(m), h > 0)
  {
    var th, tm := NatToString(h) + ['h'], NatToString(m) + ['m'];
    DigitsExclude(NatToString(h), ' ');
    DigitsExclude(NatToString(m), ' ');
    assert ' ' !in th && ' ' !in tm;
    if h > 0 {
      assert FormatTimeCompact(seconds) == th + " " + tm;
      SplitTwoTokens(th, tm);
    } else {
      assert FormatTimeCompact(seconds) == tm;
      SplitOnNoSep(tm, ' ');
    }
  }

  /** Hours and minutes tokens with digits reading as `h` and `m` are worth
      `h` hours and `m` minutes. */
  lemma CompactTokensValue(a: string, b: string, h: nat, m: nat, toks: seq<string>)
    requires |a| >= 1 && AllDigits(a) && ParseNat(a) == h
    requires |b| >= 1 && AllDigits(b) && ParseNat(b) == m
    requires toks == CompactTokens(a, b, h > 0)
    ensures ParseTokens(toks) == Some(h * 3600 + m * 60)
  {
    TokenRoundTrip(b, 'm');
    if h > 0 {
      TokenRoundTrip(a, 'h');
      ParseTokensTwo(a + ['h'], b + ['m']);
    } else {
      assert toks[1..] == [];
    }
  }

  // ---------------------------------------------------------------------------
  // Category labels
  // ---------------------------------------------------------------------------

  /** `getCategoryLabel`. */
  function CategoryLabel(c: Category): (r: string)
    ensures |r| > 0
  {
    match c
    case Evangelism => "Evangelism"
    case Prayer => "Prayer"
    case BibleStudy => "Bible Study"
    case Meditation => "Meditation"
    case Literature => "Christian Literature"
    case Fellowship => "Fellowship"
    case Other => "Other Ministry"
  }

  /** Different categories get different labels, and no label is the store's
      fallback title. */
  lemma CategoryLabelInjective(c1: Category, c2: Category)
    ensures CategoryLabel(c1) == CategoryLabel(c2) ==> c1 == c2
    ensures CategoryLabel(c1) != "Untitled Task"
  {
  }

  // ---------------------------------------------------------------------------
  // Live elapsed time
  // ---------------------------------------------------------------------------

  /** Seconds of the open session at `now`; 0 for a task that is not running. */
  function LiveSeconds(t: Task, now: int): int {
    if t.isActive && t.currentSessionStart.Some? then
      ElapsedSeconds(t.currentSessionStart.value, now)
    else 0
  }

  /** `calculateTotalTime`: the closed sessions' durations plus the open
      session's whole seconds.  The stored `totalTime` field is not read. */
  function CalculateTotalTime(t: Task, now: int): (total: int)
    ensures !(t.isActive && t.currentSessionStart.Some?) ==> total == SessionTotal(t.sessions)
    ensures t.isActive && t.currentSessionStart.Some? ==>
              var live := total - SessionTotal(t.sessions);
              live * 1000 <= now - t.currentSessionStart.value < (live + 1) * 1000
  {
    SessionTotal(t.sessions) + LiveSeconds(t, now)
  }

  /** For a task whose ledger is consistent the live figure is the stored
      total plus the open session; for an idle one it is the stored total. */
  lemma CalculateTotalTimeAgreesWithLedger(t: Task, now: int)
    requires LedgerConsistent(t)
    ensures CalculateTotalTime(t, now) == t.totalTime + LiveSeconds(t, now)
    ensures !t.isActive ==> CalculateTotalTime(t, now) == t.totalTime
  {
  }

  /** The live figure never decreases as the clock moves forward. */
  lemma CalculateTotalTimeMonotonic(t: Task, now1: int, now2: int)
    requires now1 <= now2
    ensures CalculateTotalTime(t, now1) <= CalculateTotalTime(t, now2)
  {
    if t.isActive && t.currentSessionStart.Some? {
      var s := t.currentSessionStart.value;
      var e1 := ElapsedSeconds(s, now1);
      var e2 := ElapsedSeconds(s, now2);
      assert e1 * 1000 <= now2 - s < (e2 + 1) * 1000;
    }
  }

  // ---------------------------------------------------------------------------
  // Daily and weekly summaries
  // ---------------------------------------------------------------------------

  /** Reference sums: the live time of all tasks, and of one category's. */
  function EffectiveSum(ts: seq<Task>, now: int): int {
    if |ts| == 0 then 0
    else EffectiveSum(ts[..|ts| - 1], now) + CalculateTotalTime(ts[|ts| - 1], now)
  }

  function CategoryTime(ts: seq<Task>, c: Category, now: int): int {
    if |ts| == 0 then 0
    else
      CategoryTime(ts[..|ts| - 1], c, now) +
      (if ts[|ts| - 1].category == c then CalculateTotalTime(ts[|ts| - 1], now) else 0)
  }

  lemma ZeroBreakdownTotal()
    ensures IsTotal(ZeroBreakdown)
    ensures forall c :: ZeroBreakdown[c] == 0
  {
    forall c: Category ensures c in ZeroBreakdown && ZeroBreakdown[c] == 0 {
      match c
      case Evangelism =>
      case Prayer =>
      case BibleStudy =>
      case Meditation =>
      case Literature =>
      case Fellowship =>
      case Other =>
    }
  }

  /** Changing one entry of a total table changes its sum by the same. */
  lemma BreakdownSumUpdate(b: Breakdown, c: Category, v: int)
    requires IsTotal(b)
    ensures IsTotal(b[c := v])
    ensures BreakdownSum(b[c := v]) == BreakdownSum(b) - b[c] + v
  {
    match c
    case Evangelism =>
    case Prayer =>
    case BibleStudy =>
    case Meditation =>
    case Literature =>
    case Fellowship =>
    case Other =>
  }

  /** The single pass of `getDailySummary` over a day's tasks: a running total
      and a per-category table, starting from all seven categories at 0.  The
      table stays total and adds up to the running total. */
  function Tally(ts: seq<Task>, now: int): (r: (int, Breakdown))
    ensures IsTotal(r.1)
    ensures BreakdownSum(r.1) == r.0
  {
    if |ts| == 0 then
      ZeroBreakdownTotal();
      (0, ZeroBreakdown)
    else
      var prev := Tally(ts[..|ts| - 1], now);
      var t := ts[|ts| - 1];
      var x := CalculateTotalTime(t, now);
      BreakdownSumUpdate(prev.1, t.category, prev.1[t.category] + x);
      (prev.0 + x, prev.1[t.category := prev.1[t.category] + x])
  }

  /** The running total is the live time of all the tasks, and each table
      entry the live time of that category's tasks. */
  lemma {:induction false} TallySums(ts: seq<Task>, now: int)
    ensures Tally(ts, now).0 == EffectiveSum(ts, now)
    ensures forall c :: Tally(ts, now).1[c] == CategoryTime(ts, c, now)
  {
    if |ts| == 0 {
      ZeroBreakdownTotal();
    } else {
      TallySums(ts[..|ts| - 1], now);
    }
  }

  /** Every timestamp on the same local day as `date`, and nothing else, lies
      in `[startOfDay(date), endOfDay(date)]`. */
  lemma WithinDayAll(z: Zone, date: int)
    ensures forall t :: StartOfDay(z, date) <= t <= EndOfDay(z, date) <==> DayOf(z, t) == DayOf(z, date)
  {
    forall t ensures StartOfDay(z, date) <= t <= EndOfDay(z, date) <==> DayOf(z, t) == DayOf(z, date) {
      WithinDay(z, date, t);
    }
  }

  /** `getDailySummary`: the tasks created on the local day of `date`, in
      input order, with their live times summed overall and per category.
      Its table covers every category and adds up to the total. */
  function GetDailySummary(z: Zone, tasks: seq<Task>, date: int, now: int): (r: DailySummary)
    ensures r.date == date
    ensures IsTotal(r.categoryBreakdown)
    ensures BreakdownSum(r.categoryBreakdown) == r.totalTime
  {
    var lo := StartOfDay(z, date);
    var hi := EndOfDay(z, date);
    var dayTasks := Filter(tasks, (t: Task) => lo <= t.createdAt <= hi);
    var tally := Tally(dayTasks, now);
    DailySummary(date, dayTasks, tally.0, tally.1)
  }

  /** What a daily summary holds: exactly the tasks created on that local
      day, in input order, and the live time of those tasks, overall and
      per category. */
  lemma DailySummaryContents(z: Zone, tasks: seq<Task>, date: int, now: int)
    ensures var r := GetDailySummary(z, tasks, date, now);
            && (forall t :: t in r.tasks <==> t in tasks && DayOf(z, t.createdAt) == DayOf(z, date))
            && IsSubsequence(r.tasks, tasks)
            && r.totalTime == EffectiveSum(r.tasks, now)
            && (forall c :: r.categoryBreakdown[c] == CategoryTime(r.tasks, c, now))
  {
    WithinDayAll(z, date);
    var lo := StartOfDay(z, date);
    var hi := EndOfDay(z, date);
    TallySums(Filter(tasks, (t: Task) => lo <= t.createdAt <= hi), now);
  }

  /** Sums over a list of daily summaries. */
  function DailyTotals(ds: seq<DailySummary>): int {
    if |ds| == 0 then 0 else DailyTotals(ds[..|ds| - 1]) + ds[|ds| - 1].totalTime
  }

  predicate AllTotal(ds: seq<DailySummary>) {
    forall i :: 0 <= i < |ds| ==> IsTotal(ds[i].categoryBreakdown)
  }

  function DailyCategoryTotal(ds: seq<DailySummary>, c: Category): int
    requires AllTotal(ds)
  {
    if |ds| == 0 then 0
    else DailyCategoryTotal(ds[..|ds| - 1], c) + ds[|ds| - 1].categoryBreakdown[c]
  }

  /** The per-category weekly table built from daily tables. */
  function SumBreakdowns(ds: seq<DailySummary>): (r: Breakdown)
    requires AllTotal(ds)
    ensures IsTotal(r)
    ensures forall c :: r[c] == DailyCategoryTotal(ds, c)
  {
    CategoriesComplete();
    map c | c in Categories :: DailyCategoryTotal(ds, c)
  }

  /** When every daily table adds up to its day's total, the summed tables add
      up to the summed totals. */
  lemma {:induction false} SumBreakdownsAddsUp(ds: seq<DailySummary>)
    requires AllTotal(ds)
    requires forall i :: 0 <= i < |ds| ==> BreakdownSum(ds[i].categoryBreakdown) == ds[i].totalTime
    ensures BreakdownSum(SumBreakdowns(ds)) == DailyTotals(ds)
  {
    if |ds| > 0 {
      var init := ds[..|ds| - 1];
      SumBreakdownsAddsUp(init);
      var last := ds[|ds| - 1];
      assert BreakdownSum(SumBreakdowns(ds)) ==
             BreakdownSum(SumBreakdowns(init)) + BreakdownSum(last.categoryBreakdown);
    }
  }

  /** The `n` consecutive days starting at `start`, one instant per day. */
  function DayDates(start: int, n: nat): (r: seq<int>)
    ensures |r| == n
    ensures forall k :: 0 <= k < n ==> r[k] == AddDays(start, k)
  {
    if n == 0 then [] else DayDates(start, n - 1) + [AddDays(start, n - 1)]
  }

  /** The daily summary of each date, in order. */
  function Summaries(z: Zone, tasks: seq<Task>, dates: seq<int>, now: int): (ds: seq<DailySummary>)
    ensures |ds| == |dates|
    ensures forall k :: 0 <= k < |ds| ==> ds[k] == GetDailySummary(z, tasks, dates[k], now)
  {
    if |dates| == 0 then []
    else
      var prefix := Summaries(z, tasks, dates[..|dates| - 1], now);
      prefix + [GetDailySummary(z, tasks, dates[|dates| - 1], now)]
  }

  /** One more day appends that day's summary. */
  lemma SummariesStep(z: Zone, tasks: seq<Task>, start: int, n: nat, now: int)
    ensures Summaries(z, tasks, DayDates(start, n + 1), now) ==
            Summaries(z, tasks, DayDates(start, n), now) + [GetDailySummary(z, tasks, AddDays(start, n), now)]
  {
    var dates := DayDates(start, n + 1);
    assert dates[..n] == DayDates(start, n);
  }

  /** Adds one per-category table into another, category by category (the
      source's `Object.keys(...).forEach(... += ...)`). */
  function AddBreakdown(acc: Breakdown, b: Breakdown): (r: Breakdown)
    requires IsTotal(acc) && IsTotal(b)
    ensures IsTotal(r)
    ensures forall c :: r[c] == acc[c] + b[c]
  {
    CategoriesComplete();
    map c | c in Categories :: acc[c] + b[c]
  }

  /** The weekly table grows by one day's table per day. */
  lemma SumBreakdownsSnoc(ds: seq<DailySummary>, d: DailySummary)
    requires AllTotal(ds) && IsTotal(d.categoryBreakdown)
    ensures AllTotal(ds + [d])
    ensures DailyTotals(ds + [d]) == DailyTotals(ds) + d.totalTime
    ensures SumBreakdowns(ds + [d]) == AddBreakdown(SumBreakdowns(ds), d.categoryBreakdown)
  {
    var ds' := ds + [d];
    assert ds'[..|ds|] == ds;
    assert AllTotal(ds');
    var lhs := SumBreakdowns(ds');
    var rhs := AddBreakdown(SumBreakdowns(ds), d.categoryBreakdown);
    assert forall c :: lhs[c] == rhs[c];
    assert lhs.Keys == rhs.Keys;
  }

  /** Every daily table is total and adds up to its day's total. */
  lemma SummariesTotal(z: Zone, tasks: seq<Task>, dates: seq<int>, now: int)
    ensures var ds := Summaries(z, tasks, dates, now);
            && AllTotal(ds)
            && forall k :: 0 <= k < |ds| ==> BreakdownSum(ds[k].categoryBreakdown) == ds[k].totalTime
  {
    var ds := Summaries(z, tasks, dates, now);
    forall k | 0 <= k < |ds|
      ensures IsTotal(ds[k].categoryBreakdown)
      ensures BreakdownSum(ds[k].categoryBreakdown) == ds[k].totalTime
    {
      assert ds[k] == GetDailySummary(z, tasks, dates[k], now);
    }
  }

  /** The seven days of a week, dated from its Sunday. */
  lemma WeekDaysFacts(z: Zone, tasks: seq<Task>, date: int, now: int)
    ensures var ds := Summaries(z, tasks, DayDates(WeekStart(z, date), 7), now);
            && (forall k :: 0 <= k < 7 ==>
                  DayOf(z, ds[k].date) == WeekStartDay(z, date) + k &&
                  Weekday(z, ds[k].date) == k)
            && ds[0].date == WeekStart(z, date)
  {
    var ds := Summaries(z, tasks, DayDates(WeekStart(z, date), 7), now);
    forall k | 0 <= k < 7
      ensures DayOf(z, ds[k].date) == WeekStartDay(z, date) + k && Weekday(z, ds[k].date) == k
    {
      WeekDayDate(z, date, k);
    }
  }

  /** The reference weekly summary: one daily summary for each of the seven
      days from the Sunday starting the week of `date`, and their sums. */
  function WeeklySummaryOf(z: Zone, tasks: seq<Task>, date: int, now: int): (r: WeeklySummary)
    ensures |r.dailySummaries| == 7
    ensures forall k :: 0 <= k < 7 ==>
              DayOf(z, r.dailySummaries[k].date) == WeekStartDay(z, date) + k &&
              Weekday(z, r.dailySummaries[k].date) == k
    ensures DayOf(z, r.dailySummaries[Weekday(z, date)].date) == DayOf(z, date)
    ensures r.weekStart == r.dailySummaries[0].date
    ensures AllTotal(r.dailySummaries)
    ensures IsTotal(r.categoryBreakdown)
    ensures BreakdownSum(r.categoryBreakdown) == r.totalTime
    ensures forall k :: 0 <= k < 7 ==>
              r.dailySummaries[k] == GetDailySummary(z, tasks, AddDays(r.weekStart, k), now)
    ensures r.totalTime == DailyTotals(r.dailySummaries)
    ensures forall c :: r.categoryBreakdown[c] == DailyCategoryTotal(r.dailySummaries, c)
  {
    var ws := WeekStart(z, date);
    var dailies := Summaries(z, tasks, DayDates(ws, 7), now);
    WeekDailyDates(z, tasks, date, now, ws, dailies);
    WeekDailyContents(z, tasks, now, ws, dailies);
    SumBreakdownsAddsUp(dailies);
    WeeklySummary(ws, WeekEnd(z, date), dailies, DailyTotals(dailies), SumBreakdowns(dailies))
  }

  /** The week's seven daily summaries are dated from the week's Sunday,
      one per weekday, and the date's own day is among them. */
  lemma WeekDailyDates(z: Zone, tasks: seq<Task>, date: int, now: int, ws: int, ds: seq<DailySummary>)
    requires ws == WeekStart(z, date) && ds == Summaries(z, tasks, DayDates(ws, 7), now)
    ensures |ds| == 7
    ensures forall k :: 0 <= k < 7 ==>
              DayOf(z, ds[k].date) == WeekStartDay(z, date) + k && Weekday(z, ds[k].date) == k
    ensures DayOf(z, ds[Weekday(z, date)].date) == DayOf(z, date)
    ensures ds[0].date == ws
  {
    WeekDaysFacts(z, tasks, date, now);
  }

  /** Each of the week's daily summaries is that day's own summary, with a
      consistent table. */
  lemma WeekDailyContents(z: Zone, tasks: seq<Task>, now: int, ws: int, ds: seq<DailySummary>)
    requires ds == Summaries(z, tasks, DayDates(ws, 7), now)
    ensures AllTotal(ds)
    ensures forall k :: 0 <= k < |ds| ==> BreakdownSum(ds[k].categoryBreakdown) == ds[k].totalTime
    ensures forall k :: 0 <= k < |ds| ==> ds[k] == GetDailySummary(z, tasks, AddDays(ws, k), now)
  {
    SummariesTotal(z, tasks, DayDates(ws, 7), now);
  }

  /** `getWeeklySummary` as the source computes it: the week's bounds, then
      the walk over its days. */
  method GetWeeklySummary(z: Zone, tasks: seq<Task>, date: int, now: int) returns (r: WeeklySummary)
    ensures r == WeeklySummaryOf(z, tasks, date, now)
  {
    var weekStart := WeekStart(z, date);
    var weekEnd := WeekEnd(z, date);
    var dailies, totalTime, breakdown := WalkWeek(z, tasks, weekStart, weekEnd, now);
    r := WeeklySummary(weekStart, weekEnd, dailies, totalTime, breakdown);
  }

  /** The source's day loop: from the week's first instant, one day at a time
      while the day is not past the week's last millisecond, collecting daily
      summaries and adding their totals and per-category figures into running
      sums.  It visits exactly the seven days of the week. */
  method WalkWeek(z: Zone, tasks: seq<Task>, weekStart: int, weekEnd: int, now: int)
    returns (dailies: seq<DailySummary>, totalTime: int, breakdown: Breakdown)
    requires weekEnd == AddDays(weekStart, 7) - 1
    ensures dailies == Summaries(z, tasks, DayDates(weekStart, 7), now)
    ensures totalTime == DailyTotals(dailies)
    ensures AllTotal(dailies)
    ensures breakdown == SumBreakdowns(dailies)
  {
    dailies := [];
    breakdown := ZeroBreakdown;
    totalTime := 0;
    var d := weekStart;
    var n: nat := 0;
    ZeroBreakdownTotal();
    assert breakdown == SumBreakdowns(dailies);
    while d <= weekEnd
      invariant n <= 7
      invariant d == AddDays(weekStart, n)
      invariant dailies == Summaries(z, tasks, DayDates(weekStart, n), now)
      invariant AllTotal(dailies)
      invariant totalTime == DailyTotals(dailies)
      invariant breakdown == SumBreakdowns(dailies)
      decreases weekEnd - d
    {
      WeekLoopGuard(weekStart, n, d);
      dailies, totalTime, breakdown := WeekStep(z, tasks, weekStart, n, now, dailies, totalTime, breakdown);
      d := AddDays(d, 1);
      n := n + 1;
    }
    WeekLoopGuard(weekStart, n, d);
  }

  /** The day loop runs while the day is at most the week's last millisecond,
      which is for the first seven days. */
  lemma WeekLoopGuard(weekStart: int, n: nat, d: int)
    requires d == AddDays(weekStart, n)
    ensures d <= AddDays(weekStart, 7) - 1 <==> n < 7
    ensures AddDays(d, 1) == AddDays(weekStart, n + 1)
  {
    if n >= 7 {
      assert n * DayMs >= 7 * DayMs;
    } else {
      assert n * DayMs <= 6 * DayMs;
    }
  }

  /** One iteration of the weekly loop: the running sums absorb the next
      day's summary. */
  method WeekStep(z: Zone, tasks: seq<Task>, weekStart: int, n: nat, now: int,
                  dailies: seq<DailySummary>, totalTime: int, breakdown: Breakdown)
    returns (dailies': seq<DailySummary>, totalTime': int, breakdown': Breakdown)
    requires dailies == Summaries(z, tasks, DayDates(weekStart, n), now)
    requires AllTotal(dailies)
    requires totalTime == DailyTotals(dailies)
    requires breakdown == SumBreakdowns(dailies)
    ensures dailies' == Summaries(z, tasks, DayDates(weekStart, n + 1), now)
    ensures AllTotal(dailies')
    ensures totalTime' == DailyTotals(dailies')
    ensures breakdown' == SumBreakdowns(dailies')
  {
    var daily := GetDailySummary(z, tasks, AddDays(weekStart, n), now);
    SummariesStep(z, tasks, weekStart, n, now);
    SumBreakdownsSnoc(dailies, daily);
    dailies' := dailies + [daily];
    totalTime' := totalTime + daily.totalTime;
    breakdown' := AddBreakdown(breakdown, daily.categoryBreakdown);
  }
}
