/**
 * The timing editor of the full timetable: for a selected course it reads a
 * day, a start and an end time and a venue for the tutorial and for the lab,
 * and stores each as a one-session list in that course's schedule, or clears
 * the component when no day is chosen or the times are not increasing. The
 * times come from `HH:MM` inputs and are stored as `HHMM` once the colon is
 * removed; they are compared as strings.
 */
module EditTiming {
  import opened Wrappers
  import opened Catalog
  import opened Text
  import opened StringOrder
  import opened TimingCodec
  import opened Selection
  import opened Encoder

  /** The values of one component's form: the chosen day ("0" while none), the two times and the venue. */
  datatype EditForm = EditForm(day: string, start: string, end: string, venue: string)

  /** The day option of the selector that stands for "no day chosen". */
  const NoDay: string := "0"

  /**
   * The component list a form saves: one session on the chosen day from the
   * start to the end time, colons removed, at the typed venue; null when no
   * day is chosen or the start does not sort before the end.
   */
  function SaveComponent(f: EditForm): (r: Option<seq<Session>>)
    ensures r.None? <==> f.day == NoDay || !Less(RemoveFirst(f.start, ':'), RemoveFirst(f.end, ':'))
    ensures r.Some? ==> |r.value| == 1 && r.value[0].day == Some(f.day) && r.value[0].location == Some(f.venue)
    ensures r.Some? ==> r.value[0].start == RemoveFirst(f.start, ':') && r.value[0].end == RemoveFirst(f.end, ':')
  {
    if f.day != NoDay then
      var s := Session(Some(f.day), RemoveFirst(f.start, ':'), RemoveFirst(f.end, ':'), Some(f.venue));
      if !Less(s.start, s.end) then None else Some([s])
    else None
  }

  /**
   * `saveData`: update the tutorial when the course shows one and the lab when
   * it shows one, leave the lecture list alone and write the schedule back
   * under the course code. A course without a schedule entry makes the update
   * throw: None.
   */
  function SaveData(timetable: map<string, Schedule>, g: GridCourse, tut: EditForm, lab: EditForm)
    : (r: Option<map<string, Schedule>>)
    ensures r.Some? <==> g.courseCode in timetable
    ensures r.Some? ==> r.value.Keys == timetable.Keys
    ensures r.Some? ==> forall k :: k in timetable && k != g.courseCode ==> r.value[k] == timetable[k]
    ensures r.Some? ==> r.value[g.courseCode].lecture == timetable[g.courseCode].lecture
    ensures r.Some? ==>
      r.value[g.courseCode].tutorial == if g.tutorial then SaveComponent(tut) else timetable[g.courseCode].tutorial
    ensures r.Some? ==>
      r.value[g.courseCode].lab == if g.lab then SaveComponent(lab) else timetable[g.courseCode].lab
  {
    if g.courseCode !in timetable then None
    else
      var temp := timetable[g.courseCode];
      var withTut := if g.tutorial then temp.(tutorial := SaveComponent(tut)) else temp;
      var withLab := if g.lab then withTut.(lab := SaveComponent(lab)) else withTut;
      Some(timetable[g.courseCode := withLab])
  }

  /** A component is absent, or one session with a day whose start sorts before its end. */
  predicate ValidComponent(c: Option<seq<Session>>) {
    c.None? || (|c.value| == 1 && c.value[0].day.Some? && Less(c.value[0].start, c.value[0].end))
  }

  /** Every tutorial and lab in the map is valid. */
  predicate ValidEdits(timetable: map<string, Schedule>) {
    forall k :: k in timetable ==> ValidComponent(timetable[k].tutorial) && ValidComponent(timetable[k].lab)
  }

  /** A freshly added course has no tutorial and no lab, so it starts valid. */
  lemma InitialScheduleValid(c: Course)
    ensures ValidComponent(InitialSchedule(c).tutorial) && ValidComponent(InitialSchedule(c).lab)
  {
  }

  /** Saving keeps every tutorial and lab valid. */
  lemma SaveDataKeepsValid(timetable: map<string, Schedule>, g: GridCourse, tut: EditForm, lab: EditForm)
    requires ValidEdits(timetable)
    requires SaveData(timetable, g, tut, lab).Some?
    ensures ValidEdits(SaveData(timetable, g, tut, lab).value)
  {
    var r := SaveData(timetable, g, tut, lab).value;
    assert ValidComponent(SaveComponent(tut)) && ValidComponent(SaveComponent(lab));
    forall k | k in r
      ensures ValidComponent(r[k].tutorial) && ValidComponent(r[k].lab)
    {
      if k != g.courseCode {
        assert r[k] == timetable[k];
      }
    }
  }

  /** Saving the same forms a second time changes nothing more. */
  lemma SaveDataIdempotent(timetable: map<string, Schedule>, g: GridCourse, tut: EditForm, lab: EditForm)
    requires SaveData(timetable, g, tut, lab).Some?
    ensures SaveData(SaveData(timetable, g, tut, lab).value, g, tut, lab) == SaveData(timetable, g, tut, lab)
  {
    var once := SaveData(timetable, g, tut, lab).value;
    var twice := SaveData(once, g, tut, lab).value;
    assert twice.Keys == once.Keys;
    assert twice[g.courseCode] == once[g.courseCode];
    assert forall k :: k in once ==> twice[k] == once[k];
    assert twice == once;
  }

  // ---------------------------------------------------------------------------
  // Why comparing `HHMM` strings validates the times
  // ---------------------------------------------------------------------------

  function Pow10(n: nat): nat {
    if n == 0 then 1 else 10 * Pow10(n - 1)
  }

  lemma {:induction false} DecimalBound(s: string)
    requires AllDigits(s)
    ensures DecimalValue(s) < Pow10(|s|)
  {
    if |s| > 0 {
      var n := |s| - 1;
      assert AllDigits(s[..n]) by {
        assert forall i :: 0 <= i < n ==> s[..n][i] == s[i];
      }
      DecimalBound(s[..n]);
      assert DigitValue(s[n]) <= 9;
    }
  }

  /** The value of a digit string read from its leading digit. */
  lemma {:induction false} DecimalFront(s: string)
    requires |s| > 0
    ensures DecimalValue(s) == DigitValue(s[0]) * Pow10(|s| - 1) + DecimalValue(s[1..])
  {
    var n := |s| - 1;
    if n > 0 {
      DecimalFront(s[..n]);
      assert s[..n][0] == s[0];
      assert s[..n][1..] == s[1..][..n - 1];
      assert s[1..][n - 1] == s[n];
      var d0, p, r := DigitValue(s[0]), Pow10(n - 1), DecimalValue(s[1..][..n - 1]);
      assert DecimalValue(s[..n]) == d0 * p + r;
      assert DecimalValue(s) == DecimalValue(s[..n]) * 10 + DigitValue(s[n]);
      assert DecimalValue(s[1..]) == r * 10 + DigitValue(s[n]);
      ShiftDecimal(d0, p, r);
    } else {
      assert s[..0] == [];
      assert s[1..] == [];
    }
  }

  lemma ShiftDecimal(d: nat, p: nat, r: nat)
    ensures (d * p + r) * 10 == d * (10 * p) + r * 10
  {
  }

  /** A smaller leading digit wins whatever follows it. */
  lemma LeadingDigit(da: nat, db: nat, ra: nat, rb: nat, p: nat)
    requires da < db && ra < p
    ensures da * p + ra < db * p + rb
  {
    assert (da + 1) * p <= db * p;
  }

  /** Two digit strings of the same length sort as the numbers they denote. */
  lemma {:induction false} DigitsOrder(a: string, b: string)
    requires |a| == |b| && AllDigits(a) && AllDigits(b)
    ensures Less(a, b) <==> DecimalValue(a) < DecimalValue(b)
  {
    if |a| > 0 {
      var p := Pow10(|a| - 1);
      var ta, tb := a[1..], b[1..];
      assert AllDigits(ta) && AllDigits(tb) by {
        assert forall i :: 0 <= i < |a| - 1 ==> ta[i] == a[i + 1] && tb[i] == b[i + 1];
      }
      DecimalFront(a);
      DecimalFront(b);
      DecimalBound(ta);
      DecimalBound(tb);
      var da, db := DigitValue(a[0]), DigitValue(b[0]);
      if a[0] < b[0] {
        assert Less(a, b);
        LeadingDigit(da, db, DecimalValue(ta), DecimalValue(tb), p);
      } else if b[0] < a[0] {
        assert !Less(a, b);
        LeadingDigit(db, da, DecimalValue(tb), DecimalValue(ta), p);
      } else {
        assert da == db;
        assert Less(a, b) == Less(ta, tb);
        DigitsOrder(ta, tb);
      }
    }
  }

  /** An `HH:MM` time input value. */
  predicate ClockText(t: string) {
    |t| == 5 && t[2] == ':' && IsDigit(t[0]) && IsDigit(t[1]) && IsDigit(t[3]) && IsDigit(t[4])
  }

  /** The `HHMM` number of a time: hours times 100 plus minutes. */
  function ClockValue(t: string): nat
    requires ClockText(t)
  {
    DecimalValue(t[..2]) * 100 + DecimalValue(t[3..])
  }

  /** Removing the colon of an `HH:MM` value leaves the four digits `HHMM`. */
  lemma ClockDigitsOf(t: string)
    requires ClockText(t)
    ensures RemoveFirst(t, ':') == t[..2] + t[3..]
    ensures AllDigits(RemoveFirst(t, ':')) && |RemoveFirst(t, ':')| == 4
    ensures DecimalValue(RemoveFirst(t, ':')) == ClockValue(t)
  {
    assert ':' in t;
    assert t[0] != ':' && t[1] != ':';
    assert IndexOf(t, ':') == 2;
    var r := t[..2] + t[3..];
    assert r[..2] == t[..2] && r[2..] == t[3..];
    assert forall i :: 0 <= i < 4 ==> r[i] == (if i < 2 then t[i] else t[i + 1]);
    DecimalValue4(r);
  }

  /**
   * For time-input values the string check is the clock check: a component is
   * saved exactly when a day is chosen and the start time is earlier than the
   * end time.
   */
  lemma SaveComponentClock(f: EditForm)
    requires ClockText(f.start) && ClockText(f.end)
    ensures SaveComponent(f).Some? <==> f.day != NoDay && ClockValue(f.start) < ClockValue(f.end)
  {
    ClockDigitsOf(f.start);
    ClockDigitsOf(f.end);
    DigitsOrder(RemoveFirst(f.start, ':'), RemoveFirst(f.end, ':'));
  }
}
