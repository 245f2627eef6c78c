/**
 * The calendar export of the generator page: every session of every selected
 * course becomes one weekly recurring event (VEVENT, section 3.6.1 of RFC 5545)
 * whose RRULE names the weekday by its two-letter code (section 3.3.10 of
 * RFC 5545). All events are anchored on Monday 6 January 2025 in the
 * Asia/Kolkata time zone.
 */
module Ics {
  import opened Wrappers
  import opened Text
  import opened Catalog
  import opened TimingCodec
  import opened Selection
  import Seqs

  /** The fields of one event before it is written out. */
  datatype Event = Event(summary: string, byDay: string, start: string, end: string, location: Option<string>)

  const Header: string := "BEGIN:VCALENDAR\nVERSION:2.0\nPRODID:-//IITD Timetable//EN\n"
  const Trailer: string := "END:VCALENDAR"

  /** The weekday codes of RFC 5545 for Monday..Friday. */
  const RfcWeekdays: seq<string> := ["MO", "TU", "WE", "TH", "FR"]

  /** The sessions of a schedule in export order: lectures, then tutorials and labs that are not null. */
  function Components(s: Schedule): seq<Session> {
    s.lecture + (if s.tutorial.Some? then s.tutorial.value else []) + (if s.lab.Some? then s.lab.value else [])
  }

  /** `day.slice(0, 2).toUpperCase()`. */
  function ByDay(day: string): string {
    ToUpper(JsSlice(day, 0, 2))
  }

  /** Each weekday name the decoder produces maps to its RFC 5545 weekday code. */
  lemma WeekdayCodes()
    ensures forall i :: 0 <= i < 5 ==> ByDay(Weekdays[i]) == RfcWeekdays[i]
  {
    assert ByDay("Monday") == "MO";
    assert ByDay("Tuesday") == "TU";
    assert ByDay("Wednesday") == "WE";
    assert ByDay("Thursday") == "TH";
    assert ByDay("Friday") == "FR";
  }

  /** `HH` followed by `MM`: the first four characters, or fewer when the time is shorter. */
  function ClockDigits(t: string): string {
    JsSlice(t, 0, 2) + JsSlice(t, 2, 4)
  }

  lemma ClockDigitsPrefix(t: string)
    ensures ClockDigits(t) == JsSlice(t, 0, 4)
  {
    if |t| >= 4 {
      assert t[..4] == t[0..2] + t[2..4];
    } else if |t| >= 2 {
      assert t[..|t|] == t[0..2] + t[2..|t|];
    }
  }

  /** The lecture hall, when it is a non-empty string. */
  function Hall(g: GridCourse): Option<string> {
    if Truthy(g.lectureHall) then g.lectureHall else None
  }

  /**
   * The event for one session of a course. A session without a day makes
   * `event.day.slice` throw, so the export fails: None.
   */
  function ToEvent(g: GridCourse, e: Session): (r: Option<Event>)
    ensures r.Some? <==> e.day.Some?
    ensures r.Some? ==> r.value.byDay == ByDay(e.day.value)
    ensures r.Some? ==> r.value.start == JsSlice(e.start, 0, 4) && r.value.end == JsSlice(e.end, 0, 4)
    ensures r.Some? ==> r.value.location == Hall(g) && StartsWith(r.value.summary, g.courseCode + " ")
  {
    if e.day.None? then None
    else
      ClockDigitsPrefix(e.start);
      ClockDigitsPrefix(e.end);
      var summary := g.courseCode + " " + (if Truthy(g.lectureHall) then "(" + g.lectureHall.value + ")" else "");
      assert summary[..|g.courseCode + " "|] == g.courseCode + " ";
      Some(Event(summary, ByDay(e.day.value), ClockDigits(e.start), ClockDigits(e.end), Hall(g)))
  }

  /** The events of a list of sessions of one course, failing on the first session without a day. */
  function SessionEvents(g: GridCourse, sessions: seq<Session>): (r: Option<seq<Event>>)
    ensures r.Some? <==> forall i :: 0 <= i < |sessions| ==> sessions[i].day.Some?
    ensures r.Some? ==> |r.value| == |sessions|
    ensures r.Some? ==> forall i :: 0 <= i < |sessions| ==> ToEvent(g, sessions[i]) == Some(r.value[i])
  {
    if |sessions| == 0 then Some([])
    else
      match ToEvent(g, sessions[0])
      case None => None
      case Some(ev) =>
        match SessionEvents(g, sessions[1..])
        case None => None
        case Some(rest) =>
          assert forall i :: 1 <= i < |sessions| ==> sessions[i] == sessions[1..][i - 1];
          Some([ev] + rest)
  }

  /** A course without an entry in the schedule map is skipped. */
  function CourseEvents(timetable: map<string, Schedule>, g: GridCourse): Option<seq<Event>> {
    if g.courseCode in timetable then SessionEvents(g, Components(timetable[g.courseCode])) else Some([])
  }

  /** The number of sessions the export walks over. */
  function SessionCount(selected: seq<GridCourse>, timetable: map<string, Schedule>): nat {
    if |selected| == 0 then 0
    else
      var g := selected[|selected| - 1];
      SessionCount(selected[..|selected| - 1], timetable)
        + (if g.courseCode in timetable then |Components(timetable[g.courseCode])| else 0)
  }

  /** The events of all selected courses, course by course. */
  function AllEvents(selected: seq<GridCourse>, timetable: map<string, Schedule>): (r: Option<seq<Event>>)
    ensures r.Some? <==> forall i :: 0 <= i < |selected| ==> CourseEvents(timetable, selected[i]).Some?
    ensures r.Some? ==> |r.value| == SessionCount(selected, timetable)
  {
    if |selected| == 0 then Some([])
    else
      var n := |selected| - 1;
      assert forall i :: 0 <= i < n ==> selected[..n][i] == selected[i];
      match AllEvents(selected[..n], timetable)
      case None => None
      case Some(prev) =>
        match CourseEvents(timetable, selected[n])
        case None => None
        case Some(evs) => Some(prev + evs)
  }

  const BeginEvent: string := "BEGIN:VEVENT\n"
  const EndEvent: string := "END:VEVENT\n"

  function RuleLine(byDay: string): string {
    "RRULE:FREQ=WEEKLY;BYDAY=" + byDay + "\n"
  }

  /** `DTSTART` or `DTEND` at `HHMM` on the anchor date, seconds `00`. */
  function TimeLine(name: string, hhmm: string): string {
    name + ";TZID=Asia/Kolkata:20250106T" + hhmm + "00\n"
  }

  function LocationLine(location: Option<string>): string {
    if location.Some? then "LOCATION:" + location.value + "\n" else ""
  }

  /** One VEVENT block; LOCATION only when the course has a lecture hall. */
  function RenderEvent(ev: Event): string {
    BeginEvent + ("SUMMARY:" + ev.summary + "\n") + RuleLine(ev.byDay)
      + (TimeLine("DTSTART", ev.start) + TimeLine("DTEND", ev.end) + LocationLine(ev.location) + EndEvent)
  }

  function RenderEvents(evs: seq<Event>): string {
    if |evs| == 0 then "" else RenderEvent(evs[0]) + RenderEvents(evs[1..])
  }

  /**
   * `generateICS`: the calendar text, or None when a session without a day
   * makes the export throw.
   */
  function GenerateIcs(selected: seq<GridCourse>, timetable: map<string, Schedule>): (r: Option<string>)
    ensures r.Some? <==> forall i :: 0 <= i < |selected| ==> CourseEvents(timetable, selected[i]).Some?
    ensures r.Some? ==> StartsWith(r.value, Header)
    ensures r.Some? ==> |r.value| >= |Header| + |Trailer| && r.value[|r.value| - |Trailer|..] == Trailer
  {
    match AllEvents(selected, timetable)
    case None => None
    case Some(evs) =>
      var body := RenderEvents(evs);
      var text := Header + body + Trailer;
      assert text[..|Header|] == Header;
      assert text[|text| - |Trailer|..] == Trailer;
      Some(text)
  }

  /** The rendered block starts and ends the VEVENT and carries the weekly rule for the event's day. */
  lemma RenderEventShape(ev: Event)
    ensures StartsWith(RenderEvent(ev), BeginEvent)
    ensures Contains(RenderEvent(ev), RuleLine(ev.byDay))
    ensures var t := RenderEvent(ev); |t| >= |EndEvent| && t[|t| - |EndEvent|..] == EndEvent
  {
    var a := "SUMMARY:" + ev.summary + "\n";
    var b := RuleLine(ev.byDay);
    var c := TimeLine("DTSTART", ev.start) + TimeLine("DTEND", ev.end) + LocationLine(ev.location);
    assert RenderEvent(ev) == BeginEvent + (a + b + (c + EndEvent));
    AppendStarts(BeginEvent, a + b + (c + EndEvent));
    assert RenderEvent(ev) == (BeginEvent + a) + b + (c + EndEvent);
    AppendContains(BeginEvent + a, b, c + EndEvent);
    assert RenderEvent(ev) == (BeginEvent + a + b + c) + EndEvent;
    AppendEnds(BeginEvent + a + b + c, EndEvent);
  }

  /**
   * A session decoded from a well-formed catalogue code with a weekday digit
   * exports on the RFC 5545 weekday of that digit, from the code's start to
   * its end.
   */
  lemma CodeToEvent(g: GridCourse, t: string)
    requires |t| == 9 && '1' <= t[0] <= '5'
    ensures ToEvent(g, DecodeCode(t)).Some?
    ensures ToEvent(g, DecodeCode(t)).value.byDay == RfcWeekdays[t[0] as int - '1' as int]
    ensures ToEvent(g, DecodeCode(t)).value.start == t[1..5]
    ensures ToEvent(g, DecodeCode(t)).value.end == t[5..9]
  {
    WeekdayCodes();
  }

  /** A freshly added course exports exactly its lectures: null tutorial and lab lists are skipped. */
  lemma InitialComponents(c: Course)
    ensures Components(InitialSchedule(c)) == ParseTimingStr(c.slot.lectureTiming)
  {
  }

  /** The export of a course lists one event per session, in order, each with the course's hall. */
  lemma CourseEventsPerSession(timetable: map<string, Schedule>, g: GridCourse)
    requires g.courseCode in timetable
    requires CourseEvents(timetable, g).Some?
    ensures var evs := CourseEvents(timetable, g).value;
      var ss := Components(timetable[g.courseCode]);
      && |evs| == |ss|
      && forall i :: 0 <= i < |ss| ==>
           && ss[i].day.Some?
           && evs[i].byDay == ByDay(ss[i].day.value)
           && evs[i].location == Hall(g)
  {
    var evs := CourseEvents(timetable, g).value;
    var ss := Components(timetable[g.courseCode]);
    forall i | 0 <= i < |ss|
      ensures ss[i].day.Some? && evs[i].byDay == ByDay(ss[i].day.value) && evs[i].location == Hall(g)
    {
      assert ToEvent(g, ss[i]) == Some(evs[i]);
    }
  }

  /** The events of one course on its own. */
  lemma AllEventsSingle(timetable: map<string, Schedule>, g: GridCourse)
    ensures AllEvents([g], timetable) == CourseEvents(timetable, g)
  {
    assert [g][..0] == [];
    var c := CourseEvents(timetable, g);
    if c.Some? {
      assert [] + c.value == c.value;
    }
  }

  /**
   * The events of two course lists one after the other: the first list's
   * events, then the second's, and no events when either export fails.
   */
  lemma {:induction false} AllEventsAppend(a: seq<GridCourse>, b: seq<GridCourse>, timetable: map<string, Schedule>)
    ensures AllEvents(a + b, timetable)
      == if AllEvents(a, timetable).Some? && AllEvents(b, timetable).Some?
         then Some(AllEvents(a, timetable).value + AllEvents(b, timetable).value)
         else None
    decreases |b|
  {
    var x := AllEvents(a, timetable);
    if |b| == 0 {
      assert a + b == a;
      if x.Some? {
        assert x.value + [] == x.value;
      }
    } else {
      var n := |b| - 1;
      assert (a + b)[..|a + b| - 1] == a + b[..n];
      assert (a + b)[|a + b| - 1] == b[n];
      AllEventsAppend(a, b[..n], timetable);
      AllEventsSnoc(a + b, timetable);
      AllEventsSnoc(b, timetable);
      var y, z := AllEvents(b[..n], timetable), CourseEvents(timetable, b[n]);
      if x.Some? && y.Some? && z.Some? {
        Seqs.AppendAssoc(x.value, y.value, z.value);
      }
    }
  }

  /** One unfolding of `AllEvents` at the last course. */
  lemma AllEventsSnoc(s: seq<GridCourse>, timetable: map<string, Schedule>)
    requires |s| > 0
    ensures var y, z := AllEvents(s[..|s| - 1], timetable), CourseEvents(timetable, s[|s| - 1]);
      AllEvents(s, timetable) == if y.Some? && z.Some? then Some(y.value + z.value) else None
  {
  }

  /** Rendering two event lists one after the other. */
  lemma {:induction false} RenderEventsAppend(a: seq<Event>, b: seq<Event>)
    ensures RenderEvents(a + b) == RenderEvents(a) + RenderEvents(b)
    decreases |a|
  {
    if |a| == 0 {
      assert a + b == b;
    } else {
      assert (a + b)[0] == a[0];
      assert (a + b)[1..] == a[1..] + b;
      RenderEventsAppend(a[1..], b);
      Seqs.AppendAssoc(RenderEvent(a[0]), RenderEvents(a[1..]), RenderEvents(b));
    }
  }

  /** With nothing selected the calendar is the header followed by the trailer. */
  lemma GenerateIcsEmpty(timetable: map<string, Schedule>)
    ensures GenerateIcs([], timetable) == Some(Header + Trailer)
  {
  }

  /** The calendar is the header, the rendered events of all courses, and the trailer. */
  lemma GenerateIcsText(selected: seq<GridCourse>, timetable: map<string, Schedule>)
    requires AllEvents(selected, timetable).Some?
    ensures GenerateIcs(selected, timetable) == Some(Header + RenderEvents(AllEvents(selected, timetable).value) + Trailer)
  {
  }

  /**
   * Selecting one more course inserts that course's VEVENT blocks, in session
   * order, just before the calendar trailer.
   */
  lemma GenerateIcsSnoc(selected: seq<GridCourse>, g: GridCourse, timetable: map<string, Schedule>)
    requires GenerateIcs(selected + [g], timetable).Some?
    ensures AllEvents(selected, timetable).Some? && CourseEvents(timetable, g).Some?
    ensures GenerateIcs(selected + [g], timetable).value
      == Header + RenderEvents(AllEvents(selected, timetable).value) + RenderEvents(CourseEvents(timetable, g).value) + Trailer
  {
    AllEventsAppend(selected, [g], timetable);
    AllEventsSingle(timetable, g);
    var x, y := AllEvents(selected, timetable).value, CourseEvents(timetable, g).value;
    assert AllEvents(selected + [g], timetable) == Some(x + y);
    GenerateIcsText(selected + [g], timetable);
    RenderEventsAppend(x, y);
    Seqs.AppendAssoc(Header, RenderEvents(x), RenderEvents(y));
  }
}
