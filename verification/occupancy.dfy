/**
 * The empty-lecture-hall finder: for a weekday index (0 = Sunday) and a wall
 * clock time encoded as `hour * 100 + minute`, the lecture halls of the
 * catalogue that no lecture and no extra booking occupies at that moment, in
 * sorted order. A booking occupies the half-open interval `[start, end)`.
 */
module Occupancy {
  import opened Wrappers
  import opened Text
  import opened Seqs
  import opened StringOrder
  import opened Catalog
  import opened Encoder

  /** One entry of the extra bookings list: a JSON day number, two time texts and a hall. */
  datatype ExtraEntry = ExtraEntry(day: int, startTime: string, endTime: string, lectureHall: string)

  /** `hour * 100 + minute`, the integer every comparison below uses. */
  function QueryTime(hour: int, minute: int): int {
    hour * 100 + minute
  }

  /** On real clock readings the encoding orders times as the clock does. */
  lemma QueryTimeOrder(h1: int, m1: int, h2: int, m2: int)
    requires 0 <= m1 < 60 && 0 <= m2 < 60
    ensures QueryTime(h1, m1) < QueryTime(h2, m2) <==> h1 < h2 || (h1 == h2 && m1 < m2)
  {
    if h1 < h2 {
      assert QueryTime(h1, m1) < h1 * 100 + 100 <= QueryTime(h2, m2);
    } else if h2 < h1 {
      assert QueryTime(h2, m2) < h2 * 100 + 100 <= QueryTime(h1, m1);
    }
  }

  predicate IsLectureHall(h: string) {
    StartsWith(h, "LH")
  }

  /** `pieces.map(h => h.trim())`. */
  function TrimAll(pieces: seq<string>): (r: seq<string>)
    ensures |r| == |pieces|
    ensures forall i :: 0 <= i < |pieces| ==> r[i] == Trim(pieces[i])
  {
    if |pieces| == 0 then [] else [Trim(pieces[0])] + TrimAll(pieces[1..])
  }

  /** The comma-separated, trimmed pieces of a course's hall text that name lecture halls. */
  function CourseHalls(c: Course): seq<string> {
    if Truthy(c.lectureHall) then Filter(TrimAll(Split(c.lectureHall.value, ',')), IsLectureHall) else []
  }

  /**
   * The halls of a course are the trimmed comma-separated pieces of its hall
   * text that start with "LH"; a missing or empty hall text gives none.
   */
  lemma CourseHallsMembers(c: Course)
    ensures forall h :: h in CourseHalls(c) ==> IsLectureHall(h)
    ensures Truthy(c.lectureHall) ==> forall h ::
      h in CourseHalls(c) <==> IsLectureHall(h) && exists p :: p in Split(c.lectureHall.value, ',') && h == Trim(p)
    ensures !Truthy(c.lectureHall) ==> CourseHalls(c) == []
    ensures Truthy(c.lectureHall) ==> |CourseHalls(c)| <= |Split(c.lectureHall.value, ',')|
  {
    if Truthy(c.lectureHall) {
      var pieces := Split(c.lectureHall.value, ',');
      var trimmed := TrimAll(pieces);
      forall p | p in pieces
        ensures Trim(p) in trimmed
      {
        var i :| 0 <= i < |pieces| && pieces[i] == p;
        assert trimmed[i] == Trim(p);
      }
    }
  }

  /** The lecture halls of one course, as a set. */
  function CourseHallSet(c: Course): set<string> {
    set h | h in CourseHalls(c)
  }

  /** Every lecture hall some catalogue course lists. */
  function HallsOf(catalog: seq<Course>): set<string> {
    UnionOf(catalog, CourseHallSet)
  }

  /**
   * A timing code occupies the moment when it has exactly 9 characters, its
   * day digit parses to the query day and the query time lies in
   * `[start, end)`; a part that does not parse (`NaN`) never matches.
   */
  predicate CodeOccupies(t: string, day: int, time: int) {
    && |t| == 9
    && ParseIntJs(t[0..1]) == Some(day)
    && ParseIntJs(t[1..5]).Some? && ParseIntJs(t[5..9]).Some?
    && ParseIntJs(t[1..5]).value <= time < ParseIntJs(t[5..9]).value
  }

  /** Some lecture code of the course occupies the moment. */
  predicate CourseBusy(c: Course, day: int, time: int) {
    Truthy(c.slot.lectureTiming) && exists t :: t in Split(c.slot.lectureTiming.value, ',') && CodeOccupies(t, day, time)
  }

  /** An extra booking for that day whose interval holds the time. */
  predicate ExtraBusy(e: ExtraEntry, day: int, time: int) {
    && e.day == day
    && ParseIntJs(e.startTime).Some? && ParseIntJs(e.endTime).Some?
    && ParseIntJs(e.startTime).value <= time < ParseIntJs(e.endTime).value
  }

  /** What one course contributes to the occupied halls: all its halls when it is busy. */
  function BusyCourseSet(day: int, time: int): Course -> set<string> {
    c => if CourseBusy(c, day, time) then CourseHallSet(c) else {}
  }

  /** What one extra booking contributes: its hall when it is busy and a lecture hall. */
  function BusyExtraSet(day: int, time: int): ExtraEntry -> set<string> {
    e => if ExtraBusy(e, day, time) && IsLectureHall(e.lectureHall) then {e.lectureHall} else {}
  }

  /** The halls of busy catalogue courses. */
  function BusyCourseHalls(catalog: seq<Course>, day: int, time: int): set<string> {
    UnionOf(catalog, BusyCourseSet(day, time))
  }

  /** The busy extra bookings whose hall is a lecture hall. */
  function BusyExtraHalls(extras: seq<ExtraEntry>, day: int, time: int): set<string> {
    UnionOf(extras, BusyExtraSet(day, time))
  }

  /** A hall is a catalogue hall exactly when some course lists it. */
  lemma HallsOfMembers(catalog: seq<Course>, h: string)
    ensures h in HallsOf(catalog) <==> exists c :: c in catalog && h in CourseHalls(c)
  {
    UnionOfMembers(catalog, CourseHallSet, h);
  }

  /** A hall is occupied by the catalogue exactly when some busy course lists it. */
  lemma BusyCourseHallsMembers(catalog: seq<Course>, day: int, time: int, h: string)
    ensures h in BusyCourseHalls(catalog, day, time) <==>
      exists c :: c in catalog && CourseBusy(c, day, time) && h in CourseHalls(c)
  {
    UnionOfMembers(catalog, BusyCourseSet(day, time), h);
  }

  /** A hall is occupied by an extra booking exactly when a busy booking names it and it is a lecture hall. */
  lemma BusyExtraHallsMembers(extras: seq<ExtraEntry>, day: int, time: int, h: string)
    ensures h in BusyExtraHalls(extras, day, time) <==>
      exists e :: e in extras && ExtraBusy(e, day, time) && IsLectureHall(h) && e.lectureHall == h
  {
    UnionOfMembers(extras, BusyExtraSet(day, time), h);
  }

  /** The halls marked occupied: all lecture halls of a busy course, and every busy extra lecture hall. */
  function OccupiedHalls(catalog: seq<Course>, extras: seq<ExtraEntry>, day: int, time: int): set<string> {
    BusyCourseHalls(catalog, day, time) + BusyExtraHalls(extras, day, time)
  }

  /** The catalogue halls free at the moment, sorted, each once. */
  function FreeHalls(catalog: seq<Course>, extras: seq<ExtraEntry>, day: int, time: int): (r: seq<string>)
    ensures StrictlySorted(r)
    ensures forall h :: h in r <==> h in HallsOf(catalog) && h !in OccupiedHalls(catalog, extras, day, time)
  {
    SortedElements(HallsOf(catalog) - OccupiedHalls(catalog, extras, day, time))
  }

  /** The first pass: every lecture hall of every course. */
  method CollectHalls(catalog: seq<Course>) returns (allHalls: set<string>)
    ensures allHalls == HallsOf(catalog)
  {
    allHalls := {};
    var i := 0;
    while i < |catalog|
      invariant 0 <= i <= |catalog|
      invariant allHalls == HallsOf(catalog[..i])
    {
      UnionOfPrefix(catalog, CourseHallSet, i);
      allHalls := allHalls + (set h | h in CourseHalls(catalog[i]));
      i := i + 1;
    }
    assert catalog[..i] == catalog;
  }

  /** The inner pass over one course's lecture codes: is any of them in progress? */
  method AnyCodeOccupies(timings: seq<string>, day: int, time: int) returns (busy: bool)
    ensures busy <==> exists t :: t in timings && CodeOccupies(t, day, time)
  {
    busy := AnyOf(timings, t => CodeOccupies(t, day, time));
  }

  /** A course is busy when it has lecture codes and one of them is in progress. */
  method IsBusy(c: Course, day: int, time: int) returns (busy: bool)
    ensures busy <==> CourseBusy(c, day, time)
  {
    busy := false;
    if Truthy(c.slot.lectureTiming) {
      busy := AnyCodeOccupies(Split(c.slot.lectureTiming.value, ','), day, time);
    }
  }

  /** The second pass: the halls of every course with a lecture in progress. */
  method CollectBusyCourses(catalog: seq<Course>, day: int, time: int) returns (occupied: set<string>)
    ensures occupied == BusyCourseHalls(catalog, day, time)
  {
    occupied := {};
    var i := 0;
    while i < |catalog|
      invariant 0 <= i <= |catalog|
      invariant occupied == BusyCourseHalls(catalog[..i], day, time)
    {
      var c := catalog[i];
      UnionOfPrefix(catalog, BusyCourseSet(day, time), i);
      var busy := IsBusy(c, day, time);
      if busy {
        occupied := occupied + (set h | h in CourseHalls(c));
      }
      i := i + 1;
    }
    assert catalog[..i] == catalog;
  }

  /** The third pass: the extra bookings in progress whose hall is a lecture hall. */
  method CollectBusyExtras(extras: seq<ExtraEntry>, day: int, time: int) returns (occupied: set<string>)
    ensures occupied == BusyExtraHalls(extras, day, time)
  {
    occupied := {};
    var k := 0;
    while k < |extras|
      invariant 0 <= k <= |extras|
      invariant occupied == BusyExtraHalls(extras[..k], day, time)
    {
      var item := extras[k];
      UnionOfPrefix(extras, BusyExtraSet(day, time), k);
      if item.day == day {
        var s := ParseIntJs(item.startTime);
        var e := ParseIntJs(item.endTime);
        if s.Some? && e.Some? && s.value <= time < e.value && StartsWith(item.lectureHall, "LH") {
          occupied := occupied + {item.lectureHall};
        }
      }
      k := k + 1;
    }
    assert extras[..k] == extras;
  }

  /**
   * `calculateEmptyHalls`: collect every lecture hall, then the halls of every
   * course with a lecture code in progress and of every extra booking in
   * progress, and list the difference in sorted order.
   */
  method CalculateEmptyHalls(catalog: seq<Course>, extras: seq<ExtraEntry>, day: int, hour: int, minute: int)
    returns (free: seq<string>)
    ensures free == FreeHalls(catalog, extras, day, QueryTime(hour, minute))
  {
    var time := hour * 100 + minute;
    var allHalls := CollectHalls(catalog);
    var fromCourses := CollectBusyCourses(catalog, day, time);
    var fromExtras := CollectBusyExtras(extras, day, time);
    assert time == QueryTime(hour, minute);
    free := SortedElements(allHalls - (fromCourses + fromExtras));
  }

  /**
   * Every free hall is a lecture hall some course lists, so a hall named only
   * by extra bookings is never listed.
   */
  lemma FreeHallsFromCatalogue(catalog: seq<Course>, extras: seq<ExtraEntry>, day: int, time: int, h: string)
    requires h in FreeHalls(catalog, extras, day, time)
    ensures exists c :: c in catalog && h in CourseHalls(c)
    ensures IsLectureHall(h)
  {
    HallsOfMembers(catalog, h);
    var c :| c in catalog && h in CourseHalls(c);
    CourseHallsMembers(c);
  }

  /** A course in progress makes all its lecture halls unavailable together. */
  lemma BusyCourseBlocksAllHalls(catalog: seq<Course>, extras: seq<ExtraEntry>, day: int, time: int, c: Course)
    requires c in catalog && CourseBusy(c, day, time)
    ensures forall h :: h in CourseHalls(c) ==> h !in FreeHalls(catalog, extras, day, time)
  {
    forall h | h in CourseHalls(c)
      ensures h in BusyCourseHalls(catalog, day, time)
    {
      BusyCourseHallsMembers(catalog, day, time, h);
    }
  }

  /** A code of nine digits reads as day digit, `HHMM` start and `HHMM` end. */
  lemma {:induction false} DigitCodeOccupies(t: string, day: int, time: int)
    requires |t| == 9 && AllDigits(t)
    ensures CodeOccupies(t, day, time) <==>
      DecimalValue(t[0..1]) == day && DecimalValue(t[1..5]) <= time < DecimalValue(t[5..9])
  {
    var d, a, b := t[0..1], t[1..5], t[5..9];
    assert AllDigits(d) && AllDigits(a) && AllDigits(b) by {
      assert forall i :: 0 <= i < 4 ==> a[i] == t[i + 1] && b[i] == t[i + 5];
    }
    ParseIntDigits(d);
    ParseIntDigits(a);
    ParseIntDigits(b);
  }

  /**
   * The interval is half-open: a lecture whose code reads `[start, end)`
   * occupies at its start and not at its end.
   */
  lemma HalfOpen(t: string, day: int)
    requires |t| == 9 && AllDigits(t)
    requires DecimalValue(t[0..1]) == day && DecimalValue(t[1..5]) < DecimalValue(t[5..9])
    ensures CodeOccupies(t, day, DecimalValue(t[1..5]))
    ensures !CodeOccupies(t, day, DecimalValue(t[5..9]))
  {
    DigitCodeOccupies(t, day, DecimalValue(t[1..5]));
    DigitCodeOccupies(t, day, DecimalValue(t[5..9]));
  }

  /**
   * `getDay()` runs from 0 (Sunday) to 6, so a code with day digit 7 (the
   * encoder's Sunday) never occupies anything.
   */
  lemma DaySevenNeverMatches(t: string, day: int, time: int)
    requires |t| == 9 && t[0] == '7'
    requires 0 <= day <= 6
    ensures !CodeOccupies(t, day, time)
  {
    assert t[0..1] == "7";
    ParseIntDigits("7");
    assert DecimalValue("7") == 7 by {
      assert "7"[..0] == "";
    }
  }

  /**
   * A code the encoder emits for `start-end` occupies exactly on its day digit,
   * from `hour * 100 + minute` of the start up to, not including, that of the end.
   */
  lemma EncodedSlotOccupies(s: WeeklySlot, day: int, time: int)
    requires WellFormedSlot(s)
    ensures CodeOccupies(Code(s), day, time) <==>
      DecimalValue([s.dayDigit]) == day && DecimalValue(s.start) <= time < DecimalValue(s.end)
  {
    var t := Code(s);
    assert t[0..1] == [s.dayDigit] && t[1..5] == s.start && t[5..9] == s.end;
    assert AllDigits(t) by {
      assert forall i :: 1 <= i < 5 ==> t[i] == s.start[i - 1];
      assert forall i :: 5 <= i < 9 ==> t[i] == s.end[i - 5];
    }
    DigitCodeOccupies(t, day, time);
  }

  /** A hall text naming one trimmed lecture hall lists exactly that hall. */
  lemma SingleHall(c: Course, h: string)
    requires c.lectureHall == Some(h) && IsLectureHall(h) && ',' !in h && !IsSpace(h[|h| - 1])
    ensures CourseHalls(c) == [h]
  {
    SplitNoSep(h, ',');
    assert h[..2] == "LH";
    assert h[0] == h[..2][0];
    assert Truthy(c.lectureHall);
    TrimmedHall(h);
    LectureHallOnly(h);
  }

  lemma TrimmedHall(h: string)
    requires |h| > 0 && h[0] == 'L' && !IsSpace(h[|h| - 1])
    ensures TrimAll([h]) == [h]
  {
    assert Trim(h) == h;
  }

  lemma LectureHallOnly(h: string)
    requires IsLectureHall(h)
    ensures Filter([h], IsLectureHall) == [h]
  {
    assert [h][1..] == [];
  }

  /** A timing text holding one code is busy exactly when that code occupies the moment. */
  lemma SingleCode(c: Course, t: string, day: int, time: int)
    requires c.slot.lectureTiming == Some(t) && ',' !in t
    ensures CourseBusy(c, day, time) <==> CodeOccupies(t, day, time)
  {
    SplitNoSep(t, ',');
  }

  /**
   * With one course in one lecture hall and no extra bookings, the hall is
   * listed free exactly when the course's single code does not occupy the moment.
   */
  lemma SingleCourseFree(c: Course, h: string, t: string, day: int, time: int)
    requires c.lectureHall == Some(h) && IsLectureHall(h) && ',' !in h && !IsSpace(h[|h| - 1])
    requires c.slot.lectureTiming == Some(t) && ',' !in t
    ensures FreeHalls([c], [], day, time) == if CodeOccupies(t, day, time) then [] else [h]
  {
    SingleHall(c, h);
    SingleCode(c, t, day, time);
    SingleCourseSets(c, h, day, time);
    if CourseBusy(c, day, time) {
      assert HallsOf([c]) - OccupiedHalls([c], [], day, time) == {};
    } else {
      SingletonSorted(h);
    }
  }

  lemma SingleCourseSets(c: Course, h: string, day: int, time: int)
    requires CourseHalls(c) == [h]
    ensures HallsOf([c]) == {h}
    ensures OccupiedHalls([c], [], day, time) == if CourseBusy(c, day, time) then {h} else {}
  {
    var none: seq<Course> := [];
    assert [c][..0] == none;
    OneHallSet(c, h);
    assert HallsOf([c]) == UnionOf(none, CourseHallSet) + CourseHallSet(c);
    assert BusyCourseHalls([c], day, time) == UnionOf(none, BusyCourseSet(day, time)) + BusyCourseSet(day, time)(c);
    assert BusyExtraHalls([], day, time) == {};
  }

  lemma OneHallSet(c: Course, h: string)
    requires CourseHalls(c) == [h]
    ensures CourseHallSet(c) == {h}
  {
    forall x | x in CourseHallSet(c)
      ensures x == h
    {
      assert x in CourseHalls(c);
    }
    assert h in CourseHalls(c);
  }

  lemma SingletonSorted(h: string)
    ensures SortedElements({h}) == [h]
  {
    var r := SortedElements({h});
    assert h in r;
  }
}
