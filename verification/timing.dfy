/**
 * The 9-character weekly timing code `DHHMMHHMM` as the timetable page reads it:
 * one day digit, a 4-digit start and a 4-digit end. A catalogue field holds a
 * comma-separated list of such codes. This module also holds the session and
 * per-course schedule records built from them.
 */
module TimingCodec {
  import opened Wrappers
  import opened Text
  import opened Catalog

  /**
   * One weekly meeting. `day` is a weekday name or None for JavaScript's
   * `undefined`; `location` is None for sessions decoded from the catalogue
   * and the typed venue for sessions entered by hand.
   */
  datatype Session = Session(day: Option<string>, start: string, end: string, location: Option<string>)

  /**
   * The schedule kept per selected course: the lecture list and, once entered,
   * the tutorial and lab lists (None for `null`).
   */
  datatype Schedule = Schedule(lecture: seq<Session>, tutorial: Option<seq<Session>>, lab: Option<seq<Session>>)

  /** The weekday names in day-digit order, 1 = Monday. */
  const Weekdays: seq<string> := ["Monday", "Tuesday", "Wednesday", "Thursday", "Friday"]

  /** The decoder's day table: digits `1`..`5` name Monday..Friday, anything else is undefined. */
  function DayName(c: char): (r: Option<string>)
    ensures r.Some? <==> '1' <= c <= '5'
    ensures r.Some? ==> r.value == Weekdays[c as int - '1' as int]
  {
    match c
    case '1' => Some("Monday")
    case '2' => Some("Tuesday")
    case '3' => Some("Wednesday")
    case '4' => Some("Thursday")
    case '5' => Some("Friday")
    case _ => None
  }

  /**
   * Decodes one piece of a timing list: the day from the first character, the
   * start from characters 1-4 and the end from characters 5-8. There is no
   * length check, so short pieces give short (clamped) fields.
   */
  function DecodeCode(t: string): (s: Session)
    ensures s.location == None
    ensures s.day.Some? <==> |t| > 0 && '1' <= t[0] <= '5'
    ensures |t| >= 9 ==> s.start == t[1..5] && s.end == t[5..9]
    ensures |s.start| <= 4 && |s.end| <= 4
  {
    Session(if |t| == 0 then None else DayName(t[0]), JsSlice(t, 1, 5), JsSlice(t, 5, 9), None)
  }

  /**
   * `parseTimingStr`: no sessions for a null or empty list, otherwise one
   * session per comma-separated piece, in order.
   */
  function ParseTimingStr(timing: Option<string>): (r: seq<Session>)
    ensures !Truthy(timing) <==> r == []
    ensures Truthy(timing) ==> |r| == Occurrences(timing.value, ',') + 1
    ensures Truthy(timing) ==> forall i :: 0 <= i < |r| ==> r[i] == DecodeCode(Split(timing.value, ',')[i])
  {
    if !Truthy(timing) then []
    else
      var pieces := Split(timing.value, ',');
      seq(|pieces|, i requires 0 <= i < |pieces| => DecodeCode(pieces[i]))
  }

  /** Decoding a list made of joined codes decodes each code in turn. */
  lemma ParseJoinedCodes(codes: seq<string>)
    requires |codes| >= 1 && codes[0] != ""
    requires forall i :: 0 <= i < |codes| ==> ',' !in codes[i]
    ensures ParseTimingStr(Some(Join(codes, ","))) == seq(|codes|, i requires 0 <= i < |codes| => DecodeCode(codes[i]))
  {
    SplitJoin(codes, ',');
    JoinNonEmpty(codes, ",");
  }
}
