/**
 * The venue synchroniser: it reads the room allotment chart line by line,
 * attaches every course code it meets to the venue of its row, and then writes
 * each course's venues, sorted and joined by ", ", into the catalogue's
 * lecture hall field.
 *
 * The regular expressions are not modelled: a line arrives with the venue its
 * venue pattern found (if any) and with the course-code tokens it holds, each
 * marked with whether the whole token also matches the venue pattern.
 */
module Venues {
  import opened Wrappers
  import opened Text
  import opened Seqs
  import opened StringOrder
  import opened Catalog
  import opened Occupancy

  /** `normalize_venue`: None for a missing or empty text, else its words joined by single spaces. */
  function NormalizeVenue(v: Option<string>): (r: Option<string>)
    ensures r.None? <==> !Truthy(v)
    ensures r.Some? ==> SingleSpaced(r.value)
  {
    if !Truthy(v) then None
    else
      WordsAreWords(v.value);
      JoinWordsSingleSpaced(Words(v.value));
      Some(Join(Words(v.value), " "))
  }

  /** Normalising keeps the words of the text and nothing else. */
  lemma NormalizeKeepsWords(v: Option<string>)
    requires Truthy(v)
    ensures Words(NormalizeVenue(v).value) == Words(v.value)
  {
    WordsAreWords(v.value);
    WordsOfJoin(Words(v.value));
  }

  /** A normalised venue normalises to itself (a blank text normalises to "", which then reads as missing). */
  lemma NormalizeIdempotent(v: Option<string>)
    requires NormalizeVenue(v).Some? && NormalizeVenue(v).value != ""
    ensures NormalizeVenue(NormalizeVenue(v)) == NormalizeVenue(v)
  {
    NormalizeKeepsWords(v);
  }

  /** A course-code token of a line; `isVenue` says the whole token also matches the venue pattern. */
  datatype CourseToken = CourseToken(code: string, isVenue: bool)

  /** One text line of a page: its text, the venue found in it, and its course-code tokens. */
  datatype Line = Line(text: string, venue: Option<string>, tokens: seq<CourseToken>)

  /** The state carried across the lines of one page: the venue of the current row and the codes still waiting for one. */
  datatype PageState = PageState(current: Option<string>, buffer: seq<string>)

  /** The venues found for each course code. */
  type VenueData = map<string, set<string>>

  const FreshPage: PageState := PageState(None, [])

  /** The codes of a line that do not themselves read as venues, in line order. */
  function ValidCourses(tokens: seq<CourseToken>): (r: seq<string>)
    ensures forall c :: c in r <==> exists t :: t in tokens && !t.isVenue && t.code == c
  {
    if |tokens| == 0 then []
    else
      var rest := ValidCourses(tokens[1..]);
      assert forall t :: t in tokens <==> t == tokens[0] || t in tokens[1..];
      (if tokens[0].isVenue then [] else [tokens[0].code]) + rest
  }

  /** A table header: it starts with "Room" and names the first hour or the day column. */
  predicate IsHeader(text: string) {
    StartsWith(text, "Room") && (Contains(text, "8-9") || Contains(text, "Day"))
  }

  /** Adds venue `v` to the set of every code in `codes`, creating missing sets as empty. */
  function AddVenue(data: VenueData, codes: seq<string>, v: string): (r: VenueData)
    decreases |codes|
    ensures forall k :: k in r <==> k in data || k in codes
    ensures forall k :: k in r ==> r[k] == (if k in data then data[k] else {}) + (if k in codes then {v} else {})
  {
    if |codes| == 0 then data
    else
      var c := codes[0];
      var d := data[c := (if c in data then data[c] else {}) + {v}];
      assert forall k :: k in codes <==> k == c || k in codes[1..];
      AddVenue(d, codes[1..], v)
  }

  /** A venue match is never empty text. */
  predicate WellFormedLine(line: Line) {
    line.venue != Some("")
  }

  /**
   * One line of `parse_pdf`: a header resets the page state; a line with a
   * venue makes it current, hands it to the waiting codes and to the line's
   * own codes; a line without one gives its codes to the current venue when
   * there is a non-empty one and queues them otherwise.
   */
  function Step(data: VenueData, st: PageState, line: Line): (VenueData, PageState)
    requires WellFormedLine(line)
  {
    if IsHeader(line.text) then (data, FreshPage)
    else
      var valid := ValidCourses(line.tokens);
      if line.venue.Some? then
        var found := NormalizeVenue(line.venue).value;
        (AddVenue(AddVenue(data, st.buffer, found), valid, found), PageState(Some(found), []))
      else if Truthy(st.current) then
        (AddVenue(data, valid, st.current.value), st)
      else
        (data, PageState(st.current, st.buffer + valid))
  }

  predicate WellFormedLines(lines: seq<Line>) {
    forall i :: 0 <= i < |lines| ==> WellFormedLine(lines[i])
  }

  /** The lines of one page, in order, from a given state. */
  function Run(data: VenueData, st: PageState, lines: seq<Line>): (VenueData, PageState)
    requires WellFormedLines(lines)
    decreases |lines|
  {
    if |lines| == 0 then (data, st)
    else
      var (d, s) := Step(data, st, lines[0]);
      Run(d, s, lines[1..])
  }

  predicate WellFormedPages(pages: seq<seq<Line>>) {
    forall i :: 0 <= i < |pages| ==> WellFormedLines(pages[i])
  }

  /** `parse_pdf`: every page starts with no current venue and an empty queue. */
  function ParsePages(data: VenueData, pages: seq<seq<Line>>): VenueData
    requires WellFormedPages(pages)
    decreases |pages|
  {
    if |pages| == 0 then data
    else ParsePages(Run(data, FreshPage, pages[0]).0, pages[1..])
  }

  // ---------------------------------------------------------------------------
  // The line state machine
  // ---------------------------------------------------------------------------

  /** Codes wait in the queue only while there is no usable current venue. */
  predicate QueueInvariant(st: PageState) {
    st.buffer == [] || !Truthy(st.current)
  }

  lemma StepKeepsInvariant(data: VenueData, st: PageState, line: Line)
    requires WellFormedLine(line) && QueueInvariant(st)
    ensures QueueInvariant(Step(data, st, line).1)
  {
  }

  lemma {:induction false} RunKeepsInvariant(data: VenueData, st: PageState, lines: seq<Line>)
    requires WellFormedLines(lines) && QueueInvariant(st)
    ensures QueueInvariant(Run(data, st, lines).1)
    decreases |lines|
  {
    if |lines| > 0 {
      var (d, s) := Step(data, st, lines[0]);
      StepKeepsInvariant(data, st, lines[0]);
      RunKeepsInvariant(d, s, lines[1..]);
    }
  }

  /** Venue data only grows: no code loses a venue. */
  predicate Grows(a: VenueData, b: VenueData) {
    forall k :: k in a ==> k in b && a[k] <= b[k]
  }

  lemma StepGrows(data: VenueData, st: PageState, line: Line)
    requires WellFormedLine(line)
    ensures Grows(data, Step(data, st, line).0)
  {
  }

  lemma {:induction false} RunGrows(data: VenueData, st: PageState, lines: seq<Line>)
    requires WellFormedLines(lines)
    ensures Grows(data, Run(data, st, lines).0)
    decreases |lines|
  {
    if |lines| > 0 {
      var (d, s) := Step(data, st, lines[0]);
      StepGrows(data, st, lines[0]);
      RunGrows(d, s, lines[1..]);
    }
  }

  /** A header line clears the current venue and the queue and assigns nothing. */
  lemma HeaderResets(data: VenueData, st: PageState, line: Line)
    requires WellFormedLine(line) && IsHeader(line.text)
    ensures Step(data, st, line) == (data, PageState(None, []))
  {
  }

  /**
   * A line with a venue makes the normalised venue current, empties the queue,
   * and gives that venue to every queued code and every code of the line; no
   * other code is touched and no other venue is added.
   */
  lemma VenueLineAssigns(data: VenueData, st: PageState, line: Line)
    requires WellFormedLine(line) && !IsHeader(line.text) && line.venue.Some?
    ensures var (d, s) := Step(data, st, line);
      var v := NormalizeVenue(line.venue).value;
      var valid := ValidCourses(line.tokens);
      && s == PageState(Some(v), [])
      && (forall c :: c in d <==> c in data || c in st.buffer || c in valid)
      && (forall c :: c in d ==>
            d[c] == (if c in data then data[c] else {}) + (if c in st.buffer || c in valid then {v} else {}))
  {
    var v := NormalizeVenue(line.venue).value;
    AddVenueTwice(data, st.buffer, ValidCourses(line.tokens), v);
  }

  /** Adding one venue to two code lists in turn: the union of the lists gets it, nothing else changes. */
  lemma AddVenueTwice(data: VenueData, p: seq<string>, q: seq<string>, v: string)
    ensures var d := AddVenue(AddVenue(data, p, v), q, v);
      && (forall c :: c in d <==> c in data || c in p || c in q)
      && (forall c :: c in d ==> d[c] == (if c in data then data[c] else {}) + (if c in p || c in q then {v} else {}))
  {
    var d := AddVenue(AddVenue(data, p, v), q, v);
    forall c
      ensures c in d <==> c in data || c in p || c in q
    {
      AddVenueTwiceAt(data, p, q, v, c);
    }
    forall c | c in d
      ensures d[c] == (if c in data then data[c] else {}) + (if c in p || c in q then {v} else {})
    {
      AddVenueTwiceAt(data, p, q, v, c);
    }
  }

  lemma AddVenueTwiceAt(data: VenueData, p: seq<string>, q: seq<string>, v: string, c: string)
    ensures var d := AddVenue(AddVenue(data, p, v), q, v);
      && (c in d <==> c in data || c in p || c in q)
      && (c in d ==> d[c] == (if c in data then data[c] else {}) + (if c in p || c in q then {v} else {}))
  {
    var mid := AddVenue(data, p, v);
    var d := AddVenue(mid, q, v);
    assert c in mid <==> c in data || c in p;
    assert c in d <==> c in mid || c in q;
    if c in d {
      var old0 := if c in data then data[c] else {};
      if c in p && c in q {
        assert mid[c] == old0 + {v};
        assert d[c] == mid[c] + {v};
      } else if c in p {
        assert mid[c] == old0 + {v};
        assert d[c] == mid[c] + {};
      } else if c in q {
        assert d[c] == (if c in mid then mid[c] else {}) + {v};
      } else {
        assert mid[c] == old0 + {};
        assert d[c] == mid[c] + {};
      }
    }
  }

  /**
   * Without a venue the line's codes go to a non-empty current venue, touching
   * no other code, or else join the queue and nothing is assigned.
   */
  lemma PlainLine(data: VenueData, st: PageState, line: Line)
    requires WellFormedLine(line) && !IsHeader(line.text) && line.venue.None?
    ensures var (d, s) := Step(data, st, line);
      var valid := ValidCourses(line.tokens);
      if Truthy(st.current) then
        && s == st
        && (forall c :: c in d <==> c in data || c in valid)
        && (forall c :: c in d ==>
              d[c] == (if c in data then data[c] else {}) + (if c in valid then {st.current.value} else {}))
      else
        d == data && s == PageState(st.current, st.buffer + valid)
  {
  }

  /**
   * On a page where no line has a venue nothing is assigned: the queued codes
   * are dropped with the page.
   */
  lemma {:induction false} NoVenueNoChange(data: VenueData, st: PageState, lines: seq<Line>)
    requires WellFormedLines(lines) && !Truthy(st.current)
    requires forall i :: 0 <= i < |lines| ==> lines[i].venue.None?
    ensures Run(data, st, lines).0 == data
    decreases |lines|
  {
    if |lines| > 0 {
      var (d, s) := Step(data, st, lines[0]);
      assert d == data && !Truthy(s.current);
      NoVenueNoChange(data, s, lines[1..]);
    }
  }

  /** The codes that do not read as venues on some line. */
  function LineCodes(lines: seq<Line>): set<string> {
    if |lines| == 0 then {} else (set c | c in ValidCourses(lines[0].tokens)) + LineCodes(lines[1..])
  }

  /**
   * Only codes already present, queued, or written on a line without reading
   * as a venue ever get venues: a token that fully matches the venue pattern
   * is never a key.
   */
  lemma {:induction false} RunKeys(data: VenueData, st: PageState, lines: seq<Line>)
    requires WellFormedLines(lines)
    ensures var r := Run(data, st, lines);
      r.0.Keys <= data.Keys + (set c | c in st.buffer) + LineCodes(lines)
      && (set c | c in r.1.buffer) <= (set c | c in st.buffer) + LineCodes(lines)
    decreases |lines|
  {
    if |lines| > 0 {
      var (d, s) := Step(data, st, lines[0]);
      RunKeys(d, s, lines[1..]);
    }
  }

  /** Reading the pages of two documents one after the other. */
  lemma {:induction false} ParsePagesAppend(data: VenueData, a: seq<seq<Line>>, b: seq<seq<Line>>)
    requires WellFormedPages(a) && WellFormedPages(b)
    ensures WellFormedPages(a + b)
    ensures ParsePages(data, a + b) == ParsePages(ParsePages(data, a), b)
    decreases |a|
  {
    assert forall i :: 0 <= i < |a + b| ==> (a + b)[i] == if i < |a| then a[i] else b[i - |a|];
    if |a| == 0 {
      assert a + b == b;
    } else {
      assert (a + b)[1..] == a[1..] + b;
      ParsePagesAppend(Run(data, FreshPage, a[0]).0, a[1..], b);
    }
  }

  /**
   * The state is reset for every page, so a page on which no line has a venue
   * adds nothing: its queued codes are not carried over to the next page.
   */
  lemma SilentPageSkipped(data: VenueData, a: seq<seq<Line>>, p: seq<Line>, b: seq<seq<Line>>)
    requires WellFormedPages(a) && WellFormedLines(p) && WellFormedPages(b)
    requires forall i :: 0 <= i < |p| ==> p[i].venue.None?
    ensures WellFormedPages(a + [p] + b)
    ensures ParsePages(data, a + [p] + b) == ParsePages(data, a + b)
  {
    var pb := [p] + b;
    assert WellFormedPages(pb) by {
      assert forall i :: 0 <= i < |pb| ==> pb[i] == if i == 0 then p else b[i - 1];
    }
    assert a + [p] + b == a + pb;
    ParsePagesAppend(data, a, pb);
    ParsePagesAppend(data, a, b);
    var mid := ParsePages(data, a);
    assert pb[1..] == b;
    NoVenueNoChange(mid, FreshPage, p);
  }

  /** Reading more pages never takes a venue away from a code. */
  lemma {:induction false} ParsePagesGrows(data: VenueData, pages: seq<seq<Line>>)
    requires WellFormedPages(pages)
    ensures Grows(data, ParsePages(data, pages))
    decreases |pages|
  {
    if |pages| > 0 {
      var d := Run(data, FreshPage, pages[0]).0;
      RunGrows(data, FreshPage, pages[0]);
      ParsePagesGrows(d, pages[1..]);
    }
  }

  // ---------------------------------------------------------------------------
  // Writing venues into the catalogue
  // ---------------------------------------------------------------------------

  /** The lecture hall text for a set of venues: sorted, joined by ", ". */
  function VenueText(venues: set<string>): string {
    Join(SortedElements(venues), ", ")
  }

  /** The course has a code with a non-empty venue set. */
  predicate HasVenues(c: Course, data: VenueData) {
    c.courseCode != "" && c.courseCode in data && data[c.courseCode] != {}
  }

  /** One course after the merge. */
  function UpdatedCourse(c: Course, data: VenueData): Course {
    if HasVenues(c, data) then c.(lectureHall := Some(VenueText(data[c.courseCode]))) else c
  }

  /**
   * Only the lecture hall changes, and only for a course with venues, which
   * then lists exactly its venues; other courses are left alone.
   */
  lemma UpdatedCourseFields(c: Course, data: VenueData)
    ensures var u := UpdatedCourse(c, data);
      && u.courseCode == c.courseCode && u.courseName == c.courseName
      && u.creditStructure == c.creditStructure && u.slot == c.slot
      && (HasVenues(c, data) ==> u.lectureHall == Some(VenueText(data[c.courseCode])))
      && (!HasVenues(c, data) ==> u == c)
  {
  }

  /** Merging the same venue data twice changes nothing more. */
  lemma UpdateIdempotent(c: Course, data: VenueData)
    ensures UpdatedCourse(UpdatedCourse(c, data), data) == UpdatedCourse(c, data)
  {
  }

  /** How many courses of the list the merge changes. */
  function ChangeCount(courses: seq<Course>, data: VenueData): nat {
    if |courses| == 0 then 0
    else
      var last := courses[|courses| - 1];
      ChangeCount(courses[..|courses| - 1], data) + (if UpdatedCourse(last, data) != last then 1 else 0)
  }

  /**
   * `update_json`: rewrite the lecture hall of every course with venues and
   * count the courses whose value actually changed.
   */
  method UpdateJson(courses: seq<Course>, data: VenueData) returns (updated: seq<Course>, count: nat)
    ensures |updated| == |courses|
    ensures updated == UpdatedAll(courses, data)
    ensures count == ChangeCount(courses, data)
  {
    updated := [];
    count := 0;
    var i := 0;
    while i < |courses|
      invariant 0 <= i <= |courses|
      invariant updated == UpdatedAll(courses[..i], data)
      invariant count == ChangeCount(courses[..i], data)
    {
      var course := courses[i];
      var next, changed := MergeCourse(course, data);
      MergeStep(courses, i, data, next, changed);
      count := count + if changed then 1 else 0;
      updated := updated + [next];
      i := i + 1;
    }
    assert courses[..i] == courses;
  }

  /** Extending the merged prefix by one course. */
  lemma MergeStep(courses: seq<Course>, i: nat, data: VenueData, next: Course, changed: bool)
    requires i < |courses|
    requires next == UpdatedCourse(courses[i], data) && (changed <==> next != courses[i])
    ensures UpdatedAll(courses[..i + 1], data) == UpdatedAll(courses[..i], data) + [next]
    ensures ChangeCount(courses[..i + 1], data) == ChangeCount(courses[..i], data) + (if changed then 1 else 0)
  {
    assert courses[..i + 1][..i] == courses[..i];
  }

  /** Every course of a list after the merge. */
  function UpdatedAll(courses: seq<Course>, data: VenueData): (r: seq<Course>)
    ensures |r| == |courses|
  {
    if |courses| == 0 then []
    else UpdatedAll(courses[..|courses| - 1], data) + [UpdatedCourse(courses[|courses| - 1], data)]
  }

  lemma {:induction false} UpdatedAllPointwise(courses: seq<Course>, data: VenueData)
    ensures forall i :: 0 <= i < |courses| ==> UpdatedAll(courses, data)[i] == UpdatedCourse(courses[i], data)
  {
    if |courses| > 0 {
      var n := |courses| - 1;
      UpdatedAllPointwise(courses[..n], data);
      assert forall i :: 0 <= i < n ==> courses[..n][i] == courses[i];
    }
  }

  /** One iteration of `update_json`: the course after the merge, and whether its hall text changed. */
  method MergeCourse(course: Course, data: VenueData) returns (next: Course, changed: bool)
    ensures next == UpdatedCourse(course, data)
    ensures changed <==> next != course
  {
    var code := course.courseCode;
    next := course;
    changed := false;
    if code != "" && code in data && data[code] != {} {
      var newVenue := Join(SortedElements(data[code]), ", ");
      if course.lectureHall != Some(newVenue) {
        next := course.(lectureHall := Some(newVenue));
        changed := true;
      }
    }
  }

  /** A second merge with the same data reports no change. */
  lemma {:induction false} SecondMergeCountsNothing(courses: seq<Course>, data: VenueData)
    ensures ChangeCount(UpdatedAll(courses, data), data) == 0
  {
    if |courses| > 0 {
      var n := |courses| - 1;
      var once := UpdatedAll(courses, data);
      SecondMergeCountsNothing(courses[..n], data);
      assert once[..n] == UpdatedAll(courses[..n], data);
      UpdateIdempotent(courses[n], data);
    }
  }

  // ---------------------------------------------------------------------------
  // Reading the written venues back
  // ---------------------------------------------------------------------------

  /** Each text with one space in front. */
  function Spaced(ws: seq<string>): (r: seq<string>)
    ensures |r| == |ws| && forall i :: 0 <= i < |ws| ==> r[i] == " " + ws[i]
  {
    seq(|ws|, i requires 0 <= i < |ws| => " " + ws[i])
  }

  lemma JoinLeadingSpace(a: string, rest: seq<string>)
    ensures Join([" " + a] + rest, ",") == " " + Join([a] + rest, ",")
  {
    if |rest| > 0 {
      assert ([" " + a] + rest)[1..] == rest == ([a] + rest)[1..];
    }
  }

  /** Joining by ", " is joining by "," after putting a space before every part but the first. */
  lemma {:induction false} JoinCommaSpace(vs: seq<string>)
    requires |vs| >= 1
    ensures Join(vs, ", ") == Join(CommaParts(vs), ",")
    decreases |vs|
  {
    if |vs| >= 2 {
      var tail := vs[1..];
      JoinCommaSpace(tail);
      assert Spaced(tail) == [" " + tail[0]] + Spaced(tail[1..]);
      JoinLeadingSpace(tail[0], Spaced(tail[1..]));
      assert CommaParts(tail) == [tail[0]] + Spaced(tail[1..]);
      assert CommaParts(vs)[1..] == Spaced(tail);
    }
  }

  lemma TrimLeadingSpace(v: string)
    ensures Trim(" " + v) == Trim(v)
  {
    assert (" " + v)[1..] == v;
  }

  /** A venue as the chart's pattern yields it: non-empty, no comma, no surrounding whitespace. */
  predicate CleanVenue(v: string) {
    v != "" && ',' !in v && !IsSpace(v[0]) && !IsSpace(v[|v| - 1])
  }

  /** The parts of a ", "-joined list once a space is put back in front of all but the first. */
  function CommaParts(vs: seq<string>): seq<string>
    requires |vs| >= 1
  {
    [vs[0]] + Spaced(vs[1..])
  }

  lemma TrimClean(v: string)
    requires CleanVenue(v)
    ensures Trim(v) == v && Trim(" " + v) == v
  {
    TrimLeadingSpace(v);
  }

  lemma CommaPartsClean(vs: seq<string>)
    requires |vs| >= 1
    requires forall i :: 0 <= i < |vs| ==> CleanVenue(vs[i])
    ensures TrimAll(CommaParts(vs)) == vs
  {
    var parts := CommaParts(vs);
    var trimmed := TrimAll(parts);
    forall i | 0 <= i < |vs|
      ensures trimmed[i] == vs[i]
    {
      TrimClean(vs[i]);
      if i > 0 {
        assert parts[i] == " " + vs[i];
      }
    }
  }

  lemma NoCommaAfterSpace(v: string)
    requires ',' !in v
    ensures ',' !in " " + v
  {
    assert forall k :: 0 <= k < |v| ==> (" " + v)[k + 1] == v[k];
  }

  lemma CommaPartsNoComma(vs: seq<string>)
    requires |vs| >= 1
    requires forall i :: 0 <= i < |vs| ==> ',' !in vs[i]
    ensures forall i :: 0 <= i < |vs| ==> ',' !in CommaParts(vs)[i]
  {
    var parts := CommaParts(vs);
    forall i | 0 < i < |vs|
      ensures ',' !in parts[i]
    {
      NoCommaAfterSpace(vs[i]);
    }
  }

  /** Splitting a ", "-joined list of clean venues on commas and trimming gives the list back. */
  lemma SplitVenueText(vs: seq<string>)
    requires |vs| >= 1
    requires forall i :: 0 <= i < |vs| ==> CleanVenue(vs[i])
    ensures TrimAll(Split(Join(vs, ", "), ',')) == vs
  {
    JoinCommaSpace(vs);
    CommaPartsClean(vs);
    CommaPartsNoComma(vs);
    SplitJoin(CommaParts(vs), ',');
    assert Split(Join(vs, ", "), ',') == CommaParts(vs);
  }

  /**
   * After the merge the hall finder reads a course's lecture halls as exactly
   * its venues that start with "LH", in sorted order.
   */
  lemma SyncedHallsReadBack(c: Course, data: VenueData)
    requires HasVenues(c, data)
    requires forall v :: v in data[c.courseCode] ==> CleanVenue(v)
    ensures CourseHalls(UpdatedCourse(c, data)) == Filter(SortedElements(data[c.courseCode]), IsLectureHall)
  {
    var vs := SortedElements(data[c.courseCode]);
    var text := VenueText(data[c.courseCode]);
    assert vs[0] in data[c.courseCode];
    JoinNonEmpty(vs, ", ");
    var u := UpdatedCourse(c, data);
    assert u.lectureHall == Some(text) && Truthy(u.lectureHall);
    assert CourseHalls(u) == Filter(TrimAll(Split(text, ',')), IsLectureHall);
    SortedClean(data[c.courseCode]);
    SplitVenueText(vs);
  }

  lemma SortedClean(venues: set<string>)
    requires forall v :: v in venues ==> CleanVenue(v)
    ensures forall i :: 0 <= i < |SortedElements(venues)| ==> CleanVenue(SortedElements(venues)[i])
  {
    var vs := SortedElements(venues);
    forall i | 0 <= i < |vs|
      ensures CleanVenue(vs[i])
    {
      assert vs[i] in venues;
    }
  }
}
