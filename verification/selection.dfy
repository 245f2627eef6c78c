/**
 * The generator page's selection manager: the list of selected courses shown in
 * the grid and the per-course schedule map, both keyed by course code, with
 * batch insertion, removal, the student-database auto-fetch and the search
 * suggestions.
 */
module Selection {
  import opened Wrappers
  import opened Text
  import opened Seqs
  import opened Catalog
  import opened TimingCodec

  /**
   * A selected course as the grid shows it. `lecture`, `tutorial` and `lab` say
   * which components the course has; the three timing lists are decoded from
   * the catalogue.
   */
  datatype GridCourse = GridCourse(
    courseCode: string,
    lecture: bool,
    tutorial: bool,
    lab: bool,
    lectureTiming: seq<Session>,
    tutorialTiming: seq<Session>,
    labTiming: seq<Session>,
    creditStructure: string,
    lectureHall: Option<string>)

  /** The page state the operations below change. */
  datatype GeneratorState = GeneratorState(
    selected: seq<GridCourse>,
    timetable: map<string, Schedule>,
    searchQuery: string)

  /** The codes of a sequence of records, read with `code`, in order. */
  function CodesBy<T>(s: seq<T>, code: T -> string): (r: seq<string>)
    ensures |r| == |s| && forall i :: 0 <= i < |s| ==> r[i] == code(s[i])
  {
    seq(|s|, i requires 0 <= i < |s| => code(s[i]))
  }

  function CodesOf(gs: seq<GridCourse>): seq<string> {
    CodesBy(gs, (g: GridCourse) => g.courseCode)
  }

  function CourseCodes(cs: seq<Course>): seq<string> {
    CodesBy(cs, (c: Course) => c.courseCode)
  }

  /**
   * The invariant the page relies on: no course is selected twice and the
   * schedule map has an entry for exactly the selected courses.
   */
  predicate Consistent(st: GeneratorState) {
    && Distinct(CodesOf(st.selected))
    && (forall k :: k in st.timetable ==> k in CodesOf(st.selected))
    && (forall k :: k in CodesOf(st.selected) ==> k in st.timetable)
  }

  predicate Catalogued(catalog: seq<Course>, code: string) {
    code in CourseCodes(catalog)
  }

  /** `allCourses.find(c => c.courseCode === code)`: the first catalogue course with that code. */
  function Lookup(catalog: seq<Course>, code: string): (r: Option<Course>)
    ensures r.Some? <==> exists i :: 0 <= i < |catalog| && catalog[i].courseCode == code
    ensures r.Some? ==> r.value in catalog && r.value.courseCode == code
    ensures r.Some? ==> exists i ::
      && 0 <= i < |catalog| && catalog[i] == r.value
      && forall j :: 0 <= j < i ==> catalog[j].courseCode != code
  {
    if Catalogued(catalog, code) then
      var codes := CourseCodes(catalog);
      var i := FirstIndex(codes, code);
      assert forall j :: 0 <= j < i ==> codes[..i][j] == codes[j];
      Some(catalog[i])
    else
      assert forall i :: 0 <= i < |catalog| ==> CourseCodes(catalog)[i] != code;
      None
  }

  /** `creditStructure.split('-')[i]`, None for `undefined`. */
  function CreditField(creditStructure: string, i: nat): Option<string> {
    var parts := Split(creditStructure, '-');
    if i < |parts| then Some(parts[i]) else None
  }

  /**
   * The component flag: set unless the field is literally `"0.0"`. A missing
   * field is `undefined`, which differs from `"0.0"`, so it sets the flag.
   */
  predicate HasComponent(creditStructure: string, i: nat) {
    CreditField(creditStructure, i) != Some("0.0")
  }

  /** The grid entry built for a catalogue course. */
  function GridOf(c: Course): GridCourse {
    GridCourse(
      c.courseCode,
      Truthy(c.slot.lectureTiming),
      HasComponent(c.creditStructure, 1),
      HasComponent(c.creditStructure, 2),
      ParseTimingStr(c.slot.lectureTiming),
      ParseTimingStr(c.slot.tutorialTiming),
      ParseTimingStr(c.slot.labTiming),
      c.creditStructure,
      c.lectureHall)
  }

  /** The schedule entry a newly added course starts with. */
  function InitialSchedule(c: Course): Schedule {
    Schedule(ParseTimingStr(c.slot.lectureTiming), None, None)
  }

  /**
   * The grid entry keeps the code, shows a lecture exactly when the catalogue
   * lists lecture codes, and its lecture sessions are those the initial
   * schedule starts with; the initial schedule has no tutorial and no lab.
   */
  lemma GridOfLecture(c: Course)
    ensures GridOf(c).courseCode == c.courseCode
    ensures GridOf(c).lecture <==> Truthy(c.slot.lectureTiming)
    ensures GridOf(c).lecture <==> GridOf(c).lectureTiming != []
    ensures InitialSchedule(c).lecture == GridOf(c).lectureTiming
    ensures InitialSchedule(c).tutorial == None && InitialSchedule(c).lab == None
  {
  }

  /** For an `L-T-P` credit text the flags read the second and third fields. */
  lemma CreditFlags(l: string, t: string, p: string)
    requires '-' !in l && '-' !in t && '-' !in p
    ensures HasComponent(Join([l, t, p], "-"), 1) <==> t != "0.0"
    ensures HasComponent(Join([l, t, p], "-"), 2) <==> p != "0.0"
  {
    SplitJoin([l, t, p], '-');
  }

  /** A credit text with no hyphen has no second or third field, so both flags are set. */
  lemma CreditFlagsMissing(cs: string)
    requires '-' !in cs
    ensures HasComponent(cs, 1) && HasComponent(cs, 2)
  {
    SplitNoSep(cs, '-');
  }

  /**
   * The catalogue courses the `addCourses` loop picks from `codes`: a code is
   * skipped when it is among `selected`, already picked, or not in the
   * catalogue.
   */
  function Pick(selected: seq<string>, catalog: seq<Course>, codes: seq<string>): seq<Course> {
    if |codes| == 0 then []
    else
      var prev := Pick(selected, catalog, codes[..|codes| - 1]);
      var c := codes[|codes| - 1];
      if c in selected || c in CourseCodes(prev) then prev
      else
        match Lookup(catalog, c)
        case None => prev
        case Some(course) => prev + [course]
  }

  /** The schedule entries the loop writes, one per picked course, in order. */
  function Updates(picked: seq<Course>): map<string, Schedule> {
    if |picked| == 0 then map[]
    else
      var last := picked[|picked| - 1];
      Updates(picked[..|picked| - 1])[last.courseCode := InitialSchedule(last)]
  }

  /** `addCourses`' grid entries for the picked courses. */
  function Grids(picked: seq<Course>): (r: seq<GridCourse>)
    ensures |r| == |picked| && forall i :: 0 <= i < |picked| ==> r[i] == GridOf(picked[i])
  {
    seq(|picked|, i requires 0 <= i < |picked| => GridOf(picked[i]))
  }

  /** The codes of a course list with one more course at the end. */
  lemma CourseCodesSnoc(cs: seq<Course>, c: Course)
    ensures CourseCodes(cs + [c]) == CourseCodes(cs) + [c.courseCode]
  {
    var l, r := CourseCodes(cs + [c]), CourseCodes(cs) + [c.courseCode];
    forall i | 0 <= i < |l|
      ensures l[i] == r[i]
    {
      if i < |cs| {
        assert (cs + [c])[i] == cs[i];
      }
    }
  }

  lemma NonEmptyHasFirst(s: seq<string>)
    ensures |s| > 0 ==> s[0] in s
  {
  }

  /**
   * The loop picks each code of `codes` that is neither selected nor unknown,
   * exactly once, and every pick is the catalogue's course for its code.
   */
  lemma {:induction false} PickCodes(selected: seq<string>, catalog: seq<Course>, codes: seq<string>)
    ensures var p := CourseCodes(Pick(selected, catalog, codes));
      && (forall x :: x in p <==> x in codes && x !in selected && Catalogued(catalog, x))
      && Distinct(p)
    ensures forall c :: c in Pick(selected, catalog, codes) ==> Lookup(catalog, c.courseCode) == Some(c)
  {
    if |codes| > 0 {
      var n := |codes| - 1;
      var pre := codes[..n];
      assert codes == pre + [codes[n]];
      PickCodes(selected, catalog, pre);
      var prev := Pick(selected, catalog, pre);
      var c := codes[n];
      if !(c in selected || c in CourseCodes(prev)) && Lookup(catalog, c).Some? {
        var p := Pick(selected, catalog, codes);
        assert p == prev + [Lookup(catalog, c).value];
        CourseCodesSnoc(prev, Lookup(catalog, c).value);
        DistinctAppend(CourseCodes(prev), [c]);
      }
    }
  }

  /** The loop picks courses in the order their codes first occur in `codes`. */
  lemma {:induction false} PickOrder(selected: seq<string>, catalog: seq<Course>, codes: seq<string>)
    ensures FirstOccurrenceOrder(CourseCodes(Pick(selected, catalog, codes)), codes)
  {
    if |codes| > 0 {
      var n := |codes| - 1;
      var pre := codes[..n];
      var c := codes[n];
      assert codes == pre + [c];
      PickOrder(selected, catalog, pre);
      var prev := Pick(selected, catalog, pre);
      OrderSnoc(CourseCodes(prev), pre, c);
      if !(c in selected || c in CourseCodes(prev)) && Lookup(catalog, c).Some? {
        PickCodes(selected, catalog, pre);
        assert c !in pre;
        CourseCodesSnoc(prev, Lookup(catalog, c).value);
      }
    }
  }

  /**
   * One more code at the end of the batch keeps the order of the codes seen so
   * far, and a code not seen before may follow them.
   */
  lemma OrderSnoc(xs: seq<string>, pre: seq<string>, x: string)
    requires FirstOccurrenceOrder(xs, pre)
    ensures FirstOccurrenceOrder(xs, pre + [x])
    ensures x !in xs && x !in pre ==> FirstOccurrenceOrder(xs + [x], pre + [x])
  {
    var codes := pre + [x];
    forall i | 0 <= i < |xs|
      ensures xs[i] in codes && FirstIndex(codes, xs[i]) == FirstIndex(pre, xs[i])
    {
      assert codes[..|pre|] == pre;
      FirstIndexPrefix(codes, |pre|, xs[i]);
    }
    if x !in xs && x !in pre {
      var ys := xs + [x];
      assert forall k :: 0 <= k < |pre| ==> codes[k] == pre[k];
      assert FirstIndex(codes, x) == |pre|;
      forall i, j | 0 <= i < j < |ys|
        ensures FirstIndex(codes, ys[i]) < FirstIndex(codes, ys[j])
      {
        assert ys[i] == xs[i];
        if j < |xs| {
          assert ys[j] == xs[j];
        }
      }
    }
  }

  /** The codes of `xs` all occur in `codes`, in the order of their first occurrence there. */
  predicate FirstOccurrenceOrder(xs: seq<string>, codes: seq<string>) {
    && (forall i :: 0 <= i < |xs| ==> xs[i] in codes)
    && (forall i, j :: 0 <= i < j < |xs| ==> FirstIndex(codes, xs[i]) < FirstIndex(codes, xs[j]))
  }

  /** With distinct codes, the written map has each picked course's initial schedule under its code. */
  lemma {:induction false} UpdatesEntries(picked: seq<Course>)
    requires Distinct(CourseCodes(picked))
    ensures forall k :: k in Updates(picked) <==> k in CourseCodes(picked)
    ensures forall c :: c in picked ==> Updates(picked)[c.courseCode] == InitialSchedule(c)
  {
    if |picked| > 0 {
      var n := |picked| - 1;
      var pre := picked[..n];
      assert picked == pre + [picked[n]];
      assert CourseCodes(pre) == CourseCodes(picked)[..n];
      UpdatesEntries(pre);
      forall c | c in pre
        ensures c.courseCode != picked[n].courseCode
      {
        var i :| 0 <= i < n && pre[i] == c;
        assert CourseCodes(picked)[i] == c.courseCode;
      }
    }
  }

  /**
   * `addCourses(codes)`: the picked courses' grid entries are appended to the
   * selection and their schedule entries merged into the map, and the search
   * box is cleared; when nothing is picked nothing changes.
   */
  function AddCourses(st: GeneratorState, catalog: seq<Course>, codes: seq<string>): (r: GeneratorState)
    ensures |st.selected| <= |r.selected| && r.selected[..|st.selected|] == st.selected
    ensures r.selected == st.selected ==> r == st
    ensures r != st ==> r.searchQuery == ""
  {
    var picked := Pick(CodesOf(st.selected), catalog, codes);
    if |picked| > 0 then GeneratorState(st.selected + Grids(picked), st.timetable + Updates(picked), "")
    else st
  }

  /** The courses `addCourses` appends. */
  function Added(st: GeneratorState, catalog: seq<Course>, codes: seq<string>): seq<GridCourse> {
    AddCourses(st, catalog, codes).selected[|st.selected|..]
  }

  /** The appended entries are the grid entries of the picked courses. */
  lemma AddedIsGrids(st: GeneratorState, catalog: seq<Course>, codes: seq<string>)
    ensures Added(st, catalog, codes) == Grids(Pick(CodesOf(st.selected), catalog, codes))
    ensures CodesOf(Added(st, catalog, codes)) == CourseCodes(Pick(CodesOf(st.selected), catalog, codes))
  {
    var picked := Pick(CodesOf(st.selected), catalog, codes);
    if |picked| > 0 {
      assert Added(st, catalog, codes) == Grids(picked);
    }
  }

  /**
   * After `addCourses` the selected codes are the old ones plus every
   * catalogued code of the batch; the appended ones were not selected before,
   * so a duplicate-free selection stays duplicate-free.
   */
  lemma AddCoursesCodes(st: GeneratorState, catalog: seq<Course>, codes: seq<string>)
    ensures var r := AddCourses(st, catalog, codes);
      && (forall x :: x in CodesOf(r.selected) <==> x in CodesOf(st.selected) || (x in codes && Catalogued(catalog, x)))
      && (forall x :: x in CodesOf(Added(st, catalog, codes)) ==> x in codes && x !in CodesOf(st.selected))
      && (Distinct(CodesOf(st.selected)) ==> Distinct(CodesOf(r.selected)))
  {
    var r := AddCourses(st, catalog, codes);
    var added := Added(st, catalog, codes);
    var before, newCodes := CodesOf(st.selected), CodesOf(added);
    PickCodes(before, catalog, codes);
    AddedIsGrids(st, catalog, codes);
    assert r.selected == st.selected + added;
    CodesOfAppend(st.selected, added);
    forall x
      ensures x in CodesOf(r.selected) <==> x in before || (x in codes && Catalogued(catalog, x))
    {
      assert x in CodesOf(r.selected) <==> x in before || x in newCodes;
    }
    if Distinct(before) {
      DistinctAppend(before, newCodes);
    }
  }

  /** The codes of two lists one after the other. */
  lemma CodesOfAppend(a: seq<GridCourse>, b: seq<GridCourse>)
    ensures CodesOf(a + b) == CodesOf(a) + CodesOf(b)
  {
    var l, r := CodesOf(a + b), CodesOf(a) + CodesOf(b);
    forall i | 0 <= i < |l|
      ensures l[i] == r[i]
    {
      if i >= |a| {
        assert (a + b)[i] == b[i - |a|];
      }
    }
  }

  /** Each appended entry is the grid entry of the catalogue course with its code. */
  lemma AddCoursesGrid(st: GeneratorState, catalog: seq<Course>, codes: seq<string>)
    ensures forall g :: g in Added(st, catalog, codes) ==>
      Lookup(catalog, g.courseCode).Some? && g == GridOf(Lookup(catalog, g.courseCode).value)
  {
    var picked := Pick(CodesOf(st.selected), catalog, codes);
    PickCodes(CodesOf(st.selected), catalog, codes);
    AddedIsGrids(st, catalog, codes);
    forall g | g in Added(st, catalog, codes)
      ensures exists c :: c in picked && g == GridOf(c)
    {
      var i :| 0 <= i < |Grids(picked)| && Grids(picked)[i] == g;
      assert picked[i] in picked;
    }
  }

  /**
   * Each appended course gets its catalogue course's initial schedule, the map
   * gains exactly the appended codes, and every other entry is kept.
   */
  lemma AddCoursesSchedules(st: GeneratorState, catalog: seq<Course>, codes: seq<string>)
    ensures var r := AddCourses(st, catalog, codes);
      var added := Added(st, catalog, codes);
      && (forall k :: k in r.timetable <==> k in st.timetable || k in CodesOf(added))
      && (forall k :: k in st.timetable && k !in CodesOf(added) ==> r.timetable[k] == st.timetable[k])
      && (forall i :: 0 <= i < |added| ==>
            && Lookup(catalog, added[i].courseCode).Some?
            && r.timetable[added[i].courseCode] == InitialSchedule(Lookup(catalog, added[i].courseCode).value))
  {
    var r := AddCourses(st, catalog, codes);
    var picked := Pick(CodesOf(st.selected), catalog, codes);
    PickCodes(CodesOf(st.selected), catalog, codes);
    AddedIsGrids(st, catalog, codes);
    UpdatesEntries(picked);
    var added := Added(st, catalog, codes);
    forall i | 0 <= i < |added|
      ensures Lookup(catalog, added[i].courseCode) == Some(picked[i])
      ensures r.timetable[added[i].courseCode] == InitialSchedule(picked[i])
    {
      assert picked[i] in picked;
      assert added[i].courseCode == picked[i].courseCode;
    }
  }

  /** The appended courses keep the order in which their codes first occur in the batch. */
  lemma AddCoursesOrder(st: GeneratorState, catalog: seq<Course>, codes: seq<string>)
    ensures FirstOccurrenceOrder(CodesOf(Added(st, catalog, codes)), codes)
  {
    PickOrder(CodesOf(st.selected), catalog, codes);
    AddedIsGrids(st, catalog, codes);
  }

  /** A batch whose catalogued codes are all selected already leaves the state as it was. */
  lemma AddCoursesNothingNew(st: GeneratorState, catalog: seq<Course>, codes: seq<string>)
    requires forall x :: x in codes && Catalogued(catalog, x) ==> x in CodesOf(st.selected)
    ensures AddCourses(st, catalog, codes) == st
  {
    var picked := Pick(CodesOf(st.selected), catalog, codes);
    PickCodes(CodesOf(st.selected), catalog, codes);
    NonEmptyHasFirst(CourseCodes(picked));
  }

  /** Adding the same batch a second time changes nothing. */
  lemma AddCoursesIdempotent(st: GeneratorState, catalog: seq<Course>, codes: seq<string>)
    ensures AddCourses(AddCourses(st, catalog, codes), catalog, codes) == AddCourses(st, catalog, codes)
  {
    AddCoursesCodes(st, catalog, codes);
    AddCoursesNothingNew(AddCourses(st, catalog, codes), catalog, codes);
  }

  /** Adding courses keeps the selection and the schedule map in step. */
  lemma AddCoursesConsistent(st: GeneratorState, catalog: seq<Course>, codes: seq<string>)
    requires Consistent(st)
    ensures Consistent(AddCourses(st, catalog, codes))
  {
    var r := AddCourses(st, catalog, codes);
    var added := Added(st, catalog, codes);
    AddCoursesCodes(st, catalog, codes);
    AddCoursesSchedules(st, catalog, codes);
    assert r.selected == st.selected + added;
    CodesOfAppend(st.selected, added);
  }

  /** `addCourse(code)`: a batch of one. */
  function AddCourse(st: GeneratorState, catalog: seq<Course>, code: string): GeneratorState {
    AddCourses(st, catalog, [code])
  }

  /** The loop over a single code picks its catalogue course when it is new. */
  lemma PickOne(selected: seq<string>, catalog: seq<Course>, code: string)
    ensures Pick(selected, catalog, [code]) ==
      if code in selected || !Catalogued(catalog, code) then [] else [Lookup(catalog, code).value]
  {
    assert [code][..0] == [];
    assert Pick(selected, catalog, []) == [];
    assert CourseCodes([]) == [];
  }

  /** A single new catalogued code is appended with its initial schedule; otherwise nothing changes. */
  lemma AddCourseOne(st: GeneratorState, catalog: seq<Course>, code: string)
    ensures code in CodesOf(st.selected) || !Catalogued(catalog, code) ==> AddCourse(st, catalog, code) == st
    ensures code !in CodesOf(st.selected) && Catalogued(catalog, code) ==>
      && AddCourse(st, catalog, code).selected == st.selected + [GridOf(Lookup(catalog, code).value)]
      && AddCourse(st, catalog, code).timetable == st.timetable[code := InitialSchedule(Lookup(catalog, code).value)]
      && AddCourse(st, catalog, code).searchQuery == ""
  {
    var picked := Pick(CodesOf(st.selected), catalog, [code]);
    PickOne(CodesOf(st.selected), catalog, code);
    if code !in CodesOf(st.selected) && Catalogued(catalog, code) {
      var c := Lookup(catalog, code).value;
      assert picked == [c];
      assert Grids([c]) == [GridOf(c)];
      assert [c][..0] == [];
      var u := Updates([c]);
      assert c.courseCode == code;
      assert Updates([]) == map[];
      assert u == Updates([])[code := InitialSchedule(c)];
      assert st.timetable + u == st.timetable[code := InitialSchedule(c)];
    }
  }

  /** `selectedCourses.filter(c => c.courseCode !== code)`. */
  function Without(gs: seq<GridCourse>, code: string): seq<GridCourse> {
    if |gs| == 0 then []
    else if gs[0].courseCode != code then [gs[0]] + Without(gs[1..], code)
    else Without(gs[1..], code)
  }

  /** Exactly the entries with another code are kept. */
  lemma {:induction false} WithoutMembers(gs: seq<GridCourse>, code: string)
    ensures forall g :: g in Without(gs, code) <==> g in gs && g.courseCode != code
  {
    if |gs| > 0 {
      WithoutMembers(gs[1..], code);
      assert gs == [gs[0]] + gs[1..];
    }
  }

  /** The codes of a list with one entry in front. */
  lemma CodesOfCons(g: GridCourse, gs: seq<GridCourse>)
    ensures CodesOf([g] + gs) == [g.courseCode] + CodesOf(gs)
  {
    var l, r := CodesOf([g] + gs), [g.courseCode] + CodesOf(gs);
    forall i | 0 <= i < |l|
      ensures l[i] == r[i]
    {
      if i > 0 {
        assert ([g] + gs)[i] == gs[i - 1];
      }
    }
  }

  /** A code is listed exactly when some entry has it. */
  lemma CodesOfMembers(gs: seq<GridCourse>, x: string)
    ensures x in CodesOf(gs) <==> exists g :: g in gs && g.courseCode == x
  {
    var cs := CodesOf(gs);
    if x in cs {
      var i :| 0 <= i < |cs| && cs[i] == x;
      assert gs[i] in gs;
    }
    if exists g :: g in gs && g.courseCode == x {
      var g :| g in gs && g.courseCode == x;
      var i :| 0 <= i < |gs| && gs[i] == g;
      assert cs[i] == x;
    }
  }

  /** The kept codes are the old codes other than `code`. */
  lemma {:induction false} WithoutCodes(gs: seq<GridCourse>, code: string)
    ensures forall x :: x in CodesOf(Without(gs, code)) <==> x in CodesOf(gs) && x != code
  {
    WithoutMembers(gs, code);
    forall x
      ensures x in CodesOf(Without(gs, code)) <==> x in CodesOf(gs) && x != code
    {
      CodesOfMembers(gs, x);
      CodesOfMembers(Without(gs, code), x);
    }
  }

  /** Nothing is dropped when no entry has the code. */
  lemma {:induction false} WithoutAbsent(gs: seq<GridCourse>, code: string)
    requires code !in CodesOf(gs)
    ensures Without(gs, code) == gs
  {
    if |gs| > 0 {
      assert gs == [gs[0]] + gs[1..];
      CodesOfCons(gs[0], gs[1..]);
      WithoutAbsent(gs[1..], code);
    }
  }

  /** Filtering keeps the codes distinct. */
  lemma {:induction false} WithoutDistinct(gs: seq<GridCourse>, code: string)
    requires Distinct(CodesOf(gs))
    ensures Distinct(CodesOf(Without(gs, code)))
  {
    if |gs| > 0 {
      var rest := Without(gs[1..], code);
      assert gs == [gs[0]] + gs[1..];
      CodesOfCons(gs[0], gs[1..]);
      DistinctCons(gs[0].courseCode, CodesOf(gs[1..]));
      WithoutDistinct(gs[1..], code);
      if gs[0].courseCode != code {
        WithoutCodes(gs[1..], code);
        CodesOfCons(gs[0], rest);
        DistinctCons(gs[0].courseCode, CodesOf(rest));
      }
    }
  }

  /** Filtering distributes over an appended entry. */
  lemma {:induction false} WithoutAppend(gs: seq<GridCourse>, g: GridCourse, code: string)
    ensures Without(gs + [g], code) == Without(gs, code) + Without([g], code)
  {
    if |gs| > 0 {
      assert (gs + [g])[1..] == gs[1..] + [g];
      WithoutAppend(gs[1..], g, code);
    }
  }

  /** `removeCourse(code)`: drop the code from the selection and from the schedule map. */
  function RemoveCourse(st: GeneratorState, code: string): GeneratorState {
    GeneratorState(Without(st.selected, code), st.timetable - {code}, st.searchQuery)
  }

  /**
   * Removal drops exactly that code from both the selection and the map, keeps
   * everything else, is a no-op for an absent code, and keeps the state
   * consistent.
   */
  lemma RemoveCourseEffect(st: GeneratorState, code: string)
    ensures var r := RemoveCourse(st, code);
      && (forall g :: g in r.selected <==> g in st.selected && g.courseCode != code)
      && (forall k :: k in r.timetable <==> k in st.timetable && k != code)
      && (forall k :: k in r.timetable ==> r.timetable[k] == st.timetable[k])
      && r.searchQuery == st.searchQuery
      && (code !in CodesOf(st.selected) && code !in st.timetable ==> r == st)
      && (Consistent(st) ==> Consistent(r))
  {
    WithoutMembers(st.selected, code);
    WithoutCodes(st.selected, code);
    if code !in CodesOf(st.selected) {
      WithoutAbsent(st.selected, code);
    }
    if Consistent(st) {
      WithoutDistinct(st.selected, code);
    }
    if code !in st.timetable {
      assert st.timetable - {code} == st.timetable;
    }
  }

  /**
   * Adding one new catalogued course and removing it again gives back the
   * state before, apart from the cleared search box.
   */
  lemma AddThenRemove(st: GeneratorState, catalog: seq<Course>, code: string)
    requires Consistent(st)
    requires code !in CodesOf(st.selected) && Catalogued(catalog, code)
    ensures RemoveCourse(AddCourse(st, catalog, code), code) == st.(searchQuery := "")
  {
    var c := Lookup(catalog, code).value;
    var g := GridOf(c);
    AddCourseOne(st, catalog, code);
    WithoutAppend(st.selected, g, code);
    WithoutAbsent(st.selected, code);
    assert Without([g], code) == [];
    assert code !in st.timetable;
    assert st.timetable[code := InitialSchedule(c)] - {code} == st.timetable;
  }

  /** What the auto-fetch dialog reports. */
  datatype FetchLog = AskForId | NoCoursesFound | Found(codes: seq<string>)

  datatype FetchResult = FetchResult(state: GeneratorState, log: FetchLog)

  /**
   * `handleAutoFetch`: an empty id is refused; otherwise the lower-cased id is
   * looked up in the pre-fetched student database and a non-empty course list
   * is added as one batch.
   */
  function AutoFetch(st: GeneratorState, catalog: seq<Course>, students: map<string, seq<string>>, id: string): (r: FetchResult)
    ensures id == "" ==> r == FetchResult(st, AskForId)
    ensures id != "" && (ToLower(id) !in students || students[ToLower(id)] == []) ==> r == FetchResult(st, NoCoursesFound)
    ensures r.log.Found? <==> id != "" && ToLower(id) in students && students[ToLower(id)] != []
    ensures r.log.Found? ==> r.log.codes == students[ToLower(id)] && r.state == AddCourses(st, catalog, r.log.codes)
  {
    if id == "" then FetchResult(st, AskForId)
    else
      var lowerId := ToLower(id);
      if lowerId in students && |students[lowerId]| > 0 then
        var found := students[lowerId];
        FetchResult(AddCourses(st, catalog, found), Found(found))
      else FetchResult(st, NoCoursesFound)
  }

  /** The lookup ignores the case of the id. */
  lemma AutoFetchCaseInsensitive(st: GeneratorState, catalog: seq<Course>, students: map<string, seq<string>>, id: string)
    ensures AutoFetch(st, catalog, students, ToLower(id)) == AutoFetch(st, catalog, students, id)
  {
    ToLowerIdempotent(id);
    assert |ToLower(id)| == |id|;
  }

  /**
   * `filteredCourses`: with a non-empty query, the first ten catalogue courses
   * whose code contains the upper-cased query; nothing for an empty query.
   */
  function Suggestions(catalog: seq<Course>, query: string): (r: seq<Course>)
    ensures query == "" ==> r == []
    ensures |r| <= 10
    ensures forall c :: c in r ==> c in catalog && Contains(c.courseCode, ToUpper(query))
    ensures query != "" ==>
      var f := Filter(catalog, (c: Course) => Contains(c.courseCode, ToUpper(query)));
      && |r| == (if |f| <= 10 then |f| else 10)
      && r == f[..|r|]
  {
    if query == "" then []
    else Take(Filter(catalog, (c: Course) => Contains(c.courseCode, ToUpper(query))), 10)
  }

  /** Every matching course is suggested when there are at most ten matches. */
  lemma SuggestionsComplete(catalog: seq<Course>, query: string, c: Course)
    requires query != "" && c in catalog && Contains(c.courseCode, ToUpper(query))
    requires |Filter(catalog, (d: Course) => Contains(d.courseCode, ToUpper(query)))| <= 10
    ensures c in Suggestions(catalog, query)
  {
    var f := Filter(catalog, (d: Course) => Contains(d.courseCode, ToUpper(query)));
    assert Take(f, 10) == f;
  }
}
