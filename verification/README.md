# IITD timetable generator — a Dafny model

This project models the logic of the IITD timetable generator. The site lets a
student build a weekly timetable from the institute's course catalogue. It
exports the timetable as an iCalendar file, shows which lecture halls are free
at a given moment, and lets the student browse the catalogue. Two offline
Python scripts build the catalogue that the pages read.

Everything rests on the **9-character weekly timing code** `DHHMMHHMM`: one day
digit, a 4-digit start and a 4-digit end, for example `109301100` for Monday
09:30–11:00. A catalogue field holds a comma-separated list of such codes.

| module (file) | models |
|---|---|
| `TimingCodec` (timing.dfy) | `parseTimingStr` of the generator page: codes to `{day, start, end}` sessions; the `Session` and per-course `Schedule` records |
| `Encoder` (encoder.dfy) | `parse_timings`, `DAYS_MAP`, `clean_course_code`, `extract_course_name` and the timing-column selection of the CSV-to-JSON script |
| `Selection` (selection.dfy) | `addCourses`, `addCourse`, `removeCourse`, the auto-fetch lookup and the search suggestions of the generator page |
| `Ics` (ics.dfy) | `generateICS`: one weekly VEVENT (section 3.6.1 of RFC 5545) per session, with an RRULE weekday code (section 3.3.10 of RFC 5545) |
| `Occupancy` (occupancy.dfy) | `calculateEmptyHalls` of the empty-lecture-halls page |
| `EditTiming` (edit_timing.dfy) | `saveData` of the timing editor |
| `Venues` (venues.dfy) | `normalize_venue`, the per-page line state machine of `parse_pdf`, and `update_json` of the venue synchroniser |
| `Explorer` (explorer.dfy) | the search filter, the page-by-page prefix, `hasMore`, the search reset and `loadMore` of the course explorer |
| `Catalog`, `Text`, `StringOrder`, `Seqs`, `Wrappers` | the catalogue records; JavaScript and Python string operations; the string order and sorting; sequence helpers; `Option` |

The model is written as pure functions over immutable datatypes. A React state
update becomes a function from the old state to the new one. The mutating loops
of `calculateEmptyHalls` and `update_json` are methods whose contracts tie them
to functional definitions. A JavaScript exception (`undefined.slice`, a missing
map entry) or a JSON `null` becomes `None`.

Some quirks of the code are kept and proved, not corrected:
- the `"0.0"` literal test behind the tutorial and lab flags;
- the string comparison of saved times;
- `"Su"` tokenising as `S` + `u`, which is Saturday;
- the decoder's missing length and day checks;
- a code with day digit 7 never occupying a hall, because `getDay()` stops at 6.

Further behaviour of the code that the model keeps:
- **Decoding.** `parseTimingStr` checks nothing: every comma piece becomes a session, a day digit outside 1–5 gives an undefined day, and a short piece gives short fields (`TimingCodec.DecodeCode`).
- **Saving.** `saveData` saves one session per component, and an unselected day or an inverted range silently sets the component to `null` (`EditTiming.SaveComponent`).
- **Query time.** The query time is `hour * 100 + minute` (`Occupancy.QueryTime`).
- **Extra bookings.** A hall named only by an extra booking is marked occupied, but the free list only ever draws from catalogue halls, so such a hall never shows as free (`Occupancy.FreeHallsFromCatalogue`).

## Model

| member | source | states |
|---|---|---|
| TimingCodec.DayName | src/pages/Generator.jsx:95-97 | the digits 1–5 name Monday–Friday in order; every other character gives no day (JavaScript `undefined`) |
| TimingCodec.DecodeCode | src/pages/Generator.jsx:91-100 | a piece has a day exactly when its first character is 1–5; a 9-character piece has start = characters 1–4 and end = characters 5–8; fields never exceed 4 characters since there is no length check; no location |
| TimingCodec.ParseTimingStr | src/pages/Generator.jsx:87-102 | no sessions exactly for a null or empty list; otherwise one session per comma-separated piece (commas + 1), in order, the i-th decoded from the i-th piece |
| TimingCodec.ParseJoinedCodes | src/pages/Generator.jsx:88-101 | decoding comma-free codes joined by "," gives each code's session in turn |
| Encoder.TokenizeSpellsBack | scripts/csv_to_json.py:66-75 | the tokens spell the day text back; each is "Th" or one character; the first starts with the text's first letter; no single "T" token is followed by a token starting with "h" (greedy "Th") |
| Encoder.TokenizeAppend | scripts/csv_to_json.py:67-75 | tokenising a day text cut anywhere except between the "T" and "h" of a "Th" gives the tokens of the first piece followed by those of the second |
| Encoder.TokenizeMTh | scripts/csv_to_json.py:69-75 | "MTh" tokenises as "M", "Th" |
| Encoder.ExampleSundayIsSaturday | scripts/csv_to_json.py:69-90 | "Su" tokenises as "S", "u": one Saturday slot and nothing for "u", so Sunday is never emitted from "Su" |
| Encoder.Pad2 | scripts/csv_to_json.py:80 | a number below 100 is written as two digits with that decimal value (`:02d`) |
| Encoder.FmtTimeCode | scripts/csv_to_json.py:78-80 | an `H:MM` or `HH:MM` time becomes 4 digits worth hour * 100 + minute, ending in the given minutes |
| Encoder.FmtTimeCodeExamples | scripts/csv_to_json.py:78-80 | "09:30" gives "0930" and "11:00" gives "1100" |
| Encoder.TokenSlots | scripts/csv_to_json.py:85-90 | at most one slot per day token, each with a day digit 1–7 and the given start and end |
| Encoder.TokenSlotsSingle | scripts/csv_to_json.py:85-90 | one day token gives one slot with its `DAYS_MAP` digit, and a token not in the map gives nothing |
| Encoder.TokenSlotsAppend | scripts/csv_to_json.py:85-90 | the slots of two token lists in a row are the first list's slots followed by the second's, so slots follow token order |
| Encoder.MatchSlots | scripts/csv_to_json.py:61-90 | every slot of a regex match is well formed and carries the formatted start and end times |
| Encoder.MatchSlotsAppend | scripts/csv_to_json.py:61-90 | a match whose day text is cut (not inside a "Th") gives the first piece's slots followed by the second piece's |
| Encoder.MatchSlotsLetter | scripts/csv_to_json.py:61-90 | a one-letter day text gives one slot with that letter's `DAYS_MAP` digit and the formatted times, or nothing for a letter not in the map |
| Encoder.MatchSlotsThursday | scripts/csv_to_json.py:66-90 | the day text "Th" gives one Thursday (digit 4) slot |
| Encoder.PartsSlotsWellFormed | scripts/csv_to_json.py:54-90 | every slot gathered from the comma parts is well formed |
| Encoder.TimingSlotsWellFormed | scripts/csv_to_json.py:52-90 | every slot of a whole timing text is well formed |
| Encoder.Codes | scripts/csv_to_json.py:89 | one code per slot, in order |
| Encoder.CodeClean | scripts/csv_to_json.py:89 | a well-formed slot's code is 9 characters (a day digit 1–7 and 8 digits) with no comma |
| Encoder.ParseTimings | scripts/csv_to_json.py:43-95 | None for empty text and exactly when no slot is produced; otherwise the text splits on "," into exactly the slots' codes, each well formed |
| Encoder.DecodeSlot | scripts/csv_to_json.py:89 | the page's decoder reads an emitted code back as the slot's day name, start and end |
| Encoder.EncodeThenDecode | scripts/csv_to_json.py:43-95 | decoding what `parse_timings` wrote gives one session per encoded slot, in order, with that slot's day name, start and end (no session at all for None) |
| Encoder.WeekendDecodesUndefined | scripts/csv_to_json.py:33-41 | the Saturday (6) and Sunday (7) digits the encoder emits decode with no day |
| Encoder.ExampleMondayThursday | scripts/csv_to_json.py:45 | a match of "MTh", "09:30", "11:00" gives the codes "109301100" and "409301100" |
| Encoder.CleanCourseCode | scripts/csv_to_json.py:21-29 | "" for empty input; the stripped text when there is no hyphen |
| Encoder.ExtractCourseName | scripts/csv_to_json.py:97-103 | "" for empty input; the stripped text when there is no hyphen |
| Encoder.SplitAtLastHyphen | scripts/csv_to_json.py:26-28 | for `before-after` with no hyphen in `after`, the code is the stripped `after` and the name the stripped `before` (split at the last hyphen) |
| Encoder.ExampleMinorProject | scripts/csv_to_json.py:22 | "MINOR PROJECT-AMD5050" gives the name "MINOR PROJECT" and the code "AMD5050" |
| Encoder.MapTimingColumns | scripts/csv_to_json.py:173-184 | lecture = column 0 and tutorial = column 1 when present; practical = column 2 with exactly 3 columns, column 3 with 4 or more, else "" |
| Encoder.SelectTimingTexts | scripts/csv_to_json.py:158-198 | with an email column, the columns between it and the vacancy column (second from last), or nothing when there are none; without one: columns 10, 11, 13 when units are at 5 and the row has more than 13 columns; column 8, then 9 and 10 when the row reaches them, when units are at 4 and the row has more than 8 columns; nothing otherwise |
| Encoder.AnchoredColumns | scripts/csv_to_json.py:158-184 | with the email column at `e`, the lecture comes from row column e+1, the tutorial from e+2, the practical from e+3 with exactly three timing columns and from e+4 with more, each only when the row is long enough |
| Encoder.LayoutsAgree | scripts/csv_to_json.py:150-198 | the standard row (email at 9, 17 columns) and the compressed row (email at 7, 13 columns) give the same texts with and without the email anchor |
| Encoder.BuildCourse | scripts/csv_to_json.py:200-250 | a row is skipped exactly when its cleaned code is empty; otherwise the record has that code, the extracted name, the given credit text and slot letter ("X" when empty), the encoded lecture timing, and null tutorial timing, lab timing and lecture hall |
| Encoder.BuildCourseDecodes | scripts/csv_to_json.py:234-250 | the lecture timing of a built record reads back on the timetable page as one session per encoded slot of the lecture text |
| Selection.Lookup | src/pages/Generator.jsx:113 | found exactly when some catalogue course has the code; the result is the first such course |
| Selection.GridOfLecture | src/pages/Generator.jsx:115-131 | the grid entry keeps the code, shows a lecture exactly when the lecture timing is non-empty, and has the same lecture sessions as the new schedule entry, whose tutorial and lab are null |
| Selection.CreditFlags | src/pages/Generator.jsx:124-125 | for an `L-T-P` credit text the tutorial flag is set exactly when T is not "0.0" and the lab flag exactly when P is not "0.0" |
| Selection.CreditFlagsMissing | src/pages/Generator.jsx:124-125 | a credit text without a hyphen sets both flags (`undefined !== "0.0"`) |
| Selection.PickCodes | src/pages/Generator.jsx:109-114 | the loop picks exactly the batch codes that are not selected and are catalogued, each once, and each pick is the catalogue's course for its code |
| Selection.PickOrder | src/pages/Generator.jsx:109-133 | the picks follow the order of their codes' first occurrence in the batch |
| Selection.PickOne | src/pages/Generator.jsx:146-148 | a batch of one code picks its catalogue course exactly when it is new and catalogued |
| Selection.UpdatesEntries | src/pages/Generator.jsx:115-119 | the staged map has exactly the picked codes as keys, each with its course's initial schedule |
| Selection.AddCourses | src/pages/Generator.jsx:136-143 | the old selection is a prefix of the new one; if nothing is appended the state is unchanged; any change clears the search box |
| Selection.AddedIsGrids | src/pages/Generator.jsx:121-141 | the appended entries are the grid entries of the picked courses, in pick order |
| Selection.AddCoursesCodes | src/pages/Generator.jsx:109-141 | afterwards a code is selected exactly when it was selected before or is a catalogued batch code; appended codes were not selected before; a duplicate-free selection stays duplicate-free |
| Selection.AddCoursesGrid | src/pages/Generator.jsx:121-132 | every appended entry is the grid entry of a catalogue course with that code |
| Selection.AddCoursesSchedules | src/pages/Generator.jsx:115-140 | the map gains exactly the appended codes, each with its catalogue course's initial schedule; every other entry is kept |
| Selection.AddCoursesOrder | src/pages/Generator.jsx:109-141 | appended courses keep the order in which their codes first occur in the batch |
| Selection.AddCoursesNothingNew | src/pages/Generator.jsx:136 | a batch whose catalogued codes are all selected already leaves the state unchanged |
| Selection.AddCoursesIdempotent | src/pages/Generator.jsx:105-144 | adding the same batch twice equals adding it once |
| Selection.AddCoursesConsistent | src/pages/Generator.jsx:105-144 | adding keeps the codes distinct and the schedule map keyed by exactly the selected codes |
| Selection.AddCourseOne | src/pages/Generator.jsx:146-148 | a new catalogued code appends its grid entry and sets its initial schedule; a selected or unknown code changes nothing |
| Selection.WithoutMembers | src/pages/Generator.jsx:151 | the filter keeps exactly the entries with another code |
| Selection.WithoutCodes | src/pages/Generator.jsx:151 | the kept codes are the old codes other than the removed one |
| Selection.WithoutAbsent | src/pages/Generator.jsx:151 | nothing is dropped when no entry has the code |
| Selection.WithoutDistinct | src/pages/Generator.jsx:151 | filtering keeps the codes distinct |
| Selection.RemoveCourseEffect | src/pages/Generator.jsx:150-155 | removal drops exactly that code from the selection and the map, keeps every other entry and the search text, is a no-op for an absent code, and keeps the state consistent |
| Selection.AddThenRemove | src/pages/Generator.jsx:146-155 | removing a freshly added course restores the consistent state it was added to, apart from the cleared search box |
| Selection.AutoFetch | src/pages/Generator.jsx:40-75 | an empty id is refused and changes nothing; an id whose lower-cased form has no or an empty course list reports nothing found and changes nothing; otherwise that list is reported and added as one batch |
| Selection.AutoFetchCaseInsensitive | src/pages/Generator.jsx:51-52 | the lookup gives the same result for an id and its lower-cased form |
| Selection.Suggestions | src/pages/Generator.jsx:228-230 | nothing for an empty query; otherwise the first ten catalogue courses whose code contains the upper-cased query (all of them when fewer match), in catalogue order |
| Selection.SuggestionsComplete | src/pages/Generator.jsx:228-230 | when at most ten courses match, every matching course is suggested |
| Ics.WeekdayCodes | src/pages/Generator.jsx:182 | the first two letters of Monday–Friday, upper-cased, are MO, TU, WE, TH, FR |
| Ics.ClockDigitsPrefix | src/pages/Generator.jsx:175-178 | `HH` followed by `MM` is the first four characters of the time |
| Ics.ToEvent | src/pages/Generator.jsx:174-188 | an event exists exactly when the session has a day (else the export throws); BYDAY is the day's first two letters upper-cased; start and end are the first four characters; the location is the non-empty lecture hall; the summary starts with the code and a space |
| Ics.SessionEvents | src/pages/Generator.jsx:174-189 | the events exist exactly when every session has a day; then there is one per session, in order |
| Ics.AllEvents | src/pages/Generator.jsx:165-190 | the export succeeds exactly when every selected course's events exist; the number of events is the number of sessions walked |
| Ics.AllEventsSingle | src/pages/Generator.jsx:165-190 | one selected course exports exactly its own events |
| Ics.AllEventsAppend | src/pages/Generator.jsx:165-190 | the events of two course lists in a row are the first list's events followed by the second's, and the export fails when either fails: course by course, in selection order |
| Ics.GenerateIcs | src/pages/Generator.jsx:162-192 | succeeds exactly when no session lacks a day; the text starts with the VCALENDAR header and ends with `END:VCALENDAR` |
| Ics.RenderEventsAppend | src/pages/Generator.jsx:174-189 | the blocks of two event lists in a row are the first list's blocks followed by the second's |
| Ics.GenerateIcsEmpty | src/pages/Generator.jsx:162-192 | with nothing selected the calendar is the header followed by the trailer |
| Ics.GenerateIcsSnoc | src/pages/Generator.jsx:162-192 | selecting one more course inserts that course's VEVENT blocks, in session order, just before the trailer |
| Ics.RenderEventShape | src/pages/Generator.jsx:180-188 | each event block starts with `BEGIN:VEVENT`, contains the weekly RRULE line for its day and ends with `END:VEVENT` |
| Ics.CodeToEvent | src/pages/Generator.jsx:182-184 | a session decoded from a 9-character code with digit 1–5 exports on that digit's RFC 5545 weekday, from the code's start to its end |
| Ics.InitialComponents | src/pages/Generator.jsx:169-172 | a freshly added course exports exactly its lectures: null tutorial and lab lists are skipped |
| Ics.CourseEventsPerSession | src/pages/Generator.jsx:166-189 | a course's events are one per session of lecture, tutorial, lab, in order, each on its session's day and at the course's hall |
| Occupancy.QueryTimeOrder | src/pages/EmptyLectureHalls.jsx:26-28 | with minutes below 60, `hour * 100 + minute` orders moments as hour-then-minute does |
| Occupancy.TrimAll | src/pages/EmptyLectureHalls.jsx:35 | one trimmed piece per piece, in order |
| Occupancy.CourseHallsMembers | src/pages/EmptyLectureHalls.jsx:33-40 | a course's halls are exactly the trimmed comma pieces of its hall text that start with "LH"; none for a missing or empty text |
| Occupancy.HallsOfMembers | src/pages/EmptyLectureHalls.jsx:31-42 | a hall is a catalogue hall exactly when some course lists it |
| Occupancy.BusyCourseHallsMembers | src/pages/EmptyLectureHalls.jsx:47-75 | a hall is occupied by the catalogue exactly when some busy course lists it |
| Occupancy.BusyExtraHallsMembers | src/pages/EmptyLectureHalls.jsx:78-88 | a hall is occupied by an extra booking exactly when a busy booking names it and it starts with "LH" |
| Occupancy.FreeHalls | src/pages/EmptyLectureHalls.jsx:92-96 | strictly sorted (so no duplicates), and holding exactly the catalogue halls that are not occupied |
| Occupancy.CollectHalls | src/pages/EmptyLectureHalls.jsx:31-42 | the loop collects exactly the catalogue halls |
| Occupancy.AnyCodeOccupies | src/pages/EmptyLectureHalls.jsx:50-61 | the loop finds a busy code exactly when one of the codes occupies the moment |
| Occupancy.IsBusy | src/pages/EmptyLectureHalls.jsx:49-61 | a course is busy exactly when it has lecture codes and one occupies the moment |
| Occupancy.CollectBusyCourses | src/pages/EmptyLectureHalls.jsx:47-75 | the loop marks exactly the halls of busy courses |
| Occupancy.CollectBusyExtras | src/pages/EmptyLectureHalls.jsx:77-88 | the loop marks exactly the busy extra lecture halls |
| Occupancy.CalculateEmptyHalls | src/pages/EmptyLectureHalls.jsx:23-99 | the computed list is the free-hall list at `hour * 100 + minute` on the given day |
| Occupancy.FreeHallsFromCatalogue | src/pages/EmptyLectureHalls.jsx:92 | every free hall is listed by some catalogue course and starts with "LH": halls named only by extra bookings never show |
| Occupancy.BusyCourseBlocksAllHalls | src/pages/EmptyLectureHalls.jsx:62-69 | a busy course makes all of its halls not free |
| Occupancy.DigitCodeOccupies | src/pages/EmptyLectureHalls.jsx:55-61 | a 9-digit code occupies exactly when its day digit is the query day and start <= time < end, as decimal numbers |
| Occupancy.HalfOpen | src/pages/EmptyLectureHalls.jsx:61 | a code occupies at its start time and not at its end time |
| Occupancy.DaySevenNeverMatches | src/pages/EmptyLectureHalls.jsx:56-60 | with a `getDay()` value 0–6, a code with day digit 7 never occupies anything |
| Occupancy.EncodedSlotOccupies | src/pages/EmptyLectureHalls.jsx:55-61 | an encoder slot's code occupies exactly on its day digit, from its start's value up to, not including, its end's |
| Occupancy.SingleHall | src/pages/EmptyLectureHalls.jsx:33-40 | a hall text naming one trimmed "LH" hall lists exactly that hall |
| Occupancy.SingleCode | src/pages/EmptyLectureHalls.jsx:50-61 | a course with one lecture code is busy exactly when that code occupies the moment |
| Occupancy.SingleCourseFree | src/pages/EmptyLectureHalls.jsx:31-96 | with one course in one hall and no extra bookings, the hall is listed free exactly when the course's code does not occupy the moment |
| EditTiming.SaveComponent | src/components/FullTimetable/EditTiming.jsx:23-36 | null exactly when no day is chosen ("0") or the colon-stripped start does not sort before the end; otherwise one session with that day, the colon-stripped times and the typed venue |
| EditTiming.SaveData | src/components/FullTimetable/EditTiming.jsx:10-63 | fails exactly when the course has no schedule entry; otherwise only that entry changes: its lecture list is kept, the tutorial is re-saved when the course has one, and so is the lab; every other entry is kept |
| EditTiming.InitialScheduleValid | src/pages/Generator.jsx:115-119 | a freshly added course's tutorial and lab (null) are valid |
| EditTiming.SaveDataKeepsValid | src/components/FullTimetable/EditTiming.jsx:23-57 | after a save every tutorial and lab is null or one session with a day whose start sorts before its end |
| EditTiming.SaveDataIdempotent | src/components/FullTimetable/EditTiming.jsx:10-63 | saving the same forms twice equals saving them once |
| EditTiming.DigitsOrder | src/components/FullTimetable/EditTiming.jsx:30 | for digit strings of one length, the string order is the numeric order |
| EditTiming.ClockDigitsOf | src/components/FullTimetable/EditTiming.jsx:26-27 | removing the colon of `HH:MM` leaves four digits worth hours * 100 + minutes |
| EditTiming.SaveComponentClock | src/components/FullTimetable/EditTiming.jsx:23-33 | for time-input values a component is saved exactly when a day is chosen and the start is earlier than the end |
| Venues.NormalizeVenue | scripts/sync_venues.py:34-38 | None exactly for a missing or empty text; otherwise the result's only whitespace is the plain space, with none at either edge and no two in a row |
| Venues.NormalizeKeepsWords | scripts/sync_venues.py:38 | the normalised text has the same words as the input |
| Venues.NormalizeIdempotent | scripts/sync_venues.py:34-38 | a non-empty normalised venue normalises to itself |
| Venues.ValidCourses | scripts/sync_venues.py:70-75 | a code is kept exactly when some token of the line has it and does not fully match the venue pattern |
| Venues.AddVenue | scripts/sync_venues.py:82-88 | the codes gain the venue (missing sets start empty); the keys are the old keys plus the codes; nothing else changes |
| Venues.HeaderResets | scripts/sync_venues.py:59-62 | a header line clears the current venue and the queue and assigns nothing |
| Venues.VenueLineAssigns | scripts/sync_venues.py:77-88 | a line with a venue makes the normalised venue current, empties the queue, and gives that venue to every queued code and every code of the line; the keys are the old keys plus those codes, and every set gains exactly that venue when its code is one of them and nothing otherwise |
| Venues.AddVenueTwice | scripts/sync_venues.py:82-88 | adding one venue to two code lists in turn gives it to the codes of either list and changes nothing else |
| Venues.PlainLine | scripts/sync_venues.py:90-97 | on a line without a venue the codes gain a non-empty current venue and nothing else changes, or else they join the queue with nothing assigned |
| Venues.StepKeepsInvariant | scripts/sync_venues.py:77-97 | one line keeps "codes wait only while there is no usable venue" |
| Venues.RunKeepsInvariant | scripts/sync_venues.py:57-97 | a page's lines keep that invariant |
| Venues.StepGrows | scripts/sync_venues.py:77-97 | one line never takes a venue away from a code |
| Venues.RunGrows | scripts/sync_venues.py:57-97 | a page never takes a venue away from a code |
| Venues.NoVenueNoChange | scripts/sync_venues.py:54-97 | on a page where no line has a venue nothing is assigned |
| Venues.RunKeys | scripts/sync_venues.py:70-97 | only codes already present, queued, or on a line without fully matching the venue pattern get venues or join the queue |
| Venues.ParsePagesAppend | scripts/sync_venues.py:48-57 | reading two runs of pages equals reading the first and then the second from its result |
| Venues.SilentPageSkipped | scripts/sync_venues.py:48-55 | the state is reset per page, so a page without a venue line adds nothing: its queued codes are not carried to the next page |
| Venues.ParsePagesGrows | scripts/sync_venues.py:40-103 | reading pages never takes a venue away from a code |
| Venues.UpdatedCourseFields | scripts/sync_venues.py:116-131 | only the lecture hall changes; a course with a code and a non-empty venue set gets its sorted venues joined by ", "; any other course is left alone |
| Venues.UpdateIdempotent | scripts/sync_venues.py:116-131 | merging twice equals merging once |
| Venues.MergeCourse | scripts/sync_venues.py:117-132 | one iteration yields the merged course and reports a change exactly when the course changed |
| Venues.UpdateJson | scripts/sync_venues.py:114-132 | the loop yields every course merged, in order, and counts exactly the courses whose value changed |
| Venues.UpdatedAllPointwise | scripts/sync_venues.py:116-131 | the i-th course of the result is the i-th input course merged |
| Venues.SecondMergeCountsNothing | scripts/sync_venues.py:114-132 | a second run with the same venue data counts no update |
| Venues.SplitVenueText | scripts/sync_venues.py:126 | splitting the ", "-joined text on "," and trimming gives back the venues when none is empty, has a comma, or has edge spaces |
| Venues.SyncedHallsReadBack | scripts/sync_venues.py:125-131 | after the merge, the hall finder reads a course's halls as exactly its "LH" venues, in sorted order |
| StringOrder.SortedElements | src/pages/EmptyLectureHalls.jsx:92-96 | the sorted list of a set is strictly increasing and has exactly the set's elements |
| Text.Split | src/pages/Generator.jsx:89 | `split` gives one piece per separator plus one, none containing it, and joining them back gives the text |
| Text.ParseIntDigits | src/pages/EmptyLectureHalls.jsx:56-58 | `parseInt` of a non-empty digit string is its decimal value |
| Explorer.Filtered | src/pages/CourseExplorer.jsx:15-21 | the whole catalogue for an empty term; otherwise exactly the courses whose lower-cased code contains the lower-cased term |
| Explorer.FilteredKeepsOrder | src/pages/CourseExplorer.jsx:18-20 | the filter keeps catalogue order: it distributes over concatenation, and keeps a single course exactly when it matches |
| Explorer.FilteredCaseInsensitive | src/pages/CourseExplorer.jsx:17-19 | a term and its lower-cased form give the same matches |
| Explorer.Displayed | src/pages/CourseExplorer.jsx:24-29 | the shown courses are the prefix of the matches of length min(page * 24, matches) |
| Explorer.HasMoreIff | src/pages/CourseExplorer.jsx:41 | more remain exactly when page * 24 is below the number of matches; otherwise every match is shown |
| Explorer.SearchChange | src/pages/CourseExplorer.jsx:31-33 | a new term goes back to page 1 |
| Explorer.LoadMore | src/pages/CourseExplorer.jsx:37-39 | the page grows by exactly one and the term is kept |
| Explorer.SearchShowsFirstPage | src/pages/CourseExplorer.jsx:24-33 | after a new search the first 24 matches are shown |
| Explorer.LoadMoreExtends | src/pages/CourseExplorer.jsx:24-39 | loading more keeps the shown prefix and appends the next min(24, remaining) matches; with none remaining nothing changes |

## Left out

- Regular expressions are not modelled. The timing regex of `parse_timings` is a `matcher` parameter, required to return matches of the shape the regex guarantees for ASCII input. A chart line of `parse_pdf` arrives with the venue its pattern found and with its course-code tokens, each flagged when the whole token matches the venue pattern. A venue match is never empty text (`WellFormedLine`), as the venue patterns cannot match it.
- PDF download and text extraction, the file and JSON reads and writes, and the `except` path of `parse_pdf` that returns `{}` are I/O.
- The CSV reading of the catalogue builder is I/O. Its units and email column searches are regex heuristics; they become the `emailIdx` and `unitsIdx` parameters of `SelectTimingTexts`. The slot-letter, instructor and strength columns are left out. `parse_credit_structure` uses floating point and is left out.
- `localStorage` loading and saving, the ICS download through a DOM anchor, the image export (html2canvas), `setTimeout`, `alert`, `window.scrollTo` and all rendering are I/O or foreign libraries. `GenerateIcs` returns the calendar text.
- The clock of the empty-halls page (`Date`, `setInterval`, the time picker) is left out. `CalculateEmptyHalls` takes the day index, hour and minute as parameters.
- The DOM queries of `saveData` become the `EditForm` arguments. The in-place update of `temp` is modelled as building a new schedule entry.
- `scripts/fetch_student_courses.js` (network scraping) and `src/setupProxy.js` are not part of this model. The student database is the `students` map parameter of `AutoFetch`.
- Whitespace is the six ASCII whitespace characters JavaScript's `trim` strips, and case mapping is ASCII only. Python's `strip()` and `split()` also strip the separators U+001C–U+001F; those, and the Unicode whitespace and case tables of both languages, are left out.
- Python's `\d` in the timing regex and `int()` in `fmt_time_code` also accept non-ASCII decimal digits. `ValidClock` admits ASCII digits only, so a clock time written in other digits is not modelled.
- `timing.length === 9` in the hall finder counts UTF-16 code units, while `|t|` counts characters. Likewise JavaScript's `sort()` of the free halls and the `>=` between saved times compare UTF-16 code units, while `StringOrder.Less` compares code points (as Python's `sorted` does in the venue sync); the two orders differ only where a character outside the Basic Multilingual Plane meets one in U+E000–U+FFFF at the same position. Hall names, timing codes and time values are plain ASCII and never hold such characters.
- Selection.AutoFetch: `studentCoursesData[lowerId]` also finds members inherited from `Object.prototype`, such as "constructor". For such an id `foundCourses.join` throws, and the `catch` branch logs "Error: …". The `students` map holds only the database's own ids, so the model reports nothing found for them and does not model the `catch` branch.
- A missing JSON `courseCode` is modelled as the empty string, which is equally falsy.
- `Explorer.Displayed` models the effect that sets the shown courses as a function of the filter and the page. The separate `displayedCourses` state and the `loading` flag are not modelled.
- `EditTiming.SaveData`: a course without a schedule entry makes the JavaScript throw on `temp.tutorial`. The model returns None even when neither component is edited, where the JavaScript would store `undefined` under the code.
- `Venues.NormalizeIdempotent` holds only for a non-empty normalised venue: `normalize_venue("   ")` is `""`, and `normalize_venue("")` is None.
- `Occupancy.QueryTimeOrder` assumes minutes below 60, as `getMinutes()` guarantees.
