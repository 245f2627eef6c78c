/**
 * The course catalogue records (`courses.json`) that every page reads, reduced to
 * the fields the timetable logic uses. A JSON `null` is `None`.
 */
module Catalog {
  import opened Wrappers

  /** The slot block of a course: the slot letter and the three timing-code lists. */
  datatype Slot = Slot(
    name: string,
    lectureTiming: Option<string>,
    tutorialTiming: Option<string>,
    labTiming: Option<string>)

  /**
   * One catalogue course. `creditStructure` is the `L-T-P` text (e.g. "3.0-1.0-0.0")
   * and `lectureHall` a comma-separated list of rooms.
   */
  datatype Course = Course(
    courseCode: string,
    courseName: string,
    creditStructure: string,
    lectureHall: Option<string>,
    slot: Slot)

  /** JavaScript and Python truthiness of a nullable string: present and non-empty. */
  predicate Truthy(s: Option<string>) {
    s.Some? && s.value != ""
  }
}
