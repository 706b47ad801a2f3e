/** The records the auto-allocator and the timetable generator work on: the
    rows of the faculty, courses, classes, allocations and timetable tables.
    Ids are the tables' non-negative integer keys. */
module Entities {
  import opened Wrappers

  type Id = nat

  datatype Role = FacultyRole | AdminRole

  datatype Status = Pending | Approved | Rejected

  /** A faculty member; `expertise` is a nullable list of skill tags. */
  datatype Faculty = Faculty(id: Id, department_id: Id, role: Role, expertise: Option<seq<string>>)

  /** A course; `required_expertise` is a nullable list of skill tags. */
  datatype Course = Course(id: Id, department_id: Id, semester: int, required_expertise: Option<seq<string>>)

  /** A class (a student section) of one semester of one academic year. */
  datatype Class = Class(id: Id, department_id: Id, semester: int, academic_year: int)

  /** The (academic_year, semester) pair a run of the allocator is for. */
  datatype Term = Term(academic_year: int, semester: int)

  /** An allocation row before the database has given it an id. */
  datatype NewAllocation = NewAllocation(faculty_id: Id, class_id: Id, course_id: Id,
                                         academic_year: int, semester: int, status: Status)

  /** An allocation row as stored, with its id. */
  datatype Allocation = Allocation(id: int, faculty_id: Id, class_id: Id, course_id: Id,
                                   academic_year: int, semester: int, status: Status)

  /** A timetable row produced by the generator. */
  datatype TimetableEntry = TimetableEntry(allocation_id: int, day_of_week: int, time_slot: int,
                                           room_number: string)
}
