/** The Instructor record: identity given at construction, courses taught and per-course counts filled in by the linker. */
module Instructors {
  import opened Entities

  class Instructor {
    const cwid: string
    const name: string
    const department: string
    var coursesTaught: set<string>
    var studentCount: map<string, nat>

    /** `student_count[course]`: the counter reads 0 for a course not yet counted. */
    function Count(course: string): nat
      reads this
    {
      if course in studentCount then studentCount[course] else 0
    }

    /** The courses taught are exactly the courses with a positive count. */
    ghost predicate Valid()
      reads this
    {
      State().Consistent()
    }

    /** The value this object holds. */
    function State(): InstructorState
      reads this
    {
      InstructorState(name, department, coursesTaught, studentCount)
    }

    /** A new instructor stores its CWID, name and department as given; nothing is taught or counted. */
    constructor (cwid: string, name: string, department: string)
      ensures this.cwid == cwid && this.name == name && this.department == department
      ensures coursesTaught == {} && studentCount == map[]
      ensures forall c :: Count(c) == 0
      ensures Valid()
    {
      this.name := name;
      this.cwid := cwid;
      this.department := department;
      coursesTaught := {};
      studentCount := map[];
    }

    /** The instructor's side of one grade record: the course is taught and counted once more. */
    method CountStudent(course: string)
      requires Valid()
      modifies this
      ensures Valid()
      ensures coursesTaught == old(coursesTaught) + {course}
      ensures Count(course) == old(Count(course)) + 1
      ensures forall c :: c != course ==> Count(c) == old(Count(c))
      ensures State() == old(State()).Counted(course)
    {
      coursesTaught := coursesTaught + {course};
      studentCount := studentCount[course := Count(course) + 1];
    }
  }
}
