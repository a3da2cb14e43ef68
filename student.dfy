/** The Student record: identity given at construction, completed courses and grades filled in by the linker. */
module Students {
  import opened Entities

  class Student {
    const cwid: string
    const name: string
    const major: string
    var coursesCompleted: set<string>
    var grades: map<string, string>

    /** Every completed course has exactly one grade. */
    ghost predicate Valid()
      reads this
    {
      State().Consistent()
    }

    /** The value this object holds. */
    function State(): StudentState
      reads this
    {
      StudentState(name, major, coursesCompleted, grades)
    }

    /** A new student stores its CWID, name and major as given and has completed nothing. */
    constructor (cwid: string, name: string, major: string)
      ensures this.cwid == cwid && this.name == name && this.major == major
      ensures coursesCompleted == {} && grades == map[]
      ensures Valid()
    {
      this.cwid := cwid;
      this.name := name;
      this.major := major;
      coursesCompleted := {};
      grades := map[];
    }

    /** The student's side of one grade record: the course is completed, its grade set or overwritten. */
    method RecordGrade(course: string, grade: string)
      requires Valid()
      modifies this
      ensures Valid()
      ensures coursesCompleted == old(coursesCompleted) + {course}
      ensures grades == old(grades)[course := grade]
      ensures State() == old(State()).Graded(course, grade)
    {
      coursesCompleted := coursesCompleted + {course};
      grades := grades[course := grade];
    }
  }
}
