/**
 * The University: registries of students, instructors and majors keyed by
 * CWID (major name), loaded from four data files, linked by the grade records,
 * and summarised in three tables.
 */
module Universities {
  import opened Wrappers
  import opened Sorting
  import opened Helpers
  import opened Entities
  import opened Linker
  import opened Students
  import opened Instructors
  import opened Majors

  /** How a data file is read: its field separator and whether its first line is a header. */
  datatype FileFormat = FileFormat(sep: char, header: bool)

  const StudentsFormat := FileFormat(';', true)
  const InstructorsFormat := FileFormat('|', false)
  const GradesFormat := FileFormat('|', true)
  const MajorsFormat := FileFormat('\t', true)

  datatype DataFile = StudentsFile | InstructorsFile | GradesFile | MajorsFile

  /** Why loading or summarising stops. */
  datatype UniError =
    | InvalidData(file: DataFile, cause: ReadError)  // the reader's error, re-raised as "Invalid data in <file>"
    | Malformed(cause: ReadError)                     // the reader's error, passed on unchanged
    | Unlinked(missing: LinkError)                   // a grade record names a student or instructor not loaded
    | UnknownMajor(major: string, cwid: string)       // a student's major is not in the majors registry

  /** A reader error of `file`, re-raised under the file's name. */
  function InvalidIn(file: DataFile, e: Option<ReadError>): Option<UniError>
  {
    if e.Some? then Some(InvalidData(file, e.value)) else None
  }

  /** The values held by a map of Student objects. */
  ghost function StudentStates(m: map<string, Student>): map<string, StudentState>
    reads m.Values
  {
    map k | k in m :: m[k].State()
  }

  /** The values held by a map of Instructor objects. */
  ghost function InstructorStates(m: map<string, Instructor>): map<string, InstructorState>
    reads m.Values
  {
    map k | k in m :: m[k].State()
  }

  /** No object is stored under two keys. */
  ghost predicate Injective<T>(m: map<string, T>)
  {
    forall k, k' :: k in m && k' in m && m[k] == m[k'] ==> k == k'
  }

  ghost predicate StudentsValid(m: map<string, Student>)
    reads m.Values
  {
    Injective(m) && forall k :: k in m ==> m[k].cwid == k && m[k].Valid()
  }

  ghost predicate InstructorsValid(m: map<string, Instructor>)
    reads m.Values
  {
    Injective(m) && forall k :: k in m ==> m[k].cwid == k && m[k].Valid()
  }

  lemma StudentsValidUpdate(m: map<string, Student>, s: Student)
    requires StudentsValid(m) && s.Valid() && s !in m.Values
    ensures StudentsValid(m[s.cwid := s])
  {
  }

  lemma InstructorsValidUpdate(m: map<string, Instructor>, t: Instructor)
    requires InstructorsValid(m) && t.Valid() && t !in m.Values
    ensures InstructorsValid(m[t.cwid := t])
  {
  }

  /** The values held by a map of objects none of which changed. */
  twostate lemma StudentStatesFrame(m: map<string, Student>)
    requires unchanged(m.Values)
    ensures StudentStates(m) == old(StudentStates(m))
  {
  }

  twostate lemma InstructorStatesFrame(m: map<string, Instructor>)
    requires unchanged(m.Values)
    ensures InstructorStates(m) == old(InstructorStates(m))
  {
  }

  twostate lemma StudentsValidFrame(m: map<string, Student>)
    requires unchanged(m.Values) && old(StudentsValid(m))
    ensures StudentsValid(m)
  {
  }

  twostate lemma InstructorsValidFrame(m: map<string, Instructor>)
    requires unchanged(m.Values) && old(InstructorsValid(m))
    ensures InstructorsValid(m)
  {
  }

  lemma StudentStatesUpdate(m: map<string, Student>, k: string, s: Student)
    ensures StudentStates(m[k := s]) == StudentStates(m)[k := s.State()]
  {
  }

  lemma InstructorStatesUpdate(m: map<string, Instructor>, k: string, t: Instructor)
    ensures InstructorStates(m[k := t]) == InstructorStates(m)[k := t.State()]
  {
  }

  /** The values held by a map of Major objects. */
  ghost function Offerings(m: map<string, Major>): map<string, Courses>
    reads m.Values
  {
    map k | k in m :: m[k].Offering()
  }

  twostate lemma OfferingsFrame(m: map<string, Major>)
    requires unchanged(m.Values)
    ensures Offerings(m) == old(Offerings(m))
  {
  }

  lemma OfferingsUpdate(m: map<string, Major>, k: string, j: Major)
    ensures Offerings(m[k := j]) == Offerings(m)[k := j.Offering()]
  {
  }

  /** A row of the student summary: remaining courses are listed sorted, or None when there are none. */
  datatype StudentRow = StudentRow(
    cwid: string, name: string, major: string, completed: seq<string>,
    remainingRequired: Option<seq<string>>, remainingElectives: Option<seq<string>>)

  /** A row of the instructor summary: one course an instructor taught and how many records counted it. */
  datatype InstructorRow = InstructorRow(cwid: string, name: string, department: string, course: string, students: nat)

  /** A row of the majors summary. */
  datatype MajorRow = MajorRow(major: string, required: seq<string>, electives: seq<string>)

  /** `o` lists the set `s` sorted, and is None exactly when `s` is empty. */
  ghost predicate ListedOrNone(o: Option<seq<string>>, s: set<string>)
  {
    if s == {} then o == None else o.Some? && SortedListOf(o.value, s)
  }

  /** `row` describes the student in the student summary, against the student's major. */
  ghost predicate DescribesStudent(row: StudentRow, s: Student, m: Major)
    reads s, m
  {
    && row.cwid == s.cwid && row.name == s.name && row.major == s.major
    && SortedListOf(row.completed, s.coursesCompleted)
    && ListedOrNone(row.remainingRequired, m.RemainingRequired(s))
    && ListedOrNone(row.remainingElectives, m.RemainingElectives(s))
  }

  /** `row` describes one course the instructor taught, with its positive count. */
  ghost predicate DescribesCourse(row: InstructorRow, t: Instructor)
    reads t
  {
    && row.cwid == t.cwid && row.name == t.name && row.department == t.department
    && row.course in t.coursesTaught && row.students == t.Count(row.course) && row.students > 0
  }

  /** The summary row of one student whose major is `m`. */
  method StudentSummary(s: Student, m: Major) returns (row: StudentRow)
    ensures DescribesStudent(row, s, m)
  {
    var completed := SortedList(s.coursesCompleted);
    var required := SortedList(m.RemainingRequired(s));
    var electives := SortedList(m.RemainingElectives(s));
    row := StudentRow(s.cwid, s.name, s.major, completed,
                      if |required| == 0 then None else Some(required),
                      if |electives| == 0 then None else Some(electives));
  }

  /** The CWIDs the student rows are about. */
  ghost function StudentsListed(rows: seq<StudentRow>): set<string>
  {
    set r | r in rows :: r.cwid
  }

  /** The (CWID, course) pairs the instructor rows are about. */
  ghost function CoursesListed(rows: seq<InstructorRow>): set<(string, string)>
  {
    set r | r in rows :: (r.cwid, r.course)
  }

  /** The majors the major rows are about. */
  ghost function MajorsListed(rows: seq<MajorRow>): set<string>
  {
    set r | r in rows :: r.major
  }

  /** The (CWID, course) pairs of one instructor. */
  ghost function Teaching(t: Instructor): set<(string, string)>
    reads t
  {
    set c | c in t.coursesTaught :: (t.cwid, c)
  }

  /** One summary row per course the instructor taught, in no particular order. */
  method CourseRows(t: Instructor) returns (rows: seq<InstructorRow>)
    requires t.Valid()
    ensures forall i :: 0 <= i < |rows| ==> DescribesCourse(rows[i], t)
    ensures forall i, j :: 0 <= i < j < |rows| ==> rows[i].course != rows[j].course
    ensures CoursesListed(rows) == Teaching(t)
  {
    rows := [];
    var todo := t.coursesTaught;
    while todo != {}
      invariant todo <= t.coursesTaught
      invariant forall i :: 0 <= i < |rows| ==> DescribesCourse(rows[i], t) && rows[i].course !in todo
      invariant forall i, j :: 0 <= i < j < |rows| ==> rows[i].course != rows[j].course
      invariant CoursesListed(rows) == set c | c in t.coursesTaught && c !in todo :: (t.cwid, c)
      decreases |todo|
    {
      var course :| course in todo;
      var row := InstructorRow(t.cwid, t.name, t.department, course, t.Count(course));
      ghost var prev := rows;
      rows := rows + [row];
      assert CoursesListed(rows) == CoursesListed(prev) + {(t.cwid, course)};
      todo := todo - {course};
    }
  }

  class University {
    var students: map<string, Student>
    var instructors: map<string, Instructor>
    var majors: map<string, Major>

    /**
     * Each record is stored under its own CWID, keeps its own invariant, and
     * no object is stored under two keys.
     */
    ghost predicate Valid()
      reads this, students.Values, instructors.Values
    {
      StudentsValid(students) && InstructorsValid(instructors) && Injective(majors)
    }

    /** The values the student and instructor registries hold. */
    ghost function Snapshot(): Registry
      reads this, students.Values, instructors.Values
    {
      Registry(StudentStates(students), InstructorStates(instructors))
    }

    /** The values the majors registry holds. */
    ghost function Catalog(): map<string, Courses>
      reads this, majors.Values
    {
      Offerings(majors)
    }

    /** All three registries start empty. */
    constructor ()
      ensures students == map[] && instructors == map[] && majors == map[]
      ensures Valid()
    {
      students := map[];
      instructors := map[];
      majors := map[];
    }

    /** Stores a new student under its CWID, replacing any student stored there. */
    method Enrol(cwid: string, name: string, major: string)
      requires StudentsValid(students)
      modifies this
      ensures StudentsValid(students)
      ensures instructors == old(instructors) && majors == old(majors)
      ensures StudentStates(students) == old(StudentStates(students))[cwid := StudentState(name, major, {}, map[])]
      ensures fresh(students.Values - old(students.Values))
    {
      ghost var m0 := students;
      var student := new Student(cwid, name, major);
      StudentsValidUpdate(students, student);
      students := students[cwid := student];
      StudentStatesFrame(m0);
      StudentStatesUpdate(m0, cwid, student);
    }

    /** Stores a new instructor under its CWID, replacing any instructor stored there. */
    method Appoint(cwid: string, name: string, department: string)
      requires InstructorsValid(instructors)
      modifies this
      ensures InstructorsValid(instructors)
      ensures students == old(students) && majors == old(majors)
      ensures InstructorStates(instructors) == old(InstructorStates(instructors))[cwid := InstructorState(name, department, {}, map[])]
      ensures fresh(instructors.Values - old(instructors.Values))
    {
      ghost var m0 := instructors;
      var instructor := new Instructor(cwid, name, department);
      InstructorsValidUpdate(instructors, instructor);
      instructors := instructors[cwid := instructor];
      InstructorStatesFrame(m0);
      InstructorStatesUpdate(m0, cwid, instructor);
    }

    /** Stores one new student per `(cwid, name, major)` row, in order. */
    method AddStudents(rows: seq<seq<string>>)
      requires StudentsValid(students)
      requires forall j :: 0 <= j < |rows| ==> |rows[j]| == 3
      modifies this
      ensures StudentsValid(students)
      ensures instructors == old(instructors) && majors == old(majors)
      ensures StudentStates(students) == Upsert(old(StudentStates(students)), StudentEntries(rows))
      ensures fresh(students.Values - old(students.Values))
    {
      ghost var es := StudentEntries(rows);
      ghost var start := old(StudentStates(students));
      var i := 0;
      while i < |rows|
        invariant 0 <= i <= |rows|
        invariant StudentsValid(students)
        invariant instructors == old(instructors) && majors == old(majors)
        invariant StudentStates(students) == Upsert(start, es[..i])
        invariant fresh(students.Values - old(students.Values))
      {
        var cwid, name, major := rows[i][0], rows[i][1], rows[i][2];
        ghost var before := StudentStates(students);
        Enrol(cwid, name, major);
        UpsertStep(start, es, i, before, StudentStates(students));
        i := i + 1;
      }
      assert es[..i] == es;
    }

    /** Stores one new instructor per `(cwid, name, department)` row, in order. */
    method AddInstructors(rows: seq<seq<string>>)
      requires InstructorsValid(instructors)
      requires forall j :: 0 <= j < |rows| ==> |rows[j]| == 3
      modifies this
      ensures InstructorsValid(instructors)
      ensures students == old(students) && majors == old(majors)
      ensures InstructorStates(instructors) == Upsert(old(InstructorStates(instructors)), InstructorEntries(rows))
      ensures fresh(instructors.Values - old(instructors.Values))
    {
      ghost var es := InstructorEntries(rows);
      ghost var start := old(InstructorStates(instructors));
      var i := 0;
      while i < |rows|
        invariant 0 <= i <= |rows|
        invariant InstructorsValid(instructors)
        invariant students == old(students) && majors == old(majors)
        invariant InstructorStates(instructors) == Upsert(start, es[..i])
        invariant fresh(instructors.Values - old(instructors.Values))
      {
        var cwid, name, dept := rows[i][0], rows[i][1], rows[i][2];
        ghost var before := InstructorStates(instructors);
        Appoint(cwid, name, dept);
        UpsertStep(start, es, i, before, InstructorStates(instructors));
        i := i + 1;
      }
      assert es[..i] == es;
    }

    /**
     * The loop of `get_students`: one student per row, a later row replacing an
     * earlier one with the same CWID; a malformed line stops it after the rows
     * before it, with the reader's error.
     */
    method ReadStudents(lines: seq<string>, fmt: FileFormat) returns (err: Option<ReadError>)
      requires Valid() && FileLines(lines)
      modifies this
      ensures Valid()
      ensures instructors == old(instructors) && majors == old(majors)
      ensures fresh(students.Values - old(students.Values))
      ensures var y := Parse(lines, 3, fmt.sep, fmt.header);
        && Snapshot() == Registry(Upsert(old(Snapshot()).students, StudentEntries(y.rows)), old(Snapshot()).instructors)
        && err == y.error
    {
      var rows, e := FileReadingGen(lines, 3, fmt.sep, fmt.header);
      AddStudents(rows);
      InstructorStatesFrame(instructors);
      InstructorsValidFrame(instructors);
      err := e;
    }

    /** Loads the students file as `ReadStudents` does, a reader error re-raised as invalid data in that file. */
    method GetStudents(lines: seq<string>, fmt: FileFormat) returns (err: Option<UniError>)
      requires Valid() && FileLines(lines)
      modifies this
      ensures Valid()
      ensures instructors == old(instructors) && majors == old(majors)
      ensures fresh(students.Values - old(students.Values))
      ensures var y := Parse(lines, 3, fmt.sep, fmt.header);
        && Snapshot() == Registry(Upsert(old(Snapshot()).students, StudentEntries(y.rows)), old(Snapshot()).instructors)
        && err == InvalidIn(StudentsFile, y.error)
    {
      var e := ReadStudents(lines, fmt);
      err := InvalidIn(StudentsFile, e);
    }

    /**
     * The loop of `get_instructors`: one instructor per row, a later row
     * replacing an earlier one with the same CWID; a malformed line stops it
     * after the rows before it, with the reader's error.
     */
    method ReadInstructors(lines: seq<string>, fmt: FileFormat) returns (err: Option<ReadError>)
      requires Valid() && FileLines(lines)
      modifies this
      ensures Valid()
      ensures students == old(students) && majors == old(majors)
      ensures fresh(instructors.Values - old(instructors.Values))
      ensures var y := Parse(lines, 3, fmt.sep, fmt.header);
        && Snapshot() == Registry(old(Snapshot()).students, Upsert(old(Snapshot()).instructors, InstructorEntries(y.rows)))
        && err == y.error
    {
      var rows, e := FileReadingGen(lines, 3, fmt.sep, fmt.header);
      AddInstructors(rows);
      StudentStatesFrame(students);
      StudentsValidFrame(students);
      err := e;
    }

    /** Loads the instructors file as `ReadInstructors` does, a reader error re-raised as invalid data in that file. */
    method GetInstructors(lines: seq<string>, fmt: FileFormat) returns (err: Option<UniError>)
      requires Valid() && FileLines(lines)
      modifies this
      ensures Valid()
      ensures students == old(students) && majors == old(majors)
      ensures fresh(instructors.Values - old(instructors.Values))
      ensures var y := Parse(lines, 3, fmt.sep, fmt.header);
        && Snapshot() == Registry(old(Snapshot()).students, Upsert(old(Snapshot()).instructors, InstructorEntries(y.rows)))
        && err == InvalidIn(InstructorsFile, y.error)
    {
      var e := ReadInstructors(lines, fmt);
      err := InvalidIn(InstructorsFile, e);
    }

    /** Only the student under `k` changed: the held values change at `k` alone. */
    twostate lemma StudentChanged(k: string)
      requires unchanged(this) && k in students && Injective(students)
      requires unchanged(students.Values - {students[k]})
      ensures StudentStates(students) == old(StudentStates(students))[k := students[k].State()]
    {
    }

    /** Only the student under `k` changed, and it kept its invariant. */
    twostate lemma StudentStillValid(k: string)
      requires unchanged(this) && k in students && old(StudentsValid(students)) && students[k].Valid()
      requires unchanged(students.Values - {students[k]})
      ensures StudentsValid(students)
    {
    }

    /** Only the instructor under `k` changed: the held values change at `k` alone. */
    twostate lemma InstructorChanged(k: string)
      requires unchanged(this) && k in instructors && Injective(instructors)
      requires unchanged(instructors.Values - {instructors[k]})
      ensures InstructorStates(instructors) == old(InstructorStates(instructors))[k := instructors[k].State()]
    {
    }

    /** Only the instructor under `k` changed, and it kept its invariant. */
    twostate lemma InstructorStillValid(k: string)
      requires unchanged(this) && k in instructors && old(InstructorsValid(instructors)) && instructors[k].Valid()
      requires unchanged(instructors.Values - {instructors[k]})
      ensures InstructorsValid(instructors)
    {
    }

    /** Only the major under `k` changed: the offerings change at `k` alone. */
    twostate lemma MajorChanged(k: string)
      requires unchanged(this) && k in majors && Injective(majors)
      requires unchanged(majors.Values - {majors[k]})
      ensures Offerings(majors) == old(Offerings(majors))[k := majors[k].Offering()]
    {
    }

    /**
     * One grade record whose student and instructor are both registered: the
     * student completes the course with the grade, the instructor counts it.
     */
    method Credit(studentId: string, courseCode: string, grade: string, instructorId: string)
      requires Valid() && studentId in students && instructorId in instructors
      modifies students[studentId], instructors[instructorId]
      ensures Valid()
      ensures Link(old(Snapshot()), Grade(studentId, courseCode, grade, instructorId)) == Success(Snapshot())
    {
      var student := students[studentId];
      var instructor := instructors[instructorId];
      student.RecordGrade(courseCode, grade);
      instructor.CountStudent(courseCode);
      StudentChanged(studentId);
      InstructorChanged(instructorId);
      StudentStillValid(studentId);
      InstructorStillValid(instructorId);
    }

    /**
     * Applies the `(student, course, grade, instructor)` rows in order, each one
     * completing the course for the student and counting it for the instructor;
     * a row naming an unregistered student (checked first) or instructor stops
     * the run with that error.
     */
    method ApplyGrades(rows: seq<seq<string>>) returns (err: Option<LinkError>)
      requires Valid()
      requires forall j :: 0 <= j < |rows| ==> |rows[j]| == 4
      modifies students.Values, instructors.Values
      ensures Valid()
      ensures var o := LinkAll(old(Snapshot()), Grades(rows));
        Snapshot() == o.registry && err == o.error
    {
      ghost var gs := Grades(rows);
      ghost var start := old(Snapshot());
      var i := 0;
      assert gs[..0] == [];
      while i < |rows|
        invariant 0 <= i <= |rows|
        invariant Valid()
        invariant LinkAll(start, gs[..i]) == Outcome(Snapshot(), i, None)
      {
        var studentId, courseCode, grade, instructorId := rows[i][0], rows[i][1], rows[i][2], rows[i][3];
        ghost var reg := Snapshot();
        assert gs[i] == Grade(studentId, courseCode, grade, instructorId);
        if studentId !in students {
          assert Link(reg, gs[i]) == Failure(UnknownStudent(studentId));
          LinkAllFails(start, gs, i);
          return Some(UnknownStudent(studentId));
        }
        if instructorId !in instructors {
          assert Link(reg, gs[i]) == Failure(UnknownInstructor(instructorId));
          LinkAllFails(start, gs, i);
          return Some(UnknownInstructor(instructorId));
        }
        Credit(studentId, courseCode, grade, instructorId);
        LinkAllNext(start, gs, i);
        i := i + 1;
      }
      assert gs[..i] == gs;
      err := None;
    }

    /**
     * Reads the grades file and applies its records. An unregistered student or
     * instructor stops the run with that error, not renamed; a malformed line
     * stops it, after the records before it, with the reader's error re-raised
     * as invalid data in the grades file.
     */
    method UpdateCourseInfo(lines: seq<string>, fmt: FileFormat) returns (err: Option<UniError>)
      requires Valid() && FileLines(lines)
      modifies students.Values, instructors.Values
      ensures Valid()
      ensures var y := Parse(lines, 4, fmt.sep, fmt.header);
        var o := LinkAll(old(Snapshot()), Grades(y.rows));
        && Snapshot() == o.registry
        && err == if o.error.Some? then Some(Unlinked(o.error.value)) else InvalidIn(GradesFile, y.error)
    {
      var rows, e := FileReadingGen(lines, 4, fmt.sep, fmt.header);
      var missing := ApplyGrades(rows);
      if missing.Some? {
        err := Some(Unlinked(missing.value));
      } else {
        err := InvalidIn(GradesFile, e);
      }
    }

    /**
     * The lookup `majors[name]` on the default dictionary of majors: a major
     * not registered yet is created with no courses and registered first.
     */
    method MajorFor(name: string) returns (major: Major)
      requires Injective(majors)
      modifies this
      ensures Injective(majors)
      ensures students == old(students) && instructors == old(instructors)
      ensures name in majors && majors[name] == major
      ensures name in old(majors) ==> majors == old(majors)
      ensures name !in old(majors) ==> fresh(major) && majors == old(majors)[name := major]
      ensures Offerings(majors) ==
        old(Offerings(majors))[name := if name in old(majors) then old(Offerings(majors))[name] else Courses({}, {})]
    {
      if name !in majors {
        ghost var m0 := majors;
        major := new Major();
        majors := majors[name := major];
        OfferingsFrame(m0);
        OfferingsUpdate(m0, name, major);
      } else {
        major := majors[name];
      }
    }

    /** Adds one course to the major named `name`, creating that major first when it is new. */
    method AddRow(name: string, flag: string, course: string)
      requires Injective(majors)
      modifies this, majors.Values
      ensures Injective(majors)
      ensures students == old(students) && instructors == old(instructors)
      ensures forall k :: k in majors ==> majors[k] in old(majors.Values) || fresh(majors[k])
      ensures var before := old(Offerings(majors));
        Offerings(majors) ==
          before[name := AddCourse(if name in before then before[name] else Courses({}, {}), flag, course)]
    {
      ghost var before := Offerings(majors);
      var major := MajorFor(name);
      label Found:
      ghost var found := Offerings(majors);
      major.Add(flag, course);
      MajorChanged@Found(name);
      ghost var added := AddCourse(found[name], flag, course);
      assert Offerings(majors) == found[name := added];
      assert before[name := found[name]][name := added] == before[name := added];
    }

    /** Adds each `(major, flag, course)` row's course to its major by the flag rule, in order. */
    method AddCourses(rows: seq<seq<string>>)
      requires Injective(majors)
      requires forall j :: 0 <= j < |rows| ==> |rows[j]| == 3
      modifies this, majors.Values
      ensures Injective(majors)
      ensures students == old(students) && instructors == old(instructors)
      ensures Offerings(majors) == Catalogue(old(Offerings(majors)), rows)
    {
      ghost var start := old(Offerings(majors));
      var i := 0;
      assert rows[..0] == [];
      while i < |rows|
        invariant 0 <= i <= |rows|
        invariant Injective(majors)
        invariant students == old(students) && instructors == old(instructors)
        invariant forall k :: k in majors ==> majors[k] in old(majors.Values) || fresh(majors[k])
        invariant Offerings(majors) == Catalogue(start, rows[..i])
      {
        AddRow(rows[i][0], rows[i][1], rows[i][2]);
        CatalogueStep(start, rows, i);
        i := i + 1;
      }
      assert rows[..i] == rows;
    }

    /**
     * Loads the majors file: each row adds its course to its major, creating
     * the major on first mention; a malformed line stops the load, after the
     * rows before it, with the reader's error re-raised as invalid data in the
     * majors file.
     */
    method GetMajors(lines: seq<string>, fmt: FileFormat) returns (err: Option<UniError>)
      requires Valid() && FileLines(lines)
      modifies this, majors.Values
      ensures Valid()
      ensures students == old(students) && instructors == old(instructors)
      ensures Snapshot() == old(Snapshot())
      ensures var y := Parse(lines, 3, fmt.sep, fmt.header);
        && Catalog() == Catalogue(old(Catalog()), y.rows)
        && err == InvalidIn(MajorsFile, y.error)
    {
      var rows, e := FileReadingGen(lines, 3, fmt.sep, fmt.header);
      AddCourses(rows);
      StudentStatesFrame(students);
      InstructorStatesFrame(instructors);
      StudentsValidFrame(students);
      InstructorsValidFrame(instructors);
      err := InvalidIn(MajorsFile, e);
    }
  }

  /** `row` is the summary row of a registered student whose major is registered. */
  ghost predicate SummarisesStudent(row: StudentRow, students: map<string, Student>, majors: map<string, Major>)
    reads students.Values, majors.Values
  {
    && row.cwid in students && students[row.cwid].major in majors
    && DescribesStudent(row, students[row.cwid], majors[students[row.cwid].major])
  }

  /** `row` describes the major `name`, its courses sorted. */
  ghost predicate DescribesMajor(row: MajorRow, name: string, m: Major)
    reads m
  {
    row.major == name && SortedListOf(row.required, m.requiredCourses) && SortedListOf(row.electives, m.electiveCourses)
  }

  /** The (CWID, course) pairs of all instructors. */
  ghost function Taught(instructors: map<string, Instructor>): set<(string, string)>
    reads instructors.Values
  {
    set k, c | k in instructors && c in instructors[k].coursesTaught :: (k, c)
  }

  /** The student rows so far: one per student outside `todo`, each with a registered major. */
  ghost predicate StudentRowsSoFar(rows: seq<StudentRow>, todo: set<string>, students: map<string, Student>, majors: map<string, Major>)
    reads students.Values, majors.Values
  {
    && todo <= students.Keys
    && (forall k :: k in students && k !in todo ==> students[k].major in majors)
    && (forall i :: 0 <= i < |rows| ==> SummarisesStudent(rows[i], students, majors))
    && (forall i, j :: 0 <= i < j < |rows| ==> rows[i].cwid != rows[j].cwid)
    && StudentsListed(rows) == students.Keys - todo
  }

  lemma StudentRowsStep(rows: seq<StudentRow>, todo: set<string>, row: StudentRow, students: map<string, Student>, majors: map<string, Major>)
    requires StudentRowsSoFar(rows, todo, students, majors)
    requires row.cwid in todo && SummarisesStudent(row, students, majors)
    ensures StudentRowsSoFar(rows + [row], todo - {row.cwid}, students, majors)
  {
    var next := rows + [row];
    assert StudentsListed(next) == StudentsListed(rows) + {row.cwid};
    forall i | 0 <= i < |next|
      ensures SummarisesStudent(next[i], students, majors)
    {
      if i < |rows| {
        assert next[i] == rows[i];
      }
    }
    forall i, j | 0 <= i < j < |next|
      ensures next[i].cwid != next[j].cwid
    {
      if j < |rows| {
        assert next[i] == rows[i] && next[j] == rows[j];
      } else {
        assert next[i] == rows[i] && rows[i].cwid in StudentsListed(rows);
      }
    }
  }

  /**
   * The rows of the student summary. A student whose major is not in the
   * majors registry stops it with that error; otherwise there is exactly
   * one row per student, describing it against its major.
   */
  method StudentRows(students: map<string, Student>, majors: map<string, Major>)
    returns (rows: seq<StudentRow>, err: Option<UniError>)
    requires StudentsValid(students)
    ensures err.None? <==> forall k :: k in students ==> students[k].major in majors
    ensures err.Some? ==>
      exists k :: k in students && students[k].major !in majors && err.value == UnknownMajor(students[k].major, k)
    ensures err.None? ==>
      && (forall i :: 0 <= i < |rows| ==> SummarisesStudent(rows[i], students, majors))
      && (forall i, j :: 0 <= i < j < |rows| ==> rows[i].cwid != rows[j].cwid)
      && StudentsListed(rows) == students.Keys
  {
    rows := [];
    var todo := students.Keys;
    while todo != {}
      invariant StudentRowsSoFar(rows, todo, students, majors)
      decreases |todo|
    {
      var key :| key in todo;
      var student := students[key];
      if student.major !in majors {
        return rows, Some(UnknownMajor(student.major, student.cwid));
      }
      var row := StudentSummary(student, majors[student.major]);
      assert row.cwid == key;
      StudentRowsStep(rows, todo, row, students, majors);
      rows := rows + [row];
      todo := todo - {key};
    }
    err := None;
  }

  /** The instructor rows so far: one per course of each instructor outside `todo`. */
  ghost predicate InstructorRowsSoFar(rows: seq<InstructorRow>, todo: set<string>, instructors: map<string, Instructor>)
    reads instructors.Values
  {
    && todo <= instructors.Keys
    && (forall i :: 0 <= i < |rows| ==>
          rows[i].cwid in instructors && rows[i].cwid !in todo && DescribesCourse(rows[i], instructors[rows[i].cwid]))
    && (forall i, j :: 0 <= i < j < |rows| ==> rows[i].cwid != rows[j].cwid || rows[i].course != rows[j].course)
    && CoursesListed(rows) == set k, c | k in instructors && k !in todo && c in instructors[k].coursesTaught :: (k, c)
  }

  lemma InstructorRowsStep(rows: seq<InstructorRow>, todo: set<string>, key: string, courses: seq<InstructorRow>, instructors: map<string, Instructor>)
    requires InstructorsValid(instructors) && InstructorRowsSoFar(rows, todo, instructors) && key in todo
    requires forall i :: 0 <= i < |courses| ==> DescribesCourse(courses[i], instructors[key])
    requires forall i, j :: 0 <= i < j < |courses| ==> courses[i].course != courses[j].course
    requires CoursesListed(courses) == Teaching(instructors[key])
    ensures InstructorRowsSoFar(rows + courses, todo - {key}, instructors)
  {
    var next := rows + courses;
    assert CoursesListed(next) == CoursesListed(rows) + CoursesListed(courses);
    forall i | 0 <= i < |next|
      ensures next[i].cwid in instructors && next[i].cwid !in todo - {key}
      ensures DescribesCourse(next[i], instructors[next[i].cwid])
    {
      if i < |rows| {
        assert next[i] == rows[i];
      } else {
        assert next[i] == courses[i - |rows|];
      }
    }
    forall i, j | 0 <= i < j < |next|
      ensures next[i].cwid != next[j].cwid || next[i].course != next[j].course
    {
      if j < |rows| {
        assert next[i] == rows[i] && next[j] == rows[j];
      } else if i < |rows| {
        assert next[i] == rows[i] && next[j] == courses[j - |rows|];
      } else {
        assert next[i] == courses[i - |rows|] && next[j] == courses[j - |rows|];
      }
    }
  }

  /** The rows of the instructor summary: exactly one per instructor and course taught. */
  method InstructorRows(instructors: map<string, Instructor>) returns (rows: seq<InstructorRow>)
    requires InstructorsValid(instructors)
    ensures forall i :: 0 <= i < |rows| ==>
      rows[i].cwid in instructors && DescribesCourse(rows[i], instructors[rows[i].cwid])
    ensures forall i, j :: 0 <= i < j < |rows| ==> rows[i].cwid != rows[j].cwid || rows[i].course != rows[j].course
    ensures CoursesListed(rows) == Taught(instructors)
  {
    rows := [];
    var todo := instructors.Keys;
    while todo != {}
      invariant InstructorRowsSoFar(rows, todo, instructors)
      decreases |todo|
    {
      var key :| key in todo;
      var courses := CourseRows(instructors[key]);
      InstructorRowsStep(rows, todo, key, courses, instructors);
      rows := rows + courses;
      todo := todo - {key};
    }
  }

  /** The major rows so far: one per major outside `todo`. */
  ghost predicate MajorRowsSoFar(rows: seq<MajorRow>, todo: set<string>, majors: map<string, Major>)
    reads majors.Values
  {
    && todo <= majors.Keys
    && (forall i :: 0 <= i < |rows| ==> rows[i].major in majors && DescribesMajor(rows[i], rows[i].major, majors[rows[i].major]))
    && (forall i, j :: 0 <= i < j < |rows| ==> rows[i].major != rows[j].major)
    && MajorsListed(rows) == majors.Keys - todo
  }

  lemma MajorRowsStep(rows: seq<MajorRow>, todo: set<string>, row: MajorRow, majors: map<string, Major>)
    requires MajorRowsSoFar(rows, todo, majors)
    requires row.major in todo && DescribesMajor(row, row.major, majors[row.major])
    ensures MajorRowsSoFar(rows + [row], todo - {row.major}, majors)
  {
    var next := rows + [row];
    assert MajorsListed(next) == MajorsListed(rows) + {row.major};
    forall i | 0 <= i < |next|
      ensures next[i].major in majors && DescribesMajor(next[i], next[i].major, majors[next[i].major])
    {
      if i < |rows| {
        assert next[i] == rows[i];
      }
    }
    forall i, j | 0 <= i < j < |next|
      ensures next[i].major != next[j].major
    {
      if j < |rows| {
        assert next[i] == rows[i] && next[j] == rows[j];
      } else {
        assert next[i] == rows[i] && rows[i].major in MajorsListed(rows);
      }
    }
  }

  /** The rows of the majors summary: exactly one per registered major, its courses sorted. */
  method MajorRows(majors: map<string, Major>) returns (rows: seq<MajorRow>)
    ensures forall i :: 0 <= i < |rows| ==> rows[i].major in majors && DescribesMajor(rows[i], rows[i].major, majors[rows[i].major])
    ensures forall i, j :: 0 <= i < j < |rows| ==> rows[i].major != rows[j].major
    ensures MajorsListed(rows) == majors.Keys
  {
    rows := [];
    var todo := majors.Keys;
    while todo != {}
      invariant MajorRowsSoFar(rows, todo, majors)
      decreases |todo|
    {
      var name :| name in todo;
      var required := SortedList(majors[name].requiredCourses);
      var electives := SortedList(majors[name].electiveCourses);
      var row := MajorRow(name, required, electives);
      MajorRowsStep(rows, todo, row, majors);
      rows := rows + [row];
      todo := todo - {name};
    }
  }
}
