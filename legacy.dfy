/**
 * The older, single-file University: three tab-separated files without
 * headers (students, instructors, grades), no majors, and a student summary
 * without remaining courses. A reader error in the students or instructors
 * file is passed on as it is; one in the grades file is re-raised as invalid
 * data in that file.
 */
module Legacy {
  import opened Wrappers
  import opened Sorting
  import opened Helpers
  import opened Entities
  import opened Linker
  import opened Students
  import opened Universities
  import opened Loading

  /** All three files: tab-separated, no header. */
  const LegacyFormat := FileFormat('\t', false)

  /** The tuples and the error of one of the files read with three fields. */
  function LegacyRead(lines: seq<string>): Yield
    requires FileLines(lines)
  {
    Parse(lines, 3, LegacyFormat.sep, LegacyFormat.header)
  }

  /** The tuples and the error of the grades file. */
  function LegacyGradesRead(lines: seq<string>): Yield
    requires FileLines(lines)
  {
    Parse(lines, 4, LegacyFormat.sep, LegacyFormat.header)
  }

  /** `University(path)` of the older variant, phase by phase; no majors are ever loaded. */
  function LegacyLoad(studentLines: seq<string>, instructorLines: seq<string>, gradeLines: seq<string>): (l: Loaded)
    requires FileLines(studentLines) && FileLines(instructorLines) && FileLines(gradeLines)
    ensures l.catalog == map[]
    ensures LegacyRead(studentLines).error.Some? ==> l.error == Some(Malformed(LegacyRead(studentLines).error.value))
    ensures l.error.Some? && l.error.value.InvalidData? ==> l.error.value.file == GradesFile
  {
    var ys := LegacyRead(studentLines);
    if ys.error.Some? then Loaded(Fresh(ys.rows, []), map[], Some(Malformed(ys.error.value)))
    else
      var yi := LegacyRead(instructorLines);
      if yi.error.Some? then Loaded(Fresh(ys.rows, yi.rows), map[], Some(Malformed(yi.error.value)))
      else
        var yg := LegacyGradesRead(gradeLines);
        var o := LinkAll(Fresh(ys.rows, yi.rows), Grades(yg.rows));
        if o.error.Some? then Loaded(o.registry, map[], Some(Unlinked(o.error.value)))
        else Loaded(o.registry, map[], InvalidIn(GradesFile, yg.error))
  }

  /** The older constructor: a University whose objects hold what `LegacyLoad` describes. */
  method LegacyBuild(studentLines: seq<string>, instructorLines: seq<string>, gradeLines: seq<string>)
    returns (u: University, err: Option<UniError>)
    requires FileLines(studentLines) && FileLines(instructorLines) && FileLines(gradeLines)
    ensures fresh(u) && u.Valid() && u.majors == map[]
    ensures Loaded(u.Snapshot(), u.Catalog(), err) == LegacyLoad(studentLines, instructorLines, gradeLines)
  {
    u := new University();
    assert u.Snapshot() == Registry(map[], map[]);
    var e := u.ReadStudents(studentLines, LegacyFormat);
    assert u.majors == map[];
    if e.Some? {
      assert InstructorEntries([]) == [];
      return u, Some(Malformed(e.value));
    }
    e := u.ReadInstructors(instructorLines, LegacyFormat);
    if e.Some? {
      return u, Some(Malformed(e.value));
    }
    assert u.majors == map[];
    err := u.UpdateCourseInfo(gradeLines, LegacyFormat);
  }

  /**
   * The older construction succeeds exactly when all three files read to the
   * end and every grade record names a registered student and a registered
   * instructor; a reader error in the students or instructors file is the
   * reader's own error, unchanged.
   */
  lemma LegacySucceeds(studentLines: seq<string>, instructorLines: seq<string>, gradeLines: seq<string>)
    requires FileLines(studentLines) && FileLines(instructorLines) && FileLines(gradeLines)
    ensures var l := LegacyLoad(studentLines, instructorLines, gradeLines);
      var gs := Grades(LegacyGradesRead(gradeLines).rows);
      && (l.error.None? <==>
            && LegacyRead(studentLines).error.None? && LegacyRead(instructorLines).error.None?
            && LegacyGradesRead(gradeLines).error.None?
            && (forall j :: 0 <= j < |gs| ==> gs[j].student in l.registry.students && gs[j].instructor in l.registry.instructors))
      && (LegacyRead(studentLines).error.Some? ==> l.error == Some(Malformed(LegacyRead(studentLines).error.value)))
  {
    var ys := LegacyRead(studentLines);
    var yi := LegacyRead(instructorLines);
    if ys.error.None? && yi.error.None? {
      var r := Fresh(ys.rows, yi.rows);
      var gs := Grades(LegacyGradesRead(gradeLines).rows);
      LinkAllHalts(r, gs);
      LinkAllKeys(r, gs);
    }
  }

  /** The older construction also keeps every record consistent. */
  lemma LegacyConsistent(studentLines: seq<string>, instructorLines: seq<string>, gradeLines: seq<string>)
    requires FileLines(studentLines) && FileLines(instructorLines) && FileLines(gradeLines)
    ensures AllConsistent(LegacyLoad(studentLines, instructorLines, gradeLines).registry)
  {
    var ys := LegacyRead(studentLines);
    if ys.error.Some? {
      FreshlyLoaded(ys.rows, []);
    } else {
      var yi := LegacyRead(instructorLines);
      FreshlyLoaded(ys.rows, yi.rows);
      LinkAllConsistent(Fresh(ys.rows, yi.rows), Grades(LegacyGradesRead(gradeLines).rows));
    }
  }

  /** A successful older construction leaves what a complete run over the freshly loaded registries leaves. */
  lemma LegacyRegistry(studentLines: seq<string>, instructorLines: seq<string>, gradeLines: seq<string>)
    requires FileLines(studentLines) && FileLines(instructorLines) && FileLines(gradeLines)
    requires LegacyLoad(studentLines, instructorLines, gradeLines).error.None?
    ensures var o := LinkAll(Fresh(LegacyRead(studentLines).rows, LegacyRead(instructorLines).rows), Grades(LegacyGradesRead(gradeLines).rows));
      o.error.None? && LegacyLoad(studentLines, instructorLines, gradeLines).registry == o.registry
  {
  }

  /**
   * After a successful older construction each student has completed exactly
   * the courses of the grade records naming them, with the grade of the last
   * record for each course, and no other grade.
   */
  lemma LegacyStudentGrades(studentLines: seq<string>, instructorLines: seq<string>, gradeLines: seq<string>, cwid: string)
    requires FileLines(studentLines) && FileLines(instructorLines) && FileLines(gradeLines)
    requires LegacyLoad(studentLines, instructorLines, gradeLines).error.None?
    requires cwid in LegacyLoad(studentLines, instructorLines, gradeLines).registry.students
    ensures var s := LegacyLoad(studentLines, instructorLines, gradeLines).registry.students[cwid];
      var gs := Grades(LegacyGradesRead(gradeLines).rows);
      && s.completed == CoursesOf(gs, cwid)
      && (forall c :: c in s.grades <==> LastGrade(gs, cwid, c).Some?)
      && (forall c :: c in s.grades ==> s.grades[c] == LastGrade(gs, cwid, c).value)
  {
    var ys := LegacyRead(studentLines);
    var yi := LegacyRead(instructorLines);
    var gs := Grades(LegacyGradesRead(gradeLines).rows);
    LegacyRegistry(studentLines, instructorLines, gradeLines);
    LinkAllKeys(Fresh(ys.rows, yi.rows), gs);
    FreshStudentGrades(ys.rows, yi.rows, gs, cwid);
  }

  /**
   * After a successful older construction each instructor's count for a course
   * is the number of grade records naming them for it, and the courses taught
   * are those with a record.
   */
  lemma LegacyInstructorCounts(studentLines: seq<string>, instructorLines: seq<string>, gradeLines: seq<string>, cwid: string)
    requires FileLines(studentLines) && FileLines(instructorLines) && FileLines(gradeLines)
    requires LegacyLoad(studentLines, instructorLines, gradeLines).error.None?
    requires cwid in LegacyLoad(studentLines, instructorLines, gradeLines).registry.instructors
    ensures var t := LegacyLoad(studentLines, instructorLines, gradeLines).registry.instructors[cwid];
      var gs := Grades(LegacyGradesRead(gradeLines).rows);
      && (forall c :: t.Count(c) == Tally(gs, cwid)[c])
      && t.taught == set c | c in Tally(gs, cwid)
      && |Tally(gs, cwid)| == |Naming(gs, cwid)|
  {
    var ys := LegacyRead(studentLines);
    var yi := LegacyRead(instructorLines);
    var gs := Grades(LegacyGradesRead(gradeLines).rows);
    LegacyRegistry(studentLines, instructorLines, gradeLines);
    LinkAllKeys(Fresh(ys.rows, yi.rows), gs);
    FreshInstructorTally(ys.rows, yi.rows, gs, cwid);
  }

  /** A row of the older student summary: CWID, name and the completed courses, sorted. */
  datatype LegacyStudentRow = LegacyStudentRow(cwid: string, name: string, completed: seq<string>)

  /** `row` is the older summary row of the student registered under its CWID. */
  ghost predicate ListsStudent(row: LegacyStudentRow, students: map<string, Student>)
    reads students.Values
  {
    && row.cwid in students
    && row.cwid == students[row.cwid].cwid && row.name == students[row.cwid].name
    && SortedListOf(row.completed, students[row.cwid].coursesCompleted)
  }

  /** The CWIDs the older student rows are about. */
  ghost function LegacyListed(rows: seq<LegacyStudentRow>): set<string>
  {
    set r | r in rows :: r.cwid
  }

  /** The older student rows so far: one per student outside `todo`. */
  ghost predicate LegacyRowsSoFar(rows: seq<LegacyStudentRow>, todo: set<string>, students: map<string, Student>)
    reads students.Values
  {
    && todo <= students.Keys
    && (forall i :: 0 <= i < |rows| ==> ListsStudent(rows[i], students))
    && (forall i, j :: 0 <= i < j < |rows| ==> rows[i].cwid != rows[j].cwid)
    && LegacyListed(rows) == students.Keys - todo
  }

  lemma LegacyRowsStep(rows: seq<LegacyStudentRow>, todo: set<string>, row: LegacyStudentRow, students: map<string, Student>)
    requires LegacyRowsSoFar(rows, todo, students)
    requires row.cwid in todo && ListsStudent(row, students)
    ensures LegacyRowsSoFar(rows + [row], todo - {row.cwid}, students)
  {
    var next := rows + [row];
    assert LegacyListed(next) == LegacyListed(rows) + {row.cwid};
    forall i | 0 <= i < |next|
      ensures ListsStudent(next[i], students)
    {
      if i < |rows| {
        assert next[i] == rows[i];
      }
    }
    forall i, j | 0 <= i < j < |next|
      ensures next[i].cwid != next[j].cwid
    {
      if j < |rows| {
        assert next[i] == rows[i] && next[j] == rows[j];
      } else {
        assert next[i] == rows[i] && rows[i].cwid in LegacyListed(rows);
      }
    }
  }

  /** The older student summary: exactly one row per student, with the completed courses sorted. */
  method LegacyStudentRows(students: map<string, Student>) returns (rows: seq<LegacyStudentRow>)
    requires StudentsValid(students)
    ensures forall i :: 0 <= i < |rows| ==> ListsStudent(rows[i], students)
    ensures forall i, j :: 0 <= i < j < |rows| ==> rows[i].cwid != rows[j].cwid
    ensures LegacyListed(rows) == students.Keys
  {
    rows := [];
    var todo := students.Keys;
    while todo != {}
      invariant LegacyRowsSoFar(rows, todo, students)
      decreases |todo|
    {
      var key :| key in todo;
      var student := students[key];
      var completed := SortedList(student.coursesCompleted);
      var row := LegacyStudentRow(student.cwid, student.name, completed);
      assert row.cwid == key;
      LegacyRowsStep(rows, todo, row, students);
      rows := rows + [row];
      todo := todo - {key};
    }
  }
}
