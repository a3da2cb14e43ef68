/**
 * Constructing a University: the four data files read in the order of
 * `University.__init__` (students, instructors, grades, majors), first as a
 * function on the files' lines, then as the method that fills the objects.
 */
module Loading {
  import opened Wrappers
  import opened Helpers
  import opened Entities
  import opened Linker
  import opened Majors
  import opened Universities

  /** What loading leaves behind: the registries, the majors, and the error that stopped it, if any. */
  datatype Loaded = Loaded(registry: Registry, catalog: map<string, Courses>, error: Option<UniError>)

  /** The tuples and the error of the students file, `CWID;Name;Major` under a header. */
  function StudentsRead(lines: seq<string>): Yield
    requires FileLines(lines)
  {
    Parse(lines, 3, StudentsFormat.sep, StudentsFormat.header)
  }

  /** The tuples and the error of the instructors file, `CWID|Name|Dept` without a header. */
  function InstructorsRead(lines: seq<string>): Yield
    requires FileLines(lines)
  {
    Parse(lines, 3, InstructorsFormat.sep, InstructorsFormat.header)
  }

  /** The tuples and the error of the grades file, `StudentCWID|Course|Grade|InstructorCWID` under a header. */
  function GradesRead(lines: seq<string>): Yield
    requires FileLines(lines)
  {
    Parse(lines, 4, GradesFormat.sep, GradesFormat.header)
  }

  /** The tuples and the error of the majors file, `Major<TAB>Flag<TAB>Course` under a header. */
  function MajorsRead(lines: seq<string>): Yield
    requires FileLines(lines)
  {
    Parse(lines, 3, MajorsFormat.sep, MajorsFormat.header)
  }

  /** The registries the student and instructor tuples fill, before any grade is applied. */
  function Fresh(studentRows: seq<seq<string>>, instructorRows: seq<seq<string>>): Registry
    requires forall j :: 0 <= j < |studentRows| ==> |studentRows[j]| == 3
    requires forall j :: 0 <= j < |instructorRows| ==> |instructorRows[j]| == 3
  {
    Registry(Upsert(map[], StudentEntries(studentRows)), Upsert(map[], InstructorEntries(instructorRows)))
  }

  /**
   * Once a run over freshly loaded registries applied every record, each
   * student has completed exactly the courses of the records naming them and
   * holds for each the grade of the last record for it, and no other grade.
   */
  lemma FreshStudentGrades(studentRows: seq<seq<string>>, instructorRows: seq<seq<string>>, gs: seq<Grade>, cwid: string)
    requires forall j :: 0 <= j < |studentRows| ==> |studentRows[j]| == 3
    requires forall j :: 0 <= j < |instructorRows| ==> |instructorRows[j]| == 3
    requires LinkAll(Fresh(studentRows, instructorRows), gs).error.None?
    requires cwid in Fresh(studentRows, instructorRows).students
    ensures var reg := LinkAll(Fresh(studentRows, instructorRows), gs).registry;
      && cwid in reg.students
      && reg.students[cwid].completed == CoursesOf(gs, cwid)
      && (forall c :: c in reg.students[cwid].grades <==> LastGrade(gs, cwid, c).Some?)
      && (forall c :: c in reg.students[cwid].grades ==> reg.students[cwid].grades[c] == LastGrade(gs, cwid, c).value)
  {
    var r := Fresh(studentRows, instructorRows);
    FreshlyLoaded(studentRows, instructorRows);
    LinkAllStudent(r, gs, cwid);
    assert gs[..|gs|] == gs;
  }

  /**
   * Once a run over freshly loaded registries applied every record, each
   * instructor's count for a course is the number of records naming them for
   * it, the courses taught are those with a record, and the counts add up to
   * the number of records naming the instructor.
   */
  lemma FreshInstructorTally(studentRows: seq<seq<string>>, instructorRows: seq<seq<string>>, gs: seq<Grade>, cwid: string)
    requires forall j :: 0 <= j < |studentRows| ==> |studentRows[j]| == 3
    requires forall j :: 0 <= j < |instructorRows| ==> |instructorRows[j]| == 3
    requires LinkAll(Fresh(studentRows, instructorRows), gs).error.None?
    requires cwid in Fresh(studentRows, instructorRows).instructors
    ensures var reg := LinkAll(Fresh(studentRows, instructorRows), gs).registry;
      && cwid in reg.instructors
      && (forall c :: reg.instructors[cwid].Count(c) == Tally(gs, cwid)[c])
      && reg.instructors[cwid].taught == set c | c in Tally(gs, cwid)
      && |Tally(gs, cwid)| == |Naming(gs, cwid)|
  {
    var r := Fresh(studentRows, instructorRows);
    FreshlyLoaded(studentRows, instructorRows);
    FreshInstructorCounts(r, gs, cwid);
    LinkAllInstructor(r, gs, cwid);
    assert gs[..|gs|] == gs;
  }

  /** The students registry the students file fills. */
  function Enrolled(studentLines: seq<string>): map<string, StudentState>
    requires FileLines(studentLines)
  {
    Upsert(map[], StudentEntries(StudentsRead(studentLines).rows))
  }

  /** The instructors registry the instructors file fills. */
  function Appointed(instructorLines: seq<string>): map<string, InstructorState>
    requires FileLines(instructorLines)
  {
    Upsert(map[], InstructorEntries(InstructorsRead(instructorLines).rows))
  }

  /** The grade records of the grades file, in file order. */
  function GradeRecords(gradeLines: seq<string>): seq<Grade>
    requires FileLines(gradeLines)
  {
    Grades(GradesRead(gradeLines).rows)
  }

  /**
   * The first two phases of `University(path)`: the students file, then the
   * instructors file; a reader error in either ends construction there.
   */
  function Roster(studentLines: seq<string>, instructorLines: seq<string>): (l: Loaded)
    requires FileLines(studentLines) && FileLines(instructorLines)
    ensures l.catalog == map[]
    ensures l.error.None? <==> StudentsRead(studentLines).error.None? && InstructorsRead(instructorLines).error.None?
    ensures StudentsRead(studentLines).error.Some? ==>
      l.error == InvalidIn(StudentsFile, StudentsRead(studentLines).error) && l.registry.instructors == map[]
    ensures l.error.Some? ==> l.error.value.InvalidData?
  {
    var ys := StudentsRead(studentLines);
    if ys.error.Some? then Loaded(Registry(Enrolled(studentLines), map[]), map[], InvalidIn(StudentsFile, ys.error))
    else
      var yi := InstructorsRead(instructorLines);
      Loaded(Registry(Enrolled(studentLines), Appointed(instructorLines)), map[], InvalidIn(InstructorsFile, yi.error))
  }

  /**
   * `University(path)`: each phase runs on what the phases before it left and
   * the first error ends the construction; the registries are then what the
   * phases had done by that point.
   */
  function Load(studentLines: seq<string>, instructorLines: seq<string>, gradeLines: seq<string>, majorLines: seq<string>): (l: Loaded)
    requires FileLines(studentLines) && FileLines(instructorLines) && FileLines(gradeLines) && FileLines(majorLines)
    ensures l.error.None? ==>
      && StudentsRead(studentLines).error.None? && InstructorsRead(instructorLines).error.None?
      && GradesRead(gradeLines).error.None? && MajorsRead(majorLines).error.None?
    ensures StudentsRead(studentLines).error.Some? ==>
      l.error == InvalidIn(StudentsFile, StudentsRead(studentLines).error) && l.registry.instructors == map[]
    ensures l.catalog != map[] ==> l.error == InvalidIn(MajorsFile, MajorsRead(majorLines).error)
  {
    var people := Roster(studentLines, instructorLines);
    if people.error.Some? then people
    else
      var yg := GradesRead(gradeLines);
      var o := LinkAll(people.registry, GradeRecords(gradeLines));
      if o.error.Some? then Loaded(o.registry, map[], Some(Unlinked(o.error.value)))
      else if yg.error.Some? then Loaded(o.registry, map[], InvalidIn(GradesFile, yg.error))
      else
        var ym := MajorsRead(majorLines);
        Loaded(o.registry, Catalogue(map[], ym.rows), InvalidIn(MajorsFile, ym.error))
  }

  /** The first two phases of the constructor, on a new University. */
  method BuildRoster(studentLines: seq<string>, instructorLines: seq<string>)
    returns (u: University, err: Option<UniError>)
    requires FileLines(studentLines) && FileLines(instructorLines)
    ensures fresh(u) && fresh(u.students.Values) && fresh(u.instructors.Values) && u.Valid() && u.majors == map[]
    ensures Loaded(u.Snapshot(), map[], err) == Roster(studentLines, instructorLines)
  {
    u := new University();
    assert u.Snapshot() == Registry(map[], map[]);
    err := u.GetStudents(studentLines, StudentsFormat);
    if err.Some? {
      return;
    }
    err := u.GetInstructors(instructorLines, InstructorsFormat);
  }

  /** The method the constructor runs: a University whose objects hold what `Load` describes. */
  method Build(studentLines: seq<string>, instructorLines: seq<string>, gradeLines: seq<string>, majorLines: seq<string>)
    returns (u: University, err: Option<UniError>)
    requires FileLines(studentLines) && FileLines(instructorLines) && FileLines(gradeLines) && FileLines(majorLines)
    ensures fresh(u) && u.Valid()
    ensures Loaded(u.Snapshot(), u.Catalog(), err) == Load(studentLines, instructorLines, gradeLines, majorLines)
  {
    u, err := BuildRoster(studentLines, instructorLines);
    assert u.Catalog() == map[];
    if err.Some? {
      return;
    }
    err := u.UpdateCourseInfo(gradeLines, GradesFormat);
    assert u.Catalog() == map[];
    if err.Some? {
      return;
    }
    err := u.GetMajors(majorLines, MajorsFormat);
  }

  /** Loading keeps every record consistent: grades exactly for completed courses, taught courses exactly those counted. */
  lemma LoadConsistent(studentLines: seq<string>, instructorLines: seq<string>, gradeLines: seq<string>, majorLines: seq<string>)
    requires FileLines(studentLines) && FileLines(instructorLines) && FileLines(gradeLines) && FileLines(majorLines)
    ensures AllConsistent(Load(studentLines, instructorLines, gradeLines, majorLines).registry)
  {
    var students := StudentsRead(studentLines).rows;
    if StudentsRead(studentLines).error.Some? {
      assert InstructorEntries([]) == [];
      FreshlyLoaded(students, []);
    } else {
      var instructors := InstructorsRead(instructorLines).rows;
      FreshlyLoaded(students, instructors);
      LinkAllConsistent(Registry(Enrolled(studentLines), Appointed(instructorLines)), GradeRecords(gradeLines));
    }
  }

  /** The registries after the grades file, when students and instructors have loaded. */
  function Linked(studentLines: seq<string>, instructorLines: seq<string>, gradeLines: seq<string>): Outcome
    requires FileLines(studentLines) && FileLines(instructorLines) && FileLines(gradeLines)
  {
    LinkAll(Fresh(StudentsRead(studentLines).rows, InstructorsRead(instructorLines).rows), GradeRecords(gradeLines))
  }

  /** Which registries construction leaves, phase by phase. */
  lemma LoadRegistry(studentLines: seq<string>, instructorLines: seq<string>, gradeLines: seq<string>, majorLines: seq<string>)
    requires FileLines(studentLines) && FileLines(instructorLines) && FileLines(gradeLines) && FileLines(majorLines)
    ensures var l := Load(studentLines, instructorLines, gradeLines, majorLines);
      && l.registry.students.Keys == Enrolled(studentLines).Keys
      && (StudentsRead(studentLines).error.None? ==> l.registry.instructors.Keys == Appointed(instructorLines).Keys)
      && (StudentsRead(studentLines).error.None? && InstructorsRead(instructorLines).error.None? ==>
            l.registry == Linked(studentLines, instructorLines, gradeLines).registry)
  {
    if StudentsRead(studentLines).error.None? && InstructorsRead(instructorLines).error.None? {
      LinkAllKeys(Registry(Enrolled(studentLines), Appointed(instructorLines)), GradeRecords(gradeLines));
    }
  }

  /**
   * A CWID is registered as a student exactly when some tuple the students file
   * yielded carries it; once that file has loaded, likewise for instructors.
   */
  lemma LoadRoster(studentLines: seq<string>, instructorLines: seq<string>, gradeLines: seq<string>, majorLines: seq<string>, cwid: string)
    requires FileLines(studentLines) && FileLines(instructorLines) && FileLines(gradeLines) && FileLines(majorLines)
    ensures var l := Load(studentLines, instructorLines, gradeLines, majorLines);
      var ys := StudentsRead(studentLines).rows;
      var yi := InstructorsRead(instructorLines).rows;
      && (cwid in l.registry.students <==> exists j :: 0 <= j < |ys| && ys[j][0] == cwid)
      && (StudentsRead(studentLines).error.None? ==>
            (cwid in l.registry.instructors <==> exists j :: 0 <= j < |yi| && yi[j][0] == cwid))
  {
    LoadRegistry(studentLines, instructorLines, gradeLines, majorLines);
    StudentRoster(StudentsRead(studentLines).rows, cwid);
    InstructorRoster(InstructorsRead(instructorLines).rows, cwid);
  }

  /**
   * Construction succeeds exactly when all four files read to the end and every
   * grade record names a registered student and a registered instructor.
   */
  lemma LoadSucceeds(studentLines: seq<string>, instructorLines: seq<string>, gradeLines: seq<string>, majorLines: seq<string>)
    requires FileLines(studentLines) && FileLines(instructorLines) && FileLines(gradeLines) && FileLines(majorLines)
    ensures var l := Load(studentLines, instructorLines, gradeLines, majorLines);
      var gs := GradeRecords(gradeLines);
      l.error.None? <==>
        && StudentsRead(studentLines).error.None? && InstructorsRead(instructorLines).error.None?
        && GradesRead(gradeLines).error.None? && MajorsRead(majorLines).error.None?
        && (forall j :: 0 <= j < |gs| ==> gs[j].student in l.registry.students && gs[j].instructor in l.registry.instructors)
  {
    if StudentsRead(studentLines).error.None? && InstructorsRead(instructorLines).error.None? {
      var r := Registry(Enrolled(studentLines), Appointed(instructorLines));
      var gs := GradeRecords(gradeLines);
      LinkAllHalts(r, gs);
      LinkAllKeys(r, gs);
    }
  }

  /**
   * A grade record naming an unregistered CWID ends construction with that
   * CWID: the student's when the student is missing, the instructor's otherwise.
   */
  lemma LoadUnlinked(studentLines: seq<string>, instructorLines: seq<string>, gradeLines: seq<string>, majorLines: seq<string>)
    requires FileLines(studentLines) && FileLines(instructorLines) && FileLines(gradeLines) && FileLines(majorLines)
    ensures var l := Load(studentLines, instructorLines, gradeLines, majorLines);
      var gs := GradeRecords(gradeLines);
      l.error.Some? && l.error.value.Unlinked? ==>
        match l.error.value.missing
        case UnknownStudent(s) =>
          s !in l.registry.students && exists j :: 0 <= j < |gs| && gs[j].student == s
        case UnknownInstructor(i) =>
          i !in l.registry.instructors && exists j :: 0 <= j < |gs| && gs[j].instructor == i
  {
    if StudentsRead(studentLines).error.None? && InstructorsRead(instructorLines).error.None? {
      var r := Registry(Enrolled(studentLines), Appointed(instructorLines));
      var gs := GradeRecords(gradeLines);
      LinkAllHalts(r, gs);
      LinkAllKeys(r, gs);
    }
  }

  /**
   * After a successful construction each student has completed exactly the
   * courses of the grade records naming them, and holds for each such course the
   * grade of the last record for it, and no other grade.
   */
  lemma LoadStudentGrades(studentLines: seq<string>, instructorLines: seq<string>, gradeLines: seq<string>, majorLines: seq<string>, cwid: string)
    requires FileLines(studentLines) && FileLines(instructorLines) && FileLines(gradeLines) && FileLines(majorLines)
    requires Load(studentLines, instructorLines, gradeLines, majorLines).error.None?
    requires cwid in Load(studentLines, instructorLines, gradeLines, majorLines).registry.students
    ensures var s := Load(studentLines, instructorLines, gradeLines, majorLines).registry.students[cwid];
      var gs := GradeRecords(gradeLines);
      && s.completed == CoursesOf(gs, cwid)
      && (forall c :: c in s.grades <==> LastGrade(gs, cwid, c).Some?)
      && (forall c :: c in s.grades ==> s.grades[c] == LastGrade(gs, cwid, c).value)
  {
    LoadRegistry(studentLines, instructorLines, gradeLines, majorLines);
    LoadSucceeds(studentLines, instructorLines, gradeLines, majorLines);
    FreshStudentGrades(StudentsRead(studentLines).rows, InstructorsRead(instructorLines).rows, GradeRecords(gradeLines), cwid);
  }

  /**
   * After a successful construction each instructor's count for a course is the
   * number of grade records naming them for it, the courses taught are those
   * with a record, and the counts add up to the number of records naming them.
   */
  lemma LoadInstructorCounts(studentLines: seq<string>, instructorLines: seq<string>, gradeLines: seq<string>, majorLines: seq<string>, cwid: string)
    requires FileLines(studentLines) && FileLines(instructorLines) && FileLines(gradeLines) && FileLines(majorLines)
    requires Load(studentLines, instructorLines, gradeLines, majorLines).error.None?
    requires cwid in Load(studentLines, instructorLines, gradeLines, majorLines).registry.instructors
    ensures var t := Load(studentLines, instructorLines, gradeLines, majorLines).registry.instructors[cwid];
      var gs := GradeRecords(gradeLines);
      && (forall c :: t.Count(c) == Tally(gs, cwid)[c])
      && t.taught == set c | c in Tally(gs, cwid)
      && |Tally(gs, cwid)| == |Naming(gs, cwid)|
  {
    LoadRegistry(studentLines, instructorLines, gradeLines, majorLines);
    LoadSucceeds(studentLines, instructorLines, gradeLines, majorLines);
    FreshInstructorTally(StudentsRead(studentLines).rows, InstructorsRead(instructorLines).rows, GradeRecords(gradeLines), cwid);
  }

  /**
   * When construction ends with the majors file's outcome, the majors are what
   * that file loads into an empty registry; otherwise no major is loaded.
   */
  lemma LoadReachesMajors(studentLines: seq<string>, instructorLines: seq<string>, gradeLines: seq<string>, majorLines: seq<string>)
    requires FileLines(studentLines) && FileLines(instructorLines) && FileLines(gradeLines) && FileLines(majorLines)
    ensures var l := Load(studentLines, instructorLines, gradeLines, majorLines);
      && (l.error == InvalidIn(MajorsFile, MajorsRead(majorLines).error) ==> l.catalog == Catalogue(map[], MajorsRead(majorLines).rows))
      && (l.error != InvalidIn(MajorsFile, MajorsRead(majorLines).error) ==> l.catalog == map[])
  {
    var l := Load(studentLines, instructorLines, gradeLines, majorLines);
    var e := MajorsRead(majorLines).error;
    if StudentsRead(studentLines).error.Some? {
      assert l.error.value.InvalidData? && l.error.value.file == StudentsFile;
    } else if InstructorsRead(instructorLines).error.Some? {
      assert l.error.value.InvalidData? && l.error.value.file == InstructorsFile;
    } else if Linked(studentLines, instructorLines, gradeLines).error.Some? {
      assert l.error.value.Unlinked?;
    } else if GradesRead(gradeLines).error.Some? {
      assert l.error.value.InvalidData? && l.error.value.file == GradesFile;
    } else {
      assert l.catalog == Catalogue(map[], MajorsRead(majorLines).rows);
    }
  }

  /**
   * Once students, instructors and grades have loaded, a major is registered
   * exactly when some tuple of the majors file names it, with the courses of the
   * tuples flagged "R" as required and the courses of the others as electives.
   */
  lemma LoadCatalog(studentLines: seq<string>, instructorLines: seq<string>, gradeLines: seq<string>, majorLines: seq<string>, name: string)
    requires FileLines(studentLines) && FileLines(instructorLines) && FileLines(gradeLines) && FileLines(majorLines)
    ensures var l := Load(studentLines, instructorLines, gradeLines, majorLines);
      var ym := MajorsRead(majorLines).rows;
      l.error == InvalidIn(MajorsFile, MajorsRead(majorLines).error) ==>
        && (name in l.catalog <==> exists j :: 0 <= j < |ym| && ym[j][0] == name)
        && Entry(l.catalog, name).required == Flagged(ym, name, true)
        && Entry(l.catalog, name).electives == Flagged(ym, name, false)
  {
    var ym := MajorsRead(majorLines).rows;
    LoadReachesMajors(studentLines, instructorLines, gradeLines, majorLines);
    CatalogueKeys(map[], ym, name);
    CatalogueCourses(map[], ym, name);
  }
}
