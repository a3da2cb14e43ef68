/**
 * A major: its required and elective courses, filled in by a flag rule, and the
 * two queries for what a student still has to take.
 */
module Majors {
  import opened Students

  /** The value of a Major object. */
  datatype Courses = Courses(required: set<string>, electives: set<string>)

  /** The flag rule of `add`: "R" files the course as required, any other flag as an elective. */
  function AddCourse(c: Courses, flag: string, course: string): (r: Courses)
    ensures c.required <= r.required && c.electives <= r.electives
    ensures r.required - c.required <= {course} && r.electives - c.electives <= {course}
    ensures course in r.required <==> course in c.required || flag == "R"
    ensures course in r.electives <==> course in c.electives || flag != "R"
  {
    if flag == "R" then c.(required := c.required + {course})
    else c.(electives := c.electives + {course})
  }

  /** Adding the same course with the same flag twice is the same as adding it once. */
  lemma AddCourseIdempotent(c: Courses, flag: string, course: string)
    ensures AddCourse(AddCourse(c, flag, course), flag, course) == AddCourse(c, flag, course)
  {
  }

  /**
   * A course flagged "R" and later flagged otherwise is in BOTH sets: the rule
   * adds and never removes, so conflicting flags are not resolved to the last one.
   */
  lemma AddCourseConflictingFlags(c: Courses, other: string, course: string)
    requires other != "R"
    ensures var r := AddCourse(AddCourse(c, "R", course), other, course);
      course in r.required && course in r.electives
  {
  }

  /**
   * The majors registry after a file of rows `(major, flag, course)`: each row
   * adds its course to its major, creating the major empty on first mention.
   */
  function Catalogue(m: map<string, Courses>, rows: seq<seq<string>>): (r: map<string, Courses>)
    requires forall j :: 0 <= j < |rows| ==> |rows[j]| == 3
    ensures forall k :: k in m ==> k in r && m[k].required <= r[k].required && m[k].electives <= r[k].electives
    decreases |rows|
  {
    if |rows| == 0 then m
    else
      var before := Catalogue(m, rows[..|rows| - 1]);
      var row := rows[|rows| - 1];
      var major := if row[0] in before then before[row[0]] else Courses({}, {});
      before[row[0] := AddCourse(major, row[1], row[2])]
  }

  /** Loading one more row. */
  lemma CatalogueStep(m: map<string, Courses>, rows: seq<seq<string>>, i: nat)
    requires i < |rows|
    requires forall j :: 0 <= j < |rows| ==> |rows[j]| == 3
    ensures var before := Catalogue(m, rows[..i]);
      var row := rows[i];
      Catalogue(m, rows[..i + 1]) ==
        before[row[0] := AddCourse(if row[0] in before then before[row[0]] else Courses({}, {}), row[1], row[2])]
  {
    assert rows[..i + 1][..i] == rows[..i];
  }

  /** The courses of the rows naming `name` whose flag is "R" (when `required`) or anything else (otherwise). */
  ghost function Flagged(rows: seq<seq<string>>, name: string, required: bool): set<string>
    requires forall j :: 0 <= j < |rows| ==> |rows[j]| == 3
  {
    set j | 0 <= j < |rows| && rows[j][0] == name && (rows[j][1] == "R") == required :: rows[j][2]
  }

  lemma FlaggedSnoc(rows: seq<seq<string>>, name: string, required: bool)
    requires |rows| > 0
    requires forall j :: 0 <= j < |rows| ==> |rows[j]| == 3
    ensures var n := |rows| - 1;
      Flagged(rows, name, required) ==
        Flagged(rows[..n], name, required) +
        (if rows[n][0] == name && (rows[n][1] == "R") == required then {rows[n][2]} else {})
  {
    var n := |rows| - 1;
    assert forall j :: 0 <= j < n ==> rows[..n][j] == rows[j];
  }

  /** What a catalogue holds for `name`: its courses, or none when it is not registered. */
  function Entry(c: map<string, Courses>, name: string): Courses
  {
    if name in c then c[name] else Courses({}, {})
  }

  /** A major is registered after loading exactly when it was before or some row names it. */
  lemma {:induction false} CatalogueKeys(m: map<string, Courses>, rows: seq<seq<string>>, name: string)
    requires forall j :: 0 <= j < |rows| ==> |rows[j]| == 3
    ensures name in Catalogue(m, rows) <==> name in m || exists j :: 0 <= j < |rows| && rows[j][0] == name
    decreases |rows|
  {
    if |rows| > 0 {
      var n := |rows| - 1;
      var init := rows[..n];
      CatalogueKeys(m, init, name);
      assert Catalogue(m, rows).Keys == Catalogue(m, init).Keys + {rows[n][0]};
      if exists j :: 0 <= j < |init| && init[j][0] == name {
        var j :| 0 <= j < |init| && init[j][0] == name;
        assert rows[j] == init[j];
      }
      if rows[n][0] != name && exists j :: 0 <= j < |rows| && rows[j][0] == name {
        var j :| 0 <= j < |rows| && rows[j][0] == name;
        assert j < n && init[j] == rows[j];
      }
    }
  }

  /** After loading, a major's required (elective) courses are its old ones plus those of the rows naming it with flag "R" (any other flag). */
  lemma {:induction false} CatalogueCourses(m: map<string, Courses>, rows: seq<seq<string>>, name: string)
    requires forall j :: 0 <= j < |rows| ==> |rows[j]| == 3
    ensures Entry(Catalogue(m, rows), name).required == Entry(m, name).required + Flagged(rows, name, true)
    ensures Entry(Catalogue(m, rows), name).electives == Entry(m, name).electives + Flagged(rows, name, false)
    decreases |rows|
  {
    if |rows| > 0 {
      var n := |rows| - 1;
      var init := rows[..n];
      CatalogueCourses(m, init, name);
      FlaggedSnoc(rows, name, true);
      FlaggedSnoc(rows, name, false);
      var row := rows[n];
      if row[0] == name {
        assert Entry(Catalogue(m, rows), name) == AddCourse(Entry(Catalogue(m, init), name), row[1], row[2]);
      } else {
        assert Entry(Catalogue(m, rows), name) == Entry(Catalogue(m, init), name);
      }
    }
  }

  /**
   * Loading majors, row by row: a major is registered exactly when it was
   * before or some row names it, and its required (elective) courses are its
   * old ones plus the courses of the rows naming it with flag "R" (any other flag).
   */
  lemma CatalogueSpec(m: map<string, Courses>, rows: seq<seq<string>>, name: string)
    requires forall j :: 0 <= j < |rows| ==> |rows[j]| == 3
    ensures name in Catalogue(m, rows) <==> name in m || exists j :: 0 <= j < |rows| && rows[j][0] == name
    ensures name in Catalogue(m, rows) ==>
      var before := if name in m then m[name] else Courses({}, {});
      && Catalogue(m, rows)[name].required == before.required + Flagged(rows, name, true)
      && Catalogue(m, rows)[name].electives == before.electives + Flagged(rows, name, false)
  {
    CatalogueKeys(m, rows, name);
    CatalogueCourses(m, rows, name);
  }

  class Major {
    var requiredCourses: set<string>
    var electiveCourses: set<string>

    /** The value this object holds. */
    function Offering(): Courses
      reads this
    {
      Courses(requiredCourses, electiveCourses)
    }

    /** A new major has no required and no elective courses. */
    constructor ()
      ensures requiredCourses == {} && electiveCourses == {}
    {
      requiredCourses := {};
      electiveCourses := {};
    }

    /** Files `course` as required when `flag` is "R" and as an elective otherwise; the other set is untouched. */
    method Add(flag: string, course: string)
      modifies this
      ensures flag == "R" ==> requiredCourses == old(requiredCourses) + {course} && electiveCourses == old(electiveCourses)
      ensures flag != "R" ==> electiveCourses == old(electiveCourses) + {course} && requiredCourses == old(requiredCourses)
      ensures Offering() == AddCourse(old(Offering()), flag, course)
    {
      if flag == "R" {
        requiredCourses := requiredCourses + {course};
      } else {
        electiveCourses := electiveCourses + {course};
      }
    }

    /**
     * The required courses the student has not completed: nothing completed is
     * listed, nothing required and not completed is missed, and the answer is
     * empty exactly when every required course is completed.
     */
    function RemainingRequired(student: Student): (r: set<string>)
      reads this, student
      ensures r <= requiredCourses
      ensures r !! student.coursesCompleted
      ensures requiredCourses <= r + student.coursesCompleted
      ensures r == {} <==> requiredCourses <= student.coursesCompleted
    {
      requiredCourses - student.coursesCompleted
    }

    /**
     * The electives still open, all or nothing: every elective while the student
     * has completed none of them, and none once any one is completed; the answer
     * is never a part of the electives other than all or nothing.
     */
    function RemainingElectives(student: Student): (r: set<string>)
      reads this, student
      ensures r == electiveCourses || r == {}
      ensures (forall c :: c in electiveCourses ==> c !in student.coursesCompleted) ==> r == electiveCourses
      ensures (exists c :: c in electiveCourses && c in student.coursesCompleted) ==> r == {}
    {
      if electiveCourses !! student.coursesCompleted then electiveCourses else {}
    }
  }
}
