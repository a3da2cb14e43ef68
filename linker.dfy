/**
 * Applying grade records to the registries, `update_course_info`, as a function
 * on registry values: each record is checked against both registries and then
 * updates the student's and the instructor's side of the link.
 */
module Linker {
  import opened Wrappers
  import opened Entities

  /** One grade record: `StudentID | Course | Grade | InstructorID`. */
  datatype Grade = Grade(student: string, course: string, grade: string, instructor: string)

  /** The grade records of the tuples read from the grades file. */
  function Grades(rows: seq<seq<string>>): (gs: seq<Grade>)
    requires forall j :: 0 <= j < |rows| ==> |rows[j]| == 4
    ensures |gs| == |rows|
  {
    seq(|rows|, j requires 0 <= j < |rows| => Grade(rows[j][0], rows[j][1], rows[j][2], rows[j][3]))
  }

  /** The `KeyError`s of the linker: a record names a CWID missing from a registry. */
  datatype LinkError = UnknownStudent(cwid: string) | UnknownInstructor(cwid: string)

  /** One record: the student is looked up first, then the instructor, then both are updated. */
  function Link(r: Registry, g: Grade): (res: Result<Registry, LinkError>)
    ensures res.Success? <==> g.student in r.students && g.instructor in r.instructors
    ensures g.student !in r.students ==> res == Failure(UnknownStudent(g.student))
    ensures res.Success? ==>
      res.value.students.Keys == r.students.Keys && res.value.instructors.Keys == r.instructors.Keys
  {
    if g.student !in r.students then Failure(UnknownStudent(g.student))
    else if g.instructor !in r.instructors then Failure(UnknownInstructor(g.instructor))
    else
      Success(Registry(
        r.students[g.student := r.students[g.student].Graded(g.course, g.grade)],
        r.instructors[g.instructor := r.instructors[g.instructor].Counted(g.course)]))
  }

  /** Where a run of the linker ends: the registries, how many records were applied, and the error that stopped it. */
  datatype Outcome = Outcome(registry: Registry, applied: nat, error: Option<LinkError>)

  /** The records applied in order, stopping at the first that fails. */
  function LinkAll(r: Registry, gs: seq<Grade>): (o: Outcome)
    ensures o.applied <= |gs|
    ensures o.error.None? ==> o.applied == |gs|
    decreases |gs|
  {
    if |gs| == 0 then Outcome(r, 0, None)
    else
      var o := LinkAll(r, gs[..|gs| - 1]);
      if o.error.Some? then o
      else match Link(o.registry, gs[|gs| - 1])
        case Failure(e) => o.(error := Some(e))
        case Success(r') => Outcome(r', |gs|, None)
  }

  /** How a run over `gs` extends the run over all records but the last. */
  lemma LinkAllStep(r: Registry, gs: seq<Grade>)
    requires |gs| > 0
    ensures var n := |gs| - 1;
      var o0 := LinkAll(r, gs[..n]);
      var o := LinkAll(r, gs);
      && gs == gs[..n] + [gs[n]]
      && (o0.error.Some? ==> o == o0 && gs[..o.applied] == gs[..n][..o.applied])
      && (o0.error.None? && Link(o0.registry, gs[n]).Failure? ==>
            o == o0.(error := Some(Link(o0.registry, gs[n]).error)) && gs[..o.applied] == gs[..n])
      && (o0.error.None? && Link(o0.registry, gs[n]).Success? ==>
            o == Outcome(Link(o0.registry, gs[n]).value, |gs|, None) && gs[..o.applied] == gs)
  {
    var n := |gs| - 1;
    assert gs == gs[..n] + [gs[n]];
    assert gs[..|gs|] == gs;
    var o0 := LinkAll(r, gs[..n]);
    assert gs[..o0.applied] == gs[..n][..o0.applied];
  }

  /**
   * One valid record adds the course to the student's completed courses and sets
   * its grade, adds the course to the instructor's courses and raises that
   * course's count by exactly one; every other student, instructor, course
   * count and every name is left as it was, and no CWID is added or removed.
   * A missing student is reported before a missing instructor.
   */
  lemma LinkEffect(r: Registry, g: Grade)
    ensures g.student !in r.students ==> Link(r, g) == Failure(UnknownStudent(g.student))
    ensures g.student in r.students && g.instructor !in r.instructors ==> Link(r, g) == Failure(UnknownInstructor(g.instructor))
    ensures g.student in r.students && g.instructor in r.instructors ==>
      Link(r, g).Success? &&
      var r' := Link(r, g).value;
      var s, s' := r.students[g.student], r'.students[g.student];
      var t, t' := r.instructors[g.instructor], r'.instructors[g.instructor];
      && r'.students.Keys == r.students.Keys && r'.instructors.Keys == r.instructors.Keys
      && s'.name == s.name && s'.major == s.major
      && s'.completed == s.completed + {g.course}
      && g.course in s'.grades && s'.grades[g.course] == g.grade
      && (forall c :: c != g.course ==> (c in s'.grades <==> c in s.grades) && (c in s.grades ==> s'.grades[c] == s.grades[c]))
      && t'.name == t.name && t'.department == t.department
      && t'.taught == t.taught + {g.course}
      && t'.Count(g.course) == t.Count(g.course) + 1
      && (forall c :: c != g.course ==> t'.Count(c) == t.Count(c))
      && (forall k :: k in r.students && k != g.student ==> r'.students[k] == r.students[k])
      && (forall k :: k in r.instructors && k != g.instructor ==> r'.instructors[k] == r.instructors[k])
  {
  }

  /** Re-linking the same valid record counts it twice while its course is completed once, with that grade. */
  lemma RepeatedRecord(r: Registry, g: Grade)
    requires g.student in r.students && g.instructor in r.instructors
    ensures Link(r, g).Success? && Link(Link(r, g).value, g).Success?
    ensures var r2 := Link(Link(r, g).value, g).value;
      && r2.instructors[g.instructor].Count(g.course) == r.instructors[g.instructor].Count(g.course) + 2
      && r2.students[g.student].completed == r.students[g.student].completed + {g.course}
      && r2.students[g.student].grades[g.course] == g.grade
  {
  }

  /** A run that has applied the first `i` records goes on with record `i`. */
  lemma LinkAllNext(r: Registry, gs: seq<Grade>, i: nat)
    requires i < |gs| && LinkAll(r, gs[..i]).error.None?
    ensures var o := LinkAll(r, gs[..i]);
      LinkAll(r, gs[..i + 1]) ==
        match Link(o.registry, gs[i])
        case Failure(e) => o.(error := Some(e))
        case Success(r') => Outcome(r', i + 1, None)
  {
    assert gs[..i + 1][..i] == gs[..i];
  }

  /** A run that has applied the first `i` records and fails on record `i` ends there. */
  lemma LinkAllFails(r: Registry, gs: seq<Grade>, i: nat)
    requires i < |gs| && LinkAll(r, gs[..i]).error.None?
    requires Link(LinkAll(r, gs[..i]).registry, gs[i]).Failure?
    ensures LinkAll(r, gs) == LinkAll(r, gs[..i]).(error := Some(Link(LinkAll(r, gs[..i]).registry, gs[i]).error))
  {
    LinkAllNext(r, gs, i);
    LinkAllStops(r, gs, i + 1);
  }

  /** Once a run has stopped, later records make no difference. */
  lemma {:induction false} LinkAllStops(r: Registry, gs: seq<Grade>, n: nat)
    requires n <= |gs| && LinkAll(r, gs[..n]).error.Some?
    ensures LinkAll(r, gs) == LinkAll(r, gs[..n])
    decreases |gs| - n
  {
    if n < |gs| {
      assert gs[..|gs| - 1][..n] == gs[..n];
      LinkAllStops(r, gs[..|gs| - 1], n);
    } else {
      assert gs[..n] == gs;
    }
  }

  /** The registries keep their keys while linking. */
  lemma {:induction false} LinkAllKeys(r: Registry, gs: seq<Grade>)
    ensures LinkAll(r, gs).registry.students.Keys == r.students.Keys
    ensures LinkAll(r, gs).registry.instructors.Keys == r.instructors.Keys
    decreases |gs|
  {
    if |gs| > 0 {
      LinkAllKeys(r, gs[..|gs| - 1]);
    }
  }

  /**
   * A run applies the records in order up to the first one that names a student
   * or an instructor missing from the registries, and stops there: the error
   * names that record's student if the student is missing, and its instructor
   * otherwise; the registries are then exactly what the records before it made
   * of them, and a run without error applied every record.
   */
  lemma {:induction false} LinkAllHalts(r: Registry, gs: seq<Grade>)
    ensures var o := LinkAll(r, gs);
      && (o.error == None <==> o.applied == |gs|)
      && (forall j :: 0 <= j < o.applied ==> gs[j].student in r.students && gs[j].instructor in r.instructors)
      && (o.error.Some? ==>
            var g := gs[o.applied];
            if g.student !in r.students then o.error == Some(UnknownStudent(g.student))
            else g.instructor !in r.instructors && o.error == Some(UnknownInstructor(g.instructor)))
      && LinkAll(r, gs[..o.applied]) == Outcome(o.registry, o.applied, None)
    decreases |gs|
  {
    if |gs| == 0 {
      assert gs[..0] == gs;
    } else {
      var n := |gs| - 1;
      var init := gs[..n];
      LinkAllHalts(r, init);
      LinkAllKeys(r, init);
      LinkAllStep(r, gs);
      var o0 := LinkAll(r, init);
      assert forall j :: 0 <= j < o0.applied ==> init[j] == gs[j];
      if o0.error.None? {
        assert init[..n] == init;
      }
    }
  }

  /** The courses of the records naming student `k`. */
  ghost function CoursesOf(gs: seq<Grade>, k: string): set<string>
  {
    set j | 0 <= j < |gs| && gs[j].student == k :: gs[j].course
  }

  lemma CoursesOfSnoc(a: seq<Grade>, g: Grade, k: string)
    ensures CoursesOf(a + [g], k) == CoursesOf(a, k) + (if g.student == k then {g.course} else {})
  {
    var b := a + [g];
    assert forall j :: 0 <= j < |a| ==> b[j] == a[j];
    assert b[|a|] == g;
  }

  /** The grade given by the last record for student `k` in `course`, if any record is for them. */
  function LastGrade(gs: seq<Grade>, k: string, course: string): Option<string>
    decreases |gs|
  {
    if |gs| == 0 then None
    else if gs[|gs| - 1].student == k && gs[|gs| - 1].course == course then Some(gs[|gs| - 1].grade)
    else LastGrade(gs[..|gs| - 1], k, course)
  }

  /** `LastGrade` finds the grade of the last record for the student and course, and none when there is no such record. */
  lemma {:induction false} LastGradeSpec(gs: seq<Grade>, k: string, course: string)
    ensures LastGrade(gs, k, course).None? <==> forall j :: 0 <= j < |gs| ==> !(gs[j].student == k && gs[j].course == course)
    ensures LastGrade(gs, k, course).Some? ==>
      exists j :: 0 <= j < |gs| && gs[j].student == k && gs[j].course == course && gs[j].grade == LastGrade(gs, k, course).value
        && forall j' :: j < j' < |gs| ==> !(gs[j'].student == k && gs[j'].course == course)
    decreases |gs|
  {
    if |gs| > 0 {
      var n := |gs| - 1;
      if gs[n].student == k && gs[n].course == course {
        assert gs[n].grade == LastGrade(gs, k, course).value;
      } else {
        var init := gs[..n];
        LastGradeSpec(init, k, course);
        assert LastGrade(gs, k, course) == LastGrade(init, k, course);
        forall j | 0 <= j < n
          ensures init[j] == gs[j]
        {
        }
        if LastGrade(init, k, course).Some? {
          var j :| 0 <= j < n && init[j].student == k && init[j].course == course
            && init[j].grade == LastGrade(init, k, course).value
            && forall j' :: j < j' < n ==> !(init[j'].student == k && init[j'].course == course);
          assert gs[j] == init[j];
        }
      }
    }
  }

  lemma LastGradeSnoc(a: seq<Grade>, g: Grade, k: string, c: string)
    ensures LastGrade(a + [g], k, c) == if g.student == k && g.course == c then Some(g.grade) else LastGrade(a, k, c)
  {
    assert (a + [g])[..|a|] == a;
  }

  /** The courses of the records naming instructor `i`, one copy per record. */
  function Tally(gs: seq<Grade>, i: string): multiset<string>
    decreases |gs|
  {
    if |gs| == 0 then multiset{}
    else
      var last := gs[|gs| - 1];
      Tally(gs[..|gs| - 1], i) + (if last.instructor == i then multiset{last.course} else multiset{})
  }

  lemma TallySnoc(a: seq<Grade>, g: Grade, i: string)
    ensures Tally(a + [g], i) == Tally(a, i) + (if g.instructor == i then multiset{g.course} else multiset{})
  {
    assert (a + [g])[..|a|] == a;
  }

  /** The positions of the records naming instructor `i`. */
  ghost function Naming(gs: seq<Grade>, i: string): set<nat>
  {
    set j: nat | j < |gs| && gs[j].instructor == i
  }

  lemma NamingStep(gs: seq<Grade>, i: string)
    requires |gs| > 0
    ensures var n := |gs| - 1;
      Naming(gs, i) == Naming(gs[..n], i) + (if gs[n].instructor == i then {n} else {})
      && n !in Naming(gs[..n], i)
  {
    var n := |gs| - 1;
    forall j: nat | j < n
      ensures gs[..n][j] == gs[j]
    {
    }
  }

  /** The tally holds one course per record naming the instructor: its size is the number of such records. */
  lemma {:induction false} TallySize(gs: seq<Grade>, i: string)
    ensures |Tally(gs, i)| == |Naming(gs, i)|
    decreases |gs|
  {
    if |gs| > 0 {
      var n := |gs| - 1;
      TallySize(gs[..n], i);
      NamingStep(gs, i);
    }
  }

  /** What the records `a` do to a student who started as `s` and ended as `s2`. */
  ghost predicate StudentAfter(s: StudentState, s2: StudentState, a: seq<Grade>, k: string)
  {
    && s2.name == s.name && s2.major == s.major
    && s2.completed == s.completed + CoursesOf(a, k)
    && (forall c :: LastGrade(a, k, c).Some? ==> c in s2.grades && s2.grades[c] == LastGrade(a, k, c).value)
    && (forall c :: LastGrade(a, k, c).None? ==>
          (c in s2.grades <==> c in s.grades) && (c in s.grades ==> s2.grades[c] == s.grades[c]))
  }

  lemma StudentAfterStep(s: StudentState, s1: StudentState, s2: StudentState, a: seq<Grade>, g: Grade, k: string)
    requires StudentAfter(s, s1, a, k)
    requires s2 == if g.student == k then s1.Graded(g.course, g.grade) else s1
    ensures StudentAfter(s, s2, a + [g], k)
  {
    CoursesOfSnoc(a, g, k);
    forall c ensures LastGrade(a + [g], k, c) == if g.student == k && g.course == c then Some(g.grade) else LastGrade(a, k, c) {
      LastGradeSnoc(a, g, k, c);
    }
  }

  /**
   * What a run does to one student: name and major are kept, the completed
   * courses gain exactly the courses of the applied records naming the student,
   * and each course's grade is that of the LAST applied record for it, or the
   * old grade when no applied record is for it.
   */
  lemma {:induction false} LinkAllStudent(r: Registry, gs: seq<Grade>, k: string)
    requires k in r.students
    ensures var o := LinkAll(r, gs);
      k in o.registry.students && StudentAfter(r.students[k], o.registry.students[k], gs[..o.applied], k)
    decreases |gs|
  {
    LinkAllKeys(r, gs);
    if |gs| == 0 {
      assert gs[..0] == [];
    } else {
      var n := |gs| - 1;
      LinkAllStudent(r, gs[..n], k);
      LinkAllKeys(r, gs[..n]);
      LinkAllStep(r, gs);
      var o0 := LinkAll(r, gs[..n]);
      if o0.error.None? {
        LinkEffect(o0.registry, gs[n]);
        assert gs[..n][..o0.applied] == gs[..n];
        if Link(o0.registry, gs[n]).Success? {
          var s2 := LinkAll(r, gs).registry.students[k];
          StudentAfterStep(r.students[k], o0.registry.students[k], s2, gs[..n], gs[n], k);
          assert gs[..n] + [gs[n]] == gs[..LinkAll(r, gs).applied];
        }
      }
    }
  }

  /** What the records `a` do to an instructor who started as `t` and ended as `t2`. */
  ghost predicate InstructorAfter(t: InstructorState, t2: InstructorState, a: seq<Grade>, i: string)
  {
    && t2.name == t.name && t2.department == t.department
    && t2.taught == t.taught + (set c | c in Tally(a, i))
    && (forall c :: t2.Count(c) == t.Count(c) + Tally(a, i)[c])
  }

  lemma InstructorAfterStep(t: InstructorState, t1: InstructorState, t2: InstructorState, a: seq<Grade>, g: Grade, i: string)
    requires InstructorAfter(t, t1, a, i)
    requires t2 == if g.instructor == i then t1.Counted(g.course) else t1
    ensures InstructorAfter(t, t2, a + [g], i)
  {
    TallySnoc(a, g, i);
    TaughtStep(t.taught, t1.taught, t2.taught, Tally(a, i), Tally(a + [g], i), g.course, g.instructor == i);
    CountsStep(t, t1, t2, Tally(a, i), Tally(a + [g], i), g.course, g.instructor == i);
  }

  lemma TaughtStep(t0: set<string>, t1: set<string>, t2: set<string>, before: multiset<string>, after: multiset<string>, course: string, hit: bool)
    requires t1 == t0 + (set c | c in before)
    requires after == before + (if hit then multiset{course} else multiset{})
    requires t2 == if hit then t1 + {course} else t1
    ensures t2 == t0 + (set c | c in after)
  {
    assert (set c | c in after) == (set c | c in before) + (if hit then {course} else {});
  }

  lemma CountsStep(t: InstructorState, t1: InstructorState, t2: InstructorState, before: multiset<string>, after: multiset<string>, course: string, hit: bool)
    requires forall c :: t1.Count(c) == t.Count(c) + before[c]
    requires after == before + (if hit then multiset{course} else multiset{})
    requires t2 == if hit then t1.Counted(course) else t1
    ensures forall c :: t2.Count(c) == t.Count(c) + after[c]
  {
  }

  /**
   * What a run does to one instructor: name and department are kept, each
   * course's count grows by the number of applied records naming the instructor
   * for that course, and the taught courses gain exactly those courses.
   */
  lemma {:induction false} LinkAllInstructor(r: Registry, gs: seq<Grade>, i: string)
    requires i in r.instructors
    ensures var o := LinkAll(r, gs);
      i in o.registry.instructors && InstructorAfter(r.instructors[i], o.registry.instructors[i], gs[..o.applied], i)
    decreases |gs|
  {
    LinkAllKeys(r, gs);
    if |gs| == 0 {
      assert gs[..0] == [];
    } else {
      var n := |gs| - 1;
      LinkAllInstructor(r, gs[..n], i);
      LinkAllKeys(r, gs[..n]);
      LinkAllStep(r, gs);
      var o0 := LinkAll(r, gs[..n]);
      if o0.error.None? {
        LinkEffect(o0.registry, gs[n]);
        assert gs[..n][..o0.applied] == gs[..n];
        if Link(o0.registry, gs[n]).Success? {
          var t2 := LinkAll(r, gs).registry.instructors[i];
          InstructorAfterStep(r.instructors[i], o0.registry.instructors[i], t2, gs[..n], gs[n], i);
          assert gs[..n] + [gs[n]] == gs[..LinkAll(r, gs).applied];
        }
      }
    }
  }

  /** Linking keeps both registry invariants: grade keys are the completed courses, taught courses are those counted. */
  lemma {:induction false} LinkAllConsistent(r: Registry, gs: seq<Grade>)
    requires AllConsistent(r)
    ensures AllConsistent(LinkAll(r, gs).registry)
    decreases |gs|
  {
    if |gs| > 0 {
      var n := |gs| - 1;
      LinkAllConsistent(r, gs[..n]);
      var o0 := LinkAll(r, gs[..n]);
      if o0.error.None? {
        LinkEffect(o0.registry, gs[n]);
      }
    }
  }

  /**
   * For instructors loaded fresh (nothing counted yet), the counts after a run
   * are the tally of the applied records naming them, so the counts add up to
   * the number of applied records naming the instructor.
   */
  lemma FreshInstructorCounts(r: Registry, gs: seq<Grade>, i: string)
    requires i in r.instructors && r.instructors[i].counts == map[]
    ensures var o := LinkAll(r, gs);
      var a := gs[..o.applied];
      i in o.registry.instructors
      && (forall c :: o.registry.instructors[i].Count(c) == Tally(a, i)[c])
      && |Tally(a, i)| == |Naming(a, i)|
  {
    var o := LinkAll(r, gs);
    LinkAllInstructor(r, gs, i);
    TallySize(gs[..o.applied], i);
  }
}
