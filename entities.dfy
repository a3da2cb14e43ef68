/**
 * The values held by the registries: what a Student and an Instructor object
 * contain at a given moment, the registries keyed by CWID, and how loading a
 * file of records fills a registry.
 */
module Entities {

  /** The fields of a Student object; its CWID is its key in the registry. */
  datatype StudentState = StudentState(name: string, major: string, completed: set<string>, grades: map<string, string>)
  {
    /** Every completed course has a grade and every grade is for a completed course. */
    predicate Consistent()
    {
      grades.Keys == completed
    }

    /** The student after one grade record for `course`: completed, with that grade. */
    function Graded(course: string, grade: string): StudentState
    {
      this.(completed := completed + {course}, grades := grades[course := grade])
    }
  }

  /** The fields of an Instructor object; its CWID is its key in the registry. */
  datatype InstructorState = InstructorState(name: string, department: string, taught: set<string>, counts: map<string, nat>)
  {
    /** `student_count[course]`, a counter that reads 0 for a course never counted. */
    function Count(course: string): nat
    {
      if course in counts then counts[course] else 0
    }

    /** The courses taught are exactly the courses with a positive count. */
    ghost predicate Consistent()
    {
      forall c :: c in taught <==> Count(c) > 0
    }

    /** The instructor after one grade record for `course`: taught, counted once more. */
    function Counted(course: string): InstructorState
    {
      this.(taught := taught + {course}, counts := counts[course := Count(course) + 1])
    }
  }

  /** The two registries of the university, students and instructors by CWID. */
  datatype Registry = Registry(students: map<string, StudentState>, instructors: map<string, InstructorState>)

  ghost predicate AllConsistent(r: Registry)
  {
    && (forall k :: k in r.students ==> r.students[k].Consistent())
    && (forall k :: k in r.instructors ==> r.instructors[k].Consistent())
  }

  /** Inserting keyed entries in order, a later entry overwriting an earlier one with the same key. */
  function Upsert<V>(m: map<string, V>, entries: seq<(string, V)>): (r: map<string, V>)
    decreases |entries|
  {
    if |entries| == 0 then m
    else
      var last := entries[|entries| - 1];
      Upsert(m, entries[..|entries| - 1])[last.0 := last.1]
  }

  /** Loading one more entry. */
  lemma UpsertStep<V>(m: map<string, V>, entries: seq<(string, V)>, i: nat, before: map<string, V>, after: map<string, V>)
    requires i < |entries|
    requires before == Upsert(m, entries[..i]) && after == before[entries[i].0 := entries[i].1]
    ensures after == Upsert(m, entries[..i + 1])
  {
    assert entries[..i + 1][..i] == entries[..i];
  }

  /** One new student per row `(cwid, name, major)`, with nothing completed. */
  function StudentEntries(rows: seq<seq<string>>): (es: seq<(string, StudentState)>)
    requires forall j :: 0 <= j < |rows| ==> |rows[j]| == 3
    ensures |es| == |rows|
  {
    seq(|rows|, j requires 0 <= j < |rows| => (rows[j][0], StudentState(rows[j][1], rows[j][2], {}, map[])))
  }

  /** One new instructor per row `(cwid, name, department)`, with nothing taught. */
  function InstructorEntries(rows: seq<seq<string>>): (es: seq<(string, InstructorState)>)
    requires forall j :: 0 <= j < |rows| ==> |rows[j]| == 3
    ensures |es| == |rows|
  {
    seq(|rows|, j requires 0 <= j < |rows| => (rows[j][0], InstructorState(rows[j][1], rows[j][2], {}, map[])))
  }

  /**
   * Loading into a registry: a key is present afterwards exactly when it was
   * before or some entry carries it; an entry's key maps to the value of the
   * LAST entry with that key; keys no entry carries keep their old value.
   */
  lemma {:induction false} UpsertSpec<V>(m: map<string, V>, entries: seq<(string, V)>, k: string)
    ensures k in Upsert(m, entries) <==> k in m || exists j :: 0 <= j < |entries| && entries[j].0 == k
    ensures forall j :: 0 <= j < |entries| && entries[j].0 == k && (forall j' :: j < j' < |entries| ==> entries[j'].0 != k)
              ==> k in Upsert(m, entries) && Upsert(m, entries)[k] == entries[j].1
    ensures k in m && (forall j :: 0 <= j < |entries| ==> entries[j].0 != k) ==> k in Upsert(m, entries) && Upsert(m, entries)[k] == m[k]
    decreases |entries|
  {
    if |entries| > 0 {
      var n := |entries| - 1;
      var init := entries[..n];
      UpsertSpec(m, init, k);
      assert forall j :: 0 <= j < n ==> init[j] == entries[j];
      if (exists j :: 0 <= j < |entries| && entries[j].0 == k) && entries[n].0 != k {
        var j :| 0 <= j < |entries| && entries[j].0 == k;
        assert j < n && init[j].0 == k;
      }
    }
  }

  /** Loading rows with pairwise different keys into an empty registry gives one entry per row. */
  lemma {:induction false} UpsertSize<V>(entries: seq<(string, V)>)
    requires forall i, j :: 0 <= i < j < |entries| ==> entries[i].0 != entries[j].0
    ensures |Upsert(map[], entries)| == |entries|
    decreases |entries|
  {
    if |entries| > 0 {
      var n := |entries| - 1;
      var init := entries[..n];
      UpsertSize(init);
      UpsertSpec(map[], init, entries[n].0);
    }
  }

  /** Nothing recorded yet: no student has completed a course and no instructor has taught one. */
  ghost predicate Untouched(r: Registry)
  {
    && (forall k :: k in r.students ==> r.students[k].completed == {} && r.students[k].grades == map[])
    && (forall i :: i in r.instructors ==> r.instructors[i].taught == {} && r.instructors[i].counts == map[])
  }

  /** Every value loaded into a registry came either from the registry before or from one of the entries. */
  lemma {:induction false} UpsertOrigin<V>(m: map<string, V>, entries: seq<(string, V)>, k: string)
    requires k in Upsert(m, entries)
    ensures (k in m && Upsert(m, entries)[k] == m[k]) || exists j :: 0 <= j < |entries| && Upsert(m, entries)[k] == entries[j].1
    decreases |entries|
  {
    if |entries| > 0 {
      var n := |entries| - 1;
      var init := entries[..n];
      if entries[n].0 != k {
        UpsertOrigin(m, init, k);
        if !(k in m && Upsert(m, init)[k] == m[k]) {
          var j :| 0 <= j < |init| && Upsert(m, init)[k] == init[j].1;
          assert entries[j] == init[j];
        }
      }
    }
  }

  /** Registries freshly loaded from rows hold nothing recorded. */
  lemma FreshlyLoaded(studentRows: seq<seq<string>>, instructorRows: seq<seq<string>>)
    requires forall j :: 0 <= j < |studentRows| ==> |studentRows[j]| == 3
    requires forall j :: 0 <= j < |instructorRows| ==> |instructorRows[j]| == 3
    ensures Untouched(Registry(Upsert(map[], StudentEntries(studentRows)), Upsert(map[], InstructorEntries(instructorRows))))
    ensures AllConsistent(Registry(Upsert(map[], StudentEntries(studentRows)), Upsert(map[], InstructorEntries(instructorRows))))
  {
    var ss := Upsert(map[], StudentEntries(studentRows));
    var ts := Upsert(map[], InstructorEntries(instructorRows));
    forall k | k in ss
      ensures ss[k].completed == {} && ss[k].grades == map[]
    {
      UpsertOrigin(map[], StudentEntries(studentRows), k);
    }
    forall i | i in ts
      ensures ts[i].taught == {} && ts[i].counts == map[]
    {
      UpsertOrigin(map[], InstructorEntries(instructorRows), i);
    }
  }

  /** A CWID is registered after loading student rows into an empty registry exactly when some row carries it. */
  lemma StudentRoster(rows: seq<seq<string>>, k: string)
    requires forall j :: 0 <= j < |rows| ==> |rows[j]| == 3
    ensures k in Upsert(map[], StudentEntries(rows)) <==> exists j :: 0 <= j < |rows| && rows[j][0] == k
  {
    var es := StudentEntries(rows);
    UpsertSpec(map[], es, k);
    if exists j :: 0 <= j < |rows| && rows[j][0] == k {
      var j :| 0 <= j < |rows| && rows[j][0] == k;
      assert es[j].0 == k;
    }
  }

  /** A CWID is registered after loading instructor rows into an empty registry exactly when some row carries it. */
  lemma InstructorRoster(rows: seq<seq<string>>, k: string)
    requires forall j :: 0 <= j < |rows| ==> |rows[j]| == 3
    ensures k in Upsert(map[], InstructorEntries(rows)) <==> exists j :: 0 <= j < |rows| && rows[j][0] == k
  {
    var es := InstructorEntries(rows);
    UpsertSpec(map[], es, k);
    if exists j :: 0 <= j < |rows| && rows[j][0] == k {
      var j :| 0 <= j < |rows| && rows[j][0] == k;
      assert es[j].0 == k;
    }
  }
}
