# University records: a Dafny model

This project models the core of a small university reporting tool. The tool
has four parts:

- A delimited line reader, `file_reading_gen`.
- Three kinds of records: `Student`, `Instructor` and `Major`.
- The `University`. It loads students, instructors, grade records and majors
  from four text files, in that order. It links each grade record to the
  student and the instructor it names. It builds three summary tables.
- The older single-file variant in `university_management_system.py`. It uses
  three tab-separated files without headers, and has no majors.

The model keeps the form of the source:

- **Reader.** The reader is a loop (`Helpers.FileReadingGen` and `Helpers.ReadRecords`). It is proved against a pure function on the file's lines (`Helpers.Parse`).
- **Records.** Students, instructors, majors and the university are classes. Their fields are updated in place by methods with `modifies` clauses.
- **Loading.** Loading and linking are loops over the yielded tuples. Each loop is proved against a function on values:
  - `Entities.Upsert` fills a registry, as the insert loops at university.py:54-59 and 70-75 do; `Entities.UpsertSpec` states what it computes;
  - `Linker.LinkAll` applies the grade records;
  - `Majors.Catalogue` fills the majors.
- **Construction.** The whole constructor is `Loading.Build`. Its result is tied to the pure pipeline `Loading.Load`, and the lemmas about `Load` state what construction produces.

Files are given as the sequence of lines that iterating over the open file
yields: every line but possibly the last ends in `'\n'`, and no line is empty.
A reader error is a value. `MalformedHeader` and `MalformedRecord` carry the
expected field count, the found field count and, for a record, its 1-based
line number. The error ends the run after the tuples before the bad line have
been consumed, which is what the consumer of the generator sees.

Modules:

- `Text`: `str.split` and `str.join` for a one-character separator.
- `Sorting`: Python's string order and `sorted()`.
- `Helpers`: the reader.
- `Entities`: the values held by the student and instructor registries.
- `Linker`: the grade records and linking.
- `Students`, `Instructors` and `Majors`: the three record classes.
- `Universities`: the University class and the report rows.
- `Loading`: construction, for `university.py`.
- `Legacy`: the older variant.

## Model

| member | source | states |
|---|---|---|
| Text.Split | helpers.py:30 | `n` separators give `n + 1` fields, and no field contains the separator |
| Text.JoinSplit | helpers.py:30 | joining the fields of a split with the separator gives back the split string |
| Text.SplitJoin | helpers.py:30 | splitting the join of separator-free fields gives back those fields |
| Text.SplitPrefix | helpers.py:30 | a separator-free prefix becomes part of the first field |
| Helpers.Fields | helpers.py:28-30 | a data line's fields: one more than the separators in the line without its newline, none containing the separator |
| Helpers.StripNewline | helpers.py:28-29 | exactly one trailing newline is removed, and only when the line ends in one |
| Helpers.ParseFrom | helpers.py:27-34 | the tuples yielded from the data lines have the expected arity, and there are at most as many as there are lines |
| Helpers.Parse | helpers.py:18-34 | every yielded tuple has the expected number of fields |
| Helpers.FileReadingGen | helpers.py:1-34 | the generator loop yields exactly the tuples and the error of `Parse` |
| Helpers.ReadRecords | helpers.py:27-34 | the loop over the data lines collects exactly what `ParseFrom` describes |
| Helpers.ParseFromSpec | helpers.py:27-34 | tuple `j` is the split of data line `j`; the read ends without error iff every line was yielded; otherwise the first line of the wrong arity raises, with its number |
| Helpers.ParseHeader | helpers.py:19-26 | a header of the wrong arity raises before any tuple; otherwise the header is skipped and numbering starts at 2 |
| Helpers.ParseSpec | helpers.py:18-34 | the reader's whole contract in file-line terms: tuple `j` is line `j + skip` split; the error names the first bad line by its number and field count; a read without error yields every data line |
| Helpers.ParseRows | helpers.py:27-34 | yielded tuples are the split data lines in order, all of them when nothing raised |
| Helpers.ParseFailure | helpers.py:31-32 | a record error names a line `n` with `1 <= n <= |lines|` whose split has the reported, wrong field count |
| Helpers.DataLine | helpers.py:24-27 | data line `j` is file line `j + 1` when there is a header and `j` otherwise |
| Helpers.RowRoundTrip | helpers.py:28-30 | joining a yielded tuple gives back its line without the trailing newline |
| Sorting.BelowIrreflexive | university.py:91 | no string is below itself in Python's order |
| Sorting.BelowAsymmetric | university.py:91 | Python's string order is asymmetric |
| Sorting.BelowTransitive | university.py:91 | Python's string order is transitive |
| Sorting.BelowTotal | university.py:91 | any two different strings are ordered |
| Sorting.Least | university.py:91 | returns the element of a non-empty set that is below every other element |
| Sorting.SortedList | university.py:91 | `sorted(s)`: every element of the set, once, in strictly ascending order |
| Sorting.SortedListUnique | university.py:91 | only one list is the sorted form of a set |
| Students.Student.constructor | student.py:17-22 | a new student keeps its CWID, name and major, with nothing completed and no grades |
| Students.Student.RecordGrade | university.py:140-141 | the course is added to the completed courses and its grade is set or overwritten; each completed course keeps exactly one grade |
| Instructors.Instructor.constructor | instructor.py:20-26 | a new instructor keeps its CWID, name and department, with no courses and every count 0 |
| Instructors.Instructor.CountStudent | university.py:143-144 | the course is taught and its count rises by one; other counts are unchanged; the taught courses are those with a positive count |
| Majors.AddCourse | major.py:23-26 | only adds: the course becomes required iff it was or the flag is "R", an elective iff it was or the flag is anything else, and no other course is added |
| Majors.AddCourseIdempotent | major.py:23-26 | adding the same course with the same flag twice equals adding it once |
| Majors.AddCourseConflictingFlags | major.py:23-26 | a course flagged "R" and then flagged otherwise is in both sets |
| Majors.Catalogue | university.py:38-45 | loading rows never drops a major or a course it already had |
| Majors.CatalogueKeys | university.py:38-45 | a major is registered iff it was before or some row names it |
| Majors.CatalogueCourses | university.py:38-45 | a major's required (elective) courses are its earlier ones plus those of the rows naming it with flag "R" (any other flag) |
| Majors.CatalogueSpec | university.py:35-48 | loading majors: the registered majors and the courses of each, as above |
| Majors.Major.constructor | major.py:11-13 | a new major has no required and no elective courses |
| Majors.Major.Add | major.py:15-26 | flag "R" adds to the required courses and any other flag to the electives; the other set is untouched |
| Majors.Major.RemainingRequired | major.py:28-38 | the required courses not completed: none of them completed, none missed, empty iff all required courses are done |
| Majors.Major.RemainingElectives | major.py:40-50 | all electives while none is completed, none once any is completed |
| Entities.UpsertSpec | university.py:50-61 | a CWID is registered iff some row carries it; the last row with a CWID decides its record; other records are kept |
| Entities.UpsertSize | university.py:50-61 | rows with pairwise different CWIDs give one record each |
| Entities.UpsertOrigin | university.py:50-61 | every registered record comes from the earlier registry or from a row |
| Entities.FreshlyLoaded | university.py:58-61 | freshly loaded students have no courses or grades, and fresh instructors have no courses or counts; both are consistent |
| Entities.StudentRoster | university.py:50-61 | a student CWID is registered iff some students-file tuple carries it |
| Entities.InstructorRoster | university.py:64-77 | an instructor CWID is registered iff some instructors-file tuple carries it |
| Linker.Link | university.py:132-144 | one grade record links iff both CWIDs are registered; a missing student is reported before a missing instructor; linking adds and removes no CWID |
| Linker.LinkAll | university.py:124-144 | the run applies at most every record, and all of them when no error stopped it |
| Linker.LinkEffect | university.py:132-144 | one record: missing student first, then missing instructor; otherwise completed courses, grade, taught courses and count +1 change, and nothing else |
| Linker.RepeatedRecord | university.py:140-144 | the same record twice counts twice but completes the course once |
| Linker.LinkAllKeys | university.py:132-144 | linking never adds or removes a student or an instructor |
| Linker.LinkAllFails | university.py:132-135 | a record that fails to link ends the run with that error |
| Linker.LinkAllStops | university.py:132-135 | once a run has stopped, later records change nothing |
| Linker.LinkAllHalts | university.py:124-146 | the run stops at the first record naming an unregistered student (reported first) or instructor; the records before it are all applied; no error iff all were applied |
| Linker.LastGradeSpec | university.py:141 | the kept grade is that of the last record for the student and course, and there is none when no record exists |
| Linker.TallySize | university.py:144 | the tally of an instructor has one course per record naming them |
| Linker.LinkAllStudent | university.py:137-141 | a student's completed courses grow by the courses of the applied records naming them, and each such course gets its last grade |
| Linker.LinkAllInstructor | university.py:138-144 | an instructor's taught courses and counts grow by the tally of the applied records naming them |
| Linker.LinkAllConsistent | university.py:137-144 | linking keeps grades exactly for completed courses and taught courses exactly those with a positive count |
| Linker.FreshInstructorCounts | university.py:143-144 | a freshly loaded instructor's counts are the tally, and they sum to the number of records naming them |
| Universities.StudentSummary | university.py:85-100 | the row of a student holds its CWID, name and major, its sorted completed courses, and its sorted remaining required courses and electives, each None when empty |
| Universities.CourseRows | university.py:104-107 | one row per course an instructor taught, each with its positive count, no course twice |
| Universities.University.constructor | university.py:26-29 | all three registries start empty |
| Universities.University.Enrol | university.py:59 | stores a new student under its CWID, replacing any student stored there |
| Universities.University.Appoint | university.py:75 | stores a new instructor under its CWID, replacing any instructor stored there |
| Universities.University.AddStudents | university.py:54-60 | the students registry becomes the earlier one loaded with the rows, in order |
| Universities.University.AddInstructors | university.py:68-75 | the instructors registry becomes the earlier one loaded with the rows, in order |
| Universities.University.ReadStudents | university.py:53-60 | the rows before the first malformed line are loaded and the reader's error is returned |
| Universities.University.GetStudents | university.py:50-61 | students are loaded as above, and a reader error becomes invalid data in the students file |
| Universities.University.ReadInstructors | university.py:67-75 | the rows before the first malformed line are loaded and the reader's error is returned |
| Universities.University.GetInstructors | university.py:64-77 | instructors are loaded as above, and a reader error becomes invalid data in the instructors file |
| Universities.University.Credit | university.py:137-144 | one valid record updates exactly the named student and instructor, as `Link` does |
| Universities.University.ApplyGrades | university.py:125-144 | the loop over grade records leaves the registries and the error that `LinkAll` describes |
| Universities.University.UpdateCourseInfo | university.py:118-146 | an unknown CWID is reported as it is; otherwise a reader error becomes invalid data in the grades file; the records before it are applied |
| Universities.University.MajorFor | university.py:29 | looking up a major name creates that major empty on first use |
| Universities.University.AddRow | university.py:40-45 | one majors row adds its course to its major, by the flag rule |
| Universities.University.AddCourses | university.py:38-45 | the majors registry becomes `Catalogue` of the earlier one and the rows |
| Universities.University.GetMajors | university.py:35-48 | majors are loaded as above, a reader error becomes invalid data in the majors file, and students and instructors are unchanged |
| Universities.StudentRows | university.py:83-100 | succeeds iff every student's major is registered, else reports a student with an unknown major; on success one row per student, describing it against its major |
| Universities.InstructorRows | university.py:102-107 | one row per (instructor, course taught), each with its positive count, covering every such pair once |
| Universities.MajorRows | university.py:109-114 | one row per major with its required and elective courses sorted, covering every major once |
| Loading.FreshStudentGrades | university.py:137-141 | after every record is applied to a fresh registry, a student has completed exactly the courses of the records naming them, each with its last grade, and has no other grade |
| Loading.FreshInstructorTally | university.py:143-144 | after every record is applied to a fresh registry, an instructor's counts are the number of records per course and sum to the records naming them |
| Loading.Roster | university.py:30-31 | the students then instructors phases: no majors; no error iff both files read to the end; a students-file error stops before any instructor is loaded; every error is invalid data in a file |
| Loading.Load | university.py:25-33 | construction: without error only if all four files read to the end; a students-file error stops before any instructor is loaded; majors are loaded only when construction ends with the majors file's outcome |
| Loading.BuildRoster | university.py:30-31 | the first two construction phases, students then instructors, leave what `Roster` describes |
| Loading.Build | university.py:25-33 | construction leaves the registries, majors and error that `Load` describes |
| Loading.LoadConsistent | university.py:25-33 | after construction, every grade belongs to a completed course and every taught course has a positive count |
| Loading.LoadRegistry | university.py:25-33 | the registries construction leaves, phase by phase |
| Loading.LoadRoster | university.py:30-31 | a CWID is a student iff some students-file tuple carries it; once that file loaded, likewise for instructors |
| Loading.LoadSucceeds | university.py:25-33 | construction succeeds iff all four files read to the end and every grade record names a registered student and a registered instructor |
| Loading.LoadUnlinked | university.py:132-135 | an unlinked error names a CWID that is not registered and that some grade record uses |
| Loading.LoadStudentGrades | university.py:137-141 | after construction, a student's completed courses and grades are those of the grade records naming them, with the last grade kept |
| Loading.LoadInstructorCounts | university.py:138-144 | after construction, an instructor's counts are the records naming them per course, the taught courses those with a record, and the counts sum to the records naming them |
| Loading.LoadReachesMajors | university.py:33 | when construction ends with the majors file's outcome, the majors are what that file loads into an empty registry; otherwise no major is loaded |
| Loading.LoadCatalog | university.py:35-48 | once majors are loaded: a major is registered iff a tuple names it, with its "R" courses required and its other courses electives |
| Legacy.LegacyLoad | university_management_system.py:74-148 | the older construction never loads majors; a students-file reader error is passed on unchanged; the only error re-raised as invalid data is the grades file's |
| Legacy.LegacyBuild | university_management_system.py:74-80 | the older constructor leaves the registries and error that `LegacyLoad` describes, and no majors |
| Legacy.LegacySucceeds | university_management_system.py:82-148 | succeeds iff all three files read to the end and every record names registered CWIDs; a students-file reader error is passed on unchanged |
| Legacy.LegacyConsistent | university_management_system.py:120-148 | the older construction keeps every record consistent |
| Legacy.LegacyRegistry | university_management_system.py:74-80 | a successful older construction leaves what a complete run of the linker over the loaded registries leaves |
| Legacy.LegacyStudentGrades | university_management_system.py:139-143 | after the older construction, completed courses and grades are those of the records naming the student, with the last grade kept |
| Legacy.LegacyInstructorCounts | university_management_system.py:140-146 | after the older construction, the counts are the records naming the instructor per course, and they sum to those records |
| Legacy.LegacyStudentRows | university_management_system.py:105-109 | one row per student: its CWID, name and sorted completed courses, covering every student once |

## Left out

- Paths and `open`: each file is given as the lines that iterating over it yields, and each line is non-empty. A missing file (`FileNotFoundError`) is not modelled.
- Generator laziness: the reader returns the tuples before the first bad line together with the error. Each consumer handles those tuples and then surfaces the error. This is what the consumer observes. The only case where order matters is a grade record naming an unknown CWID before a bad line, and the model reports that record first, as the code does.
- Exception message texts: errors are values carrying the numbers in the messages (expected and found field counts, line number, CWID, major).
- PrettyTable and string rendering: the summaries are rows of datatypes. `__str__` of `Student` and `Instructor` (student.py:24-25, instructor.py:28-29, university_management_system.py:28-29, 56-57) is formatting only and is not modelled.
- The `path` attribute: the path is not modelled.
- `Universities.StudentRows`: rows come in an unspecified order, where Python lists students in insertion order. When several students have unknown majors, the model reports one of them and Python reports the first inserted.
- `Universities.InstructorRows`: instructors and courses come in an unspecified order, where Python uses dict insertion order and set order.
- `Universities.MajorRows`: majors come in an unspecified order, where Python uses insertion order.
- `Legacy.LegacyStudentRows`: rows come in an unspecified order, where Python lists students in insertion order.
- `Legacy`: the older file's own copy of the reader (university_management_system.py:152-171) is the same code as helpers.py:18-34, and the model uses one definition for both. Its own `Student` and `Instructor` classes have the same fields and constructors as those in student.py and instructor.py. The model uses one definition of each. Its instructor table (university_management_system.py:111-116) is the same computation as university.py:102-107, so `Universities.InstructorRows` models both.
- Conflicting flags are not resolved: `Major.add` (major.py:23-26) only ever adds, so a course flagged "R" and later flagged otherwise is in both sets, not only in the set of its last flag. The model does the same; `Majors.AddCourseConflictingFlags` states it.
- Per-file formats: unit_tests.py:29 and app.py:7 pass the constructor one (separator, header) pair per file, but `University.__init__` takes only the path, and university.py:39, 54, 70 and 125 fix the formats: students `;` with a header, instructors `|` without, grades `|` with, majors tab with. The model uses those constants (`Universities.StudentsFormat` and the others), and the loader methods take a `FileFormat`.
- app.py, a command-line script that builds a `University` and prints it or the error it caught, and unit_tests.py are not part of this model.
