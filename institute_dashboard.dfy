/** The statistics of the institute dashboard
    (src/pages/institute/Dashboard.tsx): total students, the per-course tally
    and the number of courses offered, over the institute's own records. */
module InstituteDashboard {
  import opened Wrappers
  import opened Records
  import opened Tally
  import GovernmentDashboard

  /** `studentsByCourse`: nothing before data arrives. */
  function StudentsByCourse(students: Option<seq<StudentRecord>>): seq<Entry> {
    if students.None? then [] else Counts(CourseKeys(students.value))
  }

  /** `students?.length || 0`. */
  function TotalStudents(students: Option<seq<StudentRecord>>): nat {
    if students.None? then 0 else |students.value|
  }

  /** `Object.keys(studentsByCourse).length`. */
  function CoursesOffered(students: Option<seq<StudentRecord>>): nat {
    |StudentsByCourse(students)|
  }

  /** Without data the tally is empty and both figures are 0. With data the
      count of course `k` is the number of students in it, every listed course
      has at least one student, the counts add up to the total shown, and the
      number of courses offered is the number of distinct courses. */
  lemma StatisticsSpec(students: Option<seq<StudentRecord>>, k: string)
    ensures students.None? ==> StudentsByCourse(students) == [] && TotalStudents(students) == 0
    ensures students.Some? ==>
      && Get(StudentsByCourse(students), k) == multiset(CourseKeys(students.value))[k]
      && AllPositive(StudentsByCourse(students))
      && Sum(StudentsByCourse(students)) == TotalStudents(students)
      && CoursesOffered(students) == |set c | c in CourseKeys(students.value)|
  {
    if students.Some? {
      GovernmentDashboard.TallySpec(CourseKeys(students.value), k);
    }
  }

  /** Both dashboards count courses the same way: for a non-empty list, the
      institute dashboard's tally is the government dashboard's. */
  lemma SameCourseTally(students: seq<StudentRecord>)
    requires |students| > 0
    ensures StudentsByCourse(Some(students)) == GovernmentDashboard.StudentsByCourse(students)
  {
  }

  /** The dashboard's figures, with the tally built by the in-place fold. */
  method Statistics(students: Option<seq<StudentRecord>>)
    returns (total: nat, byCourse: seq<Entry>, coursesOffered: nat)
    ensures total == TotalStudents(students)
    ensures byCourse == StudentsByCourse(students)
    ensures coursesOffered == CoursesOffered(students)
    ensures Sum(byCourse) == total
  {
    if students.None? {
      total, byCourse := 0, [];
    } else {
      total := |students.value|;
      byCourse := CountBy(CourseKeys(students.value));
      CountsSum(CourseKeys(students.value));
    }
    coursesOffered := |byCourse|;
  }
}
