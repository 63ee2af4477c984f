/** The statistics of the government dashboard
    (src/pages/government/Dashboard.tsx): the students it counts, the
    per-institute and per-course tallies and the five largest courses. */
module GovernmentDashboard {
  import opened Seqs
  import opened Records
  import opened Tally
  import Api

  /** The dashboard asks for page 1 with this many records per page. */
  const StatsLimit := 1000

  /** The five largest courses are listed. */
  const TopCount := 5

  /** `data?.students`: page 1 of the store, unfiltered, 1000 per page. */
  function DashboardStudents(store: seq<StudentRecord>): seq<StudentRecord> {
    Api.AllStudents(store, 1, StatsLimit, []).students
  }

  /** The dashboard sees the first 1000 records of the store and no more, so
      its statistics cover at most 1000 students. */
  lemma DashboardStudentsSpec(store: seq<StudentRecord>)
    ensures DashboardStudents(store) == store[..Min(StatsLimit, |store|)]
    ensures |DashboardStudents(store)| <= StatsLimit
    ensures |store| <= StatsLimit ==> DashboardStudents(store) == store
  {
    Api.NoFiltersListsAll(store);
    Api.PageSpec(store, 1, StatsLimit);
  }

  /** `studentsByInstitute`. */
  function StudentsByInstitute(students: seq<StudentRecord>): seq<Entry> {
    if |students| == 0 then [] else Counts(InstituteKeys(students))
  }

  /** `studentsByCourse`. */
  function StudentsByCourse(students: seq<StudentRecord>): seq<Entry> {
    if |students| == 0 then [] else Counts(CourseKeys(students))
  }

  /** `topCourses`. */
  function TopCourses(students: seq<StudentRecord>): seq<Entry> {
    Top(StudentsByCourse(students), TopCount)
  }

  /** Both tallies and the fold behind them, tied together: either tally
      holds one entry per distinct key, the count of `k` is the number of
      students with key `k` and at least 1, the keys present are exactly those
      that occur, and the counts add up to the number of students. */
  lemma TallySpec(keys: seq<string>, k: string)
    ensures DistinctKeys(Counts(keys)) && AllPositive(Counts(keys))
    ensures Get(Counts(keys), k) == multiset(keys)[k]
    ensures IndexOfKey(Counts(keys), k) >= 0 <==> k in keys
    ensures Sum(Counts(keys)) == |keys|
    ensures |Counts(keys)| == |set x | x in keys|
  {
    CountsDistinct(keys);
    CountsPositive(keys);
    CountsCount(keys, k);
    CountsKeys(keys, k);
    CountsSum(keys);
    CountsSize(keys);
  }

  /** The institute tally of the dashboard's students: empty for no students;
      the count of institute `k` is the number of students there; an
      institute has an entry exactly when some student is there; and the
      counts sum to `totalStudents`. */
  lemma ByInstituteSpec(students: seq<StudentRecord>, k: string)
    ensures |students| == 0 ==> StudentsByInstitute(students) == []
    ensures Get(StudentsByInstitute(students), k) == multiset(InstituteKeys(students))[k]
    ensures IndexOfKey(StudentsByInstitute(students), k) >= 0 <==>
      exists i :: 0 <= i < |students| && students[i].institute == k
    ensures Sum(StudentsByInstitute(students)) == |students|
    ensures AllPositive(StudentsByInstitute(students)) && DistinctKeys(StudentsByInstitute(students))
  {
    TallySpec(InstituteKeys(students), k);
    var ks := InstituteKeys(students);
    assert |ks| == |students| && forall i :: 0 <= i < |ks| ==> ks[i] == students[i].institute;
    assert k in ks <==> exists i :: 0 <= i < |students| && students[i].institute == k by {
      if k in ks {
        var i :| 0 <= i < |ks| && ks[i] == k;
        assert students[i].institute == k;
      }
    }
  }

  /** The number of institute keys equal to `k` is the length of the
      institute listing for `k`. */
  lemma {:induction false} InstituteKeysCount(s: seq<StudentRecord>, k: string)
    ensures multiset(InstituteKeys(s))[k] == |Api.ByInstitute(s, k)|
    decreases |s|
  {
    if s != [] {
      InstituteKeysCount(s[1..], k);
      assert InstituteKeys(s) == [s[0].institute] + InstituteKeys(s[1..]);
    }
  }

  /** The dashboard's count for institute `k` is the number of records the
      institute listing of `k` returns for the same students. */
  lemma InstituteCountIsListing(students: seq<StudentRecord>, k: string)
    ensures Get(StudentsByInstitute(students), k) == |Api.ByInstitute(students, k)|
  {
    ByInstituteSpec(students, k);
    InstituteKeysCount(students, k);
  }

  /** The same for the course tally. */
  lemma ByCourseSpec(students: seq<StudentRecord>, k: string)
    ensures |students| == 0 ==> StudentsByCourse(students) == []
    ensures Get(StudentsByCourse(students), k) == multiset(CourseKeys(students))[k]
    ensures IndexOfKey(StudentsByCourse(students), k) >= 0 <==>
      exists i :: 0 <= i < |students| && students[i].course == k
    ensures Sum(StudentsByCourse(students)) == |students|
    ensures AllPositive(StudentsByCourse(students)) && DistinctKeys(StudentsByCourse(students))
  {
    TallySpec(CourseKeys(students), k);
    var ks := CourseKeys(students);
    assert |ks| == |students| && forall i :: 0 <= i < |ks| ==> ks[i] == students[i].course;
    assert k in ks <==> exists i :: 0 <= i < |students| && students[i].course == k by {
      if k in ks {
        var i :| 0 <= i < |ks| && ks[i] == k;
        assert students[i].course == k;
      }
    }
  }

  /** The number of course keys equal to `c` is the number of students
      taking course `c`. */
  lemma {:induction false} CourseKeysCount(s: seq<StudentRecord>, c: string)
    ensures multiset(CourseKeys(s))[c] == |Filter(s, (r: StudentRecord) => r.course == c)|
    decreases |s|
  {
    if s != [] {
      CourseKeysCount(s[1..], c);
      assert CourseKeys(s) == [s[0].course] + CourseKeys(s[1..]);
    }
  }

  /** The dashboard's count for course `c` is the number of students taking it. */
  lemma CourseCountIsFilter(students: seq<StudentRecord>, c: string)
    ensures Get(StudentsByCourse(students), c) == |Filter(students, (r: StudentRecord) => r.course == c)|
  {
    ByCourseSpec(students, c);
    CourseKeysCount(students, c);
  }

  /** Five courses, or all of them when there are fewer, each with its true
      count, largest first, and no course left out has more students than
      one listed. */
  lemma TopCoursesSpec(students: seq<StudentRecord>)
    ensures |TopCourses(students)| == Min(TopCount, |StudentsByCourse(students)|)
    ensures forall e :: e in TopCourses(students) ==> e in StudentsByCourse(students)
    ensures NonIncreasing(TopCourses(students))
    ensures forall e, t :: e in StudentsByCourse(students) && e !in TopCourses(students) && t in TopCourses(students)
                           ==> e.count <= t.count
  {
    TopSpec(StudentsByCourse(students), TopCount);
  }

  /** The dashboard's figures for the students it fetched, with the tallies
      built by the in-place fold. */
  method Statistics(students: seq<StudentRecord>)
    returns (totalStudents: int, byInstitute: seq<Entry>, byCourse: seq<Entry>, topCourses: seq<Entry>)
    ensures totalStudents == |students|
    ensures byInstitute == StudentsByInstitute(students)
    ensures byCourse == StudentsByCourse(students)
    ensures topCourses == TopCourses(students)
    ensures Sum(byInstitute) == totalStudents && Sum(byCourse) == totalStudents
  {
    totalStudents := |students|;
    if |students| == 0 {
      byInstitute, byCourse := [], [];
    } else {
      byInstitute := CountBy(InstituteKeys(students));
      byCourse := CountBy(CourseKeys(students));
    }
    topCourses := Top(byCourse, TopCount);
    CountsSum(InstituteKeys(students));
    CountsSum(CourseKeys(students));
  }
}
