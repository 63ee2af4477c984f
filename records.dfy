/** The student record (src/services/api.ts), the fixed institute and course
    lists, the create and update payload shapes, and the object spread that
    merges an update into a record. */
module Records {
  import opened Wrappers
  import opened Text

  datatype Gender = Male | Female | Other

  function GenderName(g: Gender): string {
    match g
    case Male => "Male"
    case Female => "Female"
    case Other => "Other"
  }

  /** Reads one of the three gender names; anything else is refused. */
  function GenderOf(s: string): Option<Gender> {
    if s == "Male" then Some(Male)
    else if s == "Female" then Some(Female)
    else if s == "Other" then Some(Other)
    else None
  }

  /** Gender names and `GenderOf` are inverse to each other. */
  lemma GenderOfName(g: Gender, s: string)
    ensures GenderOf(GenderName(g)) == Some(g)
    ensures GenderOf(s) == Some(g) <==> s == GenderName(g)
  {
  }

  datatype StudentRecord = StudentRecord(
    id: string,
    abcId: string,
    fullName: string,
    dob: string,
    gender: Gender,
    institute: string,
    course: string,
    yearOfAdmission: int,
    currentYear: int,
    email: string,
    contactNumber: string)

  const Institutes: seq<string> := [
    "Delhi University",
    "Mumbai University",
    "Bangalore Institute of Technology",
    "IIT Madras",
    "Amity University"
  ]

  const Courses: seq<string> := [
    "B.Tech. Computer Science",
    "B.Tech. Electrical Engineering",
    "B.Tech. Mechanical Engineering",
    "B.Com. Honors",
    "BBA",
    "M.Tech. Computer Science",
    "M.Tech. Electronics",
    "MBA",
    "M.Sc. Physics",
    "B.Sc. Mathematics"
  ]

  /** The id the store gives the `n`-th record: `student-${n}`. */
  function StudentId(n: int): string {
    "student-" + IntToString(n)
  }

  /** Different numbers give different ids. */
  lemma StudentIdInjective(a: int, b: int)
    requires StudentId(a) == StudentId(b)
    ensures a == b
  {
    assert StudentId(a)[8..] == IntToString(a);
    assert StudentId(b)[8..] == IntToString(b);
    IntToStringInjective(a, b);
  }

  /** `Omit<StudentRecord, 'id' | 'abcId'>`: what a create request carries. */
  datatype NewStudent = NewStudent(
    fullName: string,
    dob: string,
    gender: Gender,
    institute: string,
    course: string,
    yearOfAdmission: int,
    currentYear: int,
    email: string,
    contactNumber: string)

  /** `{ ...student, id, abcId }`: a create payload completed by the store. */
  function WithIdentity(n: NewStudent, id: string, abcId: string): (r: StudentRecord)
    ensures r.id == id && r.abcId == abcId
    ensures Payload(r) == n
  {
    StudentRecord(id, abcId, n.fullName, n.dob, n.gender, n.institute, n.course,
                  n.yearOfAdmission, n.currentYear, n.email, n.contactNumber)
  }

  /** The fields of a record other than `id` and `abcId`. */
  function Payload(r: StudentRecord): NewStudent {
    NewStudent(r.fullName, r.dob, r.gender, r.institute, r.course,
               r.yearOfAdmission, r.currentYear, r.email, r.contactNumber)
  }

  /** `Partial<StudentRecord>`: every field is either present or absent. */
  datatype StudentUpdate = StudentUpdate(
    id: Option<string>,
    abcId: Option<string>,
    fullName: Option<string>,
    dob: Option<string>,
    gender: Option<Gender>,
    institute: Option<string>,
    course: Option<string>,
    yearOfAdmission: Option<int>,
    currentYear: Option<int>,
    email: Option<string>,
    contactNumber: Option<string>)

  const NoChanges: StudentUpdate :=
    StudentUpdate(None, None, None, None, None, None, None, None, None, None, None)

  /** `{ ...r, ...u }`: the fields present in `u` override those of `r`. */
  function Merge(r: StudentRecord, u: StudentUpdate): StudentRecord {
    StudentRecord(
      u.id.GetOr(r.id),
      u.abcId.GetOr(r.abcId),
      u.fullName.GetOr(r.fullName),
      u.dob.GetOr(r.dob),
      u.gender.GetOr(r.gender),
      u.institute.GetOr(r.institute),
      u.course.GetOr(r.course),
      u.yearOfAdmission.GetOr(r.yearOfAdmission),
      u.currentYear.GetOr(r.currentYear),
      u.email.GetOr(r.email),
      u.contactNumber.GetOr(r.contactNumber))
  }

  /** The identity fields `id`, `abcId` and `institute` survive a merge of an
      update that does not carry them; an empty update changes nothing; and
      merging the same update twice is merging it once. */
  lemma MergeProperties(r: StudentRecord, u: StudentUpdate)
    ensures u.id.None? ==> Merge(r, u).id == r.id
    ensures u.abcId.None? ==> Merge(r, u).abcId == r.abcId
    ensures u.institute.None? ==> Merge(r, u).institute == r.institute
    ensures u.id.Some? ==> Merge(r, u).id == u.id.value
    ensures u.abcId.Some? ==> Merge(r, u).abcId == u.abcId.value
    ensures Merge(r, NoChanges) == r
    ensures Merge(Merge(r, u), u) == Merge(r, u)
  {
  }

  /** The institute of each record, in order. */
  function InstituteKeys(s: seq<StudentRecord>): seq<string> {
    seq(|s|, i requires 0 <= i < |s| => s[i].institute)
  }

  /** The course of each record, in order. */
  function CourseKeys(s: seq<StudentRecord>): seq<string> {
    seq(|s|, i requires 0 <= i < |s| => s[i].course)
  }

  // ------------------------------------------------------ fields as strings

  /** The keys of a `StudentRecord`. */
  datatype Key =
    | IdKey | AbcIdKey | FullNameKey | DobKey | GenderKey | InstituteKey
    | CourseKey | YearOfAdmissionKey | CurrentYearKey | EmailKey | ContactNumberKey

  /** `String(student[key])`. */
  function FieldText(r: StudentRecord, k: Key): string {
    match k
    case IdKey => r.id
    case AbcIdKey => r.abcId
    case FullNameKey => r.fullName
    case DobKey => r.dob
    case GenderKey => GenderName(r.gender)
    case InstituteKey => r.institute
    case CourseKey => r.course
    case YearOfAdmissionKey => IntToString(r.yearOfAdmission)
    case CurrentYearKey => IntToString(r.currentYear)
    case EmailKey => r.email
    case ContactNumberKey => r.contactNumber
  }

  /** A value of a `Partial<StudentRecord>`: a string or a number. */
  datatype Value = Str(s: string) | Num(n: int)

  /** JavaScript truthiness of a field value: the empty string and 0 are falsy. */
  predicate Truthy(v: Value) {
    match v
    case Str(s) => s != ""
    case Num(n) => n != 0
  }

  /** `String(value)`. */
  function ValueText(v: Value): string {
    match v
    case Str(s) => s
    case Num(n) => IntToString(n)
  }
}
