/** The shared create/edit form (src/components/StudentForm.tsx): the field
    validators of its schema, its default values and the list of admission
    years it offers. Every form value is a string. */
module StudentForm {
  import opened Wrappers
  import opened Text
  import opened Records
  import Seed

  datatype FormValues = FormValues(
    fullName: string,
    dob: string,
    gender: string,
    course: string,
    yearOfAdmission: string,
    currentYear: string,
    email: string,
    contactNumber: string)

  // ------------------------------------------------------------ validators

  /** `z.string().min(2)`. */
  predicate ValidFullName(s: string) { |s| >= 2 }

  /** `/^\d{4}-\d{2}-\d{2}$/`: the shape only, no range check on month or day. */
  predicate ValidDob(s: string) {
    && |s| == 10 && s[4] == '-' && s[7] == '-'
    && AllDigits(s[..4]) && AllDigits(s[5..7]) && AllDigits(s[8..])
  }

  /** `z.enum(['Male', 'Female', 'Other'])`. */
  predicate ValidGender(s: string) { GenderOf(s).Some? }

  /** `z.string().min(1)`. */
  predicate ValidCourse(s: string) { |s| >= 1 }

  /** `/^\d{4}$/`. */
  predicate ValidYearOfAdmission(s: string) { |s| == 4 && AllDigits(s) }

  /** `/^[1-6]$/`. */
  predicate ValidCurrentYear(s: string) { |s| == 1 && '1' <= s[0] <= '6' }

  /** `/^\+?[0-9\s]{10,15}$/`: an optional plus sign, then 10 to 15 characters
      each a digit or white space. A leading '+' can only be read by the `\+?`,
      since the character class does not contain it. */
  predicate ValidContactNumber(s: string) {
    var rest := if |s| > 0 && s[0] == '+' then s[1..] else s;
    10 <= |rest| <= 15 && forall i :: 0 <= i < |rest| ==> IsDigit(rest[i]) || IsSpace(rest[i])
  }

  /** Every rule of the schema except the e-mail rule. */
  predicate Valid(v: FormValues) {
    && ValidFullName(v.fullName) && ValidDob(v.dob) && ValidGender(v.gender)
    && ValidCourse(v.course) && ValidYearOfAdmission(v.yearOfAdmission)
    && ValidCurrentYear(v.currentYear) && ValidContactNumber(v.contactNumber)
  }

  /** A valid year of study parses to a number from 1 to 6, and a valid year
      of admission to a number below 10000. */
  lemma ValidNumbersParse(yearOfAdmission: string, currentYear: string)
    ensures ValidCurrentYear(currentYear) ==>
      ParseInt(currentYear).Some? && 1 <= ParseInt(currentYear).value <= 6
    ensures ValidYearOfAdmission(yearOfAdmission) ==>
      ParseInt(yearOfAdmission).Some? && 0 <= ParseInt(yearOfAdmission).value < 10000
  {
    if ValidCurrentYear(currentYear) {
      ParseIntOfDigits(currentYear);
      assert currentYear[..0] == [];
    }
    if ValidYearOfAdmission(yearOfAdmission) {
      ParseIntOfDigits(yearOfAdmission);
      DigitsBelowPow(yearOfAdmission);
      assert Pow10(4) == 10000 by { assert Pow10(2) == 100; }
    }
  }

  /** A string of `k` digits has a value below `10^k`. */
  lemma {:induction false} DigitsBelowPow(s: string)
    requires AllDigits(s)
    ensures DigitsValue(s) < Pow10(|s|)
    decreases |s|
  {
    if s != [] {
      DigitsBelowPow(s[..|s| - 1]);
    }
  }

  /** The date rule checks the shape only: "2024-13-45" is accepted. */
  lemma DobShapeOnly()
    ensures ValidDob("2024-13-45")
  {
    var s := "2024-13-45";
    assert s[..4] == "2024" && s[5..7] == "13" && s[8..] == "45";
  }

  /** A leading plus sign does not count towards the 10 to 15 characters, and
      the number may contain spaces: "+91 9876543210" is accepted, while
      nine digits are not. */
  lemma ContactNumberExamples()
    ensures ValidContactNumber("+91 9876543210")
    ensures !ValidContactNumber("987654321")
  {
    var s := "+91 9876543210";
    assert s[..4] == "+91 " && s[4..] == "9876543210";
    ContactValid(s);
  }

  // -------------------------------------------------------- default values

  /** The form filled from an existing record: numbers become their decimal
      text. */
  function EditDefaults(r: StudentRecord): FormValues {
    FormValues(r.fullName, r.dob, GenderName(r.gender), r.course,
               IntToString(r.yearOfAdmission), IntToString(r.currentYear),
               r.email, r.contactNumber)
  }

  /** The empty form for a new record. */
  function NewDefaults(currentYear: int): FormValues {
    FormValues("", "", "Male", "", IntToString(currentYear), "1", "", "")
  }

  /** `defaultValues`. */
  function Defaults(student: Option<StudentRecord>, currentYear: int): FormValues {
    if student.Some? then EditDefaults(student.value) else NewDefaults(currentYear)
  }

  /** Reading the numbers back from the edit defaults gives the record's
      numbers, and the gender field names the record's gender. */
  lemma EditDefaultsRoundTrip(r: StudentRecord)
    ensures ParseInt(EditDefaults(r).yearOfAdmission) == Some(r.yearOfAdmission)
    ensures ParseInt(EditDefaults(r).currentYear) == Some(r.currentYear)
    ensures GenderOf(EditDefaults(r).gender) == Some(r.gender)
  {
    ParseIntRoundTrip(r.yearOfAdmission);
    ParseIntRoundTrip(r.currentYear);
    GenderOfName(r.gender, GenderName(r.gender));
  }

  /** The new-record defaults pass the gender, year and year-of-study rules
      (for a four-digit current year) but not the name rule, so an untouched
      form cannot be submitted. */
  lemma NewDefaultsSpec(currentYear: int)
    requires 1000 <= currentYear <= 9999
    ensures ValidGender(NewDefaults(currentYear).gender)
    ensures ValidCurrentYear(NewDefaults(currentYear).currentYear)
    ensures ValidYearOfAdmission(NewDefaults(currentYear).yearOfAdmission)
    ensures !Valid(NewDefaults(currentYear))
  {
    FourDigits(currentYear);
  }

  /** A number from 1000 to 9999 renders as four digits. */
  lemma FourDigits(n: int)
    requires 1000 <= n <= 9999
    ensures |IntToString(n)| == 4 && AllDigits(IntToString(n))
  {
    assert Pow10(3) == 1000 && Pow10(4) == 10000 by {
      assert Pow10(2) == 100;
    }
    NatToStringLength(n, 4);
    NatToStringLength(n, 3);
    NatToStringValue(n);
  }

  /** A seed date of birth passes the date rule. */
  lemma SeedDobValid(s: string)
    requires Seed.IsSeedDob(s)
    ensures ValidDob(s)
  {
  }

  /** Every seeded record, loaded into the edit form, passes every rule the
      form checks itself, for a four-digit current year. */
  lemma SeedRecordEditable(index: nat, currentYear: int, d: Seed.Draw)
    requires Seed.InRange(d) && 1003 <= currentYear <= 9999
    ensures Valid(EditDefaults(Seed.SeedRecord(index, currentYear, d)))
  {
    var r := Seed.SeedRecord(index, currentYear, d);
    Seed.SeedFields(index, currentYear, d);
    Seed.SeedDob(index, currentYear, d);
    Seed.SeedContact(index, currentYear, d);
    SeedNameValid(index, currentYear, d);
    CoursesNonEmpty(r.course);
    EditableRecord(r);
  }

  /** The edit form of a record passes when its fields have the shapes the
      seed data gives them. */
  lemma EditableRecord(r: StudentRecord)
    requires |r.fullName| >= 2 && Seed.IsSeedDob(r.dob) && |r.course| >= 1
    requires 1000 <= r.yearOfAdmission <= 9999 && 1 <= r.currentYear <= 6
    requires |r.contactNumber| == 14 && r.contactNumber[..4] == "+91 " && AllDigits(r.contactNumber[4..])
    ensures Valid(EditDefaults(r))
  {
    FourDigits(r.yearOfAdmission);
    CurrentYearText(r.currentYear);
    ContactValid(r.contactNumber);
    GenderOfName(r.gender, GenderName(r.gender));
  }

  lemma CoursesNonEmpty(c: string)
    requires c in Records.Courses
    ensures |c| >= 1
  {
  }

  lemma SeedNameValid(index: nat, currentYear: int, d: Seed.Draw)
    requires Seed.InRange(d)
    ensures |Seed.SeedRecord(index, currentYear, d).fullName| >= 2
  {
    var first := Seed.FirstNames[d.firstName];
    FirstNameNonEmpty(d.firstName);
    assert Seed.SeedRecord(index, currentYear, d).fullName == first + " " + Seed.LastNames[d.lastName];
  }

  lemma FirstNameNonEmpty(i: int)
    requires 0 <= i < |Seed.FirstNames|
    ensures |Seed.FirstNames[i]| >= 1
  {
  }

  lemma CurrentYearText(n: int)
    requires 1 <= n <= 6
    ensures ValidCurrentYear(IntToString(n))
  {
  }

  /** "+91 " and ten digits passes the contact rule. */
  lemma ContactValid(c: string)
    requires |c| == 14 && c[..4] == "+91 " && AllDigits(c[4..])
    ensures ValidContactNumber(c)
  {
    var rest := c[1..];
    forall i | 0 <= i < |rest| ensures IsDigit(rest[i]) || IsSpace(rest[i]) {
      if i >= 3 {
        assert rest[i] == c[4..][i - 3];
      } else {
        assert rest[i] == c[..4][i + 1];
      }
    }
  }

  // -------------------------------------------------------- admission years

  /** `years`: the current year and the nine before it, as text. */
  function Years(currentYear: int): (ys: seq<string>)
    ensures |ys| == 10
  {
    seq(10, i => IntToString(currentYear - i))
  }

  /** The offered years read back as the current year counting down, so they
      are strictly decreasing and pairwise distinct. */
  lemma YearsSpec(currentYear: int)
    ensures forall i :: 0 <= i < 10 ==> ParseInt(Years(currentYear)[i]) == Some(currentYear - i)
    ensures forall i, j :: 0 <= i < j < 10 ==>
      ParseInt(Years(currentYear)[i]).value > ParseInt(Years(currentYear)[j]).value
    ensures forall i, j :: 0 <= i < j < 10 ==> Years(currentYear)[i] != Years(currentYear)[j]
  {
    forall i | 0 <= i < 10 ensures ParseInt(Years(currentYear)[i]) == Some(currentYear - i) {
      ParseIntRoundTrip(currentYear - i);
    }
  }
}
