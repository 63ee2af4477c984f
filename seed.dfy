/** Synthetic seed data (src/services/api.ts `generateABCId` and
    `generateMockStudents`). Each `Math.floor(Math.random() * k)` becomes an
    arbitrary number in `[0, k)` drawn in advance, and
    `new Date().getFullYear()` becomes the parameter `currentYear`. */
module Seed {
  import opened Text
  import opened Records

  /** The store is seeded with this many records. */
  const SeedCount := 100

  const FirstNames: seq<string> := ["Arjun", "Aanya", "Vikram", "Neha", "Rohan", "Priya", "Raj", "Anjali"]
  const LastNames: seq<string> := ["Kumar", "Singh", "Sharma", "Patel", "Verma", "Gupta", "Joshi", "Reddy"]
  const Genders: seq<Gender> := [Male, Female, Other]

  /** Nine draws of `Math.floor(Math.random() * 10)`. */
  predicate DigitDraws(ds: seq<int>) {
    |ds| == 9 && forall i :: 0 <= i < 9 ==> 0 <= ds[i] <= 9
  }

  /** The lexical shape of an ABCid: "ABC" and then nine decimal digits. */
  predicate IsAbcId(s: string) {
    |s| == 12 && s[..3] == "ABC" && AllDigits(s[3..])
  }

  /** `generateABCId`: the prefix and the nine drawn digits, joined. */
  function GenerateAbcId(ds: seq<int>): (r: string)
    requires DigitDraws(ds)
    ensures IsAbcId(r)
    ensures forall i :: 0 <= i < 9 ==> DigitValue(r[3 + i]) == ds[i]
  {
    "ABC" + seq(9, i requires 0 <= i < 9 => DigitChar(ds[i]))
  }

  /** Different draws give different ABCids; the same draws give the same one,
      and nothing in the store checks for that. */
  lemma AbcIdInjective(a: seq<int>, b: seq<int>)
    requires DigitDraws(a) && DigitDraws(b)
    ensures GenerateAbcId(a) == GenerateAbcId(b) <==> a == b
  {
    if GenerateAbcId(a) == GenerateAbcId(b) {
      forall i | 0 <= i < 9 ensures a[i] == b[i] {
        assert GenerateAbcId(a)[3 + i] == GenerateAbcId(b)[3 + i];
      }
    }
  }

  /** The random numbers one seed record consumes, each already scaled to its
      range. */
  datatype Draw = Draw(
    admissionOffset: int,
    instituteIndex: int,
    courseIndex: int,
    abcDigits: seq<int>,
    firstName: int,
    lastName: int,
    birthYear: int,
    birthMonth: int,
    birthDay: int,
    gender: int,
    phone: int)

  predicate InRange(d: Draw) {
    && 0 <= d.admissionOffset < 4
    && 0 <= d.instituteIndex < |Institutes|
    && 0 <= d.courseIndex < |Courses|
    && DigitDraws(d.abcDigits)
    && 0 <= d.firstName < |FirstNames|
    && 0 <= d.lastName < |LastNames|
    && 0 <= d.birthYear < 10
    && 0 <= d.birthMonth < 12
    && 0 <= d.birthDay < 28
    && 0 <= d.gender < 3
    && 0 <= d.phone < 10000000000
  }

  /** `String(n).padStart(2, '0')`. */
  function TwoDigits(n: int): string {
    PadStart(IntToString(n), 2, '0')
  }

  function DateText(year: string, month: string, day: string): string {
    year + "-" + month + "-" + day
  }

  /** `${1990 + y}-${month padded to 2}-${day padded to 2}`. */
  function Dob(d: Draw): (s: string)
    requires InRange(d)
    ensures IsSeedDob(s)
  {
    BirthDate(1990 + d.birthYear, d.birthMonth + 1, d.birthDay + 1)
  }

  function BirthDate(year: int, month: int, day: int): (s: string)
    requires 1990 <= year <= 1999 && 1 <= month <= 12 && 1 <= day <= 28
    ensures IsSeedDob(s)
  {
    DateFacts(year, month, day);
    DateText(IntToString(year), TwoDigits(month), TwoDigits(day))
  }

  /** Seed record number `index` (0-based). */
  function SeedRecord(index: nat, currentYear: int, d: Draw): StudentRecord
    requires InRange(d)
  {
    var yearOfAdmission := currentYear - d.admissionOffset;
    var progression := currentYear - yearOfAdmission + 1;
    StudentRecord(
      StudentId(index + 1),
      GenerateAbcId(d.abcDigits),
      FirstNames[d.firstName] + " " + LastNames[d.lastName],
      Dob(d),
      Genders[d.gender],
      Institutes[d.instituteIndex],
      Courses[d.courseIndex],
      yearOfAdmission,
      if progression < 4 then progression else 4,
      "student" + IntToString(index + 1) + "@example.com",
      "+91 " + PadStart(IntToString(d.phone), 10, '0'))
  }

  predicate AllInRange(draws: seq<Draw>) {
    forall i :: 0 <= i < |draws| ==> InRange(draws[i])
  }

  /** `generateMockStudents(count)`. */
  function GenerateMockStudents(count: nat, currentYear: int, draws: seq<Draw>): (r: seq<StudentRecord>)
    requires |draws| == count && AllInRange(draws)
    ensures |r| == count
  {
    seq(count, i requires 0 <= i < count => SeedRecord(i, currentYear, draws[i]))
  }

  /** Seed record number `index` has id `student-(index+1)` and e-mail
      `student(index+1)@example.com`. */
  lemma SeedRecordIdentity(index: nat, currentYear: int, d: Draw)
    requires InRange(d)
    ensures SeedRecord(index, currentYear, d).id == StudentId(index + 1)
    ensures SeedRecord(index, currentYear, d).email == "student" + IntToString(index + 1) + "@example.com"
  {
  }

  /** Seed record `i` has id `student-(i+1)`, so no two seed records share an
      id. */
  lemma SeedIdsDistinct(count: nat, currentYear: int, draws: seq<Draw>)
    requires |draws| == count && AllInRange(draws)
    ensures forall i :: 0 <= i < count ==>
      GenerateMockStudents(count, currentYear, draws)[i].id == StudentId(i + 1)
    ensures forall i, j :: 0 <= i < j < count ==>
      GenerateMockStudents(count, currentYear, draws)[i].id != GenerateMockStudents(count, currentYear, draws)[j].id
  {
    var r := GenerateMockStudents(count, currentYear, draws);
    forall i | 0 <= i < count ensures r[i].id == StudentId(i + 1) {
      SeedRecordIdentity(i, currentYear, draws[i]);
    }
    forall i, j | 0 <= i < j < count ensures r[i].id != r[j].id {
      if StudentId(i + 1) == StudentId(j + 1) {
        StudentIdInjective(i + 1, j + 1);
      }
    }
  }

  /** A seed record is admitted at most three years ago and is in year
      `min(currentYear - yearOfAdmission + 1, 4)`, which lies in 1..4; its
      institute and course come from the fixed lists, and its ABCid has the
      required shape. */
  lemma SeedFields(index: nat, currentYear: int, d: Draw)
    requires InRange(d)
    ensures var r := SeedRecord(index, currentYear, d);
      && currentYear - 3 <= r.yearOfAdmission <= currentYear
      && 1 <= r.currentYear <= 4
      && r.currentYear == (if currentYear - r.yearOfAdmission + 1 < 4 then currentYear - r.yearOfAdmission + 1 else 4)
      && r.institute in Institutes
      && r.course in Courses
      && IsAbcId(r.abcId)
  {
  }

  /** A number below `10^k` padded to `k` characters is `k` digits with the
      number's value. */
  lemma {:induction false} PaddedDigits(n: nat, k: nat)
    requires k >= 1 && n < Pow10(k)
    ensures |PadStart(IntToString(n), k, '0')| == k
    ensures AllDigits(PadStart(IntToString(n), k, '0'))
    ensures DigitsValue(PadStart(IntToString(n), k, '0')) == n
  {
    var s := NatToString(n);
    NatToStringLength(n, k);
    NatToStringValue(n);
    var r := PadStart(s, k, '0');
    var z := r[..|r| - |s|];
    assert r == z + s;
    LeadingZerosValue(z, s);
  }

  /** The parts of `year-month-day` when the year has four characters and
      month and day two each. */
  lemma DateParts(year: string, month: string, day: string)
    requires |year| == 4 && |month| == 2 && |day| == 2
    ensures var s := DateText(year, month, day);
      |s| == 10 && s[4] == '-' && s[7] == '-' && s[..4] == year && s[5..7] == month && s[8..] == day
  {
  }

  /** A number in 1..99 renders as two digits with that value. */
  lemma TwoDigitsValue(n: int)
    requires 1 <= n <= 99
    ensures |TwoDigits(n)| == 2 && AllDigits(TwoDigits(n)) && DigitsValue(TwoDigits(n)) == n
  {
    assert Pow10(2) == 100 by { assert Pow10(1) == 10; }
    PaddedDigits(n, 2);
  }

  /** A year in 1990..1999 renders as four digits with that value. */
  lemma FourDigitYear(y: int)
    requires 1990 <= y <= 1999
    ensures |IntToString(y)| == 4 && AllDigits(IntToString(y)) && DigitsValue(IntToString(y)) == y
  {
    assert Pow10(3) == 1000 && Pow10(4) == 10000 by {
      assert Pow10(1) == 10;
      assert Pow10(2) == 100;
    }
    NatToStringLength(y, 4);
    NatToStringLength(y, 3);
    NatToStringValue(y);
  }

  /** `year-month-day` built from a year in 1990..1999, a month in 1..12 and a
      day in 1..28 has the shape `YYYY-MM-DD` and those values. */
  lemma DateFacts(year: int, month: int, day: int)
    requires 1990 <= year <= 1999 && 1 <= month <= 12 && 1 <= day <= 28
    ensures var s := DateText(IntToString(year), TwoDigits(month), TwoDigits(day));
      && |s| == 10 && s[4] == '-' && s[7] == '-'
      && AllDigits(s[..4]) && DigitsValue(s[..4]) == year
      && AllDigits(s[5..7]) && DigitsValue(s[5..7]) == month
      && AllDigits(s[8..]) && DigitsValue(s[8..]) == day
    ensures IsSeedDob(DateText(IntToString(year), TwoDigits(month), TwoDigits(day)))
  {
    FourDigitYear(year);
    TwoDigitsValue(month);
    TwoDigitsValue(day);
    DateParts(IntToString(year), TwoDigits(month), TwoDigits(day));
  }

  /** The shape of a seed date of birth: `YYYY-MM-DD` with the year in
      1990..1999, the month in 01..12 and the day in 01..28. */
  predicate IsSeedDob(s: string) {
    && |s| == 10 && s[4] == '-' && s[7] == '-'
    && AllDigits(s[..4]) && 1990 <= DigitsValue(s[..4]) <= 1999
    && AllDigits(s[5..7]) && 1 <= DigitsValue(s[5..7]) <= 12
    && AllDigits(s[8..]) && 1 <= DigitsValue(s[8..]) <= 28
  }

  /** Every seed date of birth has that shape. */
  lemma SeedDob(index: nat, currentYear: int, d: Draw)
    requires InRange(d)
    ensures IsSeedDob(SeedRecord(index, currentYear, d).dob)
  {
  }

  /** A seed contact number is "+91 " followed by exactly ten digits. */
  lemma SeedContact(index: nat, currentYear: int, d: Draw)
    requires InRange(d)
    ensures var c := SeedRecord(index, currentYear, d).contactNumber;
      |c| == 14 && c[..4] == "+91 " && AllDigits(c[4..])
  {
    assert Pow10(10) == 10000000000 by {
      assert Pow10(5) == 100000;
    }
    PaddedDigits(d.phone, 10);
    var c := SeedRecord(index, currentYear, d).contactNumber;
    assert c[4..] == PadStart(IntToString(d.phone), 10, '0');
  }
}
