/** The add-student page (src/pages/institute/CreateStudent.tsx): its guard on
    the user's institute and the record it builds from the shared form. */
module CreateStudent {
  import opened Wrappers
  import opened Text
  import opened Records
  import opened Session
  import opened StudentForm
  import Api
  import Seed

  /** `studentData`: the form's text fields as they are, the two years read
      with `parseInt`, the gender cast to the record's type and the user's
      institute. When a year is not a number, or the gender is not one of the
      three, there is no such record (the source would store `NaN` or the
      raw text). */
  function CreatePayload(data: FormValues, institute: string): (p: Option<NewStudent>)
    ensures p.Some? <==>
      ParseInt(data.yearOfAdmission).Some? && ParseInt(data.currentYear).Some? && GenderOf(data.gender).Some?
  {
    var yoa := ParseInt(data.yearOfAdmission);
    var cy := ParseInt(data.currentYear);
    var g := GenderOf(data.gender);
    if yoa.Some? && cy.Some? && g.Some? then
      Some(NewStudent(data.fullName, data.dob, g.value, institute, data.course,
                      yoa.value, cy.value, data.email, data.contactNumber))
    else None
  }

  /** A form that passes its rules always gives a record. That record takes
      the user's institute, names the chosen gender, carries the text fields
      unchanged, and holds the two years as `parseInt` reads them: a year of
      study from 1 to 6 and an admission year below 10000. */
  lemma CreatePayloadSpec(data: FormValues, institute: string)
    requires Valid(data)
    ensures CreatePayload(data, institute).Some?
    ensures var p := CreatePayload(data, institute).value;
      && p.institute == institute
      && GenderName(p.gender) == data.gender
      && p.fullName == data.fullName && p.dob == data.dob && p.course == data.course
      && p.email == data.email && p.contactNumber == data.contactNumber
      && Some(p.yearOfAdmission) == ParseInt(data.yearOfAdmission)
      && Some(p.currentYear) == ParseInt(data.currentYear)
      && 1 <= p.currentYear <= 6 && 0 <= p.yearOfAdmission < 10000
  {
    ValidNumbersParse(data.yearOfAdmission, data.currentYear);
    var p := CreatePayload(data, institute).value;
    GenderOfName(p.gender, data.gender);
  }

  /** Filling the form from a record and creating from it gives back that
      record's fields, except for the institute, which is the user's. */
  lemma CreateFromEditDefaults(r: StudentRecord, institute: string)
    ensures CreatePayload(EditDefaults(r), institute) == Some(Payload(r.(institute := institute)))
  {
    EditDefaultsRoundTrip(r);
  }

  /** The created record is found under the id the store gave it when that
      id was not in use, and it belongs to the user's institute. The payload
      chose neither its id nor its ABCid: the store did. */
  lemma CreatedRecordFound(s: seq<StudentRecord>, data: FormValues, institute: string, abcDigits: seq<int>)
    requires Valid(data) && Seed.DigitDraws(abcDigits)
    requires forall j :: 0 <= j < |s| ==> s[j].id != StudentId(|s| + 1)
    ensures var p := CreatePayload(data, institute).value;
      var t := Api.Created(s, p, abcDigits);
      && Api.FindById(t, StudentId(|s| + 1)) == Some(t[|s|])
      && t[|s|].institute == institute && Seed.IsAbcId(t[|s|].abcId)
  {
    CreatePayloadSpec(data, institute);
    var p := CreatePayload(data, institute).value;
    var t := Api.Created(s, p, abcDigits);
    Api.CreatedSpec(s, p, abcDigits);
    forall j | 0 <= j < |s| ensures t[j].id != StudentId(|s| + 1) {
      assert t[j] == t[..|s|][j];
    }
    Api.FindFirstIndex(t, StudentId(|s| + 1), |s|);
  }

  /** The page's own state: whether a create is in flight. */
  class CreatePage {
    var isSubmitting: bool

    constructor ()
      ensures !isSubmitting
    {
      isSubmitting := false;
    }

    /** `handleSubmit`, called by the form only once its rules pass: without a
        user institute nothing is created; otherwise the record is created
        and the in-flight flag ends cleared. */
    method HandleSubmit(store: Api.Store, user: Option<User>, data: FormValues, abcDigits: seq<int>)
      requires Valid(data) && Seed.DigitDraws(abcDigits)
      modifies this, store
      ensures InstituteOf(user).None? ==>
        store.students == old(store.students) && isSubmitting == old(isSubmitting)
      ensures InstituteOf(user).Some? ==>
        && store.students == Api.Created(old(store.students),
             CreatePayload(data, InstituteOf(user).value).value, abcDigits)
        && !isSubmitting
    {
      var institute := InstituteOf(user);
      if institute.None? {
        return;
      }
      isSubmitting := true;
      CreatePayloadSpec(data, institute.value);
      var _ := store.CreateStudent(CreatePayload(data, institute.value).value, abcDigits);
      isSubmitting := false;
    }
  }
}
