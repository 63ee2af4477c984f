/** The institute's record page (src/pages/institute/StudentDetails.tsx): the
    edit form's own schema, the values it loads from a record, the update it
    submits, and its submit and delete handlers. */
module StudentDetails {
  import opened Wrappers
  import opened Records
  import opened Session
  import Api

  /** What the form holds before validation. The two years are numbers here,
      unlike in the shared student form. */
  datatype DetailsInput = DetailsInput(
    fullName: string,
    email: string,
    contactNumber: string,
    dob: string,
    gender: string,
    course: string,
    yearOfAdmission: int,
    currentYear: int)

  /** What the schema hands to `onSubmit`: the gender is one of the three. */
  datatype DetailsValues = DetailsValues(
    fullName: string,
    email: string,
    contactNumber: string,
    dob: string,
    gender: Gender,
    course: string,
    yearOfAdmission: int,
    currentYear: int)

  // ---------------------------------------------------------------- schema

  /** `formSchema` without its e-mail rule, for the calendar year `thisYear`:
      a name of at least two characters, a contact number of at least ten,
      a known gender, a course, an admission year from 2000 to this year and
      a year of study from 1 to 6. The date of birth is not checked. */
  predicate ValidInput(v: DetailsInput, thisYear: int) {
    && |v.fullName| >= 2
    && |v.contactNumber| >= 10
    && GenderOf(v.gender).Some?
    && |v.course| >= 1
    && 2000 <= v.yearOfAdmission <= thisYear
    && 1 <= v.currentYear <= 6
  }

  /** The resolver: the typed values when every rule holds, nothing otherwise. */
  function Resolve(v: DetailsInput, thisYear: int): (r: Option<DetailsValues>)
    ensures r.Some? <==> ValidInput(v, thisYear)
    ensures r.Some? ==> Unresolve(r.value) == v
  {
    if ValidInput(v, thisYear) then
      var g := GenderOf(v.gender).value;
      GenderOfName(g, v.gender);
      Some(DetailsValues(v.fullName, v.email, v.contactNumber, v.dob, g, v.course,
                         v.yearOfAdmission, v.currentYear))
    else None
  }

  /** Typed values shown back in the form. */
  function Unresolve(d: DetailsValues): DetailsInput {
    DetailsInput(d.fullName, d.email, d.contactNumber, d.dob, GenderName(d.gender),
                 d.course, d.yearOfAdmission, d.currentYear)
  }

  /** Resolving what the form shows for valid values gives those values back. */
  lemma ResolveUnresolve(d: DetailsValues, thisYear: int)
    requires |d.fullName| >= 2 && |d.contactNumber| >= 10 && |d.course| >= 1
    requires 2000 <= d.yearOfAdmission <= thisYear && 1 <= d.currentYear <= 6
    ensures Resolve(Unresolve(d), thisYear) == Some(d)
  {
    GenderOfName(d.gender, GenderName(d.gender));
  }

  /** The date of birth is free text: any value passes when the rest do. */
  lemma DobUnchecked(v: DetailsInput, thisYear: int, dob: string)
    ensures ValidInput(v, thisYear) <==> ValidInput(v.(dob := dob), thisYear)
  {
  }

  // ----------------------------------------------------------- form values

  /** `defaultValues`, before any record has loaded. */
  function DefaultInput(thisYear: int): DetailsInput {
    DetailsInput("", "", "", "", "Male", "", thisYear, 1)
  }

  /** The values `form.reset` loads from a record. */
  function LoadedInput(r: StudentRecord): DetailsInput {
    DetailsInput(r.fullName, r.email, r.contactNumber, r.dob, GenderName(r.gender),
                 r.course, r.yearOfAdmission, r.currentYear)
  }

  /** The form's values after the load effect: the record's fields once it has
      loaded, the defaults before. */
  function FormInput(student: Option<StudentRecord>, thisYear: int): (v: DetailsInput)
    ensures student.Some? ==>
      && v.fullName == student.value.fullName && v.dob == student.value.dob
      && GenderOf(v.gender) == Some(student.value.gender) && v.course == student.value.course
      && v.yearOfAdmission == student.value.yearOfAdmission
      && v.currentYear == student.value.currentYear
      && v.email == student.value.email && v.contactNumber == student.value.contactNumber
    ensures student.None? ==> !ValidInput(v, thisYear)
  {
    if student.Some? then
      GenderOfName(student.value.gender, GenderName(student.value.gender));
      LoadedInput(student.value)
    else DefaultInput(thisYear)
  }

  // ---------------------------------------------------------------- submit

  /** The update `onSubmit` sends: every form value, the user's institute when
      it is set and the record's own otherwise, and the record's ABCid. */
  function UpdatePayload(data: DetailsValues, user: Option<User>, student: StudentRecord): StudentUpdate {
    StudentUpdate(
      None, Some(student.abcId), Some(data.fullName), Some(data.dob), Some(data.gender),
      Some(InstituteOf(user).GetOr(student.institute)), Some(data.course),
      Some(data.yearOfAdmission), Some(data.currentYear), Some(data.email),
      Some(data.contactNumber))
  }

  /** Submitting for a record in the store keeps its id and its ABCid: the
      record found under the id afterwards carries the loaded ABCid and every
      form value. */
  lemma SubmitKeepsAbcId(s: seq<StudentRecord>, id: string, user: Option<User>, data: DetailsValues)
    requires Api.FindById(s, id).Some?
    ensures var student := Api.FindById(s, id).value;
      var after := Api.FindById(Api.Updated(s, id, UpdatePayload(data, user, student)), id);
      && after.Some? && after.value.id == id && after.value.abcId == student.abcId
      && after.value.fullName == data.fullName && after.value.course == data.course
      && after.value.gender == data.gender && after.value.dob == data.dob
      && after.value.yearOfAdmission == data.yearOfAdmission
      && after.value.currentYear == data.currentYear
      && after.value.email == data.email && after.value.contactNumber == data.contactNumber
  {
    var student := Api.FindById(s, id).value;
    var u := UpdatePayload(data, user, student);
    Api.UpdateThenFind(s, id, u);
    Api.UpdatedSpec(s, id, u);
  }

  /** As written, a signed-in user with an institute moves the record into
      that institute, whatever institute it had. */
  lemma SubmitSetsUserInstitute(s: seq<StudentRecord>, id: string, user: Option<User>, data: DetailsValues)
    requires Api.FindById(s, id).Some? && InstituteOf(user).Some?
    ensures var student := Api.FindById(s, id).value;
      var after := Api.FindById(Api.Updated(s, id, UpdatePayload(data, user, student)), id);
      after.Some? && after.value.institute == InstituteOf(user).value
  {
    var student := Api.FindById(s, id).value;
    var u := UpdatePayload(data, user, student);
    Api.UpdateThenFind(s, id, u);
    Api.UpdatedSpec(s, id, u);
  }

  /** A record of Delhi University, saved unchanged by a user of Mumbai
      University, ends up in Mumbai University. */
  lemma InstituteChangesOnSave()
    ensures var r := StudentRecord("student-1", "ABC0000000001", "Aarav Sharma", "1995-01-01",
        Male, "Delhi University", "BBA", 2020, 2, "a@b.in", "+91 9876543210");
      var user := Some(User("u1", "Mumbai admin", "m@u.in", InstituteRole, None, Some("Mumbai University")));
      var d := DetailsValues(r.fullName, r.email, r.contactNumber, r.dob, r.gender, r.course,
                             r.yearOfAdmission, r.currentYear);
      Merge(r, UpdatePayload(d, user, r)).institute == "Mumbai University" != r.institute
  {
  }

  /** The update the page evidently means to send ("keep the same institute"):
      the record's own institute and ABCid, whoever is signed in. */
  function KeepingPayload(data: DetailsValues, student: StudentRecord): StudentUpdate {
    UpdatePayload(data, None, student)
  }

  /** With the corrected update, a save leaves the id, the ABCid and the
      institute as they were and takes every other field from the form; saving
      the loaded values unchanged leaves the record exactly as it was. */
  lemma KeepingPayloadSpec(r: StudentRecord, data: DetailsValues)
    ensures var m := Merge(r, KeepingPayload(data, r));
      && m.id == r.id && m.abcId == r.abcId && m.institute == r.institute
      && m.fullName == data.fullName && m.email == data.email && m.dob == data.dob
      && m.contactNumber == data.contactNumber && m.gender == data.gender
      && m.course == data.course && m.yearOfAdmission == data.yearOfAdmission
      && m.currentYear == data.currentYear
    ensures forall thisYear: int :: Resolve(LoadedInput(r), thisYear).Some? ==>
      Merge(r, KeepingPayload(Resolve(LoadedInput(r), thisYear).value, r)) == r
  {
    GenderOfName(r.gender, GenderName(r.gender));
  }

  /** As written, saving the loaded values unchanged keeps the record exactly
      when no user institute is set or it is the record's own. */
  lemma UnchangedSaveAsWritten(r: StudentRecord, user: Option<User>, thisYear: int)
    requires ValidInput(LoadedInput(r), thisYear)
    ensures Merge(r, UpdatePayload(Resolve(LoadedInput(r), thisYear).value, user, r)) == r
      <==> InstituteOf(user).None? || InstituteOf(user).value == r.institute
  {
    GenderOfName(r.gender, GenderName(r.gender));
  }

  // -------------------------------------------------------------- the page

  /** The page's own state: whether a save is in flight. */
  class DetailsPage {
    var isSubmitting: bool

    constructor ()
      ensures !isSubmitting
    {
      isSubmitting := false;
    }

    /** `onSubmit`: without a truthy id or a loaded record nothing happens;
        otherwise the update is sent and the in-flight flag ends cleared. */
    method OnSubmit(store: Api.Store, id: Option<string>, student: Option<StudentRecord>,
                    user: Option<User>, data: DetailsValues)
      modifies this, store
      ensures !(Session.Truthy(id) && student.Some?) ==>
        store.students == old(store.students) && isSubmitting == old(isSubmitting)
      ensures Session.Truthy(id) && student.Some? ==>
        && store.students == Api.Updated(old(store.students), id.value, UpdatePayload(data, user, student.value))
        && !isSubmitting
    {
      if !Session.Truthy(id) || student.None? {
        return;
      }
      isSubmitting := true;
      var _ := store.UpdateStudent(id.value, UpdatePayload(data, user, student.value));
      isSubmitting := false;
    }

    /** `handleDelete`: without a truthy id nothing happens; otherwise the
        record with that id is deleted. */
    method HandleDelete(store: Api.Store, id: Option<string>)
      modifies store
      ensures !Session.Truthy(id) ==> store.students == old(store.students)
      ensures Session.Truthy(id) ==> store.students == Api.Removed(old(store.students), id.value)
    {
      if !Session.Truthy(id) {
        return;
      }
      var _ := store.DeleteStudent(id.value);
    }
  }
}
