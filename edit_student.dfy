/** The edit-student page (src/pages/institute/EditStudent.tsx): its guard and
    the update it builds from the shared form. */
module EditStudent {
  import opened Wrappers
  import opened Text
  import opened Records
  import opened Session
  import opened StudentForm
  import Api

  /** `{ ...data, yearOfAdmission: parseInt(..), currentYear: parseInt(..) }`:
      the form's fields and nothing else, with the two years read as numbers.
      When a year is not a number, or the gender is not one of the three,
      there is no such update (the source would send `NaN` or the raw text). */
  function EditPayload(data: FormValues): (u: Option<StudentUpdate>)
    ensures u.Some? <==>
      ParseInt(data.yearOfAdmission).Some? && ParseInt(data.currentYear).Some? && GenderOf(data.gender).Some?
    ensures u.Some? ==> u.value.id.None? && u.value.abcId.None? && u.value.institute.None?
  {
    var yoa := ParseInt(data.yearOfAdmission);
    var cy := ParseInt(data.currentYear);
    var g := GenderOf(data.gender);
    if yoa.Some? && cy.Some? && g.Some? then
      Some(StudentUpdate(None, None, Some(data.fullName), Some(data.dob), Some(g.value), None,
                         Some(data.course), Some(yoa.value), Some(cy.value), Some(data.email),
                         Some(data.contactNumber)))
    else None
  }

  /** Merging the update of a valid form keeps the record's id, ABCid and
      institute, takes the text fields verbatim and the years as parsed. */
  lemma EditPayloadSpec(r: StudentRecord, data: FormValues)
    requires Valid(data)
    ensures EditPayload(data).Some?
    ensures var m := Merge(r, EditPayload(data).value);
      && m.id == r.id && m.abcId == r.abcId && m.institute == r.institute
      && m.fullName == data.fullName && m.dob == data.dob && m.course == data.course
      && m.email == data.email && m.contactNumber == data.contactNumber
      && GenderName(m.gender) == data.gender
      && Some(m.yearOfAdmission) == ParseInt(data.yearOfAdmission)
      && Some(m.currentYear) == ParseInt(data.currentYear)
  {
    ValidNumbersParse(data.yearOfAdmission, data.currentYear);
    var u := EditPayload(data).value;
    GenderOfName(u.gender.value, data.gender);
  }

  /** Saving the edit form unchanged after it was filled from a record leaves
      that record exactly as it was. */
  lemma EditRoundTrip(r: StudentRecord)
    ensures EditPayload(EditDefaults(r)).Some?
    ensures Merge(r, EditPayload(EditDefaults(r)).value) == r
  {
    EditDefaultsRoundTrip(r);
  }

  /** Through the store: after the update of a valid form, the record found
      under the id keeps its ABCid and institute. */
  lemma EditKeepsIdentity(s: seq<StudentRecord>, id: string, data: FormValues)
    requires Valid(data) && Api.FindById(s, id).Some?
    ensures var after := Api.FindById(Api.Updated(s, id, EditPayload(data).value), id);
      && after.Some? && after.value.id == id
      && after.value.abcId == Api.FindById(s, id).value.abcId
      && after.value.institute == Api.FindById(s, id).value.institute
  {
    ValidNumbersParse(data.yearOfAdmission, data.currentYear);
    var u := EditPayload(data).value;
    Api.UpdateThenFind(s, id, u);
    Api.UpdatedSpec(s, id, u);
  }

  /** The page's own state: whether an update is in flight. */
  class EditPage {
    var isSubmitting: bool

    constructor ()
      ensures !isSubmitting
    {
      isSubmitting := false;
    }

    /** `handleSubmit`, called by the form only once its rules pass: without a
        truthy id or a user institute no update is sent; otherwise the update
        is applied to the record with the id and the in-flight flag ends
        cleared. */
    method HandleSubmit(store: Api.Store, id: Option<string>, user: Option<User>, data: FormValues)
      requires Valid(data)
      modifies this, store
      ensures !(Session.Truthy(id) && InstituteOf(user).Some?) ==>
        store.students == old(store.students) && isSubmitting == old(isSubmitting)
      ensures Session.Truthy(id) && InstituteOf(user).Some? ==>
        && store.students == Api.Updated(old(store.students), id.value, EditPayload(data).value)
        && !isSubmitting
    {
      if !Session.Truthy(id) || InstituteOf(user).None? {
        return;
      }
      isSubmitting := true;
      ValidNumbersParse(data.yearOfAdmission, data.currentYear);
      var _ := store.UpdateStudent(id.value, EditPayload(data).value);
      isSubmitting := false;
    }
  }
}
