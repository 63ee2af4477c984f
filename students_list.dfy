/** The institute's own student list (src/pages/institute/StudentsList.tsx):
    which records the page fetches, the search box over them, and the delete
    dialog. */
module StudentsList {
  import opened Wrappers
  import opened Text
  import opened Seqs
  import opened Records
  import opened Session
  import Api
  import StudentsSearch

  /** The list query: it runs only for a user with an institute and then
      fetches that institute's records; otherwise there is no data. */
  function ListData(store: seq<StudentRecord>, user: Option<User>): Option<seq<StudentRecord>> {
    var institute := InstituteOf(user);
    if institute.Some? then Some(Api.ByInstitute(store, institute.value)) else None
  }

  /** A record matches the search box when its name, ABCid, e-mail or course
      contains the lower-cased term. */
  predicate ListMatches(r: StudentRecord, term: string) {
    var t := Lower(term);
    Includes(Lower(r.fullName), t) || Includes(Lower(r.abcId), t)
    || Includes(Lower(r.email), t) || Includes(Lower(r.course), t)
  }

  /** `filteredStudents`: nothing before data arrives, everything for a blank
      term, otherwise the records matching the untrimmed term. */
  function ListFilter(students: Option<seq<StudentRecord>>, searchTerm: string): seq<StudentRecord> {
    if students.None? then []
    else if IsBlank(searchTerm) then students.value
    else Filter(students.value, (r: StudentRecord) => ListMatches(r, searchTerm))
  }

  /** No data gives an empty list; a term of spaces and tabs shows all the
      data; any other term keeps exactly the matching records in their order,
      each as often as it occurs in the data.
      The list never shows more than the total it reports. */
  lemma ListFilterSpec(students: Option<seq<StudentRecord>>, searchTerm: string)
    ensures students.None? ==> ListFilter(students, searchTerm) == []
    ensures students.Some? && AllSpace(searchTerm) ==> ListFilter(students, searchTerm) == students.value
    ensures students.Some? && !AllSpace(searchTerm) ==>
      && IsSubsequence(ListFilter(students, searchTerm), students.value)
      && (forall r :: r in ListFilter(students, searchTerm) <==> r in students.value && ListMatches(r, searchTerm))
      && forall r :: multiset(ListFilter(students, searchTerm))[r] ==
                     if ListMatches(r, searchTerm) then multiset(students.value)[r] else 0
    ensures |ListFilter(students, searchTerm)| <= if students.None? then 0 else |students.value|
  {
    BlankIffAllSpace(searchTerm);
    if students.Some? {
      FilterSpec(students.value, (r: StudentRecord) => ListMatches(r, searchTerm));
    }
  }

  /** This list searches one field more than the government search page: every
      record that page's search box matches, this one matches too, and a
      match on the course alone is found only here. */
  lemma ListWidensSearch(r: StudentRecord, term: string)
    ensures StudentsSearch.SearchMatches(r, term) ==> ListMatches(r, term)
    ensures ListMatches(r, term) && !StudentsSearch.SearchMatches(r, term) ==>
      Includes(Lower(r.course), Lower(term))
  {
  }

  /** The query has data exactly when the user has an institute, and the data
      is then that institute's records of the store, in store order, each
      occurrence kept. */
  lemma ListDataSpec(store: seq<StudentRecord>, user: Option<User>)
    ensures ListData(store, user).Some? <==> InstituteOf(user).Some?
    ensures InstituteOf(user).Some? ==>
      var data := ListData(store, user).value;
      && IsSubsequence(data, store)
      && (forall r :: r in data <==> r in store && r.institute == InstituteOf(user).value)
      && forall r :: multiset(data)[r] == if r.institute == InstituteOf(user).value then multiset(store)[r] else 0
  {
    if InstituteOf(user).Some? {
      Api.ByInstituteSpec(store, InstituteOf(user).value);
    }
  }

  /** Everything the list shows belongs to the user's institute and is in the
      store. */
  lemma ListShowsOwnInstitute(store: seq<StudentRecord>, user: Option<User>, searchTerm: string, r: StudentRecord)
    requires r in ListFilter(ListData(store, user), searchTerm)
    ensures InstituteOf(user).Some? && r.institute == InstituteOf(user).value && r in store
  {
    var data := ListData(store, user);
    ListFilterSpec(data, searchTerm);
    if data.Some? {
      Api.ByInstituteSpec(store, InstituteOf(user).value);
    }
  }

  // ------------------------------------------------------------ the dialog

  /** The delete dialog: whether it is open and which record it is about. */
  class ListPage {
    var deleteDialogOpen: bool
    var selectedStudent: Option<StudentRecord>

    constructor ()
      ensures !deleteDialogOpen && selectedStudent.None?
    {
      deleteDialogOpen := false;
      selectedStudent := None;
    }

    /** The trash button of a row: select that record and open the dialog. */
    method AskDelete(student: StudentRecord)
      modifies this
      ensures deleteDialogOpen && selectedStudent == Some(student)
    {
      selectedStudent := Some(student);
      deleteDialogOpen := true;
    }

    /** Cancel: the dialog closes; the selection is kept. */
    method Cancel()
      modifies this
      ensures !deleteDialogOpen && selectedStudent == old(selectedStudent)
    {
      deleteDialogOpen := false;
    }

    /** `handleDeleteStudent`: without a selection nothing happens; otherwise
        the selected record's id is deleted from the store, the dialog closes
        and the selection is cleared. */
    method HandleDeleteStudent(store: Api.Store)
      modifies this, store
      ensures old(selectedStudent).None? ==>
        deleteDialogOpen == old(deleteDialogOpen) && selectedStudent.None? && store.students == old(store.students)
      ensures old(selectedStudent).Some? ==>
        && store.students == Api.Removed(old(store.students), old(selectedStudent).value.id)
        && !deleteDialogOpen && selectedStudent.None?
    {
      if selectedStudent.None? {
        return;
      }
      var _ := store.DeleteStudent(selectedStudent.value.id);
      deleteDialogOpen := false;
      selectedStudent := None;
    }
  }

  /** Deleting a selected record that is in a store with unique ids removes
      it: its id is no longer found. */
  lemma DeletedRecordGone(store: seq<StudentRecord>, selected: StudentRecord)
    requires Api.UniqueIds(store)
    ensures Api.FindById(Api.Removed(store, selected.id), selected.id).None?
    ensures selected in store ==> |Api.Removed(store, selected.id)| == |store| - 1
  {
    Api.DeleteThenFind(store, selected.id);
    Api.RemovedSpec(store, selected.id);
    Api.IndexOfIdSpec(store, selected.id);
  }
}
