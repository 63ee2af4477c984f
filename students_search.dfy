/** The nationwide search page of the government portal
    (src/pages/government/StudentsSearch.tsx): the filter object sent to the
    store, the page count, the search-term filter applied to the fetched page,
    the page-change guard, the pagination window and the reset button. */
module StudentsSearch {
  import opened Wrappers
  import opened Text
  import opened Seqs
  import opened Records
  import Api

  // ------------------------------------------------------------ the filters

  /** The `filters` object: `institute` when one is selected, then `course`
      when one is selected. The search term is not part of it. */
  function BuildFilters(selectedInstitute: string, selectedCourse: string, searchTerm: string): (fs: seq<Api.FilterEntry>)
    ensures |fs| <= 2
    ensures forall i :: 0 <= i < |fs| ==> Truthy(fs[i].value)
    ensures Api.FilterEntry(InstituteKey, Str(selectedInstitute)) in fs <==> selectedInstitute != ""
    ensures Api.FilterEntry(CourseKey, Str(selectedCourse)) in fs <==> selectedCourse != ""
    ensures forall i :: 0 <= i < |fs| ==> fs[i].key == InstituteKey || fs[i].key == CourseKey
  {
    (if selectedInstitute != "" then [Api.FilterEntry(InstituteKey, Str(selectedInstitute))] else [])
    + (if selectedCourse != "" then [Api.FilterEntry(CourseKey, Str(selectedCourse))] else [])
  }

  /** Whatever the search term, the same filters go to the store. */
  lemma FiltersIgnoreTerm(selectedInstitute: string, selectedCourse: string, t1: string, t2: string)
    ensures BuildFilters(selectedInstitute, selectedCourse, t1) == BuildFilters(selectedInstitute, selectedCourse, t2)
  {
  }

  /** A record passes the page's filters exactly when its institute contains
      the selected institute (if one is selected) and its course the selected
      course (if one is selected), ignoring case. */
  lemma {:induction false} FiltersMatch(r: StudentRecord, selectedInstitute: string, selectedCourse: string, searchTerm: string)
    ensures Api.MatchesAll(r, BuildFilters(selectedInstitute, selectedCourse, searchTerm)) <==>
      && (selectedInstitute != "" ==> Includes(Lower(r.institute), Lower(selectedInstitute)))
      && (selectedCourse != "" ==> Includes(Lower(r.course), Lower(selectedCourse)))
  {
    var fs := BuildFilters(selectedInstitute, selectedCourse, searchTerm);
    var fi := Api.FilterEntry(InstituteKey, Str(selectedInstitute));
    var fc := Api.FilterEntry(CourseKey, Str(selectedCourse));
    if selectedInstitute != "" && selectedCourse != "" {
      assert fs == [fi, fc];
    } else if selectedInstitute != "" {
      assert fs == [fi];
    } else if selectedCourse != "" {
      assert fs == [fc];
    } else {
      assert fs == [];
    }
  }

  // ------------------------------------------------------------ page count

  /** `Math.ceil(total / limit)`. */
  function CeilDiv(total: nat, limit: int): (r: nat)
    requires limit >= 1
    ensures r * limit >= total
    ensures r == 0 || (r - 1) * limit < total
  {
    var q := total / limit;
    if total % limit == 0 then q else q + 1
  }

  /** `totalPages`: 0 until data has arrived. */
  function TotalPages(total: Option<nat>, limit: int): nat
    requires limit >= 1
  {
    if total.None? then 0 else CeilDiv(total.value, limit)
  }

  /** `totalPages` is the least number of `limit`-sized pages that hold
      `total` records: 0 exactly when there are none. */
  lemma TotalPagesLeast(total: nat, limit: int, k: nat)
    requires limit >= 1
    ensures TotalPages(Some(total), limit) == 0 <==> total == 0
    ensures TotalPages(None, limit) == 0
    ensures k * limit >= total ==> k >= TotalPages(Some(total), limit)
  {
    var r := TotalPages(Some(total), limit);
    if k * limit >= total && k < r {
      MulMonotone(k, r - 1, limit);
    }
  }

  lemma MulMonotone(a: nat, b: nat, c: nat)
    requires a <= b
    ensures a * c <= b * c
  {
  }

  /** A page number in `1..totalPages` selects a non-empty page of the matching
      records, and any larger page number an empty one. */
  lemma PageInRange(s: seq<StudentRecord>, fs: seq<Api.FilterEntry>, page: int, limit: int)
    requires page >= 1 && limit >= 1
    ensures var f := Api.Matching(s, fs);
      Api.PageOf(f, page, limit) != [] <==> page <= TotalPages(Some(|f|), limit)
  {
    var f := Api.Matching(s, fs);
    var r := TotalPages(Some(|f|), limit);
    Api.PageSpec(f, page, limit);
    if page <= r {
      MulMonotone(page - 1, r - 1, limit);
    } else {
      MulMonotone(r, page - 1, limit);
    }
  }

  // ------------------------------------------------- the client-side search

  /** A record matches the search box when its name, ABCid or e-mail contains
      the lower-cased term. */
  predicate SearchMatches(r: StudentRecord, term: string) {
    var t := Lower(term);
    Includes(Lower(r.fullName), t) || Includes(Lower(r.abcId), t) || Includes(Lower(r.email), t)
  }

  /** `filteredStudents`: a blank term (after trimming) keeps the page as it
      is; otherwise only the matching records stay. The match uses the term
      as typed, not trimmed. */
  function SearchFilter(students: seq<StudentRecord>, searchTerm: string): seq<StudentRecord> {
    if IsBlank(searchTerm) then students
    else Filter(students, (r: StudentRecord) => SearchMatches(r, searchTerm))
  }

  /** A term of spaces and tabs only keeps the page; any other term keeps
      exactly the matching records, in page order, each as often as it occurs
      on the page. */
  lemma SearchFilterSpec(students: seq<StudentRecord>, searchTerm: string)
    ensures AllSpace(searchTerm) ==> SearchFilter(students, searchTerm) == students
    ensures !AllSpace(searchTerm) ==>
      && IsSubsequence(SearchFilter(students, searchTerm), students)
      && (forall r :: r in SearchFilter(students, searchTerm) <==> r in students && SearchMatches(r, searchTerm))
      && forall r :: multiset(SearchFilter(students, searchTerm))[r] ==
                     if SearchMatches(r, searchTerm) then multiset(students)[r] else 0
    ensures |SearchFilter(students, searchTerm)| <= |students|
  {
    BlankIffAllSpace(searchTerm);
    FilterSpec(students, (r: StudentRecord) => SearchMatches(r, searchTerm));
  }

  /** The term is not trimmed before matching: " Raj" does not match a
      record whose name, ABCid and e-mail are all shorter than four
      characters, though "Raj" may be its name. */
  lemma UntrimmedTerm(r: StudentRecord)
    requires r.fullName == "Raj" && |r.abcId| < 4 && |r.email| < 4
    ensures SearchFilter([r], "Raj") == [r]
    ensures SearchFilter([r], " Raj") == []
  {
    BlankIffAllSpace("Raj");
    assert !IsSpace("Raj"[0]);
    BlankIffAllSpace(" Raj");
    assert !IsSpace(" Raj"[1]);
    IncludesSelf(Lower("Raj"));
    assert |Lower(" Raj")| == 4;
    IncludesLength(Lower(r.fullName), Lower(" Raj"));
    IncludesLength(Lower(r.abcId), Lower(" Raj"));
    IncludesLength(Lower(r.email), Lower(" Raj"));
    var p := (x: StudentRecord) => SearchMatches(x, "Raj");
    var q := (x: StudentRecord) => SearchMatches(x, " Raj");
    assert p(r) && !q(r);
    assert SearchFilter([r], "Raj") == Filter([r], p);
    assert SearchFilter([r], " Raj") == Filter([r], q);
    assert [r][1..] == [];
    assert Filter([r], p) == [r] + Filter([], p);
    assert Filter([r], q) == Filter([], q);
  }

  // ------------------------------------------------------ pagination window

  /** What the pagination bar shows in the slot of one page number. */
  datatype Slot = Link(active: bool) | Ellipsis | Hidden

  /** The slot of page number `p`: a link for the first page, the last page
      and the neighbours of the current page; an ellipsis at page 2 or at the
      second-to-last page when the window is far from that end; nothing
      otherwise. */
  function PageSlot(p: int, page: int, totalPages: int): Slot {
    if p == 1 || p == totalPages || (page - 1 <= p && p <= page + 1) then Link(p == page)
    else if (p == 2 && page > 3) || (p == totalPages - 1 && page < totalPages - 2) then Ellipsis
    else Hidden
  }

  /** The bar: one slot per page number `1..totalPages`, or no bar at all unless
      there are at least two pages. */
  function PaginationBar(page: int, totalPages: nat): Option<seq<Slot>> {
    if totalPages > 1 then Some(seq(totalPages, i => PageSlot(i + 1, page, totalPages))) else None
  }

  /** The current page, when it exists, is the one active link, and the first
      and last pages are always links. */
  lemma CurrentPageActive(p: int, page: int, totalPages: int)
    requires 1 <= page <= totalPages
    ensures PageSlot(page, page, totalPages) == Link(true)
    ensures PageSlot(p, page, totalPages) == Link(true) <==> p == page
    ensures PageSlot(1, page, totalPages).Link? && PageSlot(totalPages, page, totalPages).Link?
  {
  }

  /** Every page number left out of the bar is marked by an ellipsis on its
      side of the current page: slot 2 for a page before it, the
      second-to-last slot for a page after it. An ellipsis never stands for
      the current page or a page next to it. */
  lemma HiddenPagesMarked(p: int, page: int, totalPages: int)
    requires 1 <= p <= totalPages
    requires PageSlot(p, page, totalPages) == Hidden
    ensures p < page ==> PageSlot(2, page, totalPages) == Ellipsis
    ensures p > page ==> PageSlot(totalPages - 1, page, totalPages) == Ellipsis
    ensures p != page
  {
  }

  /** An ellipsis stands only in slot 2 or the second-to-last slot and never
      next to the current page. */
  lemma EllipsisPlacement(p: int, page: int, totalPages: int)
    requires PageSlot(p, page, totalPages) == Ellipsis
    ensures p == 2 || p == totalPages - 1
    ensures p < page - 1 || p > page + 1
  {
  }

  /** At most five page numbers are links: the first, the last and the
      current page with its two neighbours. */
  lemma LinksAmongFive(p: int, page: int, totalPages: int)
    requires PageSlot(p, page, totalPages).Link?
    ensures p in {1, page - 1, page, page + 1, totalPages}
  {
  }

  /** The bar as a whole: it is shown exactly when there are two or more
      pages, with one slot per page number. For a current page in range it
      holds exactly one active link, at that page's slot; its first and last
      slots are links; and every page it hides is marked by an ellipsis on
      its side of the current page. */
  lemma PaginationBarSpec(page: int, totalPages: nat)
    ensures PaginationBar(page, totalPages).Some? <==> totalPages > 1
    ensures totalPages > 1 ==> |PaginationBar(page, totalPages).value| == totalPages
    ensures totalPages > 1 && 1 <= page <= totalPages ==>
      var bar := PaginationBar(page, totalPages).value;
      && (forall i :: 0 <= i < |bar| ==> (bar[i] == Link(true) <==> i == page - 1))
      && bar[0].Link? && bar[totalPages - 1].Link?
      && (forall i :: 0 <= i < |bar| && bar[i] == Hidden && i + 1 < page ==> bar[1] == Ellipsis)
      && (forall i :: 0 <= i < |bar| && bar[i] == Hidden && i + 1 > page ==> bar[totalPages - 2] == Ellipsis)
  {
    if totalPages > 1 && 1 <= page <= totalPages {
      var bar := PaginationBar(page, totalPages).value;
      forall i | 0 <= i < |bar|
        ensures bar[i] == Link(true) <==> i == page - 1
        ensures bar[i] == Hidden && i + 1 < page ==> bar[1] == Ellipsis
        ensures bar[i] == Hidden && i + 1 > page ==> bar[totalPages - 2] == Ellipsis
      {
        CurrentPageActive(i + 1, page, totalPages);
        if bar[i] == Hidden {
          HiddenPagesMarked(i + 1, page, totalPages);
        }
      }
      CurrentPageActive(1, page, totalPages);
    }
  }

  // ----------------------------------------------------------- page state

  /** The page's state: the current page number and the three filter inputs. */
  class SearchPage {
    var page: int
    var searchTerm: string
    var selectedInstitute: string
    var selectedCourse: string
    /** `useState(10)`; the page never changes it. */
    const limit: int

    predicate Valid()
      reads this
    {
      page >= 1 && limit == 10
    }

    constructor ()
      ensures Valid()
      ensures page == 1 && searchTerm == "" && selectedInstitute == "" && selectedCourse == ""
    {
      page := 1;
      limit := 10;
      searchTerm := "";
      selectedInstitute := "";
      selectedCourse := "";
    }

    /** `handlePageChange`: moves to `newPage` only when it is one of the
        existing pages. */
    method HandlePageChange(newPage: int, totalPages: nat)
      requires Valid()
      modifies this
      ensures Valid()
      ensures page == (if 0 < newPage <= totalPages then newPage else old(page))
      ensures searchTerm == old(searchTerm) && selectedInstitute == old(selectedInstitute)
      ensures selectedCourse == old(selectedCourse)
    {
      if newPage > 0 && newPage <= totalPages {
        page := newPage;
      }
    }

    /** The Reset button: clears the search term and both selections; the page
        number stays as it was. */
    method Reset()
      requires Valid()
      modifies this
      ensures Valid()
      ensures searchTerm == "" && selectedInstitute == "" && selectedCourse == ""
      ensures page == old(page)
    {
      searchTerm := "";
      selectedInstitute := "";
      selectedCourse := "";
    }

    /** Typing into the search box. */
    method SetSearchTerm(term: string)
      requires Valid()
      modifies this
      ensures Valid()
      ensures searchTerm == term && page == old(page)
      ensures selectedInstitute == old(selectedInstitute) && selectedCourse == old(selectedCourse)
    {
      searchTerm := term;
    }

    /** Choosing an institute; note that the page number is kept. */
    method SelectInstitute(institute: string)
      requires Valid()
      modifies this
      ensures Valid()
      ensures selectedInstitute == institute && page == old(page)
      ensures searchTerm == old(searchTerm) && selectedCourse == old(selectedCourse)
    {
      selectedInstitute := institute;
    }

    /** Choosing a course; note that the page number is kept. */
    method SelectCourse(course: string)
      requires Valid()
      modifies this
      ensures Valid()
      ensures selectedCourse == course && page == old(page)
      ensures searchTerm == old(searchTerm) && selectedInstitute == old(selectedInstitute)
    {
      selectedCourse := course;
    }

    /** What the table and the "Showing X of N" line display for the current
        state: the search filter runs on the fetched page only, so at most
        `limit` rows are shown while N counts every record that passes the
        institute and course filters. */
    method Shown(store: Api.Store) returns (rows: seq<StudentRecord>, total: int)
      requires Valid()
      ensures var fs := BuildFilters(selectedInstitute, selectedCourse, searchTerm);
        && rows == SearchFilter(Api.AllStudents(store.students, page, limit, fs).students, searchTerm)
        && total == |Api.Matching(store.students, fs)|
      ensures |rows| <= limit && total <= |store.students|
      ensures forall r :: r in rows ==> r in store.students
    {
      var fs := BuildFilters(selectedInstitute, selectedCourse, searchTerm);
      var result := store.GetAllStudents(page, limit, fs);
      rows := SearchFilter(result.students, searchTerm);
      total := result.total;
      Api.AllStudentsSpec(store.students, page, limit, fs);
      SearchFilterSpec(result.students, searchTerm);
      if !AllSpace(searchTerm) {
        forall r | r in rows ensures r in store.students {
          assert r in result.students;
        }
      }
    }
  }
}
