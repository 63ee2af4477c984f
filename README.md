# Student-record portal: the record store and the pages that use it

This project models the core of a student-record portal. Institutes keep the
records of their students and the government searches those records
nationwide. The records live in an in-memory store (`src/services/api.ts`):

- a sequence of `StudentRecord`s seeded with 100 synthetic students;
- lookups by id and by ABCid (the student's Academic Bank of Credits id);
- a per-institute listing;
- a filtered, paginated listing;
- create, update and delete.

The model also covers the pages and components that build requests to the
store or compute something from its answers:

- the government search page, with its filters, page count, client-side search and pagination bar;
- the institute's student list, with its search box and delete dialog;
- both dashboards' statistics, a counting fold and a top-five ranking;
- the shared create/edit form, with its validators and default values;
- the institute's record page, with its schema, update payload and submit/delete handlers;
- the create and edit pages, with their guards and payload mapping;
- the route guard.

Layout, one module per source file, plus shared modules:

| file | module | models |
|---|---|---|
| `wrappers.dfy` | `Wrappers` | `Option` (`null` / `undefined` / NaN) |
| `text.dfy` | `Text` | ASCII `toLowerCase`, `includes`, `trim`, `padStart`, `toString`, base-10 `parseInt` |
| `seqs.dfy` | `Seqs` | `filter`, `findIndex`, `find`, `splice(i, 1)`, `slice` |
| `records.dfy` | `Records` | `StudentRecord`, the fixed institute and course lists, `Partial<StudentRecord>` and object spread |
| `session.dfy` | `Session` | the signed-in user and the truthiness of `user?.institute` |
| `seed.dfy` | `Seed` | `generateABCId`, `generateMockStudents` |
| `api.dfy` | `Api` | the store: functions on sequences and the `Api.Store` class proved against them |
| `students_search.dfy` | `StudentsSearch` | `src/pages/government/StudentsSearch.tsx` |
| `students_list.dfy` | `StudentsList` | `src/pages/institute/StudentsList.tsx` |
| `tally.dfy` | `Tally` | the `reduce` into a count dictionary and the sort-and-slice top list |
| `government_dashboard.dfy` | `GovernmentDashboard` | `src/pages/government/Dashboard.tsx` |
| `institute_dashboard.dfy` | `InstituteDashboard` | `src/pages/institute/Dashboard.tsx` |
| `student_form.dfy` | `StudentForm` | `src/components/StudentForm.tsx` |
| `student_details.dfy` | `StudentDetails` | `src/pages/institute/StudentDetails.tsx` |
| `create_student.dfy` | `CreateStudent` | `src/pages/institute/CreateStudent.tsx` |
| `edit_student.dfy` | `EditStudent` | `src/pages/institute/EditStudent.tsx` |
| `protected_route.dfy` | `ProtectedRoute` | `src/components/ProtectedRoute.tsx` |

Stateful code is modelled with classes:

- The store is the class `Api.Store`, whose field `students` is the `mockStudents` array.
- Each page's React state (`page`, `isSubmitting`, the delete dialog) is a field of a page class.
- Each state-changing method states its whole new state in terms of a function on the old state.
- That function's properties are proved in lemmas.
- The counting `reduce` is a method with a loop (`Tally.CountBy`), proved equal to the recursive `Tally.Counts`.
- The `getAllStudents` filter loop is `Api.Store.GetAllStudents`, proved equal to `Api.AllStudents`.

Inputs the code reads from the environment are parameters:

- `new Date().getFullYear()` becomes `currentYear` or `thisYear`.
- Each `Math.random()` draw becomes a number in range drawn in advance (`Seed.Draw`, nine ABCid digits).
- The signed-in user (`useAuth().user`) is a parameter.
- So is the route parameter `id`.

Where the repository's written description and the code disagree, the model follows the code:

- ABCids are generated without a collision check (`Seed.AbcIdInjective` shows only that equal draws give equal ABCids).
- The `getAllStudents` filters are case-insensitive substring tests, not exact matches.
- The record page can change a record's institute (the second finding below).
- The search page's search box filters the fetched page only.
- Changing a filter does not reset the page number.

## Model

| member | source | states |
|---|---|---|
| Records.GenderOfName | src/services/api.ts:10 | the three gender names parse back to their gender, and a string names gender g exactly when it is g's name |
| Records.StudentIdInjective | src/services/api.ts:59 | `student-${n}` ids of different numbers differ |
| Records.WithIdentity | src/services/api.ts:139-143 | the record built from a create payload carries the given id and ABCid and gives back exactly the payload's other fields |
| Records.MergeProperties | src/services/api.ts:156 | `{...r, ...u}` keeps id, ABCid and institute when `u` lacks them, takes them from `u` when present, an empty update changes nothing, and merging twice is merging once |
| Text.LowerProperties | src/services/api.ts:121 | lower-casing keeps the length, leaves no upper-case letter and is idempotent |
| Text.IncludesIff | src/services/api.ts:121 | `includes` holds exactly when the pattern occurs at some index |
| Text.IncludesLength | src/pages/government/StudentsSearch.tsx:62-64 | a string includes nothing longer than itself |
| Text.BlankIffAllSpace | src/pages/government/StudentsSearch.tsx:58 | `!s.trim()` holds exactly when every character is whitespace |
| Text.PadStart | src/services/api.ts:65 | `padStart` gives the larger of the width and the length, ends with the original string, and fills the front with the fill character |
| Text.NatToStringValue | src/services/api.ts:72 | `toString` of a natural number is a non-empty digit string whose value is the number |
| Text.NatToStringLength | src/services/api.ts:72 | the rendering has at most k digits exactly when the number is below 10^k |
| Text.LeadingZerosValue | src/services/api.ts:72 | zero padding does not change a digit string's value |
| Text.LeadingDigits | src/pages/institute/EditStudent.tsx:42 | `parseInt` reads the longest digit prefix and stops at the first non-digit |
| Text.ParseIntOfDigits | src/pages/institute/CreateStudent.tsx:35-36 | a non-empty digit string parses to its value |
| Text.ParseIntNegative | src/pages/institute/EditStudent.tsx:42-43 | a minus sign followed by digits parses to the negated value |
| Text.ParseIntRoundTrip | src/components/StudentForm.tsx:52-53 | `parseInt(n.toString()) == n` for every integer |
| Text.IntToStringInjective | src/services/api.ts:141 | distinct integers render to distinct strings |
| Seqs.FirstIndex | src/services/api.ts:154 | `findIndex` gives -1 exactly when nothing matches, otherwise the first matching index |
| Seqs.FilterSpec | src/services/api.ts:102 | `filter` keeps an order-preserving subsequence holding exactly the satisfying elements, each with its multiplicity |
| Seqs.FilterConcat | src/services/api.ts:120 | filtering distributes over concatenation |
| Seqs.FilterKeepsAll | src/services/api.ts:118-124 | filtering by a predicate every element satisfies returns the input |
| Seqs.FilterAgree | src/services/api.ts:119 | predicates that agree on the elements filter alike |
| Seqs.FilterTwice | src/services/api.ts:118-124 | two successive filters are one filter by the conjunction |
| Seqs.RemoveAtSpec | src/services/api.ts:170 | `splice(i, 1)` shortens by one, keeps the prefix, shifts the tail down, removes exactly one occurrence of `s[i]` and leaves a subsequence |
| Seqs.SliceNonNegative | src/services/api.ts:129 | `slice(a, b)` with `0 <= a <= b` is the index range clipped to the length |
| Seed.GenerateAbcId | src/services/api.ts:43-47 | an ABCid is "ABC" and nine digits, the i-th digit being the i-th draw |
| Seed.AbcIdInjective | src/services/api.ts:45 | two ABCids are equal exactly when their draws are |
| Seed.Dob | src/services/api.ts:65 | a seed date of birth is `YYYY-MM-DD` with year 1990..1999, month 1..12, day 1..28 |
| Seed.GenerateMockStudents | src/services/api.ts:50-53 | `generateMockStudents(count)` yields `count` records |
| Seed.SeedRecordIdentity | src/services/api.ts:59-71 | seed record i has id `student-(i+1)` and e-mail `student(i+1)@example.com` |
| Seed.SeedIdsDistinct | src/services/api.ts:59 | seed record ids are `student-1` .. `student-count`, pairwise distinct |
| Seed.SeedFields | src/services/api.ts:54-70 | admission within the last three years, year of study `min(cy - yoa + 1, 4)` in 1..4, institute and course from the fixed lists, well-formed ABCid |
| Seed.PaddedDigits | src/services/api.ts:72 | a number below 10^k padded to k places is k digits with that value |
| Seed.SeedDob | src/services/api.ts:65 | every seed record's date of birth has the seed date shape |
| Seed.SeedContact | src/services/api.ts:72 | a seed contact number is "+91 " and exactly ten digits |
| Api.IndexOfIdSpec | src/services/api.ts:154 | the first index holding the id, or -1 exactly when none does |
| Api.FindById | src/services/api.ts:90-97 | null exactly when no record has the id, otherwise the first record that has it |
| Api.FindByAbcId | src/services/api.ts:81-88 | null exactly when no record has the ABCid, otherwise the first record that has it |
| Api.FindByIdUnique | src/services/api.ts:93 | with unique ids the record found is the one with the id |
| Api.ByInstituteSpec | src/services/api.ts:99-106 | the listing is the order-preserving subsequence of exactly that institute's records, multiplicities kept |
| Api.ByInstituteExample | src/services/api.ts:102 | institutes A, B, A list as the first and third record for A |
| Api.AllStudentsSpec | src/services/api.ts:108-134 | `total` counts the store-wide matches; the page holds at most `limit` records, all matching and from the store |
| Api.NoFiltersListsAll | src/services/api.ts:111-124 | with no filters every record matches |
| Api.FalsyFilterIgnored | src/services/api.ts:119 | a filter whose value is empty or 0 changes nothing |
| Api.PageSpec | src/services/api.ts:127-129 | page p is the index range `[(p-1)L, pL)` clipped to the list, at most L long, empty exactly when it starts past the end |
| Api.PagesPrefix | src/services/api.ts:127-129 | pages 1..k concatenate to the first kL records, with nothing lost or repeated |
| Api.AllPagesReconstruct | src/services/api.ts:127-129 | enough pages reconstruct the whole list |
| Api.CreatedSpec | src/services/api.ts:136-149 | create appends one record, keeps the earlier ones, and gives it id `student-(n+1)`, a well-formed ABCid and the payload |
| Api.UpdatedSpec | src/services/api.ts:151-163 | update replaces the first record with the id by the merge and returns it, keeping the length and every other record; with no such id it returns null and changes nothing |
| Api.UpdateThenFind | src/services/api.ts:154-157 | after an update without an id the lookup returns the updated record, whose ABCid and institute are unchanged when the update lacks them |
| Api.FindFirstIndex | src/services/api.ts:93 | the record at the first index holding the id is what the lookup returns |
| Api.RemovedSpec | src/services/api.ts:165-177 | delete removes exactly the first record with the id and keeps the rest in order, or changes nothing |
| Api.DeleteThenFind | src/services/api.ts:168-170 | with unique ids a deleted id is no longer found, a second delete reports false, and ids stay unique |
| Api.UpdateKeepsUniqueIds | src/services/api.ts:156 | an update without an id keeps ids unique |
| Api.SeedUniqueIds | src/services/api.ts:78 | the seeded store has unique ids |
| Api.CreateAfterDeleteReusesId | src/services/api.ts:141 | after deleting any record but the last, create reissues the last record's id, ids are no longer unique, and the lookup finds the old record |
| Api.CreateAfterDeleteExample | src/services/api.ts:141 | a two-record store, delete `student-1`, create: two records named `student-2` |
| Api.MaxSerial | src/services/api.ts:141 | the largest id number is at least every record's id number |
| Api.IdSerialOf | src/services/api.ts:141 | the number read back from `student-${n}` is n |
| Api.FreshRecord | src/services/api.ts:139-143 | the corrected new record's id differs from every id in the store |
| Api.CreatedFreshSpec | src/services/api.ts:139-146 | with the corrected id, create keeps ids unique and the new record is found under its id |
| Api.Store.constructor | src/services/api.ts:78 | the store starts as the 100 seed records, with unique ids |
| Api.Store.GetStudentByAbcId | src/services/api.ts:81-88 | returns the lookup by ABCid |
| Api.Store.GetStudentById | src/services/api.ts:90-97 | returns the lookup by id |
| Api.Store.GetStudentsByInstitute | src/services/api.ts:99-106 | returns the institute listing |
| Api.Store.GetAllStudents | src/services/api.ts:108-134 | the `forEach` filter loop computes exactly the paged listing `AllStudents` |
| Api.Store.CreateStudent | src/services/api.ts:136-149 | the store becomes the old store plus the new record, which is returned |
| Api.Store.CreateStudentFreshId | src/services/api.ts:136-149 | the corrected create appends a record with a fresh id and keeps unique ids unique |
| Api.Store.UpdateStudent | src/services/api.ts:151-163 | the store becomes the updated store and the result is the merged record or null |
| Api.Store.DeleteStudent | src/services/api.ts:165-177 | reports true exactly when the id was present; the store becomes the store without that record |
| StudentsSearch.BuildFilters | src/pages/government/StudentsSearch.tsx:29-45 | at most two truthy filters, institute present exactly when one is selected, course exactly when one is selected, and no search term |
| StudentsSearch.FiltersIgnoreTerm | src/pages/government/StudentsSearch.tsx:40-42 | the search term never reaches the request |
| StudentsSearch.FiltersMatch | src/pages/government/StudentsSearch.tsx:29-45 | a record passes the filters exactly when its institute and course contain the selections, ignoring case |
| StudentsSearch.CeilDiv | src/pages/government/StudentsSearch.tsx:54 | `Math.ceil(total / limit)` pages hold all records and one page fewer would not |
| StudentsSearch.TotalPagesLeast | src/pages/government/StudentsSearch.tsx:54 | the page count is the least that holds the total, 0 exactly for no records or no data |
| StudentsSearch.PageInRange | src/pages/government/StudentsSearch.tsx:54-72 | a page number is non-empty exactly when it is at most the page count |
| StudentsSearch.SearchFilterSpec | src/pages/government/StudentsSearch.tsx:57-66 | a blank term keeps the fetched page; any other keeps an order-preserving subsequence holding each record whose name, ABCid or e-mail contains it as often as on the page, and no other |
| StudentsSearch.UntrimmedTerm | src/pages/government/StudentsSearch.tsx:58-60 | the blank test trims but the match does not: " Raj" misses a record named "Raj" |
| StudentsSearch.PaginationBarSpec | src/pages/government/StudentsSearch.tsx:193-230 | a bar exactly for two or more pages, one slot per page number; for a page in range exactly one active link, at that page's slot, links in the first and last slots, and an ellipsis on the side of every hidden page |
| StudentsSearch.CurrentPageActive | src/pages/government/StudentsSearch.tsx:204-212 | the current page is the only active link; the first and last pages are always links |
| StudentsSearch.HiddenPagesMarked | src/pages/government/StudentsSearch.tsx:219-229 | every hidden page has an ellipsis on its side of the current page |
| StudentsSearch.EllipsisPlacement | src/pages/government/StudentsSearch.tsx:219-222 | an ellipsis sits only in slot 2 or the second-to-last slot, never next to the current page |
| StudentsSearch.LinksAmongFive | src/pages/government/StudentsSearch.tsx:204-208 | only the first, last, current and neighbouring pages are links |
| StudentsSearch.SearchPage.constructor | src/pages/government/StudentsSearch.tsx:18-24 | page 1, limit 10, empty term and selections |
| StudentsSearch.SearchPage.HandlePageChange | src/pages/government/StudentsSearch.tsx:68-72 | moves to the new page only when it is in `1..totalPages`; nothing else changes |
| StudentsSearch.SearchPage.Reset | src/pages/government/StudentsSearch.tsx:125-129 | clears the term and both selections and keeps the page |
| StudentsSearch.SearchPage.SetSearchTerm | src/pages/government/StudentsSearch.tsx:22 | sets the term only |
| StudentsSearch.SearchPage.SelectInstitute | src/pages/government/StudentsSearch.tsx:23 | sets the institute and keeps the page |
| StudentsSearch.SearchPage.SelectCourse | src/pages/government/StudentsSearch.tsx:24 | sets the course and keeps the page |
| StudentsSearch.SearchPage.Shown | src/pages/government/StudentsSearch.tsx:48-66 | the rows are the search filter of the fetched page, at most `limit`, from the store; the total counts all store-wide matches |
| StudentsList.ListDataSpec | src/pages/institute/StudentsList.tsx:25-29 | data exists exactly when the user has an institute, and is then the order-preserving subsequence of the store holding exactly that institute's records, each occurrence kept |
| StudentsList.ListFilterSpec | src/pages/institute/StudentsList.tsx:31-42 | no data lists nothing; a blank term lists all; otherwise an order-preserving subsequence holding each record whose name, ABCid, e-mail or course contains the term as often as in the data, and no other |
| StudentsList.ListWidensSearch | src/pages/institute/StudentsList.tsx:36-41 | this search matches everything the government search does and more only through the course |
| StudentsList.ListShowsOwnInstitute | src/pages/institute/StudentsList.tsx:25-42 | every listed record belongs to the user's institute and is in the store |
| StudentsList.ListPage.constructor | src/pages/institute/StudentsList.tsx:22-23 | dialog closed, nothing selected |
| StudentsList.ListPage.AskDelete | src/pages/institute/StudentsList.tsx:133-136 | selects the record and opens the dialog |
| StudentsList.ListPage.Cancel | src/pages/institute/StudentsList.tsx:174 | closes the dialog and keeps the selection |
| StudentsList.ListPage.HandleDeleteStudent | src/pages/institute/StudentsList.tsx:44-67 | no selection: nothing changes; otherwise the selected id is deleted, the dialog closes and the selection clears |
| StudentsList.DeletedRecordGone | src/pages/institute/StudentsList.tsx:48 | with unique ids the deleted record is no longer found and the store shrinks by one |
| Tally.CountBy | src/pages/government/Dashboard.tsx:30-36 | the in-place `reduce` loop builds exactly the count dictionary `Counts` |
| Tally.CountsDistinct | src/pages/government/Dashboard.tsx:31-34 | each key has at most one entry |
| Tally.CountsPositive | src/pages/government/Dashboard.tsx:31-34 | every count is at least 1 |
| Tally.CountsCount | src/pages/government/Dashboard.tsx:30-36 | the count of a key is the number of its occurrences |
| Tally.CountsKeys | src/pages/government/Dashboard.tsx:31-33 | a key has an entry exactly when it occurs |
| Tally.CountsSum | src/pages/government/Dashboard.tsx:30-36 | the counts add up to the number of keys |
| Tally.SumBump | src/pages/government/Dashboard.tsx:34 | one step of the fold adds one to the sum |
| Tally.CountsSize | src/pages/institute/Dashboard.tsx:63 | the number of entries is the number of distinct keys |
| Tally.InsertDescMultiset | src/pages/government/Dashboard.tsx:54 | insertion adds the entry and nothing else |
| Tally.InsertDescSorted | src/pages/government/Dashboard.tsx:54 | insertion keeps a list sorted by count, largest first |
| Tally.SortDesc | src/pages/government/Dashboard.tsx:54 | the sort is a permutation, sorted by count, largest first |
| Tally.TopSpec | src/pages/government/Dashboard.tsx:52-56 | exactly `min(n, number of entries)` entries, a sub-multiset of the tally, largest first, none left out larger than one kept |
| Tally.TopAll | src/pages/government/Dashboard.tsx:55 | with at most n entries the top list is all of them |
| GovernmentDashboard.DashboardStudentsSpec | src/pages/government/Dashboard.tsx:17-22 | the dashboard sees the first 1000 records of the store and no more |
| GovernmentDashboard.TallySpec | src/pages/government/Dashboard.tsx:27-49 | one entry per distinct key, counts equal to occurrences and positive, summing to the number of keys |
| GovernmentDashboard.ByInstituteSpec | src/pages/government/Dashboard.tsx:27-37 | empty for no students; per-institute counts, an entry exactly for institutes present, summing to the total |
| GovernmentDashboard.InstituteKeysCount | src/pages/government/Dashboard.tsx:30-36 | the institute keys equal to `k` are as many as the records the institute listing returns for `k` |
| GovernmentDashboard.InstituteCountIsListing | src/pages/government/Dashboard.tsx:30-36 | the dashboard's count for an institute is the length of that institute's listing from the store |
| GovernmentDashboard.ByCourseSpec | src/pages/government/Dashboard.tsx:39-49 | the same for courses |
| GovernmentDashboard.CourseKeysCount | src/pages/government/Dashboard.tsx:42-48 | the course keys equal to `c` are as many as the students taking `c` |
| GovernmentDashboard.CourseCountIsFilter | src/pages/government/Dashboard.tsx:42-48 | the dashboard's count for a course is the number of students taking it |
| GovernmentDashboard.TopCoursesSpec | src/pages/government/Dashboard.tsx:52-56 | exactly `min(5, number of courses)` courses with their true counts, largest first, none left out larger than one listed |
| GovernmentDashboard.Statistics | src/pages/government/Dashboard.tsx:25-56 | the figures computed by the fold loop agree with the functions that define them, and both tallies sum to the total |
| InstituteDashboard.StatisticsSpec | src/pages/institute/Dashboard.tsx:23-63 | no data: empty tally and 0; with data: per-course counts, positive, summing to the total, one entry per distinct course |
| InstituteDashboard.SameCourseTally | src/pages/institute/Dashboard.tsx:23-33 | the institute dashboard counts courses as the government dashboard does |
| InstituteDashboard.Statistics | src/pages/institute/Dashboard.tsx:23-63 | the figures computed by the fold loop agree with the functions that define them |
| StudentForm.ValidNumbersParse | src/components/StudentForm.tsx:20-21 | a valid year of study parses to 1..6, a valid admission year to 0..9999 |
| StudentForm.DigitsBelowPow | src/components/StudentForm.tsx:20 | k digits have a value below 10^k |
| StudentForm.DobShapeOnly | src/components/StudentForm.tsx:17 | the date rule checks the shape only: "2024-13-45" passes |
| StudentForm.ContactNumberExamples | src/components/StudentForm.tsx:23 | "+91 9876543210" passes, nine digits do not |
| StudentForm.EditDefaultsRoundTrip | src/components/StudentForm.tsx:47-55 | the edit defaults read back to the record's years and gender |
| StudentForm.NewDefaultsSpec | src/components/StudentForm.tsx:56-65 | the new-record defaults pass the gender and year rules but the form as a whole fails |
| StudentForm.FourDigits | src/components/StudentForm.tsx:61 | a year from 1000 to 9999 renders as four digits |
| StudentForm.SeedDobValid | src/components/StudentForm.tsx:17 | a seed date of birth passes the date rule |
| StudentForm.SeedRecordEditable | src/components/StudentForm.tsx:15-55 | every seed record loaded into the edit form passes every rule checked |
| StudentForm.EditableRecord | src/components/StudentForm.tsx:15-55 | a record with seed-shaped fields loads into a passing edit form |
| StudentForm.ContactValid | src/components/StudentForm.tsx:23 | "+91 " and ten digits passes the contact rule |
| StudentForm.Years | src/components/StudentForm.tsx:42 | ten admission years are offered |
| StudentForm.YearsSpec | src/components/StudentForm.tsx:42 | the years read back as the current year counting down, strictly decreasing and distinct |
| StudentDetails.Resolve | src/pages/institute/StudentDetails.tsx:21-30 | typed values exactly when every rule other than the e-mail rule holds, and they show back as the input |
| StudentDetails.ResolveUnresolve | src/pages/institute/StudentDetails.tsx:21-30 | valid typed values, shown and resolved, come back unchanged |
| StudentDetails.DobUnchecked | src/pages/institute/StudentDetails.tsx:25 | the date of birth does not affect validity |
| StudentDetails.FormInput | src/pages/institute/StudentDetails.tsx:49-77 | once loaded, the form holds the record's fields; before, the defaults, which fail validation |
| StudentDetails.SubmitKeepsAbcId | src/pages/institute/StudentDetails.tsx:85-89 | after a save, the record under the id keeps its id and ABCid and carries every form value: name, e-mail, contact number, date of birth, gender, course and both years |
| StudentDetails.SubmitSetsUserInstitute | src/pages/institute/StudentDetails.tsx:87 | as written, a save by a user with an institute sets the record's institute to the user's |
| StudentDetails.InstituteChangesOnSave | src/pages/institute/StudentDetails.tsx:87 | a Delhi University record saved unchanged by a Mumbai University user moves to Mumbai University |
| StudentDetails.UnchangedSaveAsWritten | src/pages/institute/StudentDetails.tsx:85-89 | as written, an unchanged save keeps the record exactly when the user's institute is unset or the record's own |
| StudentDetails.KeepingPayloadSpec | src/pages/institute/StudentDetails.tsx:85-89 | with the corrected update a save keeps id, ABCid and institute and takes the rest from the form; an unchanged save is the identity |
| StudentDetails.DetailsPage.constructor | src/pages/institute/StudentDetails.tsx:40 | not submitting |
| StudentDetails.DetailsPage.OnSubmit | src/pages/institute/StudentDetails.tsx:79-108 | no id or no record: nothing changes; otherwise the store becomes the updated store and the flag ends cleared |
| StudentDetails.DetailsPage.HandleDelete | src/pages/institute/StudentDetails.tsx:110-132 | no id: nothing changes; otherwise the store becomes the store without that record |
| CreateStudent.CreatePayload | src/pages/institute/CreateStudent.tsx:29-39 | a payload exactly when both years parse and the gender is one of the three |
| CreateStudent.CreatePayloadSpec | src/pages/institute/CreateStudent.tsx:29-39 | a valid form gives a payload with the user's institute, the text fields verbatim, the chosen gender, and the years equal to `parseInt` of the form's strings, within 1..6 and 0..9999 |
| CreateStudent.CreateFromEditDefaults | src/pages/institute/CreateStudent.tsx:29-39 | a form filled from a record creates that record's fields, with the user's institute |
| CreateStudent.CreatedRecordFound | src/pages/institute/CreateStudent.tsx:33-41 | the store assigns id and ABCid; the new record is found under its id when that id was free, and belongs to the user's institute |
| CreateStudent.CreatePage.constructor | src/pages/institute/CreateStudent.tsx:14 | not submitting |
| CreateStudent.CreatePage.HandleSubmit | src/pages/institute/CreateStudent.tsx:16-58 | no user institute: nothing changes; otherwise the record is created and the flag ends cleared |
| EditStudent.EditPayload | src/pages/institute/EditStudent.tsx:40-44 | an update exactly when both years parse and the gender is one of the three, never carrying id, ABCid or institute |
| EditStudent.EditPayloadSpec | src/pages/institute/EditStudent.tsx:40-46 | merging a valid form's update keeps id, ABCid and institute and takes the text fields verbatim and the years as parsed |
| EditStudent.EditRoundTrip | src/pages/institute/EditStudent.tsx:40-46 | saving the edit form unchanged leaves the record exactly as it was |
| EditStudent.EditKeepsIdentity | src/pages/institute/EditStudent.tsx:46 | after the update, the record under the id keeps its ABCid and institute |
| EditStudent.EditPage.constructor | src/pages/institute/EditStudent.tsx:19 | not submitting |
| EditStudent.EditPage.HandleSubmit | src/pages/institute/EditStudent.tsx:27-63 | no id or no user institute: nothing changes; otherwise the store becomes the updated store and the flag ends cleared |
| ProtectedRoute.DashboardInjective | src/components/ProtectedRoute.tsx:36-42 | each role has its own dashboard, none of them the home page |
| ProtectedRoute.Decide | src/components/ProtectedRoute.tsx:19-46 | spinner exactly while loading; the page exactly when loaded, authenticated and the role not refused; any redirect goes home or to the user's dashboard |
| ProtectedRoute.LoadingShowsSpinner | src/components/ProtectedRoute.tsx:19-26 | the spinner shows while loading, whatever else holds |
| ProtectedRoute.UnauthenticatedGoesHome | src/components/ProtectedRoute.tsx:29-31 | once loaded, the redirect to "/" happens exactly when not authenticated |
| ProtectedRoute.RefusedGoesToOwnDashboard | src/components/ProtectedRoute.tsx:34-43 | a user whose role is not allowed goes to their own dashboard |
| ProtectedRoute.AllowedRendersChildren | src/components/ProtectedRoute.tsx:34-46 | no role list, a null user, or a listed role renders the page |
| ProtectedRoute.RedirectSettles | src/components/ProtectedRoute.tsx:34-43 | a refused user is redirected, and a route allowing their role renders |

The definitions themselves carry no row of their own. Each is stated by the
lemma named beside it, and that lemma's row cites the definition's lines:

- `Api.ByInstitute`: `Api.ByInstituteSpec`, `Api.Store.GetStudentsByInstitute`.
- `Api.AllStudents`, `Api.Matching`, `Api.PageOf`: `Api.AllStudentsSpec`, `Api.NoFiltersListsAll`, `Api.FalsyFilterIgnored`, `Api.PageSpec`, `Api.PagesPrefix`, `Api.Store.GetAllStudents`.
- `Api.NewRecord`, `Api.Created`: `Api.CreatedSpec`, `Records.WithIdentity`, `Api.Store.CreateStudent`.
- `Api.Updated`, `Api.UpdateResult`: `Api.UpdatedSpec`, `Api.UpdateThenFind`, `Api.Store.UpdateStudent`.
- `Api.Removed`: `Api.RemovedSpec`, `Api.DeleteThenFind`, `Api.Store.DeleteStudent`.
- `Records.Merge`: `Records.MergeProperties`.
- `Records.InstituteKeys`, `Records.CourseKeys`: `GovernmentDashboard.InstituteKeysCount`, `GovernmentDashboard.CourseKeysCount`.
- `Seed.SeedRecord`: `Seed.SeedRecordIdentity`, `Seed.SeedFields`, `Seed.SeedDob`, `Seed.SeedContact`.
- `Session.InstituteOf`, the truthiness of `user?.institute`: the guards of `CreateStudent.CreatePage.HandleSubmit`, `EditStudent.EditPage.HandleSubmit` and `StudentsList.ListDataSpec`.
- `Text.ParseInt`: `Text.LeadingDigits`, `Text.ParseIntOfDigits`, `Text.ParseIntNegative`, `Text.ParseIntRoundTrip`. `Text.Includes`: `Text.IncludesIff`, `Text.IncludesLength`. `Text.Lower`: `Text.LowerProperties`. `Text.IsBlank`: `Text.BlankIffAllSpace`.
- `StudentsSearch.SearchFilter`: `StudentsSearch.SearchFilterSpec`. `StudentsSearch.PageSlot`: `StudentsSearch.CurrentPageActive`, `StudentsSearch.HiddenPagesMarked`, `StudentsSearch.EllipsisPlacement`, `StudentsSearch.LinksAmongFive`. `StudentsSearch.PaginationBar`: `StudentsSearch.PaginationBarSpec`. `StudentsSearch.TotalPages`: `StudentsSearch.TotalPagesLeast`, `StudentsSearch.PageInRange`.
- `StudentsList.ListData`: `StudentsList.ListDataSpec`. `StudentsList.ListFilter`: `StudentsList.ListFilterSpec`.
- `Tally.Counts`: `Tally.CountsDistinct`, `Tally.CountsPositive`, `Tally.CountsCount`, `Tally.CountsKeys`, `Tally.CountsSum`, `Tally.CountsSize`, `Tally.CountBy`. `Tally.Top`: `Tally.TopSpec`, `Tally.TopAll`.
- `StudentForm.Valid` and its field rules: `StudentForm.ValidNumbersParse`, `StudentForm.DobShapeOnly`, `StudentForm.ContactNumberExamples`, `StudentForm.ContactValid`, `StudentForm.SeedRecordEditable`. `StudentForm.Defaults`, `StudentForm.EditDefaults`, `StudentForm.NewDefaults`: `StudentForm.EditDefaultsRoundTrip`, `StudentForm.NewDefaultsSpec`.
- `StudentDetails.ValidInput`: `StudentDetails.Resolve`, `StudentDetails.DobUnchecked`. `StudentDetails.UpdatePayload`: `StudentDetails.SubmitKeepsAbcId`, `StudentDetails.SubmitSetsUserInstitute`, `StudentDetails.UnchangedSaveAsWritten`.
- `GovernmentDashboard.StudentsByInstitute`, `StudentsByCourse`, `TopCourses`: `GovernmentDashboard.ByInstituteSpec`, `InstituteCountIsListing`, `ByCourseSpec`, `CourseCountIsFilter`, `TopCoursesSpec`.
- `InstituteDashboard.StudentsByCourse`, `CoursesOffered`: `InstituteDashboard.StatisticsSpec`, `InstituteDashboard.SameCourseTally`.
- `ProtectedRoute.RoleRefused`: `ProtectedRoute.Decide`, `ProtectedRoute.RefusedGoesToOwnDashboard`, `ProtectedRoute.AllowedRendersChildren`.

## Left out

- The 500 ms `setTimeout` and the Promise around every store operation: each operation runs at once, so the model has no interleaving of requests.
- React Query caching, `invalidateQueries` and refetching: each page reads the store it is given.
- Toasts, `navigate`, the CSV export button, the government view dialog and all rendering other than the values computed for display.
- The catch branches of the page handlers: the modelled store operations never fail.
- Form e-mail validation (`z.string().email()`): it is a library rule, so `StudentForm.Valid` and `StudentDetails.ValidInput` leave it out.
- Unicode: lower-casing is ASCII only, and `trim` and the regex `\s` treat only space and tab as whitespace.
- `parseInt` reads base 10 only. Hexadecimal and other radix prefixes are not modelled, and NaN is `None`.
- CreateStudent.CreatePayload: a year that does not parse, or a gender outside the three, gives no payload. The source would store `NaN` or the raw text. `CreateStudent.CreatePage.HandleSubmit` therefore takes a form that passed its rules, as the form guarantees.
- EditStudent.EditPayload: the same, for the edit update and `EditStudent.EditPage.HandleSubmit`.
- `getAllStudents` with a page below 1 or a fractional page or limit: the lemmas about it are stated for whole numbers of at least 1, which is what every call site passes.
- Object keys that look like integers, which JavaScript lists before other keys: the tallies keep plain insertion order, which agrees for the institute and course names in use.
- Tally.SortDesc: the sort is proved to be a permutation and sorted by count. Stability is not proved: the insertion places an entry after those of equal count, but no lemma states that equal counts keep their order.
- Percentages and other floating-point display values on the dashboards.
- StudentsSearch.SearchPage: `limit` is fixed at 10, since the page never calls its setter.
- The authentication context (`AuthContext.tsx`), the login pages and the route table (`App.tsx`) are not part of this model. The user is a parameter, and the guard's decision is modelled without the router.
- The student's own dashboard and profile pages, and `StudentSearchForm`/`StudentTable`, are not part of this model.

## Findings

| source | as written | input that shows it | evidently intended | confidence | as-written member | corrected member |
|---|---|---|---|---|---|---|
| src/services/api.ts:141 | the new id is `student-${mockStudents.length + 1}` | seed store of 100 records, delete `student-5`, create: the new record gets `student-100`, which the last seed record already has | a fresh id, for example one past the largest id number in use | high, not executed | Api.CreateAfterDeleteReusesId | Api.CreatedFreshSpec |
| src/pages/institute/StudentDetails.tsx:87 | the institute sent is the user's institute when set, else the record's, under the comment "Keep the same institute" | a Delhi University record saved by a user of Mumbai University moves to Mumbai University | the record keeps its own institute | medium, not executed | StudentDetails.InstituteChangesOnSave | StudentDetails.KeepingPayloadSpec |
