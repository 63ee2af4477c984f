/** The in-memory student store and its operations (src/services/api.ts).

    The module-level `mockStudents` array is the field `students` of a `Store`
    object. Every operation is synchronous here: the 500 ms `setTimeout` and the
    Promise around each result are not modelled. What each operation does to the
    store is given by a function on sequences (`FindById`, `AllStudents`,
    `Created`, `Updated`, `Removed`, ...); the methods are proved against those
    functions, and the lemmas below are about the functions. */
module Api {
  import opened Wrappers
  import opened Text
  import opened Seqs
  import opened Records
  import Seed

  /** No two records share an id. */
  predicate UniqueIds(s: seq<StudentRecord>) {
    forall i, j :: 0 <= i < j < |s| ==> s[i].id != s[j].id
  }

  // ------------------------------------------------------------------ lookups

  /** `findIndex(s => s.id === id)`. */
  function IndexOfId(s: seq<StudentRecord>, id: string): int {
    FirstIndex(s, (r: StudentRecord) => r.id == id)
  }

  /** The first index holding `id`, or -1 when no record has it. */
  lemma IndexOfIdSpec(s: seq<StudentRecord>, id: string)
    ensures var i := IndexOfId(s, id);
      && -1 <= i < |s|
      && (i >= 0 ==> s[i].id == id && forall j :: 0 <= j < i ==> s[j].id != id)
      && (i == -1 <==> forall j :: 0 <= j < |s| ==> s[j].id != id)
  {
  }

  /** `getStudentById`: the first record with the id, or null. */
  function FindById(s: seq<StudentRecord>, id: string): (r: Option<StudentRecord>)
    ensures r.None? <==> forall j :: 0 <= j < |s| ==> s[j].id != id
    ensures r.Some? ==> exists k :: 0 <= k < |s| && s[k] == r.value && r.value.id == id &&
                                    forall j :: 0 <= j < k ==> s[j].id != id
  {
    Find(s, (r: StudentRecord) => r.id == id)
  }

  /** `getStudentByABCId`: the first record with the ABCid, or null. */
  function FindByAbcId(s: seq<StudentRecord>, abcId: string): (r: Option<StudentRecord>)
    ensures r.None? <==> forall j :: 0 <= j < |s| ==> s[j].abcId != abcId
    ensures r.Some? ==> exists k :: 0 <= k < |s| && s[k] == r.value && r.value.abcId == abcId &&
                                    forall j :: 0 <= j < k ==> s[j].abcId != abcId
  {
    Find(s, (r: StudentRecord) => r.abcId == abcId)
  }

  /** With unique ids, the record found is the only one with that id. */
  lemma FindByIdUnique(s: seq<StudentRecord>, id: string, k: nat)
    requires UniqueIds(s) && k < |s| && s[k].id == id
    ensures FindById(s, id) == Some(s[k])
  {
    var r := FindById(s, id);
    var k' :| 0 <= k' < |s| && s[k'] == r.value && r.value.id == id && forall j :: 0 <= j < k' ==> s[j].id != id;
    assert k' == k;
  }

  /** `getStudentsByInstitute`: the records whose institute equals the argument. */
  function ByInstitute(s: seq<StudentRecord>, institute: string): seq<StudentRecord> {
    Filter(s, (r: StudentRecord) => r.institute == institute)
  }

  /** The institute listing is the order-preserving subsequence of exactly the
      records of that institute, each occurrence kept. */
  lemma ByInstituteSpec(s: seq<StudentRecord>, institute: string)
    ensures IsSubsequence(ByInstitute(s, institute), s)
    ensures forall r :: r in ByInstitute(s, institute) <==> r in s && r.institute == institute
    ensures forall r :: multiset(ByInstitute(s, institute))[r] ==
                        if r.institute == institute then multiset(s)[r] else 0
  {
    FilterSpec(s, (r: StudentRecord) => r.institute == institute);
  }

  /** Three records with institutes A, B, A: the listing for A is the first and
      the third, in that order. */
  lemma ByInstituteExample(a: StudentRecord, b: StudentRecord, c: StudentRecord)
    requires a.institute == "A" && b.institute == "B" && c.institute == "A"
    ensures ByInstitute([a, b, c], "A") == [a, c]
  {
    var p := (r: StudentRecord) => r.institute == "A";
    assert [a, b, c][1..] == [b, c];
    assert [b, c][1..] == [c];
    assert [c][1..] == [];
    assert Filter([c], p) == [c];
    assert Filter([b, c], p) == [c];
    assert Filter([a, b, c], p) == [a, c];
  }

  // --------------------------------------------------- filtered, paged listing

  /** One entry of `Object.entries(filters)`. */
  datatype FilterEntry = FilterEntry(key: Key, value: Value)

  /** The test applied for a truthy filter value: the stringified field
      contains the stringified value, both lower-cased. */
  predicate FieldMatches(r: StudentRecord, key: Key, value: Value) {
    Includes(Lower(FieldText(r, key)), Lower(ValueText(value)))
  }

  /** A filter with a falsy value is skipped, so every record passes it. */
  predicate Matches(r: StudentRecord, f: FilterEntry) {
    !Truthy(f.value) || FieldMatches(r, f.key, f.value)
  }

  predicate MatchesAll(r: StudentRecord, fs: seq<FilterEntry>) {
    forall i :: 0 <= i < |fs| ==> Matches(r, fs[i])
  }

  /** The records that pass every filter, in store order. */
  function Matching(s: seq<StudentRecord>, fs: seq<FilterEntry>): seq<StudentRecord> {
    Filter(s, (r: StudentRecord) => MatchesAll(r, fs))
  }

  /** Page `page` of `limit` records: `slice((page-1)*limit, (page-1)*limit + limit)`. */
  function PageOf(f: seq<StudentRecord>, page: int, limit: int): seq<StudentRecord> {
    Slice(f, (page - 1) * limit, (page - 1) * limit + limit)
  }

  datatype PageResult = PageResult(students: seq<StudentRecord>, total: int)

  /** `getAllStudents(page, limit, filters)`. */
  function AllStudents(s: seq<StudentRecord>, page: int, limit: int, fs: seq<FilterEntry>): PageResult {
    PageResult(PageOf(Matching(s, fs), page, limit), |Matching(s, fs)|)
  }

  /** `total` counts the records that pass every filter, store-wide; the
      page holds only such records, in store order. */
  lemma AllStudentsSpec(s: seq<StudentRecord>, page: int, limit: int, fs: seq<FilterEntry>)
    requires page >= 1 && limit >= 1
    ensures var res := AllStudents(s, page, limit, fs);
      && res.total == |Matching(s, fs)| <= |s|
      && |res.students| <= limit
      && (forall r :: r in res.students ==> r in s && MatchesAll(r, fs))
      && (forall r :: r in s && MatchesAll(r, fs) ==> r in Matching(s, fs))
  {
    FilterSpec(s, (r: StudentRecord) => MatchesAll(r, fs));
    PageSpec(Matching(s, fs), page, limit);
    var f := Matching(s, fs);
    var lo, hi := Min((page - 1) * limit, |f|), Min(page * limit, |f|);
    forall r | r in PageOf(f, page, limit) ensures r in f {
      var k :| 0 <= k < |f[lo..hi]| && f[lo..hi][k] == r;
      assert f[lo + k] == r;
    }
  }

  /** Without filters every record is listed and `total` is the store size. */
  lemma NoFiltersListsAll(s: seq<StudentRecord>)
    ensures Matching(s, []) == s
  {
    FilterKeepsAll(s, (r: StudentRecord) => MatchesAll(r, []));
  }

  /** A filter entry with an empty value or 0 changes nothing. */
  lemma FalsyFilterIgnored(s: seq<StudentRecord>, fs: seq<FilterEntry>, f: FilterEntry)
    requires !Truthy(f.value)
    ensures Matching(s, fs + [f]) == Matching(s, fs)
  {
    forall r: StudentRecord ensures MatchesAll(r, fs + [f]) == MatchesAll(r, fs) {
      assert forall k :: 0 <= k < |fs| ==> (fs + [f])[k] == fs[k];
      assert (fs + [f])[|fs|] == f;
    }
    FilterAgree(s, (r: StudentRecord) => MatchesAll(r, fs + [f]), (r: StudentRecord) => MatchesAll(r, fs));
  }

  /** Page `page` is the index range `[(page-1)*limit, page*limit)` of the list,
      clipped to its length: at most `limit` records, empty exactly when it starts
      at or past the end. */
  lemma PageSpec(f: seq<StudentRecord>, page: int, limit: int)
    requires page >= 1 && limit >= 1
    ensures (page - 1) * limit >= 0
    ensures PageOf(f, page, limit) == f[Min((page - 1) * limit, |f|)..Min(page * limit, |f|)]
    ensures |PageOf(f, page, limit)| <= limit
    ensures PageOf(f, page, limit) == [] <==> (page - 1) * limit >= |f|
  {
    assert (page - 1) * limit >= 0 by {
      assert page - 1 >= 0;
    }
    assert (page - 1) * limit + limit == page * limit;
    SliceNonNegative(f, (page - 1) * limit, page * limit);
  }

  /** Pages 1..k, concatenated. */
  function Pages(f: seq<StudentRecord>, limit: int, k: nat): seq<StudentRecord> {
    if k == 0 then [] else Pages(f, limit, k - 1) + PageOf(f, k, limit)
  }

  /** Consecutive pages concatenate to a prefix of the list, with nothing lost
      and nothing repeated. */
  lemma {:induction false} PagesPrefix(f: seq<StudentRecord>, limit: int, k: nat)
    requires limit >= 1
    ensures k * limit >= 0
    ensures Pages(f, limit, k) == f[..Min(k * limit, |f|)]
  {
    if k > 0 {
      PagesPrefix(f, limit, k - 1);
      PageSpec(f, k, limit);
      var a, b := Min((k - 1) * limit, |f|), Min(k * limit, |f|);
      assert (k - 1) * limit <= k * limit;
      assert f[..a] + f[a..b] == f[..b];
    }
  }

  /** Once `k` pages cover the list, they reconstruct it exactly. */
  lemma AllPagesReconstruct(f: seq<StudentRecord>, limit: int, k: nat)
    requires limit >= 1 && k * limit >= |f|
    ensures Pages(f, limit, k) == f
  {
    PagesPrefix(f, limit, k);
  }

  // ----------------------------------------------------------------- mutations

  /** The record `createStudent(student)` builds: its id is derived from the
      store's current length and its ABCid from nine random digits. */
  function NewRecord(s: seq<StudentRecord>, n: NewStudent, abcDigits: seq<int>): StudentRecord
    requires Seed.DigitDraws(abcDigits)
  {
    WithIdentity(n, StudentId(|s| + 1), Seed.GenerateAbcId(abcDigits))
  }

  /** The store after `createStudent`: the new record appended. */
  function Created(s: seq<StudentRecord>, n: NewStudent, abcDigits: seq<int>): seq<StudentRecord>
    requires Seed.DigitDraws(abcDigits)
  {
    s + [NewRecord(s, n, abcDigits)]
  }

  /** Create grows the store by one at the end, keeps every earlier record,
      and the new record carries the payload, the id `student-(n+1)` for a
      store of length n, and a well-formed ABCid. */
  lemma CreatedSpec(s: seq<StudentRecord>, n: NewStudent, abcDigits: seq<int>)
    requires Seed.DigitDraws(abcDigits)
    ensures var t := Created(s, n, abcDigits);
      && |t| == |s| + 1
      && t[..|s|] == s
      && t[|s|].id == StudentId(|s| + 1)
      && Seed.IsAbcId(t[|s|].abcId)
      && Payload(t[|s|]) == n
  {
    assert Created(s, n, abcDigits)[..|s|] == s;
  }

  /** The store after `updateStudent(id, updates)`. */
  function Updated(s: seq<StudentRecord>, id: string, u: StudentUpdate): seq<StudentRecord> {
    var i := IndexOfId(s, id);
    if i < 0 then s else s[i := Merge(s[i], u)]
  }

  /** The value `updateStudent(id, updates)` resolves to. */
  function UpdateResult(s: seq<StudentRecord>, id: string, u: StudentUpdate): Option<StudentRecord> {
    var i := IndexOfId(s, id);
    if i < 0 then None else Some(Merge(s[i], u))
  }

  /** Update replaces the first record with the id by the merged record and
      returns it, leaving the length and every other record as they were; with
      no such record it returns null and changes nothing. */
  lemma UpdatedSpec(s: seq<StudentRecord>, id: string, u: StudentUpdate)
    ensures |Updated(s, id, u)| == |s|
    ensures UpdateResult(s, id, u).None? <==> forall j :: 0 <= j < |s| ==> s[j].id != id
    ensures UpdateResult(s, id, u).None? ==> Updated(s, id, u) == s
    ensures UpdateResult(s, id, u).Some? ==>
      exists i :: 0 <= i < |s| && s[i].id == id && (forall j :: 0 <= j < i ==> s[j].id != id)
        && Updated(s, id, u)[i] == UpdateResult(s, id, u).value == Merge(s[i], u)
        && (forall j :: 0 <= j < |s| && j != i ==> Updated(s, id, u)[j] == s[j])
  {
    IndexOfIdSpec(s, id);
  }

  /** An update that does not carry an id is seen by a later lookup of that id,
      and when it carries no ABCid or institute either, those stay as they
      were. */
  lemma UpdateThenFind(s: seq<StudentRecord>, id: string, u: StudentUpdate)
    requires u.id.None?
    ensures FindById(Updated(s, id, u), id) == UpdateResult(s, id, u)
    ensures UpdateResult(s, id, u).Some? && u.abcId.None? ==>
      UpdateResult(s, id, u).value.abcId == FindById(s, id).value.abcId
    ensures UpdateResult(s, id, u).Some? && u.institute.None? ==>
      UpdateResult(s, id, u).value.institute == FindById(s, id).value.institute
  {
    IndexOfIdSpec(s, id);
    var i := IndexOfId(s, id);
    var t := Updated(s, id, u);
    if i >= 0 {
      assert IndexOfId(t, id) == i by {
        IndexOfIdSpec(t, id);
        assert t[i].id == id;
        assert forall j :: 0 <= j < i ==> t[j] == s[j];
      }
      FindFirstIndex(s, id, i);
      FindFirstIndex(t, id, i);
    } else {
      assert t == s;
    }
  }

  /** The record `FindById` returns sits at the first index holding the id. */
  lemma FindFirstIndex(s: seq<StudentRecord>, id: string, i: nat)
    requires i < |s| && s[i].id == id && forall j :: 0 <= j < i ==> s[j].id != id
    ensures FindById(s, id) == Some(s[i])
  {
    var r := FindById(s, id);
    var k :| 0 <= k < |s| && s[k] == r.value && r.value.id == id && forall j :: 0 <= j < k ==> s[j].id != id;
    assert k == i;
  }

  /** The store after `deleteStudent(id)`: the first record with the id spliced out. */
  function Removed(s: seq<StudentRecord>, id: string): seq<StudentRecord> {
    var i := IndexOfId(s, id);
    if i < 0 then s else RemoveAt(s, i)
  }

  /** Delete takes out exactly one record, the first with the id, and keeps
      the others in their order; with no such record nothing changes. */
  lemma RemovedSpec(s: seq<StudentRecord>, id: string)
    ensures var i := IndexOfId(s, id);
      && (i < 0 ==> Removed(s, id) == s)
      && (i >= 0 ==> |Removed(s, id)| == |s| - 1
                     && multiset(Removed(s, id)) + multiset{s[i]} == multiset(s)
                     && IsSubsequence(Removed(s, id), s)
                     && (forall j :: 0 <= j < i ==> Removed(s, id)[j] == s[j])
                     && (forall j :: i <= j < |s| - 1 ==> Removed(s, id)[j] == s[j + 1]))
  {
    var i := IndexOfId(s, id);
    if i >= 0 {
      RemoveAtSpec(s, i);
    }
  }

  /** With unique ids, a deleted id can no longer be found, a second delete of
      it reports false, and the ids stay unique. */
  lemma DeleteThenFind(s: seq<StudentRecord>, id: string)
    requires UniqueIds(s)
    ensures FindById(Removed(s, id), id).None?
    ensures IndexOfId(Removed(s, id), id) == -1
    ensures UniqueIds(Removed(s, id))
  {
    RemovedSpec(s, id);
    IndexOfIdSpec(s, id);
    var t := Removed(s, id);
    var i := IndexOfId(s, id);
    if i >= 0 {
      forall j | 0 <= j < |t| ensures t[j].id != id {
        if j < i { assert t[j] == s[j]; } else { assert t[j] == s[j + 1]; }
      }
      forall a, b | 0 <= a < b < |t| ensures t[a].id != t[b].id {
        var a' := if a < i then a else a + 1;
        var b' := if b < i then b else b + 1;
        assert t[a] == s[a'] && t[b] == s[b'];
      }
    }
    IndexOfIdSpec(t, id);
  }

  /** An update without an id keeps the ids unique. */
  lemma UpdateKeepsUniqueIds(s: seq<StudentRecord>, id: string, u: StudentUpdate)
    requires UniqueIds(s) && u.id.None?
    ensures UniqueIds(Updated(s, id, u))
  {
    IndexOfIdSpec(s, id);
  }

  /** The seeded store has unique ids. */
  lemma SeedUniqueIds(currentYear: int, draws: seq<Seed.Draw>)
    requires |draws| == Seed.SeedCount && Seed.AllInRange(draws)
    ensures UniqueIds(Seed.GenerateMockStudents(Seed.SeedCount, currentYear, draws))
  {
    Seed.SeedIdsDistinct(Seed.SeedCount, currentYear, draws);
  }

  // ------------------------------------------- id reuse after a delete

  /** As written, create derives the id from the length. When the last record
      has id `student-n` for a store of length n (as the seed data does) and any
      other record is deleted, the next create issues `student-n` again: the ids
      are no longer unique and looking the new id up finds the old record. */
  lemma CreateAfterDeleteReusesId(s: seq<StudentRecord>, k: nat, n: NewStudent, abcDigits: seq<int>)
    requires UniqueIds(s) && Seed.DigitDraws(abcDigits)
    requires k < |s| - 1 && s[|s| - 1].id == StudentId(|s|)
    ensures var t := Created(Removed(s, s[k].id), n, abcDigits);
      && |t| == |s|
      && t[|s| - 2].id == t[|s| - 1].id == StudentId(|s|)
      && !UniqueIds(t)
      && FindById(t, StudentId(|s|)) == Some(s[|s| - 1])
  {
    IndexOfIdSpec(s, s[k].id);
    assert IndexOfId(s, s[k].id) == k;
    RemovedSpec(s, s[k].id);
    var r := Removed(s, s[k].id);
    assert r[|s| - 2] == s[|s| - 1];
    var t := Created(r, n, abcDigits);
    assert t[|s| - 2] == s[|s| - 1];
    forall j | 0 <= j < |s| - 2 ensures t[j].id != StudentId(|s|) {
      if j < k { assert t[j] == s[j]; } else { assert t[j] == s[j + 1]; }
    }
    FindFirstIndex(t, StudentId(|s|), |s| - 2);
  }

  /** A concrete instance: a two-record store, delete `student-1`, create. */
  lemma CreateAfterDeleteExample(a: StudentRecord, b: StudentRecord, n: NewStudent, abcDigits: seq<int>)
    requires a.id == StudentId(1) && b.id == StudentId(2) && Seed.DigitDraws(abcDigits)
    ensures !UniqueIds(Created(Removed([a, b], StudentId(1)), n, abcDigits))
  {
    if StudentId(1) == StudentId(2) { StudentIdInjective(1, 2); }
    CreateAfterDeleteReusesId([a, b], 0, n, abcDigits);
  }

  /** The number in an id of the form `student-<n>`, else 0. */
  function IdSerial(id: string): int {
    if |id| >= 8 && id[..8] == "student-" then ParseInt(id[8..]).GetOr(0) else 0
  }

  /** The largest id number in the store (0 when there is none). */
  function MaxSerial(s: seq<StudentRecord>): (m: int)
    ensures m >= 0
    ensures forall j :: 0 <= j < |s| ==> IdSerial(s[j].id) <= m
  {
    if s == [] then 0
    else var rest := MaxSerial(s[1..]);
      var here := IdSerial(s[0].id);
      if here > rest then here else rest
  }

  lemma IdSerialOf(n: int)
    ensures IdSerial(StudentId(n)) == n
  {
    assert StudentId(n)[..8] == "student-";
    assert StudentId(n)[8..] == IntToString(n);
    ParseIntRoundTrip(n);
  }

  /** The corrected record: its id is one past the largest id number in use. */
  function FreshRecord(s: seq<StudentRecord>, n: NewStudent, abcDigits: seq<int>): (r: StudentRecord)
    requires Seed.DigitDraws(abcDigits)
    ensures forall j :: 0 <= j < |s| ==> s[j].id != r.id
  {
    var r := WithIdentity(n, StudentId(MaxSerial(s) + 1), Seed.GenerateAbcId(abcDigits));
    IdSerialOf(MaxSerial(s) + 1);
    r
  }

  /** With the corrected id, create keeps ids unique and the new record is
      what a lookup of its id returns. */
  lemma CreatedFreshSpec(s: seq<StudentRecord>, n: NewStudent, abcDigits: seq<int>)
    requires UniqueIds(s) && Seed.DigitDraws(abcDigits)
    ensures UniqueIds(s + [FreshRecord(s, n, abcDigits)])
    ensures var r := FreshRecord(s, n, abcDigits);
      FindById(s + [r], r.id) == Some(r) && Payload(r) == n
  {
    var r := FreshRecord(s, n, abcDigits);
    var t := s + [r];
    FindFirstIndex(t, r.id, |s|);
  }

  // --------------------------------------------------------------- the store

  class Store {
    /** `mockStudents`. */
    var students: seq<StudentRecord>

    /** The store as loaded: `generateMockStudents(100)`. */
    constructor (currentYear: int, draws: seq<Seed.Draw>)
      requires |draws| == Seed.SeedCount && Seed.AllInRange(draws)
      ensures students == Seed.GenerateMockStudents(Seed.SeedCount, currentYear, draws)
      ensures UniqueIds(students)
    {
      students := Seed.GenerateMockStudents(Seed.SeedCount, currentYear, draws);
      SeedUniqueIds(currentYear, draws);
    }

    method GetStudentByAbcId(abcId: string) returns (r: Option<StudentRecord>)
      ensures r == FindByAbcId(students, abcId)
    {
      r := FindByAbcId(students, abcId);
    }

    method GetStudentById(id: string) returns (r: Option<StudentRecord>)
      ensures r == FindById(students, id)
    {
      r := FindById(students, id);
    }

    method GetStudentsByInstitute(institute: string) returns (r: seq<StudentRecord>)
      ensures r == ByInstitute(students, institute)
    {
      r := ByInstitute(students, institute);
    }

    /** Narrows a copy of the store one filter entry at a time, then slices out
        the page. */
    method GetAllStudents(page: int, limit: int, filters: seq<FilterEntry>) returns (result: PageResult)
      ensures result == AllStudents(students, page, limit, filters)
    {
      var filtered := students;
      var i := 0;
      FilterKeepsAll(students, (r: StudentRecord) => MatchesAll(r, filters[..0]));
      while i < |filters|
        invariant 0 <= i <= |filters|
        invariant filtered == Matching(students, filters[..i])
      {
        var entry := filters[i];
        assert filters[..i + 1] == filters[..i] + [entry];
        if Truthy(entry.value) {
          FilterTwice(students,
            (r: StudentRecord) => MatchesAll(r, filters[..i]),
            (r: StudentRecord) => FieldMatches(r, entry.key, entry.value),
            (r: StudentRecord) => MatchesAll(r, filters[..i + 1]));
          filtered := Filter(filtered, (r: StudentRecord) => FieldMatches(r, entry.key, entry.value));
        } else {
          FalsyFilterIgnored(students, filters[..i], entry);
        }
        i := i + 1;
      }
      assert filters[..|filters|] == filters;
      result := PageResult(PageOf(filtered, page, limit), |filtered|);
    }

    /** As written: the id is `student-(length+1)`. */
    method CreateStudent(student: NewStudent, abcDigits: seq<int>) returns (r: StudentRecord)
      requires Seed.DigitDraws(abcDigits)
      modifies this
      ensures r == NewRecord(old(students), student, abcDigits)
      ensures students == Created(old(students), student, abcDigits)
    {
      r := NewRecord(students, student, abcDigits);
      students := students + [r];
    }

    /** Corrected: the id is one past the largest id number in use, so ids stay
        unique. */
    method CreateStudentFreshId(student: NewStudent, abcDigits: seq<int>) returns (r: StudentRecord)
      requires Seed.DigitDraws(abcDigits)
      modifies this
      ensures r == FreshRecord(old(students), student, abcDigits)
      ensures students == old(students) + [r]
      ensures old(UniqueIds(students)) ==> UniqueIds(students)
    {
      r := FreshRecord(students, student, abcDigits);
      if UniqueIds(students) {
        CreatedFreshSpec(students, student, abcDigits);
      }
      students := students + [r];
    }

    method UpdateStudent(id: string, updates: StudentUpdate) returns (r: Option<StudentRecord>)
      modifies this
      ensures students == Updated(old(students), id, updates)
      ensures r == UpdateResult(old(students), id, updates)
    {
      var index := IndexOfId(students, id);
      if index != -1 {
        students := students[index := Merge(students[index], updates)];
        r := Some(students[index]);
      } else {
        r := None;
      }
    }

    method DeleteStudent(id: string) returns (deleted: bool)
      modifies this
      ensures deleted <==> exists j :: 0 <= j < |old(students)| && old(students)[j].id == id
      ensures students == Removed(old(students), id)
    {
      var index := IndexOfId(students, id);
      IndexOfIdSpec(students, id);
      if index != -1 {
        students := RemoveAt(students, index);
        deleted := true;
      } else {
        deleted := false;
      }
    }
  }
}
