/**
 * The student list: search, status filter, sorting by a clicked column and pagination
 * (src/components/organisms/StudentTable.jsx).
 */
module StudentTable {

  import opened Js
  import Arrays
  import opened Domain

  /** The columns that can be clicked to sort. */
  datatype SortField = ByStudentId | ByLastName | ByEnrollmentDate

  datatype Direction = Asc | Desc

  /** The component's state. */
  datatype TableState = TableState(
    searchTerm: string, statusFilter: string, currentPage: int, sortField: SortField, sortDirection: Direction)

  const ItemsPerPage := 10

  /** The state on first render: no search, no filter, page 1, by last name ascending. */
  const Initial := TableState("", "", 1, ByLastName, Asc)

  // ---------------------------------------------------------------------------
  // String order

  /** JavaScript's `a < b` on strings: lexicographic by character code. */
  predicate StrLess(a: string, b: string)
  {
    if a == [] then b != []
    else if b == [] then false
    else if a[0] == b[0] then StrLess(a[1..], b[1..])
    else a[0] < b[0]
  }

  lemma {:induction false} StrLessAsymmetric(a: string, b: string)
    ensures StrLess(a, b) ==> !StrLess(b, a)
  {
    if a != [] && b != [] && a[0] == b[0] {
      StrLessAsymmetric(a[1..], b[1..]);
    }
  }

  lemma {:induction false} StrLessTransitive(a: string, b: string, c: string)
    requires StrLess(a, b) && StrLess(b, c)
    ensures StrLess(a, c)
  {
    if a != [] && b != [] && c != [] && a[0] == b[0] && b[0] == c[0] {
      StrLessTransitive(a[1..], b[1..], c[1..]);
    }
  }

  lemma {:induction false} StrLessTotal(a: string, b: string)
    ensures a == b || StrLess(a, b) || StrLess(b, a)
  {
    if a != [] && b != [] && a[0] == b[0] {
      StrLessTotal(a[1..], b[1..]);
      if a[1..] == b[1..] {
        assert a == [a[0]] + a[1..] && b == [b[0]] + b[1..];
      }
    }
  }

  // ---------------------------------------------------------------------------
  // Filtering and sorting

  /** The clicked column's value, lower-cased as the comparator does with strings. */
  function Key(s: Student, field: SortField): string
  {
    match field
    case ByStudentId => ToLower(s.studentId)
    case ByLastName => ToLower(s.lastName)
    case ByEnrollmentDate => ToLower(s.enrollmentDate)
  }

  /** The search box matches the first or last name, the e-mail or the student number, ignoring case. */
  predicate MatchesSearch(s: Student, term: string)
  {
    term == ""
    || Includes(ToLower(s.firstName), ToLower(term))
    || Includes(ToLower(s.lastName), ToLower(term))
    || Includes(ToLower(s.email), ToLower(term))
    || Includes(ToLower(s.studentId), ToLower(term))
  }

  predicate MatchesStatus(s: Student, filter: string)
  {
    filter == "" || s.enrollmentStatus == filter
  }

  function Shown(st: TableState): Student -> bool
  {
    s => MatchesSearch(s, st.searchTerm) && MatchesStatus(s, st.statusFilter)
  }

  /** The comparator: ascending puts the smaller key first, descending the larger. */
  function Precedes(field: SortField, dir: Direction): (Student, Student) -> bool
  {
    (a, b) => if dir == Asc then StrLess(Key(a, field), Key(b, field)) else StrLess(Key(b, field), Key(a, field))
  }

  lemma PrecedesIsStrictWeakOrder(field: SortField, dir: Direction)
    ensures Arrays.IsStrictWeakOrder(Precedes(field, dir))
  {
    var p := Precedes(field, dir);
    forall a, b | p(a, b) ensures !p(b, a) {
      StrLessAsymmetric(Key(a, field), Key(b, field));
      StrLessAsymmetric(Key(b, field), Key(a, field));
    }
    forall a, b, c | p(a, c) ensures p(a, b) || p(b, c) {
      var ka, kb, kc := Key(a, field), Key(b, field), Key(c, field);
      StrLessTotal(ka, kb);
      StrLessTotal(kb, kc);
      if dir == Asc {
        if StrLess(kb, ka) && StrLess(kc, kb) {
          StrLessTransitive(kc, kb, ka);
          StrLessAsymmetric(ka, kc);
        }
      } else {
        if StrLess(ka, kb) && StrLess(kb, kc) {
          StrLessTransitive(ka, kb, kc);
          StrLessAsymmetric(kc, ka);
        }
      }
    }
  }

  /** `filteredAndSortedStudents`. */
  function Visible(students: seq<Student>, st: TableState): seq<Student>
  {
    Arrays.SortBy(Arrays.Filter(students, Shown(st)), Precedes(st.sortField, st.sortDirection))
  }

  /**
   * The list shows exactly the students matching the search and the status filter, each as
   * often as it is stored, ordered by the sort column in the chosen direction.
   */
  lemma VisibleSpec(students: seq<Student>, st: TableState)
    ensures multiset(Visible(students, st)) == multiset(Arrays.Filter(students, Shown(st)))
    ensures forall s :: s in Visible(students, st) ==> MatchesSearch(s, st.searchTerm) && MatchesStatus(s, st.statusFilter)
    ensures forall i :: 0 <= i < |students| && Shown(st)(students[i]) ==> students[i] in Visible(students, st)
    ensures Arrays.SortedBy(Visible(students, st), Precedes(st.sortField, st.sortDirection))
  {
    var kept := Arrays.Filter(students, Shown(st));
    var v := Visible(students, st);
    Arrays.SortByPermutation(kept, Precedes(st.sortField, st.sortDirection));
    PrecedesIsStrictWeakOrder(st.sortField, st.sortDirection);
    Arrays.SortBySorted(kept, Precedes(st.sortField, st.sortDirection));
    forall s | s in v ensures MatchesSearch(s, st.searchTerm) && MatchesStatus(s, st.statusFilter) {
      assert s in multiset(kept);
      var k :| 0 <= k < |kept| && kept[k] == s;
      assert Shown(st)(kept[k]);
    }
    forall i | 0 <= i < |students| && Shown(st)(students[i]) ensures students[i] in v {
      assert students[i] in kept;
      assert students[i] in multiset(v);
    }
  }

  /** An empty search term matches every student, so the explicit `""` test is only a shortcut. */
  lemma EmptySearchMatchesAll(s: Student)
    ensures MatchesSearch(s, "")
  {
  }

  /** Ascending by a column, adjacent rows have non-decreasing keys. */
  lemma AscendingKeys(students: seq<Student>, st: TableState, i: nat)
    requires st.sortDirection == Asc
    requires i + 1 < |Visible(students, st)|
    ensures var v := Visible(students, st);
      Key(v[i], st.sortField) == Key(v[i + 1], st.sortField) || StrLess(Key(v[i], st.sortField), Key(v[i + 1], st.sortField))
  {
    VisibleSpec(students, st);
    var v := Visible(students, st);
    assert !Precedes(st.sortField, st.sortDirection)(v[i + 1], v[i]);
    StrLessTotal(Key(v[i], st.sortField), Key(v[i + 1], st.sortField));
  }

  // ---------------------------------------------------------------------------
  // Pagination

  /** `paginatedStudents`: `slice((currentPage - 1) * 10, (currentPage - 1) * 10 + 10)`. */
  function Page<T>(list: seq<T>, currentPage: int): seq<T>
  {
    var start := (currentPage - 1) * ItemsPerPage;
    Arrays.Slice(list, start, start + ItemsPerPage)
  }

  /** `Math.ceil(n / 10)`. */
  function TotalPages(n: nat): (p: nat)
    ensures p * ItemsPerPage >= n
    ensures p == 0 || (p - 1) * ItemsPerPage < n
  {
    (n + ItemsPerPage - 1) / ItemsPerPage
  }

  /**
   * Page p (from 1 to the page count) shows the items p*10-10 up to p*10, at most ten of them
   * and at least one; every item is on the page its index divided by ten names.
   */
  lemma PageSpec<T>(list: seq<T>, p: int)
    requires 1 <= p <= TotalPages(|list|)
    ensures (p - 1) * ItemsPerPage < |list|
    ensures Page(list, p) == list[(p - 1) * ItemsPerPage..if p * ItemsPerPage <= |list| then p * ItemsPerPage else |list|]
    ensures 1 <= |Page(list, p)| <= ItemsPerPage
  {
  }

  lemma ItemOnItsPage<T>(list: seq<T>, i: nat)
    requires i < |list|
    ensures 1 <= i / ItemsPerPage + 1 <= TotalPages(|list|)
    ensures Page(list, i / ItemsPerPage + 1)[i % ItemsPerPage] == list[i]
  {
    PageSpec(list, i / ItemsPerPage + 1);
  }

  /**
   * The page number is not reset when the search narrows the list, so a page past the new count
   * shows nothing.
   */
  lemma StalePageEmpty<T>(list: seq<T>, p: int)
    requires p > TotalPages(|list|)
    ensures Page(list, p) == []
  {
  }

  // ---------------------------------------------------------------------------
  // Sorting clicks

  /** `handleSort(field)`: the same column flips the direction, another sorts by it ascending. */
  function HandleSort(st: TableState, field: SortField): (r: TableState)
    ensures r.sortField == field
    ensures r.searchTerm == st.searchTerm && r.statusFilter == st.statusFilter && r.currentPage == st.currentPage
    ensures st.sortField != field ==> r.sortDirection == Asc
    ensures st.sortField == field ==> r.sortDirection != st.sortDirection
  {
    if st.sortField == field then
      st.(sortDirection := if st.sortDirection == Asc then Desc else Asc)
    else
      st.(sortField := field, sortDirection := Asc)
  }

  /** Two clicks on the sorted column give back the original order. */
  lemma HandleSortTwice(st: TableState)
    ensures HandleSort(HandleSort(st, st.sortField), st.sortField) == st
  {
  }

  /** Descending order puts a before b exactly when ascending order puts b before a. */
  lemma DescendingIsReverse(a: Student, b: Student, field: SortField)
    ensures Precedes(field, Desc)(a, b) == Precedes(field, Asc)(b, a)
  {
  }
}
