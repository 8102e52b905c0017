/** The administrator's screens (components/AdminDashboard.tsx): the
    completion predicate and statistics, the filtered and paginated student
    list, row selection, the per-subject counts, and the guards on the
    administrator's input. */
module AdminDashboard {
  import opened Types
  import opened Text
  import opened Lists
  import opened Catalogue
  import Store

  // ---------------------------------------------------------------------
  // Completion and the statistics cards

  /** A registration is complete with exactly two review and two exam subjects. */
  predicate IsCompleted(s: Student)
  {
    |s.reviewSubjects| == 2 && |s.examSubjects| == 2
  }

  predicate IsIncomplete(s: Student)
  {
    |s.reviewSubjects| != 2 || |s.examSubjects| != 2
  }

  /** The "completed" card. */
  function CompletedCount(students: seq<Student>): (r: nat)
    ensures r <= |students|
  {
    |Filter(students, IsCompleted)|
  }

  /** The "not completed" card shows the total minus the completed count,
      which is exactly the number of incomplete registrations. */
  lemma IncompleteCardCountsIncomplete(students: seq<Student>)
    ensures |students| - CompletedCount(students) == |Filter(students, IsIncomplete)|
  {
    FilterComplementLengths(students, IsCompleted, IsIncomplete);
  }

  // ---------------------------------------------------------------------
  // Filtering the student list

  datatype StatusFilter = AllStatuses | CompletedOnly | IncompleteOnly

  predicate StatusMatch(status: StatusFilter, s: Student)
  {
    match status
    case AllStatuses => true
    case CompletedOnly => IsCompleted(s)
    case IncompleteOnly => IsIncomplete(s)
  }

  /** The filter of the student tab. `lower` stands for `toLowerCase`. */
  predicate Matches(lower: string -> string, term: string, cls: string, status: StatusFilter, s: Student)
  {
    && (Contains(lower(s.fullName), lower(term)) || Contains(lower(s.code), lower(term)))
    && (cls == "" || s.className == cls)
    && StatusMatch(status, s)
  }

  function Keep(lower: string -> string, term: string, cls: string, status: StatusFilter): Student -> bool
  {
    (s: Student) => Matches(lower, term, cls, status, s)
  }

  function FilteredStudents(students: seq<Student>, lower: string -> string, term: string, cls: string,
                            status: StatusFilter): seq<Student>
  {
    Filter(students, Keep(lower, term, cls, status))
  }

  /** A student is listed exactly when all three conditions hold. */
  lemma FilteredExactly(students: seq<Student>, lower: string -> string, term: string, cls: string,
                        status: StatusFilter)
    ensures forall s :: s in FilteredStudents(students, lower, term, cls, status) <==>
                        s in students && Matches(lower, term, cls, status, s)
  {
    var r := FilteredStudents(students, lower, term, cls, status);
    forall s | s in r ensures s in students && Matches(lower, term, cls, status, s) {
      var k :| 0 <= k < |r| && r[k] == s;
    }
    forall s | s in students && Matches(lower, term, cls, status, s) ensures s in r {
      var k :| 0 <= k < |students| && students[k] == s;
    }
  }

  /** For the same search and class, the completed and the incomplete lists
      together are as long as the unfiltered-by-status list. */
  lemma StatusFiltersPartition(students: seq<Student>, lower: string -> string, term: string, cls: string)
    ensures |FilteredStudents(students, lower, term, cls, CompletedOnly)|
          + |FilteredStudents(students, lower, term, cls, IncompleteOnly)|
         == |FilteredStudents(students, lower, term, cls, AllStatuses)|
  {
    var all := Keep(lower, term, cls, AllStatuses);
    FilterFilter(students, all, IsCompleted, Keep(lower, term, cls, CompletedOnly));
    FilterFilter(students, all, IsIncomplete, Keep(lower, term, cls, IncompleteOnly));
    FilterComplementLengths(Filter(students, all), IsCompleted, IsIncomplete);
  }

  // ---------------------------------------------------------------------
  // Pagination

  const StudentsPerPage: nat := 50

  /** `Math.ceil(n / 50)`. */
  function TotalPages(n: nat): nat
  {
    (n + StudentsPerPage - 1) / StudentsPerPage
  }

  lemma TotalPagesIsCeiling(n: nat)
    ensures TotalPages(n) * StudentsPerPage >= n
    ensures n > 0 ==> (TotalPages(n) - 1) * StudentsPerPage < n
    ensures n == 0 <==> TotalPages(n) == 0
  {
  }

  /** An index argument of `Array.prototype.slice`, resolved against the length. */
  function SliceIndex(i: int, len: nat): (r: nat)
    ensures r <= len
  {
    if i < 0 then (if len + i < 0 then 0 else len + i) else if i > len then len else i
  }

  /** `s.slice(start, end)`. */
  function JsSlice<T>(s: seq<T>, start: int, end: int): seq<T>
  {
    var a := SliceIndex(start, |s|);
    var b := SliceIndex(end, |s|);
    if a < b then s[a..b] else []
  }

  /** The rows shown on a page (pages count from 1). */
  function PageOf<T>(rows: seq<T>, page: int): seq<T>
  {
    JsSlice(rows, (page - 1) * StudentsPerPage, page * StudentsPerPage)
  }

  /** No page holds more than fifty rows, whatever the page number. */
  lemma PageAtMostFifty<T>(rows: seq<T>, page: int)
    ensures |PageOf(rows, page)| <= StudentsPerPage
  {
  }

  /** Row `i` is shown on page `i / 50 + 1`, at position `i % 50`, and that
      page exists. */
  lemma RowOnItsPage<T>(rows: seq<T>, i: nat)
    requires i < |rows|
    ensures 1 <= i / StudentsPerPage + 1 <= TotalPages(|rows|)
    ensures var page := PageOf(rows, i / StudentsPerPage + 1);
            i % StudentsPerPage < |page| && page[i % StudentsPerPage] == rows[i]
  {
    var p := i / StudentsPerPage + 1;
    var a := (p - 1) * StudentsPerPage;
    assert a == i - i % StudentsPerPage;
    assert SliceIndex(a, |rows|) == a;
  }

  /** The page bar renders only when there is more than one page. */
  predicate PaginationVisible(totalPages: nat)
  {
    totalPages > 1
  }

  lemma PaginationVisibleIffMoreThanOnePage(n: nat)
    ensures PaginationVisible(TotalPages(n)) <==> n > StudentsPerPage
  {
  }

  // ---------------------------------------------------------------------
  // Row selection

  /** One id's membership flipped. */
  function Flip(selected: set<int>, id: int): (r: set<int>)
    ensures id in r <==> id !in selected
    ensures forall x :: x != id ==> (x in r <==> x in selected)
  {
    if id in selected then selected - {id} else selected + {id}
  }

  lemma FlipTwice(selected: set<int>, id: int)
    ensures Flip(Flip(selected, id), id) == selected
  {
  }

  function PageIds(page: seq<Student>): (r: seq<int>)
    ensures |r| == |page| && forall i :: 0 <= i < |page| ==> r[i] == page[i].id
  {
    seq(|page|, i requires 0 <= i < |page| => page[i].id)
  }

  predicate AllSelected(selected: set<int>, ids: seq<int>)
  {
    forall i :: 0 <= i < |ids| ==> ids[i] in selected
  }

  /** "Select all on page": clears the page if it is wholly selected,
      otherwise selects all of it. */
  function SelectAllOnPageResult(selected: set<int>, ids: seq<int>): set<int>
  {
    if AllSelected(selected, ids) then selected - Store.AsSet(ids) else selected + Store.AsSet(ids)
  }

  /** Ids off the page keep their state; the page ends up wholly cleared
      (when it was wholly selected) or wholly selected. */
  lemma SelectAllOnPageEffects(selected: set<int>, ids: seq<int>)
    ensures forall x :: x !in ids ==> (x in SelectAllOnPageResult(selected, ids) <==> x in selected)
    ensures AllSelected(selected, ids) ==> forall i :: 0 <= i < |ids| ==> ids[i] !in SelectAllOnPageResult(selected, ids)
    ensures !AllSelected(selected, ids) ==> AllSelected(SelectAllOnPageResult(selected, ids), ids)
  {
  }

  /** `Array.from(set)`: the elements of a set, each once. */
  method ArrayFrom<K>(s: set<K>) returns (r: seq<K>)
    ensures forall x :: x in r <==> x in s
    ensures forall i, j :: 0 <= i < j < |r| ==> r[i] != r[j]
  {
    r := [];
    var rest := s;
    while rest != {}
      invariant rest <= s
      invariant forall x :: x in r <==> x in s && x !in rest
      invariant forall i, j :: 0 <= i < j < |r| ==> r[i] != r[j]
      decreases rest
    {
      var x :| x in rest;
      r := r + [x];
      rest := rest - {x};
    }
  }

  function Unselected(selected: set<int>): Student -> bool
  {
    (u: Student) => u.id !in selected
  }

  datatype DeleteSelectedNotice = NoneSelected | DeleteDeclined | SelectedDeleted

  /** The selection state of the student tab. */
  class StudentTable {
    var currentPage: int
    var selected: set<int>

    constructor ()
      ensures currentPage == 1 && selected == {}
    {
      currentPage := 1;
      selected := {};
    }

    /** The effect run when the search, the filters or the list change. */
    method ResetForNewFilter()
      modifies this
      ensures currentPage == 1 && selected == {}
    {
      currentPage := 1;
      selected := {};
    }

    method ChangePage(page: int)
      modifies this`currentPage
      ensures currentPage == page
    {
      currentPage := page;
    }

    /** handleSelectOne. */
    method SelectOne(id: int)
      modifies this`selected
      ensures selected == Flip(old(selected), id)
    {
      var next := selected;
      if id in next {
        next := next - {id};
      } else {
        next := next + {id};
      }
      selected := next;
    }

    /** handleSelectAllOnPage: the `every` test, then one deletion per id or
        a union with the page's ids. */
    method SelectAllOnPage(page: seq<Student>)
      modifies this`selected
      ensures selected == SelectAllOnPageResult(old(selected), PageIds(page))
    {
      var ids := PageIds(page);
      var current := selected;
      var all := true;
      var k := 0;
      while k < |ids| && all
        invariant 0 <= k <= |ids|
        invariant all <==> forall i :: 0 <= i < k ==> ids[i] in current
      {
        all := ids[k] in current;
        k := k + 1;
      }
      assert all <==> AllSelected(current, ids);
      if all {
        var next := current;
        var j := 0;
        while j < |ids|
          invariant 0 <= j <= |ids|
          invariant next == current - Store.AsSet(ids[..j])
        {
          Store.AsSetAppend(ids[..j], ids[j]);
          assert ids[..j + 1] == ids[..j] + [ids[j]];
          next := next - {ids[j]};
          j := j + 1;
        }
        assert ids[..j] == ids;
        selected := next;
      } else {
        selected := current + Store.AsSet(ids);
      }
    }

    /** handleDeleteSelected: with nothing selected, or when the
        confirmation is declined, nothing happens; otherwise exactly the
        selected students and their passwords are removed and the selection
        is cleared. */
    method HandleDeleteSelected(db: Store.MockDb, confirmed: bool) returns (notice: DeleteSelectedNotice)
      requires db.Valid()
      modifies this`selected, db`users, db`userPasswords
      ensures db.Valid()
      ensures notice == NoneSelected <==> old(selected) == {}
      ensures notice == SelectedDeleted <==> old(selected) != {} && confirmed
      ensures notice != SelectedDeleted ==>
                selected == old(selected) && db.users == old(db.users) && db.userPasswords == old(db.userPasswords)
      ensures notice == SelectedDeleted ==>
                && selected == {}
                && db.users == Filter(old(db.users), Unselected(old(selected)))
                && db.userPasswords == old(db.userPasswords) - old(selected)
    {
      if selected == {} {
        return NoneSelected;
      }
      if !confirmed {
        return DeleteDeclined;
      }
      var ids := ArrayFrom(selected);
      assert Store.AsSet(ids) == selected;
      FilterSame(db.users, Store.NotListed(ids), Unselected(selected));
      db.DeleteStudentsBatch(ids);
      selected := {};
      notice := SelectedDeleted;
    }
  }

  // ---------------------------------------------------------------------
  // Registrations per subject

  /** One bar of a chart: a subject name and how many choices name it. */
  datatype Tally = Tally(subject: string, count: nat)

  /** How many of `ids` the catalogue names `name`. */
  function CountIn(ids: seq<int>, catalogue: seq<Subject>, name: string): nat
    decreases |ids|
  {
    if ids == [] then 0
    else CountIn(ids[..|ids| - 1], catalogue, name) + (if NameOf(catalogue, ids[|ids| - 1]) == Some(name) then 1 else 0)
  }

  /** How many choices of the given kind, over all students, the catalogue
      names `name`. */
  function Occurrences(students: seq<Student>, kind: SubjectKind, catalogue: seq<Subject>, name: string): nat
    decreases |students|
  {
    if students == [] then 0
    else Occurrences(students[..|students| - 1], kind, catalogue, name)
         + CountIn(Chosen(students[|students| - 1], kind), catalogue, name)
  }

  /** A name is only ever counted when the catalogue has an entry with that name. */
  lemma {:induction false} CountedNamesAreInCatalogue(ids: seq<int>, catalogue: seq<Subject>, name: string)
    requires CountIn(ids, catalogue, name) > 0
    ensures exists k :: 0 <= k < |catalogue| && catalogue[k].name == name
    decreases |ids|
  {
    if NameOf(catalogue, ids[|ids| - 1]) != Some(name) {
      CountedNamesAreInCatalogue(ids[..|ids| - 1], catalogue, name);
    }
  }

  lemma {:induction false} OccurringNamesAreInCatalogue(students: seq<Student>, kind: SubjectKind,
                                                        catalogue: seq<Subject>, name: string)
    requires Occurrences(students, kind, catalogue, name) > 0
    ensures exists k :: 0 <= k < |catalogue| && catalogue[k].name == name
    decreases |students|
  {
    var last := Chosen(students[|students| - 1], kind);
    if CountIn(last, catalogue, name) > 0 {
      CountedNamesAreInCatalogue(last, catalogue, name);
    } else {
      OccurringNamesAreInCatalogue(students[..|students| - 1], kind, catalogue, name);
    }
  }

  /** CountIn over one more id. */
  lemma CountInStep(ids: seq<int>, catalogue: seq<Subject>, j: nat)
    requires j < |ids|
    ensures forall n :: CountIn(ids[..j + 1], catalogue, n)
                      == CountIn(ids[..j], catalogue, n) + (if NameOf(catalogue, ids[j]) == Some(n) then 1 else 0)
  {
    assert ids[..j + 1][..j] == ids[..j];
  }

  /** Occurrences over one more student. */
  lemma OccurrencesStep(students: seq<Student>, kind: SubjectKind, catalogue: seq<Subject>, k: nat)
    requires k < |students|
    ensures forall n :: Occurrences(students[..k + 1], kind, catalogue, n)
                      == Occurrences(students[..k], kind, catalogue, n) + CountIn(Chosen(students[k], kind), catalogue, n)
  {
    assert students[..k + 1][..k] == students[..k];
  }

  /** The counting state after the students `done` and then the ids `ids`
      of the next student: the non-empty names met so far, in order of first
      appearance, each with its count. */
  ghost predicate Tallied(labels: seq<string>, counts: map<string, nat>, done: seq<Student>, ids: seq<int>,
                          kind: SubjectKind, catalogue: seq<Subject>)
  {
    && (forall a, b :: 0 <= a < b < |labels| ==> labels[a] != labels[b])
    && (forall n :: n in counts <==> n in labels)
    && (forall n :: n in counts ==> n != "" && counts[n] > 0
                                    && counts[n] == Occurrences(done, kind, catalogue, n) + CountIn(ids, catalogue, n))
    && (forall n :: n != "" && Occurrences(done, kind, catalogue, n) + CountIn(ids, catalogue, n) > 0 ==> n in counts)
  }

  /** One id counted: `if (subjectName) acc[subjectName] = (acc[subjectName] || 0) + 1`,
      where a new key goes to the end of the key order. */
  function Tick(labels: seq<string>, counts: map<string, nat>, found: Option<string>): (seq<string>, map<string, nat>)
  {
    if found.None? || found.value == "" then (labels, counts)
    else if found.value in counts then (labels, counts[found.value := counts[found.value] + 1])
    else (labels + [found.value], counts[found.value := 1])
  }

  lemma TickCounts(labels: seq<string>, counts: map<string, nat>, done: seq<Student>, ids: seq<int>, j: nat,
                   kind: SubjectKind, catalogue: seq<Subject>)
    requires j < |ids| && Tallied(labels, counts, done, ids[..j], kind, catalogue)
    ensures var (labels', counts') := Tick(labels, counts, NameOf(catalogue, ids[j]));
            Tallied(labels', counts', done, ids[..j + 1], kind, catalogue)
  {
    CountInStep(ids, catalogue, j);
  }

  lemma NextStudent(labels: seq<string>, counts: map<string, nat>, students: seq<Student>, k: nat,
                    kind: SubjectKind, catalogue: seq<Subject>)
    requires k < |students|
    requires Tallied(labels, counts, students[..k], Chosen(students[k], kind), kind, catalogue)
    ensures Tallied(labels, counts, students[..k + 1], [], kind, catalogue)
  {
    OccurrencesStep(students, kind, catalogue, k);
  }

  /** The `reduce` over the students, with the inner `forEach` over each
      student's chosen ids, counting by catalogue name. */
  method CountRegistrations(students: seq<Student>, catalogue: seq<Subject>, kind: SubjectKind)
    returns (labels: seq<string>, counts: map<string, nat>)
    ensures forall a, b :: 0 <= a < b < |labels| ==> labels[a] != labels[b]
    ensures forall n :: n in counts <==> n in labels
    ensures forall n :: n in counts ==> n != "" && counts[n] > 0 && counts[n] == Occurrences(students, kind, catalogue, n)
    ensures forall n :: n != "" && Occurrences(students, kind, catalogue, n) > 0 ==> n in counts
  {
    labels, counts := [], map[];
    var k := 0;
    while k < |students|
      invariant 0 <= k <= |students|
      invariant Tallied(labels, counts, students[..k], [], kind, catalogue)
    {
      var ids := Chosen(students[k], kind);
      var j := 0;
      assert ids[..0] == [];
      while j < |ids|
        invariant 0 <= j <= |ids|
        invariant Tallied(labels, counts, students[..k], ids[..j], kind, catalogue)
      {
        TickCounts(labels, counts, students[..k], ids, j, kind, catalogue);
        var next := Tick(labels, counts, NameOf(catalogue, ids[j]));
        labels, counts := next.0, next.1;
        j := j + 1;
      }
      assert ids[..j] == ids;
      NextStudent(labels, counts, students, k, kind, catalogue);
      k := k + 1;
    }
    assert students[..k] == students;
  }

  predicate NonIncreasing(s: seq<Tally>)
  {
    forall i, j :: 0 <= i < j < |s| ==> s[i].count >= s[j].count
  }

  predicate DistinctLabels(s: seq<Tally>)
  {
    forall i, j :: 0 <= i < j < |s| ==> s[i].subject != s[j].subject
  }

  /** Insertion in front of the first entry whose count is not above the
      new one's. */
  function InsertByCount(x: Tally, s: seq<Tally>): seq<Tally>
  {
    if s == [] || s[0].count <= x.count then [x] + s
    else [s[0]] + InsertByCount(x, s[1..])
  }

  /** `Object.entries(stats).sort((a, b) => b.value - a.value)`. */
  function SortByCount(s: seq<Tally>): seq<Tally>
  {
    if s == [] then [] else InsertByCount(s[0], SortByCount(s[1..]))
  }

  lemma {:induction false} InsertKeepsEntries(x: Tally, s: seq<Tally>)
    ensures multiset(InsertByCount(x, s)) == multiset(s) + multiset{x}
  {
    if s != [] && s[0].count > x.count {
      InsertKeepsEntries(x, s[1..]);
      assert s == [s[0]] + s[1..];
    }
  }

  lemma {:induction false} SortKeepsEntries(s: seq<Tally>)
    ensures multiset(SortByCount(s)) == multiset(s)
  {
    if s != [] {
      SortKeepsEntries(s[1..]);
      InsertKeepsEntries(s[0], SortByCount(s[1..]));
      assert s == [s[0]] + s[1..];
    }
  }

  lemma InsertedFrom(x: Tally, s: seq<Tally>, y: Tally)
    requires y in InsertByCount(x, s)
    ensures y == x || y in s
  {
    InsertKeepsEntries(x, s);
    assert y in multiset(InsertByCount(x, s));
  }

  lemma {:induction false} InsertKeepsOrder(x: Tally, s: seq<Tally>)
    requires NonIncreasing(s)
    ensures NonIncreasing(InsertByCount(x, s))
  {
    if s != [] && s[0].count > x.count {
      InsertKeepsOrder(x, s[1..]);
      var rest := InsertByCount(x, s[1..]);
      forall y | y in rest ensures s[0].count >= y.count {
        InsertedFrom(x, s[1..], y);
      }
    }
  }

  /** The sorted entries run from the largest count down. */
  lemma {:induction false} SortOrders(s: seq<Tally>)
    ensures NonIncreasing(SortByCount(s))
  {
    if s != [] {
      SortOrders(s[1..]);
      InsertKeepsOrder(s[0], SortByCount(s[1..]));
    }
  }

  lemma {:induction false} InsertKeepsLabelsDistinct(x: Tally, s: seq<Tally>)
    requires DistinctLabels(s) && forall i :: 0 <= i < |s| ==> s[i].subject != x.subject
    ensures DistinctLabels(InsertByCount(x, s))
  {
    if s != [] && s[0].count > x.count {
      InsertKeepsLabelsDistinct(x, s[1..]);
      var rest := InsertByCount(x, s[1..]);
      forall y | y in rest ensures s[0].subject != y.subject {
        InsertedFrom(x, s[1..], y);
      }
    }
  }

  /** Sorting does not make two entries share a subject. */
  lemma {:induction false} SortKeepsLabelsDistinct(s: seq<Tally>)
    requires DistinctLabels(s)
    ensures DistinctLabels(SortByCount(s))
  {
    if s != [] {
      SortKeepsLabelsDistinct(s[1..]);
      var rest := SortByCount(s[1..]);
      forall i | 0 <= i < |rest| ensures rest[i].subject != s[0].subject {
        SortKeepsEntries(s[1..]);
        assert rest[i] in multiset(s[1..]);
      }
      InsertKeepsLabelsDistinct(s[0], rest);
    }
  }

  function Entries(labels: seq<string>, counts: map<string, nat>): (r: seq<Tally>)
    requires forall i :: 0 <= i < |labels| ==> labels[i] in counts
    ensures |r| == |labels| && forall i :: 0 <= i < |r| ==> r[i] == Tally(labels[i], counts[labels[i]])
  {
    seq(|labels|, i requires 0 <= i < |labels| => Tally(labels[i], counts[labels[i]]))
  }

  /** registrationsByReviewSubject / registrationsByExamSubject: one entry
      per non-empty subject name chosen at least once, with its count,
      ordered by count from the largest. */
  method RegistrationsBySubject(students: seq<Student>, catalogue: seq<Subject>, kind: SubjectKind)
    returns (r: seq<Tally>)
    ensures NonIncreasing(r)
    ensures DistinctLabels(r)
    ensures forall i :: 0 <= i < |r| ==> r[i].subject != "" && r[i].count > 0
                                         && r[i].count == Occurrences(students, kind, catalogue, r[i].subject)
    ensures forall n :: n != "" && Occurrences(students, kind, catalogue, n) > 0 ==>
                        exists i :: 0 <= i < |r| && r[i].subject == n
  {
    var labels, counts := CountRegistrations(students, catalogue, kind);
    var entries := Entries(labels, counts);
    r := SortByCount(entries);
    SortOrders(entries);
    SortKeepsLabelsDistinct(entries);
    SortKeepsEntries(entries);
    forall i | 0 <= i < |r|
      ensures r[i].subject != "" && r[i].count > 0 && r[i].count == Occurrences(students, kind, catalogue, r[i].subject)
    {
      assert r[i] in multiset(entries);
      var k :| 0 <= k < |entries| && entries[k] == r[i];
      assert labels[k] in counts;
    }
    forall n | n != "" && Occurrences(students, kind, catalogue, n) > 0
      ensures exists i :: 0 <= i < |r| && r[i].subject == n
    {
      var k :| 0 <= k < |labels| && labels[k] == n;
      assert entries[k] in multiset(r);
      var i :| 0 <= i < |r| && r[i] == entries[k];
    }
  }

  // ---------------------------------------------------------------------
  // Guards on the administrator's input

  /** The phrase the delete-all prompt demands, "XÓA TẤT CẢ". */
  const DeleteAllPhrase: string := "X\U{00D3}A T\U{1EA4}T C\U{1EA2}"

  datatype DeleteAllNotice = NothingToDelete | Deleted | WrongPhrase | Cancelled

  /** handleDeleteAll's decision: no prompt with an empty list; the prompt's
      answer (None for "cancel") must be exactly the phrase. */
  function DeleteAllDecision(count: nat, input: Option<string>): DeleteAllNotice
  {
    if count == 0 then NothingToDelete
    else if input == Some(DeleteAllPhrase) then Deleted
    else if input.Some? then WrongPhrase
    else Cancelled
  }

  lemma DeletesOnlyOnExactPhrase(count: nat, input: Option<string>)
    ensures DeleteAllDecision(count, input) == Deleted <==> count > 0 && input == Some(DeleteAllPhrase)
  {
  }

  /** handleDeleteAll against the store. */
  method HandleDeleteAll(db: Store.MockDb, count: nat, input: Option<string>) returns (notice: DeleteAllNotice)
    requires db.Valid()
    modifies db`users, db`userPasswords
    ensures db.Valid()
    ensures notice == DeleteAllDecision(count, input)
    ensures notice == Deleted ==> db.users == Filter(old(db.users), Store.IsAdmin)
                                  && db.userPasswords == map id | id in old(db.userPasswords) && id in Store.Ids(db.users)
                                                                :: old(db.userPasswords)[id]
    ensures notice != Deleted ==> db.users == old(db.users) && db.userPasswords == old(db.userPasswords)
  {
    notice := DeleteAllDecision(count, input);
    if notice == Deleted {
      db.DeleteAllStudents();
    }
  }

  const MinCustomPasswordLength: nat := 6

  /** The argument ResetPasswordModal passes to resetStudentPassword, or
      None when a custom password is too short and no call is made. */
  function ResetArgument(isCustom: bool, custom: string): Option<Option<string>>
  {
    if isCustom && |custom| < MinCustomPasswordLength then None
    else if isCustom then Some(Some(custom))
    else Some(None)
  }

  /** An accepted custom password is never empty, so the store takes it as
      given and does not force a change; the default reset always does. */
  lemma CustomResetIsTakenAsGiven(isCustom: bool, custom: string)
    ensures ResetArgument(isCustom, custom).None? <==> isCustom && |custom| < MinCustomPasswordLength
    ensures isCustom && ResetArgument(isCustom, custom).Some? ==>
              var arg := ResetArgument(isCustom, custom).value; arg.Some? && arg.value == custom && arg.value != ""
    ensures !isCustom ==> ResetArgument(isCustom, custom) == Some(None)
  {
  }

  datatype ResetNotice = TooShort | ResetDone | ResetFailed

  /** ResetPasswordModal.handleReset against the store: a custom password
      shorter than six characters is refused before any call; otherwise
      the student's password becomes the custom one or the student code. */
  method HandleReset(db: Store.MockDb, studentId: int, isCustom: bool, custom: string) returns (notice: ResetNotice)
    requires db.Valid()
    modifies db`users, db`userPasswords
    ensures db.Valid()
    ensures notice == TooShort <==> isCustom && |custom| < MinCustomPasswordLength
    ensures notice == ResetDone <==> notice != TooShort && studentId in Store.Ids(old(db.users))
    ensures notice != ResetDone ==> db.users == old(db.users) && db.userPasswords == old(db.userPasswords)
    ensures |db.users| == |old(db.users)|
    ensures notice == ResetDone ==>
              var i := Store.IndexOfId(old(db.users), studentId).value;
              && Store.Revealed(db.userPasswords, studentId) == Ok(if isCustom then custom else old(db.users)[i].code)
              && db.users[i].mustChangePassword == !isCustom
    ensures notice == ResetDone ==>
              var i := Store.IndexOfId(old(db.users), studentId).value;
              && db.users == old(db.users)[i := old(db.users)[i].(mustChangePassword := !isCustom)]
              && db.userPasswords == old(db.userPasswords)[studentId :=
                   Store.Hash(if isCustom then custom else old(db.users)[i].code)]
  {
    var arg := ResetArgument(isCustom, custom);
    if arg.None? {
      return TooShort;
    }
    ghost var i := Store.IndexOfId(db.users, studentId);
    var r := db.ResetStudentPassword(studentId, arg.value);
    notice := if r.Done? then ResetDone else ResetFailed;
    if r.Done? {
      Store.RevealAfterSet(old(db.userPasswords), studentId, if isCustom then custom else old(db.users)[i.value].code);
    }
  }

  /** SubjectManager.handleAddSubject: the trimmed name is appended under the
      clock's value as id; a blank name adds nothing. */
  function AddSubject(subjects: seq<Subject>, input: string, now: int): seq<Subject>
  {
    var name := Trim(input);
    if name == "" then subjects else subjects + [Subject(now, name)]
  }

  lemma AddSubjectEffects(subjects: seq<Subject>, input: string, now: int)
    ensures AllWhitespace(input) ==> AddSubject(subjects, input, now) == subjects
    ensures !AllWhitespace(input) ==>
              var r := AddSubject(subjects, input, now);
              && r[..|subjects|] == subjects && |r| == |subjects| + 1
              && r[|subjects|].id == now && r[|subjects|].name == Trim(input)
              && !IsWhitespace(r[|subjects|].name[0]) && !IsWhitespace(r[|subjects|].name[|r[|subjects|].name| - 1])
  {
    TrimEmptyIffAllWhitespace(input);
    TrimIsInnerPiece(input);
  }

  function OtherSubjectId(id: int): Subject -> bool
  {
    (s: Subject) => s.id != id
  }

  /** handleDeleteSubject. */
  function DeleteSubject(subjects: seq<Subject>, id: int): seq<Subject>
  {
    Filter(subjects, OtherSubjectId(id))
  }

  /** Deleting removes exactly the entries with that id. */
  lemma DeleteSubjectEffects(subjects: seq<Subject>, id: int)
    ensures forall s :: s in DeleteSubject(subjects, id) <==> s in subjects && s.id != id
  {
    var r := DeleteSubject(subjects, id);
    forall s | s in r ensures s in subjects && s.id != id {
      var k :| 0 <= k < |r| && r[k] == s;
    }
    forall s | s in subjects && s.id != id ensures s in r {
      var k :| 0 <= k < |subjects| && subjects[k] == s;
    }
  }

  /** The new-field draft of CustomFormManager. */
  datatype FieldDraft = FieldDraft(caption: string, kind: FieldType, required: bool)

  /** handleAddField: the trimmed caption is appended under the clock's text
      as id; a blank caption adds nothing. */
  function AddField(fields: seq<CustomField>, draft: FieldDraft, clockText: string): seq<CustomField>
  {
    if Trim(draft.caption) == "" then fields
    else fields + [CustomField(clockText, Trim(draft.caption), draft.kind, draft.required)]
  }

  lemma AddFieldEffects(fields: seq<CustomField>, draft: FieldDraft, clockText: string)
    ensures AllWhitespace(draft.caption) ==> AddField(fields, draft, clockText) == fields
    ensures !AllWhitespace(draft.caption) ==>
              AddField(fields, draft, clockText)
              == fields + [CustomField(clockText, Trim(draft.caption), draft.kind, draft.required)]
              && Trim(draft.caption) != ""
  {
    TrimEmptyIffAllWhitespace(draft.caption);
  }

  function OtherFieldId(id: string): CustomField -> bool
  {
    (f: CustomField) => f.id != id
  }

  /** handleDeleteField. */
  function DeleteField(fields: seq<CustomField>, id: string): seq<CustomField>
  {
    Filter(fields, OtherFieldId(id))
  }

  lemma DeleteFieldEffects(fields: seq<CustomField>, id: string)
    ensures forall f :: f in DeleteField(fields, id) <==> f in fields && f.id != id
  {
    var r := DeleteField(fields, id);
    forall f | f in r ensures f in fields && f.id != id {
      var k :| 0 <= k < |r| && r[k] == f;
    }
    forall f | f in fields && f.id != id ensures f in r {
      var k :| 0 <= k < |fields| && fields[k] == f;
    }
  }

  // ---------------------------------------------------------------------
  // Imported rows

  /** The cells of one spreadsheet row, as text; None for an absent cell. */
  datatype ImportRow = ImportRow(code: Option<string>, fullName: Option<string>, birthDate: Option<string>,
                                 className: Option<string>, citizenId: Option<string>)

  const DefaultBirthDate: string := "2006-01-01"

  predicate Truthy(cell: Option<string>)
  {
    cell.Some? && cell.value != ""
  }

  /** `String(cell || fallback)`. */
  function CellOr(cell: Option<string>, fallback: string): string
  {
    if Truthy(cell) then cell.value else fallback
  }

  /** `String(row.cccd || row.ma_hocsinh)`: `String(undefined)` is the text
      "undefined" when both cells are absent. */
  function SecretCell(row: ImportRow): string
  {
    if Truthy(row.citizenId) then row.citizenId.value
    else if row.code.Some? then row.code.value
    else "undefined"
  }

  /** The record handleFileImport makes of a row. */
  function RowDefaults(row: ImportRow): Store.NewStudent
  {
    Store.NewStudent(CellOr(row.code, ""), CellOr(row.fullName, ""), CellOr(row.birthDate, DefaultBirthDate),
                     CellOr(row.className, ""), SecretCell(row))
  }

  /** A row's initial password is its cccd when it has one, otherwise its
      student code; missing text cells become "", a missing birth date the
      default one. */
  lemma RowDefaultsEffects(row: ImportRow)
    ensures Truthy(row.citizenId) ==> Store.DefaultSecret(RowDefaults(row)) == row.citizenId.value
    ensures !Truthy(row.citizenId) && Truthy(row.code) ==> Store.DefaultSecret(RowDefaults(row)) == row.code.value
    ensures !Truthy(row.birthDate) ==> RowDefaults(row).birthDate == DefaultBirthDate
    ensures !Truthy(row.code) ==> RowDefaults(row).code == ""
  {
  }

  function AsNewStudents(rows: seq<ImportRow>): (r: seq<Store.NewStudent>)
    ensures |r| == |rows| && forall i :: 0 <= i < |rows| ==> r[i] == RowDefaults(rows[i])
  {
    seq(|rows|, i requires 0 <= i < |rows| => RowDefaults(rows[i]))
  }

  /** handleFileImport after the sheet is read: every row goes to the store. */
  method HandleFileImport(db: Store.MockDb, rows: seq<ImportRow>)
    requires db.Valid()
    modifies db`users, db`userPasswords, db`nextUserId
    ensures db.Valid()
    ensures db.users == old(db.users) + Store.ImportedRecords(AsNewStudents(rows), old(db.nextUserId))
    ensures db.userPasswords == old(db.userPasswords) + Store.BatchPasswords(AsNewStudents(rows), old(db.nextUserId))
  {
    db.AddStudentsBatch(AsNewStudents(rows));
  }

  /** StudentModal.handleSubmit: an existing record is updated with the
      form's fields, otherwise a new student is added. */
  method SubmitStudentForm(db: Store.MockDb, editing: Option<int>, form: Store.NewStudent) returns (ok: bool)
    requires db.Valid()
    modifies db`users, db`userPasswords, db`nextUserId
    ensures db.Valid()
    ensures editing.None? ==> ok && db.users == old(db.users) + [Store.Enrolled(form, old(db.nextUserId))]
                              && db.nextUserId == old(db.nextUserId) + 1
                              && db.userPasswords == old(db.userPasswords)[old(db.nextUserId) := Store.Hash(Store.DefaultSecret(form))]
    ensures editing.Some? ==> (ok <==> editing.value in Store.Ids(old(db.users)))
                              && db.userPasswords == old(db.userPasswords) && db.nextUserId == old(db.nextUserId)
    ensures editing.Some? && !ok ==> db.users == old(db.users)
    ensures editing.Some? && ok ==>
              var i := Store.IndexOfId(old(db.users), editing.value).value;
              db.users == old(db.users)[i := old(db.users)[i].(code := form.code, fullName := form.fullName,
                                                               birthDate := form.birthDate, className := form.className,
                                                               citizenId := form.citizenId)]
  {
    if editing.Some? {
      var r := db.UpdateStudent(editing.value, form);
      ok := r.Ok?;
    } else {
      var s := db.AddStudent(form);
      ok := true;
    }
  }
}
