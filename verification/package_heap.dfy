/**
 * `StudentHeap` of `datastructures/student_heap.py`: `get_top_students(n)`
 * sorts a copy of the `(-gpa, student)` entries ascending and keeps the first
 * `n`, so the highest GPA comes first.
 */
module PackageHeap {
  import opened Wrappers
  import opened Seqs
  import opened Students
  import opened Ranking

  /** The default of the `n` parameter. */
  const DefaultCount: nat := 5

  /**
   * `get_top_students(n)` for `n >= 0`: fails exactly when two entries tie on
   * GPA; otherwise returns `min(n, count)` inserted students in strictly
   * descending GPA, and every inserted student left out has a lower GPA than
   * every student returned. The stored entries are an input only, so the
   * query cannot change them.
   */
  function TopStudents(h: seq<Entry>, n: nat): (r: Result<seq<Student>, HeapError>)
    requires WellKeyed(h)
    ensures r.Success? <==> DistinctKeys(h)
    ensures r.Success? ==> |r.value| == Min(n, |h|)
    ensures r.Success? ==> forall i, j :: 0 <= i < j < |r.value| ==> r.value[i].gpa > r.value[j].gpa
    ensures r.Success? ==> forall i :: 0 <= i < |r.value| ==> Entry(-r.value[i].gpa, r.value[i]) in h
    ensures r.Success? ==> forall e, i :: e in h && e.student !in r.value && 0 <= i < |r.value| ==>
      e.student.gpa < r.value[i].gpa
  {
    if !DistinctKeys(h) then Failure(IncomparableStudents)
    else
      var sorted := SortAscending(h);
      PrefixOfAscending(h, sorted, n);
      Success(FirstStudents(sorted, n))
  }

  /** A query on tie-free entries answers the first `n` students of the sorted copy. */
  lemma TopStudentsSorts(h: seq<Entry>, n: nat)
    requires WellKeyed(h) && DistinctKeys(h)
    ensures TopStudents(h, n) == Success(FirstStudents(SortAscending(h), n))
  {
  }

  /** The heap's internal order is unobservable: the answer depends only on the bag of entries. */
  lemma ShapeIrrelevant(h1: seq<Entry>, h2: seq<Entry>, n: nat)
    requires WellKeyed(h1) && WellKeyed(h2)
    requires multiset(h1) == multiset(h2)
    ensures TopStudents(h1, n) == TopStudents(h2, n)
  {
    if DistinctKeys(h1) {
      DistinctKeysPermutation(h1, h2);
      SortAscendingPermutation(h1, h2);
    } else if DistinctKeys(h2) {
      DistinctKeysPermutation(h2, h1);
    }
  }
}
