/**
 * `StudentHeap` of the top-level `student_heap.py`, the module the tests and
 * the GUI import. It differs from the `datastructures` one only in sorting the
 * `(-gpa, student)` entries with `reverse=True`, which puts the LOWEST GPA
 * first.
 */
module RootHeap {
  import opened Wrappers
  import opened Seqs
  import opened Students
  import opened Ranking
  import PackageHeap

  /** The default of the `n` parameter. */
  const DefaultCount: nat := 5

  /**
   * `get_top_students(n)` for `n >= 0`, as written: fails exactly when two
   * entries tie on GPA; otherwise returns `min(n, count)` inserted students in
   * strictly ASCENDING GPA, and every inserted student left out has a higher
   * GPA than every student returned.
   */
  function TopStudents(h: seq<Entry>, n: nat): (r: Result<seq<Student>, HeapError>)
    requires WellKeyed(h)
    ensures r.Success? <==> DistinctKeys(h)
    ensures r.Success? ==> |r.value| == Min(n, |h|)
    ensures r.Success? ==> forall i, j :: 0 <= i < j < |r.value| ==> r.value[i].gpa < r.value[j].gpa
    ensures r.Success? ==> forall i :: 0 <= i < |r.value| ==> Entry(-r.value[i].gpa, r.value[i]) in h
    ensures r.Success? ==> forall e, i :: e in h && e.student !in r.value && 0 <= i < |r.value| ==>
      e.student.gpa > r.value[i].gpa
  {
    if !DistinctKeys(h) then Failure(IncomparableStudents)
    else
      var sorted := SortDescending(h);
      PrefixOfDescending(h, sorted, n);
      Success(FirstStudents(sorted, n))
  }

  /** A query on tie-free entries answers the first `n` students of the sorted copy. */
  lemma TopStudentsSorts(h: seq<Entry>, n: nat)
    requires WellKeyed(h) && DistinctKeys(h)
    ensures TopStudents(h, n) == Success(FirstStudents(SortDescending(h), n))
  {
  }

  /** The heap's internal order is unobservable here too. */
  lemma ShapeIrrelevant(h1: seq<Entry>, h2: seq<Entry>, n: nat)
    requires WellKeyed(h1) && WellKeyed(h2)
    requires multiset(h1) == multiset(h2)
    ensures TopStudents(h1, n) == TopStudents(h2, n)
  {
    if DistinctKeys(h1) {
      DistinctKeysPermutation(h1, h2);
      SortAscendingPermutation(h1, h2);
      SortDescendingIsReverse(h1);
      SortDescendingIsReverse(h2);
    } else if DistinctKeys(h2) {
      DistinctKeysPermutation(h2, h1);
    }
  }

  /**
   * Asked for every student, this variant returns exactly the reverse of the
   * `datastructures` variant's answer.
   */
  lemma FullListReversed(h: seq<Entry>)
    requires WellKeyed(h) && DistinctKeys(h)
    ensures TopStudents(h, |h|).Success? && PackageHeap.TopStudents(h, |h|).Success?
    ensures TopStudents(h, |h|).value == Reverse(PackageHeap.TopStudents(h, |h|).value)
  {
    var up := SortAscending(h);
    SortDescendingIsReverse(h);
    SortedFacts(h, up);
    ReversedFirstStudents(up);
    assert TopStudents(h, |h|) == Success(FirstStudents(SortDescending(h), |h|));
    assert PackageHeap.TopStudents(h, |h|) == Success(FirstStudents(up, |h|));
  }
}
