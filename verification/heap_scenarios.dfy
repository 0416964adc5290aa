/**
 * The six students of `test_student_heap.py`, inserted in the test's order,
 * and what each `StudentHeap` variant answers for the test's two queries.
 */
module HeapScenarios {
  import opened Wrappers
  import opened Seqs
  import opened Students
  import opened Ranking
  import PackageHeap
  import RootHeap

  const Allan := Student("P12345", "Allan", "Computer Science", 2, 385)
  const John := Student("P12346", "John", "CPA", 3, 392)
  const Mike := Student("P12347", "Mike", "Mechanical Engineering", 4, 367)
  const Eve := Student("P12348", "Eve", "Acturial Science", 2, 399)
  const Bob := Student("P12349", "Bob", "Civil Engineering", 3, 375)
  const Alice := Student("P12340", "Alice", "Computer Science", 1, 380)

  /** The students in the order the test's `setUp` inserts them. */
  function TestStudents(): seq<Student> {
    [Allan, John, Mike, Eve, Bob, Alice]
  }

  /** The entries `insert_by_gpa` makes for a list of students, in order. */
  function Entries(ss: seq<Student>): (es: seq<Entry>)
    ensures |es| == |ss|
  {
    if ss == [] then [] else [Entry(-ss[0].gpa, ss[0])] + Entries(ss[1..])
  }

  /** The entries of a prefix that starts with the first student. */
  lemma EntriesPrefix(ss: seq<Student>, j: nat)
    requires 1 <= j <= |ss|
    ensures Entries(ss[..j]) == [Entry(-ss[0].gpa, ss[0])] + Entries(ss[1..][..j - 1])
  {
    assert ss[..j][0] == ss[0] && ss[..j][1..] == ss[1..][..j - 1];
  }

  /** Some entry of the bag has the student's key, so pushing the student can raise. */
  ghost predicate Tied(m: multiset<Entry>, s: Student) {
    exists e :: e in m && e.key == -s.gpa
  }

  /**
   * The insert loop over `ss`, started on `h`, stopped at student `k`: the
   * list holds the entries of students `0..k` and none of the later ones, and
   * student `k`'s GPA ties an entry that was already there.
   */
  ghost predicate StoppedAt(h: seq<Entry>, ss: seq<Student>, heap: seq<Entry>, k: nat) {
    && k < |ss|
    && multiset(heap) == multiset(h) + multiset(Entries(ss[..k + 1]))
    && Tied(multiset(h) + multiset(Entries(ss[..k])), ss[k])
  }

  /**
   * `for s in students: heap.insert_by_gpa(s)`: the pushes in order. If none
   * raises, the list gains exactly one entry per student; otherwise the loop
   * stops at the first push that raises. Keying and the heap invariant survive
   * either way.
   */
  function PushAll(h: seq<Entry>, ss: seq<Student>): (r: Pushed)
    ensures r.error.None? ==> multiset(r.heap) == multiset(h) + multiset(Entries(ss))
    ensures r.error.Some? ==> exists k :: StoppedAt(h, ss, r.heap, k)
    ensures WellKeyed(h) ==> WellKeyed(r.heap)
    ensures HeapOrdered(h) ==> HeapOrdered(r.heap)
    decreases |ss|
  {
    if ss == [] then
      assert Entries(ss) == [];
      Pushed(h, None)
    else
      var p := Push(h, ss[0]);
      if p.error.Some? then
        StopsFirst(h, ss, p.heap);
        p
      else
        var r := PushAll(p.heap, ss[1..]);
        if r.error.Some? then
          StopsLater(h, ss, p.heap, r.heap);
          r
        else
          AllArrive(h, ss, p.heap, r.heap);
          r
  }

  /** Every push went through: the first student's entry and the rest's make up the whole list. */
  lemma AllArrive(h: seq<Entry>, ss: seq<Student>, h': seq<Entry>, heap: seq<Entry>)
    requires ss != []
    requires multiset(h') == multiset(h) + multiset{Entry(-ss[0].gpa, ss[0])}
    requires multiset(heap) == multiset(h') + multiset(Entries(ss[1..]))
    ensures multiset(heap) == multiset(h) + multiset(Entries(ss))
  {
    assert Entries(ss) == [Entry(-ss[0].gpa, ss[0])] + Entries(ss[1..]);
    assert multiset(Entries(ss)) == multiset{Entry(-ss[0].gpa, ss[0])} + multiset(Entries(ss[1..]));
  }

  /** The first push raised: the loop stopped at student 0. */
  lemma StopsFirst(h: seq<Entry>, ss: seq<Student>, heap: seq<Entry>)
    requires ss != []
    requires multiset(heap) == multiset(h) + multiset{Entry(-ss[0].gpa, ss[0])}
    requires exists e :: e in h && e.key == -ss[0].gpa
    ensures StoppedAt(h, ss, heap, 0)
  {
    assert ss[..1] == [ss[0]] && ss[..0] == [];
    assert Entries(ss[..1]) == [Entry(-ss[0].gpa, ss[0])] && Entries(ss[..0]) == [];
    var e :| e in h && e.key == -ss[0].gpa;
    assert e in multiset(h) + multiset(Entries(ss[..0]));
  }

  /** After the first push, the bag of the first `j` students is the pushed list plus the next `j - 1`. */
  lemma BagShift(h: seq<Entry>, h': seq<Entry>, ss: seq<Student>, j: nat)
    requires 1 <= j <= |ss|
    requires multiset(h') == multiset(h) + multiset{Entry(-ss[0].gpa, ss[0])}
    ensures multiset(h') + multiset(Entries(ss[1..][..j - 1])) == multiset(h) + multiset(Entries(ss[..j]))
  {
    var later := Entries(ss[1..][..j - 1]);
    EntriesPrefix(ss, j);
    assert multiset([Entry(-ss[0].gpa, ss[0])] + later) == multiset{Entry(-ss[0].gpa, ss[0])} + multiset(later);
  }

  /** A later push raised: the stop moves one student along. */
  lemma StopsLater(h: seq<Entry>, ss: seq<Student>, h': seq<Entry>, heap: seq<Entry>)
    requires ss != []
    requires multiset(h') == multiset(h) + multiset{Entry(-ss[0].gpa, ss[0])}
    requires exists k :: StoppedAt(h', ss[1..], heap, k)
    ensures exists k :: StoppedAt(h, ss, heap, k)
  {
    var k: nat :| StoppedAt(h', ss[1..], heap, k);
    var before', before := multiset(h') + multiset(Entries(ss[1..][..k])), multiset(h) + multiset(Entries(ss[..k + 1]));
    BagShift(h, h', ss, k + 1);
    assert before' == before;
    assert Tied(before', ss[1..][k]);
    assert ss[1..][k] == ss[k + 1];
    assert Tied(before, ss[k + 1]);
    BagShift(h, h', ss, k + 2);
    assert multiset(heap) == multiset(h) + multiset(Entries(ss[..k + 2]));
    assert StoppedAt(h, ss, heap, k + 1);
  }

  /**
   * When the loop reports an error, it is the error of the first push that
   * raised: every push before student `k` went through, and the result is
   * exactly push `k` applied to the list they built.
   */
  lemma {:induction false} PushAllStops(h: seq<Entry>, ss: seq<Student>)
    ensures PushAll(h, ss).error.Some? ==>
      exists k :: 0 <= k < |ss| && PushAll(h, ss[..k]).error.None?
        && PushAll(h, ss) == Push(PushAll(h, ss[..k]).heap, ss[k])
    decreases |ss|
  {
    if ss != [] {
      var p := Push(h, ss[0]);
      if p.error.Some? {
        PrefixNone(h, ss);
      } else if PushAll(p.heap, ss[1..]).error.Some? {
        PushAllStops(p.heap, ss[1..]);
        var k :| 0 <= k < |ss[1..]| && PushAll(p.heap, ss[1..][..k]).error.None?
          && PushAll(p.heap, ss[1..]) == Push(PushAll(p.heap, ss[1..][..k]).heap, ss[1..][k]);
        PrefixShift(h, ss, k);
        assert PushAll(h, ss[..k + 1]).error.None?
          && PushAll(h, ss) == Push(PushAll(h, ss[..k + 1]).heap, ss[k + 1]);
      }
    }
  }

  /** The empty prefix pushes nothing. */
  lemma PrefixNone(h: seq<Entry>, ss: seq<Student>)
    ensures PushAll(h, ss[..0]) == Pushed(h, None)
  {
    assert ss[..0] == [];
  }

  /** After a first push that succeeds, a prefix of `k + 1` students is the next `k` students pushed onto it. */
  lemma PrefixShift(h: seq<Entry>, ss: seq<Student>, k: nat)
    requires k + 1 < |ss| && Push(h, ss[0]).error.None?
    ensures PushAll(h, ss) == PushAll(Push(h, ss[0]).heap, ss[1..])
    ensures PushAll(h, ss[..k + 1]) == PushAll(Push(h, ss[0]).heap, ss[1..][..k])
    ensures ss[1..][k] == ss[k + 1]
  {
    var pre := ss[..k + 1];
    assert pre[0] == ss[0] && pre[1..] == ss[1..][..k];
  }

  /** The list `heappush` builds from the six test students, entry by entry. */
  function TestHeap(): (h: seq<Entry>)
    ensures WellKeyed(h) && HeapOrdered(h) && DistinctKeys(h) && |h| == 6
  {
    [Entry(-399, Eve), Entry(-392, John), Entry(-380, Alice),
     Entry(-385, Allan), Entry(-375, Bob), Entry(-367, Mike)]
  }

  /** The list after each push of the test's `setUp`, named by the student just pushed. */
  function AfterAllan(): seq<Entry> { [Entry(-385, Allan)] }
  function AfterJohn(): seq<Entry> { [Entry(-392, John), Entry(-385, Allan)] }
  function AfterMike(): seq<Entry> { AfterJohn() + [Entry(-367, Mike)] }
  function AfterEve(): seq<Entry> { [Entry(-399, Eve), Entry(-392, John), Entry(-367, Mike), Entry(-385, Allan)] }
  function AfterBob(): seq<Entry> { AfterEve() + [Entry(-375, Bob)] }

  lemma PushFirstTwo()
    ensures Push([], Allan) == Pushed(AfterAllan(), None)
    ensures Push(AfterAllan(), John) == Pushed(AfterJohn(), None)
  {
    assert Swap(AfterAllan() + [Entry(-392, John)], 0, 1) == AfterJohn();
  }

  lemma PushMike()
    ensures Push(AfterJohn(), Mike) == Pushed(AfterMike(), None)
  {
  }

  /** Eve rises two levels, to the root. */
  lemma PushEve()
    ensures Push(AfterMike(), Eve) == Pushed(AfterEve(), None)
  {
    var mid := [Entry(-392, John), Entry(-399, Eve), Entry(-367, Mike), Entry(-385, Allan)];
    assert Swap(AfterMike() + [Entry(-399, Eve)], 1, 3) == mid;
    assert Swap(mid, 0, 1) == AfterEve();
  }

  lemma PushBob()
    ensures Push(AfterEve(), Bob) == Pushed(AfterBob(), None)
  {
  }

  /** Alice rises one level, above Mike. */
  lemma PushAlice()
    ensures Push(AfterBob(), Alice) == Pushed(TestHeap(), None)
  {
    assert Swap(AfterBob() + [Entry(-380, Alice)], 2, 5) == TestHeap();
  }

  /** A push that raises nothing hands its list on to the remaining pushes. */
  lemma PushAllStep(h: seq<Entry>, s: Student, rest: seq<Student>, h': seq<Entry>)
    requires Push(h, s) == Pushed(h', None)
    ensures PushAll(h, [s] + rest) == PushAll(h', rest)
  {
    assert ([s] + rest)[0] == s && ([s] + rest)[1..] == rest;
  }

  /** Every push of the test's `setUp` succeeds, and the list ends up as `TestHeap()`. */
  lemma SetUpPushes()
    ensures PushAll([], TestStudents()) == Pushed(TestHeap(), None)
  {
    PushFirstTwo();
    PushMike();
    PushEve();
    PushBob();
    PushAlice();
    PushAllStep(AfterBob(), Alice, [], TestHeap());
    PushAllStep(AfterEve(), Bob, [Alice], AfterBob());
    PushAllStep(AfterMike(), Eve, [Bob, Alice], AfterEve());
    PushAllStep(AfterJohn(), Mike, [Eve, Bob, Alice], AfterMike());
    PushAllStep(AfterAllan(), John, [Mike, Eve, Bob, Alice], AfterJohn());
    PushAllStep([], Allan, [John, Mike, Eve, Bob, Alice], AfterAllan());
  }

  /** A seventh student whose GPA ties John's. */
  const Zoe := Student("P12350", "Zoe", "CPA", 1, 392)

  /** Two valid heaps holding Eve, John and Allan, in different shapes. */
  function JohnBelowEve(): seq<Entry> {
    [Entry(-399, Eve), Entry(-392, John), Entry(-385, Allan)]
  }

  function AllanBelowEve(): seq<Entry> {
    [Entry(-399, Eve), Entry(-385, Allan), Entry(-392, John)]
  }

  lemma ShapesHoldSameEntries()
    ensures HeapOrdered(JohnBelowEve()) && HeapOrdered(AllanBelowEve())
    ensures multiset(JohnBelowEve()) == multiset(AllanBelowEve())
  {
  }

  /** Zoe's sift-up path meets John: the tie raises. */
  lemma ZoeMeetsJohn()
    ensures Push(JohnBelowEve(), Zoe).error == Some(IncomparableStudents)
  {
  }

  /** Zoe's sift-up path meets Allan and then Eve, never John. */
  lemma ZoePassesAllan()
    ensures Push(AllanBelowEve(), Zoe).error == None
  {
    var mid := [Entry(-399, Eve), Entry(-392, Zoe), Entry(-392, John), Entry(-385, Allan)];
    assert Swap(AllanBelowEve() + [Entry(-392, Zoe)], 1, 3) == mid;
  }

  /**
   * Whether an insert raises depends on the heap's shape, not only on its
   * entries: two valid heaps holding the same entries react differently to a
   * student whose GPA ties one of them.
   */
  lemma InsertSeesShape()
    ensures HeapOrdered(JohnBelowEve()) && HeapOrdered(AllanBelowEve())
    ensures multiset(JohnBelowEve()) == multiset(AllanBelowEve())
    ensures Push(JohnBelowEve(), Zoe).error.Some? && Push(AllanBelowEve(), Zoe).error.None?
  {
    ShapesHoldSameEntries();
    ZoeMeetsJohn();
    ZoePassesAllan();
  }

  /** The test heap's entries by ascending key, i.e. by descending GPA. */
  function ByKey(): seq<Entry> {
    [Entry(-399, Eve), Entry(-392, John), Entry(-385, Allan),
     Entry(-380, Alice), Entry(-375, Bob), Entry(-367, Mike)]
  }

  lemma ByKeyOrdered()
    ensures Ascending(ByKey()) && DistinctKeys(ByKey())
  {
  }

  lemma ByKeyPermutes()
    ensures multiset(ByKey()) == multiset(TestHeap())
  {
  }

  lemma TestHeapSorted()
    ensures SortAscending(TestHeap()) == ByKey()
  {
    ByKeyOrdered();
    ByKeyPermutes();
    SortAscendingIs(TestHeap(), ByKey());
  }

  lemma FirstOfByKey()
    ensures FirstStudents(ByKey(), 3) == [Eve, John, Allan]
    ensures |FirstStudents(ByKey(), 5)| == 5 && FirstStudents(ByKey(), 5)[0] == Eve
  {
  }

  lemma FirstOfReversedByKey()
    ensures FirstStudents(Reverse(ByKey()), 3) == [Mike, Bob, Alice]
    ensures |FirstStudents(Reverse(ByKey()), 5)| == 5 && FirstStudents(Reverse(ByKey()), 5)[0] == Mike
  {
  }

  /** The `datastructures` variant meets both test expectations. */
  lemma PackageHeapPassesTests()
    ensures PackageHeap.TopStudents(TestHeap(), 3) == Success([Eve, John, Allan])
    ensures PackageHeap.TopStudents(TestHeap(), PackageHeap.DefaultCount).Success?
    ensures |PackageHeap.TopStudents(TestHeap(), PackageHeap.DefaultCount).value| == 5
    ensures PackageHeap.TopStudents(TestHeap(), PackageHeap.DefaultCount).value[0] == Eve
  {
    TestHeapSorted();
    FirstOfByKey();
    PackageHeap.TopStudentsSorts(TestHeap(), 3);
    PackageHeap.TopStudentsSorts(TestHeap(), 5);
  }

  /**
   * The top-level variant, which the tests import, answers Mike, Bob, Alice for
   * `n = 3` and puts Mike first by default, so both test assertions fail.
   */
  lemma RootHeapFailsTests()
    ensures RootHeap.TopStudents(TestHeap(), 3) == Success([Mike, Bob, Alice])
    ensures RootHeap.TopStudents(TestHeap(), 3) != Success([Eve, John, Allan])
    ensures RootHeap.TopStudents(TestHeap(), RootHeap.DefaultCount).Success?
    ensures |RootHeap.TopStudents(TestHeap(), RootHeap.DefaultCount).value| == 5
    ensures RootHeap.TopStudents(TestHeap(), RootHeap.DefaultCount).value[0] == Mike
    ensures RootHeap.TopStudents(TestHeap(), RootHeap.DefaultCount).value[0].name != "Eve"
  {
    TestHeapSorted();
    SortDescendingIsReverse(TestHeap());
    FirstOfReversedByKey();
    RootHeap.TopStudentsSorts(TestHeap(), 3);
    RootHeap.TopStudentsSorts(TestHeap(), 5);
  }
}
