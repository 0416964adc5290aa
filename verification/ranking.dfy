/**
 * What the two `StudentHeap` classes share: the `(-gpa, student)` entries that
 * `insert_by_gpa` pushes with `heapq.heappush`, and the `sorted` call that both
 * `get_top_students` variants make over a copy of them. Queries never observe
 * the heap's internal shape, because every query sorts the whole list. Only an
 * insert does: it compares the new entry with the entries on its sift-up path.
 */
module Ranking {
  import opened Wrappers
  import opened Seqs
  import opened Students

  /** A heap entry, the tuple `(-student.gpa, student)`. */
  datatype Entry = Entry(key: int, student: Student)

  /**
   * `sorted` compares tuples; on equal keys it falls through to comparing the
   * two Student objects, which define no order, and Python raises TypeError.
   */
  datatype HeapError = IncomparableStudents

  /** Every entry carries its own student's negated GPA, as `insert_by_gpa` builds it. */
  predicate WellKeyed(h: seq<Entry>) {
    forall i :: 0 <= i < |h| ==> h[i].key == -h[i].student.gpa
  }

  /** No two entries share a key, so `sorted` never has to compare two students. */
  predicate DistinctKeys(h: seq<Entry>) {
    forall i, j :: 0 <= i < j < |h| ==> h[i].key != h[j].key
  }

  /** The `heapq` invariant: no entry's key is below its parent's. */
  ghost predicate HeapOrdered(h: seq<Entry>) {
    forall i, j :: 0 <= i < j < |h| && i == (j - 1) / 2 ==> h[i].key <= h[j].key
  }

  /**
   * The state while the entry at `pos` rises: the heap invariant holds
   * everywhere except between `pos` and its parent, and that parent is no
   * larger than the children of `pos`.
   */
  ghost predicate HeapOrderedBut(h: seq<Entry>, pos: nat) {
    && (forall i, j :: 0 <= i < j < |h| && i == (j - 1) / 2 && j != pos ==> h[i].key <= h[j].key)
    && (0 < pos ==> forall j :: 0 < j < |h| && (j - 1) / 2 == pos ==> h[(pos - 1) / 2].key <= h[j].key)
  }

  /**
   * The list after a push, whether or not the push raised: the C `heappush`
   * appends first and swaps in place while sifting, so an error leaves every
   * entry in the list.
   */
  datatype Pushed = Pushed(heap: seq<Entry>, error: Option<HeapError>)

  /** Exchanges two positions. */
  function Swap(h: seq<Entry>, a: nat, b: nat): (r: seq<Entry>)
    requires a < |h| && b < |h|
    ensures |r| == |h| && r[a] == h[b] && r[b] == h[a]
    ensures forall i :: 0 <= i < |h| && i != a && i != b ==> r[i] == h[i]
    ensures multiset(r) == multiset(h)
  {
    h[a := h[b]][b := h[a]]
  }

  /**
   * `_siftdown(heap, 0, pos)`: while the entry at `pos` is below its parent
   * the two swap. The comparison `newitem < parent` on tuples compares keys
   * first; on equal keys it compares the two students, which raises.
   */
  function SiftUp(h: seq<Entry>, pos: nat): (r: Pushed)
    requires pos < |h|
    ensures multiset(r.heap) == multiset(h) && |r.heap| == |h|
    ensures WellKeyed(h) ==> WellKeyed(r.heap)
    ensures HeapOrderedBut(h, pos) ==> HeapOrdered(r.heap)
    ensures r.error.Some? ==> exists e :: e in multiset(h) - multiset{h[pos]} && e.key == h[pos].key
    decreases pos
  {
    if pos == 0 then Pushed(h, None)
    else
      var parent := (pos - 1) / 2;
      if h[pos].key < h[parent].key then
        var h' := Swap(h, parent, pos);
        assert HeapOrderedBut(h, pos) ==> HeapOrderedBut(h', parent) by {
          if HeapOrderedBut(h, pos) {
            SwapRestores(h, pos);
          }
        }
        SwapKeyed(h, parent, pos);
        assert multiset(h') - multiset{h'[parent]} == multiset(h) - multiset{h[pos]};
        SiftUp(h', parent)
      else if h[pos].key == h[parent].key then
        OtherPosition(h, parent, pos);
        Pushed(h, Some(IncomparableStudents))
      else
        Pushed(h, None)
  }

  /** One swap of sift-up moves the exception to the invariant one level up. */
  lemma SwapRestores(h: seq<Entry>, pos: nat)
    requires 0 < pos < |h| && HeapOrderedBut(h, pos)
    requires h[pos].key < h[(pos - 1) / 2].key
    ensures HeapOrderedBut(Swap(h, (pos - 1) / 2, pos), (pos - 1) / 2)
  {
    var p := (pos - 1) / 2;
    var h' := Swap(h, p, pos);
    forall i, j | 0 <= i < j < |h| && i == (j - 1) / 2 && j != p ensures h'[i].key <= h'[j].key {
      if j == pos {
      } else if i == pos {
        assert h[p].key <= h[j].key;
      } else if i == p {
        assert h[p].key <= h[j].key;
      } else {
        assert h'[i] == h[i] && h'[j] == h[j];
      }
    }
    if 0 < p {
      var g := (p - 1) / 2;
      assert h[g].key <= h[p].key;
      forall j | 0 < j < |h| && (j - 1) / 2 == p ensures h'[g].key <= h'[j].key {
        if j != pos {
          assert h[p].key <= h[j].key;
        }
      }
    }
  }

  /**
   * `insert_by_gpa(student)`: `heapq.heappush(heap, (-gpa, student))`. The list
   * always ends up with exactly one more entry; the push raises only when the
   * new GPA ties an entry already there, never on distinct GPAs; keying and the
   * heap invariant are kept.
   */
  function Push(h: seq<Entry>, s: Student): (r: Pushed)
    ensures multiset(r.heap) == multiset(h) + multiset{Entry(-s.gpa, s)}
    ensures |r.heap| == |h| + 1
    ensures WellKeyed(h) ==> WellKeyed(r.heap)
    ensures HeapOrdered(h) ==> HeapOrdered(r.heap)
    ensures r.error.Some? ==> exists e :: e in h && e.key == -s.gpa
  {
    var e := Entry(-s.gpa, s);
    var appended := h + [e];
    AppendKeeps(h, e);
    var r := SiftUp(appended, |h|);
    assert r.error.Some? ==> exists x :: x in h && x.key == e.key by {
      if r.error.Some? {
        TieWithOld(h, e);
      }
    }
    r
  }

  /** A tie between the appended entry and another entry of the list is a tie with an old entry. */
  lemma TieWithOld(h: seq<Entry>, e: Entry)
    requires exists x :: x in multiset(h + [e]) - multiset{(h + [e])[|h|]} && x.key == (h + [e])[|h|].key
    ensures exists x :: x in h && x.key == e.key
  {
    AppendKeeps(h, e);
    var x :| x in multiset(h + [e]) - multiset{(h + [e])[|h|]} && x.key == (h + [e])[|h|].key;
    assert x in multiset(h);
  }

  /** Appending keeps keying, and keeps the heap invariant everywhere but at the new slot. */
  lemma AppendKeeps(h: seq<Entry>, e: Entry)
    ensures (h + [e])[|h|] == e
    ensures multiset(h + [e]) - multiset{e} == multiset(h)
    ensures multiset(h + [e]) == multiset(h) + multiset{e}
    ensures WellKeyed(h) && e.key == -e.student.gpa ==> WellKeyed(h + [e])
    ensures HeapOrdered(h) ==> HeapOrderedBut(h + [e], |h|)
  {
    var a := h + [e];
    if HeapOrdered(h) {
      forall i, j | 0 <= i < j < |a| && i == (j - 1) / 2 && j != |h| ensures a[i].key <= a[j].key {
        assert a[i] == h[i] && a[j] == h[j];
      }
    }
  }

  /** A swap keeps every entry keyed by its own student. */
  lemma SwapKeyed(h: seq<Entry>, a: nat, b: nat)
    requires a < |h| && b < |h|
    ensures WellKeyed(h) ==> WellKeyed(Swap(h, a, b))
  {
    var h' := Swap(h, a, b);
    if WellKeyed(h) {
      forall i | 0 <= i < |h'| ensures h'[i].key == -h'[i].student.gpa {
        if i != a && i != b {
          assert h'[i] == h[i];
        }
      }
    }
  }

  /** Taking one position's entry out of the bag leaves every other position's entry in it. */
  lemma OtherPosition(h: seq<Entry>, i: nat, j: nat)
    requires i < |h| && j < |h| && i != j
    ensures h[i] in multiset(h) - multiset{h[j]}
  {
    assert h == h[..j] + [h[j]] + h[j + 1..];
    assert multiset(h) - multiset{h[j]} == multiset(h[..j] + h[j + 1..]);
    if i < j {
      assert h[i] == (h[..j] + h[j + 1..])[i];
    } else {
      assert h[i] == (h[..j] + h[j + 1..])[i - 1];
    }
  }

  ghost predicate Ascending(es: seq<Entry>) {
    forall i, j :: 0 <= i < j < |es| ==> es[i].key <= es[j].key
  }

  ghost predicate Descending(es: seq<Entry>) {
    forall i, j :: 0 <= i < j < |es| ==> es[i].key >= es[j].key
  }

  lemma ConsAscending(x: Entry, es: seq<Entry>)
    requires Ascending(es)
    requires es == [] || x.key <= es[0].key
    ensures Ascending([x] + es)
  {
  }

  lemma ConsDescending(x: Entry, es: seq<Entry>)
    requires Descending(es)
    requires es == [] || x.key >= es[0].key
    ensures Descending([x] + es)
  {
  }

  function InsertAscending(e: Entry, es: seq<Entry>): (r: seq<Entry>)
    requires Ascending(es)
    ensures multiset(r) == multiset(es) + multiset{e}
    ensures Ascending(r)
    ensures r[0] == e || r[0] == es[0]
  {
    if es == [] || e.key <= es[0].key then [e] + es
    else
      var rest := InsertAscending(e, es[1..]);
      assert es == [es[0]] + es[1..];
      assert multiset(es) == multiset{es[0]} + multiset(es[1..]);
      assert multiset([es[0]] + rest) == multiset{es[0]} + multiset(rest);
      assert rest[0] == e || rest[0] == es[1];
      assert es[0].key <= rest[0].key;
      ConsAscending(es[0], rest);
      [es[0]] + rest
  }

  /** `sorted(heap)` on entries with distinct keys: ascending key, i.e. descending GPA. */
  function SortAscending(h: seq<Entry>): (r: seq<Entry>)
    ensures multiset(r) == multiset(h)
    ensures Ascending(r)
  {
    if h == [] then []
    else
      assert h == [h[0]] + h[1..];
      InsertAscending(h[0], SortAscending(h[1..]))
  }

  function InsertDescending(e: Entry, es: seq<Entry>): (r: seq<Entry>)
    requires Descending(es)
    ensures multiset(r) == multiset(es) + multiset{e}
    ensures Descending(r)
    ensures r[0] == e || r[0] == es[0]
  {
    if es == [] || e.key >= es[0].key then [e] + es
    else
      var rest := InsertDescending(e, es[1..]);
      assert es == [es[0]] + es[1..];
      assert multiset(es) == multiset{es[0]} + multiset(es[1..]);
      assert multiset([es[0]] + rest) == multiset{es[0]} + multiset(rest);
      assert rest[0] == e || rest[0] == es[1];
      assert es[0].key >= rest[0].key;
      ConsDescending(es[0], rest);
      [es[0]] + rest
  }

  /** `sorted(heap, reverse=True)` on entries with distinct keys: descending key, i.e. ascending GPA. */
  function SortDescending(h: seq<Entry>): (r: seq<Entry>)
    ensures multiset(r) == multiset(h)
    ensures Descending(r)
  {
    if h == [] then []
    else
      assert h == [h[0]] + h[1..];
      InsertDescending(h[0], SortDescending(h[1..]))
  }

  /** `[student for _, student in entries[:n]]`. */
  function FirstStudents(es: seq<Entry>, n: nat): (r: seq<Student>)
    ensures |r| == Min(n, |es|)
    ensures forall i :: 0 <= i < |r| ==> r[i] == es[i].student
  {
    seq(Min(n, |es|), i requires 0 <= i < Min(n, |es|) => es[i].student)
  }

  /** An element occurring twice in a bag occurs at two positions. */
  lemma TwoPositions(a: seq<Entry>, x: Entry) returns (p: nat, q: nat)
    requires multiset(a)[x] >= 2
    ensures p < q < |a| && a[p] == x && a[q] == x
  {
    p :| p < |a| && a[p] == x;
    assert a == a[..p] + [x] + a[p + 1..];
    var rest := a[..p] + a[p + 1..];
    assert multiset(rest)[x] >= 1;
    var k :| 0 <= k < |rest| && rest[k] == x;
    if k < p {
      q := p;
      p := k;
    } else {
      q := k + 1;
    }
  }

  /** Having distinct keys is a property of the bag of entries, not of their order. */
  lemma DistinctKeysPermutation(a: seq<Entry>, b: seq<Entry>)
    requires multiset(a) == multiset(b)
    requires DistinctKeys(a)
    ensures DistinctKeys(b)
  {
    forall i, j | 0 <= i < j < |b| ensures b[i].key != b[j].key {
      var x, y := b[i], b[j];
      assert x in multiset(a) && y in multiset(a);
      if x == y {
        assert b == b[..j] + b[j..];
        assert x in b[..j] && x in b[j..];
        assert multiset(b)[x] == multiset(b[..j])[x] + multiset(b[j..])[x];
        var p, q := TwoPositions(a, x);
      } else {
        var p :| 0 <= p < |a| && a[p] == x;
        var q :| 0 <= q < |a| && a[q] == y;
        assert p < q || q < p;
      }
    }
  }

  /** Two ascending arrangements of one bag start with the same entry when the first has distinct keys. */
  lemma SameHead(a: seq<Entry>, b: seq<Entry>)
    requires a != [] && multiset(a) == multiset(b)
    requires Ascending(a) && Ascending(b) && DistinctKeys(a)
    ensures b != [] && a[0] == b[0]
  {
    assert a[0] in multiset(b);
    var j :| 0 <= j < |b| && b[j] == a[0];
    assert b[0] in multiset(a);
    var i :| 0 <= i < |a| && a[i] == b[0];
  }

  /** Removing the same first entry from two arrangements of one bag leaves arrangements of one bag. */
  lemma SameTail(a: seq<Entry>, b: seq<Entry>)
    requires a != [] && b != [] && a[0] == b[0]
    requires multiset(a) == multiset(b)
    ensures multiset(a[1..]) == multiset(b[1..])
  {
    assert a == [a[0]] + a[1..] && b == [b[0]] + b[1..];
    assert multiset(a[1..]) == multiset(a) - multiset{a[0]};
    assert multiset(b[1..]) == multiset(b) - multiset{b[0]};
  }

  /** With distinct keys there is only one ascending arrangement of a bag of entries. */
  lemma {:induction false} AscendingUnique(a: seq<Entry>, b: seq<Entry>)
    requires multiset(a) == multiset(b)
    requires Ascending(a) && Ascending(b) && DistinctKeys(a)
    ensures a == b
  {
    if a == [] {
      assert |b| == |multiset(b)| == 0;
    } else {
      SameHead(a, b);
      SameTail(a, b);
      AscendingUnique(a[1..], b[1..]);
      assert a == [a[0]] + a[1..] && b == [b[0]] + b[1..];
    }
  }

  /** The ascending sort depends only on the bag of entries. */
  lemma SortAscendingPermutation(h1: seq<Entry>, h2: seq<Entry>)
    requires multiset(h1) == multiset(h2)
    requires DistinctKeys(h1)
    ensures SortAscending(h1) == SortAscending(h2)
  {
    DistinctKeysPermutation(h1, SortAscending(h1));
    AscendingUnique(SortAscending(h1), SortAscending(h2));
  }

  /** Any ascending, distinct-keyed arrangement of the heap is what `sorted` returns. */
  lemma SortAscendingIs(h: seq<Entry>, sorted: seq<Entry>)
    requires multiset(sorted) == multiset(h)
    requires Ascending(sorted) && DistinctKeys(sorted)
    ensures SortAscending(h) == sorted
  {
    AscendingUnique(sorted, SortAscending(h));
  }

  /** With distinct keys, `sorted(h, reverse=True)` is the reverse of `sorted(h)`. */
  lemma SortDescendingIsReverse(h: seq<Entry>)
    requires DistinctKeys(h)
    ensures SortDescending(h) == Reverse(SortAscending(h))
  {
    var a := SortAscending(h);
    var b := Reverse(SortDescending(h));
    ReversePermutes(SortDescending(h));
    DistinctKeysPermutation(h, a);
    AscendingUnique(a, b);
    ReverseReverse(SortDescending(h));
  }

  /** Facts about the entries a `get_top_students` query sorts, whichever way. */
  lemma SortedFacts(h: seq<Entry>, sorted: seq<Entry>)
    requires WellKeyed(h) && DistinctKeys(h)
    requires multiset(sorted) == multiset(h)
    ensures WellKeyed(sorted) && DistinctKeys(sorted)
    ensures forall e :: e in h <==> e in sorted
    ensures |sorted| == |h|
  {
    assert |multiset(sorted)| == |multiset(h)|;
    DistinctKeysPermutation(h, sorted);
    forall i | 0 <= i < |sorted| ensures sorted[i].key == -sorted[i].student.gpa {
      assert sorted[i] in multiset(h);
    }
    forall e ensures e in h <==> e in sorted {
      assert e in h <==> e in multiset(h);
    }
  }

  /** An entry whose student is not among the first `n` students sits at or after position `n`. */
  lemma LeftOutIndex(sorted: seq<Entry>, n: nat, e: Entry) returns (j: nat)
    requires e in sorted && e.student !in FirstStudents(sorted, n)
    ensures Min(n, |sorted|) <= j < |sorted| && sorted[j] == e
  {
    j :| j < |sorted| && sorted[j] == e;
  }

  /** The students of the first `n` entries of an ascending arrangement of the heap. */
  lemma PrefixOfAscending(h: seq<Entry>, sorted: seq<Entry>, n: nat)
    requires WellKeyed(h) && DistinctKeys(h)
    requires multiset(sorted) == multiset(h) && Ascending(sorted)
    ensures var top := FirstStudents(sorted, n);
      && |top| == Min(n, |h|)
      && (forall i, j :: 0 <= i < j < |top| ==> top[i].gpa > top[j].gpa)
      && (forall i :: 0 <= i < |top| ==> Entry(-top[i].gpa, top[i]) in h)
      && (forall e, i :: e in h && e.student !in top && 0 <= i < |top| ==> e.student.gpa < top[i].gpa)
  {
    SortedFacts(h, sorted);
    var top := FirstStudents(sorted, n);
    forall i | 0 <= i < |top| ensures Entry(-top[i].gpa, top[i]) in h {
      assert sorted[i] == Entry(-top[i].gpa, top[i]);
    }
    forall e, i | e in h && e.student !in top && 0 <= i < |top| ensures e.student.gpa < top[i].gpa {
      var j := LeftOutIndex(sorted, n, e);
      assert sorted[i].key < sorted[j].key;
    }
  }

  /** The students of the first `n` entries of a descending arrangement of the heap. */
  lemma PrefixOfDescending(h: seq<Entry>, sorted: seq<Entry>, n: nat)
    requires WellKeyed(h) && DistinctKeys(h)
    requires multiset(sorted) == multiset(h) && Descending(sorted)
    ensures var top := FirstStudents(sorted, n);
      && |top| == Min(n, |h|)
      && (forall i, j :: 0 <= i < j < |top| ==> top[i].gpa < top[j].gpa)
      && (forall i :: 0 <= i < |top| ==> Entry(-top[i].gpa, top[i]) in h)
      && (forall e, i :: e in h && e.student !in top && 0 <= i < |top| ==> e.student.gpa > top[i].gpa)
  {
    SortedFacts(h, sorted);
    var top := FirstStudents(sorted, n);
    forall i | 0 <= i < |top| ensures Entry(-top[i].gpa, top[i]) in h {
      assert sorted[i] == Entry(-top[i].gpa, top[i]);
    }
    forall e, i | e in h && e.student !in top && 0 <= i < |top| ensures e.student.gpa > top[i].gpa {
      var j := LeftOutIndex(sorted, n, e);
      assert sorted[i].key > sorted[j].key;
    }
  }

  /** One position of `ReversedFirstStudents`. */
  lemma ReversedStudentAt(es: seq<Entry>, i: nat)
    requires i < |es|
    ensures |FirstStudents(Reverse(es), |es|)| == |es| == |Reverse(FirstStudents(es, |es|))|
    ensures FirstStudents(Reverse(es), |es|)[i] == Reverse(FirstStudents(es, |es|))[i]
  {
    var rev := Reverse(es);
    var all := FirstStudents(es, |es|);
    var k := |es| - 1 - i;
    assert |rev| == |es| && |all| == |es|;
    assert rev[i] == es[k];
    assert FirstStudents(rev, |es|)[i] == rev[i].student;
    assert all[k] == es[k].student;
    assert Reverse(all)[i] == all[k];
  }

  /** Taking every student of a reversed arrangement reverses the students. */
  lemma ReversedFirstStudents(es: seq<Entry>)
    ensures FirstStudents(Reverse(es), |es|) == Reverse(FirstStudents(es, |es|))
  {
    var mine, theirs := FirstStudents(Reverse(es), |es|), Reverse(FirstStudents(es, |es|));
    assert |mine| == |es| && |theirs| == |es|;
    forall i | 0 <= i < |es| ensures mine[i] == theirs[i] {
      ReversedStudentAt(es, i);
    }
  }
}
