/** Small sequence vocabulary shared by the course graph and the student heaps. */
module Seqs {

  /** No element occurs twice. */
  predicate NoDup<T(==)>(s: seq<T>) {
    forall i, j :: 0 <= i < j < |s| ==> s[i] != s[j]
  }

  function Min(a: int, b: int): int {
    if a <= b then a else b
  }

  /** Python's `s[::-1]`: the same elements, last one first. */
  function Reverse<T>(s: seq<T>): (r: seq<T>)
    ensures |r| == |s|
    ensures forall i :: 0 <= i < |s| ==> r[i] == s[|s| - 1 - i]
  {
    if s == [] then [] else Reverse(s[1..]) + [s[0]]
  }

  /** Reversing keeps the elements and their multiplicities. */
  lemma {:induction false} ReversePermutes<T>(s: seq<T>)
    ensures multiset(Reverse(s)) == multiset(s)
  {
    if s != [] {
      ReversePermutes(s[1..]);
      assert s == [s[0]] + s[1..];
    }
  }

  /** Reversing twice gives the sequence back. */
  lemma ReverseReverse<T>(s: seq<T>)
    ensures Reverse(Reverse(s)) == s
  {
  }

  /** What comes before position `k` comes after the mirrored position once reversed. */
  lemma ReverseMovesEarlierLater<T>(s: seq<T>, k: int, x: T)
    requires 0 <= k < |s| && x in s[..k]
    ensures x in Reverse(s)[|s| - k..]
  {
    var j :| 0 <= j < k && s[j] == x;
    var r := Reverse(s);
    assert r[|s| - 1 - j] == x;
    assert r[|s| - k..][k - 1 - j] == x;
  }
}
