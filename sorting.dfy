/**
 * Ordering helpers shared by the curve builders and the layer engine:
 * a multi-key comparator is passed as a function `leq`, and a sort by it
 * returns a permutation of its input that is ordered by `leq`.  Nothing is
 * promised about the relative order of rows that `leq` ranks as equal.
 */
module Sorting {

  /** `leq` is total and transitive (hence also reflexive). */
  ghost predicate TotalPreorder<T(!new)>(leq: (T, T) -> bool)
  {
    && (forall a, b :: leq(a, b) || leq(b, a))
    && (forall a, b, c :: leq(a, b) && leq(b, c) ==> leq(a, c))
  }

  predicate Sorted<T>(s: seq<T>, leq: (T, T) -> bool)
  {
    forall i, j :: 0 <= i < j < |s| ==> leq(s[i], s[j])
  }

  /** No value occurs twice. */
  predicate Distinct<T(==)>(s: seq<T>)
  {
    forall i, j :: 0 <= i < j < |s| ==> s[i] != s[j]
  }

  /** Inserts `x` into the sorted `s` in front of the first element it precedes. */
  function Insert<T(!new)>(x: T, s: seq<T>, leq: (T, T) -> bool): (r: seq<T>)
    requires TotalPreorder(leq)
    requires Sorted(s, leq)
    ensures Sorted(r, leq)
    ensures multiset(r) == multiset(s) + multiset{x}
    decreases |s|
  {
    if s == [] then [x]
    else if leq(x, s[0]) then [x] + s
    else
      var rest := Insert(x, s[1..], leq);
      InsertAfterHead(x, s, rest, leq);
      [s[0]] + rest
  }

  /** When `x` goes after the head, the head stays in front of everything inserted behind it. */
  lemma InsertAfterHead<T(!new)>(x: T, s: seq<T>, rest: seq<T>, leq: (T, T) -> bool)
    requires TotalPreorder(leq) && Sorted(s, leq) && s != [] && !leq(x, s[0])
    requires Sorted(rest, leq) && multiset(rest) == multiset(s[1..]) + multiset{x}
    ensures Sorted([s[0]] + rest, leq)
    ensures multiset([s[0]] + rest) == multiset(s) + multiset{x}
  {
    assert s == [s[0]] + s[1..];
    forall k | 0 <= k < |rest| ensures leq(s[0], rest[k]) {
      assert rest[k] in multiset(rest);
      if rest[k] != x {
        assert rest[k] in multiset(s[1..]);
        var j :| 0 <= j < |s[1..]| && s[1..][j] == rest[k];
        assert s[j + 1] == rest[k];
      }
    }
  }

  function Sort<T(!new)>(s: seq<T>, leq: (T, T) -> bool): (r: seq<T>)
    requires TotalPreorder(leq)
    ensures Sorted(r, leq)
    ensures multiset(r) == multiset(s)
  {
    if s == [] then []
    else
      assert s == [s[0]] + s[1..];
      Insert(s[0], Sort(s[1..], leq), leq)
  }

  /**
   * Keeps the first occurrence of every value, in order (what
   * `drop_duplicates` does to the rows of a table).
   */
  function Dedup<T(==,!new)>(s: seq<T>): (r: seq<T>)
    ensures forall x :: x in r <==> x in s
    ensures Distinct(r)
    ensures |r| <= |s|
  {
    if s == [] then []
    else
      var p := s[..|s| - 1];
      var d := Dedup(p);
      assert s == p + [s[|s| - 1]];
      if s[|s| - 1] in p then d else d + [s[|s| - 1]]
  }

  /** Dropping duplicates keeps the survivors in their original order. */
  lemma {:induction false} DedupSorted<T(!new)>(s: seq<T>, leq: (T, T) -> bool)
    requires Sorted(s, leq)
    ensures Sorted(Dedup(s), leq)
  {
    if s != [] {
      var p := s[..|s| - 1];
      assert Sorted(p, leq);
      DedupSorted(p, leq);
      var d := Dedup(p);
      var x := s[|s| - 1];
      if x !in p {
        forall i | 0 <= i < |d|
          ensures leq(d[i], x)
        {
          assert d[i] in p;
          var k :| 0 <= k < |p| && p[k] == d[i];
          assert s[k] == d[i];
        }
        assert Dedup(s) == d + [x];
      }
    }
  }
}
