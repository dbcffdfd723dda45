/**
  Comparator-driven sorting as `[...xs].sort(cmp)` does it, and the string
  comparison the screens sort by. `localeCompare` is taken to be plain
  lexicographic order on characters.
 */
module Ordering {

  /** `a.localeCompare(b)`: negative, zero or positive as `a` sorts before, with or after `b`. */
  function CompareStrings(a: string, b: string): (r: int)
    ensures -1 <= r <= 1
    decreases |a|
  {
    if a == [] && b == [] then 0
    else if a == [] then -1
    else if b == [] then 1
    else if a[0] < b[0] then -1
    else if b[0] < a[0] then 1
    else CompareStrings(a[1..], b[1..])
  }

  /** Two strings compare equal exactly when they are the same string. */
  lemma {:induction false} CompareStringsZero(a: string, b: string)
    ensures CompareStrings(a, b) == 0 <==> a == b
    decreases |a|
  {
    if a != [] && b != [] && a[0] == b[0] {
      CompareStringsZero(a[1..], b[1..]);
      assert a == [a[0]] + a[1..];
      assert b == [b[0]] + b[1..];
    }
  }

  /** Swapping the arguments flips the sign. */
  lemma {:induction false} CompareStringsFlip(a: string, b: string)
    ensures CompareStrings(b, a) == -CompareStrings(a, b)
    decreases |a|
  {
    if a != [] && b != [] && a[0] == b[0] {
      CompareStringsFlip(a[1..], b[1..]);
    }
  }

  lemma {:induction false} CompareStringsTransitive(a: string, b: string, c: string)
    requires CompareStrings(a, b) <= 0 && CompareStrings(b, c) <= 0
    ensures CompareStrings(a, c) <= 0
    decreases |a|
  {
    if a != [] && b != [] && c != [] && a[0] == b[0] == c[0] {
      CompareStringsTransitive(a[1..], b[1..], c[1..]);
    }
  }

  /**
    What `Array.prototype.sort` needs of a comparator for its result to be
    ordered: any two elements are ordered one way or the other, and
    "sorts no later than" is transitive.
   */
  ghost predicate IsComparator<T(!new)>(cmp: (T, T) -> int) {
    && (forall a, b :: cmp(a, b) <= 0 || cmp(b, a) <= 0)
    && (forall a, b, c :: cmp(a, b) <= 0 && cmp(b, c) <= 0 ==> cmp(a, c) <= 0)
  }

  predicate SortedBy<T>(s: seq<T>, cmp: (T, T) -> int) {
    forall i, j :: 0 <= i < j < |s| ==> cmp(s[i], s[j]) <= 0
  }

  /** Inserts `x` before the first element it sorts no later than, so after the ones it sorts after. */
  function Insert<T>(x: T, s: seq<T>, cmp: (T, T) -> int): (r: seq<T>)
    ensures multiset(r) == multiset(s) + multiset{x}
    decreases |s|
  {
    if s == [] then [x]
    else if cmp(x, s[0]) <= 0 then [x] + s
    else
      assert s == [s[0]] + s[1..];
      [s[0]] + Insert(x, s[1..], cmp)
  }

  /**
    `[...s].sort(cmp)`, as an insertion sort. Its result is a permutation of
    `s` whatever `cmp` does; `SortBySorted` gives the order.
   */
  function SortBy<T>(s: seq<T>, cmp: (T, T) -> int): (r: seq<T>)
    ensures multiset(r) == multiset(s)
    decreases |s|
  {
    if s == [] then []
    else
      assert s == [s[0]] + s[1..];
      Insert(s[0], SortBy(s[1..], cmp), cmp)
  }

  /** `x` goes first when it sorts no later than the first element. */
  lemma InsertFrontSorted<T(!new)>(x: T, s: seq<T>, cmp: (T, T) -> int)
    requires IsComparator(cmp)
    requires SortedBy(s, cmp) && s != [] && cmp(x, s[0]) <= 0
    ensures SortedBy([x] + s, cmp)
  {
    var r := [x] + s;
    forall i, j | 0 <= i < j < |r| ensures cmp(r[i], r[j]) <= 0 {
      if i == 0 && j > 1 {
        assert cmp(s[0], s[j - 1]) <= 0;
      }
    }
  }

  /** An element that sorts no later than every element of `s` and than `x` stays first. */
  lemma InsertConsSorted<T>(y: T, x: T, ins: seq<T>, s: seq<T>, cmp: (T, T) -> int)
    requires SortedBy(ins, cmp)
    requires multiset(ins) == multiset(s) + multiset{x}
    requires cmp(y, x) <= 0
    requires forall k :: 0 <= k < |s| ==> cmp(y, s[k]) <= 0
    ensures SortedBy([y] + ins, cmp)
  {
    var r := [y] + ins;
    forall i, j | 0 <= i < j < |r| ensures cmp(r[i], r[j]) <= 0 {
      if i == 0 {
        var e := ins[j - 1];
        assert e in multiset(ins);
        if e != x {
          assert e in multiset(s);
          var k :| 0 <= k < |s| && s[k] == e;
        }
      } else {
        assert r[i] == ins[i - 1] && r[j] == ins[j - 1];
      }
    }
  }

  lemma {:induction false} InsertSorted<T(!new)>(x: T, s: seq<T>, cmp: (T, T) -> int)
    requires IsComparator(cmp)
    requires SortedBy(s, cmp)
    ensures SortedBy(Insert(x, s, cmp), cmp)
    decreases |s|
  {
    if s == [] {
    } else if cmp(x, s[0]) <= 0 {
      InsertFrontSorted(x, s, cmp);
    } else {
      var tail := s[1..];
      assert SortedBy(tail, cmp) by {
        forall i, j | 0 <= i < j < |tail| ensures cmp(tail[i], tail[j]) <= 0 {
          assert tail[i] == s[i + 1] && tail[j] == s[j + 1];
        }
      }
      InsertSorted(x, tail, cmp);
      assert cmp(s[0], x) <= 0;
      forall k | 0 <= k < |tail| ensures cmp(s[0], tail[k]) <= 0 {
        assert tail[k] == s[k + 1];
      }
      InsertConsSorted(s[0], x, Insert(x, tail, cmp), tail, cmp);
    }
  }

  /** With a proper comparator, the sorted sequence is in order. */
  lemma {:induction false} SortBySorted<T(!new)>(s: seq<T>, cmp: (T, T) -> int)
    requires IsComparator(cmp)
    ensures SortedBy(SortBy(s, cmp), cmp)
    decreases |s|
  {
    if s != [] {
      SortBySorted(s[1..], cmp);
      InsertSorted(s[0], SortBy(s[1..], cmp), cmp);
    }
  }

  /** `a.localeCompare(b)` as a comparator is a proper one. */
  lemma CompareStringsIsComparator()
    ensures IsComparator(CompareStrings)
  {
    forall a, b ensures CompareStrings(a, b) <= 0 || CompareStrings(b, a) <= 0 {
      CompareStringsFlip(a, b);
    }
    forall a, b, c | CompareStrings(a, b) <= 0 && CompareStrings(b, c) <= 0
      ensures CompareStrings(a, c) <= 0
    {
      CompareStringsTransitive(a, b, c);
    }
  }
}
