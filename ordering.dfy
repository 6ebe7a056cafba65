/** Byte-lexicographic order (Go's `bytes.Compare`) and sorting by it
    (`slices.SortStableFunc` with that comparison). */
module Ordering {
  import opened Bytes

  /** `bytes.Compare(a, b) <= 0`. */
  predicate LexLe(a: bytes, b: bytes)
    decreases |a|
  {
    |a| == 0 || (|b| > 0 && (a[0] < b[0] || (a[0] == b[0] && LexLe(a[1..], b[1..]))))
  }

  lemma {:induction false} LexLeReflexive(a: bytes)
    ensures LexLe(a, a)
    decreases |a|
  {
    if |a| > 0 { LexLeReflexive(a[1..]); }
  }

  lemma {:induction false} LexLeTotal(a: bytes, b: bytes)
    ensures LexLe(a, b) || LexLe(b, a)
    decreases |a|
  {
    if |a| > 0 && |b| > 0 && a[0] == b[0] {
      LexLeTotal(a[1..], b[1..]);
    }
  }

  lemma {:induction false} LexLeAntisymmetric(a: bytes, b: bytes)
    requires LexLe(a, b) && LexLe(b, a)
    ensures a == b
    decreases |a|
  {
    if |a| > 0 {
      LexLeAntisymmetric(a[1..], b[1..]);
      assert a == [a[0]] + a[1..] && b == [b[0]] + b[1..];
    }
  }

  lemma {:induction false} LexLeTransitive(a: bytes, b: bytes, c: bytes)
    requires LexLe(a, b) && LexLe(b, c)
    ensures LexLe(a, c)
    decreases |a|
  {
    if |a| > 0 && a[0] == b[0] && b[0] == c[0] {
      LexLeTransitive(a[1..], b[1..], c[1..]);
    }
  }

  predicate Sorted(s: seq<bytes>) {
    forall i, j :: 0 <= i < j < |s| ==> LexLe(s[i], s[j])
  }

  /** Insert `x` before the first element that is not below it. */
  function Insert(x: bytes, s: seq<bytes>): (r: seq<bytes>)
    requires Sorted(s)
    ensures Sorted(r) && multiset(r) == multiset(s) + multiset{x}
    decreases |s|
  {
    if s == [] then [x]
    else if LexLe(x, s[0]) then
      assert forall k :: 0 <= k < |s| ==> LexLe(x, s[k]) by {
        forall k | 0 <= k < |s| ensures LexLe(x, s[k]) {
          if k > 0 { LexLeTransitive(x, s[0], s[k]); }
        }
      }
      [x] + s
    else
      LexLeTotal(x, s[0]);
      var t := Insert(x, s[1..]);
      assert s == [s[0]] + s[1..];
      assert forall k :: 0 <= k < |t| ==> LexLe(s[0], t[k]) by {
        forall k | 0 <= k < |t| ensures LexLe(s[0], t[k]) {
          assert t[k] in multiset(t);
          assert t[k] in multiset(s[1..]) || t[k] == x;
          if t[k] != x {
            var m :| 0 <= m < |s[1..]| && s[1..][m] == t[k];
            assert s[m + 1] == t[k];
          }
        }
      }
      [s[0]] + t
  }

  /** The sorted permutation of `s`. */
  function Sort(s: seq<bytes>): (r: seq<bytes>)
    ensures Sorted(r) && multiset(r) == multiset(s)
  {
    if s == [] then [] else
      assert s == [s[0]] + s[1..];
      Insert(s[0], Sort(s[1..]))
  }

  /** The first element of a sorted sequence is below all of them. */
  lemma SortedHeadLeast(a: seq<bytes>, x: bytes)
    requires Sorted(a) && x in multiset(a)
    ensures LexLe(a[0], x)
  {
    var i :| 0 <= i < |a| && a[i] == x;
    LexLeReflexive(a[0]);
    if i > 0 {
      assert LexLe(a[0], a[i]);
    }
  }

  lemma SortedTail(a: seq<bytes>)
    requires Sorted(a) && a != []
    ensures Sorted(a[1..])
  {
    forall i, j | 0 <= i < j < |a[1..]| ensures LexLe(a[1..][i], a[1..][j]) {
      assert LexLe(a[i + 1], a[j + 1]);
    }
  }

  lemma MultisetTail(a: seq<bytes>)
    requires a != []
    ensures multiset(a[1..]) == multiset(a) - multiset{a[0]}
  {
    assert a == [a[0]] + a[1..];
  }

  /** A sorted sequence is determined by its multiset of elements. */
  lemma {:induction false} SortedUnique(a: seq<bytes>, b: seq<bytes>)
    requires Sorted(a) && Sorted(b) && multiset(a) == multiset(b)
    ensures a == b
    decreases |a|
  {
    if a != [] {
      assert |b| == |multiset(b)| == |a|;
      assert a[0] in multiset(a) && b[0] in multiset(b);
      SortedHeadLeast(a, b[0]);
      SortedHeadLeast(b, a[0]);
      LexLeAntisymmetric(a[0], b[0]);
      SortedTail(a);
      SortedTail(b);
      MultisetTail(a);
      MultisetTail(b);
      SortedUnique(a[1..], b[1..]);
      assert a == [a[0]] + a[1..] && b == [b[0]] + b[1..];
    }
  }

  /** The order in which lines were collected does not affect the sorted
      result. */
  lemma SortIgnoresOrder(a: seq<bytes>, b: seq<bytes>)
    requires multiset(a) == multiset(b)
    ensures Sort(a) == Sort(b)
  {
    SortedUnique(Sort(a), Sort(b));
  }
}
