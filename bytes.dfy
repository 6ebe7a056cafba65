/** Byte strings and the byte-slice library operations the protocol code
    relies on (Go's `bytes.Index`, `bytes.Split`, `bytes.SplitN`,
    `bytes.Join` and `bytes.ReplaceAll`), stated as functions. */
module Bytes {

  type byte = b: int | 0 <= b < 256
  type bytes = seq<byte>

  const PERCENT: byte := 37

  /** `t` occurs in `s` starting at index `i`. */
  predicate OccursAt(s: bytes, t: bytes, i: int) {
    0 <= i && i + |t| <= |s| && s[i..i + |t|] == t
  }

  ghost predicate Contains(s: bytes, t: bytes) {
    exists i :: OccursAt(s, t, i)
  }

  /** `bytes.Index`: the first index at which `t` occurs in `s`, or -1. */
  function Index(s: bytes, t: bytes): (r: int)
    ensures -1 <= r <= |s|
    ensures r == -1 <==> !Contains(s, t)
    ensures r >= 0 ==> OccursAt(s, t, r) && forall j :: 0 <= j < r ==> !OccursAt(s, t, j)
    ensures |t| == 0 ==> r == 0
  {
    IndexFrom(s, t, 0)
  }

  /** The first occurrence of `t` in `s` at or after index `i`. */
  function IndexFrom(s: bytes, t: bytes, i: nat): (r: int)
    requires i <= |s|
    ensures r == -1 ==> forall j :: i <= j ==> !OccursAt(s, t, j)
    ensures r != -1 ==> i <= r <= |s| && OccursAt(s, t, r)
    ensures r != -1 ==> forall j :: i <= j < r ==> !OccursAt(s, t, j)
    decreases |s| - i
  {
    if i + |t| > |s| then -1
    else if s[i..i + |t|] == t then i
    else if i == |s| then -1
    else IndexFrom(s, t, i + 1)
  }

  /** A single-byte string `[c]` occurs in `s` exactly when `c` does. */
  lemma ContainsSingle(s: bytes, c: byte)
    ensures Contains(s, [c]) <==> c in s
  {
    if c in s {
      var i :| 0 <= i < |s| && s[i] == c;
      assert OccursAt(s, [c], i);
    }
    if Contains(s, [c]) {
      var i :| OccursAt(s, [c], i);
      assert s[i] == s[i..i + 1][0];
    }
  }

  /** `bytes.Join`. */
  function Join(parts: seq<bytes>, sep: bytes): (r: bytes)
    decreases |parts|
  {
    if |parts| == 0 then []
    else if |parts| == 1 then parts[0]
    else parts[0] + sep + Join(parts[1..], sep)
  }

  /** `bytes.Split` with a non-empty separator: the pieces between the
      non-overlapping occurrences of `sep`, scanned left to right. */
  function SplitNonEmpty(s: bytes, sep: bytes): (r: seq<bytes>)
    requires |sep| > 0
    ensures |r| >= 1
    decreases |s|
  {
    var i := Index(s, sep);
    if i < 0 then [s] else [s[..i]] + SplitNonEmpty(s[i + |sep|..], sep)
  }

  /** `bytes.Split`. With an empty separator Go cuts after every UTF-8
      sequence; here after every byte (identical for ASCII data). */
  function Split(s: bytes, sep: bytes): (r: seq<bytes>)
  {
    if |sep| == 0 then seq(|s|, i requires 0 <= i < |s| => [s[i]])
    else SplitNonEmpty(s, sep)
  }

  /** `bytes.SplitN(s, sep, 3)`: at most three parts, the last one holding
      everything after the second separator. */
  function SplitN3(s: bytes, sep: bytes): (r: seq<bytes>)
    ensures |r| <= 3
  {
    if |sep| == 0 then
      if |s| < 3 then seq(|s|, i requires 0 <= i < |s| => [s[i]])
      else [s[..1], s[1..2], s[2..]]
    else
      var i := Index(s, sep);
      if i < 0 then [s]
      else
        var rest := s[i + |sep|..];
        var j := Index(rest, sep);
        if j < 0 then [s[..i], rest]
        else [s[..i], rest[..j], rest[j + |sep|..]]
  }

  /** `bytes.ReplaceAll(s, pattern, replacement)`: every non-overlapping
      occurrence of `pattern`, found left to right, is replaced. Go's special
      meaning of an empty pattern (insert at every rune boundary) is only
      reached here with an empty replacement, where it leaves `s` unchanged. */
  function ReplaceAll(s: bytes, pattern: bytes, replacement: bytes): (r: bytes)
    requires |pattern| > 0 || replacement == []
    decreases |s|
  {
    if |pattern| == 0 then s
    else if |s| < |pattern| then s
    else if s[..|pattern|] == pattern then replacement + ReplaceAll(s[|pattern|..], pattern, replacement)
    else [s[0]] + ReplaceAll(s[1..], pattern, replacement)
  }

  /** Splitting on a single byte undoes joining on it, provided no piece
      contains that byte. */
  lemma {:induction false} SplitJoinSingle(parts: seq<bytes>, c: byte)
    requires |parts| >= 1
    requires forall k :: 0 <= k < |parts| ==> c !in parts[k]
    ensures Split(Join(parts, [c]), [c]) == parts
    decreases |parts|
  {
    var s := Join(parts, [c]);
    if |parts| == 1 {
      ContainsSingle(parts[0], c);
    } else {
      var tail := Join(parts[1..], [c]);
      assert s == parts[0] + [c] + tail;
      FirstSingleAfterFree(parts[0], c, tail);
      assert s[..|parts[0]|] == parts[0];
      assert s[|parts[0]| + 1..] == tail;
      SplitJoinSingle(parts[1..], c);
      assert Split(s, [c]) == [parts[0]] + Split(tail, [c]);
      assert parts == [parts[0]] + parts[1..];
    }
  }

  /** In `a + [c] + t` with `c` not in `a`, the first `c` is right after `a`. */
  lemma FirstSingleAfterFree(a: bytes, c: byte, t: bytes)
    requires c !in a
    ensures Index(a + [c] + t, [c]) == |a|
  {
    var s := a + [c] + t;
    assert OccursAt(s, [c], |a|);
    forall j | 0 <= j < |a| ensures !OccursAt(s, [c], j) {
      assert s[j] == a[j];
    }
  }

  /** `SplitN3` of three pieces joined by a single byte that does not occur
      in the first two gives the pieces back. */
  lemma SplitN3JoinSingle(a: bytes, b: bytes, d: bytes, c: byte)
    requires c !in a && c !in b
    ensures SplitN3(Join([a, b, d], [c]), [c]) == [a, b, d]
  {
    var s := Join([a, b, d], [c]);
    assert Join([b, d], [c]) == b + [c] + d;
    assert s == a + [c] + (b + [c] + d);
    FirstSingleAfterFree(a, c, b + [c] + d);
    assert s[..|a|] == a;
    var rest := s[|a| + 1..];
    assert rest == b + [c] + d;
    FirstSingleAfterFree(b, c, d);
    assert rest[..|b|] == b;
    assert rest[|b| + 1..] == d;
  }

  /** When `s` does not start with the pattern, `ReplaceAll` keeps its first
      byte and carries on with the rest. */
  lemma ReplaceAllSkip(s: bytes, pattern: bytes, replacement: bytes)
    requires |s| > 0 && |pattern| > 0 && s[0] != pattern[0]
    ensures ReplaceAll(s, pattern, replacement) == [s[0]] + ReplaceAll(s[1..], pattern, replacement)
  {
    if |s| < |pattern| {
      assert [s[0]] + s[1..] == s;
    }
  }

  /** `ReplaceAll` copies a prefix in which no occurrence can start. */
  lemma {:induction false} ReplaceAllPrefixFree(a: bytes, t: bytes, pattern: bytes, replacement: bytes)
    requires |pattern| > 0 && pattern[0] !in a
    ensures ReplaceAll(a + t, pattern, replacement) == a + ReplaceAll(t, pattern, replacement)
    decreases |a|
  {
    if a == [] {
      assert a + t == t;
    } else {
      ReplaceAllSkip(a + t, pattern, replacement);
      assert (a + t)[1..] == a[1..] + t;
      ReplaceAllPrefixFree(a[1..], t, pattern, replacement);
      assert a == [a[0]] + a[1..];
    }
  }

  /** Text in which the pattern's first byte does not occur is unchanged. */
  lemma ReplaceAllFree(a: bytes, pattern: bytes, replacement: bytes)
    requires |pattern| > 0 && pattern[0] !in a
    ensures ReplaceAll(a, pattern, replacement) == a
  {
    ReplaceAllPrefixFree(a, [], pattern, replacement);
    assert a + [] == a;
  }

  /** The first occurrence, after a prefix where none can start, is
      replaced and the scan carries on after it. */
  lemma ReplaceAllAt(a: bytes, b: bytes, pattern: bytes, replacement: bytes)
    requires |pattern| > 0 && pattern[0] !in a
    ensures ReplaceAll(a + pattern + b, pattern, replacement) == a + replacement + ReplaceAll(b, pattern, replacement)
  {
    ReplaceAllPrefixFree(a, pattern + b, pattern, replacement);
    assert a + pattern + b == a + (pattern + b);
    assert (pattern + b)[..|pattern|] == pattern;
    assert (pattern + b)[|pattern|..] == b;
  }

  /** A byte that is in no part and not in the separator is not in the
      joined result. */
  lemma {:induction false} JoinFree(parts: seq<bytes>, sep: bytes, c: byte)
    requires c !in sep && forall i :: 0 <= i < |parts| ==> c !in parts[i]
    ensures c !in Join(parts, sep)
    decreases |parts|
  {
    if |parts| > 1 {
      JoinFree(parts[1..], sep, c);
    }
  }

  /** `bytes.Join` of two parts puts the separator between them. */
  lemma JoinPair(a: bytes, b: bytes, sep: bytes)
    ensures Join([a, b], sep) == a + sep + b
  {
    assert [a, b][1..] == [b];
  }

  lemma JoinTriple(a: bytes, b: bytes, c: bytes, sep: bytes)
    ensures Join([a, b, c], sep) == a + sep + b + sep + c
  {
    assert [a, b, c][1..] == [b, c];
    JoinPair(b, c, sep);
  }

  /** `bytes.Join` keeps the first part in front. */
  lemma JoinStartsWithFirst(parts: seq<bytes>, sep: bytes)
    requires |parts| > 0
    ensures |Join(parts, sep)| >= |parts[0]|
    ensures Join(parts, sep)[..|parts[0]|] == parts[0]
  {
  }
}
