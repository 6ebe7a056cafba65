/** Escaping of separator bytes inside message fields: every `%` becomes
    `%25`, then every occurrence of each separator becomes `%hh` per byte;
    unescaping decodes every `%hh` back. */
module Escaping {
  import opened Wrappers
  import opened Bytes
  import opened Errors
  import Hex

  /** `%25`, the escaped form of `%`. */
  const ESCAPED_PERCENT: bytes := [37, 50, 53]

  /** Bytes that escaped text is made of: `%` and hexadecimal digits. */
  predicate IsSpecial(b: byte) {
    b == PERCENT || Hex.IsHexDigit(b)
  }

  /** A separator the codec can protect: non-empty and free of special
      bytes (`\n`, `|`, `&` and `=` all are). */
  predicate SafeSeparator(sep: bytes) {
    |sep| > 0 && forall i :: 0 <= i < |sep| ==> !IsSpecial(sep[i])
  }

  predicate SafeSeparators(seps: seq<bytes>) {
    forall i :: 0 <= i < |seps| ==> SafeSeparator(seps[i])
  }

  /** `%` followed by the two lower-case hexadecimal digits of `b`. */
  function EscapeByte(b: byte): (r: bytes)
    ensures |r| == 3 && r[0] == PERCENT
    ensures Hex.IsLowerHexDigit(r[1]) && Hex.IsLowerHexDigit(r[2])
    ensures 16 * Hex.DigitValue(r[1]) + Hex.DigitValue(r[2]) == b
  {
    [PERCENT] + Hex.Encode([b])
  }

  /** The escaped form of a whole separator, built byte after byte. */
  function Encoded(sep: bytes): (r: bytes)
    ensures |r| == 3 * |sep|
    ensures forall i :: 0 <= i < |r| ==> IsSpecial(r[i])
    decreases |sep|
  {
    if sep == [] then [] else Encoded(sep[..|sep| - 1]) + EscapeByte(sep[|sep| - 1])
  }

  /** Replacing each separator in turn, first to last. */
  function EscapeEach(data: bytes, seps: seq<bytes>): bytes
    decreases |seps|
  {
    if seps == [] then data
    else EscapeEach(ReplaceAll(data, seps[0], Encoded(seps[0])), seps[1..])
  }

  /** What `EscapeSeparators` computes. */
  function Escape(data: bytes, seps: seq<bytes>): bytes {
    EscapeEach(ReplaceAll(data, [PERCENT], ESCAPED_PERCENT), seps)
  }

  /** `EscapeSeparators`: the loop over separators rebinds `data`, and the
      inner loop appends the escape of each separator byte. */
  method EscapeSeparators(data: bytes, separators: seq<bytes>) returns (r: bytes)
    ensures r == Escape(data, separators)
  {
    r := ReplaceAll(data, [PERCENT], ESCAPED_PERCENT);
    ghost var start := r;
    for i := 0 to |separators|
      invariant EscapeEach(r, separators[i..]) == EscapeEach(start, separators)
    {
      var separator := separators[i];
      var escapedSeparator: bytes := [];
      for j := 0 to |separator|
        invariant escapedSeparator == Encoded(separator[..j])
      {
        assert separator[..j + 1][..j] == separator[..j];
        escapedSeparator := escapedSeparator + [PERCENT] + Hex.Encode([separator[j]]);
      }
      assert separator[..|separator|] == separator;
      assert separators[i..][1..] == separators[i + 1..];
      r := ReplaceAll(r, separator, escapedSeparator);
    }
  }

  /** Prefix `p` to a successful result; a failure passes unchanged. */
  function Prepend(p: bytes, r: Result<bytes, Error>): Result<bytes, Error> {
    if r.Ok? then Ok(p + r.value) else r
  }

  lemma PrependEmpty(r: Result<bytes, Error>)
    ensures Prepend([], r) == r
  {
    if r.Ok? {
      assert [] + r.value == r.value;
    }
  }

  lemma PrependTwice(a: bytes, b: bytes, r: Result<bytes, Error>)
    ensures Prepend(a, Prepend(b, r)) == Prepend(a + b, r)
  {
    if r.Ok? {
      assert a + (b + r.value) == (a + b) + r.value;
    }
  }

  /** Number of `%` bytes in `d`. */
  function CountPercent(d: bytes): nat {
    if d == [] then 0 else (if d[0] == PERCENT then 1 else 0) + CountPercent(d[1..])
  }

  /** What `UnescapeSeparators` computes: non-`%` bytes are copied, each
      `%hh` gives the byte `0xhh` (either case), and a `%` with fewer than
      two bytes after it, or followed by a non-hexadecimal byte, fails. */
  function Unescape(d: bytes): Result<bytes, Error>
    decreases |d|
  {
    if d == [] then Ok([])
    else if d[0] != PERCENT then Prepend([d[0]], Unescape(d[1..]))
    else if |d| <= 2 then Err(Plain(NotEnoughBytes))
    else if !Hex.IsHexDigit(d[1]) || !Hex.IsHexDigit(d[2]) then Err(Plain(InvalidEscape))
    else Prepend([16 * Hex.DigitValue(d[1]) + Hex.DigitValue(d[2])], Unescape(d[3..]))
  }

  /** `UnescapeSeparators`: an index-driven loop appending to the output. */
  method UnescapeSeparators(data: bytes) returns (r: Result<bytes, Error>)
    ensures r == Unescape(data)
  {
    var unescaped: bytes := [];
    var index := 0;
    assert data[0..] == data;
    PrependEmpty(Unescape(data));
    while index < |data|
      invariant 0 <= index <= |data|
      invariant Unescape(data) == Prepend(unescaped, Unescape(data[index..]))
      decreases |data| - index
    {
      assert data[index..][1..] == data[index + 1..];
      if data[index] != PERCENT {
        PrependTwice(unescaped, [data[index]], Unescape(data[index + 1..]));
        unescaped := unescaped + [data[index]];
        index := index + 1;
        continue;
      }
      if index + 2 >= |data| {
        return Err(Plain(NotEnoughBytes));
      }
      if !Hex.IsHexDigit(data[index + 1]) || !Hex.IsHexDigit(data[index + 2]) {
        return Err(Plain(InvalidEscape));
      }
      assert data[index..][3..] == data[index + 3..];
      var decoded := 16 * Hex.DigitValue(data[index + 1]) + Hex.DigitValue(data[index + 2]);
      PrependTwice(unescaped, [decoded], Unescape(data[index + 3..]));
      unescaped := unescaped + [decoded];
      index := index + 3;
    }
    assert data[index..] == [];
    assert unescaped + [] == unescaped;
    r := Ok(unescaped);
  }

  // Properties of unescaping

  /** Text without `%` is copied unchanged in front of whatever follows. */
  lemma {:induction false} UnescapeLiteral(p: bytes, t: bytes)
    requires PERCENT !in p
    ensures Unescape(p + t) == Prepend(p, Unescape(t))
    decreases |p|
  {
    if p == [] {
      assert p + t == t;
      PrependEmpty(Unescape(t));
    } else {
      assert (p + t)[1..] == p[1..] + t;
      UnescapeLiteral(p[1..], t);
      PrependTwice([p[0]], p[1..], Unescape(t));
      assert [p[0]] + p[1..] == p;
    }
  }

  /** Data without `%` unescapes to itself. */
  lemma UnescapeNoPercent(d: bytes)
    requires PERCENT !in d
    ensures Unescape(d) == Ok(d)
  {
    UnescapeLiteral(d, []);
    assert d + [] == d;
  }

  /** A `%` with fewer than two bytes after it fails. */
  lemma UnescapeTruncated(p: bytes, t: bytes)
    requires PERCENT !in p && |t| < 2
    ensures Unescape(p + [PERCENT] + t) == Err(Plain(NotEnoughBytes))
  {
    UnescapeLiteral(p, [PERCENT] + t);
    assert p + [PERCENT] + t == p + ([PERCENT] + t);
  }

  /** A `%` followed by a non-hexadecimal byte fails. */
  lemma UnescapeInvalidDigits(p: bytes, a: byte, b: byte, t: bytes)
    requires PERCENT !in p && (!Hex.IsHexDigit(a) || !Hex.IsHexDigit(b))
    ensures Unescape(p + [PERCENT, a, b] + t) == Err(Plain(InvalidEscape))
  {
    UnescapeLiteral(p, [PERCENT, a, b] + t);
    assert p + [PERCENT, a, b] + t == p + ([PERCENT, a, b] + t);
  }

  /** `%xx` is rejected. */
  lemma UnescapeExampleInvalid()
    ensures Unescape([37, 120, 120]).Err?
  {
    UnescapeInvalidDigits([], 120, 120, []);
    assert [] + [37, 120, 120] + [] == [37, 120, 120];
  }

  /** On success, every `%hh` has become one byte and every other byte is
      kept, so the output is shorter by two bytes per `%`. */
  lemma {:induction false} UnescapeLength(d: bytes)
    requires Unescape(d).Ok?
    ensures |Unescape(d).value| == |d| - 2 * CountPercent(d)
    decreases |d|
  {
    if d != [] {
      if d[0] != PERCENT {
        UnescapeLength(d[1..]);
      } else {
        UnescapeLength(d[3..]);
        assert d[1..][1..] == d[2..] && d[2..][1..] == d[3..];
        assert CountPercent(d[1..]) == CountPercent(d[2..]);
        assert CountPercent(d[2..]) == CountPercent(d[3..]);
      }
    }
  }

  /** Only empty input unescapes to nothing: every `%hh` still yields a
      byte. */
  lemma UnescapeEmpty(d: bytes)
    requires Unescape(d).Ok?
    ensures Unescape(d).value == [] <==> d == []
  {
  }

  /** An escaped byte decodes to that byte in front of whatever follows. */
  lemma UnescapeEscapeByte(b: byte, t: bytes)
    ensures Unescape(EscapeByte(b) + t) == Prepend([b], Unescape(t))
  {
    var e := EscapeByte(b);
    assert (e + t)[3..] == t;
  }

  /** An escaped separator decodes to the separator. */
  lemma {:induction false} UnescapeEncoded(sep: bytes, t: bytes)
    ensures Unescape(Encoded(sep) + t) == Prepend(sep, Unescape(t))
    decreases |sep|
  {
    if sep == [] {
      assert Encoded(sep) + t == t;
      PrependEmpty(Unescape(t));
    } else {
      var init := sep[..|sep| - 1];
      var last := sep[|sep| - 1];
      assert Encoded(sep) + t == Encoded(init) + (EscapeByte(last) + t);
      UnescapeEncoded(init, EscapeByte(last) + t);
      UnescapeEscapeByte(last, t);
      PrependTwice(init, [last], Unescape(t));
      assert init + [last] == sep;
    }
  }

  // Properties of escaping

  /** Escaping `%` is undone by unescaping. */
  lemma {:induction false} UnescapePercentEscaped(x: bytes)
    ensures Unescape(ReplaceAll(x, [PERCENT], ESCAPED_PERCENT)) == Ok(x)
    decreases |x|
  {
    if x != [] {
      var rest := ReplaceAll(x[1..], [PERCENT], ESCAPED_PERCENT);
      UnescapePercentEscaped(x[1..]);
      if x[0] == PERCENT {
        assert x[..1] == [PERCENT];
        assert ReplaceAll(x, [PERCENT], ESCAPED_PERCENT) == ESCAPED_PERCENT + rest;
        assert (ESCAPED_PERCENT + rest)[3..] == rest;
      } else {
        ReplaceAllSkip(x, [PERCENT], ESCAPED_PERCENT);
        assert ([x[0]] + rest)[1..] == rest;
      }
      assert [x[0]] + x[1..] == x;
    }
  }

  /** Escaping one safe separator does not change what data unescapes to. */
  lemma {:induction false} UnescapeReplaced(d: bytes, sep: bytes, x: bytes)
    requires SafeSeparator(sep) && Unescape(d) == Ok(x)
    ensures Unescape(ReplaceAll(d, sep, Encoded(sep))) == Ok(x)
    decreases |d|
  {
    var e := Encoded(sep);
    if |d| < |sep| {
    } else if d[..|sep|] == sep {
      var t := d[|sep|..];
      assert d == sep + t;
      assert PERCENT !in sep by {
        forall i | 0 <= i < |sep| ensures sep[i] != PERCENT { assert !IsSpecial(sep[i]); }
      }
      UnescapeLiteral(sep, t);
      var y := Unescape(t).value;
      UnescapeReplaced(t, sep, y);
      UnescapeEncoded(sep, ReplaceAll(t, sep, e));
      assert x == sep + y;
    } else if d[0] != PERCENT {
      var y := Unescape(d[1..]).value;
      UnescapeReplaced(d[1..], sep, y);
      var rest := ReplaceAll(d[1..], sep, e);
      assert ([d[0]] + rest)[1..] == rest;
    } else {
      assert !IsSpecial(sep[0]);
      var t := d[3..];
      var y := Unescape(t).value;
      UnescapeReplaced(t, sep, y);
      ReplaceAllSkip(d, sep, e);
      ReplaceAllSkip(d[1..], sep, e);
      ReplaceAllSkip(d[2..], sep, e);
      assert d[1..][1..] == d[2..] && d[2..][1..] == t;
      var rest := ReplaceAll(t, sep, e);
      assert ReplaceAll(d, sep, e) == [d[0], d[1], d[2]] + rest;
      assert ([d[0], d[1], d[2]] + rest)[3..] == rest;
    }
  }

  /** Escaping any list of safe separators does not change what data
      unescapes to. */
  lemma {:induction false} UnescapeEscapedEach(d: bytes, seps: seq<bytes>, x: bytes)
    requires SafeSeparators(seps) && Unescape(d) == Ok(x)
    ensures Unescape(EscapeEach(d, seps)) == Ok(x)
    decreases |seps|
  {
    if seps != [] {
      assert SafeSeparator(seps[0]);
      UnescapeReplaced(d, seps[0], x);
      UnescapeEscapedEach(ReplaceAll(d, seps[0], Encoded(seps[0])), seps[1..], x);
    }
  }

  /** Round trip: unescaping undoes escaping with safe separators. */
  lemma UnescapeEscape(x: bytes, seps: seq<bytes>)
    requires SafeSeparators(seps)
    ensures Unescape(Escape(x, seps)) == Ok(x)
  {
    UnescapePercentEscaped(x);
    UnescapeEscapedEach(ReplaceAll(x, [PERCENT], ESCAPED_PERCENT), seps, x);
  }

  /** Where `ReplaceAll` has written only non-special bytes, its output
      agrees with its input, provided the replacement is all special. */
  lemma {:induction false} PlainPrefixUnchanged(s: bytes, pattern: bytes, replacement: bytes, k: nat)
    requires |pattern| > 0 && |replacement| > 0
    requires forall i :: 0 <= i < |replacement| ==> IsSpecial(replacement[i])
    requires k <= |ReplaceAll(s, pattern, replacement)|
    requires forall i :: 0 <= i < k ==> !IsSpecial(ReplaceAll(s, pattern, replacement)[i])
    ensures k <= |s| && ReplaceAll(s, pattern, replacement)[..k] == s[..k]
    decreases |s|
  {
    var r := ReplaceAll(s, pattern, replacement);
    if |s| < |pattern| {
    } else if s[..|pattern|] == pattern {
      assert r[0] == replacement[0];
      assert IsSpecial(r[0]);
    } else if k > 0 {
      var rest := ReplaceAll(s[1..], pattern, replacement);
      assert r == [s[0]] + rest;
      forall i | 0 <= i < k - 1 ensures !IsSpecial(rest[i]) {
        assert rest[i] == r[i + 1];
      }
      PlainPrefixUnchanged(s[1..], pattern, replacement, k - 1);
      assert r[..k] == [s[0]] + rest[..k - 1];
      assert s[..k] == [s[0]] + s[1..][..k - 1];
    }
  }

  /** A string with no occurrence of `t` has none in any suffix either. */
  lemma SuffixAbsent(s: bytes, t: bytes, c: nat)
    requires c <= |s| && !Contains(s, t)
    ensures !Contains(s[c..], t)
  {
    forall j | 0 <= j ensures !OccursAt(s[c..], t, j) {
      assert !OccursAt(s, t, j + c);
      if j + |t| <= |s| - c {
        assert s[j + c..j + c + |t|] == s[c..][j..j + |t|];
      }
    }
  }

  /** An occurrence of `t` in `a + b` starts inside `a` or lies in `b`. */
  lemma ConcatAbsent(a: bytes, b: bytes, t: bytes)
    requires !Contains(b, t)
    requires forall j :: 0 <= j < |a| ==> !OccursAt(a + b, t, j)
    ensures !Contains(a + b, t)
  {
    forall j | |a| <= j ensures !OccursAt(a + b, t, j) {
      assert !OccursAt(b, t, j - |a|);
      if j + |t| <= |a + b| {
        assert (a + b)[j..j + |t|] == b[j - |a|..j - |a| + |t|];
      }
    }
  }

  /** Replacing a safe separator by its escape leaves no occurrence of it
      and creates no occurrence of any other safe separator. */
  lemma {:induction false} ReplacedAbsent(s: bytes, sep: bytes, t: bytes)
    requires SafeSeparator(sep) && SafeSeparator(t)
    requires t == sep || !Contains(s, t)
    ensures !Contains(ReplaceAll(s, sep, Encoded(sep)), t)
    decreases |s|
  {
    var e := Encoded(sep);
    var r := ReplaceAll(s, sep, e);
    if |s| >= |sep| {
      if s[..|sep|] == sep {
        var tail := s[|sep|..];
        if t != sep { SuffixAbsent(s, t, |sep|); }
        ReplacedAbsent(tail, sep, t);
        var rest := ReplaceAll(tail, sep, e);
        assert r == e + rest;
        forall j | 0 <= j < |e| ensures !OccursAt(e + rest, t, j) {
          assert !IsSpecial(t[0]) && IsSpecial(e[j]);
          if j + |t| <= |r| {
            assert (e + rest)[j..j + |t|][0] == e[j];
          }
        }
        ConcatAbsent(e, rest, t);
      } else {
        var tail := s[1..];
        if t != sep { SuffixAbsent(s, t, 1); }
        ReplacedAbsent(tail, sep, t);
        var rest := ReplaceAll(tail, sep, e);
        assert r == [s[0]] + rest;
        assert !OccursAt(s, t, 0);
        if |t| <= |r| && r[..|t|] == t {
          forall i | 0 <= i < |t| ensures !IsSpecial(r[i]) {
            assert r[i] == t[i];
          }
          PlainPrefixUnchanged(s, sep, e, |t|);
          assert false;
        }
        ConcatAbsent([s[0]], rest, t);
      }
    }
  }

  /** After escaping a list of safe separators, none of them occurs, and no
      other safe separator that was absent appears. */
  lemma {:induction false} EscapedEachAbsent(d: bytes, seps: seq<bytes>, t: bytes)
    requires SafeSeparators(seps) && SafeSeparator(t)
    requires t in seps || !Contains(d, t)
    ensures !Contains(EscapeEach(d, seps), t)
    decreases |seps|
  {
    if seps != [] {
      var next := ReplaceAll(d, seps[0], Encoded(seps[0]));
      assert SafeSeparator(seps[0]);
      if seps[0] == t || !Contains(d, t) {
        ReplacedAbsent(d, seps[0], t);
      }
      assert t in seps[1..] || !Contains(next, t);
      EscapedEachAbsent(next, seps[1..], t);
    }
  }

  /** No safe separator occurs in escaped data. */
  lemma EscapeRemovesSeparators(x: bytes, seps: seq<bytes>)
    requires SafeSeparators(seps)
    ensures forall i :: 0 <= i < |seps| ==> !Contains(Escape(x, seps), seps[i])
  {
    forall i | 0 <= i < |seps| ensures !Contains(Escape(x, seps), seps[i]) {
      assert SafeSeparator(seps[i]);
      EscapedEachAbsent(ReplaceAll(x, [PERCENT], ESCAPED_PERCENT), seps, seps[i]);
    }
  }

  /** Without separators only `%` is rewritten: data free of `%` is
      returned unchanged. */
  lemma EscapeWithoutSeparators(x: bytes)
    requires PERCENT !in x
    ensures Escape(x, []) == x
  {
    ReplaceAllFree(x, [PERCENT], ESCAPED_PERCENT);
  }

  /** Replacing separators whose first byte does not occur changes nothing. */
  lemma {:induction false} EscapeEachFree(d: bytes, seps: seq<bytes>)
    requires forall i :: 0 <= i < |seps| ==> |seps[i]| > 0 && seps[i][0] !in d
    ensures EscapeEach(d, seps) == d
    decreases |seps|
  {
    if seps != [] {
      ReplaceAllFree(d, seps[0], Encoded(seps[0]));
      EscapeEachFree(d, seps[1..]);
    }
  }

  /** Escaping the empty text gives the empty text. */
  lemma EscapeEmpty(seps: seq<bytes>)
    ensures Escape([], seps) == []
  {
    assert ReplaceAll([], [PERCENT], ESCAPED_PERCENT) == [];
    EscapeEachEmpty(seps);
  }

  lemma {:induction false} EscapeEachEmpty(seps: seq<bytes>)
    ensures EscapeEach([], seps) == []
    decreases |seps|
  {
    if seps != [] {
      EscapeEachEmpty(seps[1..]);
    }
  }

  /** Data holding no `%` and no first byte of a separator is returned
      unchanged. */
  lemma EscapeFree(x: bytes, seps: seq<bytes>)
    requires PERCENT !in x
    requires forall i :: 0 <= i < |seps| ==> |seps[i]| > 0 && seps[i][0] !in x
    ensures Escape(x, seps) == x
  {
    ReplaceAllFree(x, [PERCENT], ESCAPED_PERCENT);
    EscapeEachFree(x, seps);
  }

  /** `"dummy"` escapes to itself when there are no separators. */
  lemma EscapeExampleDummy()
    ensures Escape([100, 117, 109, 109, 121], []) == [100, 117, 109, 109, 121]
  {
    EscapeWithoutSeparators([100, 117, 109, 109, 121]);
  }

  /** Without separators only `%` is rewritten, into `%25`. */
  lemma EscapeOnlyPercent(x: bytes)
    ensures Escape(x, []) == ReplaceAll(x, [PERCENT], ESCAPED_PERCENT)
  {
  }

  /** `:=23%` escapes to `%3a%3d23%25` with the separator `:=`: `%` is
      escaped first, and the separator is still escaped after it. */
  lemma EscapeExamplePercent()
    ensures Escape([58, 61, 50, 51, 37], [[58, 61]]) == [37, 51, 97, 37, 51, 100, 50, 51, 37, 50, 53]
  {
    var x: bytes := [58, 61, 50, 51, 37];
    var p := ReplaceAll(x, [PERCENT], ESCAPED_PERCENT);
    assert p == [58, 61, 50, 51, 37, 50, 53];
    var rest: bytes := [50, 51, 37, 50, 53];
    var e := Encoded([58, 61]);
    EncodedExample();
    assert p == [58, 61] + rest && p[..2] == [58, 61] && p[2..] == rest;
    ReplaceAllFree(rest, [58, 61], e);
    assert ReplaceAll(p, [58, 61], e) == e + rest;
    assert [[58, 61]][1..] == [];
  }

  /** `:=` escapes to `%3a%3d`. */
  lemma EncodedExample()
    ensures Encoded([58, 61]) == [37, 51, 97, 37, 51, 100]
  {
    assert [58, 61][..1] == [58];
  }

  /** A single occurrence of a separator between separator-free text is
      replaced by its escape and nothing else changes. */
  lemma EscapeOneOccurrence(a: bytes, c: bytes, sep: bytes)
    requires SafeSeparator(sep)
    requires PERCENT !in a && PERCENT !in c && sep[0] !in a && sep[0] !in c
    ensures Escape(a + sep + c, [sep]) == a + Encoded(sep) + c
  {
    var e := Encoded(sep);
    assert PERCENT !in sep by { assert forall i :: 0 <= i < |sep| ==> !IsSpecial(sep[i]); }
    assert PERCENT !in a + sep + c;
    ReplaceAllFree(a + sep + c, [PERCENT], ESCAPED_PERCENT);
    ReplaceAllAt(a, c, sep, e);
    ReplaceAllFree(c, sep, e);
    assert [sep][1..] == [];
    assert EscapeEach(a + sep + c, [sep]) == ReplaceAll(a + sep + c, sep, e);
  }

  /** `a:=b` escapes to `a%3a%3db` with the separator `:=`. */
  lemma EscapeExampleSeparator()
    ensures Escape([97, 58, 61, 98], [[58, 61]]) == [97, 37, 51, 97, 37, 51, 100, 98]
  {
    EncodedExample();
    EscapeOneOccurrence([97], [98], [58, 61]);
    assert [97, 58, 61, 98] == [97] + [58, 61] + [98];
  }
}
