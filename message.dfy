/** The raw message of the separator-based wire format: an introduction,
    headers keyed by the hexadecimal text of the raw key, and a body,
    written as `intro | key=value & ... | body` with every field escaped. */
module RawMessage {
  import opened Wrappers
  import opened Bytes
  import opened Errors
  import opened Escaping
  import opened Ordering
  import opened Collections
  import opened Separation
  import Hex

  const MESSAGE_PART_COUNT: nat := 3

  datatype Message = Message(introduction: bytes, headers: map<bytes, bytes>, body: bytes)

  /** Unescape a field, naming the field in the error. */
  function UnescapeField(d: bytes, k: Kind): Result<bytes, Error> {
    match Unescape(d)
    case Ok(v) => Ok(v)
    case Err(e) => Err(Wrap(k, e))
  }

  // Parsing

  /** One `key=value` header: the key is cut at the first key-value
      separator, and the value starts one byte after that position. */
  function ParseHeaderLine(line: bytes, kvSep: bytes, index: nat): Result<(bytes, bytes), Error> {
    var i := Index(line, kvSep);
    if i == -1 then Err(Plain(NoKeyValueSeparator(index)))
    else if i == 0 then Err(Plain(HeaderKeyEmpty))
    else
      var key :- UnescapeField(line[..i], UnescapeHeaderKey);
      if |line[i + 1..]| == 0 then Err(Plain(HeaderValueEmpty))
      else
        var value :- UnescapeField(line[i + 1..], UnescapeHeaderValue);
        Ok((Hex.Encode(key), value))
  }

  /** The headers of `lines`, in order, a later key overwriting an earlier
      one; the first failing header is the error. */
  function ParseHeaders(lines: seq<bytes>, kvSep: bytes): Result<map<bytes, bytes>, Error>
    decreases |lines|
  {
    if lines == [] then Ok(map[])
    else
      var earlier :- ParseHeaders(lines[..|lines| - 1], kvSep);
      var header :- ParseHeaderLine(lines[|lines| - 1], kvSep, |lines| - 1);
      Ok(earlier[header.0 := header.1])
  }

  /** What `ParseMessage` computes. */
  function Parse(data: bytes, params: SeparationParams): Result<Message, Error> {
    var parts := SplitN3(data, params.messagePartSeparator);
    if |parts| < MESSAGE_PART_COUNT then Err(Plain(InvalidPartCount(|parts|)))
    else if |parts[0]| == 0 then Err(Plain(IntroductionEmpty))
    else
      var introduction :- UnescapeField(parts[0], UnescapeIntroduction);
      var headers :-
        if |parts[1]| == 0 then Ok(map[])
        else ParseHeaders(Split(parts[1], params.headerSeparator), params.headerKeyValueSeparator);
      var body :- UnescapeField(parts[2], UnescapeBody);
      Ok(Message(introduction, headers, body))
  }

  /** Once a prefix of the headers fails, the whole list fails the same way. */
  lemma {:induction false} ParseHeadersPrefixFails(lines: seq<bytes>, kvSep: bytes, j: nat)
    requires j <= |lines| && ParseHeaders(lines[..j], kvSep).Err?
    ensures ParseHeaders(lines, kvSep) == ParseHeaders(lines[..j], kvSep)
    decreases |lines| - j
  {
    if j < |lines| {
      assert lines[..j + 1][..j] == lines[..j];
      ParseHeadersPrefixFails(lines, kvSep, j + 1);
    } else {
      assert lines[..j] == lines;
    }
  }

  /** `ParseMessage`: the header loop fills a map in place. */
  method ParseMessage(data: bytes, params: SeparationParams) returns (r: Result<Message, Error>)
    ensures r == Parse(data, params)
  {
    var parts := SplitN3(data, params.messagePartSeparator);
    if |parts| < MESSAGE_PART_COUNT {
      return Err(Plain(InvalidPartCount(|parts|)));
    }
    if |parts[0]| == 0 {
      return Err(Plain(IntroductionEmpty));
    }
    var introduction := UnescapeSeparators(parts[0]);
    if introduction.Err? {
      return Err(Wrap(UnescapeIntroduction, introduction.error));
    }
    var headers: map<bytes, bytes> := map[];
    if |parts[1]| != 0 {
      var kvSep := params.headerKeyValueSeparator;
      var lines := Split(parts[1], params.headerSeparator);
      for index := 0 to |lines|
        invariant ParseHeaders(lines[..index], kvSep) == Ok(headers)
      {
        assert lines[..index + 1][..index] == lines[..index];
        var line := lines[index];
        var separatorIndex := Index(line, kvSep);
        if separatorIndex == -1 {
          ParseHeadersPrefixFails(lines, kvSep, index + 1);
          return Err(Plain(NoKeyValueSeparator(index)));
        }
        if separatorIndex == 0 {
          ParseHeadersPrefixFails(lines, kvSep, index + 1);
          return Err(Plain(HeaderKeyEmpty));
        }
        var key := UnescapeSeparators(line[..separatorIndex]);
        if key.Err? {
          ParseHeadersPrefixFails(lines, kvSep, index + 1);
          return Err(Wrap(UnescapeHeaderKey, key.error));
        }
        var escapedValue := line[separatorIndex + 1..];
        if |escapedValue| == 0 {
          ParseHeadersPrefixFails(lines, kvSep, index + 1);
          return Err(Plain(HeaderValueEmpty));
        }
        var value := UnescapeSeparators(escapedValue);
        if value.Err? {
          ParseHeadersPrefixFails(lines, kvSep, index + 1);
          return Err(Wrap(UnescapeHeaderValue, value.error));
        }
        headers := headers[Hex.Encode(key.value) := value.value];
      }
      assert lines[..|lines|] == lines;
    }
    var body := UnescapeSeparators(parts[2]);
    if body.Err? {
      return Err(Wrap(UnescapeBody, body.error));
    }
    r := Ok(Message(introduction.value, headers, body.value));
  }

  // Marshalling

  /** The escaped key and value joined by the key-value separator. */
  function HeaderLine(rawKey: bytes, value: bytes, params: SeparationParams): bytes {
    Join([Escape(rawKey, Separators(params)), Escape(value, Separators(params))],
         params.headerKeyValueSeparator)
  }

  /** Escapes the key and the value and joins them, as the marshalling
      loop does for each header. */
  method EscapedHeaderLine(rawKey: bytes, value: bytes, params: SeparationParams) returns (line: bytes)
    ensures line == HeaderLine(rawKey, value, params)
  {
    var separators := Separators(params);
    var escapedKey := EscapeSeparators(rawKey, separators);
    var escapedValue := EscapeSeparators(value, separators);
    line := Join([escapedKey, escapedValue], params.headerKeyValueSeparator);
  }

  /** The header line written for a stored (hexadecimal) key. */
  function LineFor(headers: map<bytes, bytes>, params: SeparationParams): bytes -> bytes {
    k => if k in headers && Hex.Decode(k).Some? then HeaderLine(Hex.Decode(k).value, headers[k], params) else []
  }

  predicate KeysDecodable(headers: map<bytes, bytes>) {
    forall k :: k in headers ==> Hex.Decode(k).Some?
  }

  /** What `MarshalMessage` computes: the header lines in byte order,
      whatever order the map is visited in; a stored key that is not
      hexadecimal text is an error. */
  ghost function Marshal(m: Message, params: SeparationParams): Result<bytes, Error> {
    if !KeysDecodable(m.headers) then Err(Plain(InvalidHeaderKey))
    else
      Ok(Join([Escape(m.introduction, Separators(params)),
               Join(SortedHeaderLines(m.headers, params), params.headerSeparator),
               Escape(m.body, Separators(params))],
              params.messagePartSeparator))
  }

  /** The header lines of a map, one per key, in byte order. */
  ghost function SortedHeaderLines(headers: map<bytes, bytes>, params: SeparationParams): seq<bytes> {
    Sort(MapSeq(Enumerate(headers.Keys), LineFor(headers, params)))
  }

  /** The header lines of the map, one per stored key, in the
      order the map is visited; `None` when a stored key is not
      hexadecimal text. */
  method CollectHeaderLines(headers: map<bytes, bytes>, params: SeparationParams) returns (r: Option<seq<bytes>>)
    ensures r.None? <==> !KeysDecodable(headers)
    ensures r.Some? ==> multiset(r.value) == multiset(MapSeq(Enumerate(headers.Keys), LineFor(headers, params)))
  {
    ghost var f := LineFor(headers, params);
    var remaining := headers.Keys;
    var lines: seq<bytes> := [];
    while remaining != {}
      invariant remaining <= headers.Keys
      invariant forall k :: k in headers && k !in remaining ==> Hex.Decode(k).Some?
      invariant multiset(lines) + Bag(remaining, f) == Bag(headers.Keys, f)
      decreases remaining
    {
      var encodedKey :| encodedKey in remaining;
      var headerKey := Hex.Decode(encodedKey);
      if headerKey.None? {
        return None;
      }
      var line := EscapedHeaderLine(headerKey.value, headers[encodedKey], params);
      assert line == f(encodedKey);
      BagStep(lines, remaining, f, encodedKey);
      lines := lines + [line];
      remaining := remaining - {encodedKey};
    }
    BagOfEnumerate(headers.Keys, f);
    return Some(lines);
  }

  /** `MarshalMessage`: header lines are collected while the map is visited
      in an arbitrary order, then sorted in place. */
  method MarshalMessage(m: Message, params: SeparationParams) returns (r: Result<bytes, Error>)
    ensures r == Marshal(m, params)
  {
    var separators := Separators(params);
    var collected := CollectHeaderLines(m.headers, params);
    if collected.None? {
      return Err(Plain(InvalidHeaderKey));
    }
    SortIgnoresOrder(collected.value, MapSeq(Enumerate(m.headers.Keys), LineFor(m.headers, params)));
    var lines := Sort(collected.value);
    var introduction := EscapeSeparators(m.introduction, separators);
    var body := EscapeSeparators(m.body, separators);
    r := Ok(Join([introduction, Join(lines, params.headerSeparator), body], params.messagePartSeparator));
  }

  // Properties

  /** Input with fewer than three parts, such as `dummy`, is rejected. */
  lemma ParseTooFewParts(data: bytes, params: SeparationParams)
    requires |SplitN3(data, params.messagePartSeparator)| < MESSAGE_PART_COUNT
    ensures Parse(data, params).Err?
    ensures Parse(data, params).error == Plain(InvalidPartCount(|SplitN3(data, params.messagePartSeparator)|))
  {
  }

  /** An empty escaped introduction fails before anything is unescaped,
      whatever the other parts hold. */
  lemma ParseEmptyIntroduction(rest: bytes, params: SeparationParams)
    requires |params.messagePartSeparator| > 0
    requires |SplitN3(params.messagePartSeparator + rest, params.messagePartSeparator)| == 3
    ensures Parse(params.messagePartSeparator + rest, params) == Err(Plain(IntroductionEmpty))
  {
    var sep := params.messagePartSeparator;
    var data := sep + rest;
    assert OccursAt(data, sep, 0);
    assert Index(data, sep) == 0;
  }

  /** A header line without the key-value separator is rejected. */
  lemma HeaderWithoutSeparator(line: bytes, kvSep: bytes, index: nat)
    requires !Contains(line, kvSep)
    ensures ParseHeaderLine(line, kvSep, index) == Err(Plain(NoKeyValueSeparator(index)))
  {
  }

  /** A header line whose escaped key is empty (the line starts with the
      key-value separator) is rejected before anything is unescaped. */
  lemma HeaderEmptyKey(rest: bytes, kvSep: bytes, index: nat)
    requires |kvSep| > 0
    ensures ParseHeaderLine(kvSep + rest, kvSep, index) == Err(Plain(HeaderKeyEmpty))
  {
    assert OccursAt(kvSep + rest, kvSep, 0);
  }

  /** A header line whose escaped value is empty (the line ends with its
      first key-value separator) is rejected, once its key unescapes. */
  lemma HeaderEmptyValue(key: bytes, c: byte, index: nat)
    requires key != [] && c !in key && Unescape(key).Ok?
    ensures ParseHeaderLine(key + [c], [c], index) == Err(Plain(HeaderValueEmpty))
  {
    FirstSingleAfterFree(key, c, []);
    assert key + [c] + [] == key + [c];
    assert (key + [c])[..|key|] == key;
  }

  /** Every way a header line can fail, and success exactly when none
      applies: no separator, an empty escaped key, a key that does not
      unescape, an empty escaped value, a value that does not unescape. */
  lemma ParseHeaderLineCases(line: bytes, kvSep: bytes, index: nat)
    ensures var i := Index(line, kvSep);
            var r := ParseHeaderLine(line, kvSep, index);
            (i == -1 ==> r == Err(Plain(NoKeyValueSeparator(index))))
            && (i == 0 ==> r == Err(Plain(HeaderKeyEmpty)))
            && (i > 0 ==> i + 1 <= |line|)
            && (i > 0 && Unescape(line[..i]).Err? ==> r == Err(Wrap(UnescapeHeaderKey, Unescape(line[..i]).error)))
            && (i > 0 && Unescape(line[..i]).Ok? && i + 1 == |line| ==> r == Err(Plain(HeaderValueEmpty)))
            && (i > 0 && Unescape(line[..i]).Ok? && i + 1 < |line| && Unescape(line[i + 1..]).Err?
                ==> r == Err(Wrap(UnescapeHeaderValue, Unescape(line[i + 1..]).error)))
            && (r.Ok? <==> i > 0 && Unescape(line[..i]).Ok? && i + 1 < |line| && Unescape(line[i + 1..]).Ok?)
  {
  }

  /** A header line that fails makes the whole header list fail. */
  lemma ParseHeadersLineFails(lines: seq<bytes>, kvSep: bytes, j: nat)
    requires j < |lines| && ParseHeaderLine(lines[j], kvSep, j).Err?
    ensures ParseHeaders(lines, kvSep).Err?
  {
    assert lines[..j + 1][..j] == lines[..j];
    assert lines[..j + 1][j] == lines[j];
    ParseHeadersPrefixFails(lines, kvSep, j + 1);
  }

  /** A later header overwrites an earlier one with the same key: the map
      holds the value of the last line that parses to a key. */
  lemma {:induction false} ParseHeadersLastWins(lines: seq<bytes>, kvSep: bytes, j: nat, key: bytes, value: bytes)
    requires ParseHeaders(lines, kvSep).Ok?
    requires j < |lines| && ParseHeaderLine(lines[j], kvSep, j) == Ok((key, value))
    requires forall l :: j < l < |lines| && ParseHeaderLine(lines[l], kvSep, l).Ok? ==>
               ParseHeaderLine(lines[l], kvSep, l).value.0 != key
    ensures key in ParseHeaders(lines, kvSep).value && ParseHeaders(lines, kvSep).value[key] == value
    decreases |lines|
  {
    var n := |lines| - 1;
    var prefix := lines[..n];
    var header := ParseHeaderLastStep(lines, kvSep);
    if j < n {
      assert prefix[j] == lines[j];
      forall l | j < l < |prefix| && ParseHeaderLine(prefix[l], kvSep, l).Ok?
        ensures ParseHeaderLine(prefix[l], kvSep, l).value.0 != key
      {
        assert prefix[l] == lines[l];
      }
      ParseHeadersLastWins(prefix, kvSep, j, key, value);
      assert header.0 != key;
    }
  }

  /** The last line of a list that parses: its header is added to the
      headers of the lines before it. */
  lemma ParseHeaderLastStep(lines: seq<bytes>, kvSep: bytes) returns (header: (bytes, bytes))
    requires lines != [] && ParseHeaders(lines, kvSep).Ok?
    ensures ParseHeaders(lines[..|lines| - 1], kvSep).Ok?
    ensures ParseHeaderLine(lines[|lines| - 1], kvSep, |lines| - 1) == Ok(header)
    ensures ParseHeaders(lines, kvSep).value
            == ParseHeaders(lines[..|lines| - 1], kvSep).value[header.0 := header.1]
  {
    header := ParseHeaderLine(lines[|lines| - 1], kvSep, |lines| - 1).value;
  }

  /** A field that does not unescape makes the whole message fail: the
      introduction, a header line or the body. */
  lemma ParseBadEscape(data: bytes, params: SeparationParams)
    requires var parts := SplitN3(data, params.messagePartSeparator);
             |parts| == MESSAGE_PART_COUNT
             && (Unescape(parts[0]).Err? || Unescape(parts[2]).Err?
                 || (|parts[1]| > 0
                     && (exists j :: 0 <= j < |Split(parts[1], params.headerSeparator)|
                           && ParseHeaderLine(Split(parts[1], params.headerSeparator)[j], params.headerKeyValueSeparator, j).Err?)))
    ensures Parse(data, params).Err?
  {
    var parts := SplitN3(data, params.messagePartSeparator);
    if |parts[1]| > 0 {
      var lines := Split(parts[1], params.headerSeparator);
      if j :| 0 <= j < |lines| && ParseHeaderLine(lines[j], params.headerKeyValueSeparator, j).Err? {
        ParseHeadersLineFails(lines, params.headerKeyValueSeparator, j);
      }
    }
  }

  /** With a multi-byte key-value separator the value keeps the separator's
      tail: `k:=v` with separator `:=` parses to the value `=v`. */
  lemma MultiByteSeparatorQuirk()
    ensures ParseHeaderLine([107, 58, 61, 118], [58, 61], 0) == Ok((Hex.Encode([107]), [61, 118]))
  {
    var line: bytes := [107, 58, 61, 118];
    assert OccursAt(line, [58, 61], 1);
    assert line[0..2][0] == 107;
    assert line[..1] == [107];
    assert line[2..] == [61, 118];
    UnescapeNoPercent([107]);
    UnescapeNoPercent([61, 118]);
  }

  /** A header line `key + [c] + value` whose key holds no `c` parses back
      to the unescaped key (as hexadecimal text) and value. */
  lemma SingleSeparatorLineParses(ek: bytes, ev: bytes, c: byte, rawKey: bytes, value: bytes, index: nat)
    requires c !in ek && ek != [] && ev != []
    requires Unescape(ek) == Ok(rawKey) && Unescape(ev) == Ok(value)
    ensures ParseHeaderLine(ek + [c] + ev, [c], index) == Ok((Hex.Encode(rawKey), value))
  {
    var line := ek + [c] + ev;
    FirstSingleAfterFree(ek, c, ev);
    assert line[..|ek|] == ek;
    assert line[|ek| + 1..] == ev;
  }

  /** A marshalled header line parses back to the hexadecimal key and the
      value, for single-byte separators. */
  lemma HeaderLineParses(rawKey: bytes, value: bytes, params: SeparationParams, index: nat)
    requires WellFormed(params) && rawKey != [] && value != []
    ensures HeaderLine(rawKey, value, params) ==
            Escape(rawKey, Separators(params)) + params.headerKeyValueSeparator + Escape(value, Separators(params))
    ensures ParseHeaderLine(HeaderLine(rawKey, value, params), params.headerKeyValueSeparator, index)
            == Ok((Hex.Encode(rawKey), value))
  {
    var seps := Separators(params);
    var c := params.headerKeyValueSeparator[0];
    assert params.headerKeyValueSeparator == [c];
    var ek := Escape(rawKey, seps);
    var ev := Escape(value, seps);
    EscapedField(params, rawKey);
    EscapedField(params, value);
    JoinPair(ek, ev, [c]);
    SingleSeparatorLineParses(ek, ev, c, rawKey, value, index);
  }

  /** Header lines that each parse to an entry of `target` parse to a part
      of `target` that holds every parsed key. */
  predicate HeaderFits(line: bytes, kvSep: bytes, index: nat, target: map<bytes, bytes>) {
    ParseHeaderLine(line, kvSep, index).Ok?
    && ParseHeaderLine(line, kvSep, index).value.0 in target
    && target[ParseHeaderLine(line, kvSep, index).value.0] == ParseHeaderLine(line, kvSep, index).value.1
  }

  lemma {:induction false} ParseHeadersFit(lines: seq<bytes>, kvSep: bytes, target: map<bytes, bytes>)
    requires forall i :: 0 <= i < |lines| ==> HeaderFits(lines[i], kvSep, i, target)
    ensures ParseHeaders(lines, kvSep).Ok?
    ensures forall k :: k in ParseHeaders(lines, kvSep).value ==>
              k in target && ParseHeaders(lines, kvSep).value[k] == target[k]
    ensures forall i :: 0 <= i < |lines| ==>
              ParseHeaderLine(lines[i], kvSep, i).Ok? &&
              ParseHeaderLine(lines[i], kvSep, i).value.0 in ParseHeaders(lines, kvSep).value
    decreases |lines|
  {
    if lines != [] {
      var init := lines[..|lines| - 1];
      forall i | 0 <= i < |init| ensures HeaderFits(init[i], kvSep, i, target) {
        assert init[i] == lines[i];
      }
      ParseHeadersFit(init, kvSep, target);
      forall i | 0 <= i < |lines| - 1
        ensures ParseHeaderLine(lines[i], kvSep, i).Ok?
        ensures ParseHeaderLine(lines[i], kvSep, i).value.0 in ParseHeaders(lines, kvSep).value
      {
        assert init[i] == lines[i];
      }
    }
  }

  /** Messages that survive a round trip: a non-empty introduction, and
      every stored key the lower-case hexadecimal text of a non-empty raw
      key, with a non-empty value. */
  predicate Marshallable(m: Message) {
    m.introduction != []
    && forall k :: k in m.headers ==> k != [] && Hex.IsLowerHex(k) && m.headers[k] != []
  }

  /** A stored key of a marshallable message decodes to a non-empty raw
      key that encodes back to it. */
  lemma StoredKeyDecodes(m: Message, params: SeparationParams, k: bytes)
    requires Marshallable(m) && k in m.headers
    ensures Hex.Decode(k).Some? && Hex.Decode(k).value != [] && Hex.Encode(Hex.Decode(k).value) == k
    ensures LineFor(m.headers, params)(k) == HeaderLine(Hex.Decode(k).value, m.headers[k], params)
  {
    Hex.EncodeDecode(k);
    assert |k| == 2 * |Hex.Decode(k).value|;
  }

  /** A marshalled header line is non-empty and holds neither the part
      nor the header separator. */
  lemma HeaderLineFree(rawKey: bytes, value: bytes, params: SeparationParams)
    requires WellFormed(params)
    ensures params.messagePartSeparator[0] !in HeaderLine(rawKey, value, params)
    ensures params.headerSeparator[0] !in HeaderLine(rawKey, value, params)
    ensures HeaderLine(rawKey, value, params) != []
  {
    EscapedField(params, rawKey);
    EscapedField(params, value);
    JoinPair(Escape(rawKey, Separators(params)), Escape(value, Separators(params)), params.headerKeyValueSeparator);
  }

  /** The line marshalled for one stored key parses back to that entry and
      holds neither the part nor the header separator. */
  lemma KeyLineParses(m: Message, params: SeparationParams, k: bytes, index: nat)
    requires WellFormed(params) && Marshallable(m) && k in m.headers
    ensures ParseHeaderLine(LineFor(m.headers, params)(k), params.headerKeyValueSeparator, index) == Ok((k, m.headers[k]))
    ensures HeaderFits(LineFor(m.headers, params)(k), params.headerKeyValueSeparator, index, m.headers)
    ensures params.messagePartSeparator[0] !in LineFor(m.headers, params)(k)
    ensures params.headerSeparator[0] !in LineFor(m.headers, params)(k)
    ensures LineFor(m.headers, params)(k) != []
  {
    StoredKeyDecodes(m, params, k);
    HeaderLineParses(Hex.Decode(k).value, m.headers[k], params, index);
    HeaderLineFree(Hex.Decode(k).value, m.headers[k], params);
  }

  /** Every key of `target` is the parsed key of some line. */
  predicate KeysCovered(lines: seq<bytes>, kvSep: bytes, target: map<bytes, bytes>) {
    forall k :: k in target ==>
      exists i :: 0 <= i < |lines| && ParseHeaderLine(lines[i], kvSep, i).Ok? && ParseHeaderLine(lines[i], kvSep, i).value.0 == k
  }

  /** The images under `line` of a map's keys, in any order, parse back to
      the map's entries, given that each image does whatever its position. */
  lemma {:induction false} ImagesFit(target: map<bytes, bytes>, line: bytes -> bytes, kvSep: bytes, lines: seq<bytes>)
    requires multiset(lines) == multiset(MapSeq(Enumerate(target.Keys), line))
    requires forall k, i: nat :: k in target ==>
               ParseHeaderLine(line(k), kvSep, i) == Ok((k, target[k]))
    ensures forall i :: 0 <= i < |lines| ==> HeaderFits(lines[i], kvSep, i, target)
    ensures KeysCovered(lines, kvSep, target)
  {
    ImagesOfSet(target.Keys, line, lines);
    forall i | 0 <= i < |lines| ensures HeaderFits(lines[i], kvSep, i, target) {
      assert exists k :: k in target.Keys && lines[i] == line(k);
      var k :| k in target.Keys && lines[i] == line(k);
      assert ParseHeaderLine(line(k), kvSep, i) == Ok((k, target[k]));
    }
    forall k | k in target
      ensures exists i :: 0 <= i < |lines| && ParseHeaderLine(lines[i], kvSep, i).Ok? && ParseHeaderLine(lines[i], kvSep, i).value.0 == k
    {
      assert line(k) in lines;
      var i :| 0 <= i < |lines| && lines[i] == line(k);
      assert ParseHeaderLine(line(k), kvSep, i) == Ok((k, target[k]));
    }
  }

  /** The images under `line` of a map's keys, in any order, avoid a byte
      that no image holds. */
  lemma ImagesFree(target: map<bytes, bytes>, line: bytes -> bytes, c: byte, lines: seq<bytes>)
    requires multiset(lines) == multiset(MapSeq(Enumerate(target.Keys), line))
    requires forall k :: k in target ==> c !in line(k) && line(k) != []
    ensures forall i :: 0 <= i < |lines| ==> c !in lines[i] && lines[i] != []
  {
    ImagesOfSet(target.Keys, line, lines);
    forall i | 0 <= i < |lines| ensures c !in lines[i] && lines[i] != [] {
      assert exists k :: k in target.Keys && lines[i] == line(k);
    }
  }

  /** Every marshalled header line, in any order, parses back to its own
      map entry, and every entry has a line. */
  lemma MarshalledLinesParse(m: Message, params: SeparationParams, lines: seq<bytes>)
    requires WellFormed(params) && Marshallable(m)
    requires multiset(lines) == multiset(MapSeq(Enumerate(m.headers.Keys), LineFor(m.headers, params)))
    ensures forall i :: 0 <= i < |lines| ==> HeaderFits(lines[i], params.headerKeyValueSeparator, i, m.headers)
    ensures KeysCovered(lines, params.headerKeyValueSeparator, m.headers)
  {
    var f := LineFor(m.headers, params);
    forall k, i: nat | k in m.headers
      ensures ParseHeaderLine(f(k), params.headerKeyValueSeparator, i) == Ok((k, m.headers[k]))
    {
      KeyLineParses(m, params, k, i);
    }
    ImagesFit(m.headers, f, params.headerKeyValueSeparator, lines);
  }

  /** No marshalled header line is empty or holds the part or the header
      separator. */
  lemma MarshalledLinesFree(m: Message, params: SeparationParams, lines: seq<bytes>, c: byte)
    requires WellFormed(params) && Marshallable(m)
    requires c == params.headerSeparator[0] || c == params.messagePartSeparator[0]
    requires multiset(lines) == multiset(MapSeq(Enumerate(m.headers.Keys), LineFor(m.headers, params)))
    ensures forall i :: 0 <= i < |lines| ==> c !in lines[i] && lines[i] != []
  {
    var f := LineFor(m.headers, params);
    forall k | k in m.headers
      ensures c !in f(k) && f(k) != []
    {
      KeyLineParses(m, params, k, 0);
    }
    ImagesFree(m.headers, f, c, lines);
  }

  /** Header lines that each parse to an entry of `target`, and cover all
      of its keys, parse to exactly `target`. */
  lemma HeadersFitExactly(lines: seq<bytes>, kvSep: bytes, target: map<bytes, bytes>)
    requires forall i :: 0 <= i < |lines| ==> HeaderFits(lines[i], kvSep, i, target)
    requires KeysCovered(lines, kvSep, target)
    ensures ParseHeaders(lines, kvSep) == Ok(target)
  {
    ParseHeadersFit(lines, kvSep, target);
    var parsed := ParseHeaders(lines, kvSep).value;
    assert parsed.Keys == target.Keys by {
      forall k | k in target ensures k in parsed {
        var i :| 0 <= i < |lines| && ParseHeaderLine(lines[i], kvSep, i).Ok? && ParseHeaderLine(lines[i], kvSep, i).value.0 == k;
      }
    }
    assert parsed == target;
  }

  /** Non-empty header lines that each parse to an entry of `target`, and
      cover all of its keys, parse back to `target` once joined. */
  lemma JoinedHeadersParse(lines: seq<bytes>, ch: byte, kvSep: bytes, target: map<bytes, bytes>)
    requires |lines| > 0
    requires forall i :: 0 <= i < |lines| ==> ch !in lines[i] && lines[i] != []
    requires forall i :: 0 <= i < |lines| ==> HeaderFits(lines[i], kvSep, i, target)
    requires KeysCovered(lines, kvSep, target)
    ensures Join(lines, [ch]) != []
    ensures ParseHeaders(Split(Join(lines, [ch]), [ch]), kvSep) == Ok(target)
  {
    assert Join(lines, [ch]) != [] by {
      assert lines[0] != [];
      JoinStartsWithFirst(lines, [ch]);
    }
    SplitJoinSingle(lines, ch);
    HeadersFitExactly(lines, kvSep, target);
  }

  /** Three parts joined by a single-byte part separator that occurs in
      neither of the first two parse part by part. */
  lemma JoinedPartsParse(parts: seq<bytes>, params: SeparationParams, m: Message)
    requires |parts| == 3 && |params.messagePartSeparator| == 1
    requires params.messagePartSeparator[0] !in parts[0] && params.messagePartSeparator[0] !in parts[1]
    requires parts[0] != [] && Unescape(parts[0]) == Ok(m.introduction) && Unescape(parts[2]) == Ok(m.body)
    requires parts[1] == [] ==> m.headers == map[]
    requires parts[1] != [] ==>
               ParseHeaders(Split(parts[1], params.headerSeparator), params.headerKeyValueSeparator) == Ok(m.headers)
    ensures Parse(Join(parts, params.messagePartSeparator), params) == Ok(m)
  {
    var cp := params.messagePartSeparator[0];
    assert params.messagePartSeparator == [cp];
    assert parts == [parts[0], parts[1], parts[2]];
    SplitN3JoinSingle(parts[0], parts[1], parts[2], cp);
  }

  /** Header lines that parse back to `headers`, joined, form a middle
      part that parses back to `headers`. */
  lemma HeadersPart(m: Message, params: SeparationParams, lines: seq<bytes>)
    requires WellFormed(params) && |lines| > 0
    requires forall i :: 0 <= i < |lines| ==> params.headerSeparator[0] !in lines[i] && lines[i] != []
    requires forall i :: 0 <= i < |lines| ==> HeaderFits(lines[i], params.headerKeyValueSeparator, i, m.headers)
    requires KeysCovered(lines, params.headerKeyValueSeparator, m.headers)
    ensures Join(lines, params.headerSeparator) != []
    ensures ParseHeaders(Split(Join(lines, params.headerSeparator), params.headerSeparator),
                         params.headerKeyValueSeparator) == Ok(m.headers)
  {
    var ch := params.headerSeparator[0];
    assert params.headerSeparator == [ch];
    JoinedHeadersParse(lines, ch, params.headerKeyValueSeparator, m.headers);
  }

  /** The escaped introduction and body of a message parse back. */
  lemma EscapedParts(m: Message, params: SeparationParams)
    requires WellFormed(params) && m.introduction != []
    ensures Unescape(Escape(m.introduction, Separators(params))) == Ok(m.introduction)
    ensures Escape(m.introduction, Separators(params)) != []
    ensures params.messagePartSeparator[0] !in Escape(m.introduction, Separators(params))
    ensures Unescape(Escape(m.body, Separators(params))) == Ok(m.body)
  {
    EscapedField(params, m.introduction);
    EscapedField(params, m.body);
  }

  /** Joined lines that hold no part separator hold none either. */
  lemma JoinedLinesFree(lines: seq<bytes>, params: SeparationParams)
    requires WellFormed(params)
    requires forall i :: 0 <= i < |lines| ==> params.messagePartSeparator[0] !in lines[i]
    ensures params.messagePartSeparator[0] !in Join(lines, params.headerSeparator)
  {
    SeparatorBytesDistinct(params);
    JoinFree(lines, params.headerSeparator, params.messagePartSeparator[0]);
  }

  /** The marshalled header part holds no part separator. */
  lemma MarshalledHeadersFree(m: Message, params: SeparationParams)
    requires WellFormed(params) && Marshallable(m)
    ensures params.messagePartSeparator[0] !in Join(SortedHeaderLines(m.headers, params), params.headerSeparator)
  {
    MarshalledLinesFree(m, params, SortedHeaderLines(m.headers, params), params.messagePartSeparator[0]);
    JoinedLinesFree(SortedHeaderLines(m.headers, params), params);
  }

  /** The marshalled header part is empty exactly without headers, and
      otherwise parses back to the headers. */
  lemma MarshalledHeadersParse(m: Message, params: SeparationParams)
    requires WellFormed(params) && Marshallable(m)
    ensures Join(SortedHeaderLines(m.headers, params), params.headerSeparator) == [] <==> m.headers == map[]
    ensures Join(SortedHeaderLines(m.headers, params), params.headerSeparator) != [] ==>
              ParseHeaders(Split(Join(SortedHeaderLines(m.headers, params), params.headerSeparator), params.headerSeparator),
                           params.headerKeyValueSeparator) == Ok(m.headers)
  {
    var all := MapSeq(Enumerate(m.headers.Keys), LineFor(m.headers, params));
    var lines := SortedHeaderLines(m.headers, params);
    if m.headers == map[] {
      assert |Enumerate(m.headers.Keys)| == 0;
      assert Join(lines, params.headerSeparator) == [];
    } else {
      var k :| k in m.headers;
      assert |Enumerate(m.headers.Keys)| > 0;
      assert all[0] in multiset(lines);
      MarshalledLinesParse(m, params, lines);
      MarshalledLinesFree(m, params, lines, params.headerSeparator[0]);
      HeadersPart(m, params, lines);
    }
  }

  /** A message without headers marshals to its escaped introduction and
      body around an empty middle part. */
  lemma MarshalNoHeaders(m: Message, params: SeparationParams)
    requires m.headers == map[]
    ensures Marshal(m, params) == Ok(Join([Escape(m.introduction, Separators(params)), [],
                                           Escape(m.body, Separators(params))], params.messagePartSeparator))
  {
    assert MapSeq(Enumerate(m.headers.Keys), LineFor(m.headers, params)) == [];
  }

  lemma MarshalEmptyParts(intro: bytes, params: SeparationParams)
    ensures Marshal(Message(intro, map[], []), params)
            == Ok(Join([Escape(intro, Separators(params)), [], Escape([], Separators(params))],
                       params.messagePartSeparator))
  {
    MarshalNoHeaders(Message(intro, map[], []), params);
  }

  /** A message with neither headers nor a body, whose introduction
      escaping leaves unchanged, is written as the introduction followed by
      two message-part separators. */
  lemma MarshalIntroductionOnly(intro: bytes, params: SeparationParams)
    requires Escape(intro, Separators(params)) == intro
    ensures Marshal(Message(intro, map[], []), params)
            == Ok(intro + params.messagePartSeparator + params.messagePartSeparator)
  {
    var mps := params.messagePartSeparator;
    var b := Escape([], Separators(params));
    MarshalEmptyParts(intro, params);
    EscapeEmpty(Separators(params));
    assert Join([intro, [], b], mps) == intro + mps + mps + b by {
      JoinTriple(intro, [], b, mps);
      assert intro + mps + [] == intro + mps;
    }
    assert b == [];
    assert intro + mps + mps + b == intro + mps + mps;
  }

  /** Round trip: parsing a marshalled message gives the message back,
      for single-byte, distinct, safe separators. */
  lemma ParseMarshal(m: Message, params: SeparationParams)
    requires WellFormed(params) && Marshallable(m)
    ensures Marshal(m, params).Ok? && Parse(Marshal(m, params).value, params) == Ok(m)
  {
    assert KeysDecodable(m.headers) by {
      forall k | k in m.headers ensures Hex.Decode(k).Some? { Hex.EncodeDecode(k); }
    }
    MarshalledHeadersFree(m, params);
    MarshalledHeadersParse(m, params);
    EscapedParts(m, params);
    JoinedPartsParse([Escape(m.introduction, Separators(params)),
                      Join(SortedHeaderLines(m.headers, params), params.headerSeparator),
                      Escape(m.body, Separators(params))], params, m);
  }
}
