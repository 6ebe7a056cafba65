/** The separator-based message format over the default protocol's models:
    the same three-part grammar as the raw message, but every field is
    validated by its value type after unescaping, and the result is
    assembled by the message builder. */
module MessageFormat {
  import opened Wrappers
  import opened Bytes
  import opened Errors
  import opened Escaping
  import opened Ordering
  import opened Collections
  import opened Separation
  import opened ValueTypes
  import opened Models
  import Raw = RawMessage
  import Hex

  const MESSAGE_PART_COUNT: nat := 3

  /** A constructor's failure, wrapped with the field it was building. */
  function Construct<T>(r: Result<T, Error>, k: Kind): (c: Result<T, Error>)
    ensures c.Ok? <==> r.Ok?
    ensures c.Ok? ==> c.value == r.value
    ensures c.Err? ==> c.error == Wrap(k, r.error)
  {
    match r
    case Ok(v) => Ok(v)
    case Err(e) => Err(Wrap(k, e))
  }

  // Parsing

  /** One `key=value` header: the key is cut at the first key-value
      separator and the value starts one byte after that position; both
      are unescaped and then validated. */
  function ParseHeaderField(line: bytes, kvSep: bytes, index: nat): Result<(HeaderKey, HeaderValue), Error> {
    var i := Index(line, kvSep);
    if i == -1 then Err(Plain(NoKeyValueSeparator(index)))
    else
      var rawKey :- Raw.UnescapeField(line[..i], UnescapeHeaderKey);
      var key :- Construct(NewHeaderKey(rawKey), ConstructHeaderKey);
      // the key is non-empty, so the separator is too and ends inside the line
      UnescapeEmpty(line[..i]);
      var rawValue :- Raw.UnescapeField(line[i + 1..], UnescapeHeaderValue);
      var value :- Construct(NewHeaderValue(rawValue), ConstructHeaderValue);
      Ok((key, value))
  }

  /** The headers of `lines`, in order, a later key overwriting an earlier
      one; the first failing header is the error. */
  function ParseFields(lines: seq<bytes>, kvSep: bytes): Result<Headers, Error>
    decreases |lines|
  {
    if lines == [] then Ok(map[])
    else
      var earlier :- ParseFields(lines[..|lines| - 1], kvSep);
      var field :- ParseHeaderField(lines[|lines| - 1], kvSep, |lines| - 1);
      Ok(earlier[field.0 := field.1])
  }

  /** What `MessageFormat.ParseMessage` computes. */
  function Parse(data: bytes, params: SeparationParams): Result<Message, Error> {
    var parts := SplitN3(data, params.messagePartSeparator);
    if |parts| < MESSAGE_PART_COUNT then Err(Plain(InvalidPartCount(|parts|)))
    else
      var rawIntroduction :- Raw.UnescapeField(parts[0], UnescapeIntroduction);
      var introduction :- Construct(NewIntroduction(rawIntroduction), ConstructIntroduction);
      var headers :-
        if |parts[1]| == 0 then Ok(map[])
        else ParseFields(Split(parts[1], params.headerSeparator), params.headerKeyValueSeparator);
      var rawBody :- Raw.UnescapeField(parts[2], UnescapeBody);
      Construct(BuiltMessage(Some(introduction), Some(headers), Some(rawBody)), BuildMessage)
  }

  /** Once a prefix of the headers fails, the whole list fails the same way. */
  lemma {:induction false} ParseFieldsPrefixFails(lines: seq<bytes>, kvSep: bytes, j: nat)
    requires j <= |lines| && ParseFields(lines[..j], kvSep).Err?
    ensures ParseFields(lines, kvSep) == ParseFields(lines[..j], kvSep)
    decreases |lines| - j
  {
    if j < |lines| {
      assert lines[..j + 1][..j] == lines[..j];
      ParseFieldsPrefixFails(lines, kvSep, j + 1);
    } else {
      assert lines[..j] == lines;
    }
  }

  /** One more line: the headers so far with that line's field added, or
      that line's error. */
  lemma ParseFieldsStep(lines: seq<bytes>, kvSep: bytes, index: nat, earlier: Headers)
    requires index < |lines| && ParseFields(lines[..index], kvSep) == Ok(earlier)
    ensures var field := ParseHeaderField(lines[index], kvSep, index);
            ParseFields(lines[..index + 1], kvSep)
            == if field.Err? then Err(field.error) else Ok(earlier[field.value.0 := field.value.1])
  {
    assert lines[..index + 1][..index] == lines[..index];
  }

  /** The header loop of `MessageFormat.ParseMessage`: fills a map in
      place, one line at a time, and stops at the first bad line. */
  method ParseHeaderLines(lines: seq<bytes>, kvSep: bytes) returns (r: Result<Headers, Error>)
    ensures r == ParseFields(lines, kvSep)
  {
    var rawHeaders: Headers := map[];
    for index := 0 to |lines|
      invariant ParseFields(lines[..index], kvSep) == Ok(rawHeaders)
    {
      ParseFieldsStep(lines, kvSep, index, rawHeaders);
      var line := lines[index];
      var separatorIndex := Index(line, kvSep);
      if separatorIndex == -1 {
        ParseFieldsPrefixFails(lines, kvSep, index + 1);
        return Err(Plain(NoKeyValueSeparator(index)));
      }
      var rawKey := UnescapeSeparators(line[..separatorIndex]);
      if rawKey.Err? {
        ParseFieldsPrefixFails(lines, kvSep, index + 1);
        return Err(Wrap(UnescapeHeaderKey, rawKey.error));
      }
      var key := NewHeaderKey(rawKey.value);
      if key.Err? {
        ParseFieldsPrefixFails(lines, kvSep, index + 1);
        return Err(Wrap(ConstructHeaderKey, key.error));
      }
      UnescapeEmpty(line[..separatorIndex]);
      var rawValue := UnescapeSeparators(line[separatorIndex + 1..]);
      if rawValue.Err? {
        ParseFieldsPrefixFails(lines, kvSep, index + 1);
        return Err(Wrap(UnescapeHeaderValue, rawValue.error));
      }
      var value := NewHeaderValue(rawValue.value);
      if value.Err? {
        ParseFieldsPrefixFails(lines, kvSep, index + 1);
        return Err(Wrap(ConstructHeaderValue, value.error));
      }
      rawHeaders := rawHeaders[key.value := value.value];
    }
    assert lines[..|lines|] == lines;
    return Ok(rawHeaders);
  }

  /** `MessageFormat.ParseMessage`: the header lines are parsed into a
      map, and a fresh message builder assembles the result. */
  method ParseMessage(data: bytes, params: SeparationParams) returns (r: Result<Message, Error>)
    ensures r == Parse(data, params)
  {
    var parts := SplitN3(data, params.messagePartSeparator);
    if |parts| < MESSAGE_PART_COUNT {
      return Err(Plain(InvalidPartCount(|parts|)));
    }
    var rawIntroduction := UnescapeSeparators(parts[0]);
    if rawIntroduction.Err? {
      return Err(Wrap(UnescapeIntroduction, rawIntroduction.error));
    }
    var introduction := NewIntroduction(rawIntroduction.value);
    if introduction.Err? {
      return Err(Wrap(ConstructIntroduction, introduction.error));
    }
    var rawHeaders: Headers := map[];
    if |parts[1]| != 0 {
      var parsed := ParseHeaderLines(Split(parts[1], params.headerSeparator), params.headerKeyValueSeparator);
      if parsed.Err? {
        return Err(parsed.error);
      }
      rawHeaders := parsed.value;
    }
    var rawBody := UnescapeSeparators(parts[2]);
    if rawBody.Err? {
      return Err(Wrap(UnescapeBody, rawBody.error));
    }
    var builder := new MessageBuilder();
    var _ := builder.SetIntroduction(introduction.value);
    var _ := builder.SetHeaders(rawHeaders);
    var _ := builder.SetBody(rawBody.value);
    var message := builder.Build();
    r := Construct(message, BuildMessage);
  }

  // Parsing errors

  /** Every way a header can fail, and success exactly when none applies:
      no separator, a key that does not unescape or is empty once
      unescaped, a value that does not unescape or is empty once
      unescaped. */
  lemma HeaderFieldCases(line: bytes, kvSep: bytes, index: nat)
    ensures var i := Index(line, kvSep);
            var r := ParseHeaderField(line, kvSep, index);
            var key := if i >= 0 then Unescape(line[..i]) else Ok([]);
            (i == -1 ==> r == Err(Plain(NoKeyValueSeparator(index))))
            && (i >= 0 && key.Err? ==> r == Err(Wrap(UnescapeHeaderKey, key.error)))
            && (i >= 0 && key == Ok([]) ==> r == Err(Wrap(ConstructHeaderKey, Plain(HeaderKeyEmpty))))
            && (i >= 0 && key.Ok? && key.value != [] ==> 0 < i < i + 1 <= |line|)
            && (i > 0 && key.Ok? && key.value != [] && Unescape(line[i + 1..]).Err?
                ==> r == Err(Wrap(UnescapeHeaderValue, Unescape(line[i + 1..]).error)))
            && (i > 0 && key.Ok? && key.value != [] && Unescape(line[i + 1..]) == Ok([])
                ==> r == Err(Wrap(ConstructHeaderValue, Plain(HeaderValueEmpty))))
            && (r.Ok? <==> i > 0 && key.Ok? && key.value != []
                           && Unescape(line[i + 1..]).Ok? && Unescape(line[i + 1..]).value != [])
  {
    var i := Index(line, kvSep);
    if i >= 0 && Unescape(line[..i]).Ok? {
      UnescapeEmpty(line[..i]);
    }
  }

  /** A header that fails makes the whole header list fail. */
  lemma ParseFieldsLineFails(lines: seq<bytes>, kvSep: bytes, j: nat)
    requires j < |lines| && ParseHeaderField(lines[j], kvSep, j).Err?
    ensures ParseFields(lines, kvSep).Err?
  {
    assert lines[..j + 1][..j] == lines[..j];
    assert lines[..j + 1][j] == lines[j];
    ParseFieldsPrefixFails(lines, kvSep, j + 1);
  }

  /** A field that does not unescape makes the whole message fail: the
      introduction, a header or the body. */
  lemma ParseBadEscape(data: bytes, params: SeparationParams)
    requires var parts := SplitN3(data, params.messagePartSeparator);
             |parts| == MESSAGE_PART_COUNT
             && (Unescape(parts[0]).Err? || Unescape(parts[2]).Err?
                 || (|parts[1]| > 0
                     && (exists j :: 0 <= j < |Split(parts[1], params.headerSeparator)|
                           && ParseHeaderField(Split(parts[1], params.headerSeparator)[j], params.headerKeyValueSeparator, j).Err?)))
    ensures Parse(data, params).Err?
  {
    var parts := SplitN3(data, params.messagePartSeparator);
    if |parts[1]| > 0 {
      var lines := Split(parts[1], params.headerSeparator);
      if j :| 0 <= j < |lines| && ParseHeaderField(lines[j], params.headerKeyValueSeparator, j).Err? {
        ParseFieldsLineFails(lines, params.headerKeyValueSeparator, j);
      }
    }
  }

  // Agreement with the raw message

  /** The typed headers holding the same stored keys and values as a raw
      header map. */
  function Typed(raw: map<bytes, bytes>): (r: Headers)
    ensures forall k :: k in r <==> k.encodedRawValue in raw
    ensures forall k :: k in r ==> r[k].ToBytes() == raw[k.encodedRawValue]
  {
    map k | k in raw :: HeaderKey(k) := HeaderValue(raw[k])
  }

  /** The typed message a raw message corresponds to, once a builder has
      dropped empty headers and an empty body. */
  function FromRaw(m: Raw.Message): Message {
    Message(Introduction(m.introduction), PresentHeaders(Some(Typed(m.headers))), PresentBody(Some(m.body)))
  }

  lemma TypedUpdate(raw: map<bytes, bytes>, k: bytes, v: bytes)
    ensures Typed(raw[k := v]) == Typed(raw)[HeaderKey(k) := HeaderValue(v)]
  {
  }

  /** A header parses under both grammars alike: emptiness checked before
      unescaping (raw) or after it (typed) rejects the same lines. */
  lemma FieldAgrees(line: bytes, kvSep: bytes, index: nat)
    ensures ParseHeaderField(line, kvSep, index).Ok? <==> Raw.ParseHeaderLine(line, kvSep, index).Ok?
    ensures ParseHeaderField(line, kvSep, index).Ok? ==>
              ParseHeaderField(line, kvSep, index).value ==
              (HeaderKey(Raw.ParseHeaderLine(line, kvSep, index).value.0),
               HeaderValue(Raw.ParseHeaderLine(line, kvSep, index).value.1))
  {
    var i := Index(line, kvSep);
    if i != -1 {
      if Unescape(line[..i]).Ok? {
        UnescapeEmpty(line[..i]);
        if i > 0 && Unescape(line[i + 1..]).Ok? {
          UnescapeEmpty(line[i + 1..]);
        }
      }
    }
  }

  /** Header lists parse under both grammars alike. */
  lemma {:induction false} FieldsAgree(lines: seq<bytes>, kvSep: bytes)
    ensures ParseFields(lines, kvSep).Ok? <==> Raw.ParseHeaders(lines, kvSep).Ok?
    ensures ParseFields(lines, kvSep).Ok? ==> ParseFields(lines, kvSep).value == Typed(Raw.ParseHeaders(lines, kvSep).value)
    decreases |lines|
  {
    if lines != [] {
      var init := lines[..|lines| - 1];
      FieldsAgree(init, kvSep);
      FieldAgrees(lines[|lines| - 1], kvSep, |lines| - 1);
      if Raw.ParseHeaders(lines, kvSep).Ok? {
        var h := Raw.ParseHeaderLine(lines[|lines| - 1], kvSep, |lines| - 1).value;
        TypedUpdate(Raw.ParseHeaders(init, kvSep).value, h.0, h.1);
      }
    }
  }

  /** The typed format accepts exactly what the raw format accepts and
      yields the same message, with empty headers and an empty body
      dropped. */
  lemma ParseAgreesWithRaw(data: bytes, params: SeparationParams)
    ensures Parse(data, params).Ok? <==> Raw.Parse(data, params).Ok?
    ensures Parse(data, params).Ok? ==> Parse(data, params).value == FromRaw(Raw.Parse(data, params).value)
  {
    var parts := SplitN3(data, params.messagePartSeparator);
    if |parts| >= MESSAGE_PART_COUNT {
      if Unescape(parts[0]).Ok? {
        UnescapeEmpty(parts[0]);
      }
      if |parts[1]| != 0 {
        FieldsAgree(Split(parts[1], params.headerSeparator), params.headerKeyValueSeparator);
      }
    }
  }

  // Marshalling

  /** A typed header map as the raw message stores it: each key's stored
      hexadecimal text mapped to the value's bytes. */
  function RawHeaders(headers: Headers): (r: map<bytes, bytes>)
    ensures forall e :: e in r <==> HeaderKey(e) in headers
    ensures forall k :: k in headers ==> r[k.encodedRawValue] == headers[k].ToBytes()
  {
    map k | k in headers :: k.encodedRawValue := headers[k].ToBytes()
  }

  /** A typed message as the raw message stores it; absent headers and an
      absent body are empty. */
  function ToRaw(m: Message): Raw.Message {
    Raw.Message(m.introduction.ToBytes(),
                if m.headers.Some? then RawHeaders(m.headers.value) else map[],
                if m.body.Some? then m.body.value else [])
  }

  /** What `MessageFormat.MarshalMessage` computes: the bytes the raw
      message format writes for the same fields (absent headers and body
      written as empty parts, header lines in byte order); a stored key
      that is not hexadecimal text is an error. */
  ghost function Marshal(m: Message, params: SeparationParams): Result<bytes, Error> {
    Construct(Raw.Marshal(ToRaw(m), params), HeaderKeyToBytes)
  }

  /** The line written for a typed key: the raw format's line for its
      stored text. */
  function TypedLineFor(headers: Headers, params: SeparationParams): HeaderKey -> bytes {
    (k: HeaderKey) => Raw.LineFor(RawHeaders(headers), params)(k.encodedRawValue)
  }

  /** The line written for a typed key is the raw format's line for its
      decoded key and its value. */
  lemma LineMatches(headers: Headers, params: SeparationParams, k: HeaderKey, rawKey: bytes)
    requires k in headers && k.ToBytes() == Ok(rawKey)
    ensures TypedLineFor(headers, params)(k) == Raw.HeaderLine(rawKey, headers[k].ToBytes(), params)
  {
    Hex.DecodeDefined(k.encodedRawValue);
    var raw := RawHeaders(headers);
    assert k.encodedRawValue in raw && raw[k.encodedRawValue] == headers[k].ToBytes();
    assert Hex.Decode(k.encodedRawValue) == Some(rawKey);
    assert TypedLineFor(headers, params)(k) == Raw.LineFor(raw, params)(k.encodedRawValue);
  }

  /** Lines collected per typed key are the lines the raw format collects
      per stored key. */
  lemma TypedLinesBag(headers: Headers, params: SeparationParams)
    ensures Bag(headers.Keys, TypedLineFor(headers, params))
            == multiset(MapSeq(Enumerate(RawHeaders(headers).Keys), Raw.LineFor(RawHeaders(headers), params)))
  {
    var raw := RawHeaders(headers);
    var f := Raw.LineFor(raw, params);
    var g := TypedLineFor(headers, params);
    var h := (k: HeaderKey) => k.encodedRawValue;
    forall e | e in raw.Keys ensures exists k :: k in headers.Keys && h(k) == e {
      assert h(HeaderKey(e)) == e;
    }
    BagImage(headers.Keys, h, raw.Keys, f, g);
    BagOfEnumerate(raw.Keys, f);
  }

  /** The header lines of the map, one per key, in the order the map is
      visited; a key whose stored text is not hexadecimal is an error. */
  method CollectHeaderLines(headers: Headers, params: SeparationParams) returns (r: Result<seq<bytes>, Error>)
    ensures r.Err? <==> !Raw.KeysDecodable(RawHeaders(headers))
    ensures r.Err? ==> r.error == Wrap(HeaderKeyToBytes, Plain(InvalidHeaderKey))
    ensures r.Ok? ==> multiset(r.value) == multiset(MapSeq(Enumerate(RawHeaders(headers).Keys), Raw.LineFor(RawHeaders(headers), params)))
  {
    ghost var g := TypedLineFor(headers, params);
    var remaining := headers.Keys;
    var lines: seq<bytes> := [];
    while remaining != {}
      invariant remaining <= headers.Keys
      invariant forall k :: k in headers && k !in remaining ==> Hex.Decode(k.encodedRawValue).Some?
      invariant multiset(lines) + Bag(remaining, g) == Bag(headers.Keys, g)
      decreases remaining
    {
      var headerKey :| headerKey in remaining;
      var rawKey := headerKey.ToBytes();
      if rawKey.Err? {
        assert !Raw.KeysDecodable(RawHeaders(headers)) by {
          Hex.DecodeDefined(headerKey.encodedRawValue);
        }
        return Err(Wrap(HeaderKeyToBytes, rawKey.error));
      }
      assert Hex.Decode(headerKey.encodedRawValue).Some? by {
        Hex.DecodeDefined(headerKey.encodedRawValue);
      }
      var line := Raw.EscapedHeaderLine(rawKey.value, headers[headerKey].ToBytes(), params);
      LineMatches(headers, params, headerKey, rawKey.value);
      BagStep(lines, remaining, g, headerKey);
      lines := lines + [line];
      remaining := remaining - {headerKey};
    }
    assert Raw.KeysDecodable(RawHeaders(headers)) by {
      forall e | e in RawHeaders(headers) ensures Hex.Decode(e).Some? {
        assert HeaderKey(e) in headers;
      }
    }
    TypedLinesBag(headers, params);
    return Ok(lines);
  }

  /** `MessageFormat.MarshalMessage`: header lines are collected while the
      map is visited in an arbitrary order, then sorted. */
  method MarshalMessage(m: Message, params: SeparationParams) returns (r: Result<bytes, Error>)
    ensures r == Marshal(m, params)
  {
    var separators := Separators(params);
    var headers: Headers := if m.headers.Some? then m.headers.value else map[];
    var collected := CollectHeaderLines(headers, params);
    if collected.Err? {
      return Err(collected.error);
    }
    ghost var raw := ToRaw(m).headers;
    assert raw == RawHeaders(headers);
    SortIgnoresOrder(collected.value, MapSeq(Enumerate(raw.Keys), Raw.LineFor(raw, params)));
    var sorted := Sort(collected.value);
    var introduction := EscapeSeparators(m.introduction.ToBytes(), separators);
    var body := EscapeSeparators(if m.body.Some? then m.body.value else [], separators);
    r := Ok(Join([introduction, Join(sorted, params.headerSeparator), body], params.messagePartSeparator));
  }

  // Properties

  /** Converting typed headers to the raw map and back is the identity. */
  lemma TypedRawHeaders(headers: Headers)
    ensures Typed(RawHeaders(headers)) == headers
  {
    var back := Typed(RawHeaders(headers));
    assert back.Keys == headers.Keys by {
      forall k | k in back ensures k in headers {
        assert HeaderKey(k.encodedRawValue) == k;
      }
    }
  }

  /** Messages that survive a round trip: a non-empty introduction,
      headers and body each absent or non-empty, and every header key and
      value as the value types build them (a key is the lower-case
      hexadecimal text of a non-empty raw key, a value is non-empty). */
  predicate Marshallable(m: Message) {
    |m.introduction.ToBytes()| > 0 && Normalised(m.headers, m.body)
    && (m.headers.Some? ==>
          forall k :: k in m.headers.value ==>
            k.encodedRawValue != [] && Hex.IsLowerHex(k.encodedRawValue) && |m.headers.value[k].ToBytes()| > 0)
  }

  /** Round trip: parsing a marshalled message gives the message back, for
      single-byte, distinct, safe separators. */
  lemma ParseMarshal(m: Message, params: SeparationParams)
    requires WellFormed(params) && Marshallable(m)
    ensures Marshal(m, params).Ok? && Parse(Marshal(m, params).value, params) == Ok(m)
  {
    var rm := ToRaw(m);
    assert Raw.Marshallable(rm);
    Raw.ParseMarshal(rm, params);
    ParseAgreesWithRaw(Raw.Marshal(rm, params).value, params);
    if m.headers.Some? {
      TypedRawHeaders(m.headers.value);
    }
    assert FromRaw(rm) == m;
  }

  /** `dummy`, the payload of the examples. */
  const DUMMY: bytes := [100, 117, 109, 109, 121]

  /** `dummy||` parses to a message without headers and without a body:
      the builder drops the empty ones. */
  lemma ParseExampleEmptyParts()
    ensures Parse(DUMMY + [124, 124], EXAMPLE_PARAMS) == Ok(Message(Introduction(DUMMY), None, None))
  {
    var data := DUMMY + [124, 124];
    assert data == DUMMY + [124] + [124];
    FirstSingleAfterFree(DUMMY, 124, [124]);
    assert data[5 + 1..] == [] + [124] + [];
    FirstSingleAfterFree([], 124, []);
    assert SplitN3(data, [124]) == [DUMMY, [], []];
    UnescapeNoPercent(DUMMY);
  }

  /** A message with only an introduction, which escaping leaves
      unchanged, marshals to the introduction and two empty parts. */
  lemma MarshalIntroductionOnly(intro: bytes, params: SeparationParams)
    requires Escape(intro, Separators(params)) == intro
    ensures Marshal(Message(Introduction(intro), None, None), params)
            == Ok(intro + params.messagePartSeparator + params.messagePartSeparator)
  {
    Raw.MarshalIntroductionOnly(intro, params);
    assert ToRaw(Message(Introduction(intro), None, None)) == Raw.Message(intro, map[], []);
  }

  lemma DummyNeedsNoEscape()
    ensures Escape(DUMMY, Separators(EXAMPLE_PARAMS)) == DUMMY
  {
    EscapeFree(DUMMY, Separators(EXAMPLE_PARAMS));
  }

  /** A message with only an introduction marshals to `dummy||`. */
  lemma MarshalExampleEmptyParts()
    ensures Marshal(Message(Introduction(DUMMY), None, None), EXAMPLE_PARAMS) == Ok(DUMMY + [124, 124])
  {
    DummyNeedsNoEscape();
    MarshalIntroductionOnly(DUMMY, EXAMPLE_PARAMS);
    assert DUMMY + [124] + [124] == DUMMY + [124, 124];
  }

  /** With a multi-byte key-value separator the value keeps the separator's
      tail: `k:=v` with separator `:=` gives the value `=v`. */
  lemma MultiByteSeparatorQuirk()
    ensures ParseHeaderField([107, 58, 61, 118], [58, 61], 0) == Ok((HeaderKey(Hex.Encode([107])), HeaderValue([61, 118])))
  {
    Raw.MultiByteSeparatorQuirk();
    FieldAgrees([107, 58, 61, 118], [58, 61], 0);
  }

  /** An introduction that is empty once unescaped is rejected by its
      value type, whatever the other parts hold. */
  lemma ParseEmptyIntroduction(rest: bytes, params: SeparationParams)
    requires |params.messagePartSeparator| > 0
    requires |SplitN3(params.messagePartSeparator + rest, params.messagePartSeparator)| == 3
    ensures Parse(params.messagePartSeparator + rest, params) == Err(Wrap(ConstructIntroduction, Plain(IntroductionEmpty)))
  {
    var sep := params.messagePartSeparator;
    assert OccursAt(sep + rest, sep, 0);
  }
}
