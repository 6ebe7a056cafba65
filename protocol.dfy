/** The separator-based protocol of the earlier package generation: the
    token splitter the buffered scanner is configured with, and requests
    and responses that are raw messages under another name. */
module SeparatorProtocol {
  import opened Wrappers
  import opened Bytes
  import opened Errors
  import opened Separation
  import Raw = RawMessage

  /** The scanner's initial buffer, as in package `bufio`. */
  function InitialScannerBufferSize(): (r: nat)
    ensures r == 4096
  {
    4 * 1024
  }

  /** The largest token the scanner accepts, as in package `bufio`. */
  function MaxTokenSize(): (r: nat)
    ensures r == 65536
  {
    64 * 1024
  }

  // Splitting the byte stream into messages

  /** What the split function tells the scanner. */
  datatype Extraction =
    /** Not enough data yet: read more and call again. */
    | MoreData
    /** A token, and how many bytes to drop before the next one. */
    | Token(advance: nat, token: bytes)
    /** The last token (`bufio.ErrFinalToken`); absent when the remaining
        data is empty, so that no empty token is produced. */
    | FinalToken(last: Option<bytes>)

  /** `ExtractToken`: the bytes before the first message separator form a
      token; without a separator the scanner either asks for more data or,
      at the end of the input, takes whatever is left as the final token. */
  function ExtractToken(data: bytes, isLatestData: bool, separator: bytes): (r: Extraction)
    ensures r.Token? <==> Contains(data, separator)
    ensures r.MoreData? <==> !Contains(data, separator) && !isLatestData
    ensures r.Token? ==> r.advance == |r.token| + |separator| <= |data|
                         && r.token == data[..|r.token|] && OccursAt(data, separator, |r.token|)
                         && forall j :: 0 <= j < |r.token| ==> !OccursAt(data, separator, j)
    ensures r.Token? && |separator| > 0 ==> !Contains(r.token, separator)
    ensures r.FinalToken? ==> (r.last.None? <==> data == []) && (r.last.Some? ==> r.last.value == data)
  {
    var separatorIndex := Index(data, separator);
    if separatorIndex == -1 then
      if !isLatestData then MoreData
      else if |data| == 0 then FinalToken(None)
      else FinalToken(Some(data))
    else
      var token := data[..separatorIndex];
      TokenFree(data, separator, separatorIndex);
      Token(separatorIndex + |separator|, token)
  }

  /** A prefix that ends before the first occurrence of `t` does not
      contain `t`. */
  lemma TokenFree(data: bytes, t: bytes, i: nat)
    requires i <= |data| && forall j :: 0 <= j < i ==> !OccursAt(data, t, j)
    ensures |t| > 0 ==> !Contains(data[..i], t)
  {
    if |t| > 0 && Contains(data[..i], t) {
      var j :| OccursAt(data[..i], t, j);
      assert data[..i][j..j + |t|] == data[j..j + |t|];
      assert OccursAt(data, t, j);
    }
  }

  /** Once a separator has arrived, the token does not depend on whether
      more data may follow. */
  lemma ExtractIgnoresLatest(data: bytes, separator: bytes)
    requires Contains(data, separator)
    ensures ExtractToken(data, true, separator) == ExtractToken(data, false, separator)
    ensures ExtractToken(data, true, separator).Token?
  {
  }

  /** The tokens a scanner yields when the whole input has arrived: the
      split function applied again and again to what is left. */
  function Tokens(data: bytes, separator: bytes): (r: seq<bytes>)
    requires |separator| > 0
    ensures forall i :: 0 <= i < |r| ==> !Contains(r[i], separator)
    decreases |data|
  {
    match ExtractToken(data, true, separator)
    case Token(advance, token) => [token] + Tokens(data[advance..], separator)
    case FinalToken(last) =>
      if last.Some? then [last.value] else []
    case MoreData => []
  }

  /** A token free of the separator, followed by the separator, is split
      off the front of the input. */
  lemma TokensCons(t: bytes, c: byte, rest: bytes)
    requires c !in t
    ensures Tokens(t + [c] + rest, [c]) == [t] + Tokens(rest, [c])
  {
    var data := t + [c] + rest;
    FirstSingleAfterFree(t, c, rest);
    assert data[..|t|] == t && data[|t| + 1..] == rest;
    assert OccursAt(data, [c], |t|);
  }

  /** The input without any separator is one token, or none when empty. */
  lemma TokensOfPiece(t: bytes, c: byte)
    requires c !in t
    ensures Tokens(t, [c]) == if t == [] then [] else [t]
  {
    ContainsSingle(t, c);
  }

  /** Non-empty pieces free of a one-byte separator, joined by it, are
      split back into the same pieces, whether or not the input ends with
      a separator; no empty token follows a trailing separator. */
  lemma {:induction false} TokensOfJoined(pieces: seq<bytes>, c: byte)
    requires forall i :: 0 <= i < |pieces| ==> |pieces[i]| > 0 && c !in pieces[i]
    ensures Tokens(Join(pieces, [c]), [c]) == pieces
    ensures |pieces| > 0 ==> Tokens(Join(pieces, [c]) + [c], [c]) == pieces
    decreases |pieces|
  {
    if |pieces| == 0 {
      TokensOfPiece([], c);
    } else if |pieces| == 1 {
      var t := pieces[0];
      assert Join(pieces, [c]) == t;
      TokensOfPiece(t, c);
      TokensCons(t, c, []);
      TokensOfPiece([], c);
      assert t + [c] + [] == t + [c];
    } else {
      var t := pieces[0];
      var rest := Join(pieces[1..], [c]);
      assert Join(pieces, [c]) == t + [c] + rest;
      TokensCons(t, c, rest);
      TokensCons(t, c, rest + [c]);
      assert t + [c] + rest + [c] == t + [c] + (rest + [c]);
      TokensOfJoined(pieces[1..], c);
      assert pieces == [t] + pieces[1..];
    }
  }

  /** `dummy #0`, `dummy #1` and `dummy #2`. */
  const DUMMY_0: bytes := [100, 117, 109, 109, 121, 32, 35, 48]
  const DUMMY_1: bytes := [100, 117, 109, 109, 121, 32, 35, 49]
  const DUMMY_2: bytes := [100, 117, 109, 109, 121, 32, 35, 50]

  /** `dummy #0\ndummy #1\ndummy #2` yields the same three tokens with or
      without a trailing separator. */
  lemma TokensExample()
    ensures Tokens(DUMMY_0 + [10] + DUMMY_1 + [10] + DUMMY_2, [10]) == [DUMMY_0, DUMMY_1, DUMMY_2]
    ensures Tokens(DUMMY_0 + [10] + DUMMY_1 + [10] + DUMMY_2 + [10], [10]) == [DUMMY_0, DUMMY_1, DUMMY_2]
  {
    var d0, d1, d2 := DUMMY_0, DUMMY_1, DUMMY_2;
    var pieces := [d0, d1, d2];
    assert Join(pieces, [10]) == d0 + [10] + d1 + [10] + d2 by {
      assert pieces[1..] == [d1, d2];
      JoinPair(d1, d2, [10]);
    }
    TokensOfJoined(pieces, 10);
  }

  // Requests and responses

  datatype Request = Request(action: bytes, headers: map<bytes, bytes>, body: bytes)

  datatype Response = Response(status: bytes, headers: map<bytes, bytes>, body: bytes)

  /** `ParseRequest`: the message's introduction becomes the action;
      headers and body are taken as they are. */
  function ParseRequest(data: bytes, params: SeparationParams): (r: Result<Request, Error>)
    ensures r.Ok? <==> Raw.Parse(data, params).Ok?
    ensures r.Err? ==> r.error == Wrap(ParseMessage, Raw.Parse(data, params).error)
    ensures r.Ok? ==> var m := Raw.Parse(data, params).value;
                      r.value.action == m.introduction && r.value.headers == m.headers && r.value.body == m.body
  {
    match Raw.Parse(data, params)
    case Err(e) => Err(Wrap(ParseMessage, e))
    case Ok(message) => Ok(Request(message.introduction, message.headers, message.body))
  }

  /** `ParseResponse`: the message's introduction becomes the status. */
  function ParseResponse(data: bytes, params: SeparationParams): (r: Result<Response, Error>)
    ensures r.Ok? <==> Raw.Parse(data, params).Ok?
    ensures r.Err? ==> r.error == Wrap(ParseMessage, Raw.Parse(data, params).error)
    ensures r.Ok? ==> var m := Raw.Parse(data, params).value;
                      r.value.status == m.introduction && r.value.headers == m.headers && r.value.body == m.body
  {
    match Raw.Parse(data, params)
    case Err(e) => Err(Wrap(ParseMessage, e))
    case Ok(message) => Ok(Response(message.introduction, message.headers, message.body))
  }

  /** `MarshalRequest`: the request written as a message whose
      introduction is the action. */
  ghost function MarshalRequest(request: Request, params: SeparationParams): (r: Result<bytes, Error>)
    ensures r.Ok? <==> Raw.KeysDecodable(request.headers)
    ensures r.Err? ==> r.error == Wrap(MarshalMessage, Plain(InvalidHeaderKey))
  {
    match Raw.Marshal(Raw.Message(request.action, request.headers, request.body), params)
    case Err(e) => Err(Wrap(MarshalMessage, e))
    case Ok(data) => Ok(data)
  }

  /** `MarshalResponse`: the response written as a message whose
      introduction is the status. */
  ghost function MarshalResponse(response: Response, params: SeparationParams): (r: Result<bytes, Error>)
    ensures r.Ok? <==> Raw.KeysDecodable(response.headers)
    ensures r.Err? ==> r.error == Wrap(MarshalMessage, Plain(InvalidHeaderKey))
  {
    match Raw.Marshal(Raw.Message(response.status, response.headers, response.body), params)
    case Err(e) => Err(Wrap(MarshalMessage, e))
    case Ok(data) => Ok(data)
  }

  /** A request with a non-empty action and non-empty, hexadecimal-keyed
      headers is parsed back from its marshalled form. */
  lemma RequestRoundTrip(request: Request, params: SeparationParams)
    requires WellFormed(params) && Raw.Marshallable(Raw.Message(request.action, request.headers, request.body))
    ensures MarshalRequest(request, params).Ok?
    ensures ParseRequest(MarshalRequest(request, params).value, params) == Ok(request)
  {
    Raw.ParseMarshal(Raw.Message(request.action, request.headers, request.body), params);
  }

  /** The same for a response. */
  lemma ResponseRoundTrip(response: Response, params: SeparationParams)
    requires WellFormed(params) && Raw.Marshallable(Raw.Message(response.status, response.headers, response.body))
    ensures MarshalResponse(response, params).Ok?
    ensures ParseResponse(MarshalResponse(response, params).value, params) == Ok(response)
  {
    Raw.ParseMarshal(Raw.Message(response.status, response.headers, response.body), params);
  }
}
