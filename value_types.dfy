/** The value types of the default protocol's models: non-empty byte
    strings that validate on construction. A header key is stored as the
    lowercase hexadecimal encoding of its raw bytes, so that it can serve
    as a map key, and is decoded back on `ToBytes`. */
module ValueTypes {
  import opened Wrappers
  import opened Bytes
  import opened Errors
  import Hex

  datatype HeaderKey = HeaderKey(encodedRawValue: bytes) {
    /** Decodes the stored hexadecimal text back to the raw key; it fails
        exactly when that text is not hexadecimal. */
    function ToBytes(): (r: Result<bytes, Error>)
      ensures r.Ok? <==> Hex.IsHex(encodedRawValue)
      ensures r.Err? ==> r.error == Plain(InvalidHeaderKey)
      ensures r.Ok? ==> 2 * |r.value| == |encodedRawValue|
      ensures Hex.IsLowerHex(encodedRawValue) ==> r.Ok? && Hex.Encode(r.value) == encodedRawValue
    {
      Hex.DecodeDefined(encodedRawValue);
      match Hex.Decode(encodedRawValue)
      case None => Err(Plain(InvalidHeaderKey))
      case Some(raw) => Ok(raw)
    }
  }

  datatype HeaderValue = HeaderValue(rawValue: bytes) {
    function ToBytes(): bytes { rawValue }
  }

  datatype Introduction = Introduction(rawValue: bytes) {
    function ToBytes(): bytes { rawValue }
  }

  datatype Action = Action(rawValue: bytes) {
    function ToBytes(): bytes { rawValue }
  }

  datatype Status = Status(rawValue: bytes) {
    function ToBytes(): bytes { rawValue }
  }

  type Headers = map<HeaderKey, HeaderValue>

  /** A key is accepted exactly when it is non-empty; it is stored as lowercase
      hexadecimal and decodes back to the bytes it was made from. */
  function NewHeaderKey(rawValue: bytes): (r: Result<HeaderKey, Error>)
    ensures r.Ok? <==> |rawValue| > 0
    ensures r.Err? ==> r.error == Plain(HeaderKeyEmpty)
    ensures r.Ok? ==> Hex.IsLowerHex(r.value.encodedRawValue)
    ensures r.Ok? ==> |r.value.encodedRawValue| == 2 * |rawValue|
    ensures r.Ok? ==> r.value.ToBytes() == Ok(rawValue)
  {
    if |rawValue| == 0 then Err(Plain(HeaderKeyEmpty))
    else
      Hex.DecodeEncode(rawValue);
      Ok(HeaderKey(Hex.Encode(rawValue)))
  }

  /** `MustNewHeaderKey` panics on an empty key; here that is the caller's
      obligation. */
  function MustNewHeaderKey(rawValue: bytes): (r: HeaderKey)
    requires |rawValue| > 0
    ensures NewHeaderKey(rawValue) == Ok(r)
    ensures r.ToBytes() == Ok(rawValue)
  {
    NewHeaderKey(rawValue).value
  }

  /** Two successfully constructed keys are equal exactly when their raw
      bytes are. */
  lemma HeaderKeyInjective(a: bytes, b: bytes)
    requires NewHeaderKey(a).Ok? && NewHeaderKey(b).Ok?
    ensures NewHeaderKey(a).value == NewHeaderKey(b).value <==> a == b
  {
    Hex.EncodeInjective(a, b);
  }

  /** "dummy" is stored as "64756d6d79". */
  lemma HeaderKeyExample()
    ensures NewHeaderKey([100, 117, 109, 109, 121]) == Ok(HeaderKey([54, 52, 55, 53, 54, 100, 54, 100, 55, 57]))
  {
    var raw: bytes := [100, 117, 109, 109, 121];
    assert Hex.Encode(raw[4..]) == [55, 57];
    assert Hex.Encode(raw[3..]) == [54, 100] + Hex.Encode(raw[4..]);
    assert Hex.Encode(raw[2..]) == [54, 100] + Hex.Encode(raw[3..]);
    assert Hex.Encode(raw[1..]) == [55, 53] + Hex.Encode(raw[2..]);
    assert Hex.Encode(raw) == [54, 52] + Hex.Encode(raw[1..]);
    assert Hex.Encode(raw) == [54, 52, 55, 53, 54, 100, 54, 100, 55, 57];
    assert NewHeaderKey(raw) == Ok(HeaderKey(Hex.Encode(raw)));
  }

  /** A stored value that is not hexadecimal ("invalid") does not decode. */
  lemma HeaderKeyInvalid()
    ensures HeaderKey([105, 110, 118, 97, 108, 105, 100]).ToBytes().Err?
  {
  }

  function NewHeaderValue(rawValue: bytes): (r: Result<HeaderValue, Error>)
    ensures r.Ok? <==> |rawValue| > 0
    ensures r.Err? ==> r.error == Plain(HeaderValueEmpty)
    ensures r.Ok? ==> r.value.ToBytes() == rawValue
  {
    if |rawValue| == 0 then Err(Plain(HeaderValueEmpty)) else Ok(HeaderValue(rawValue))
  }

  /** `MustNewHeaderValue` panics on an empty value; here that is the
      caller's obligation. */
  function MustNewHeaderValue(rawValue: bytes): (r: HeaderValue)
    requires |rawValue| > 0
    ensures NewHeaderValue(rawValue) == Ok(r)
    ensures r.ToBytes() == rawValue
  {
    NewHeaderValue(rawValue).value
  }

  function NewIntroduction(rawValue: bytes): (r: Result<Introduction, Error>)
    ensures r.Ok? <==> |rawValue| > 0
    ensures r.Err? ==> r.error == Plain(IntroductionEmpty)
    ensures r.Ok? ==> r.value.ToBytes() == rawValue
  {
    if |rawValue| == 0 then Err(Plain(IntroductionEmpty)) else Ok(Introduction(rawValue))
  }

  function NewAction(rawValue: bytes): (r: Result<Action, Error>)
    ensures r.Ok? <==> |rawValue| > 0
    ensures r.Err? ==> r.error == Plain(ActionEmpty)
    ensures r.Ok? ==> r.value.ToBytes() == rawValue
  {
    if |rawValue| == 0 then Err(Plain(ActionEmpty)) else Ok(Action(rawValue))
  }

  function NewStatus(rawValue: bytes): (r: Result<Status, Error>)
    ensures r.Ok? <==> |rawValue| > 0
    ensures r.Err? ==> r.error == Plain(StatusEmpty)
    ensures r.Ok? ==> r.value.ToBytes() == rawValue
  {
    if |rawValue| == 0 then Err(Plain(StatusEmpty)) else Ok(Status(rawValue))
  }
}
