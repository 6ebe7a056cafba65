/** Hexadecimal text as Go's `encoding/hex` reads and writes it: encoding
    writes two lower-case digits per byte, decoding accepts either case. */
module Hex {
  import opened Wrappers
  import opened Bytes

  predicate IsHexDigit(b: byte) {
    (48 <= b <= 57) || (97 <= b <= 102) || (65 <= b <= 70)
  }

  predicate IsLowerHexDigit(b: byte) {
    (48 <= b <= 57) || (97 <= b <= 102)
  }

  /** The value of one hexadecimal digit. */
  function DigitValue(b: byte): (v: nat)
    requires IsHexDigit(b)
    ensures v < 16
  {
    if b <= 57 then b - 48 else if b >= 97 then b - 87 else b - 55
  }

  /** The lower-case digit for a value below 16. */
  function LowerDigit(v: nat): (b: byte)
    requires v < 16
    ensures IsLowerHexDigit(b) && IsHexDigit(b) && DigitValue(b) == v
  {
    if v < 10 then 48 + v else 87 + v
  }

  /** `hex.EncodeToString`. */
  function Encode(data: bytes): (r: bytes)
    ensures |r| == 2 * |data|
    ensures forall i :: 0 <= i < |r| ==> IsLowerHexDigit(r[i])
  {
    if data == [] then []
    else [LowerDigit(data[0] / 16), LowerDigit(data[0] % 16)] + Encode(data[1..])
  }

  /** `hex.DecodeString`: fails on an odd length or a non-hexadecimal byte. */
  function Decode(s: bytes): (r: Option<bytes>)
    decreases |s|
  {
    if s == [] then Some([])
    else if |s| == 1 || !IsHexDigit(s[0]) || !IsHexDigit(s[1]) then None
    else
      var rest :- Decode(s[2..]);
      Some([DigitValue(s[0]) * 16 + DigitValue(s[1])] + rest)
  }

  /** Text that `Encode` can produce: an even number of lower-case digits. */
  predicate IsLowerHex(s: bytes) {
    |s| % 2 == 0 && forall i :: 0 <= i < |s| ==> IsLowerHexDigit(s[i])
  }

  /** Decoding undoes encoding. */
  lemma {:induction false} DecodeEncode(data: bytes)
    ensures Decode(Encode(data)) == Some(data)
  {
    if data != [] {
      var e := Encode(data);
      assert e[2..] == Encode(data[1..]);
      DecodeEncode(data[1..]);
      assert [data[0]] + data[1..] == data;
    }
  }

  /** Lower-case hexadecimal text decodes, and encoding the result gives the
      text back. */
  lemma {:induction false} EncodeDecode(s: bytes)
    requires IsLowerHex(s)
    ensures Decode(s).Some? && Encode(Decode(s).value) == s
    decreases |s|
  {
    if s != [] {
      assert IsLowerHex(s[2..]);
      EncodeDecode(s[2..]);
      var b := DigitValue(s[0]) * 16 + DigitValue(s[1]);
      assert b / 16 == DigitValue(s[0]) && b % 16 == DigitValue(s[1]);
      assert LowerDigit(DigitValue(s[0])) == s[0];
      assert LowerDigit(DigitValue(s[1])) == s[1];
      assert s == [s[0], s[1]] + s[2..];
    }
  }

  /** Encoding is injective, so hex-keyed maps compare raw bytes. */
  lemma EncodeInjective(a: bytes, b: bytes)
    ensures Encode(a) == Encode(b) <==> a == b
  {
    if Encode(a) == Encode(b) {
      DecodeEncode(a);
      DecodeEncode(b);
    }
  }

  /** Text `hex.DecodeString` accepts: an even number of digits of either case. */
  predicate IsHex(s: bytes) {
    |s| % 2 == 0 && forall i :: 0 <= i < |s| ==> IsHexDigit(s[i])
  }

  /** Decoding succeeds exactly on hexadecimal text and halves its length. */
  lemma {:induction false} DecodeDefined(s: bytes)
    ensures Decode(s).Some? <==> IsHex(s)
    ensures Decode(s).Some? ==> 2 * |Decode(s).value| == |s|
    ensures IsLowerHex(s) ==> Decode(s).Some? && Encode(Decode(s).value) == s
    decreases |s|
  {
    if IsLowerHex(s) {
      EncodeDecode(s);
    }
    if |s| >= 2 {
      DecodeDefined(s[2..]);
      if IsHex(s) {
        assert IsHex(s[2..]) by {
          forall i | 0 <= i < |s[2..]| ensures IsHexDigit(s[2..][i]) {
            assert s[2..][i] == s[i + 2];
          }
        }
      } else if IsHexDigit(s[0]) && IsHexDigit(s[1]) {
        var i :| (0 <= i < |s| && !IsHexDigit(s[i])) || |s| % 2 != 0;
        if |s| % 2 == 0 {
          assert s[2..][i - 2] == s[i];
        }
      }
    }
  }
}
