/** The four separators of the separator-based wire format. */
module Separation {
  import opened Bytes
  import opened Escaping
  import opened Wrappers

  datatype SeparationParams = SeparationParams(
    messageSeparator: bytes,
    messagePartSeparator: bytes,
    headerSeparator: bytes,
    headerKeyValueSeparator: bytes)

  /** The separators escaped in every field, in the order they are escaped. */
  function Separators(params: SeparationParams): seq<bytes> {
    [params.messageSeparator, params.messagePartSeparator,
     params.headerSeparator, params.headerKeyValueSeparator]
  }

  /** Parameters under which marshalling and parsing are inverse: each
      separator is a single byte that is neither `%` nor a hexadecimal
      digit, and the part, header and key-value separators differ (the
      `\n`, `|`, `&`, `=` of the examples qualify). */
  predicate WellFormed(params: SeparationParams) {
    |params.messageSeparator| == 1 && |params.messagePartSeparator| == 1
    && |params.headerSeparator| == 1 && |params.headerKeyValueSeparator| == 1
    && SafeSeparators(Separators(params))
    && params.messagePartSeparator != params.headerSeparator
    && params.messagePartSeparator != params.headerKeyValueSeparator
    && params.headerSeparator != params.headerKeyValueSeparator
  }

  /** Escaped fields contain none of the separator bytes and unescape to
      the original field. */
  lemma EscapedField(params: SeparationParams, x: bytes)
    requires WellFormed(params)
    ensures Unescape(Escape(x, Separators(params))) == Ok(x)
    ensures params.messagePartSeparator[0] !in Escape(x, Separators(params))
    ensures params.headerSeparator[0] !in Escape(x, Separators(params))
    ensures params.headerKeyValueSeparator[0] !in Escape(x, Separators(params))
    ensures Escape(x, Separators(params)) == [] <==> x == []
  {
    var seps := Separators(params);
    var e := Escape(x, seps);
    UnescapeEscape(x, seps);
    EscapeRemovesSeparators(x, seps);
    assert seps[1] == [params.messagePartSeparator[0]];
    assert seps[2] == [params.headerSeparator[0]];
    assert seps[3] == [params.headerKeyValueSeparator[0]];
    ContainsSingle(e, params.messagePartSeparator[0]);
    ContainsSingle(e, params.headerSeparator[0]);
    ContainsSingle(e, params.headerKeyValueSeparator[0]);
  }

  /** The single bytes of the part, header and key-value separators. */
  lemma SeparatorBytesDistinct(params: SeparationParams)
    requires WellFormed(params)
    ensures params.messagePartSeparator[0] !in params.headerSeparator
    ensures params.messagePartSeparator[0] !in params.headerKeyValueSeparator
    ensures params.headerSeparator[0] !in params.headerKeyValueSeparator
  {
  }

  /** The separators of the examples: `\n`, `|`, `&` and `=`. */
  const EXAMPLE_PARAMS := SeparationParams([10], [124], [38], [61])

  lemma ExampleParamsWellFormed()
    ensures WellFormed(EXAMPLE_PARAMS)
  {
  }
}
