/** The token header: the format version, then the precision, each as an unsigned varint. */
module Header {
  import opened Errors
  import opened Alphabet
  import opened VarintCodec

  /** `FORMAT_VERSION`: the only header version a token may carry. */
  const FormatVersion: nat := 1

  /** The characters `_encode_header` appends for an accepted precision. */
  function HeaderChars(precision: nat): string {
    Varint(FormatVersion) + Varint(precision)
  }

  /** A header is always two characters: 'B' (version 1), then the precision's own symbol. */
  lemma HeaderTwoChars(precision: nat)
    requires precision <= 15
    ensures HeaderChars(precision) == ['B', EncodingTable[precision]]
  {
    SymbolIsTable(1);
    SymbolIsTable(precision);
    assert Varint(FormatVersion) == [Symbol(1)];
    assert Varint(precision) == [Symbol(precision)];
  }

  /** `_encode_header`: reject a precision outside [0, 15] before writing anything, otherwise
      append the version and the precision to `res`. */
  method EncodeHeader(precision: int, res: string) returns (r: Result<string>)
    ensures r.Ok? <==> 0 <= precision <= 15
    ensures r.Err? ==> r.error == PrecisionOutOfRange
    ensures r.Ok? ==> r.value == res + HeaderChars(precision)
  {
    if precision < 0 || precision > 15 {
      return Err(PrecisionOutOfRange);
    }
    var out := EncodeUnsignedVarint(FormatVersion, res);
    out := EncodeUnsignedVarint(precision, out);
    assert out == res + HeaderChars(precision);
    return Ok(out);
  }

  /** `_decode_header`: the first value must be the format version; the precision is the low
      four bits of the second (`& 15`). A token with fewer than two values has no header. */
  function DecodeHeader(values: seq<nat>): (r: Result<nat>)
    ensures r.Ok? <==> |values| >= 2 && values[0] == FormatVersion
    ensures r.Ok? ==> r.value <= 15 && values[1] - r.value == 16 * (values[1] / 16)
    ensures r.Err? ==> r.error == if |values| >= 1 && values[0] != FormatVersion
                                 then InvalidFormatVersion else MissingHeaderValue
  {
    if |values| < 1 then Err(MissingHeaderValue)
    else if values[0] != FormatVersion then Err(InvalidFormatVersion)
    else if |values| < 2 then Err(MissingHeaderValue)
    else Ok(values[1] % 16)
  }

  /** Bits of the second value above the low four do not change the precision. */
  lemma {:induction false} PrecisionIgnoresHighBits(version: nat, low: nat, high: nat, rest: seq<nat>)
    requires low <= 15
    ensures DecodeHeader([version, low + 16 * high] + rest) == DecodeHeader([version, low] + rest)
  {
    var values := [version, low + 16 * high] + rest;
    assert values[0] == version && values[1] == low + 16 * high;
    assert ([version, low] + rest)[1] == low;
    assert (low + 16 * high) % 16 == low;
  }

  /** Decoding the values an accepted header writes gives back its precision. */
  lemma HeaderRoundTrip(precision: nat, rest: seq<nat>)
    requires precision <= 15
    ensures DecodeHeader([FormatVersion, precision] + rest) == Ok(precision)
  {
    var values := [FormatVersion, precision] + rest;
    assert values[0] == FormatVersion && values[1] == precision;
  }
}
