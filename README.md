# Flexible polyline codec, modelled in Dafny

This project models the flexible-polyline codec in `flexpolyline.py`, HERE's compact text format
for coordinates, and proves its round trips and error behaviour. The codec works in four layers.

- **Alphabet.** 64 symbols: `A`–`Z`, `a`–`z`, `0`–`9`, `-`, `_`. A 78-slot decode table is
  indexed by character code minus 45. The model is in `alphabet.dfy`.
- **Unsigned varints.** Five bits per character, least significant first. Bit 0x20 of the table
  index says that the value continues. The model is in `varint.dfy`.
- **Zig-zag sign transform.** A signed delta `d` travels as `d << 1`, inverted when `d` is
  negative. The model is in `zigzag.dfy`.
- **Header.** Format version 1, then the precision in `[0, 15]`. Decoding keeps only the low four
  bits of the precision. The model is in `header.dfy`.

On top of these layers, `polyline.dfy` models:

- the single-point encoder `_encode`;
- the token decoder `_decode`, which sums the value pairs after the header into points and drops
  an odd trailing value;
- the batch forms of `encode` and `decode`.

Python's integer operations are written out on unbounded integers in `bits.dfy`:

- `<<` on a natural is repeated doubling (`Shl`). The sign step `value << 1` of `_encode_scaled_value` (flexpolyline.py:73) acts on a signed value, so `zigzag.dfy` writes it as `d * 2`;
- `~x` is `-x - 1`;
- `|` works one bit at a time;
- the masks `& 0x1F`, `& 15` and `& 1` are `%` by a power of two;
- `>>` is `/`, which floors for a positive divisor in both languages.

Raised exceptions become the `Err` side of a `Result`. The error kinds are listed in
`errors.dfy`.

Coordinates are the scaled integers the codec works on. A point `(lat, lng)` in degrees at
precision `p` is `Point(round(lat * 10^p), round(lng * 10^p))`. Each decoded token carries its
precision and its points in this scaled form.

Every loop of the source is a method proved against a specification function:

| method | models | specification function |
|---|---|---|
| `EncodeUnsignedVarint` | `_encode_unsigned_varint` | `Varint` |
| `DecodeUnsignedValues` | `_decode_unsigned_values` | `Scan` |
| `WalkDeltas` | the pairing loop of `_decode` | `Track` |
| `EncodeList` | `encode(..., is_list=True)` | `PointToken` per point |
| `DecodeList` | `decode(..., is_list=True)` | `DecodeAll` |

The lemmas then prove what the codec promises about those functions.

The lemmas about the codec read the two literal tables through two arithmetic views.

- `Symbol(i)` is the i-th character, and `SymbolIsTable` proves it equals `EncodingTable[i]`.
- `SlotIndex(k)` is what slot k holds, and `SlotIndexIsTable` proves it equals `DecodingTable[k]`.

Both equalities are proved slot by slot.

The varint round trip is proved in two steps. Scanning the characters equals gathering their
table positions (`Gather`), so the arithmetic of the round trip never touches the literal tables.

## Model

| member | source | states |
|---|---|---|
| Alphabet.TableSizes | flexpolyline.py:10-16 | The alphabet has 64 symbols and the decode table 78 slots. |
| Alphabet.SymbolIsTable | flexpolyline.py:10 | Character i of `ENCODING_TABLE` is the character at its slot plus 45: `A`–`Z`, `a`–`z`, `0`–`9`, `-`, `_`, in that order. |
| Alphabet.SlotIndexIsTable | flexpolyline.py:11-16 | Slot k of `DECODING_TABLE` holds the index of the character with code k + 45, or -1 when that code is not in the alphabet. |
| Alphabet.CharLandsOnIndex | flexpolyline.py:10-16 | For every index i in 0..63, the code of `ENCODING_TABLE[i]` minus 45 is a slot of `DECODING_TABLE`, and that slot holds i. |
| Alphabet.AllSlotsName | flexpolyline.py:11-16 | Every slot k of the decode table that is not -1 holds an index below 64 whose alphabet character has code k + 45. |
| Alphabet.DecodeChar | flexpolyline.py:139-149 | `_decode_char` with the intended range check. A successful lookup returns an index below 64 whose alphabet character is the input. Every failure is the invalid-character error. |
| Alphabet.DecodeCharReadsTable | flexpolyline.py:143-149 | `DecodeChar(c)` is the value of `DECODING_TABLE[ord(c) - 45]` when that slot exists and is not -1. In every other case it is the invalid-character error. |
| Alphabet.DecodeEncodeChar | flexpolyline.py:139-149 | Decoding the alphabet's character i gives back i. |
| Alphabet.DecodeCharAccepts | flexpolyline.py:139-149 | `_decode_char` succeeds exactly on the 64 characters of the alphabet. |
| Alphabet.DecodeCharAsWritten | flexpolyline.py:139-149 | `_decode_char` with Python's negative-index wrap. Any value it returns is below 64. It agrees with `DecodeChar` on every character with code 45 or more. |
| Alphabet.CommaReadsAsZ | flexpolyline.py:144-146 | `','` is outside the alphabet, yet the lookup as written returns 51, the index of `'z'`. `DecodeChar` rejects it. |
| Bits.OrDisjoint | flexpolyline.py:127 | `result \| (chunk << shift)` is a plain sum when `result` is below `1 << shift`, as it always is in the decoder. |
| VarintCodec.VarintMarks | flexpolyline.py:81-90 | Every encoding is non-empty and every character decodes. Exactly the characters before the last carry the continuation bit. |
| VarintCodec.VarintLength | flexpolyline.py:81-90 | The encoding is 1 character for v ≤ 31, else one more than that of v >> 5. v < 32^len, and for len > 1, 32^(len-1) ≤ v, so the encoding is minimal. |
| VarintCodec.VarintInAlphabet | flexpolyline.py:81-90 | Every character of an encoding is in `ENCODING_TABLE`. |
| VarintCodec.EncodeUnsignedVarint | flexpolyline.py:81-90 | The loop appends exactly `Varint(value)` to the buffer it is given. |
| VarintCodec.ExampleLatitude | flexpolyline.py:81-90 | 10020456 (the example latitude, zig-zagged) encodes as `oz5xJ`. |
| VarintCodec.ExampleLongitude | flexpolyline.py:81-90 | 1739642 (the example longitude, zig-zagged) encodes as `67i1B`. |
| VarintCodec.DecodeUnsignedValues | flexpolyline.py:121-137 | The character loop computes `Scan`. That is the values completed so far, appended to the input list, with an incomplete-encoding error if a value is still open at the end. |
| VarintCodec.ScanLooksUp | flexpolyline.py:124-132 | Scanning characters gives the same result as gathering their decoded table positions. |
| VarintCodec.GatherDigits | flexpolyline.py:127-133 | The positions of one encoded value complete that value. The bits gathered so far join the value shifted left by the current shift, and gathering restarts at shift 0. |
| VarintCodec.ChunkFits | flexpolyline.py:127 | After a five-bit chunk is added at `shift`, the gathered bits stay below `1 << (shift + 5)`. |
| VarintCodec.ChunkJoins | flexpolyline.py:127 | The low chunk at `shift` and the rest at `shift + 5` add up to the whole value at `shift`. |
| VarintCodec.RoundTrip | flexpolyline.py:121-137 | Decoding the concatenated encodings of any list of naturals gives back exactly that list. |
| VarintCodec.ScanRejectsForeign | flexpolyline.py:124-125 | A character outside the decode table anywhere in the input fails the decode with the invalid-character error. |
| VarintCodec.GatherOutcome | flexpolyline.py:127-135 | Gathering fails only with the incomplete-encoding error. It fails exactly when the last position still carries the continuation bit. |
| VarintCodec.ContinuesUpperHalf | flexpolyline.py:128 | A decodable character carries the continuation bit exactly when it is one of `g`–`z`, `0`–`9`, `-`, `_`. |
| VarintCodec.UpperHalfIsTable | flexpolyline.py:10 | Those characters are exactly `ENCODING_TABLE[32:]`. |
| VarintCodec.DecodeValuesOutcome | flexpolyline.py:121-137 | Decoding fails with the invalid-character error exactly when some character is outside the alphabet. It fails with the incomplete-encoding error exactly when every character is in the alphabet and the last is in its upper half. There is no other failure. |
| ZigZag.ToUnsigned | flexpolyline.py:71-75 | The forward transform is non-negative, and it is odd exactly for negative deltas. It equals 2·\|d\| or 2·\|d\| − 1, and `_to_signed` maps it back to d. |
| ZigZag.ToSigned | flexpolyline.py:161-166 | `_to_signed` returns a negative value exactly for odd inputs. Its input is `2·d` for d ≥ 0 and `~(2·d)` for d < 0. |
| ZigZag.ToUnsignedToSigned | flexpolyline.py:161-166 | Every unsigned value is the forward transform of its `_to_signed` image, so the transform is a bijection. |
| ZigZag.EncodeScaledValue | flexpolyline.py:69-79 | `_encode_scaled_value` appends the varint of the zig-zagged value. |
| Header.HeaderTwoChars | flexpolyline.py:60-67 | For precision 0..15, the header is exactly two characters: `'B'`, then `ENCODING_TABLE[precision]`. |
| Header.EncodeHeader | flexpolyline.py:60-67 | It fails with the precision-out-of-range error exactly when precision < 0 or > 15, and then writes nothing. Otherwise it appends `varint(1)` then `varint(precision)`. |
| Header.DecodeHeader | flexpolyline.py:151-159 | It succeeds exactly when there are at least two values and the first is 1. The precision it returns is ≤ 15 and differs from the second value by a multiple of 16. A wrong first value is the bad-version error, and too few values is the missing-header error. |
| Header.PrecisionIgnoresHighBits | flexpolyline.py:156-157 | Bits above the low four of the second value do not change the decoded header. |
| Header.HeaderRoundTrip | flexpolyline.py:151-159 | The values an accepted header writes decode back to its precision, whatever follows. |
| FlexPolyline.EncodePoint | flexpolyline.py:40-58 | `_encode` fails with the precision-out-of-range error exactly when the precision is outside [0, 15]. Otherwise it returns the header followed by both coordinates as zig-zag varints, measured from (0, 0). |
| FlexPolyline.PointTokenIsChain | flexpolyline.py:40-58 | The token for one point is the one-point case of a delta chain. |
| FlexPolyline.Decode | flexpolyline.py:92-119 | `_decode` decodes the values, checks the header, and walks the values after it. It returns what `DecodeToken` specifies, including every error. |
| FlexPolyline.WalkDeltas | flexpolyline.py:108-117 | The loop returns `Track`, which holds ⌊n/2⌋ points for n values. The value left over from an odd count is never read. |
| FlexPolyline.TrackPoint | flexpolyline.py:108-117 | Point k is the sum of the first k+1 signed latitude deltas and of the first k+1 signed longitude deltas. |
| FlexPolyline.TrackPrefixExtend | flexpolyline.py:108-113 | Values after the first 2m do not change the first m points. |
| FlexPolyline.DeltaStep | flexpolyline.py:111-113 | Adding the decoded delta from one point to the next restores the next point. |
| FlexPolyline.DeltaSumPrefix | flexpolyline.py:108-113 | The k-th running sum reads only the first 2k values. |
| FlexPolyline.TrackAppendPair | flexpolyline.py:111-113 | Each further pair of values adds exactly one point: the previous point (the origin at first) moved by the pair's signed deltas. |
| FlexPolyline.TrackDropsOdd | flexpolyline.py:108-110 | An odd trailing value adds no point. |
| FlexPolyline.TrackDeltas | flexpolyline.py:108-117 | The running sums undo the delta encoding of any list of points. |
| FlexPolyline.ChainRoundTrip | flexpolyline.py:92-119 | A token with a header and the deltas of any number of points decodes to exactly those points at the header's precision. |
| FlexPolyline.PointRoundTrip | flexpolyline.py:40-58 | Decoding the token `_encode` writes for a point at precision 0..15 gives back that single point and that precision. |
| FlexPolyline.EncodeList | flexpolyline.py:18-27 | The batch encode fails only on a non-empty list with a precision outside [0, 15]. Otherwise it returns one token per point, in order, each the single-point token. An empty list gives an empty result whatever the precision. |
| FlexPolyline.DecodeAllRows | flexpolyline.py:29-38 | The batch decode succeeds exactly when every token decodes to one point and flat rows are asked for. It then holds one result per token, in order, each that token's decoding. |
| FlexPolyline.DecodeList | flexpolyline.py:29-38 | The batch loop computes `DecodeAll`, and the first token that fails decides the error. |
| FlexPolyline.BatchRoundTrip | flexpolyline.py:18-38 | Decoding the batch-encoded tokens of a list of points gives one row per point, in order, at the precision used. |
| FlexPolyline.ExampleTokenParts | flexpolyline.py:48-58 | The token for the example point at precision 5 is the header `BF`, then `oz5xJ`, then `67i1B`. |
| FlexPolyline.ExamplePointToken | flexpolyline.py:40-58 | (50.1022829, 8.6982122) at precision 5, scaled to (5010228, 869821), encodes to `BFoz5xJ67i1B`. |
| FlexPolyline.ExamplePointDecodes | flexpolyline.py:92-119 | `BFoz5xJ67i1B` decodes to precision 5 and the single point (5010228, 869821). |

## Left out

- Floating point. The model does not cover the scaling `round(x * 10 ** precision)` (flexpolyline.py:50, 54), Python's round-half-to-even, or the division by `10.0 ** precision` on decode (flexpolyline.py:115, 117). Points are the scaled integers on both sides.
- numpy containers. Buffers and value lists are Dafny sequences. The model does not cover:
  - the `np.uint` dtype of the decoded values, and the conversion of values of 2^64 or more;
  - the dtype that `np.append` promotes to;
  - the copying done by `np.append` and `np.delete`.

  The model assumes the decoded values stay integers. By numpy's promotion rules, appending a Python int to the empty `np.uint` array (flexpolyline.py:95, 129) would make it float64. Read as written, `value & 15` (flexpolyline.py:157) and `value & 1` (flexpolyline.py:163) would then raise `TypeError`. This is read from the code, not executed.
- `is_here` on a single decode. It only changes the shape of the result (flat list or N×2 rows), so `Decode` returns the points either way. In batch decode the shape decides success, so it is modelled there.
- The `ShapeMismatch` error stands for numpy's own error when a decoded token cannot be stacked as one row.
- Error messages. Exceptions become error values. The source raises the same "Invalid encoding." for a bad character and for a truncated token, and the model gives these two distinct error kinds.
- Fewer than two decoded values. These fail in the source with a raw `IndexError`, which is modelled as the missing-header error.
- Alphabet.DecodeChar: checks the intended range `0 <= ord(c) - 45 < 78` instead of reproducing Python's negative-index wrap. `DecodeCharAsWritten` models the wrap (see Findings).
- The 24-character token `BFoz5xJ67i1BBLFn0ysgcIrJ`. It begins with the twelve characters `_encode` writes for the example point (`ExamplePointToken`) and decodes to four points. It is not worked through; decoding multi-point tokens is covered in general by `ChainRoundTrip`.

## Findings

| source | as written | input that shows it | evidently intended | confidence | as-written member | corrected member |
|---|---|---|---|---|---|---|
| flexpolyline.py:143-146 | `DECODING_TABLE[char_value - 45]` is guarded only by `except IndexError`, so a negative index reads from the end of the list | `','` (code 44) gives index -1, which reads slot 77 (value 51), so `','` decodes as if it were `'z'`; every code below 45 lands on slots 33–77 | reject every character outside the 64-symbol alphabet with "Invalid encoding." (proved for the corrected lookup by `DecodeCharAccepts`) | high; not executed | Alphabet.CommaReadsAsZ | Alphabet.DecodeChar |
