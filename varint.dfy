/** Unsigned variable-length integers over the 64-symbol alphabet: five data bits per
    character, least significant first, with bit 0x20 of the table index set on every
    character but the last. */
module VarintCodec {
  import opened Errors
  import opened Bits
  import opened Alphabet

  /** The characters `_encode_unsigned_varint` appends for `v` (`Symbol(i)` is
      `ENCODING_TABLE[i]`, by SymbolIsTable). */
  function Varint(v: nat): string
    decreases v
  {
    if v <= 0x1F then [Symbol(v)]
    else [Symbol(v % 0x20 + 0x20)] + Varint(v / 0x20)
  }

  /** Bit 0x20 of a table index: set while the value continues on the next character. */
  predicate Continues(index: nat) {
    index / 0x20 % 2 == 1
  }

  /** Every character of the encoding decodes, and exactly the characters before the last
      carry the continuation bit. */
  lemma {:induction false} VarintMarks(v: nat)
    ensures |Varint(v)| >= 1
    ensures forall i | 0 <= i < |Varint(v)| ::
      DecodeChar(Varint(v)[i]).Ok? && (Continues(DecodeChar(Varint(v)[i]).value) <==> i < |Varint(v)| - 1)
    decreases v
  {
    var s := Varint(v);
    if v <= 0x1F {
      DecodeEncodeChar(v);
      assert v / 0x20 == 0;
    } else {
      var head := v % 0x20 + 0x20;
      var tail := Varint(v / 0x20);
      VarintMarks(v / 0x20);
      DecodeEncodeChar(head);
      assert head / 0x20 == 1;
      assert s == [Symbol(head)] + tail;
      forall i | 0 <= i < |s|
        ensures DecodeChar(s[i]).Ok? && (Continues(DecodeChar(s[i]).value) <==> i < |s| - 1)
      {
        if i > 0 {
          assert s[i] == tail[i - 1];
        }
      }
    }
  }

  /** 32 to the power k: the values that fit in k characters are those below it. */
  function Pow32(k: nat): (r: nat)
    ensures r >= 1
  {
    if k == 0 then 1 else 0x20 * Pow32(k - 1)
  }

  /** The encoding is minimal: its length is the number of base-32 digits of v, so v fits in
      the characters written and would not fit in one fewer. */
  lemma {:induction false} VarintLength(v: nat)
    ensures |Varint(v)| == if v <= 0x1F then 1 else 1 + |Varint(v / 0x20)|
    ensures v < Pow32(|Varint(v)|)
    ensures |Varint(v)| > 1 ==> Pow32(|Varint(v)| - 1) <= v
    decreases v
  {
    if v <= 0x1F {
      assert Pow32(1) == 0x20;
    } else {
      var q := v / 0x20;
      var n := |Varint(q)|;
      VarintLength(q);
      assert |Varint(v)| == n + 1;
      assert Pow32(n + 1) == 0x20 * Pow32(n);
      assert v == 0x20 * q + v % 0x20;
      assert q + 1 <= Pow32(n);
      assert 0x20 * (q + 1) <= 0x20 * Pow32(n);
      if n > 1 {
        assert Pow32(n) == 0x20 * Pow32(n - 1);
        assert 0x20 * Pow32(n - 1) <= 0x20 * q;
      }
    }
  }

  /** Every character of an encoding is in the alphabet. */
  lemma VarintInAlphabet(v: nat)
    ensures forall c | c in Varint(v) :: c in EncodingTable
  {
    VarintMarks(v);
    forall c | c in Varint(v)
      ensures c in EncodingTable
    {
      DecodeCharAccepts(c);
    }
  }

  /** `_encode_unsigned_varint`: append the encoding of `value` to the buffer `res`. */
  method EncodeUnsignedVarint(value: nat, res: string) returns (out: string)
    ensures out == res + Varint(value)
  {
    var v: nat := value;
    out := res;
    while v > 0x1F
      invariant out + Varint(v) == res + Varint(value)
      decreases v
    {
      var pos := Or(v % 0x20, 0x20);  // (value & 0x1F) | 0x20
      ShlFive(1);
      OrDisjoint(v % 0x20, 1, 5);
      out := out + [Symbol(pos)];  // ENCODING_TABLE[pos]
      v := v / 0x20;  // value >>= 5
    }
    out := out + [Symbol(v)];
  }

  /** The encodings of the example point's coordinates at precision 5, zig-zagged:
      5010228 becomes 10020456 and 869821 becomes 1739642. */
  lemma ExampleLatitude()
    ensures Varint(10020456) == "oz5xJ"
  {
    assert Varint(9) == [Symbol(9)] && Symbol(9) == 'J';
    assert Varint(305) == [Symbol(49)] + Varint(9) && Symbol(49) == 'x';
    assert Varint(9785) == [Symbol(57)] + Varint(305) && Symbol(57) == '5';
    assert Varint(313139) == [Symbol(51)] + Varint(9785) && Symbol(51) == 'z';
    assert Varint(10020456) == [Symbol(40)] + Varint(313139) && Symbol(40) == 'o';
  }

  lemma ExampleLongitude()
    ensures Varint(1739642) == "67i1B"
  {
    assert Varint(1) == [Symbol(1)] && Symbol(1) == 'B';
    assert Varint(53) == [Symbol(53)] + Varint(1) && Symbol(53) == '1';
    assert Varint(1698) == [Symbol(34)] + Varint(53) && Symbol(34) == 'i';
    assert Varint(54363) == [Symbol(59)] + Varint(1698) && Symbol(59) == '7';
    assert Varint(1739642) == [Symbol(58)] + Varint(54363) && Symbol(58) == '6';
  }

  /** The encodings of `vs`, one after the other. */
  function VarintConcat(vs: seq<nat>): string
  {
    if vs == [] then [] else Varint(vs[0]) + VarintConcat(vs[1..])
  }

  /** `_decode_unsigned_values` as a left-to-right scan: `result` holds the bits gathered so far
      for the current value, `shift` where the next five bits go, and `acc` the values completed. */
  function Scan(s: string, result: nat, shift: nat, acc: seq<nat>): Result<seq<nat>>
    decreases |s|
  {
    if s == [] then
      if shift > 0 then Err(IncompleteEncoding) else Ok(acc)
    else
      match DecodeChar(s[0])
      case Err(e) => Err(e)
      case Ok(index) =>
        var gathered := Or(result, Shl(index % 0x20, shift));  // result |= (value & 0x1F) << shift
        if !Continues(index) then Scan(s[1..], 0, 0, acc + [gathered])
        else Scan(s[1..], gathered, shift + 5, acc)
  }

  /** The unsigned values a token holds. */
  function DecodeValues(s: string): Result<seq<nat>> {
    Scan(s, 0, 0, [])
  }

  /** `_decode_unsigned_values`: decode every character of `encoded`, appending the completed
      values to `decoded`. */
  method DecodeUnsignedValues(encoded: string, decoded: seq<nat>) returns (r: Result<seq<nat>>)
    ensures r == Scan(encoded, 0, 0, decoded)
  {
    var values := decoded;
    var result: nat, shift: nat := 0, 0;
    for i := 0 to |encoded|
      invariant Scan(encoded, 0, 0, decoded) == Scan(encoded[i..], result, shift, values)
    {
      ghost var rest := encoded[i..];
      assert rest[0] == encoded[i] && rest[1..] == encoded[i + 1..];
      var value :- DecodeChar(encoded[i]);
      result := Or(result, Shl(value % 0x20, shift));
      if !Continues(value) {
        values := values + [result];
        result, shift := 0, 0;
      } else {
        shift := shift + 5;
      }
    }
    assert encoded[|encoded|..] == [];
    if shift > 0 {
      return Err(IncompleteEncoding);
    }
    return Ok(values);
  }

  /** Table positions: the indices of a token's characters in the 64-symbol table. */
  predicate InAlphabet(ix: seq<nat>) {
    forall i | 0 <= i < |ix| :: ix[i] < 0x40
  }

  /** The characters at the table positions `ix`. */
  function Spell(ix: seq<nat>): string
    requires InAlphabet(ix)
  {
    if ix == [] then [] else [Symbol(ix[0])] + Spell(ix[1..])
  }

  lemma {:induction false} SpellAppend(a: seq<nat>, b: seq<nat>)
    requires InAlphabet(a) && InAlphabet(b)
    ensures InAlphabet(a + b) && Spell(a + b) == Spell(a) + Spell(b)
    decreases |a|
  {
    if a == [] {
      assert a + b == b;
    } else {
      SpellAppend(a[1..], b);
      assert (a + b)[1..] == a[1..] + b;
    }
  }

  /** The table positions `_encode_unsigned_varint` looks up for `v`. */
  function Digits(v: nat): seq<nat>
    decreases v
  {
    if v <= 0x1F then [v] else [v % 0x20 + 0x20] + Digits(v / 0x20)
  }

  lemma {:induction false} VarintSpellsDigits(v: nat)
    ensures InAlphabet(Digits(v)) && Varint(v) == Spell(Digits(v))
    decreases v
  {
    if v > 0x1F {
      VarintSpellsDigits(v / 0x20);
      assert Digits(v)[1..] == Digits(v / 0x20);
    }
  }

  /** `Scan` once every character has been looked up: the same gathering of five-bit chunks,
      over table positions. */
  function Gather(ix: seq<nat>, result: nat, shift: nat, acc: seq<nat>): Result<seq<nat>>
    decreases |ix|
  {
    if ix == [] then
      if shift > 0 then Err(IncompleteEncoding) else Ok(acc)
    else
      var gathered := Or(result, Shl(ix[0] % 0x20, shift));
      if !Continues(ix[0]) then Gather(ix[1..], 0, 0, acc + [gathered])
      else Gather(ix[1..], gathered, shift + 5, acc)
  }

  /** Every character of `s` decodes to the table position beside it in `ix`. */
  predicate LooksUp(s: string, ix: seq<nat>) {
    |ix| == |s| && forall i | 0 <= i < |s| :: DecodeChar(s[i]) == Ok(ix[i])
  }

  lemma {:induction false} SpellLooksUp(ix: seq<nat>)
    requires InAlphabet(ix)
    ensures LooksUp(Spell(ix), ix)
    decreases |ix|
  {
    if ix != [] {
      var s := Spell(ix);
      SpellLooksUp(ix[1..]);
      DecodeEncodeChar(ix[0]);
      forall i | 0 <= i < |s|
        ensures DecodeChar(s[i]) == Ok(ix[i])
      {
        if i > 0 {
          assert s[i] == Spell(ix[1..])[i - 1];
        }
      }
    }
  }

  /** Scanning characters gathers exactly what their table positions do. */
  lemma {:induction false} ScanLooksUp(s: string, ix: seq<nat>, result: nat, shift: nat, acc: seq<nat>)
    requires LooksUp(s, ix)
    ensures Scan(s, result, shift, acc) == Gather(ix, result, shift, acc)
    decreases |ix|
  {
    if ix != [] {
      assert DecodeChar(s[0]) == Ok(ix[0]);
      assert LooksUp(s[1..], ix[1..]) by {
        forall i | 0 <= i < |s| - 1
          ensures DecodeChar(s[1..][i]) == Ok(ix[1..][i])
        {
          assert s[1..][i] == s[i + 1];
        }
      }
      ScanLooksUp(s[1..], ix[1..], 0, 0, acc + [Or(result, Shl(ix[0] % 0x20, shift))]);
      ScanLooksUp(s[1..], ix[1..], Or(result, Shl(ix[0] % 0x20, shift)), shift + 5, acc);
    }
  }

  /** Gathering the positions of one encoded value completes it: the bits gathered so far,
      below `shift`, join the value shifted left by `shift`. */
  lemma {:induction false} GatherDigits(v: nat, rest: seq<nat>, result: nat, shift: nat, acc: seq<nat>)
    requires result < Shl(1, shift)
    ensures Gather(Digits(v) + rest, result, shift, acc)
         == Gather(rest, 0, 0, acc + [result + Shl(v, shift)])
    decreases v
  {
    var ix := Digits(v) + rest;
    if v <= 0x1F {
      assert ix[0] == v && ix[1..] == rest;
      assert v % 0x20 == v && v / 0x20 == 0;
      OrDisjoint(result, v, shift);
    } else {
      assert ix[0] == v % 0x20 + 0x20 && ix[1..] == Digits(v / 0x20) + rest;
      assert ix[0] % 0x20 == v % 0x20 && ix[0] / 0x20 == 1;
      OrDisjoint(result, v % 0x20, shift);
      ChunkFits(result, v % 0x20, shift);
      GatherDigits(v / 0x20, rest, result + Shl(v % 0x20, shift), shift + 5, acc);
      ChunkJoins(v, result, shift);
    }
  }

  /** Adding a five-bit chunk at `shift` keeps the gathered bits below `shift + 5`. */
  lemma ChunkFits(result: nat, chunk: nat, shift: nat)
    requires result < Shl(1, shift) && chunk < 0x20
    ensures result + Shl(chunk, shift) < Shl(1, shift + 5)
  {
    ShlAdd(chunk, 1, shift);
    ShlMonotone(chunk + 1, 0x20, shift);
    ShlShl(1, 5, shift);
    ShlFive(1);
  }

  /** The low chunk of v at `shift` and the rest of v at `shift + 5` make up v at `shift`. */
  lemma ChunkJoins(v: nat, result: nat, shift: nat)
    ensures result + Shl(v % 0x20, shift) + Shl(v / 0x20, shift + 5) == result + Shl(v, shift)
  {
    ShlShl(v / 0x20, 5, shift);
    ShlFive(v / 0x20);
    ShlAdd(v % 0x20, 0x20 * (v / 0x20), shift);
  }

  /** The table positions of `VarintConcat(vs)`. */
  function DigitsConcat(vs: seq<nat>): seq<nat>
  {
    if vs == [] then [] else Digits(vs[0]) + DigitsConcat(vs[1..])
  }

  lemma {:induction false} VarintConcatSpells(vs: seq<nat>)
    ensures InAlphabet(DigitsConcat(vs)) && VarintConcat(vs) == Spell(DigitsConcat(vs))
    decreases |vs|
  {
    if vs != [] {
      VarintSpellsDigits(vs[0]);
      VarintConcatSpells(vs[1..]);
      SpellAppend(Digits(vs[0]), DigitsConcat(vs[1..]));
    }
  }

  lemma {:induction false} GatherDigitsConcat(vs: seq<nat>, acc: seq<nat>)
    ensures Gather(DigitsConcat(vs), 0, 0, acc) == Ok(acc + vs)
    decreases |vs|
  {
    if vs == [] {
      assert acc + vs == acc;
    } else {
      GatherDigits(vs[0], DigitsConcat(vs[1..]), 0, 0, acc);
      GatherDigitsConcat(vs[1..], acc + [vs[0]]);
      assert acc + [vs[0]] + vs[1..] == acc + vs;
    }
  }

  /** Round trip: decoding the concatenated encodings of vs gives back exactly vs. */
  lemma RoundTrip(vs: seq<nat>)
    ensures DecodeValues(VarintConcat(vs)) == Ok(vs)
  {
    VarintConcatSpells(vs);
    SpellLooksUp(DigitsConcat(vs));
    ScanLooksUp(VarintConcat(vs), DigitsConcat(vs), 0, 0, []);
    GatherDigitsConcat(vs, []);
    assert [] + vs == vs;
  }

  /** A character outside the alphabet anywhere in the input fails the scan, whatever was
      gathered before it. */
  lemma {:induction false} ScanRejectsForeign(s: string, i: nat, result: nat, shift: nat, acc: seq<nat>)
    requires i < |s| && DecodeChar(s[i]).Err?
    ensures Scan(s, result, shift, acc) == Err(InvalidCharacter)
    decreases i
  {
    if i > 0 && DecodeChar(s[0]).Ok? {
      var index := DecodeChar(s[0]).value;
      assert s[1..][i - 1] == s[i];
      ScanRejectsForeign(s[1..], i - 1, 0, 0, acc + [Or(result, Shl(index % 0x20, shift))]);
      ScanRejectsForeign(s[1..], i - 1, Or(result, Shl(index % 0x20, shift)), shift + 5, acc);
    }
  }

  /** Gathering can only fail at the end, and fails exactly when the last position still
      continues (with no positions, when a value was left open). */
  lemma {:induction false} GatherOutcome(ix: seq<nat>, result: nat, shift: nat, acc: seq<nat>)
    ensures Gather(ix, result, shift, acc).Err? ==> Gather(ix, result, shift, acc).error == IncompleteEncoding
    ensures Gather(ix, result, shift, acc).Err? <==> if ix == [] then shift > 0 else Continues(ix[|ix| - 1])
    decreases |ix|
  {
    if ix != [] {
      var gathered := Or(result, Shl(ix[0] % 0x20, shift));
      GatherOutcome(ix[1..], 0, 0, acc + [gathered]);
      GatherOutcome(ix[1..], gathered, shift + 5, acc);
      if |ix| > 1 {
        assert ix[1..][|ix| - 2] == ix[|ix| - 1];
      }
    }
  }

  /** The upper half of the alphabet, `ENCODING_TABLE[32..]`: 'g'..'z', '0'..'9', '-' and '_'. */
  predicate UpperHalf(c: char) {
    'g' <= c <= 'z' || '0' <= c <= '9' || c == '-' || c == '_'
  }

  /** The characters that carry the continuation bit are the upper half of the table. */
  lemma ContinuesUpperHalf(c: char)
    requires DecodeChar(c).Ok?
    ensures Continues(DecodeChar(c).value) <==> UpperHalf(c)
  {
  }

  /** UpperHalf is the upper half of the literal table. */
  lemma UpperHalfIsTable(c: char)
    ensures UpperHalf(c) <==> c in EncodingTable[0x20..]
  {
    TableSizes();
    if c in EncodingTable[0x20..] {
      var m :| 0 <= m < 0x20 && EncodingTable[0x20..][m] == c;
      SymbolIsTable(m + 0x20);
    }
    if UpperHalf(c) {
      assert DecodeChar(c).Ok?;
      var j := DecodeChar(c).value;
      assert j >= 0x20;
      SymbolIsTable(j);
      assert EncodingTable[0x20..][j - 0x20] == c;
    }
  }

  /** `_decode_unsigned_values` rejects its input exactly when some character is outside the
      alphabet, or when every character is in it and the last still continues; the first
      failure is reported as an invalid character, the second as an incomplete encoding. */
  lemma DecodeValuesOutcome(s: string)
    ensures DecodeValues(s) == Err(InvalidCharacter) <==> exists i | 0 <= i < |s| :: s[i] !in EncodingTable
    ensures DecodeValues(s) == Err(IncompleteEncoding)
        <==> (forall i | 0 <= i < |s| :: s[i] in EncodingTable) && s != [] && UpperHalf(s[|s| - 1])
    ensures DecodeValues(s).Err? ==> DecodeValues(s).error in {InvalidCharacter, IncompleteEncoding}
  {
    if i :| 0 <= i < |s| && s[i] !in EncodingTable {
      DecodeCharAccepts(s[i]);
      ScanRejectsForeign(s, i, 0, 0, []);
    } else {
      forall i | 0 <= i < |s|
        ensures DecodeChar(s[i]).Ok?
      {
        DecodeCharAccepts(s[i]);
      }
      var ix := seq(|s|, i requires 0 <= i < |s| => DecodeChar(s[i]).value);
      assert LooksUp(s, ix);
      ScanLooksUp(s, ix, 0, 0, []);
      GatherOutcome(ix, 0, 0, []);
      if s != [] {
        ContinuesUpperHalf(s[|s| - 1]);
      }
    }
  }
}
