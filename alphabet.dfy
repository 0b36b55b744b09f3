/** The 64-symbol alphabet of flexible polylines and its inverse decode table. */
module Alphabet {
  import opened Errors

  const UpperCase: string := "ABCDEFGHIJKLMNOPQRSTUVWXYZ"
  const LowerCase: string := "abcdefghijklmnopqrstuvwxyz"
  const DigitsAndMarks: string := "0123456789-_"

  /** Table index to character: upper-case letters, lower-case letters, digits, '-' and '_'. */
  const EncodingTable: string := UpperCase + LowerCase + DigitsAndMarks

  /** Character code minus Offset to table index; -1 marks a code outside the alphabet.
      Written as the four rows of the original table. */
  const DecodingTable: seq<int> :=
    [62, -1, -1, 52, 53, 54, 55, 56, 57, 58, 59, 60, 61, -1, -1, -1, -1, -1, -1, -1] +
    [0, 1, 2, 3, 4, 5, 6, 7, 8, 9, 10, 11, 12, 13, 14, 15, 16, 17, 18, 19, 20, 21] +
    [22, 23, 24, 25, -1, -1, -1, -1, 63, -1, 26, 27, 28, 29, 30, 31, 32, 33, 34, 35] +
    [36, 37, 38, 39, 40, 41, 42, 43, 44, 45, 46, 47, 48, 49, 50, 51]

  /** The number of symbols, and the number of slots of the decode table. */
  const AlphabetSize: nat := 64
  const SlotCount: nat := 78

  lemma TableSizes()
    ensures |EncodingTable| == AlphabetSize && |DecodingTable| == SlotCount
  {
  }

  /** The character code that DecodingTable[0] stands for (the code of '-'). */
  const Offset: int := 45

  /** Slot k of the decode table is unmapped, or holds the index of the character with code k + Offset. */
  predicate SlotNamesItsChar(k: nat)
    requires k < |DecodingTable|
  {
    DecodingTable[k] < 0 || (DecodingTable[k] < |EncodingTable| && EncodingTable[DecodingTable[k]] as int == k + Offset)
  }

  /** The decode-table slot of table index i, from the layout of the alphabet:
      'A'..'Z' sit at slots 20..45, 'a'..'z' at 52..77, '0'..'9' at 3..12, '-' at 0 and '_' at 50. */
  function SlotOf(i: nat): nat
    requires i < AlphabetSize
  {
    if i < 26 then i + 20
    else if i < 52 then i + 26
    else if i < 62 then i - 49
    else if i == 62 then 0
    else 50
  }

  /** Character i of the alphabet, computed from its slot: the same character as
      `EncodingTable[i]` (SymbolIsTable), in a form the rest of the model reasons about
      without unfolding the literal table. */
  function Symbol(i: nat): char
    requires i < AlphabetSize
  {
    (SlotOf(i) + Offset) as char
  }

  /** What slot k of the decode table holds, computed from the layout of the alphabet: the
      same value as `DecodingTable[k]` (SlotIndexIsTable), -1 for an unmapped slot. */
  function SlotIndex(k: int): int {
    if 20 <= k < 46 then k - 20
    else if 52 <= k < 78 then k - 26
    else if 3 <= k < 13 then k + 49
    else if k == 0 then 62
    else if k == 50 then 63
    else -1
  }

  /** SlotIndex inverts SlotOf, in both directions. */
  lemma SlotIndexOfSlot(i: nat)
    requires i < AlphabetSize
    ensures SlotIndex(SlotOf(i)) == i
  {
  }

  lemma SlotOfSlotIndex(k: int)
    requires SlotIndex(k) >= 0
    ensures SlotIndex(k) < AlphabetSize && SlotOf(SlotIndex(k)) == k
  {
  }

  // The table facts below are checked one value at a time: each empty case lets the
  // verifier evaluate the literal tables at that value.

  /** The character codes of the three parts of the alphabet. */
  lemma UpperCaseCodes(j: nat)
    requires j < |UpperCase|
    ensures UpperCase[j] as int == 'A' as int + j
  {
    match j
    case 0 => case 1 => case 2 => case 3 => case 4 => case 5 => case 6 => case 7 =>
    case 8 => case 9 => case 10 => case 11 => case 12 => case 13 => case 14 => case 15 =>
    case 16 => case 17 => case 18 => case 19 => case 20 => case 21 => case 22 => case 23 =>
    case 24 => case 25 =>
  }

  lemma LowerCaseCodes(j: nat)
    requires j < |LowerCase|
    ensures LowerCase[j] as int == 'a' as int + j
  {
    match j
    case 0 => case 1 => case 2 => case 3 => case 4 => case 5 => case 6 => case 7 =>
    case 8 => case 9 => case 10 => case 11 => case 12 => case 13 => case 14 => case 15 =>
    case 16 => case 17 => case 18 => case 19 => case 20 => case 21 => case 22 => case 23 =>
    case 24 => case 25 =>
  }

  lemma DigitsAndMarksCodes(j: nat)
    requires j < |DigitsAndMarks|
    ensures DigitsAndMarks[j] as int == if j < 10 then '0' as int + j else if j == 10 then '-' as int else '_' as int
  {
    match j
    case 0 => case 1 => case 2 => case 3 => case 4 => case 5 => case 6 => case 7 =>
    case 8 => case 9 => case 10 => case 11 =>
  }

  /** Character i of the encode table is Symbol(i). */
  lemma SymbolIsTable(i: nat)
    requires i < AlphabetSize
    ensures i < |EncodingTable| && EncodingTable[i] == Symbol(i)
  {
    TableSizes();
    if i < 26 { UpperCaseCodes(i); }
    else if i < 52 { LowerCaseCodes(i - 26); }
    else { DigitsAndMarksCodes(i - 52); }
  }

  /** Slot k of the decode table holds SlotIndex(k): the first two rows. */
  lemma SlotIndexIsTableLow(k: nat)
    requires k < 42
    ensures DecodingTable[k] == SlotIndex(k)
  {
    match k
    case 0 => case 1 => case 2 => case 3 => case 4 => case 5 => case 6 => case 7 =>
    case 8 => case 9 => case 10 => case 11 => case 12 => case 13 => case 14 => case 15 =>
    case 16 => case 17 => case 18 => case 19 => case 20 => case 21 => case 22 => case 23 =>
    case 24 => case 25 => case 26 => case 27 => case 28 => case 29 => case 30 => case 31 =>
    case 32 => case 33 => case 34 => case 35 => case 36 => case 37 => case 38 => case 39 =>
    case 40 => case 41 =>
  }

  /** The same for the last two rows. */
  lemma SlotIndexIsTableHigh(k: nat)
    requires 42 <= k < 78
    ensures DecodingTable[k] == SlotIndex(k)
  {
    match k
    case 42 => case 43 => case 44 => case 45 => case 46 => case 47 => case 48 => case 49 =>
    case 50 => case 51 => case 52 => case 53 => case 54 => case 55 => case 56 => case 57 =>
    case 58 => case 59 => case 60 => case 61 => case 62 => case 63 => case 64 => case 65 =>
    case 66 => case 67 => case 68 => case 69 => case 70 => case 71 => case 72 => case 73 =>
    case 74 => case 75 => case 76 => case 77 =>
  }

  lemma SlotIndexIsTable(k: nat)
    requires k < |DecodingTable|
    ensures DecodingTable[k] == SlotIndex(k)
  {
    if k < 42 { SlotIndexIsTableLow(k); } else { SlotIndexIsTableHigh(k); }
  }

  /** Every mapped slot of the decode table names its own character. */
  lemma AllSlotsName(k: nat)
    requires k < |DecodingTable|
    ensures SlotNamesItsChar(k)
  {
    SlotIndexIsTable(k);
    if DecodingTable[k] >= 0 {
      SlotOfSlotIndex(k);
      SymbolIsTable(DecodingTable[k]);
    }
  }

  /** The decode table inverts the encode table: character i of the alphabet lands on a slot holding i. */
  lemma CharLandsOnIndex(i: nat)
    requires i < |EncodingTable|
    ensures 0 <= EncodingTable[i] as int - Offset < |DecodingTable|
    ensures DecodingTable[EncodingTable[i] as int - Offset] == i
  {
    TableSizes();
    SymbolIsTable(i);
    SlotIndexOfSlot(i);
    SlotIndexIsTable(SlotOf(i));
  }

  /** `_decode_char`: look a character up in the decode table, read through SlotIndex.
      The original indexes the table with `ord(c) - 45` and relies on IndexError for codes past
      the end; for codes below 45 Python's negative indexing would read from the end of the
      table instead. The model checks the intended domain `0 <= ord(c) - 45 < 78`. */
  function DecodeChar(c: char): (r: Result<nat>)
    ensures r.Ok? ==> r.value < AlphabetSize && Symbol(r.value) == c
    ensures r.Err? ==> r.error == InvalidCharacter
  {
    var index := c as int - Offset;
    if !(0 <= index < SlotCount) then Err(InvalidCharacter)
    else if SlotIndex(index) < 0 then Err(InvalidCharacter)
    else
      SlotOfSlotIndex(index);
      Ok(SlotIndex(index))
  }

  /** DecodeChar is the lookup of `ord(c) - 45` in the literal decode table, with -1 and
      codes outside the table rejected. */
  lemma DecodeCharReadsTable(c: char)
    ensures var index := c as int - Offset;
      DecodeChar(c) == if !(0 <= index < |DecodingTable|) || DecodingTable[index] < 0 then Err(InvalidCharacter)
                       else Ok(DecodingTable[index])
  {
    TableSizes();
    var index := c as int - Offset;
    if 0 <= index < |DecodingTable| {
      SlotIndexIsTable(index);
    }
  }

  /** Decoding a character of the alphabet gives back its table index. */
  lemma DecodeEncodeChar(i: nat)
    requires i < AlphabetSize
    ensures DecodeChar(Symbol(i)) == Ok(i)
  {
    SlotIndexOfSlot(i);
  }

  /** `_decode_char` accepts exactly the 64 characters of the alphabet. */
  lemma DecodeCharAccepts(c: char)
    ensures DecodeChar(c).Ok? <==> c in EncodingTable
  {
    TableSizes();
    if c in EncodingTable {
      var i :| 0 <= i < |EncodingTable| && EncodingTable[i] == c;
      SymbolIsTable(i);
      DecodeEncodeChar(i);
    } else if DecodeChar(c).Ok? {
      SymbolIsTable(DecodeChar(c).value);
      assert false;
    }
  }

  /** `_decode_char` exactly as written. Python reads a negative list index from the end of the
      list, so a character with a code below 45 lands on slot code - 45 + 78 instead of raising
      IndexError; only codes past the end of the table are rejected by the range check. */
  function DecodeCharAsWritten(c: char): (r: Result<nat>)
    ensures r.Ok? ==> r.value < AlphabetSize
    ensures c as int >= Offset ==> r == DecodeChar(c)
  {
    var index := c as int - Offset;
    var slot := if index < 0 then index + |DecodingTable| else index;
    if !(0 <= slot < |DecodingTable|) then Err(InvalidCharacter)
    else
      SlotIndexIsTable(slot);
      if DecodingTable[slot] < 0 then Err(InvalidCharacter)
      else
        SlotOfSlotIndex(slot);
        Ok(DecodingTable[slot])
  }

  /** ',' (code 44) is not in the alphabet, yet the lookup as written reads the last slot of the
      table and decodes it as 'z'. */
  lemma CommaReadsAsZ()
    ensures ',' !in EncodingTable
    ensures DecodeCharAsWritten(',') == Ok(51) && EncodingTable[51] == 'z'
    ensures DecodeChar(',') == Err(InvalidCharacter)
  {
    DecodeCharAccepts(',');
    TableSizes();
    assert DecodingTable[77] == 51;
  }
}
