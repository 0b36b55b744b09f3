/** The zig-zag sign transform: a signed delta travels as an unsigned value whose lowest bit
    is the sign, so small deltas of either sign stay small. */
module ZigZag {
  import opened Bits
  import opened VarintCodec

  /** The sign step of `_encode_scaled_value`: `value << 1`, inverted when the value is
      negative. */
  function ToUnsigned(d: int): (u: nat)
    ensures u % 2 == 1 <==> d < 0
    ensures u == 2 * Abs(d) || u == 2 * Abs(d) - 1
    ensures ToSigned(u) == d
  {
    var shifted := d * 2;
    if d < 0 then Not(shifted) else shifted
  }

  /** `_to_signed`: invert when the lowest bit is set, then shift right by one (Python's `>>`
      floors, as Dafny's `/` does for a positive divisor). */
  function ToSigned(u: nat): (d: int)
    ensures d < 0 <==> u % 2 == 1
    ensures u == if d < 0 then Not(2 * d) else 2 * d
  {
    var v := if u % 2 == 1 then Not(u) else u;
    v / 2
  }

  function Abs(d: int): nat {
    if d < 0 then -d else d
  }

  /** The transform is a bijection: every unsigned value is the image of exactly one delta. */
  lemma ToUnsignedToSigned(u: nat)
    ensures ToUnsigned(ToSigned(u)) == u
  {
  }

  /** `_encode_scaled_value`: append the encoding of the signed value `value` to `res`. */
  method EncodeScaledValue(value: int, res: string) returns (out: string)
    ensures out == res + Varint(ToUnsigned(value))
  {
    var negative := value < 0;
    var v := value * 2;
    if negative {
      v := Not(v);
    }
    out := EncodeUnsignedVarint(v, res);
  }
}
