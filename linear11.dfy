/** The PMBus Linear Data Format ("LINEAR11", section 7.1 of the PMBus Power
    System Management Protocol Specification, Part II): a 16-bit word whose
    bits 15..11 hold a two's-complement exponent E and whose bits 10..0 hold
    a two's-complement mantissa N, standing for N * 2^E.

    Values are exact reals in place of Go's float64: dividing by a power of
    two is exact for binary64 in its normal range, so the exponent scan below
    makes the same decisions as the program's. */
module Linear11 {
  import opened Bytes

  /** 2^e for every integer e (`math.Pow(2, float64(e))`). */
  function Pow2(e: int): (p: real)
    ensures p > 0.0
    decreases if e < 0 then -e else e
  {
    if e == 0 then 1.0
    else if e > 0 then 2.0 * Pow2(e - 1)
    else Pow2(e + 1) / 2.0
  }

  /** `math.Round`: the nearest integer, halves rounded away from zero.
      For x >= 0 it is floor(x + 1/2); negative inputs are mirrored. */
  function Round(x: real): (n: int)
    ensures 0.0 <= x ==> n as real - 0.5 <= x < n as real + 0.5
    ensures x < 0.0 ==> n as real - 0.5 < x <= n as real + 0.5
  {
    if 0.0 <= x then (x + 0.5).Floor else -((0.5 - x).Floor)
  }

  /** The encoder's range test on the UNROUNDED quotient:
      `m >= -1024 && m < 1024`. */
  predicate Fits(q: real) {
    -1024.0 <= q < 1024.0
  }

  /** The exponent the encoder's loop stops at when it starts at `e`: the
      first exponent from `e` up to 15 whose quotient fits, or 16 (the
      value the loop variable has after the last increment) when none does. */
  function ScanFrom(v: real, e: int): (r: int)
    requires e <= 16
    ensures e <= r <= 16
    ensures r < 16 ==> Fits(v / Pow2(r))
    ensures forall k :: e <= k < r ==> !Fits(v / Pow2(k))
    decreases 16 - e
  {
    if e == 16 then 16
    else if Fits(v / Pow2(e)) then e
    else ScanFrom(v, e + 1)
  }

  /** The exponent `floatToLinear11` selects for `v`: the least exponent in
      -15..15 whose quotient passes the range test, or 16 if there is none. */
  function SelectedExponent(v: real): (e: int)
    ensures -15 <= e <= 16
    ensures e <= 15 ==> Fits(v / Pow2(e))
    ensures forall k :: -15 <= k < e ==> !Fits(v / Pow2(k))
  {
    ScanFrom(v, -15)
  }

  /** An exponent and a mantissa, as unbounded integers. */
  datatype Fields = Fields(exponent: int, mantissa: int)

  /** The field values a 16-bit word can hold: a 5-bit and an 11-bit
      two's-complement integer. */
  predicate InRange(f: Fields) {
    -16 <= f.exponent <= 15 && -1024 <= f.mantissa <= 1023
  }

  /** The exponent and mantissa `floatToLinear11` packs for `v`: the selected
      exponent and the rounded quotient, or exponent 16 with the mantissa's
      initial value 0 when no exponent passed. A quotient just below 1024
      rounds up to 1024, one more than the field holds. */
  function EncodeFields(v: real): (f: Fields)
    ensures f.exponent == SelectedExponent(v)
    ensures f.exponent == 16 ==> f.mantissa == 0
    ensures f.exponent <= 15 ==> -1024 <= f.mantissa <= 1024
    ensures f.exponent <= 15 ==>
              -0.5 <= f.mantissa as real - v / Pow2(f.exponent) <= 0.5
    // Halves of a non-negative quotient round up, those of a negative one down.
    ensures f.exponent <= 15 ==>
              var q := v / Pow2(f.exponent);
              (0.0 <= q ==> f.mantissa as real - 0.5 <= q < f.mantissa as real + 0.5) &&
              (q < 0.0 ==> f.mantissa as real - 0.5 < q <= f.mantissa as real + 0.5)
  {
    var e := SelectedExponent(v);
    if e <= 15 then Fields(e, Round(v / Pow2(e))) else Fields(16, 0)
  }

  /** `uint16((int16(e) & 0x1F) << 11) | uint16(uint16(n) & 0x07FF)`. Masking a
      two's-complement integer to its low k bits is the Euclidean remainder
      modulo 2^k; the two masked fields do not overlap, so the OR is a sum.
      The int16 shift may wrap, but the uint16 conversion keeps the same 16
      bits. */
  function Pack(f: Fields): (w: Word)
    ensures w / 0x800 == f.exponent % 0x20
    ensures w % 0x800 == f.mantissa % 0x800
  {
    (f.exponent % 0x20) * 0x800 + f.mantissa % 0x800
  }

  /** The fields of a word, each sign-extended by hand as `linear11ToFloat`
      does: exponent field `raw >> 11` less 32 when above 15, mantissa field
      `raw & 0x07FF` less 2048 when above 1023. */
  function Unpack(w: Word): (f: Fields)
    ensures InRange(f)
    ensures f.exponent % 0x20 == w / 0x800 && f.mantissa % 0x800 == w % 0x800
  {
    var exp := w / 0x800;
    var mant := w % 0x800;
    Fields(if exp > 15 then exp - 32 else exp, if mant > 1023 then mant - 2048 else mant)
  }

  /** The real number a pair of fields stands for: N * 2^E. */
  function Value(f: Fields): (r: real)
    ensures r > 0.0 <==> f.mantissa > 0
    ensures r < 0.0 <==> f.mantissa < 0
  {
    f.mantissa as real * Pow2(f.exponent)
  }

  /** The two bytes `floatToLinear11` returns for `v`, low byte first. */
  function EncodedBytes(v: real): (b: seq<Byte>)
    ensures |b| == 2
    ensures b[0] as int + 0x100 * (b[1] as int) == Pack(EncodeFields(v))
  {
    LowByteFirst(Pack(EncodeFields(v)))
  }

  /** `linear11ToFloat`: total over every buffer of at least two bytes (Go's
      `binary.BigEndian.Uint16` panics on a shorter one and ignores the rest).
      The result is the value of the one in-range pair of fields that packs to
      the big-endian word of the first two bytes. */
  function Linear11ToFloat(b: seq<Byte>): (r: real)
    requires |b| >= 2
    ensures exists f :: InRange(f) && Pack(f) == BigEndianWord(b[0], b[1]) && r == Value(f)
  {
    var raw := BigEndianWord(b[0], b[1]);
    var f := Unpack(raw);
    assert Pack(f) == raw by { PackOfUnpack(raw); }
    Value(f)
  }

  /** Repacking the unpacked fields of any word gives that word back. */
  lemma PackOfUnpack(w: Word)
    ensures Pack(Unpack(w)) == w
  {
  }

  /** `floatToLinear11`: scan exponents upward from -15 for the first whose
      quotient passes the range test, round that quotient, pack, and emit
      the word low byte first. */
  method FloatToLinear11(volts: real) returns (data: seq<Byte>)
    ensures data == EncodedBytes(volts)
  {
    var exponent := -15;
    var mantissa := 0;
    while exponent < 16
      invariant -15 <= exponent <= 16
      invariant ScanFrom(volts, exponent) == SelectedExponent(volts)
    {
      var m := volts / Pow2(exponent);
      if Fits(m) {
        mantissa := Round(m);
        break;
      }
      exponent := exponent + 1;
    }
    var raw := Pack(Fields(exponent, mantissa));
    data := LowByteFirst(raw);
  }
}
