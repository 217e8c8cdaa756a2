/** What the LINEAR11 encoder and decoder of `Linear11` guarantee, and where
    they fall short of the format: exponent choice, packing round trips,
    rounding error, the mantissa that overflows its field, the word emitted
    when nothing fits, and the byte order of the wire. */
module Linear11Properties {
  import opened Bytes
  import opened Linear11

  function Abs(x: real): (a: real)
    ensures a >= 0.0 && (a == x || a == -x)
  {
    if x < 0.0 then -x else x
  }

  /** One step up in exponent doubles the power of two. */
  lemma Pow2Succ(e: int)
    ensures Pow2(e + 1) == 2.0 * Pow2(e)
  {
  }

  /** The powers of two the examples and the range bound use. */
  lemma Pow2Table()
    ensures Pow2(-7) == 1.0 / 128.0
    ensures Pow2(-9) == 1.0 / 512.0
    ensures Pow2(-10) == 1.0 / 1024.0
    ensures Pow2(-11) == 1.0 / 2048.0
    ensures Pow2(-12) == 1.0 / 4096.0
    ensures Pow2(-13) == 1.0 / 8192.0
    ensures Pow2(15) == 32768.0
  {
  }

  /** A quotient that passes the range test still passes it at the next
      exponent up, where it is halved. */
  lemma FitsStep(v: real, e: int)
    requires Fits(v / Pow2(e))
    ensures Fits(v / Pow2(e + 1))
  {
    var p := Pow2(e);
    Pow2Succ(e);
    assert v / Pow2(e + 1) == (v / p) / 2.0;
  }

  /** Passing the range test is upward closed in the exponent. */
  lemma {:induction false} FitsUpward(v: real, e: int, k: int)
    requires e <= k
    requires Fits(v / Pow2(e))
    ensures Fits(v / Pow2(k))
    decreases k - e
  {
    if e < k {
      FitsStep(v, e);
      FitsUpward(v, e + 1, k);
    }
  }

  /** The selected exponent is exactly the exponent in -15..15 whose quotient
      passes the range test while its predecessor's (if it has one in the
      scan) does not. */
  lemma SelectedExponentIff(v: real, e: int)
    requires -15 <= e <= 15
    ensures SelectedExponent(v) == e <==>
              Fits(v / Pow2(e)) && (e == -15 || !Fits(v / Pow2(e - 1)))
  {
    var s := SelectedExponent(v);
    if Fits(v / Pow2(e)) && (e == -15 || !Fits(v / Pow2(e - 1))) {
      if s < e {
        FitsUpward(v, s, e - 1);
      }
    }
  }

  /** The inputs some exponent from -15 to 15 can take: -1024 * 2^15 <= v
      < 1024 * 2^15, that is -2^25 <= v < 2^25. */
  predicate Encodable(v: real) {
    -33554432.0 <= v < 33554432.0
  }

  /** No exponent passes the range test exactly when v is not encodable.
      Tiny values never fail: they take exponent -15, whatever precision is
      lost. */
  lemma NoExponentIff(v: real)
    ensures SelectedExponent(v) == 16 <==> !Encodable(v)
  {
    Pow2Table();
    assert v / Pow2(15) == v / 32768.0;
    var s := SelectedExponent(v);
    if s <= 15 {
      FitsUpward(v, s, 15);
    }
  }

  /** When no exponent fits, the loop leaves exponent 16 and mantissa 0: the
      encoder emits word 0x8000 (bytes 0x00, 0x80), raises no error, and the
      word decodes as exponent -16, mantissa 0, that is 0.0. */
  lemma NoExponentWord(v: real)
    requires !Encodable(v)
    ensures EncodeFields(v) == Fields(16, 0)
    ensures Pack(EncodeFields(v)) == 0x8000
    ensures EncodedBytes(v) == [0x00, 0x80]
    ensures Unpack(0x8000) == Fields(-16, 0) && Value(Unpack(0x8000)) == 0.0
  {
    NoExponentIff(v);
  }

  /** Unpacking a packed pair of in-range fields gives the pair back. */
  lemma UnpackOfPack(f: Fields)
    requires InRange(f)
    ensures Unpack(Pack(f)) == f
  {
  }

  /** Two words are equal exactly when their unpacked fields are: decoding
      loses nothing about the bit pattern. */
  lemma UnpackInjective(w1: Word, w2: Word)
    ensures Unpack(w1) == Unpack(w2) <==> w1 == w2
  {
    PackOfUnpack(w1);
    PackOfUnpack(w2);
  }

  /** The encoder's mantissa is 1024, and so overflows its 11-bit field,
      exactly when the quotient that passed the range test lies in
      [1023.5, 1024). */
  lemma MantissaOverflowIff(v: real)
    requires Encodable(v)
    ensures SelectedExponent(v) <= 15
    ensures EncodeFields(v).mantissa == 1024 <==> 1023.5 <= v / Pow2(SelectedExponent(v))
  {
    NoExponentIff(v);
  }

  /** When the rounded mantissa fits its field, the encoded word decodes to
      the chosen pair of fields, and the decoded value is within half a unit
      of the last mantissa place, 2^(E-1), of the input. */
  lemma RoundingErrorBound(v: real)
    requires Encodable(v)
    ensures SelectedExponent(v) <= 15
    ensures EncodeFields(v).mantissa <= 1023 ==>
              Unpack(Pack(EncodeFields(v))) == EncodeFields(v) &&
              Abs(Value(Unpack(Pack(EncodeFields(v)))) - v) <= Pow2(SelectedExponent(v) - 1)
  {
    NoExponentIff(v);
    var f := EncodeFields(v);
    if f.mantissa <= 1023 {
      UnpackOfPack(f);
      FieldsError(f, v);
    }
  }

  /** Fields whose mantissa is within 1/2 of v / 2^E stand for a value within
      2^(E-1) of v. */
  lemma FieldsError(f: Fields, v: real)
    requires -0.5 <= f.mantissa as real - v / Pow2(f.exponent) <= 0.5
    ensures Abs(Value(f) - v) <= Pow2(f.exponent - 1)
  {
    var p := Pow2(f.exponent);
    Pow2Succ(f.exponent - 1);
    var n := f.mantissa;
    var d := n as real - v / p;
    assert Value(f) - v == d * p;
    assert Pow2(f.exponent - 1) == 0.5 * p;
    assert -0.5 <= d <= 0.5;
    HalfScaled(d, p);
  }

  /** Scaling a number of magnitude at most 1/2 by p > 0 gives one of
      magnitude at most p / 2. */
  lemma HalfScaled(d: real, p: real)
    requires p > 0.0
    requires -0.5 <= d <= 0.5
    ensures Abs(d * p) <= 0.5 * p
  {
    NonNegativeProduct(0.5 - d, p);
    NonNegativeProduct(0.5 + d, p);
    assert (0.5 - d) * p == 0.5 * p - d * p;
    assert (0.5 + d) * p == 0.5 * p + d * p;
  }

  lemma NonNegativeProduct(a: real, b: real)
    requires a >= 0.0 && b >= 0.0
    ensures a * b >= 0.0
  {
  }

  /** When the rounded mantissa is 1024, the packed word's mantissa field is
      0x400, which decodes as -1024: the value read back is -1024 * 2^E,
      the opposite sign of the input, in place of the intended +1024 * 2^E. */
  lemma MantissaOverflowDecode(v: real)
    requires Encodable(v)
    ensures EncodeFields(v).mantissa == 1024 ==>
              Pack(EncodeFields(v)) % 0x800 == 0x400 &&
              Unpack(Pack(EncodeFields(v))) == Fields(SelectedExponent(v), -1024) &&
              Value(Unpack(Pack(EncodeFields(v)))) == -1024.0 * Pow2(SelectedExponent(v)) &&
              v > 0.0
  {
    NoExponentIff(v);
    if EncodeFields(v).mantissa == 1024 {
      MantissaOverflowFields(v);
    }
  }

  lemma MantissaOverflowFields(v: real)
    requires SelectedExponent(v) <= 15
    requires EncodeFields(v).mantissa == 1024
    ensures Pack(EncodeFields(v)) % 0x800 == 0x400
    ensures Unpack(Pack(EncodeFields(v))) == Fields(SelectedExponent(v), -1024)
    ensures Value(Unpack(Pack(EncodeFields(v)))) == -1024.0 * Pow2(SelectedExponent(v))
    ensures v > 0.0
  {
    var e := SelectedExponent(v);
    var w := Pack(EncodeFields(v));
    assert w % 0x800 == 0x400;
    assert Unpack(w).exponent == e by {
      if e < 0 {
        assert e % 0x20 == e + 32;
      }
    }
    PositiveFromQuotient(v, Pow2(e));
  }

  /** A positive quotient by a positive divisor has a positive dividend. */
  lemma PositiveFromQuotient(v: real, p: real)
    requires p > 0.0
    requires v / p > 0.0
    ensures v > 0.0
  {
    assert v == (v / p) * p;
  }

  /** 1.8 selects exponent -9: 1.8 * 1024 = 1843.2 fails the range test,
      1.8 * 512 = 921.6 passes and rounds to 922. The word 0xBB9A decodes to
      922/512 = 1.80078125, within 2^-10 of 1.8. */
  lemma Example1Point8()
    ensures SelectedExponent(1.8) == -9
    ensures EncodeFields(1.8) == Fields(-9, 922)
    ensures Pack(EncodeFields(1.8)) == 0xBB9A
    ensures Value(Unpack(0xBB9A)) == 922.0 / 512.0
    ensures Abs(Value(Unpack(0xBB9A)) - 1.8) <= 1.0 / 1024.0
  {
    Pow2Table();
    assert 1.8 / Pow2(-10) == 1843.2;
    assert 1.8 / Pow2(-9) == 921.6;
    SelectedExponentIff(1.8, -9);
    UnpackOfPack(Fields(-9, 922));
  }

  /** 1.9995 V: 1.9995 * 512 = 1023.744 passes the range test at exponent -9,
      rounds to 1024, and the emitted word 0xBC00 decodes as -2.0. */
  lemma Example1Point9995()
    ensures EncodeFields(1.9995) == Fields(-9, 1024)
    ensures Pack(EncodeFields(1.9995)) == 0xBC00
    ensures Value(Unpack(0xBC00)) == -2.0
  {
    Pow2Table();
    assert 1.9995 / Pow2(-10) == 2047.488;
    assert 1.9995 / Pow2(-9) == 1023.744;
    SelectedExponentIff(1.9995, -9);
    MantissaOverflowFields(1.9995);
  }

  /** The decoder applied to the encoder's own bytes reads the byte-swapped
      word, since one is low byte first and the other big-endian. */
  lemma DecodeOfEncodedBytes(v: real)
    ensures Linear11ToFloat(EncodedBytes(v)) == Value(Unpack(SwapBytes(Pack(EncodeFields(v)))))
  {
    BigEndianOfLowByteFirst(Pack(EncodeFields(v)));
  }

  /** Decoding the encoder's word sent high byte first, as the decoder
      expects, completes the round trip: when the mantissa fits its field,
      the value read back is within 2^(E-1) of the input. */
  lemma HighByteFirstRoundTrip(v: real)
    requires Encodable(v)
    ensures var w := Pack(EncodeFields(v));
            EncodeFields(v).mantissa <= 1023 ==>
              Abs(Linear11ToFloat([w / 0x100, w % 0x100]) - v) <= Pow2(SelectedExponent(v) - 1)
  {
    var w := Pack(EncodeFields(v));
    BigEndianOfHighByteFirst(w);
    RoundingErrorBound(v);
  }

  /** The bytes emitted for 1.8 are 0x9A, 0xBB; read back big-endian they form
      0x9ABB, exponent field 19 (that is -13) and mantissa 699, so the decoder
      returns 699 / 8192, about 0.0853, not 1.8. */
  lemma ExampleByteOrderMismatch()
    ensures EncodedBytes(1.8) == [0x9A, 0xBB]
    ensures Linear11ToFloat(EncodedBytes(1.8)) == 699.0 / 8192.0
  {
    Example1Point8();
    assert Pack(EncodeFields(1.8)) == 0xBB9A;
    assert EncodedBytes(1.8) == LowByteFirst(0xBB9A) == [0x9A, 0xBB];
    DecodeOf9ABB();
  }

  /** Read big-endian, the bytes 0x9A, 0xBB form 0x9ABB: exponent field 19,
      that is -13, and mantissa 699. */
  lemma DecodeOf9ABB()
    ensures Linear11ToFloat([0x9A, 0xBB]) == 699.0 / 8192.0
  {
    assert BigEndianWord(0x9A, 0xBB) == 0x9ABB;
    assert Unpack(0x9ABB) == Fields(-13, 699);
    Pow2Table();
  }
}
