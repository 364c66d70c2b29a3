/** The check value of the CRC, by evaluation in machine words. */
module CrcCheck {
  import opened Bits
  import opened Crc
  import opened CrcTheory

  predicate Low(b: bv32) { b & 1 == 1 }
  function Half(b: bv32): bv32 { b >> 1 }
  function Exor(a: bv32, b: bv32): bv32 { a ^ b }

  function Digit(low: bool): nat { if low then 1 else 0 }

  /** The number that the low `w` bits of a machine word stand for. */
  function Val(w: nat, b: bv32): (r: nat)
    ensures r < Pow2(w)
  {
    if w == 0 then 0 else Digit(Low(b)) + 2 * Val(w - 1, Half(b))
  }

  function Val32(b: bv32): U32 {
    Pow2Of32();
    Val(32, b)
  }

  lemma ExorParts(a: bv32, b: bv32)
    ensures Half(Exor(a, b)) == Exor(Half(a), Half(b))
    ensures Low(Exor(a, b)) <==> Low(a) != Low(b)
  {
  }

  lemma ValStep(w: nat, b: bv32)
    requires w > 0
    ensures Val(w, b) == Digit(Low(b)) + 2 * Val(w - 1, Half(b))
  {
    hide Low, Half;
  }

  lemma XorDigits(w: nat, a: bool, x: nat, b: bool, y: nat)
    requires w > 0
    ensures Xor(w, Digit(a) + 2 * x, Digit(b) + 2 * y) == Digit(a != b) + 2 * Xor(w - 1, x, y)
  {
    hide Xor;
    XorStep(w, Digit(a) + 2 * x, Digit(b) + 2 * y);
  }

  lemma NoBits(b: bv32)
    ensures Val(0, b) == 0 && Xor(0, 0, 0) == 0
  {
  }

  lemma XorValueStep(w: nat, a: bv32, b: bv32)
    requires w > 0 && Val(w - 1, Exor(Half(a), Half(b))) == Xor(w - 1, Val(w - 1, Half(a)), Val(w - 1, Half(b)))
    ensures Val(w, Exor(a, b)) == Xor(w, Val(w, a), Val(w, b))
  {
    hide Low, Half, Exor, Val, Xor, Digit;
    ExorParts(a, b);
    ValStep(w, a);
    ValStep(w, b);
    ValStep(w, Exor(a, b));
    XorDigits(w, Low(a), Val(w - 1, Half(a)), Low(b), Val(w - 1, Half(b)));
  }

  /** The machine's exclusive or computes the one of the model. */
  lemma {:induction false} XorValue(w: nat, a: bv32, b: bv32)
    ensures Val(w, Exor(a, b)) == Xor(w, Val(w, a), Val(w, b))
  {
    hide Low, Half, Exor, Val, Xor;
    if w > 0 {
      XorValue(w - 1, Half(a), Half(b));
      XorValueStep(w, a, b);
    } else {
      NoBits(a);
      NoBits(b);
      NoBits(Exor(a, b));
    }
  }

  /** The low four bits. */
  function Quad(b: bv32): nat {
    (if b & 1 == 1 then 1 else 0) + (if b & 2 == 2 then 2 else 0) + (if b & 4 == 4 then 4 else 0)
    + if b & 8 == 8 then 8 else 0
  }

  function Rest(b: bv32): bv32 { b >> 4 }

  lemma QuadParts(b: bv32)
    ensures Half(Half(Half(Half(b)))) == Rest(b)
    ensures b & 2 == 2 <==> Low(Half(b))
    ensures b & 4 == 4 <==> Low(Half(Half(b)))
    ensures b & 8 == 8 <==> Low(Half(Half(Half(b))))
  {
  }

  lemma QuadLow(b: bv32)
    ensures Quad(b) == (if Low(b) then 1 else 0) + (if Low(Half(b)) then 2 else 0)
                       + (if Low(Half(Half(b))) then 4 else 0) + if Low(Half(Half(Half(b)))) then 8 else 0
  {
    QuadParts(b);
  }

  lemma ValQuad(w: nat, b: bv32)
    requires w >= 4
    ensures Val(w, b) == Quad(b) + 16 * Val(w - 4, Rest(b))
  {
    hide Val, Low, Half, Quad, Rest;
    QuadParts(b);
    QuadLow(b);
    ValStep(w, b);
    ValStep(w - 1, Half(b));
    ValStep(w - 2, Half(Half(b)));
    ValStep(w - 3, Half(Half(Half(b))));
  }

  function Quads(b: bv32): nat {
    Quad(b) + 16 * Quad(Rest(b)) + 256 * Quad(Rest(Rest(b))) + 4096 * Quad(Rest(Rest(Rest(b))))
  }

  lemma ValQuads(w: nat, b: bv32)
    requires w >= 16
    ensures Val(w, b) == Quads(b) + 65536 * Val(w - 16, Rest(Rest(Rest(Rest(b)))))
  {
    hide Val, Quad, Rest;
    ValQuad(w, b);
    ValQuad(w - 4, Rest(b));
    ValQuad(w - 8, Rest(Rest(b)));
    ValQuad(w - 12, Rest(Rest(Rest(b))));
  }

  /** The value of a word by its eight digits. */
  lemma Evaluate(b: bv32)
    ensures Val32(b) == Quads(b) + 65536 * Quads(Rest(Rest(Rest(Rest(b)))))
  {
    hide Quads, Low, Half, Rest;
    Pow2Of32();
    ValQuads(32, b);
    ValQuads(16, Rest(Rest(Rest(Rest(b)))));
  }

  // The computation in machine words

  /** A shift step, as the table is made. */
  function WordShift(c: bv32): bv32 {
    if Low(c) then Exor(0xEDB8_8320, Half(c)) else Half(c)
  }

  function WordTable(c: bv32, k: nat): bv32
    decreases k
  {
    if k == 0 then c else WordTable(WordShift(c), k - 1)
  }

  predicate BitOf(i: nat, b: bv32)
    decreases i
  {
    if i == 0 then Low(b) else BitOf(i - 1, Half(b))
  }

  lemma {:induction false} BitOfPart(i: nat, b: bv32, mask: bv32)
    requires b & mask == b && BitOf(i, b)
    ensures BitOf(i, mask)
  {
    if i > 0 {
      BitOfPart(i - 1, Half(b), Half(mask));
    }
  }

  lemma {:induction false} ClearBit(i: nat, b: bv32)
    requires !BitOf(i, b)
    ensures Val(i + 1, b) == Val(i, b)
  {
    hide Low, Half;
    if i > 0 {
      ClearBit(i - 1, Half(b));
    }
  }

  lemma TopMask()
    ensures !BitOf(31, 0x7FFF_FFFF)
  {
    assert !BitOf(7, 0x7F);
    assert !BitOf(15, 0x7FFF);
    assert !BitOf(23, 0x7F_FFFF);
  }

  lemma HalfMasked(b: bv32)
    ensures Half(b) & 0x7FFF_FFFF == Half(b)
  {
  }

  lemma HalfValue(b: bv32)
    ensures Val32(Half(b)) == Val32(b) / 2 && (Val32(b) % 2 == 1 <==> Low(b))
  {
    hide Low, Half, Val, BitOf;
    Pow2Of32();
    ValStep(32, b);
    TopMask();
    HalfMasked(b);
    if BitOf(31, Half(b)) {
      BitOfPart(31, Half(b), 0x7FFF_FFFF);
    }
    ClearBit(31, Half(b));
  }

  /** One byte in machine words. */
  function WordUpdate(c: bv32, b: bv32): bv32 { WordTable(Exor(c, b), 8) }

  lemma PolynomialValue()
    ensures Val32(0xEDB8_8320) == POLYNOMIAL
  {
    hide Val32;
    Evaluate(0xEDB8_8320);
  }

  lemma ExorValue(a: bv32, b: bv32)
    ensures Val32(Exor(a, b)) == Xor32(Val32(a), Val32(b))
  {
    hide Val, Xor, Exor;
    Pow2Of32();
    XorValue(32, a, b);
  }

  lemma ShiftValue(c: bv32)
    ensures Val32(WordShift(c)) == Shift(Val32(c))
  {
    hide Val32, Xor32, Low, Half, Exor;
    HalfValue(c);
    PolynomialValue();
    ExorValue(0xEDB8_8320, Half(c));
  }

  lemma {:induction false} TableValue(c: bv32, k: nat)
    ensures Val32(WordTable(c, k)) == TableEntry(Val32(c), k)
    decreases k
  {
    hide Val32, WordShift, Shift;
    if k > 0 {
      ShiftValue(c);
      TableValue(WordShift(c), k - 1);
    }
  }

  /** The machine's update step computes the one of the model. */
  lemma UpdateValue(c: bv32, b: bv32, x: Byte)
    requires Val32(b) == x
    ensures Val32(WordUpdate(c, b)) == Update(Val32(c), x)
  {
    hide Val32, Exor, WordTable, Xor32, Update, TableEntry;
    ExorValue(c, b);
    TableValue(Exor(c, b), 8);
    UpdateDivides(Val32(c), x);
  }

  /** One more byte of a buffer. */
  lemma Next(s: seq<Byte>, k: nat, c: bv32, b: bv32, c': bv32)
    requires k < |s| && CycCal(0xFFFF_FFFF, s[..k]) == Val32(c)
    requires Val32(b) == s[k] && WordUpdate(c, b) == c'
    ensures CycCal(0xFFFF_FFFF, s[..k + 1]) == Val32(c')
  {
    hide Val32, Update, WordUpdate;
    UpdateValue(c, b, s[k]);
    assert s[..k + 1][..k] == s[..k];
  }

  lemma Registers()
    ensures WordUpdate(0xFFFF_FFFF, 0x31) == 0x7C23_1048
    ensures WordUpdate(0x7C23_1048, 0x32) == 0xB0AC_BB32
    ensures WordUpdate(0xB0AC_BB32, 0x33) == 0x77B7_9C2D
    ensures WordUpdate(0x77B7_9C2D, 0x34) == 0x641C_1F5C
    ensures WordUpdate(0x641C_1F5C, 0x35) == 0x340A_C5E3
    ensures WordUpdate(0x340A_C5E3, 0x36) == 0xF68D_2C9E
    ensures WordUpdate(0xF68D_2C9E, 0x37) == 0xAFFC_9660
    ensures WordUpdate(0xAFFC_9660, 0x38) == 0x651F_2550
    ensures WordUpdate(0x651F_2550, 0x39) == 0x340B_C6D9
    ensures Exor(0x340B_C6D9, 0xFFFF_FFFF) == 0xCBF4_3926
  {
  }

  lemma Characters(d: bv32)
    requires d & 15 == d
    ensures Val32(0x30 | d) == 0x30 + Quad(d)
  {
    Evaluate(0x30 | d);
  }

  lemma CharacterValues()
    ensures Val32(0x31) == 0x31 && Val32(0x32) == 0x32 && Val32(0x33) == 0x33
    ensures Val32(0x34) == 0x34 && Val32(0x35) == 0x35 && Val32(0x36) == 0x36
    ensures Val32(0x37) == 0x37 && Val32(0x38) == 0x38 && Val32(0x39) == 0x39
  {
    hide Val32;
    Characters(1);
    Characters(2);
    Characters(3);
    Characters(4);
    Characters(5);
    Characters(6);
    Characters(7);
    Characters(8);
    Characters(9);
  }

  lemma Ends()
    ensures Val32(0xFFFF_FFFF) == 0xFFFF_FFFF && Val32(0xCBF4_3926) == 0xCBF4_3926
  {
    hide Val32;
    Evaluate(0xFFFF_FFFF);
    Evaluate(0xCBF4_3926);
  }

  /** The check value of CRC-32: that of the nine characters `123456789`. */
  lemma CheckValue()
    ensures Crc32([0x31, 0x32, 0x33, 0x34, 0x35, 0x36, 0x37, 0x38, 0x39]) == 0xCBF4_3926
  {
    hide CycCal, Xor32, WordUpdate, Exor, Val32;
    var s: seq<Byte> := [0x31, 0x32, 0x33, 0x34, 0x35, 0x36, 0x37, 0x38, 0x39];
    Registers();
    CharacterValues();
    Ends();
    Starts(s);
    Next(s, 0, 0xFFFF_FFFF, 0x31, 0x7C23_1048);
    Next(s, 1, 0x7C23_1048, 0x32, 0xB0AC_BB32);
    Next(s, 2, 0xB0AC_BB32, 0x33, 0x77B7_9C2D);
    Next(s, 3, 0x77B7_9C2D, 0x34, 0x641C_1F5C);
    Next(s, 4, 0x641C_1F5C, 0x35, 0x340A_C5E3);
    Next(s, 5, 0x340A_C5E3, 0x36, 0xF68D_2C9E);
    Next(s, 6, 0xF68D_2C9E, 0x37, 0xAFFC_9660);
    Next(s, 7, 0xAFFC_9660, 0x38, 0x651F_2550);
    Next(s, 8, 0x651F_2550, 0x39, 0x340B_C6D9);
    assert s[..9] == s;
    ExorValue(0x340B_C6D9, 0xFFFF_FFFF);
  }

  lemma Starts(s: seq<Byte>)
    ensures CycCal(0xFFFF_FFFF, s[..0]) == 0xFFFF_FFFF
  {
  }
}
