/** What the CRC detects, and the word arithmetic that computes it. */
module CrcTheory {
  import opened Bits
  import opened Crc

  // Exclusive or

  /** Addition is exclusive or, and carries where both numbers have a bit. */
  lemma {:induction false} XorSum(w: nat, x: nat, y: nat)
    requires x < Pow2(w) && y < Pow2(w)
    ensures Xor(w, x, y) + 2 * And(w, x, y) == x + y
  {
    if w > 0 {
      XorSum(w - 1, x / 2, y / 2);
    }
  }

  lemma {:induction false} XorTwice(w: nat, x: nat, y: nat)
    requires x < Pow2(w)
    ensures Xor(w, Xor(w, x, y), y) == x
  {
    if w > 0 {
      XorTwice(w - 1, x / 2, y / 2);
      assert Xor(w, x, y) / 2 == Xor(w - 1, x / 2, y / 2);
    }
  }

  lemma {:induction false} XorSwap(w: nat, x: nat, y: nat)
    ensures Xor(w, x, y) == Xor(w, y, x)
  {
    if w > 0 {
      XorSwap(w - 1, x / 2, y / 2);
    }
  }

  lemma {:induction false} XorGroup(w: nat, x: nat, y: nat, z: nat)
    ensures Xor(w, Xor(w, x, y), z) == Xor(w, x, Xor(w, y, z))
  {
    if w > 0 {
      XorGroup(w - 1, x / 2, y / 2, z / 2);
      assert Xor(w, x, y) / 2 == Xor(w - 1, x / 2, y / 2);
      assert Xor(w, y, z) / 2 == Xor(w - 1, y / 2, z / 2);
    }
  }

  lemma {:induction false} XorWiden(w: nat, x: nat, y: nat)
    requires x < Pow2(w) && y < Pow2(w)
    ensures Xor(w + 1, x, y) == Xor(w, x, y)
  {
    if w > 0 {
      XorWiden(w - 1, x / 2, y / 2);
    }
  }

  lemma {:induction false} XorZero(w: nat, x: nat)
    requires x < Pow2(w)
    ensures Xor(w, x, 0) == x
  {
    if w > 0 {
      XorZero(w - 1, x / 2);
    }
  }

  /** Numbers without a common bit. */
  lemma XorDisjoint(w: nat, k: nat, x: nat, z: nat)
    requires x < Pow2(k) && x + Pow2(k) * z < Pow2(w)
    ensures Xor(w, x, Pow2(k) * z) == x + Pow2(k) * z
  {
    hide And, Xor, Pow2;
    XorSum(w, x, Pow2(k) * z);
    AndDisjoint(w, k, x, z);
  }

  // The laws of words

  lemma Laws32(x: U32, y: U32, z: U32)
    ensures Xor32(x, y) == Xor32(y, x) && Xor32(Xor32(x, y), z) == Xor32(x, Xor32(y, z))
    ensures Xor32(Xor32(x, y), y) == x
  {
    hide Xor;
    Pow2Of32();
    XorSwap(32, x, y);
    XorGroup(32, x, y, z);
    XorTwice(32, x, y);
  }

  /** Two words are each determined by the other and their exclusive or. */
  lemma Cancel(x: U32, y: U32, z: U32)
    requires Xor32(x, z) == Xor32(y, z) || Xor32(z, x) == Xor32(z, y)
    ensures x == y
  {
    hide Xor32;
    Laws32(x, z, z);
    Laws32(y, z, z);
  }

  lemma HalfWord(x: U32)
    ensures x / 2 < 0x8000_0000
  {
  }

  lemma Halves(x: U32, y: U32)
    ensures Xor32(x, y) % 2 == (if x % 2 == y % 2 then 0 else 1)
    ensures Xor32(x, y) / 2 == Xor32(x / 2, y / 2)
  {
    hide Xor, Pow2;
    Words32();
    XorStep(32, x, y);
    HalfWord(x);
    HalfWord(y);
    XorWiden(31, x / 2, y / 2);
    WordXor(x, y);
    WordXor(x / 2, y / 2);
    LowBit(if x % 2 == y % 2 then 0 else 1, Xor(31, x / 2, y / 2));
  }

  lemma LowBit(d: nat, z: nat)
    requires d < 2
    ensures (d + 2 * z) % 2 == d && (d + 2 * z) / 2 == z
  {
  }

  lemma Words32()
    ensures Pow2(31) == 0x8000_0000 && Pow2(32) == 0x1_0000_0000
  {
    Pow2Of32();
  }

  lemma WordXor(x: U32, y: U32)
    ensures Xor32(x, y) == Xor(32, x, y)
  {
  }

  // Shift steps

  /** Sums in which the polynomial was added to both words, or to one. */
  lemma Regroup(p: U32, x: U32, y: U32)
    ensures Xor32(Xor32(p, x), Xor32(p, y)) == Xor32(x, y)
    ensures Xor32(Xor32(p, x), y) == Xor32(p, Xor32(x, y)) == Xor32(x, Xor32(p, y))
  {
    hide Xor32;
    Laws32(p, x, y);
    Laws32(x, p, y);
    Laws32(x, p, Xor32(p, y));
    Laws32(p, y, y);
    Laws32(y, p, p);
    Laws32(p, Xor32(y, p), p);
  }

  lemma ShiftLinear(x: U32, y: U32)
    ensures Shift(Xor32(x, y)) == Xor32(Shift(x), Shift(y))
  {
    hide Xor32;
    Halves(x, y);
    Regroup(POLYNOMIAL, x / 2, y / 2);
  }

  /** The steps take sums to sums: the register can be cut into parts. */
  lemma {:induction false} TableLinear(x: U32, y: U32, k: nat)
    ensures TableEntry(Xor32(x, y), k) == Xor32(TableEntry(x, k), TableEntry(y, k))
    decreases k
  {
    hide Xor32, Shift;
    if k > 0 {
      ShiftLinear(x, y);
      TableLinear(Shift(x), Shift(y), k - 1);
    }
  }

  lemma ShiftEven(z: nat)
    requires 2 * z < 0x1_0000_0000
    ensures Shift(2 * z) == z
  {
    hide Xor32;
  }

  /** Zero bits are shifted out and leave nothing behind. */
  lemma {:induction false} TableDrops(z: nat, k: nat)
    requires Pow2(k) * z < 0x1_0000_0000
    ensures TableEntry(Pow2(k) * z, k) == z
  {
    hide Shift;
    if k > 0 {
      Double(Pow2(k - 1), z);
      ShiftEven(Pow2(k - 1) * z);
      TableDrops(z, k - 1);
    }
  }

  /** The step can be undone: the top bit tells what was shifted out. */
  lemma ShiftInjective(x: U32, y: U32)
    requires Shift(x) == Shift(y)
    ensures x == y
  {
    hide Xor32;
    TopBit(x / 2);
    TopBit(y / 2);
    if x % 2 == y % 2 == 1 {
      Cancel(x / 2, y / 2, POLYNOMIAL);
    }
  }

  lemma {:induction false} XorTop(w: nat, x: nat, z: nat)
    requires Pow2(w) <= x < Pow2(w + 1) && z < Pow2(w)
    ensures Xor(w + 1, x, z) >= Pow2(w)
  {
    if w > 0 {
      XorTop(w - 1, x / 2, z / 2);
    }
  }

  lemma TopBit(z: U32)
    requires z < 0x8000_0000
    ensures Xor32(POLYNOMIAL, z) >= 0x8000_0000
  {
    hide Xor;
    Pow2Of32();
    XorTop(31, POLYNOMIAL, z);
  }

  lemma {:induction false} TableInjective(x: U32, y: U32, k: nat)
    requires TableEntry(x, k) == TableEntry(y, k)
    ensures x == y
    decreases k
  {
    hide Shift;
    if k > 0 {
      TableInjective(Shift(x), Shift(y), k - 1);
      ShiftInjective(x, y);
    }
  }

  lemma {:induction false} TableSum(x: U32, k: nat, n: nat)
    ensures TableEntry(TableEntry(x, k), n) == TableEntry(x, k + n)
    decreases k
  {
    hide Shift;
    if k > 0 {
      TableSum(Shift(x), k - 1, n);
    }
  }

  lemma Quarters(c: U32, b: U32)
    ensures Xor32(c, b) / 4 == Xor32(c / 4, b / 4)
  {
    hide Xor32;
    Halves(c, b);
    Halves(c / 2, b / 2);
    Fourth(c);
    Fourth(b);
    Fourth(Xor32(c, b));
  }

  lemma Fourth(x: nat)
    ensures x / 2 / 2 == x / 4
  {
  }

  lemma HighPart(c: U32, b: Byte)
    ensures Xor32(c, b) / 256 == c / 256
  {
    hide Xor32;
    Quarters(c, b);
    Quarters(c / 4, b / 4);
    Quarters(c / 4 / 4, b / 4 / 4);
    Quarters(c / 4 / 4 / 4, b / 4 / 4 / 4);
    ByQuarters(c);
    ByQuarters(b);
    ByQuarters(Xor32(c, b));
    WordZero(c / 256);
  }

  lemma ByQuarters(x: nat)
    ensures x / 4 / 4 / 4 / 4 == x / 256
  {
  }

  lemma WordZero(x: U32)
    ensures Xor32(x, 0) == x
  {
    Pow2Of32();
    XorZero(32, x);
  }

  lemma WordParts(x: U32)
    ensures x == Xor32(x % 256, 256 * (x / 256))
  {
    hide Xor;
    Pow2Of32();
    XorDisjoint(32, 8, x % 256, x / 256);
  }

  /** The table look-up of one byte is eight steps of the bitwise division, fed with the byte. */
  lemma UpdateDivides(c: U32, b: Byte)
    ensures Update(c, b) == TableEntry(Xor32(c, b), 8)
  {
    hide Xor32, TableEntry;
    var x := Xor32(c, b);
    HighPart(c, b);
    WordParts(x);
    TableLinear(x % 256, 256 * (x / 256), 8);
    Pow2Of32();
    TableDrops(x / 256, 8);
  }

  // Short buffers

  /** A buffer as a number, first byte lowest. */
  function Packed(data: seq<Byte>): nat {
    if data == [] then 0
    else
      var n := |data| - 1;
      Packed(data[..n]) + Pow2(8 * n) * data[n]
  }

  lemma {:induction false} Pow2Sum(a: nat, b: nat)
    ensures Pow2(a + b) == Pow2(a) * Pow2(b)
  {
    if a > 0 {
      Pow2Sum(a - 1, b);
      Double(Pow2(a - 1), Pow2(b));
    }
  }

  lemma PackedFits(n: nat, low: nat, b: Byte)
    requires low < Pow2(8 * n)
    ensures low + Pow2(8 * n) * b < Pow2(8 * n + 8)
  {
    Pow2Of32();
    Pow2Sum(8 * n, 8);
    MulGap(b, 256, Pow2(8 * n));
  }

  lemma {:induction false} PackedBound(data: seq<Byte>)
    ensures Packed(data) < Pow2(8 * |data|)
  {
    hide Pow2;
    if data != [] {
      var n := |data| - 1;
      PackedBound(data[..n]);
      PackedFits(n, Packed(data[..n]), data[n]);
    } else {
      NoBits();
    }
  }

  lemma NoBits()
    ensures Pow2(8 * 0) == 1
  {
  }

  lemma {:induction false} Pow2Monotone(a: nat, b: nat)
    requires a <= b
    ensures Pow2(a) <= Pow2(b)
  {
    if a < b {
      Pow2Monotone(a, b - 1);
    }
  }

  /** A byte fed to the register behind others is as good as fed with them, in its place. */
  lemma FeedTogether(c: U32, low: U32, high: U32, k: nat, b: Byte)
    requires TableEntry(high, k) == b
    ensures Update(TableEntry(Xor32(c, low), k), b) == TableEntry(Xor32(c, Xor32(low, high)), k + 8)
  {
    hide Xor32, TableEntry, Update;
    UpdateDivides(TableEntry(Xor32(c, low), k), b);
    TableLinear(Xor32(c, low), high, k);
    Laws32(c, low, high);
    TableSum(Xor32(c, Xor32(low, high)), k, 8);
  }

  /** Where a byte lies in the number that the buffer packs. */
  lemma PackedParts(data: seq<Byte>)
    requires data != [] && Packed(data) < 0x1_0000_0000
    ensures var n := |data| - 1;
            var low, high := Packed(data[..n]), Packed(data) - Packed(data[..n]);
            && 0 <= high < 0x1_0000_0000 && low < 0x1_0000_0000
            && TableEntry(high, 8 * n) == data[n] && Xor32(low, high) == Packed(data)
  {
    hide TableEntry, Xor, Pow2, Packed;
    var n := |data| - 1;
    PackedLast(data);
    PackedBound(data[..n]);
    Pow2Of32();
    TableDrops(data[n], 8 * n);
    XorDisjoint(32, 8 * n, Packed(data[..n]), data[n]);
  }

  /** Up to four bytes are divided as one number. */
  lemma {:induction false} CycCalDivides(c: U32, data: seq<Byte>)
    requires |data| <= 4
    ensures Packed(data) < 0x1_0000_0000 && CycCal(c, data) == TableEntry(Xor32(c, Packed(data)), 8 * |data|)
  {
    hide Xor32, TableEntry, Pow2, Update;
    Pow2Of32();
    Pow2Monotone(8 * |data|, 32);
    PackedBound(data);
    hide Packed;
    if data == [] {
      WordZero(c);
      NoSteps(c);
      NoBytes();
    } else {
      var n := |data| - 1;
      CycCalDivides(c, data[..n]);
      PackedParts(data);
      FeedTogether(c, Packed(data[..n]), Packed(data) - Packed(data[..n]), 8 * n, data[n]);
    }
  }

  lemma PackedLast(data: seq<Byte>)
    requires data != []
    ensures var n := |data| - 1; Packed(data) == Packed(data[..n]) + Pow2(8 * n) * data[n]
  {
    hide Pow2;
  }

  lemma NoBytes()
    ensures Packed([]) == 0
  {
  }

  lemma NoSteps(c: U32)
    ensures TableEntry(c, 0) == c
  {
  }

  lemma PartsUnique(m: nat, p: nat, x: nat, q: nat, y: nat)
    requires x < m && y < m && x + m * p == y + m * q
    ensures x == y && p == q
  {
    DivModUnique(p, m, x);
    DivModUnique(q, m, y);
  }

  lemma {:induction false} PackedInjective(a: seq<Byte>, b: seq<Byte>)
    requires |a| == |b| && Packed(a) == Packed(b)
    ensures a == b
  {
    hide Pow2, Packed;
    if a != [] {
      var n := |a| - 1;
      var m := Pow2(8 * n);
      PackedLast(a);
      PackedLast(b);
      PackedBound(a[..n]);
      PackedBound(b[..n]);
      PartsUnique(m, a[n], Packed(a[..n]), b[n], Packed(b[..n]));
      PackedInjective(a[..n], b[..n]);
      assert a == a[..n] + [a[n]] && b == b[..n] + [b[n]];
    }
  }

  // Error detection

  /** What follows keeps two registers apart. */
  lemma {:induction false} CycCalInjective(c: U32, d: U32, data: seq<Byte>)
    requires CycCal(c, data) == CycCal(d, data)
    ensures c == d
  {
    hide Xor32, TableEntry, Update;
    if data != [] {
      var n := |data| - 1;
      var x, y := CycCal(c, data[..n]), CycCal(d, data[..n]);
      UpdateDivides(x, data[n]);
      UpdateDivides(y, data[n]);
      TableInjective(Xor32(x, data[n]), Xor32(y, data[n]), 8);
      Cancel(x, y, data[n]);
      CycCalInjective(c, d, data[..n]);
    }
  }

  /** Two buffers of one length that differ only inside a window of four bytes have different CRCs. */
  lemma BurstDetected(front: seq<Byte>, a: seq<Byte>, b: seq<Byte>, back: seq<Byte>)
    requires |a| == |b| <= 4 && Crc32(front + a + back) == Crc32(front + b + back)
    ensures a == b
  {
    hide Xor32, TableEntry, Update, CycCal;
    var c := CycCal(0xFFFF_FFFF, front);
    Cancel(CycCal(0xFFFF_FFFF, front + a + back), CycCal(0xFFFF_FFFF, front + b + back), 0xFFFF_FFFF);
    CycCalConcat(0xFFFF_FFFF, front + a, back);
    CycCalConcat(0xFFFF_FFFF, front + b, back);
    CycCalInjective(CycCal(0xFFFF_FFFF, front + a), CycCal(0xFFFF_FFFF, front + b), back);
    CycCalConcat(0xFFFF_FFFF, front, a);
    CycCalConcat(0xFFFF_FFFF, front, b);
    CycCalDivides(c, a);
    CycCalDivides(c, b);
    TableInjective(Xor32(c, Packed(a)), Xor32(c, Packed(b)), 8 * |a|);
    Cancel(Packed(a), Packed(b), c);
    PackedInjective(a, b);
  }

  /** Any one changed byte changes the CRC. */
  lemma ChangeDetected(data: seq<Byte>, i: nat, b: Byte)
    requires i < |data| && b != data[i]
    ensures Crc32(data[i := b]) != Crc32(data)
  {
    hide Crc32;
    assert data == data[..i] + [data[i]] + data[i + 1..];
    assert data[i := b] == data[..i] + [b] + data[i + 1..];
    if Crc32(data[i := b]) == Crc32(data) {
      BurstDetected(data[..i], [data[i]], [b], data[i + 1..]);
    }
  }
}
