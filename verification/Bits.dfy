/** Machine integers of the boot loader: bytes, 32-bit words, bitwise AND and the alignment macros. */
module Bits {

  type Byte = x: int | 0 <= x < 256
  type U32 = x: int | 0 <= x < 0x1_0000_0000

  /** Unsigned 32-bit truncation. */
  function Wrap32(x: int): (r: U32)
    ensures 0 <= x < 0x1_0000_0000 ==> r == x
  {
    x % 0x1_0000_0000
  }

  /** Reading an unsigned word as a signed `int`. */
  function ToInt32(x: U32): int {
    if x < 0x8000_0000 then x else x - 0x1_0000_0000
  }

  /** The signed reading is the number in range that is the same word. */
  lemma SignedReading(x: U32)
    ensures -0x8000_0000 <= ToInt32(x) < 0x8000_0000 && Wrap32(ToInt32(x)) == x
  {
  }

  function Pow2(k: nat): (r: nat)
    ensures r >= 1
  {
    if k == 0 then 1 else 2 * Pow2(k - 1)
  }

  predicate IsPow2(s: nat) {
    s == 1 || (s > 1 && s % 2 == 0 && IsPow2(s / 2))
  }

  lemma {:induction false} Pow2Exponent(s: U32) returns (k: nat)
    requires IsPow2(s)
    ensures s == Pow2(k) && k < 32
  {
    if s == 1 {
      k := 0;
    } else {
      k := Pow2Exponent(s / 2);
      k := k + 1;
      if k >= 32 {
        Pow2Of32();
      }
    }
  }

  function Pow256(n: nat): nat { if n == 0 then 1 else 256 * Pow256(n - 1) }

  lemma {:induction false} Pow256Monotone(a: nat, b: nat)
    requires a <= b
    ensures Pow256(a) <= Pow256(b)
  {
    if a < b {
      Pow256Monotone(a, b - 1);
    }
  }

  /** Bitwise AND of the low `w` bits of two numbers. */
  function And(w: nat, x: nat, y: nat): (r: nat)
    ensures r < Pow2(w)
    ensures r <= x && r <= y
  {
    if w == 0 then 0
    else (if x % 2 == 1 && y % 2 == 1 then 1 else 0) + 2 * And(w - 1, x / 2, y / 2)
  }

  lemma {:induction false} AndOnes(w: nat, x: nat)
    requires x < Pow2(w)
    ensures And(w, Pow2(w) - 1, x) == x == And(w, x, Pow2(w) - 1)
  {
    if w > 0 {
      assert (Pow2(w) - 1) / 2 == Pow2(w - 1) - 1;
      AndOnes(w - 1, x / 2);
    }
  }

  lemma {:induction false} AndAgain(w: nat, x: nat, y: nat)
    ensures And(w, And(w, x, y), y) == And(w, x, y)
  {
    if w > 0 {
      AndAgain(w - 1, x / 2, y / 2);
      assert And(w, x, y) / 2 == And(w - 1, x / 2, y / 2);
    }
  }

  /** Bit `i` of a number. */
  predicate Bit(x: nat, i: nat) {
    if i == 0 then x % 2 == 1 else Bit(x / 2, i - 1)
  }

  /** The bitwise AND is the conjunction of the bits. */
  lemma {:induction false} AndBits(w: nat, x: nat, y: nat, i: nat)
    requires i < w
    ensures Bit(And(w, x, y), i) <==> Bit(x, i) && Bit(y, i)
  {
    AndStep(w, x, y);
    if i > 0 {
      AndBits(w - 1, x / 2, y / 2, i - 1);
    }
  }

  /** A number is determined by its bits. */
  lemma {:induction false} BitsDecide(w: nat, x: nat, y: nat)
    requires x < Pow2(w) && y < Pow2(w) && forall i :: 0 <= i < w ==> Bit(x, i) == Bit(y, i)
    ensures x == y
  {
    if w > 0 {
      forall i | 0 <= i < w - 1
        ensures Bit(x / 2, i) == Bit(y / 2, i)
      {
        assert Bit(x, i + 1) == Bit(y, i + 1);
      }
      assert Bit(x, 0) == Bit(y, 0);
      BitsDecide(w - 1, x / 2, y / 2);
    }
  }

  /** One bit of the conjunction, and the rest. */
  lemma AndStep(w: nat, x: nat, y: nat)
    requires w > 0
    ensures And(w, x, y) == (if x % 2 == 1 && y % 2 == 1 then 1 else 0) + 2 * And(w - 1, x / 2, y / 2)
  {
  }

  lemma AndDouble(w: nat, x: nat, y: nat)
    requires w > 0
    ensures And(w, x, 2 * y) == 2 * And(w - 1, x / 2, y)
  {
    hide And;
    AndStep(w, x, 2 * y);
    assert (2 * y) / 2 == y && (2 * y) % 2 == 0;
  }

  lemma Double(p: nat, z: nat)
    ensures (2 * p) * z == 2 * (p * z)
  {
  }

  /** Numbers without a common bit. */
  lemma {:induction false} AndDisjoint(w: nat, k: nat, x: nat, z: nat)
    requires x < Pow2(k)
    ensures And(w, x, Pow2(k) * z) == 0
  {
    if w > 0 && k == 0 {
      AndDisjoint(w - 1, 0, 0, z / 2);
    } else if w > 0 {
      Double(Pow2(k - 1), z);
      AndDisjoint(w - 1, k - 1, x / 2, z);
      AndDouble(w, x, Pow2(k - 1) * z);
    }
  }

  // Division

  lemma {:induction false} MulGap(p: nat, q: nat, m: nat)
    requires p < q
    ensures p * m + m <= q * m
  {
    assert q * m == (q - 1) * m + m;
    if p < q - 1 {
      MulGap(p, q - 1, m);
    }
  }

  lemma DivModUnique(q: nat, m: nat, r: nat)
    requires r < m
    ensures (q * m + r) / m == q && (q * m + r) % m == r
  {
    var x := q * m + r;
    var p := x / m;
    assert x == p * m + x % m;
    if p < q {
      MulGap(p, q, m);
    } else if q < p {
      MulGap(q, p, m);
    }
  }

  // Alignment

  predicate Whole(x: nat, s: nat)
    requires s > 0
  {
    x == 0 || (x >= s && Whole(x - s, s))
  }

  /** Rounds down to a whole number of units of size `s`. */
  function AlignDown(x: nat, s: nat): (r: nat)
    requires s > 0
    ensures Whole(r, s) && r <= x < r + s
  {
    if x < s then 0 else s + AlignDown(x - s, s)
  }

  function AlignUp(x: nat, s: nat): (r: nat)
    requires s > 0
    ensures Whole(r, s) && x <= r < x + s
  {
    AlignDown(x + s - 1, s)
  }

  /** Two different multiples of `s` are at least `s` apart. */
  lemma {:induction false} WholeApart(a: nat, b: nat, s: nat)
    requires s > 0 && Whole(a, s) && Whole(b, s) && a < b
    ensures a + s <= b
  {
    if a > 0 {
      WholeApart(a - s, b - s, s);
    }
  }

  lemma {:induction false} WholeSum(a: nat, b: nat, s: nat)
    requires s > 0 && Whole(a, s)
    ensures Whole(a + b, s) <==> Whole(b, s)
  {
    if a > 0 {
      WholeSum(a - s, b, s);
    }
  }

  lemma {:induction false} AllWhole(n: nat)
    ensures Whole(n, 1)
  {
    if n > 0 {
      AllWhole(n - 1);
    }
  }

  /** `AlignUp` is the least multiple of `s` at or above `x`. */
  lemma AlignUpLeast(x: nat, s: nat, m: nat)
    requires s > 0 && Whole(m, s) && x <= m
    ensures AlignUp(x, s) <= m
  {
    if m < AlignUp(x, s) {
      WholeApart(m, AlignUp(x, s), s);
    }
  }

  lemma AlignWhole(x: nat, s: nat)
    requires s > 0 && Whole(x, s)
    ensures AlignDown(x, s) == x == AlignUp(x, s)
  {
    AlignUpLeast(x, s, x);
    if AlignDown(x, s) < x {
      WholeApart(AlignDown(x, s), x, s);
    }
  }

  lemma DivModShift(x: nat, s: nat)
    requires 0 < s <= x
    ensures x / s == (x - s) / s + 1 && x % s == (x - s) % s
  {
    var q, r := (x - s) / s, (x - s) % s;
    assert x - s == q * s + r;
    assert x == (q + 1) * s + r;
    DivModUnique(q + 1, s, r);
  }

  lemma {:induction false} AlignDownMod(x: nat, s: nat)
    requires s > 0
    ensures AlignDown(x, s) == x - x % s && AlignDown(x, s) == s * (x / s)
    ensures Whole(x, s) <==> x % s == 0
  {
    if x >= s {
      AlignDownMod(x - s, s);
      DivModShift(x, s);
      var q := (x - s) / s;
      assert s * (q + 1) == s * q + s;
    } else {
      DivModUnique(0, s, x);
    }
  }

  lemma {:induction false} AlignTwice(x: nat, p: nat)
    requires p > 0
    ensures AlignDown(x, 2 * p) == 2 * AlignDown(x / 2, p)
  {
    if x >= 2 * p {
      AlignTwice(x - 2 * p, p);
      assert (x - 2 * p) / 2 == x / 2 - p;
    }
  }

  lemma {:induction false} AlignUnit(x: nat)
    ensures AlignDown(x, 1) == x
  {
    if x > 0 {
      AlignUnit(x - 1);
    }
  }

  /** Clearing the low `k` bits rounds down to a multiple of `2^k`. */
  lemma {:induction false} AndMask(w: nat, k: nat, x: nat)
    requires k <= w && x < Pow2(w)
    ensures Pow2(k) <= Pow2(w)
    ensures And(w, x, Pow2(w) - Pow2(k)) == AlignDown(x, Pow2(k))
  {
    hide And, AlignDown;
    if k == 0 {
      AndOnes(w, x);
      AlignUnit(x);
    } else {
      AndMask(w - 1, k - 1, x / 2);
      AndDouble(w, x, Pow2(w - 1) - Pow2(k - 1));
      AlignTwice(x, Pow2(k - 1));
    }
  }

  /** `RT_ALIGN(x, s)` on 32-bit words: `(x + s - 1) & ~(s - 1)`. */
  function RtAlign(x: U32, s: U32): U32
    requires s > 0
  {
    And(32, Wrap32(x + s - 1), 0xFFFF_FFFF - (s - 1))
  }

  /** `RT_ALIGN_DOWN(x, s)` on 32-bit words: `x & ~(s - 1)`. */
  function RtAlignDown(x: U32, s: U32): U32
    requires s > 0
  {
    And(32, x, 0xFFFF_FFFF - (s - 1))
  }

  lemma Pow2Of32()
    ensures Pow2(8) == 256 && Pow2(32) == 0x1_0000_0000
  {
    assert Pow2(8) == 256;
    assert Pow2(16) == 65536;
    assert Pow2(24) == 0x100_0000;
  }

  lemma ClearLow(x: U32, k: nat)
    requires k < 32
    ensures Pow2(k) <= 0x1_0000_0000
    ensures And(32, x, 0x1_0000_0000 - Pow2(k)) == AlignDown(x, Pow2(k))
  {
    Pow2Of32();
    AndMask(32, k, x);
  }

  lemma RtAlignDownExact(x: U32, s: U32)
    requires IsPow2(s)
    ensures RtAlignDown(x, s) == AlignDown(x, s)
  {
    var k := Pow2Exponent(s);
    ClearLow(x, k);
    assert 0xFFFF_FFFF - (s - 1) == 0x1_0000_0000 - Pow2(k);
  }

  lemma RtAlignSums(x: U32, s: U32)
    requires IsPow2(s)
    ensures s > 0 && RtAlign(x, s) == RtAlignDown(Wrap32(x + s - 1), s)
  {
    hide And;
  }

  /** The masked macros are true rounding when the size is a power of two and nothing wraps. */
  lemma RtAlignExact(x: U32, s: U32)
    requires IsPow2(s)
    ensures RtAlignDown(x, s) == AlignDown(x, s)
    ensures x + s - 1 < 0x1_0000_0000 ==> RtAlign(x, s) == AlignUp(x, s)
  {
    hide AlignDown, RtAlign, RtAlignDown, And, IsPow2, Wrap32;
    RtAlignDownExact(x, s);
    RtAlignSums(x, s);
    RtAlignDownExact(Wrap32(x + s - 1), s);
  }
}
