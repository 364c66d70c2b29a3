/** CRC-32 of section 8 of RFC 1952 (gzip), as a fold over bytes. */
module Crc {
  import opened Bits

  /** Bitwise exclusive or of the low `w` bits. */
  function Xor(w: nat, x: nat, y: nat): (r: nat)
    ensures r < Pow2(w)
  {
    if w == 0 then 0
    else (if x % 2 == y % 2 then 0 else 1) + 2 * Xor(w - 1, x / 2, y / 2)
  }

  lemma XorStep(w: nat, x: nat, y: nat)
    requires w > 0
    ensures Xor(w, x, y) == (if x % 2 == y % 2 then 0 else 1) + 2 * Xor(w - 1, x / 2, y / 2)
  {
  }

  /** The exclusive or has exactly the bits in which its arguments differ. */
  lemma {:induction false} XorBits(w: nat, x: nat, y: nat, i: nat)
    requires i < w
    ensures Bit(Xor(w, x, y), i) <==> Bit(x, i) != Bit(y, i)
  {
    XorStep(w, x, y);
    if i > 0 {
      XorBits(w - 1, x / 2, y / 2, i - 1);
    }
  }

  function Xor32(x: U32, y: U32): U32 {
    Pow2Of32();
    Xor(32, x, y)
  }

  /** The generator polynomial, low bit first. */
  const POLYNOMIAL: U32 := 0xEDB8_8320

  /** One step of the division: shifts a bit out and subtracts the polynomial if it was set. */
  function Shift(c: U32): U32 {
    if c % 2 == 1 then Xor32(POLYNOMIAL, c / 2) else c / 2
  }

  /** One entry of the CRC table: `k` shift steps. */
  function TableEntry(c: U32, k: nat): U32
    decreases k
  {
    if k == 0 then c else TableEntry(Shift(c), k - 1)
  }

  function Update(c: U32, b: Byte): U32 {
    Xor32(TableEntry(Xor32(c, b) % 256, 8), c / 256)
  }

  /** Running CRC over a buffer. */
  function CycCal(c: U32, data: seq<Byte>): U32 {
    if data == [] then c else Update(CycCal(c, data[..|data| - 1]), data[|data| - 1])
  }

  /** A buffer may be taken in pieces. */
  lemma {:induction false} CycCalConcat(c: U32, a: seq<Byte>, b: seq<Byte>)
    ensures CycCal(c, a + b) == CycCal(CycCal(c, a), b)
  {
    if b == [] {
      assert a + b == a;
    } else {
      assert (a + b)[..|a + b| - 1] == a + b[..|b| - 1];
      CycCalConcat(c, a, b[..|b| - 1]);
    }
  }

  function Crc32(data: seq<Byte>): U32 {
    Xor32(CycCal(0xFFFF_FFFF, data), 0xFFFF_FFFF)
  }
}
