/** The storage that the boot loader works on: a few NOR-flash partitions behind one range check. */
module Storage {
  import opened Bits

  datatype Target = App | Download | Factory | SwapArea

  type Parts = map<Target, seq<Byte>>

  function Mem(parts: Parts, t: Target): seq<Byte> {
    if t in parts then parts[t] else []
  }

  function Fill(n: nat): (r: seq<Byte>)
    ensures |r| == n && forall i :: 0 <= i < n ==> r[i] == 0xFF
  {
    seq(n, _ => 0xFF)
  }

  /** The range check, subtraction first so that 32-bit arithmetic cannot wrap. */
  predicate RangeOk(m: seq<Byte>, off: nat, len: nat)
    ensures RangeOk(m, off, len) <==> |m| > 0 && off + len <= |m|
  {
    |m| != 0 && off <= |m| && len <= |m| - off
  }

  /** Programming NOR flash can only clear bits. */
  function Programmed(m: seq<Byte>, off: nat, data: seq<Byte>): (r: seq<Byte>)
    requires off + |data| <= |m|
    ensures |r| == |m|
  {
    seq(|m|, i requires 0 <= i < |m| => if off <= i < off + |data| then And(8, m[i], data[i - off]) else m[i])
  }

  /** Erasing sets every sector the range touches to 0xFF. */
  function Erased(m: seq<Byte>, off: nat, len: nat, sector: nat): (r: seq<Byte>)
    requires sector > 0 && off + len <= |m|
    ensures |r| == |m|
  {
    if len == 0 then m
    else
      var lo, end := AlignDown(off, sector), AlignUp(off + len, sector);
      var hi := if end <= |m| then end else |m|;
      m[..lo] + Fill(hi - lo) + m[hi..]
  }

  /** Bit by bit, programming clears what the data has clear, and leaves the rest of the region alone. */
  lemma ProgrammedBits(m: seq<Byte>, off: nat, data: seq<Byte>, k: nat, i: nat)
    requires off + |data| <= |m| && k < |m| && i < 8
    ensures Bit(Programmed(m, off, data)[k], i) <==>
            Bit(m[k], i) && (off <= k < off + |data| ==> Bit(data[k - off], i))
  {
    hide And, Bit;
    if off <= k < off + |data| {
      AndBits(8, m[k], data[k - off], i);
    }
  }

  /** An erase sets a byte exactly when its sector is one that the range touches, and leaves all others. */
  lemma ErasedByte(m: seq<Byte>, off: nat, len: nat, sector: nat, k: nat)
    requires sector > 0 && off + len <= |m| && k < |m|
    ensures Erased(m, off, len, sector)[k] ==
            if len > 0 && off / sector <= k / sector <= (off + len - 1) / sector then 0xFF else m[k]
  {
    hide AlignDown;
    if len > 0 {
      AlignDownMod(off, sector);
      AlignDownMod(off + len + sector - 1, sector);
      DivModShift(off + len + sector - 1, sector);
      SectorOf(k, off / sector, sector);
      SectorOf(k, (off + len - 1) / sector + 1, sector);
    }
  }

  /** A sector starts at its number times its size. */
  lemma SectorOf(k: nat, q: nat, sector: nat)
    requires sector > 0
    ensures sector * q <= k <==> q <= k / sector
  {
    var p := k / sector;
    assert k == p * sector + k % sector;
    if q <= p {
      if q < p {
        MulGap(q, p, sector);
      }
    } else {
      MulGap(p, q, sector);
    }
  }

  lemma {:induction false} AndErased(b: Byte)
    ensures And(8, 0xFF, b) == b
  {
    Pow2Of32();
    AndOnes(8, b);
  }

  /** Programming erased cells stores the data. */
  lemma ProgramErased(m: seq<Byte>, off: nat, data: seq<Byte>)
    requires off + |data| <= |m|
    requires forall i :: off <= i < off + |data| ==> m[i] == 0xFF
    ensures Programmed(m, off, data) == m[..off] + data + m[off + |data|..]
  {
    forall i | off <= i < off + |data|
      ensures Programmed(m, off, data)[i] == data[i - off]
    {
      AndErased(data[i - off]);
    }
  }

  lemma SliceJoin(s: seq<Byte>, a: nat, b: nat, c: nat)
    requires a <= b <= c <= |s|
    ensures s[a..b] + s[b..c] == s[a..c]
  {
  }

  lemma SliceOfSlice(s: seq<Byte>, a: nat, b: nat, i: nat, k: nat)
    requires a <= b <= |s| && i <= k <= b - a
    ensures s[a..b][i..k] == s[a + i..a + k]
  {
    forall t | 0 <= t < k - i
      ensures s[a..b][i..k][t] == s[a + i..a + k][t]
    {
      assert s[a..b][i + t] == s[a + (i + t)];
    }
  }

  /** Programming in consecutive chunks is programming in one go. */
  lemma ProgramChunks(m: seq<Byte>, off: nat, a: seq<Byte>, b: seq<Byte>)
    requires off + |a| + |b| <= |m|
    ensures Programmed(Programmed(m, off, a), off + |a|, b) == Programmed(m, off, a + b)
  {
  }

  lemma EraseExactly(m: seq<Byte>, lo: nat, hi: nat, sector: nat)
    requires sector > 0 && lo < hi <= |m|
    requires AlignDown(lo, sector) == lo && AlignUp(hi, sector) == hi
    ensures Erased(m, lo, hi - lo, sector) == m[..lo] + Fill(hi - lo) + m[hi..]
  {
    assert lo + (hi - lo) == hi;
  }

  /** Erasing whole sectors touches nothing else. */
  lemma EraseAligned(m: seq<Byte>, lo: nat, hi: nat, sector: nat)
    requires sector > 0 && Whole(lo, sector) && Whole(hi, sector) && lo < hi <= |m|
    ensures Erased(m, lo, hi - lo, sector) == m[..lo] + Fill(hi - lo) + m[hi..]
  {
    AlignWhole(lo, sector);
    AlignWhole(hi, sector);
    EraseExactly(m, lo, hi, sector);
  }

  // Operations and their replay

  datatype Op =
    | Erase(t: Target, off: nat, len: nat)
    | Program(t: Target, off: nat, data: seq<Byte>)

  predicate Applies(parts: Parts, op: Op) {
    match op
    case Erase(t, off, len) => RangeOk(Mem(parts, t), off, len)
    case Program(t, off, data) => RangeOk(Mem(parts, t), off, |data|)
  }

  /** The effect of one storage operation; an operation out of range changes nothing. */
  function Apply(parts: Parts, op: Op, sector: nat): (r: Parts)
    requires sector > 0
    ensures r.Keys == parts.Keys
    ensures forall t :: t in parts ==> |r[t]| == |parts[t]| && (t != op.t ==> r[t] == parts[t])
  {
    if !Applies(parts, op) then parts
    else
      match op
      case Erase(t, off, len) => parts[t := Erased(parts[t], off, len, sector)]
      case Program(t, off, data) => parts[t := Programmed(parts[t], off, data)]
  }

  /** Every operation that changed storage, oldest first; a mark starts a run of interest. */
  datatype Log = Empty | Mark(init: Log) | Then(init: Log, op: Op)

  function Replay(parts: Parts, log: Log, sector: nat): (r: Parts)
    requires sector > 0
    ensures r.Keys == parts.Keys
    ensures forall t :: t in parts ==> |r[t]| == |parts[t]|
  {
    match log
    case Empty => parts
    case Mark(init) => Replay(parts, init, sector)
    case Then(init, op) => Apply(Replay(parts, init, sector), op, sector)
  }

  /** The same partitions with the same sizes. */
  predicate SameShape(parts: Parts, parts': Parts) {
    parts'.Keys == parts.Keys && forall t :: t in parts ==> |parts'[t]| == |parts[t]|
  }

  lemma SameShapeSelf(a: Parts)
    ensures SameShape(a, a)
  {
  }

  lemma SameShapeTrans(a: Parts, b: Parts, c: Parts)
    requires SameShape(a, b) && SameShape(b, c)
    ensures SameShape(a, c)
  {
  }

  // The storage object

  class Store {
    var parts: Parts
    const sector: U32
    ghost var log: Log
    ghost var origin: Parts   // contents before the first logged operation

    constructor (parts: Parts, sector: U32)
      ensures this.parts == parts && this.sector == sector && log == Empty && origin == parts
    {
      this.parts, this.sector, log, origin := parts, sector, Empty, parts;
    }

    /** The log accounts for the contents. */
    ghost predicate Coherent()
      reads this
    {
      0 < sector && parts == Replay(origin, log, sector)
    }

    method Read(t: Target, off: U32, len: U32) returns (ok: bool, data: seq<Byte>)
      ensures ok == RangeOk(Mem(parts, t), off, len)
      ensures data == if ok then parts[t][off..off + len] else []
    {
      ok := RangeOk(Mem(parts, t), off, len);
      data := if ok then parts[t][off..off + len] else [];
    }

    method Write(t: Target, off: U32, data: seq<Byte>) returns (ok: bool)
      requires sector > 0
      modifies this`parts, this`log
      ensures old(Coherent()) ==> Coherent()
      ensures ok == Applies(old(parts), Program(t, off, data))
      ensures parts == Apply(old(parts), Program(t, off, data), sector)
      ensures ok ==> parts == old(parts)[t := Programmed(old(parts[t]), off, data)]
      ensures !ok ==> unchanged(this)
      ensures log == if ok then Then(old(log), Program(t, off, data)) else old(log)
    {
      ok := RangeOk(Mem(parts, t), off, |data|);
      if ok {
        parts := parts[t := Programmed(parts[t], off, data)];
        log := Then(log, Program(t, off, data));
      }
    }

    method EraseWithFeed(t: Target, off: U32, len: U32) returns (ok: bool)
      requires sector > 0
      modifies this`parts, this`log
      ensures old(Coherent()) ==> Coherent()
      ensures ok == Applies(old(parts), Erase(t, off, len))
      ensures parts == Apply(old(parts), Erase(t, off, len), sector)
      ensures ok ==> parts == old(parts)[t := Erased(old(parts[t]), off, len, sector)]
      ensures !ok ==> unchanged(this)
      ensures log == if ok then Then(old(log), Erase(t, off, len)) else old(log)
    {
      ok := RangeOk(Mem(parts, t), off, len);
      if ok {
        parts := parts[t := Erased(parts[t], off, len, sector)];
        log := Then(log, Erase(t, off, len));
      }
    }
  }
}
