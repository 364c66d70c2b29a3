/** Power cuts on NOR flash: a log of operations cut anywhere, even in the middle of an operation, and
    then replayed from the start comes to what it comes to without the cut. */
module Restart {
  import opened Bits
  import opened Storage

  predicate TouchesByte(op: Op, t: Target, x: nat, size: nat, sector: nat)
    requires sector > 0
  {
    && op.t == t && size > 0
    && match op
       case Erase(_, off, len) => off + len <= size && len > 0
           && AlignDown(off, sector) <= x < AlignUp(off + len, sector)
       case Program(_, off, data) => off + |data| <= size && off <= x < off + |data|
  }

  /** Effect of an operation on one byte of a partition. */
  function ByteOp(op: Op, t: Target, x: nat, size: nat, sector: nat, b: Byte): Byte
    requires sector > 0
  {
    if !TouchesByte(op, t, x, size, sector) then b
    else
      match op
      case Erase(_, _, _) => 0xFF
      case Program(_, off, data) => And(8, b, data[x - off])
  }

  function ByteAfter(log: Log, t: Target, x: nat, size: nat, sector: nat, b: Byte): Byte
    requires sector > 0
  {
    match log
    case Empty => b
    case Mark(init) => ByteAfter(init, t, x, size, sector, b)
    case Then(init, op) => ByteOp(op, t, x, size, sector, ByteAfter(init, t, x, size, sector, b))
  }

  lemma ApplyByte(parts: Parts, op: Op, sector: nat, t: Target, x: nat)
    requires sector > 0 && t in parts && x < |parts[t]|
    ensures Apply(parts, op, sector)[t][x] == ByteOp(op, t, x, |parts[t]|, sector, parts[t][x])
  {
    hide And, AlignDown;
  }

  lemma {:induction false} ReplayByte(parts: Parts, log: Log, sector: nat, t: Target, x: nat)
    requires sector > 0 && t in parts && x < |parts[t]|
    ensures Replay(parts, log, sector)[t][x] == ByteAfter(log, t, x, |parts[t]|, sector, parts[t][x])
  {
    match log
    case Empty =>
    case Mark(init) => ReplayByte(parts, init, sector, t, x);
    case Then(init, op) =>
      ReplayByte(parts, init, sector, t, x);
      ApplyByte(Replay(parts, init, sector), op, sector, t, x);
  }

  // Cuts

  /** An operation cut off in the middle: any byte of a sector being erased may hold anything, a byte
      being programmed may have some of its bits cleared. */
  predicate TornByte(op: Op, t: Target, x: nat, size: nat, sector: nat, b: Byte, b': Byte)
    requires sector > 0
  {
    if !TouchesByte(op, t, x, size, sector) then b' == b
    else
      match op
      case Erase(_, _, _) => true
      case Program(_, off, data) => And(8, b', data[x - off]) == And(8, b, data[x - off])
  }

  ghost predicate Torn(parts: Parts, op: Op, sector: nat, parts': Parts)
    requires sector > 0
  {
    && SameShape(parts, parts')
    && forall t, x :: t in parts && 0 <= x < |parts[t]| ==>
       TornByte(op, t, x, |parts[t]|, sector, parts[t][x], parts'[t][x])
  }

  /** Contents after the operations of a log up to a power cut in, before or behind one of them. */
  ghost predicate Cut(parts: Parts, log: Log, sector: nat, parts': Parts)
    requires sector > 0
  {
    match log
    case Empty => parts' == parts
    case Mark(init) => Cut(parts, init, sector, parts')
    case Then(init, op) => Torn(Replay(parts, init, sector), op, sector, parts') || Cut(parts, init, sector, parts')
  }

  /** `init` is the log up to some moment. */
  predicate Within(init: Log, log: Log) {
    init == log ||
    match log
    case Empty => false
    case Mark(before) => Within(init, before)
    case Then(before, _) => Within(init, before)
  }

  predicate SameWhereSet(b: Byte, b': Byte, d: Byte) {
    forall i :: 0 <= i < 8 ==> Bit(d, i) ==> Bit(b', i) == Bit(b, i)
  }

  lemma AndSame(b: Byte, b': Byte, d: Byte)
    ensures And(8, b', d) == And(8, b, d) <==> SameWhereSet(b, b', d)
  {
    hide And, Bit;
    forall i | 0 <= i < 8
      ensures Bit(And(8, b', d), i) == (Bit(b', i) && Bit(d, i))
      ensures Bit(And(8, b, d), i) == (Bit(b, i) && Bit(d, i))
    {
      AndBits(8, b', d, i);
      AndBits(8, b, d, i);
    }
    if SameWhereSet(b, b', d) {
      forall i | 0 <= i < 8
        ensures Bit(And(8, b', d), i) == Bit(And(8, b, d), i)
      {
      }
      BitsDecide(8, And(8, b', d), And(8, b, d));
    }
  }

  /** A byte whose programming was cut off keeps every bit that the data does not clear, and may have any
      value in the others. */
  lemma TornBits(op: Op, t: Target, x: nat, size: nat, sector: nat, b: Byte, b': Byte)
    requires sector > 0 && op.Program? && TouchesByte(op, t, x, size, sector)
    ensures TornByte(op, t, x, size, sector, b, b') <==> SameWhereSet(b, b', op.data[x - op.off])
  {
    hide And, SameWhereSet;
    AndSame(b, b', op.data[x - op.off]);
  }

  /** An operation may be cut off when it is done. */
  lemma WholeIsTorn(parts: Parts, op: Op, sector: nat)
    requires sector > 0
    ensures Torn(parts, op, sector, Apply(parts, op, sector))
  {
    hide And, AlignDown;
    forall t, x | t in parts && 0 <= x < |parts[t]|
      ensures TornByte(op, t, x, |parts[t]|, sector, parts[t][x], Apply(parts, op, sector)[t][x])
    {
      ApplyByte(parts, op, sector, t, x);
      if op.Program? && TouchesByte(op, t, x, |parts[t]|, sector) {
        AndAgain(8, parts[t][x], op.data[x - op.off]);
      }
    }
  }

  /** Or when part of its data is in storage. */
  lemma FrontIsTorn(parts: Parts, t: Target, off: nat, data: seq<Byte>, k: nat, sector: nat)
    requires sector > 0 && Applies(parts, Program(t, off, data)) && k <= |data|
    ensures Torn(parts, Program(t, off, data), sector, Apply(parts, Program(t, off, data[..k]), sector))
  {
    hide And;
    var op, front := Program(t, off, data), Program(t, off, data[..k]);
    forall u, x | u in parts && 0 <= x < |parts[u]|
      ensures TornByte(op, u, x, |parts[u]|, sector, parts[u][x], Apply(parts, front, sector)[u][x])
    {
      ApplyByte(parts, front, sector, u, x);
      if TouchesByte(front, u, x, |parts[u]|, sector) {
        AndAgain(8, parts[u][x], data[x - off]);
      }
    }
  }

  /** What a cut may leave: the contents after any front of the log, and whatever an operation of the log that
      was cut off leaves of the contents before it. */
  lemma {:induction false} CutAnywhere(parts: Parts, init: Log, log: Log, sector: nat)
    requires sector > 0 && Within(init, log)
    ensures Cut(parts, log, sector, Replay(parts, init, sector))
    ensures init.Then? ==>
              forall parts' :: Torn(Replay(parts, init.init, sector), init.op, sector, parts') ==>
              Cut(parts, log, sector, parts')
  {
    hide Torn, Apply;
    if init != log {
      CutAnywhere(parts, init, log.init, sector);
    } else {
      CutNowhere(parts, log, sector);
    }
  }

  lemma {:induction false} CutNowhere(parts: Parts, log: Log, sector: nat)
    requires sector > 0
    ensures Cut(parts, log, sector, Replay(parts, log, sector))
  {
    hide Torn, Apply;
    match log
    case Empty =>
    case Mark(init) => CutNowhere(parts, init, sector);
    case Then(init, op) => WholeIsTorn(Replay(parts, init, sector), op, sector);
  }

  /** The same for one byte. */
  predicate CutByte(log: Log, t: Target, x: nat, size: nat, sector: nat, b: Byte, b': Byte)
    requires sector > 0
  {
    match log
    case Empty => b' == b
    case Mark(init) => CutByte(init, t, x, size, sector, b, b')
    case Then(init, op) =>
      || TornByte(op, t, x, size, sector, ByteAfter(init, t, x, size, sector, b), b')
      || CutByte(init, t, x, size, sector, b, b')
  }

  lemma {:induction false} CutBytes(parts: Parts, log: Log, sector: nat, parts': Parts, t: Target, x: nat)
    requires sector > 0 && Cut(parts, log, sector, parts') && t in parts && x < |parts[t]|
    ensures SameShape(parts, parts') && CutByte(log, t, x, |parts[t]|, sector, parts[t][x], parts'[t][x])
  {
    match log
    case Empty =>
    case Mark(init) => CutBytes(parts, init, sector, parts', t, x);
    case Then(init, op) =>
      if Torn(Replay(parts, init, sector), op, sector, parts') {
        ReplayByte(parts, init, sector, t, x);
        var q := Replay(parts, init, sector);
        assert TornByte(op, t, x, |q[t]|, sector, q[t][x], parts'[t][x]);
      } else {
        CutBytes(parts, init, sector, parts', t, x);
      }
  }

  // One byte

  predicate Wiped(log: Log, t: Target, x: nat, size: nat, sector: nat)
    requires sector > 0
  {
    match log
    case Empty => false
    case Mark(init) => Wiped(init, t, x, size, sector)
    case Then(init, op) => (op.Erase? && TouchesByte(op, t, x, size, sector)) || Wiped(init, t, x, size, sector)
  }

  lemma {:induction false} WipedForgets(log: Log, t: Target, x: nat, size: nat, sector: nat, b: Byte, c: Byte)
    requires sector > 0 && Wiped(log, t, x, size, sector)
    ensures ByteAfter(log, t, x, size, sector, b) == ByteAfter(log, t, x, size, sector, c)
  {
    match log
    case Mark(init) => WipedForgets(init, t, x, size, sector, b, c);
    case Then(init, op) =>
      if Wiped(init, t, x, size, sector) {
        WipedForgets(init, t, x, size, sector, b, c);
      }
  }

  lemma AndHalf(w: nat, x: nat, y: nat)
    requires w > 0
    ensures And(w, x, y) / 2 == And(w - 1, x / 2, y / 2)
    ensures And(w, x, y) % 2 == 1 <==> x % 2 == 1 && y % 2 == 1
  {
    hide And;
    AndStep(w, x, y);
  }

  lemma {:induction false} AndSwap(w: nat, x: nat, y: nat, z: nat)
    ensures And(w, And(w, x, y), z) == And(w, And(w, x, z), y)
  {
    if w > 0 {
      hide And;
      AndSwap(w - 1, x / 2, y / 2, z / 2);
      AndHalf(w, x, y);
      AndHalf(w, x, z);
      AndStep(w, And(w, x, y), z);
      AndStep(w, And(w, x, z), y);
    }
  }

  /** Without an erase, clearing bits first is clearing them last. */
  lemma {:induction false} AndFirst(log: Log, t: Target, x: nat, size: nat, sector: nat, b: Byte, d: Byte)
    requires sector > 0 && !Wiped(log, t, x, size, sector)
    ensures ByteAfter(log, t, x, size, sector, And(8, b, d)) == And(8, ByteAfter(log, t, x, size, sector, b), d)
  {
    hide And;
    match log
    case Empty =>
    case Mark(init) => AndFirst(init, t, x, size, sector, b, d);
    case Then(init, op) =>
      AndFirst(init, t, x, size, sector, b, d);
      if op.Program? && TouchesByte(op, t, x, size, sector) {
        AndSwap(8, ByteAfter(init, t, x, size, sector, b), d, op.data[x - op.off]);
      }
  }

  /** An unerased byte: replaying the log over what any cut left of it changes nothing. */
  lemma {:induction false} UnwipedRestarts(log: Log, t: Target, x: nat, size: nat, sector: nat, b: Byte, b': Byte)
    requires sector > 0 && !Wiped(log, t, x, size, sector) && CutByte(log, t, x, size, sector, b, b')
    ensures ByteAfter(log, t, x, size, sector, b') == ByteAfter(log, t, x, size, sector, b)
  {
    hide And;
    match log
    case Empty =>
    case Mark(init) => UnwipedRestarts(init, t, x, size, sector, b, b');
    case Then(init, op) =>
      if CutByte(init, t, x, size, sector, b, b') {
        UnwipedRestarts(init, t, x, size, sector, b, b');
      } else {
        var c := ByteAfter(init, t, x, size, sector, b);
        FullIsCut(init, t, x, size, sector, b);
        UnwipedRestarts(init, t, x, size, sector, b, c);
        if TouchesByte(op, t, x, size, sector) {
          var d := op.data[x - op.off];
          AndFirst(init, t, x, size, sector, b', d);
          AndFirst(init, t, x, size, sector, c, d);
        }
      }
  }

  lemma {:induction false} FullIsCut(log: Log, t: Target, x: nat, size: nat, sector: nat, b: Byte)
    requires sector > 0
    ensures CutByte(log, t, x, size, sector, b, ByteAfter(log, t, x, size, sector, b))
  {
    match log
    case Empty =>
    case Mark(init) => FullIsCut(init, t, x, size, sector, b);
    case Then(init, op) =>
      if op.Program? && TouchesByte(op, t, x, size, sector) {
        AndAgain(8, ByteAfter(init, t, x, size, sector, b), op.data[x - op.off]);
      }
  }

  // All bytes

  /** Any log of erases and programs may be cut off anywhere and replayed from the start: erased bytes
      forget what they held, and clearing bits twice is clearing them once. */
  lemma CutThenReplay(parts: Parts, log: Log, sector: nat, parts': Parts)
    requires sector > 0 && Cut(parts, log, sector, parts')
    ensures Replay(parts', log, sector) == Replay(parts, log, sector)
  {
    var p, q := Replay(parts, log, sector), Replay(parts', log, sector);
    CutShape(parts, log, sector, parts');
    forall t | t in parts
      ensures q[t] == p[t]
    {
      forall x | 0 <= x < |parts[t]|
        ensures q[t][x] == p[t][x]
      {
        ReplayByte(parts, log, sector, t, x);
        ReplayByte(parts', log, sector, t, x);
        CutBytes(parts, log, sector, parts', t, x);
        if Wiped(log, t, x, |parts[t]|, sector) {
          WipedForgets(log, t, x, |parts[t]|, sector, parts[t][x], parts'[t][x]);
        } else {
          UnwipedRestarts(log, t, x, |parts[t]|, sector, parts[t][x], parts'[t][x]);
        }
      }
    }
  }

  lemma {:induction false} CutShape(parts: Parts, log: Log, sector: nat, parts': Parts)
    requires sector > 0 && Cut(parts, log, sector, parts')
    ensures SameShape(parts, parts')
  {
    match log
    case Empty =>
    case Mark(init) => CutShape(parts, init, sector, parts');
    case Then(init, op) =>
      if Cut(parts, init, sector, parts') {
        CutShape(parts, init, sector, parts');
      }
  }

  /** A cut changes no byte that no operation of the log touches. */
  predicate Untouched(log: Log, t: Target, x: nat, size: nat, sector: nat)
    requires sector > 0
  {
    match log
    case Empty => true
    case Mark(init) => Untouched(init, t, x, size, sector)
    case Then(init, op) => !TouchesByte(op, t, x, size, sector) && Untouched(init, t, x, size, sector)
  }

  lemma {:induction false} UntouchedStays(log: Log, t: Target, x: nat, size: nat, sector: nat, b: Byte, b': Byte)
    requires sector > 0 && Untouched(log, t, x, size, sector)
    ensures ByteAfter(log, t, x, size, sector, b) == b
    ensures CutByte(log, t, x, size, sector, b, b') ==> b' == b
  {
    match log
    case Empty =>
    case Mark(init) => UntouchedStays(init, t, x, size, sector, b, b');
    case Then(init, op) => UntouchedStays(init, t, x, size, sector, b, b');
  }
}
