/** The build without compression: input buffer, cipher scratch and output buffer are one array, and
    the stored format is passed on in place. */
module SharedBuffer {
  import opened Bits
  import opened Storage
  import opened StreamSpec
  import opened StreamProof
  import opened Stream
  import opened Crc

  /** In place, the decoder hands on all its input, whatever the output room. */
  function InPlaceStep<S>(st: S, input: seq<Byte>, cap: nat, ctx: Ctx): Step<S> {
    if |input| == 0 then Step(NoSpace, st, 0, []) else Step(Ok, st, |input|, input)
  }

  function InPlaceCodec<S>(init: S): Codec<S> {
    Codec(init, (st: S, input: seq<Byte>, cap: nat, ctx: Ctx) => InPlaceStep(st, input, cap, ctx))
  }

  /** A pass in this build. */
  ghost predicate Shared<S(!new), V(!new)>(p: Pass<S, V>) {
    p.codec == InPlaceCodec(p.codec.init) && KeepsLength(p.cipher) && p.inCap == p.readSize == BUF_SIZE
  }

  /** Where the next read ends. */
  function NextRead<S, V>(p: Pass<S, V>, c: nat): (d: nat)
    requires c <= p.pkgSize
    ensures c <= d <= p.pkgSize && d - c <= BUF_SIZE
  {
    var remain := ToInt32(p.pkgSize - c);
    if remain > 0 then c + Min(BUF_SIZE, remain) else c
  }

  /** What the next read brings, deciphered in place. */
  function Piece<S, V>(p: Pass<S, V>, v: V, c: nat, d: nat): (V, seq<Byte>)
    requires c <= d && HEADER_SIZE + d <= |p.src|
  {
    p.cipher.decrypt(v, p.src[HEADER_SIZE + c..HEADER_SIZE + d])
  }

  /** A read brings something, and all of it can be handed on. */
  predicate PieceFits<S, V>(p: Pass<S, V>, c: nat, d: nat) {
    c < d <= p.rawSize && HEADER_SIZE + d <= |p.src| && Takes(p.sink, c, d - c)
  }

  lemma SharedInner<S(!new), V(!new)>(p: Pass<S, V>, st: S, input: seq<Byte>, c: nat, out: seq<seq<Byte>>)
      returns (r: Inner<S>)
    requires Shared(p) && c < p.rawSize && 0 < |input| <= BUF_SIZE
    ensures r == DecodeAll(p, st, input, c, c, out)
    ensures if |input| > p.rawSize - c then r.pos == c && r.out == out
            else if !Takes(p.sink, c, |input|) then r.rc == Error && r.out == out
            else r.rc != Error && r.pos == c + |input| && r.rest == [] && r.out == out + [input]
  {
    var m := Advance(p, st, input, c, c);
    var input', c', out' := input, c, out;
    if m.Go? {
      assert m.output == input && input[|input|..] == [];
      input', c', out' := [], c + |input|, out + [input];
      var m' := Advance(p, m.st, [], c', c');
      assert m'.Halt? && m'.rc != Error;
      DecodeTurns(p, m.st, [], c', c', out', m', [], c', c', out');
    }
    DecodeTurns(p, st, input, c, c, out, m, input', c', c', out');
    r := DecodeAll(p, st, input, c, c, out);
  }

  /** The read of a round with nothing pending. */
  lemma SharedFetch<S(!new), V(!new)>(p: Pass<S, V>, v: V, c: nat, d: nat)
    requires Shared(p) && c <= p.pkgSize && d == NextRead(p, c)
    ensures Fetch(p, v, c, 0) ==
            if c < d && HEADER_SIZE + d <= |p.src| then Got(Piece(p, v, c, d).0, Piece(p, v, c, d).1)
            else Stop(false)
    ensures c < d && HEADER_SIZE + d <= |p.src| ==> |Piece(p, v, c, d).1| == d - c
  {
  }

  /** One round with nothing pending: everything read is handed on, or the pass fails. */
  lemma SharedTurns<S(!new), V(!new)>(p: Pass<S, V>, st: S, v: V, c: nat, d: nat, out: seq<seq<Byte>>) returns (st': S)
    requires Shared(p) && c < p.rawSize && c <= p.pkgSize && d == NextRead(p, c)
    ensures Process(p, st, v, c, [], c, out) ==
            if PieceFits(p, c, d) then Process(p, st', Piece(p, v, c, d).0, d, [], d, out + [Piece(p, v, c, d).1])
            else Failed(out)
  {
    hide Process, OneRound, DecodeAll, Advance, AfterRead, InPlaceStep, Fetch, NextRead, InPlaceCodec, Piece;
    SharedFetch(p, v, c, d);
    var go := c < d && HEADER_SIZE + d <= |p.src|;
    var piece := if go then Piece(p, v, c, d) else (v, []);
    var r := Inner(Error, st, [], 0, 0, []);
    assert [] + piece.1 == piece.1;
    if go {
      r := SharedInner(p, st, piece.1, c, out);
    }
    RoundTurns(p, st, v, c, [], c, out, go, piece.0, piece.1, d, piece.1, r);
    st' := r.st;
  }

  /** The image ends where body and reads allow it. */
  predicate EndsAtRead(rawSize: nat, pkgSize: nat) {
    rawSize == pkgSize || (rawSize < pkgSize && rawSize % BUF_SIZE == 0)
  }

  /** Reads end at multiples of the buffer size, up to the end of the package. */
  lemma ReadEnds<S(!new), V(!new)>(p: Pass<S, V>, c: nat)
    requires c <= p.pkgSize < 0x8000_0000 && (c % BUF_SIZE == 0 || c == p.pkgSize)
    ensures var d := NextRead(p, c);
            && (d % BUF_SIZE == 0 || d == p.pkgSize) && (c < p.pkgSize <==> c < d)
            && (c < p.rawSize < d ==> p.rawSize % BUF_SIZE != 0)
  {
  }

  lemma {:induction false} SharedProcess<S(!new), V(!new)>(p: Pass<S, V>, block: nat, st: S, c: nat,
                                                           out: seq<seq<Byte>>)
    requires Shared(p) && PassOk(p, block) && |PlainBody(p)| == p.pkgSize < 0x8000_0000
    requires p.sink.Upto? ==> 0 < p.sink.size && p.rawSize <= p.sink.size
    requires c <= p.pkgSize && c <= p.rawSize && (c % BUF_SIZE == 0 || c == p.pkgSize) && Whole(c, block)
    requires Flatten(out) == PlainBody(p)[..c]
    ensures var o := Process(p, st, After(p, c).0, c, [], c, out);
            && (o.Done? <==> EndsAtRead(p.rawSize, p.pkgSize))
            && (o.Done? ==> Flatten(o.chunks) == PlainBody(p)[..p.rawSize])
    decreases p.rawSize - c
  {
    hide Process, Flatten, After, PlainBody, Chains, Whole, NextRead, KeepsLength;
    if c < p.rawSize {
      var d := NextRead(p, c);
      ReadEnds(p, c);
      var st' := SharedTurns(p, st, After(p, c).0, c, d, out);
      if c < d <= p.rawSize {
        WholeSum(c, d - c, block);
        WholeSum(c, p.pkgSize - c, block);
        CipherNext(p, block, c, d);
        FlattenAppend(out, PlainBody(p)[c..d]);
        SliceJoin(PlainBody(p), 0, c, d);
        SharedProcess(p, block, st', d, out + [PlainBody(p)[c..d]]);
      }
    } else {
      ProcessEnds(p, st, After(p, c).0, c, [], c, out);
    }
  }

  /** With one array for all three buffers the pass succeeds exactly when body and image have the same
      size, or the image is shorter and ends where a read ends; it then delivers the plain body. */
  lemma SharedExact<S(!new), V(!new)>(p: Pass<S, V>, block: nat)
    requires Shared(p) && PassOk(p, block) && |PlainBody(p)| == p.pkgSize < 0x8000_0000
    requires p.sink.Upto? ==> 0 < p.sink.size && p.rawSize <= p.sink.size
    ensures var o := RunPass(p);
            && (o.Done? <==> EndsAtRead(p.rawSize, p.pkgSize))
            && (o.Done? ==> Flatten(o.chunks) == PlainBody(p)[..p.rawSize])
  {
    hide Process, PlainBody;
    AfterNothing(p, block);
    SharedProcess(p, block, p.codec.init, 0, []);
  }

  lemma {:induction false} SharedStays<S(!new), V(!new)>(p: Pass<S, V>, st: S, v: V, c: nat, out: seq<seq<Byte>>)
    requires Shared(p) && c <= p.pkgSize && c <= p.rawSize
    ensures !Process(p, st, v, c, [], c, out).Overrun?
    decreases p.rawSize - c
  {
    hide Process;
    if c < p.rawSize {
      var d := NextRead(p, c);
      var st' := SharedTurns(p, st, v, c, d, out);
      if PieceFits(p, c, d) {
        SharedStays(p, st', Piece(p, v, c, d).0, d, out + [Piece(p, v, c, d).1]);
      }
    } else {
      ProcessEnds(p, st, v, c, [], c, out);
    }
  }

  /** Whatever the source holds, the one buffer is not overrun. */
  lemma SharedNeverOverruns<S(!new), V(!new)>(p: Pass<S, V>)
    requires Shared(p)
    ensures !RunPass(p).Overrun?
  {
    SharedStays(p, p.codec.init, p.cipher.init, 0, []);
  }

  // Over one array

  /** Reads the next piece into the one buffer and deciphers it in place. */
  method ReadInPlace<S, V(!new)>(store: Store, c: Config<S, V>, off: U32, n: U32, buf: array<Byte>, v: V)
    returns (ok: bool, v': V)
    requires KeepsLength(c.cipher) && n <= buf.Length
    modifies buf
    ensures ok == RangeOk(Mem(store.parts, c.src), off, n)
    ensures ok ==> (v', buf[..n]) == c.cipher.decrypt(v, store.parts[c.src][off..off + n])
  {
    v' := v;
    var data;
    ok, data := store.Read(c.src, off, n);
    if ok {
      forall i | 0 <= i < n {
        buf[i] := data[i];
      }
      assert buf[..n] == data;
      var d := c.cipher.decrypt(v, buf[..n]);
      v' := d.0;
      forall i | 0 <= i < n {
        buf[i] := d.1[i];
      }
      assert buf[..n] == d.1;
    }
  }

  /** The read of a round over the one array. */
  method SharedRead<S(!new), V(!new)>(store: Store, c: Config<S, V>, buf: array<Byte>, pos: U32, v: V,
                                      ghost p: Pass<S, V>) returns (ok: bool, v': V, n: U32)
    requires p == PassOf(store.parts, c, BUF_SIZE) && Shared(p) && |p.src| < 0x8000_0000
    requires buf.Length == BUF_SIZE && pos <= c.pkgSize && HEADER_SIZE + pos < 0x1_0000_0000
    modifies buf
    ensures var d := NextRead(p, pos); ok <==> pos < d && HEADER_SIZE + d <= |p.src|
    ensures ok ==> pos + n == NextRead(p, pos) && 0 < n <= BUF_SIZE && HEADER_SIZE + pos + n < 0x8000_0000
    ensures ok ==> (v', buf[..n]) == Piece(p, v, pos, pos + n)
  {
    var srcReadPos := HEADER_SIZE + pos;
    var pkgEnd := Wrap32(c.pkgSize + HEADER_SIZE);
    var remainLen := ToInt32(Wrap32(pkgEnd - srcReadPos));
    ok, v', n := false, v, 0;
    if remainLen > 0 {
      n := if c.readSize > remainLen then remainLen else c.readSize;
      ok, v' := ReadInPlace(store, c, srcReadPos, n, buf, v);
    }
  }

  /** One round over the one array. */
  method SharedRound<S(!new), V(!new)>(store: Store, c: Config<S, V>, buf: array<Byte>, v: V, pos: U32, crc: U32,
                                       ghost a: Start<S, V>, ghost st: S, ghost out: seq<seq<Byte>>)
    returns (go: bool, v': V, pos': U32, crc': U32, ghost st': S, ghost out': seq<seq<Byte>>)
    requires Consumed(store, c, a, BUF_SIZE, pos, crc, out) && (c.dst.WriteTo? ==> c.dst.t != c.src)
    requires Shared(a.p) && KeepsLength(a.p.cipher) && buf.Length == BUF_SIZE && |a.p.src| < 0x8000_0000
    requires pos < c.rawSize && pos <= c.pkgSize && HEADER_SIZE + pos < 0x1_0000_0000
    modifies store`parts, store`log, buf
    ensures Consumed(store, c, a, BUF_SIZE, pos', crc', out')
    ensures go ==> pos < pos' <= c.rawSize && pos' <= c.pkgSize && HEADER_SIZE + pos' < 0x1_0000_0000
    ensures Process(a.p, st, v, pos, [], pos, out) ==
            if go then Process(a.p, st', v', pos', [], pos', out') else Failed(out')
  {
    hide Process, Flatten, Written, CycCal, Shared, NextRead;
    pos', crc', out' := pos, crc, out;
    st' := SharedTurns(a.p, st, v, pos, NextRead(a.p, pos), out);
    var n;
    go, v', n := SharedRead(store, c, buf, pos, v, a.p);
    if go {
      var cap := Min(c.rawSize - pos, BUF_SIZE);
      go := n <= cap;
      if go {
        go, crc' := Consume(store, c, buf[..n], pos, crc, a, BUF_SIZE, out);
        if go {
          pos', out' := pos + n, out + [buf[..n]];
        }
      }
    }
  }

  /** The pass over one array is the pass of this build. */
  method FwStreamShared<S(!new), V(!new)>(store: Store, c: Config<S, V>, buf: array<Byte>, crc0: U32)
    returns (ok: bool, crc: U32, ghost out: seq<seq<Byte>>)
    requires store.Coherent() && (c.dst.WriteTo? ==> c.dst.t != c.src) && buf.Length == BUF_SIZE
    requires Shared(PassOf(store.parts, c, BUF_SIZE)) && KeepsLength(c.cipher)
    requires |Mem(store.parts, c.src)| < 0x8000_0000
    modifies store`parts, store`log, buf
    ensures store.Coherent() && store.log == Written(old(store.log), c.dst, out)
    ensures RunPass(old(PassOf(store.parts, c, BUF_SIZE))) == if ok then Done(out) else Failed(out)
    ensures crc == if c.dst.CrcOnly? then CycCal(crc0, Flatten(out)) else crc0
  {
    ghost var a := Start(PassOf(store.parts, c, BUF_SIZE), store.log, crc0);
    ghost var result := RunPass(a.p);
    var v, pos: U32, go := c.cipher.init, 0, true;
    ghost var st := c.codec.init;
    crc, out := crc0, [];
    hide Shared, Process;
    while go && pos < c.rawSize
      invariant Consumed(store, c, a, BUF_SIZE, pos, crc, out)
      invariant go ==> pos <= c.rawSize && pos <= c.pkgSize && HEADER_SIZE + pos < 0x1_0000_0000
      invariant go ==> result == Process(a.p, st, v, pos, [], pos, out)
      invariant !go ==> result == Failed(out)
      decreases go, c.rawSize - pos
    {
      go, v, pos, crc, st, out := SharedRound(store, c, buf, v, pos, crc, a, st, out);
    }
    ok := go;
    if go {
      ProcessEnds(a.p, st, v, pos, [], pos, out);
    }
  }
}
