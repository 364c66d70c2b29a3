/** The streaming decode pipeline: two nested loops over shared buffers. */
module Stream {
  import opened Bits
  import opened Storage
  import opened StreamSpec
  import opened Crc

  datatype Destination = CrcOnly | WriteTo(t: Target)

  /** Fixed configuration of a pass. */
  datatype Config<!S, !V> = Config(src: Target, dst: Destination, pkgSize: U32, rawSize: U32, readSize: U32,
                                   purpose: Purpose, codec: Codec<S>, cipher: Cipher<V>)

  /** The pass that a configuration stands for, over given storage contents. */
  function PassOf<S, V>(parts: Parts, c: Config<S, V>, inCap: nat): Pass<S, V> {
    Pass(Mem(parts, c.src), c.pkgSize, c.rawSize, inCap, c.readSize, c.codec, c.cipher, c.purpose,
         match c.dst
         case CrcOnly => Discard
         case WriteTo(t) => Upto(|Mem(parts, t)|))
  }

  /** The log after writing chunks one behind the other to the destination. */
  function Written(log: Log, dst: Destination, chunks: seq<seq<Byte>>): Log {
    if chunks == [] || dst.CrcOnly? then log
    else
      var init := chunks[..|chunks| - 1];
      Then(Written(log, dst, init), Program(dst.t, |Flatten(init)|, chunks[|chunks| - 1]))
  }

  lemma WrittenAppend(log: Log, dst: Destination, chunks: seq<seq<Byte>>, chunk: seq<Byte>)
    ensures Written(log, dst, chunks + [chunk]) ==
            if dst.CrcOnly? then log else Then(Written(log, dst, chunks), Program(dst.t, |Flatten(chunks)|, chunk))
  {
    assert (chunks + [chunk])[..|chunks|] == chunks;
  }

  /** Where a pass started: what it is, and log and CRC before it. */
  datatype Start<!S, !V> = Start(p: Pass<S, V>, log: Log, crc: U32)

  /** The chunks `out` have been consumed: they are in the log, or in the CRC; the source is untouched. */
  ghost predicate Consumed<S, V>(store: Store, c: Config<S, V>, a: Start<S, V>, inCap: nat, pos: U32, crc: U32,
                                 out: seq<seq<Byte>>)
    reads store
  {
    && store.Coherent() && a.p == PassOf(store.parts, c, inCap)
    && pos as nat == |Flatten(out)|
    && store.log == Written(a.log, c.dst, out)
    && crc == if c.dst.CrcOnly? then CycCal(a.crc, Flatten(out)) else a.crc
  }

  /** The consumer: folds a chunk into the CRC or writes it behind the previous one. */
  method Consume<S, V>(store: Store, c: Config<S, V>, data: seq<Byte>, pos: U32, crc: U32,
                       ghost a: Start<S, V>, ghost inCap: nat, ghost out: seq<seq<Byte>>) returns (ok: bool, crc': U32)
    requires Consumed(store, c, a, inCap, pos, crc, out)
    requires pos + |data| < 0x1_0000_0000 && (c.dst.WriteTo? ==> c.dst.t != c.src)
    modifies store`parts, store`log
    ensures ok == Takes(a.p.sink, pos, |data|)
    ensures ok ==> Consumed(store, c, a, inCap, pos + |data|, crc', out + [data])
    ensures !ok ==> Consumed(store, c, a, inCap, pos, crc', out)
  {
    WrittenAppend(a.log, c.dst, out, data);
    FlattenAppend(out, data);
    match c.dst
    case CrcOnly =>
      CycCalConcat(a.crc, Flatten(out), data);
      crc' := CycCal(crc, data);
      ok := true;
    case WriteTo(t) =>
      crc' := crc;
      ok := store.Write(t, pos, data);
  }

  /** Calls the decoder once on the pending input; its output goes to the output buffer. */
  method Decompress<S, V>(c: Config<S, V>, st: S, cmprsBuf: array<Byte>, len: nat, outBuf: array<Byte>, cap: nat,
                          ctx: Ctx) returns (step: Step<S>)
    requires len <= cmprsBuf.Length && cap <= outBuf.Length && cmprsBuf != outBuf
    modifies outBuf
    ensures step == c.codec.step(st, old(cmprsBuf[..len]), cap, ctx)
    ensures |step.output| <= cap ==> outBuf[..|step.output|] == step.output
  {
    step := c.codec.step(st, cmprsBuf[..len], cap, ctx);
    if |step.output| <= cap {
      forall i | 0 <= i < |step.output| {
        outBuf[i] := step.output[i];
      }
    }
  }

  /** One round of the inner loop: decode, check, consume. */
  method Turn<S, V>(store: Store, c: Config<S, V>, cmprsBuf: array<Byte>, outBuf: array<Byte>, st: S, len: nat, at: nat,
                    pos: U32, crc: U32, ghost a: Start<S, V>, ghost out: seq<seq<Byte>>)
    returns (m: Move<S>, crc': U32)
    requires Consumed(store, c, a, cmprsBuf.Length, pos, crc, out) && (c.dst.WriteTo? ==> c.dst.t != c.src)
    requires len <= cmprsBuf.Length && pos <= c.rawSize && cmprsBuf != outBuf && outBuf.Length == BUF_SIZE
    modifies store`parts, store`log, outBuf
    ensures m == Advance(a.p, st, old(cmprsBuf[..len]), at, pos)
    ensures if m.Go? then Consumed(store, c, a, cmprsBuf.Length, pos + |m.output|, crc', out + [m.output])
            else Consumed(store, c, a, cmprsBuf.Length, pos, crc', out)
  {
    hide Written, Flatten, CycCal, Replay, Process, DecodeAll;
    crc' := crc;
    if pos == c.rawSize || (len == 0 && at < c.pkgSize) {
      return Halt(Ok, st), crc;
    }
    var cap := Min(c.rawSize - pos, BUF_SIZE);
    var step := Decompress(c, st, cmprsBuf, len, outBuf, cap, Ctx(c.pkgSize, at, c.rawSize - pos, c.purpose));
    if step.rc != Ok {
      return Halt(step.rc, step.st), crc;
    }
    if step.consumed > len || |step.output| > cap || (step.consumed == 0 && |step.output| == 0) {
      return Halt(Ok, step.st), crc;
    }
    var ok;
    ok, crc' := Consume(store, c, outBuf[..|step.output|], pos, crc, a, cmprsBuf.Length, out);
    m := if ok then Go(step.st, step.consumed, step.output) else Halt(Error, step.st);
  }

  /** Moves the input that is left to the front of the buffer. */
  method Compact(cmprsBuf: array<Byte>, len: nat, taken: nat)
    requires taken <= len <= cmprsBuf.Length
    modifies cmprsBuf
    ensures cmprsBuf[..len - taken] == old(cmprsBuf[..len])[taken..]
  {
    forall i | 0 <= i < len - taken {
      cmprsBuf[i] := cmprsBuf[i + taken];
    }
  }

  /** One round of the inner loop with the buffer compacted behind it. */
  method TurnAndCompact<S, V>(store: Store, c: Config<S, V>, cmprsBuf: array<Byte>, outBuf: array<Byte>, st: S,
                              len: nat, at: nat, pos: U32, crc: U32, ghost a: Start<S, V>, ghost out: seq<seq<Byte>>)
      returns (m: Move<S>, crc': U32)
    requires Consumed(store, c, a, cmprsBuf.Length, pos, crc, out) && (c.dst.WriteTo? ==> c.dst.t != c.src)
    requires len <= cmprsBuf.Length && pos <= c.rawSize && cmprsBuf != outBuf && outBuf.Length == BUF_SIZE
    modifies store`parts, store`log, cmprsBuf, outBuf
    ensures m == Advance(a.p, st, old(cmprsBuf[..len]), at, pos)
    ensures if m.Go? then Consumed(store, c, a, cmprsBuf.Length, pos + |m.output|, crc', out + [m.output])
            else Consumed(store, c, a, cmprsBuf.Length, pos, crc', out)
    ensures cmprsBuf[..if m.Go? then len - m.taken else len] == old(cmprsBuf[..len])[if m.Go? then m.taken else 0..]
  {
    m, crc' := Turn(store, c, cmprsBuf, outBuf, st, len, at, pos, crc, a, out);
    if m.Go? {
      Compact(cmprsBuf, len, m.taken);
    }
  }

  lemma ConsumedSizes<S, V>(store: Store, c: Config<S, V>, a: Start<S, V>, inCap: nat, pos: U32, crc: U32,
                            out: seq<seq<Byte>>)
    requires Consumed(store, c, a, inCap, pos, crc, out)
    ensures a.p.rawSize == c.rawSize && a.p.pkgSize == c.pkgSize
  {
  }

  /** One round of the inner loop; `result` is what the loop comes to. */
  method Cycle<S, V>(store: Store, c: Config<S, V>, cmprsBuf: array<Byte>, outBuf: array<Byte>, st: S, len: nat,
                     at: nat, pos: U32, crc: U32, ghost a: Start<S, V>, ghost out: seq<seq<Byte>>,
                     ghost result: Inner<S>)
      returns (m: Move<S>, len': nat, at': nat, pos': U32, crc': U32, ghost out': seq<seq<Byte>>)
    requires Consumed(store, c, a, cmprsBuf.Length, pos, crc, out) && (c.dst.WriteTo? ==> c.dst.t != c.src)
    requires len <= cmprsBuf.Length && pos <= c.rawSize && cmprsBuf != outBuf && outBuf.Length == BUF_SIZE
    requires result == DecodeAll(a.p, st, cmprsBuf[..len], at, pos, out)
    modifies store`parts, store`log, cmprsBuf, outBuf
    ensures Consumed(store, c, a, cmprsBuf.Length, pos', crc', out')
    ensures len' <= len && pos <= pos' <= c.rawSize && at' + len' == at + len
    ensures m.Go? ==> c.rawSize - pos' + len' < c.rawSize - pos + len
    ensures result == if m.Go? then DecodeAll(a.p, m.st, cmprsBuf[..len'], at', pos', out')
                      else Inner(m.rc, m.st, cmprsBuf[..len'], at', pos', out')
  {
    hide Consumed, DecodeAll, Advance;
    ConsumedSizes(store, c, a, cmprsBuf.Length, pos, crc, out);
    ghost var input := cmprsBuf[..len];
    m, crc' := TurnAndCompact(store, c, cmprsBuf, outBuf, st, len, at, pos, crc, a, out);
    var taken := if m.Go? then m.taken else 0;
    len', at' := len - taken, at + taken;
    pos', out' := if m.Go? then pos + |m.output| else pos, if m.Go? then out + [m.output] else out;
    DecodeTurns(a.p, st, input, at, pos, out, m, cmprsBuf[..len'], at', pos', out');
  }

  /** Decodes the pending input and forwards each produced chunk to the consumer. */
  method DecompressWithConsumer<S, V>(store: Store, c: Config<S, V>, cmprsBuf: array<Byte>, outBuf: array<Byte>,
                                      st0: S, inLen: nat, consumed: nat, pos0: U32, crc0: U32,
                                      ghost a: Start<S, V>, ghost out0: seq<seq<Byte>>)
    returns (rc: Rc, st: S, left: nat, pos: U32, crc: U32, ghost out: seq<seq<Byte>>)
    requires Consumed(store, c, a, cmprsBuf.Length, pos0, crc0, out0) && (c.dst.WriteTo? ==> c.dst.t != c.src)
    requires inLen <= cmprsBuf.Length && pos0 <= c.rawSize && cmprsBuf != outBuf && outBuf.Length == BUF_SIZE
    modifies store`parts, store`log, cmprsBuf, outBuf
    ensures left <= inLen && pos <= c.rawSize && Consumed(store, c, a, cmprsBuf.Length, pos, crc, out)
    ensures DecodeAll(a.p, st0, old(cmprsBuf[..inLen]), consumed, pos0, out0) ==
            Inner(rc, st, cmprsBuf[..left], consumed + inLen - left, pos, out)
  {
    rc, st, left, pos, crc, out := Ok, st0, inLen, pos0, crc0, out0;
    var at, go := consumed, true;
    ghost var result := DecodeAll(a.p, st, cmprsBuf[..inLen], consumed, pos, out);
    while go
      invariant left <= inLen && at + left == consumed + inLen && pos <= c.rawSize
      invariant Consumed(store, c, a, cmprsBuf.Length, pos, crc, out)
      invariant go ==> result == DecodeAll(a.p, st, cmprsBuf[..left], at, pos, out)
      invariant !go ==> result == Inner(rc, st, cmprsBuf[..left], at, pos, out)
      decreases go, c.rawSize - pos + left
    {
      var m;
      m, left, at, pos, crc, out := Cycle(store, c, cmprsBuf, outBuf, st, left, at, pos, crc, a, out, result);
      st, go := m.st, m.Go?;
      rc := if go then Ok else m.rc;
    }
  }

  /** Reads a package fragment and decrypts it behind the pending input. */
  method FwPkgRead<S, V(!new)>(store: Store, c: Config<S, V>, srcOff: U32, cmprsBuf: array<Byte>, len: nat,
                               cryptBuf: array<Byte>, n: U32, v: V) returns (ok: bool, v': V)
    requires KeepsLength(c.cipher) && len + n <= cmprsBuf.Length && n <= cryptBuf.Length && cmprsBuf != cryptBuf
    modifies cmprsBuf, cryptBuf
    ensures ok == RangeOk(Mem(store.parts, c.src), srcOff, n)
    ensures ok ==> var d := c.cipher.decrypt(v, store.parts[c.src][srcOff..srcOff + n]);
                   v' == d.0 && cmprsBuf[..len + n] == old(cmprsBuf[..len]) + d.1
    ensures !ok ==> cmprsBuf[..len] == old(cmprsBuf[..len])
  {
    v' := v;
    var cipherText;
    ok, cipherText := store.Read(c.src, srcOff, n);
    if ok {
      forall i | 0 <= i < n {
        cryptBuf[i] := cipherText[i];
      }
      assert cryptBuf[..n] == cipherText;
      var d := c.cipher.decrypt(v, cryptBuf[..n]);
      v' := d.0;
      forall i | 0 <= i < n {
        cmprsBuf[len + i] := d.1[i];
      }
    }
  }

  /** The remaining length in 32 bits. */
  lemma Remaining(pkgSize: U32, srcReadPos: U32)
    requires HEADER_SIZE <= srcReadPos <= HEADER_SIZE + pkgSize
    ensures ToInt32(Wrap32(Wrap32(pkgSize + HEADER_SIZE) - srcReadPos)) == ToInt32(pkgSize - (srcReadPos - HEADER_SIZE))
  {
  }

  /** One read of the outer loop, if there is something left to read. */
  method ReadMore<S(!new), V(!new)>(store: Store, c: Config<S, V>, srcReadPos: U32, cmprsBuf: array<Byte>, len: nat,
                                    cryptBuf: array<Byte>, v: V, ghost p: Pass<S, V>) returns (ok: bool, v': V, n: U32)
    requires KeepsLength(c.cipher) && c.readSize <= cryptBuf.Length && cmprsBuf != cryptBuf && len <= cmprsBuf.Length
    requires p == PassOf(store.parts, c, cmprsBuf.Length) && |p.src| < 0x8000_0000
    requires HEADER_SIZE <= srcReadPos <= HEADER_SIZE + c.pkgSize
    requires Fetch(p, v, srcReadPos - HEADER_SIZE, len) != Stop(true)
    modifies cmprsBuf, cryptBuf
    ensures ok ==>
      && len + n <= cmprsBuf.Length && srcReadPos + n <= HEADER_SIZE + c.pkgSize
      && srcReadPos + n < 0x1_0000_0000
    ensures Fetch(p, v, srcReadPos - HEADER_SIZE, len) == if ok then Got(v', cmprsBuf[len..len + n]) else Stop(false)
    ensures cmprsBuf[..len] == old(cmprsBuf[..len])
  {
    hide Process, OneRound, DecodeAll, Advance, Wrap32;
    ok, v', n := true, v, 0;
    Remaining(c.pkgSize, srcReadPos);
    var pkgEnd := Wrap32(c.pkgSize + HEADER_SIZE);
    var remain := ToInt32(Wrap32(pkgEnd - srcReadPos));
    if remain > 0 {
      n := if c.readSize > remain then remain else c.readSize;
      ok, v' := FwPkgRead(store, c, srcReadPos, cmprsBuf, len, cryptBuf, n, v);
      if ok {
        assert cmprsBuf[len..len + n] == cmprsBuf[..len + n][len..];
        assert cmprsBuf[..len] == cmprsBuf[..len + n][..len];
      }
    } else if remain < 0 {
      ok := false;
    } else if len == 0 {
      ok := false;
    }
  }

  /** The decoding half of a round; `result` is what the pass comes to. */
  method DecodeRound<S(!new), V(!new)>(store: Store, c: Config<S, V>, cmprsBuf: array<Byte>, outBuf: array<Byte>,
                                       st: S, v: V, srcReadPos: U32, len: nat, pos: U32, crc: U32,
                                       ghost a: Start<S, V>, ghost out: seq<seq<Byte>>, ghost result: Outcome)
    returns (go: bool, st': S, len': nat, pos': U32, crc': U32, ghost out': seq<seq<Byte>>)
    requires Consumed(store, c, a, cmprsBuf.Length, pos, crc, out) && (c.dst.WriteTo? ==> c.dst.t != c.src)
    requires len <= cmprsBuf.Length && cmprsBuf != outBuf && outBuf.Length == BUF_SIZE && KeepsLength(c.cipher)
    requires pos < c.rawSize && HEADER_SIZE + len <= srcReadPos <= HEADER_SIZE + c.pkgSize
    requires result == AfterRead(a.p, st, v, srcReadPos - HEADER_SIZE, cmprsBuf[..len], pos, out)
    modifies store`parts, store`log, cmprsBuf, outBuf
    ensures Consumed(store, c, a, cmprsBuf.Length, pos', crc', out')
    ensures go ==> len' <= len && pos < pos' <= c.rawSize
    ensures go ==> result == Process(a.p, st', v, srcReadPos - HEADER_SIZE, cmprsBuf[..len'], pos', out')
    ensures !go ==> result == Failed(out')
  {
    hide Process, OneRound, AfterRead, DecodeAll, Advance, Fetch, Written, CycCal, Flatten;
    ghost var all, read := cmprsBuf[..len], srcReadPos - HEADER_SIZE;
    var consumed := srcReadPos - HEADER_SIZE - len;
    var rc;
    rc, st', len', pos', crc', out' :=
      DecompressWithConsumer(store, c, cmprsBuf, outBuf, st, len, consumed, pos, crc, a, out);
    DecodeEnds(a.p, st, v, read, all, pos, out, consumed,
               Inner(rc, st', cmprsBuf[..len'], consumed + len - len', pos', out'));
    go := rc != Error && pos' > pos;
  }

  /** The reading half of a round; `result` is what the pass comes to. */
  method ReadRound<S(!new), V(!new)>(store: Store, c: Config<S, V>, cmprsBuf: array<Byte>, cryptBuf: array<Byte>,
                                     st: S, v: V, srcReadPos: U32, len: nat, pos: U32,
                                     ghost p: Pass<S, V>, ghost out: seq<seq<Byte>>, ghost result: Outcome)
    returns (go: bool, v': V, srcReadPos': U32, len': nat)
    requires p == PassOf(store.parts, c, cmprsBuf.Length) && |p.src| < 0x8000_0000
    requires len <= cmprsBuf.Length && cmprsBuf != cryptBuf && KeepsLength(c.cipher) && c.readSize <= cryptBuf.Length
    requires pos < c.rawSize && HEADER_SIZE + len <= srcReadPos <= HEADER_SIZE + c.pkgSize
    requires Fetch(p, v, srcReadPos - HEADER_SIZE, len) != Stop(true)
    requires result == Process(p, st, v, srcReadPos - HEADER_SIZE, cmprsBuf[..len], pos, out)
    modifies cmprsBuf, cryptBuf
    ensures go ==> len' <= cmprsBuf.Length && HEADER_SIZE + len' <= srcReadPos' <= HEADER_SIZE + c.pkgSize
    ensures go ==> result == AfterRead(p, st, v', srcReadPos' - HEADER_SIZE, cmprsBuf[..len'], pos, out)
    ensures !go ==> result == Failed(out)
  {
    hide Process, OneRound, AfterRead, DecodeAll, Advance, Fetch;
    ghost var input, read := cmprsBuf[..len], srcReadPos - HEADER_SIZE;
    var n;
    go, v', n := ReadMore(store, c, srcReadPos, cmprsBuf, len, cryptBuf, v, p);
    srcReadPos', len' := srcReadPos, len;
    if go {
      srcReadPos', len' := srcReadPos + n, len + n;
    }
    ghost var plain := if go then cmprsBuf[len..len'] else [];
    assert cmprsBuf[..len'] == input + plain;
    FetchTurns(p, st, v, read, input, pos, out, go, v', plain, srcReadPos' - HEADER_SIZE, cmprsBuf[..len']);
  }

  /** One round of the outer loop: read, decrypt, decode. */
  method OuterRound<S(!new), V(!new)>(store: Store, c: Config<S, V>, cmprsBuf: array<Byte>, outBuf: array<Byte>,
                                      cryptBuf: array<Byte>, st: S, v: V, srcReadPos: U32, len: nat, pos: U32, crc: U32,
                                      ghost a: Start<S, V>, ghost out: seq<seq<Byte>>, ghost result: Outcome)
      returns (go: bool, st': S, v': V, srcReadPos': U32, len': nat, pos': U32, crc': U32, ghost out': seq<seq<Byte>>)
    requires Consumed(store, c, a, cmprsBuf.Length, pos, crc, out) && (c.dst.WriteTo? ==> c.dst.t != c.src)
    requires len <= cmprsBuf.Length && cmprsBuf != outBuf && cmprsBuf != cryptBuf && outBuf.Length == BUF_SIZE
    requires KeepsLength(c.cipher) && c.readSize <= cryptBuf.Length && |a.p.src| < 0x8000_0000
    requires pos < c.rawSize && HEADER_SIZE + len <= srcReadPos <= HEADER_SIZE + c.pkgSize
    requires result == Process(a.p, st, v, srcReadPos - HEADER_SIZE, cmprsBuf[..len], pos, out) && !result.Overrun?
    modifies store`parts, store`log, cmprsBuf, outBuf, cryptBuf
    ensures Consumed(store, c, a, cmprsBuf.Length, pos', crc', out')
    ensures go ==>
      && len' <= cmprsBuf.Length && HEADER_SIZE + len' <= srcReadPos' <= HEADER_SIZE + c.pkgSize
      && pos < pos' <= c.rawSize
    ensures go ==> result == Process(a.p, st', v', srcReadPos' - HEADER_SIZE, cmprsBuf[..len'], pos', out')
    ensures !go ==> result == Failed(out')
  {
    hide Process, OneRound, AfterRead, DecodeAll, Advance, Fetch, Written, CycCal, Flatten;
    st', pos', crc', out' := st, pos, crc, out;
    FetchFits(a.p, st, v, srcReadPos - HEADER_SIZE, cmprsBuf[..len], pos, out);
    go, v', srcReadPos', len' := ReadRound(store, c, cmprsBuf, cryptBuf, st, v, srcReadPos, len, pos, a.p, out, result);
    if go {
      go, st', len', pos', crc', out' :=
        DecodeRound(store, c, cmprsBuf, outBuf, st, v', srcReadPos', len', pos, crc, a, out, result);
    }
  }

  /** Streams the package body through decryption, decoding and the consumer until `rawSize` bytes
      are out. */
  method FwStreamProcess<S(!new), V(!new)>(store: Store, c: Config<S, V>, cmprsBuf: array<Byte>, outBuf: array<Byte>,
                                           cryptBuf: array<Byte>, crc0: U32)
      returns (ok: bool, crc: U32, ghost out: seq<seq<Byte>>)
    requires store.Coherent() && (c.dst.WriteTo? ==> c.dst.t != c.src)
    requires cmprsBuf != outBuf && cmprsBuf != cryptBuf && outBuf.Length == BUF_SIZE && c.readSize <= cryptBuf.Length
    requires KeepsLength(c.cipher) && |Mem(store.parts, c.src)| < 0x8000_0000
    requires !RunPass(PassOf(store.parts, c, cmprsBuf.Length)).Overrun?
    modifies store`parts, store`log, cmprsBuf, outBuf, cryptBuf
    ensures store.Coherent() && store.log == Written(old(store.log), c.dst, out)
    ensures RunPass(old(PassOf(store.parts, c, cmprsBuf.Length))) == if ok then Done(out) else Failed(out)
    ensures crc == if c.dst.CrcOnly? then CycCal(crc0, Flatten(out)) else crc0
  {
    ghost var a := Start(PassOf(store.parts, c, cmprsBuf.Length), store.log, crc0);
    ghost var result := RunPass(a.p);
    var st, v, srcReadPos: U32, len: nat, pos: U32, go := c.codec.init, c.cipher.init, HEADER_SIZE, 0, 0, true;
    crc, out := crc0, [];
    assert cmprsBuf[..0] == [];
    while go && pos < c.rawSize
      invariant Consumed(store, c, a, cmprsBuf.Length, pos, crc, out)
      invariant go ==> len <= cmprsBuf.Length && HEADER_SIZE + len <= srcReadPos <= HEADER_SIZE + c.pkgSize
      invariant go ==> result == Process(a.p, st, v, srcReadPos - HEADER_SIZE, cmprsBuf[..len], pos, out)
      invariant !go ==> result == Failed(out)
      decreases go, c.rawSize - pos
    {
      go, st, v, srcReadPos, len, pos, crc, out :=
        OuterRound(store, c, cmprsBuf, outBuf, cryptBuf, st, v, srcReadPos, len, pos, crc, a, out, result);
    }
    ok := go;
  }
}
