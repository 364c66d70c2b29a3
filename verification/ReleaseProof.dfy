/** What a release leaves in storage. */
module ReleaseProof {
  import opened Bits
  import opened Storage
  import opened StreamSpec
  import opened Crc
  import opened PatchSpec
  import opened Stream
  import opened FwInfo
  import opened ReleaseSpec
  import opened Detection

  // How much a pass puts out

  lemma {:induction false} InnerTotal<S, V>(p: Pass<S, V>, st: S, input: seq<Byte>, consumed: nat, pos: nat,
                                            out: seq<seq<Byte>>)
    requires pos <= p.rawSize && |Flatten(out)| == pos
    ensures var r := DecodeAll(p, st, input, consumed, pos, out); |Flatten(r.out)| == r.pos
    decreases p.rawSize - pos + |input|
  {
    hide Advance, Flatten, DecodeAll;
    var m := Advance(p, st, input, consumed, pos);
    var input', consumed', pos', out' := input, consumed, pos, out;
    if m.Go? {
      input', consumed', pos', out' := input[m.taken..], consumed + m.taken, pos + |m.output|, out + [m.output];
      FlattenAppend(out, m.output);
      InnerTotal(p, m.st, input', consumed', pos', out');
    }
    DecodeTurns(p, st, input, consumed, pos, out, m, input', consumed', pos', out');
  }

  lemma {:induction false} ProcessTotal<S(!new), V(!new)>(p: Pass<S, V>, st: S, v: V, read: nat, input: seq<Byte>,
                                                          pos: nat, out: seq<seq<Byte>>)
    requires KeepsLength(p.cipher) && |input| <= read <= p.pkgSize && pos <= p.rawSize && |Flatten(out)| == pos
    ensures var o := Process(p, st, v, read, input, pos, out);
            |Flatten(o.chunks)| <= p.rawSize && (o.Done? ==> |Flatten(o.chunks)| == p.rawSize)
    decreases p.rawSize - pos
  {
    hide DecodeAll, Flatten, Advance, Fetch;
    if pos < p.rawSize {
      var f := Fetch(p, v, read, |input|);
      if f.Got? {
        InnerTotal(p, st, input + f.plain, read - |input|, pos, out);
        var r := OneRound(p, st, v, read, input, pos, out);
        if r.Next? {
          ProcessTotal(p, r.st, r.v, r.read, r.rest, r.pos, r.out);
        }
      }
    }
  }

  /** Whatever the codec does, a pass never puts out more than the announced image size, and reports
      success only with exactly that much. */
  lemma PassTotal<S(!new), V(!new)>(p: Pass<S, V>)
    requires KeepsLength(p.cipher)
    ensures var o := RunPass(p); |Flatten(o.chunks)| <= p.rawSize && (o.Done? ==> |Flatten(o.chunks)| == p.rawSize)
  {
    ProcessTotal(p, p.codec.init, p.cipher.init, 0, [], 0, []);
  }

  // Contents after the writes of a pass

  lemma ProgramNothing(m: seq<Byte>)
    ensures Programmed(m, 0, []) == m
  {
  }

  lemma {:induction false} WrittenReplay(origin: Parts, base: Log, sector: nat, dst: Target, chunks: seq<seq<Byte>>)
    requires sector > 0 && |Flatten(chunks)| <= |Mem(Replay(origin, base, sector), dst)|
    requires 0 < |Mem(Replay(origin, base, sector), dst)|
    ensures var parts := Replay(origin, base, sector);
            Replay(origin, Written(base, WriteTo(dst), chunks), sector) ==
                parts[dst := Programmed(parts[dst], 0, Flatten(chunks))]
  {
    hide Programmed, Apply, Replay, Flatten, Written;
    var parts := Replay(origin, base, sector);
    WrittenUnfolds(base, dst, chunks);
    if chunks == [] {
      ProgramNothing(parts[dst]);
    } else {
      var init, last := chunks[..|chunks| - 1], chunks[|chunks| - 1];
      WrittenReplay(origin, base, sector, dst, init);
      LastReplay(origin, Written(base, WriteTo(dst), init), Program(dst, |Flatten(init)|, last), sector);
      WrittenStep(Replay(origin, Written(base, WriteTo(dst), init), sector), parts[dst], dst, Flatten(init), last,
                  sector);
    }
  }

  lemma WrittenUnfolds(base: Log, dst: Target, chunks: seq<seq<Byte>>)
    ensures chunks == [] ==> Flatten(chunks) == [] && Written(base, WriteTo(dst), chunks) == base
    ensures chunks != [] ==>
              var init, last := chunks[..|chunks| - 1], chunks[|chunks| - 1];
              && Flatten(chunks) == Flatten(init) + last
              && Written(base, WriteTo(dst), chunks) ==
                 Then(Written(base, WriteTo(dst), init), Program(dst, |Flatten(init)|, last))
  {
  }

  lemma WrittenStep(parts: Parts, m: seq<Byte>, dst: Target, done: seq<Byte>, last: seq<Byte>, sector: nat)
    requires sector > 0 && 0 < |m| && |done| + |last| <= |m| && dst in parts && parts[dst] == Programmed(m, 0, done)
    ensures Apply(parts, Program(dst, |done|, last), sector) == parts[dst := Programmed(m, 0, done + last)]
  {
    ProgramChunks(m, 0, done, last);
  }

  /** Programming below the tail and then the tail, over erased cells. */
  lemma ImageThenHeader(m: seq<Byte>, image: seq<Byte>, tail: seq<Byte>)
    requires |image| + |tail| <= |m|
    requires forall i :: 0 <= i < |image| || |m| - |tail| <= i < |m| ==> m[i] == 0xFF
    ensures var r := Programmed(Programmed(m, 0, image), |m| - |tail|, tail);
            r == image + m[|image|..|m| - |tail|] + tail
  {
    ProgramErased(m, 0, image);
    ProgramErased(Programmed(m, 0, image), |m| - |tail|, tail);
    var p := Programmed(m, 0, image);
    assert p[..|m| - |tail|] == image + m[|image|..|m| - |tail|];
  }

  lemma ErasedRange(m: seq<Byte>, off: nat, len: nat, sector: nat, i: nat)
    requires sector > 0 && off + len <= |m| && i < |m|
    ensures off <= i < off + len ==> Erased(m, off, len, sector)[i] == 0xFF
    ensures m[i] == 0xFF ==> Erased(m, off, len, sector)[i] == 0xFF
  {
  }

  /** The two erases of a release. */
  function Wipe(m: seq<Byte>, rawSize: nat, sector: nat): (r: seq<Byte>)
    requires sector > 0 && rawSize <= |m| && HEADER_SIZE <= |m|
    ensures |r| == |m|
  {
    Erased(Erased(m, 0, rawSize, sector), |m| - HEADER_SIZE, HEADER_SIZE, sector)
  }

  lemma WipeErases(m: seq<Byte>, rawSize: nat, sector: nat)
    requires sector > 0 && rawSize <= |m| && HEADER_SIZE <= |m|
    ensures forall i :: 0 <= i < rawSize || |m| - HEADER_SIZE <= i < |m| ==> Wipe(m, rawSize, sector)[i] == 0xFF
  {
    hide Erased;
    forall i | 0 <= i < rawSize || |m| - HEADER_SIZE <= i < |m|
      ensures Wipe(m, rawSize, sector)[i] == 0xFF
    {
      ErasedRange(m, 0, rawSize, sector, i);
      ErasedRange(Erased(m, 0, rawSize, sector), |m| - HEADER_SIZE, HEADER_SIZE, sector, i);
    }
  }

  lemma ImageOverWiped(m: seq<Byte>, image: seq<Byte>, header: seq<Byte>, sector: nat)
    requires sector > 0 && |header| == HEADER_SIZE && |image| + HEADER_SIZE <= |m|
    ensures var wiped := Wipe(m, |image|, sector);
            Programmed(Programmed(wiped, 0, image), |m| - HEADER_SIZE, header) ==
                image + wiped[|image|..|m| - HEADER_SIZE] + header
  {
    hide Wipe, Programmed;
    WipeErases(m, |image|, sector);
    ImageThenHeader(Wipe(m, |image|, sector), image, header);
  }

  /** Log of the two erases. */
  function WipeLog(base: Log, dst: Target, rawSize: nat, size: nat): Log
    requires HEADER_SIZE <= size
  {
    Then(Then(base, Erase(dst, 0, rawSize)), Erase(dst, size - HEADER_SIZE, HEADER_SIZE))
  }

  /** Log of a complete release that hands on `chunks`. */
  function ReleaseLog(base: Log, dst: Target, rawSize: nat, size: nat, chunks: seq<seq<Byte>>, header: seq<Byte>): Log
    requires HEADER_SIZE <= size
  {
    Then(Written(WipeLog(base, dst, rawSize, size), WriteTo(dst), chunks), Program(dst, size - HEADER_SIZE, header))
  }

  /** Contents with one partition replaced. */
  function With(parts: Parts, t: Target, m: seq<Byte>): Parts { parts[t := m] }

  lemma ApplyProgram(parts: Parts, dst: Target, m: seq<Byte>, off: nat, data: seq<Byte>, sector: nat)
    requires sector > 0 && 0 < |m| && off + |data| <= |m|
    ensures Apply(With(parts, dst, m), Program(dst, off, data), sector) == With(parts, dst, Programmed(m, off, data))
  {
    hide Programmed;
  }

  lemma ApplyErase(parts: Parts, dst: Target, m: seq<Byte>, off: nat, len: nat, sector: nat)
    requires sector > 0 && 0 < |m| && off + len <= |m|
    ensures Apply(With(parts, dst, m), Erase(dst, off, len), sector) == With(parts, dst, Erased(m, off, len, sector))
  {
    hide Erased;
  }

  lemma MemNonempty(parts: Parts, dst: Target)
    ensures Mem(parts, dst) != [] ==> dst in parts && Mem(parts, dst) == parts[dst]
  {
  }

  lemma WithSelf(parts: Parts, dst: Target)
    requires dst in parts
    ensures With(parts, dst, parts[dst]) == parts
  {
  }

  lemma WipeReplay(origin: Parts, base: Log, dst: Target, m: seq<Byte>, rawSize: nat, sector: nat)
    requires sector > 0 && rawSize <= |m| && HEADER_SIZE <= |m| && m == Mem(Replay(origin, base, sector), dst)
    ensures Replay(origin, WipeLog(base, dst, rawSize, |m|), sector) ==
            With(Replay(origin, base, sector), dst, Wipe(m, rawSize, sector))
  {
    hide Erased, Apply, With, Replay, Applies, AlignDown, AlignUp, Fill;
    var parts := Replay(origin, base, sector);
    MemNonempty(parts, dst);
    WithSelf(parts, dst);
    LastReplay(origin, base, Erase(dst, 0, rawSize), sector);
    LastReplay(origin, Then(base, Erase(dst, 0, rawSize)), Erase(dst, |m| - HEADER_SIZE, HEADER_SIZE), sector);
    ApplyErase(parts, dst, m, 0, rawSize, sector);
    ApplyErase(parts, dst, Erased(m, 0, rawSize, sector), |m| - HEADER_SIZE, HEADER_SIZE, sector);
  }

  /** The effect of a release log: image at the front, header at the tail, over wiped cells. */
  lemma LogEffect(origin: Parts, base: Log, dst: Target, m: seq<Byte>, rawSize: nat, chunks: seq<seq<Byte>>,
                  header: seq<Byte>, sector: nat)
    requires sector > 0 && |Flatten(chunks)| == rawSize && |header| == HEADER_SIZE
    requires rawSize + HEADER_SIZE <= |m| && m == Mem(Replay(origin, base, sector), dst)
    ensures Replay(origin, ReleaseLog(base, dst, rawSize, |m|, chunks, header), sector) ==
            With(Replay(origin, base, sector), dst,
                 Flatten(chunks) + Wipe(m, rawSize, sector)[rawSize..|m| - HEADER_SIZE] + header)
  {
    hide Erased, Programmed, Flatten, Wipe, Replay, Apply, Written, WipeLog, ReleaseLog, Applies, Fill, Mem, With;
    WipeReplay(origin, base, dst, m, rawSize, sector);
    FilledTail(Replay(origin, base, sector), dst, m, Flatten(chunks), header, sector);
    WrittenOver(origin, WipeLog(base, dst, rawSize, |m|), sector, Replay(origin, base, sector), dst,
                Wipe(m, rawSize, sector), chunks);
    ReleaseLast(origin, base, dst, rawSize, |m|, chunks, header, sector);
  }

  /** The tail header over the image over wiped cells. */
  lemma FilledTail(parts: Parts, dst: Target, m: seq<Byte>, image: seq<Byte>, header: seq<Byte>, sector: nat)
    requires sector > 0 && |header| == HEADER_SIZE && |image| + HEADER_SIZE <= |m|
    ensures var wiped := Wipe(m, |image|, sector);
            Apply(With(parts, dst, Programmed(wiped, 0, image)), Program(dst, |m| - HEADER_SIZE, header), sector) ==
            With(parts, dst, image + wiped[|image|..|m| - HEADER_SIZE] + header)
  {
    hide Wipe, Programmed, Apply, With;
    ImageOverWiped(m, image, header, sector);
    ApplyProgram(parts, dst, Programmed(Wipe(m, |image|, sector), 0, image), |m| - HEADER_SIZE, header, sector);
  }

  lemma ReleaseLast(origin: Parts, base: Log, dst: Target, rawSize: nat, size: nat, chunks: seq<seq<Byte>>,
                    header: seq<Byte>, sector: nat)
    requires sector > 0 && HEADER_SIZE <= size
    ensures Replay(origin, ReleaseLog(base, dst, rawSize, size, chunks, header), sector) ==
            Apply(Replay(origin, Written(WipeLog(base, dst, rawSize, size), WriteTo(dst), chunks), sector),
                  Program(dst, size - HEADER_SIZE, header), sector)
  {
    hide Apply, Written, WipeLog;
  }

  lemma WrittenOver(origin: Parts, base: Log, sector: nat, parts: Parts, dst: Target, m: seq<Byte>,
                    chunks: seq<seq<Byte>>)
    requires sector > 0 && Replay(origin, base, sector) == With(parts, dst, m)
    requires |Flatten(chunks)| <= |m| && 0 < |m|
    ensures Replay(origin, Written(base, WriteTo(dst), chunks), sector) ==
            With(parts, dst, Programmed(m, 0, Flatten(chunks)))
  {
    hide Programmed, Flatten, Replay, Apply, Written;
    WrittenReplay(origin, base, sector, dst, chunks);
  }

  lemma LastReplay(origin: Parts, log: Log, op: Op, sector: nat)
    requires sector > 0
    ensures Replay(origin, Then(log, op), sector) == Apply(Replay(origin, log, sector), op, sector)
  {
  }

  lemma EraseOps(parts: Parts, base: Log, dst: Target, rawSize: U32)
    requires EraseRun(parts, base, dst, rawSize).ok && HEADER_SIZE <= |Mem(parts, dst)| < 0x1_0000_0000
    ensures EraseRun(parts, base, dst, rawSize).log == WipeLog(base, dst, rawSize, |Mem(parts, dst)|)
  {
  }

  /** The operations of a successful release, in order. */
  lemma ReleaseOps<S(!new), V(!new)>(env: Env<S, V>, origin: Parts, base: Log, src: Target, dst: Target, h: FwInfo)
    requires EnvOk(env) && WellSized(h) && ReleaseRun(env, origin, base, src, dst, h).ok
    requires var size := |Mem(Replay(origin, base, env.sector), dst)|; HEADER_SIZE <= size < 0x1_0000_0000
    ensures AlgoOf(env, h).Some?
    ensures var parts := Replay(origin, base, env.sector);
            var size := |Mem(parts, dst)|;
            var o := RunPass(WritePass(env, Mem(parts, src), h, AlgoOf(env, h).value, size));
            && o.Done? && |Flatten(o.chunks)| == h.rawSize
            && ReleaseRun(env, origin, base, src, dst, h).log ==
               ReleaseLog(base, dst, h.rawSize, size, o.chunks, Encode(h))
  {
    hide RunPass, Encode, Flatten, Written, Replay, AlgoOf, Decode, EraseRun, WipeLog, Applies, Mem,
         KeepsLength, InfoOk, EnvOk;
    EnvKeeps(env, h);
    var parts := Replay(origin, base, env.sector);
    var size := |Mem(parts, dst)|;
    assert Wrap32(size - HEADER_SIZE) == size - HEADER_SIZE;
    EraseOps(parts, base, dst, h.rawSize);
    PassTotal(WritePass(env, Mem(parts, src), h, AlgoOf(env, h).value, size));
  }

  /** What a successful release leaves: the image at the front, its header at the tail, and every
      other partition as it was. */
  lemma ReleaseContents<S(!new), V(!new)>(env: Env<S, V>, origin: Parts, base: Log, src: Target, dst: Target, h: FwInfo)
    requires EnvOk(env) && WellSized(h) && ReleaseRun(env, origin, base, src, dst, h).ok
    requires var size := |Mem(Replay(origin, base, env.sector), dst)|; h.rawSize + HEADER_SIZE <= size < 0x1_0000_0000
    ensures AlgoOf(env, h).Some?
    ensures var parts := Replay(origin, base, env.sector);
            var o := RunPass(WritePass(env, Mem(parts, src), h, AlgoOf(env, h).value, |parts[dst]|));
            var after := Replay(origin, ReleaseRun(env, origin, base, src, dst, h).log, env.sector);
            && o.Done? && after[dst][..h.rawSize] == Flatten(o.chunks)
            && |after[dst]| == |parts[dst]| && after[dst][|after[dst]| - HEADER_SIZE..] == Encode(h)
            && after == parts[dst := after[dst]]
  {
    hide RunPass, Encode, Wipe, Flatten, ReleaseRun, Replay, ReleaseLog;
    ReleaseOps(env, origin, base, src, dst, h);
    var parts := Replay(origin, base, env.sector);
    var o := RunPass(WritePass(env, Mem(parts, src), h, AlgoOf(env, h).value, |parts[dst]|));
    LogEffect(origin, base, dst, parts[dst], h.rawSize, o.chunks, Encode(h), env.sector);
  }

  /** The header read back by verification is the header of the package. */
  lemma ReadBack<S(!new), V(!new)>(env: Env<S, V>, origin: Parts, base: Log, src: Target, dst: Target, h: FwInfo)
    requires EnvOk(env) && WellSized(h) && UpdateRun(env, origin, base, src, dst, h).ok
    requires var size := |Mem(Replay(origin, base, env.sector), dst)|; h.rawSize + HEADER_SIZE <= size < 0x1_0000_0000
    ensures var after := Replay(origin, UpdateRun(env, origin, base, src, dst, h).log, env.sector);
            && Verified(Mem(after, dst)) == Some(h)
            && after == Replay(origin, base, env.sector)[dst := Mem(after, dst)]
  {
    hide RunPass, Encode, ReleaseRun, Replay, Decode, InfoOk;
    ReleaseContents(env, origin, base, src, dst, h);
    DecodeEncode(h);
  }

  /** What a successful update with verification means for the bytes of the destination. */
  lemma UpdateMeans<S(!new), V(!new)>(env: Env<S, V>, origin: Parts, base: Log, src: Target, dst: Target, h: FwInfo)
    requires EnvOk(env) && WellSized(h) && UpdateRun(env, origin, base, src, dst, h).ok
    requires var size := |Mem(Replay(origin, base, env.sector), dst)|; h.rawSize + HEADER_SIZE <= size < 0x1_0000_0000
    ensures var m := Mem(Replay(origin, UpdateRun(env, origin, base, src, dst, h).log, env.sector), dst);
            && InfoOk(h) && |m| >= HEADER_SIZE && m[|m| - HEADER_SIZE..] == Encode(h)
            && (VerifyBits(h) == VERIFY_CRC ==> h.rawSize <= |m| && Crc32(m[..h.rawSize]) == h.rawCrc)
  {
    hide UpdateRun, Encode, Replay, Decode, InfoOk, Crc32, Verified, VerifyBits;
    ReadBack(env, origin, base, src, dst, h);
    VerifiedMeans(Mem(Replay(origin, UpdateRun(env, origin, base, src, dst, h).log, env.sector), dst), h);
  }

  // The sign

  /** The sign lies at the least multiple of 8 behind the package. */
  lemma SignPlace(h: FwInfo)
    requires HEADER_SIZE + h.pkgSize < 0xFFFF_FFF8
    ensures SignPos(h) == AlignUp(HEADER_SIZE + h.pkgSize, SIGN_ALIGN)
    ensures HEADER_SIZE + h.pkgSize <= SignPos(h) && SignPos(h) % 8 == 0
    ensures forall m: nat | m % 8 == 0 && HEADER_SIZE + h.pkgSize <= m :: SignPos(h) <= m
  {
    var x := HEADER_SIZE + h.pkgSize;
    assert IsPow2(8);
    RtAlignExact(x, SIGN_ALIGN);
    AlignDownMod(SignPos(h), 8);
    forall m: nat | m % 8 == 0 && x <= m
      ensures SignPos(h) <= m
    {
      AlignDownMod(m, 8);
      AlignUpLeast(x, 8, m);
    }
  }

  lemma SignRoundTrip(b: seq<Byte>)
    requires |b| == 4
    ensures FromLe(b) == SIGN_WORD <==> b == SignBytes()
  {
    FromLeRoundTrip(b);
    assert Pow256(4) == 0x1_0000_0000;
    LeRoundTrip(4, SIGN_WORD);
  }

}
