/** Power cuts during a release: however often the release of a package is cut off, a complete run
    afterwards leaves what one uninterrupted run would have left. */
module PowerCut {
  import opened Bits
  import opened Storage
  import opened StreamSpec
  import opened Crc
  import opened PatchSpec
  import opened Stream
  import opened FwInfo
  import opened ReleaseSpec
  import opened ReleaseProof
  import opened Detection
  import opened Restart

  // A pass sees nothing behind the package

  lemma {:induction false} SameSourceInner<S, V>(p: Pass<S, V>, q: Pass<S, V>, st: S, input: seq<Byte>, consumed: nat,
                                                 pos: nat, out: seq<seq<Byte>>)
    requires q == p.(src := q.src) && pos <= p.rawSize
    ensures DecodeAll(p, st, input, consumed, pos, out) == DecodeAll(q, st, input, consumed, pos, out)
    decreases p.rawSize - pos + |input|
  {
    var m := Advance(p, st, input, consumed, pos);
    assert m == Advance(q, st, input, consumed, pos);
    hide Advance, DecodeAll;
    var input', consumed', pos', out' := input, consumed, pos, out;
    if m.Go? {
      input', consumed', pos', out' := input[m.taken..], consumed + m.taken, pos + |m.output|, out + [m.output];
      SameSourceInner(p, q, m.st, input', consumed', pos', out');
    }
    DecodeTurns(p, st, input, consumed, pos, out, m, input', consumed', pos', out');
    DecodeTurns(q, st, input, consumed, pos, out, m, input', consumed', pos', out');
  }

  predicate SamePackage(a: seq<Byte>, b: seq<Byte>, pkgSize: nat) {
    |a| == |b| && HEADER_SIZE + pkgSize <= |a| && a[..HEADER_SIZE + pkgSize] == b[..HEADER_SIZE + pkgSize]
  }

  lemma SameSlice(a: seq<Byte>, b: seq<Byte>, k: nat, i: nat, j: nat)
    requires k <= |a| && k <= |b| && a[..k] == b[..k] && i <= j <= k
    ensures a[i..j] == b[i..j]
  {
    assert a[i..j] == a[..k][i..j] && b[i..j] == b[..k][i..j];
  }

  lemma SameFetch<S(!new), V(!new)>(p: Pass<S, V>, q: Pass<S, V>, v: V, read: nat, buffered: nat)
    requires KeepsLength(p.cipher) && q == p.(src := q.src) && SamePackage(p.src, q.src, p.pkgSize) && read <= p.pkgSize
    ensures Fetch(p, v, read, buffered) == Fetch(q, v, read, buffered)
  {
    var remain := ToInt32(p.pkgSize - read);
    var n := if remain > 0 then Min(p.readSize, remain) else 0;
    SameSlice(p.src, q.src, HEADER_SIZE + p.pkgSize, HEADER_SIZE + read, HEADER_SIZE + read + n);
  }

  lemma {:induction false} SameSourceProcess<S(!new), V(!new)>(p: Pass<S, V>, q: Pass<S, V>, st: S, v: V, read: nat,
                                                               input: seq<Byte>, pos: nat, out: seq<seq<Byte>>)
    requires KeepsLength(p.cipher) && q == p.(src := q.src) && SamePackage(p.src, q.src, p.pkgSize)
    requires |input| <= read <= p.pkgSize
    ensures Process(p, st, v, read, input, pos, out) == Process(q, st, v, read, input, pos, out)
    decreases p.rawSize - pos
  {
    hide DecodeAll, Advance, Fetch, SamePackage;
    if pos < p.rawSize {
      var f := Fetch(p, v, read, |input|);
      SameFetch(p, q, v, read, |input|);
      if f.Got? {
        SameSourceInner(p, q, st, input + f.plain, read - |input|, pos, out);
        var r := OneRound(p, st, v, read, input, pos, out);
        if r.Next? {
          SameSourceProcess(p, q, r.st, r.v, r.read, r.rest, r.pos, r.out);
        }
      }
    }
  }

  /** Two sources with the same package give the same pass, whatever lies behind it. */
  lemma SameSource<S(!new), V(!new)>(p: Pass<S, V>, q: Pass<S, V>)
    requires KeepsLength(p.cipher) && q == p.(src := q.src) && SamePackage(p.src, q.src, p.pkgSize)
    ensures RunPass(p) == RunPass(q)
  {
    SameSourceProcess(p, q, p.codec.init, p.cipher.init, 0, [], 0, []);
  }

  lemma CheckedPackage<S(!new), V(!new)>(env: Env<S, V>, m: seq<Byte>, h: FwInfo)
    requires EnvOk(env) && Check(env, m) == Some(h)
    ensures HEADER_SIZE + h.pkgSize <= |m|
  {
  }

  lemma SameBody(m: seq<Byte>, m': seq<Byte>, size: nat, crc: U32)
    requires SamePackage(m, m', size) && HEADER_SIZE + size <= |m|
    ensures RangeCrcOk(m', HEADER_SIZE, size, crc) == RangeCrcOk(m, HEADER_SIZE, size, crc)
  {
    hide Crc32;
    SameSlice(m, m', HEADER_SIZE + size, HEADER_SIZE, HEADER_SIZE + size);
  }

  lemma SameFront(m: seq<Byte>, m': seq<Byte>, size: nat)
    requires SamePackage(m, m', size) && HEADER_SIZE + size <= |m|
    ensures |m'| == |m| && m'[..HEADER_SIZE] == m[..HEADER_SIZE]
  {
    SameSlice(m, m', HEADER_SIZE + size, 0, HEADER_SIZE);
    assert m[..HEADER_SIZE] == m[0..HEADER_SIZE] && m'[..HEADER_SIZE] == m'[0..HEADER_SIZE];
  }

  lemma SameApp<S(!new), V(!new)>(env: Env<S, V>, m: seq<Byte>, m': seq<Byte>, h: FwInfo)
    requires EnvOk(env) && SamePackage(m, m', h.pkgSize) && HEADER_SIZE + h.pkgSize <= |m|
    ensures AppCrcOk(env, m', h) == AppCrcOk(env, m, h)
  {
    hide RunPass, Crc32, Flatten, SamePackage;
    var a := AlgoOf(env, h);
    if a.Some? {
      SameSource(CrcPass(env, m, h, a.value), CrcPass(env, m', h, a.value));
    }
  }

  lemma SameCheck<S(!new), V(!new)>(env: Env<S, V>, m: seq<Byte>, m': seq<Byte>, h: FwInfo)
    requires EnvOk(env) && Check(env, m) == Some(h) && SamePackage(m, m', h.pkgSize)
    ensures Check(env, m') == Some(h)
  {
    hide Decode, InfoOk, AppCrcOk, RangeCrcOk, SamePackage, VerifyBits, CmprsId;
    CheckedPackage(env, m, h);
    SameFront(m, m', h.pkgSize);
    SameBody(m, m', h.pkgSize, h.pkgCrc);
    SameApp(env, m, m', h);
  }

  // Which run a state leads to

  /** A checked package, not a differential one, with a destination that it fits. */
  ghost predicate Deployable<S(!new), V(!new)>(env: Env<S, V>, parts: Parts, src: Target, dst: Target, h: FwInfo) {
    && EnvOk(env) && Check(env, Mem(parts, src)) == Some(h) && NameToId(h.partName, env.swapRole) == Some(dst)
       && src != dst
    && CmprsId(h) != CMPRS_HPATCHLITE
    && |Mem(parts, src)| < 0x8000_0000 && h.rawSize + HEADER_SIZE <= |Mem(parts, dst)| < 0x1_0000_0000
  }

  lemma SameErase(parts: Parts, parts': Parts, base: Log, dst: Target, rawSize: U32)
    requires SameShape(parts, parts')
    ensures EraseRun(parts', base, dst, rawSize) == EraseRun(parts, base, dst, rawSize)
  {
  }

  lemma SameDeployable<S(!new), V(!new)>(env: Env<S, V>, parts: Parts, parts': Parts, src: Target, dst: Target,
                                         h: FwInfo)
    requires Deployable(env, parts, src, dst, h) && SameShape(parts, parts')
    requires SamePackage(Mem(parts, src), Mem(parts', src), h.pkgSize)
    ensures Deployable(env, parts', src, dst, h) && EnvOk(env) && WellSized(h)
  {
    hide Check, SamePackage, NameToId;
    SameCheck(env, Mem(parts, src), Mem(parts', src), h);
  }

  /** A release from its erases and the outcome of its pass. */
  function ReleaseOf(parts: Parts, e: Run, o: Outcome, dst: Target, h: FwInfo): Run
    requires WellSized(h)
  {
    if !e.ok then e
    else TryOp(parts, StreamRun(e.log, dst, o), Program(dst, Wrap32(|Mem(parts, dst)| - HEADER_SIZE), Encode(h)))
  }

  lemma ReleaseIs<S(!new), V(!new)>(env: Env<S, V>, parts: Parts, src: Target, dst: Target, h: FwInfo)
    requires EnvOk(env) && WellSized(h)
    ensures AlgoOf(env, h).None? ==> ReleaseRun(env, parts, Empty, src, dst, h) == Run(Empty, false)
    ensures AlgoOf(env, h).Some? ==>
              var o := RunPass(WritePass(env, Mem(parts, src), h, AlgoOf(env, h).value, |Mem(parts, dst)|));
              ReleaseRun(env, parts, Empty, src, dst, h) ==
                  ReleaseOf(parts, EraseRun(parts, Empty, dst, h.rawSize), o, dst, h)
  {
    hide RunPass, Encode, TryOp, StreamRun, EraseRun;
  }

  lemma SameReleaseOf(parts: Parts, parts': Parts, e: Run, o: Outcome, dst: Target, h: FwInfo)
    requires WellSized(h) && SameShape(parts, parts')
    ensures ReleaseOf(parts', e, o, dst, h) == ReleaseOf(parts, e, o, dst, h)
  {
    hide TryOp, StreamRun, Encode;
    TryOpSizes(parts, parts', StreamRun(e.log, dst, o),
               Program(dst, Wrap32(|Mem(parts, dst)| - HEADER_SIZE), Encode(h)));
  }

  lemma SameRelease<S(!new), V(!new)>(env: Env<S, V>, parts: Parts, parts': Parts, src: Target, dst: Target, h: FwInfo)
    requires Deployable(env, parts, src, dst, h) && SameShape(parts, parts')
    requires SamePackage(Mem(parts, src), Mem(parts', src), h.pkgSize)
    ensures Deployable(env, parts', src, dst, h)
    ensures ReleaseRun(env, parts', Empty, src, dst, h) == ReleaseRun(env, parts, Empty, src, dst, h)
  {
    hide RunPass, SamePackage, Deployable, EraseRun, EnvOk, SameShape, ReleaseRun, ReleaseOf, WritePass, KeepsLength,
         Mem;
    SameDeployable(env, parts, parts', src, dst, h);
    SameErase(parts, parts', Empty, dst, h.rawSize);
    ShapeSizes(parts, parts', dst);
    ReleaseIs(env, parts, src, dst, h);
    ReleaseIs(env, parts', src, dst, h);
    var a, size := AlgoOf(env, h), |Mem(parts, dst)|;
    if a.Some? {
      SameWrite(env, Mem(parts, src), Mem(parts', src), h, size);
      SameReleaseOf(parts, parts', EraseRun(parts, Empty, dst, h.rawSize),
                    RunPass(WritePass(env, Mem(parts, src), h, a.value, size)), dst, h);
    }
  }

  lemma ShapeSizes(parts: Parts, parts': Parts, t: Target)
    requires SameShape(parts, parts')
    ensures |Mem(parts', t)| == |Mem(parts, t)|
  {
  }

  lemma SameWrite<S(!new), V(!new)>(env: Env<S, V>, m: seq<Byte>, m': seq<Byte>, h: FwInfo, size: nat)
    requires EnvOk(env) && SamePackage(m, m', h.pkgSize) && AlgoOf(env, h).Some?
    ensures var a := AlgoOf(env, h).value;
            && KeepsLength(WritePass(env, m', h, a, size).cipher) && KeepsLength(WritePass(env, m, h, a, size).cipher)
            && RunPass(WritePass(env, m', h, a, size)) == RunPass(WritePass(env, m, h, a, size))
  {
    hide RunPass, SamePackage;
    var a := AlgoOf(env, h).value;
    SameSource(WritePass(env, m, h, a, size), WritePass(env, m', h, a, size));
  }

  function SignOp(src: Target, h: FwInfo): Op { Program(src, SignPos(h), SignBytes()) }

  /** The run from an unsigned source: the update, and the sign behind it when it succeeded. */
  function WithSign(u: Run, m: seq<Byte>, src: Target, h: FwInfo): Run {
    if u.ok && RangeOk(m, SignPos(h), 4) then Run(Then(u.log, SignOp(src, h)), true) else u
  }

  lemma RunForm<S(!new), V(!new)>(env: Env<S, V>, parts: Parts, src: Target, dst: Target, h: FwInfo)
    requires Deployable(env, parts, src, dst, h) && !Signed(Mem(parts, src), h)
    ensures FromPartRun(env, parts, Empty, src, true) ==
            WithSign(UpdateRun(env, parts, Empty, src, dst, h), Mem(parts, src), src, h)
  {
    hide Check, RunPass, Encode, Decode, UpdateRun, Verified, Signed, SignBytes, SignPos, NameToId, KeepsLength;
    var u := UpdateRun(env, parts, Empty, src, dst, h);
    assert Replay(parts, Empty, env.sector) == parts;
    if u.ok {
      ReadBack(env, parts, Empty, src, dst, h);
    }
  }

  /** The run from a signed source does nothing. */
  lemma SignedRests<S(!new), V(!new)>(env: Env<S, V>, parts: Parts, src: Target, dst: Target, h: FwInfo)
    requires Deployable(env, parts, src, dst, h) && Signed(Mem(parts, src), h)
    ensures FromPartRun(env, parts, Empty, src, true) == Run(Empty, true)
  {
    hide Check, UpdateRun, Decode;
  }

  // What a release does not touch

  lemma {:induction false} WrittenUntouched(base: Log, dst: Target, chunks: seq<seq<Byte>>, t: Target, x: nat,
                                            size: nat, sector: nat)
    requires sector > 0 && t != dst && Untouched(base, t, x, size, sector)
    ensures Untouched(Written(base, WriteTo(dst), chunks), t, x, size, sector)
  {
    if chunks != [] {
      WrittenUntouched(base, dst, chunks[..|chunks| - 1], t, x, size, sector);
    }
  }

  lemma ReleaseUntouched<S(!new), V(!new)>(env: Env<S, V>, parts: Parts, src: Target, dst: Target, h: FwInfo,
                                           t: Target, x: nat, size: nat)
    requires Deployable(env, parts, src, dst, h) && t != dst
    ensures Untouched(ReleaseRun(env, parts, Empty, src, dst, h).log, t, x, size, env.sector)
  {
    hide Check, RunPass, Encode, Decode, Written, NameToId, KeepsLength, InfoOk, Flatten, Fill;
    var m, a := |Mem(parts, dst)|, AlgoOf(env, h);
    var base := WipeLog(Empty, dst, h.rawSize, m);
    if a.Some? {
      var o := RunPass(WritePass(env, Mem(parts, src), h, a.value, m));
      WrittenUntouched(base, dst, o.chunks, t, x, size, env.sector);
    }
  }

  /** A cut release has not changed the source. */
  lemma CutKeepsSource<S(!new), V(!new)>(env: Env<S, V>, parts: Parts, src: Target, dst: Target, h: FwInfo,
                                         parts': Parts)
    requires Deployable(env, parts, src, dst, h)
    requires Cut(parts, ReleaseRun(env, parts, Empty, src, dst, h).log, env.sector, parts')
    ensures SameShape(parts, parts') && Mem(parts', src) == Mem(parts, src)
  {
    hide Check, ReleaseRun, ByteAfter, CutByte, Untouched;
    var log := ReleaseRun(env, parts, Empty, src, dst, h).log;
    CheckedPackage(env, Mem(parts, src), h);
    CutShape(parts, log, env.sector, parts');
    forall x | 0 <= x < |parts[src]|
      ensures parts'[src][x] == parts[src][x]
    {
      ReleaseUntouched(env, parts, src, dst, h, src, x, |parts[src]|);
      CutBytes(parts, log, env.sector, parts', src, x);
      UntouchedStays(log, src, x, |parts[src]|, env.sector, parts[src][x], parts'[src][x]);
    }
  }

  lemma ReplayKeepsSource<S(!new), V(!new)>(env: Env<S, V>, parts: Parts, src: Target, dst: Target, h: FwInfo)
    requires Deployable(env, parts, src, dst, h)
    ensures Mem(Replay(parts, ReleaseRun(env, parts, Empty, src, dst, h).log, env.sector), src) == Mem(parts, src)
  {
    hide Check, ReleaseRun, ByteAfter, Untouched;
    var log := ReleaseRun(env, parts, Empty, src, dst, h).log;
    CheckedPackage(env, Mem(parts, src), h);
    var after := Replay(parts, log, env.sector);
    forall x | 0 <= x < |parts[src]|
      ensures after[src][x] == parts[src][x]
    {
      ReleaseUntouched(env, parts, src, dst, h, src, x, |parts[src]|);
      ReplayByte(parts, log, env.sector, src, x);
      UntouchedStays(log, src, x, |parts[src]|, env.sector, parts[src][x], parts[src][x]);
    }
  }

  lemma {:induction false} AndSelf(w: nat, x: nat)
    requires x < Pow2(w)
    ensures And(w, x, x) == x
  {
    if w > 0 {
      AndSelf(w - 1, x / 2);
    }
  }

  /** A readable sign consists of the sign bytes. */
  lemma SignedByte(m: seq<Byte>, h: FwInfo, x: nat)
    requires Signed(m, h) && SignPos(h) <= x < SignPos(h) + 4
    ensures m[x] == SignBytes()[x - SignPos(h)]
  {
    hide SignPos, SignBytes, FromLe;
    var pos: nat := SignPos(h);
    SignRoundTrip(m[pos..pos + 4]);
    SliceByte(m, pos, pos + 4, x - pos);
  }

  lemma SliceByte(m: seq<Byte>, a: nat, b: nat, i: nat)
    requires a <= b <= |m| && i < b - a
    ensures m[a..b][i] == m[a + i]
  {
  }

  lemma AndSelfByte(b: Byte)
    ensures And(8, b, b) == b
  {
    Pow2Of32();
    AndSelf(8, b);
  }

  /** A byte of a fully readable sign is one that programming it would leave. */
  lemma SignByte(parts: Parts, src: Target, h: FwInfo, sector: nat, parts': Parts, t: Target, x: nat)
    requires sector > 0 && src in parts && RangeOk(parts[src], SignPos(h), 4)
    requires Torn(parts, SignOp(src, h), sector, parts')
    requires Signed(parts'[src], h) && t in parts && x < |parts[t]|
    ensures parts'[t][x] == ByteOp(SignOp(src, h), t, x, |parts[t]|, sector, parts[t][x])
  {
    hide And, SignPos, SignBytes, Signed;
    assert TornByte(SignOp(src, h), t, x, |parts[t]|, sector, parts[t][x], parts'[t][x]);
    if t == src && SignPos(h) <= x < SignPos(h) + 4 {
      SignedByte(parts'[src], h, x);
      AndSelfByte(parts'[src][x]);
    }
  }

  /** Writing the sign, cut off or not, leaves the package alone; if the sign reads as set afterwards,
      then it is fully written. */
  lemma TornSign(parts: Parts, src: Target, h: FwInfo, sector: nat, parts': Parts)
    requires sector > 0 && src in parts && h.pkgSize + HEADER_SIZE <= |parts[src]| < 0x8000_0000
    requires Torn(parts, SignOp(src, h), sector, parts') && RangeOk(parts[src], SignPos(h), 4)
    ensures SamePackage(parts[src], parts'[src], h.pkgSize)
    ensures Signed(parts'[src], h) ==> parts' == Apply(parts, SignOp(src, h), sector)
  {
    hide And, SignPos, SignBytes, Signed;
    SignPlace(h);
    var op := SignOp(src, h);
    forall x | 0 <= x < HEADER_SIZE + h.pkgSize
      ensures parts'[src][x] == parts[src][x]
    {
      assert TornByte(op, src, x, |parts[src]|, sector, parts[src][x], parts'[src][x]);
    }
    if Signed(parts'[src], h) {
      hide Apply, Torn, TornByte, ByteOp;
      forall t | t in parts
        ensures parts'[t] == Apply(parts, op, sector)[t]
      {
        forall x | 0 <= x < |parts[t]|
          ensures parts'[t][x] == Apply(parts, op, sector)[t][x]
        {
          SignByte(parts, src, h, sector, parts', t, x);
          ApplyByte(parts, op, sector, t, x);
        }
      }
    }
  }

  // Any number of cuts

  ghost function RunOf<S(!new), V(!new)>(env: Env<S, V>, parts: Parts, src: Target): Run
    requires EnvOk(env)
  {
    FromPartRun(env, parts, Empty, src, true)
  }

  /** Contents after a complete run. */
  ghost function Complete<S(!new), V(!new)>(env: Env<S, V>, parts: Parts, src: Target): Parts
    requires EnvOk(env)
  {
    Replay(parts, RunOf(env, parts, src).log, env.sector)
  }

  /** A successful run from an unsigned source is the update and then the sign. */
  lemma CompleteSigned<S(!new), V(!new)>(env: Env<S, V>, parts: Parts, src: Target, dst: Target, h: FwInfo)
    requires Deployable(env, parts, src, dst, h) && !Signed(Mem(parts, src), h)
    requires RangeOk(Mem(parts, src), SignPos(h), 4)
    requires UpdateRun(env, parts, Empty, src, dst, h).ok
    ensures RunOf(env, parts, src).ok
    ensures Complete(env, parts, src) ==
            Apply(Replay(parts, UpdateRun(env, parts, Empty, src, dst, h).log, env.sector), SignOp(src, h), env.sector)
  {
    hide FromPartRun, UpdateRun, Check, Signed, SignPos, SignBytes, Replay, Apply;
    RunForm(env, parts, src, dst, h);
    LastReplay(parts, UpdateRun(env, parts, Empty, src, dst, h).log, SignOp(src, h), env.sector);
  }

  /** A successful run from an unsigned source leaves a verified destination. */
  lemma CompleteVerified<S(!new), V(!new)>(env: Env<S, V>, parts: Parts, src: Target, dst: Target, h: FwInfo)
    requires Deployable(env, parts, src, dst, h) && !Signed(Mem(parts, src), h)
    ensures RunOf(env, parts, src).ok ==> Verified(Mem(Complete(env, parts, src), dst)) == Some(h)
  {
    hide Check, FromPartRun, Signed, ReleaseRun, Verified, Replay, SignPos, SignBytes;
    RunForm(env, parts, src, dst, h);
    if RunOf(env, parts, src).ok {
      EmptyReplay(parts, env.sector);
      ReadBack(env, parts, Empty, src, dst, h);
      LastReplay(parts, UpdateRun(env, parts, Empty, src, dst, h).log, SignOp(src, h), env.sector);
    }
  }

  /** What cut runs from `parts` keep: the same package, the same prospects, and a sign only when
      everything is done. */
  ghost predicate Survives<S(!new), V(!new)>(env: Env<S, V>, parts: Parts, src: Target, h: FwInfo, parts': Parts)
    requires EnvOk(env)
  {
    var r := RunOf(env, parts, src);
    && SameShape(parts, parts') && SamePackage(Mem(parts, src), Mem(parts', src), h.pkgSize)
    && Replay(parts', r.log, env.sector) == Replay(parts, r.log, env.sector)
    && (Signed(Mem(parts', src), h) ==> r.ok && parts' == Replay(parts, r.log, env.sector))
  }

  lemma SameDestination(a: Parts, b: Parts, log: Log, op: Op, dst: Target, sector: nat)
    requires sector > 0 && SameShape(a, b) && op.t != dst
    requires Replay(a, log, sector) == Replay(b, log, sector)
             || Replay(a, Then(log, op), sector) == Replay(b, Then(log, op), sector)
    ensures Mem(Replay(a, log, sector), dst) == Mem(Replay(b, log, sector), dst)
  {
    LastReplay(a, log, op, sector);
    LastReplay(b, log, op, sector);
    hide Replay, Apply;
    if dst in a && Replay(a, Then(log, op), sector) == Replay(b, Then(log, op), sector) {
      assert Apply(Replay(a, log, sector), op, sector)[dst] == Replay(a, log, sector)[dst];
      assert Apply(Replay(b, log, sector), op, sector)[dst] == Replay(b, log, sector)[dst];
    }
  }

  /** After cuts and without a sign, the next run performs the same operations again. */
  lemma SameRunAgain<S(!new), V(!new)>(env: Env<S, V>, parts: Parts, src: Target, dst: Target, h: FwInfo, parts': Parts)
    requires Deployable(env, parts, src, dst, h) && !Signed(Mem(parts, src), h)
    requires Survives(env, parts, src, h, parts') && !Signed(Mem(parts', src), h)
    ensures Deployable(env, parts', src, dst, h) && RunOf(env, parts', src) == RunOf(env, parts, src)
  {
    hide Check, ReleaseRun, FromPartRun, Signed, Verified, Replay, SignPos, SignBytes, Decode;
    SameRelease(env, parts, parts', src, dst, h);
    RunForm(env, parts, src, dst, h);
    RunForm(env, parts', src, dst, h);
    SameDestination(parts', parts, ReleaseRun(env, parts, Empty, src, dst, h).log, SignOp(src, h), dst, env.sector);
  }

  /** One more cut run. */
  lemma CutSurvives<S(!new), V(!new)>(env: Env<S, V>, parts: Parts, src: Target, dst: Target, h: FwInfo, parts': Parts)
    requires Deployable(env, parts, src, dst, h) && !Signed(Mem(parts, src), h)
    requires Cut(parts, RunOf(env, parts, src).log, env.sector, parts')
    ensures Survives(env, parts, src, h, parts')
  {
    hide Check, ReleaseRun, FromPartRun, Signed, Verified, SignPos, SignBytes, Decode, Replay, Torn;
    RunForm(env, parts, src, dst, h);
    var r, u := RunOf(env, parts, src), UpdateRun(env, parts, Empty, src, dst, h);
    CheckedPackage(env, Mem(parts, src), h);
    CutThenReplay(parts, r.log, env.sector, parts');
    CutShape(parts, r.log, env.sector, parts');
    if Cut(parts, u.log, env.sector, parts') {
      CutKeepsSource(env, parts, src, dst, h, parts');
    } else {
      var before := Replay(parts, u.log, env.sector);
      ReplayKeepsSource(env, parts, src, dst, h);
      TornSign(before, src, h, env.sector, parts');
      LastReplay(parts, u.log, SignOp(src, h), env.sector);
    }
  }

  lemma SurvivesOn<S(!new), V(!new)>(env: Env<S, V>, parts: Parts, src: Target, dst: Target, h: FwInfo, parts': Parts,
                                     parts'': Parts)
    requires Deployable(env, parts, src, dst, h) && !Signed(Mem(parts, src), h)
    requires Survives(env, parts, src, h, parts') && Cut(parts', RunOf(env, parts', src).log, env.sector, parts'')
    ensures Survives(env, parts, src, h, parts'')
  {
    hide Check, FromPartRun, Signed, Replay, ReleaseRun, NameToId, KeepsLength;
    if Signed(Mem(parts', src), h) {
      SameRelease(env, parts, parts', src, dst, h);
      SignedRests(env, parts', src, dst, h);
    } else {
      SameRunAgain(env, parts, src, dst, h, parts');
      CutSurvives(env, parts', src, dst, h, parts'');
    }
  }

  /** A history of cut runs: each state is what a cut left of a run from the one before. */
  ghost predicate CutRuns<S(!new), V(!new)>(env: Env<S, V>, src: Target, states: seq<Parts>)
    requires EnvOk(env)
  {
    && states != []
    && forall i :: 0 < i < |states| ==> Cut(states[i - 1], RunOf(env, states[i - 1], src).log, env.sector, states[i])
  }

  lemma {:induction false} HistorySurvives<S(!new), V(!new)>(env: Env<S, V>, src: Target, dst: Target, h: FwInfo,
                                                             states: seq<Parts>)
    requires EnvOk(env) && CutRuns(env, src, states)
    requires Deployable(env, states[0], src, dst, h) && !Signed(Mem(states[0], src), h)
    ensures Survives(env, states[0], src, h, states[|states| - 1])
  {
    hide Check, FromPartRun, Signed, Cut, ReleaseRun, NameToId, KeepsLength, Replay;
    var n := |states| - 1;
    if n == 0 {
      CheckedPackage(env, Mem(states[0], src), h);
    } else {
      HistorySurvives(env, src, dst, h, states[..n]);
      SurvivesOn(env, states[0], src, dst, h, states[n - 1], states[n]);
    }
  }

  lemma {:induction false} SignedHistory<S(!new), V(!new)>(env: Env<S, V>, src: Target, dst: Target, h: FwInfo,
                                                           states: seq<Parts>)
    requires EnvOk(env) && CutRuns(env, src, states)
    requires Deployable(env, states[0], src, dst, h) && Signed(Mem(states[0], src), h)
    ensures states[|states| - 1] == states[0]
  {
    hide Check, FromPartRun, Signed, ReleaseRun;
    var n := |states| - 1;
    if n > 0 {
      SignedHistory(env, src, dst, h, states[..n]);
      SignedRests(env, states[0], src, dst, h);
    }
  }

  /** Power-cut restart: however often the release of a deployable package is cut off, in the middle of
      an operation or between two, a complete run afterwards leaves every partition as one
      uninterrupted run would have left it. */
  lemma PowerCutRestart<S(!new), V(!new)>(env: Env<S, V>, src: Target, dst: Target, h: FwInfo, states: seq<Parts>)
    requires EnvOk(env) && CutRuns(env, src, states) && Deployable(env, states[0], src, dst, h)
    ensures Complete(env, states[|states| - 1], src) == Complete(env, states[0], src)
  {
    hide Check, FromPartRun, Signed, ReleaseRun;
    var last := states[|states| - 1];
    if Signed(Mem(states[0], src), h) {
      SignedHistory(env, src, dst, h, states);
    } else {
      HistorySurvives(env, src, dst, h, states);
      if Signed(Mem(last, src), h) {
        SameRelease(env, states[0], last, src, dst, h);
        SignedRests(env, last, src, dst, h);
      } else {
        SameRunAgain(env, states[0], src, dst, h, last);
      }
    }
  }

  /** At every moment of every such history, a sign that was not there at the start means that the
      release is complete and its destination has passed verification: it carries the header of the package at
      its tail and, when the header asks for the check, an image with the CRC announced in front. */
  lemma SignMeansVerified<S(!new), V(!new)>(env: Env<S, V>, src: Target, dst: Target, h: FwInfo, states: seq<Parts>)
    requires EnvOk(env) && CutRuns(env, src, states) && Deployable(env, states[0], src, dst, h)
    requires !Signed(Mem(states[0], src), h) && Signed(Mem(states[|states| - 1], src), h)
    ensures var last := states[|states| - 1];
            && last == Complete(env, states[0], src) && RunOf(env, states[0], src).ok
            && Verified(Mem(last, dst)) == Some(h) && Carries(Mem(last, dst), h)
  {
    hide Check, FromPartRun, Signed, Verified, Cut, Replay, Deployable, SamePackage, SameShape, Carries;
    HistorySurvives(env, src, dst, h, states);
    CompleteVerified(env, states[0], src, dst, h);
    VerifiedMeans(Mem(states[|states| - 1], dst), h);
  }

  lemma EmptyReplay(parts: Parts, sector: nat)
    requires sector > 0
    ensures Replay(parts, Empty, sector) == parts
  {
  }
}
