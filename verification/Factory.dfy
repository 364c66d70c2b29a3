/** The way back: whatever a release that was cut off has left of the application, a package in a third
    partition restores it. */
module Factory {
  import opened Bits
  import opened Storage
  import opened StreamSpec
  import opened Crc
  import opened PatchSpec
  import opened FwInfo
  import opened ReleaseSpec
  import opened ReleaseProof
  import opened Restart
  import opened PowerCut
  import opened EndToEnd
  import opened Resume

  /** A run of the protocol leaves a third partition alone. */
  lemma RunUntouched<S(!new), V(!new)>(env: Env<S, V>, parts: Parts, src: Target, dst: Target, h: FwInfo, t: Target,
                                       x: nat, size: nat)
    requires Deployable(env, parts, src, dst, h) && t != src && t != dst
    ensures Untouched(RunOf(env, parts, src).log, t, x, size, env.sector)
  {
    hide Check, FromPartRun, Signed, ReleaseRun, SignPos, SignBytes, NameToId, KeepsLength;
    if Signed(Mem(parts, src), h) {
      SignedRests(env, parts, src, dst, h);
    } else {
      RunForm(env, parts, src, dst, h);
      ReleaseUntouched(env, parts, src, dst, h, t, x, size);
    }
  }

  lemma CutKeepsOther<S(!new), V(!new)>(env: Env<S, V>, parts: Parts, src: Target, dst: Target, h: FwInfo, t: Target,
                                        parts': Parts)
    requires Deployable(env, parts, src, dst, h) && t != src && t != dst
    requires Cut(parts, RunOf(env, parts, src).log, env.sector, parts')
    ensures SameShape(parts, parts') && Mem(parts', t) == Mem(parts, t)
  {
    hide Check, FromPartRun, ByteAfter, CutByte, Untouched, NameToId, KeepsLength, Cut;
    var log := RunOf(env, parts, src).log;
    CutShape(parts, log, env.sector, parts');
    if t in parts {
      forall x | 0 <= x < |parts[t]|
        ensures parts'[t][x] == parts[t][x]
      {
        RunUntouched(env, parts, src, dst, h, t, x, |parts[t]|);
        CutBytes(parts, log, env.sector, parts', t, x);
        UntouchedStays(log, t, x, |parts[t]|, env.sector, parts[t][x], parts'[t][x]);
      }
    }
  }

  /** After cuts the package can still be deployed, signed or not. */
  lemma StillDeployable<S(!new), V(!new)>(env: Env<S, V>, src: Target, dst: Target, h: FwInfo, states: seq<Parts>)
    requires EnvOk(env) && CutRuns(env, src, states) && Deployable(env, states[0], src, dst, h)
    ensures Deployable(env, states[|states| - 1], src, dst, h)
  {
    hide Check, FromPartRun, Signed, Cut, ReleaseRun, NameToId, KeepsLength, Replay, Deployable, SameShape, SamePackage;
    if Signed(Mem(states[0], src), h) {
      SignedHistory(env, src, dst, h, states);
    } else {
      HistorySurvives(env, src, dst, h, states);
      SameRelease(env, states[0], states[|states| - 1], src, dst, h);
    }
  }

  lemma {:induction false} HistoryKeepsOther<S(!new), V(!new)>(env: Env<S, V>, src: Target, dst: Target, h: FwInfo,
                                                               t: Target, states: seq<Parts>)
    requires EnvOk(env) && CutRuns(env, src, states) && Deployable(env, states[0], src, dst, h) && t != src && t != dst
    ensures var last := states[|states| - 1];
            SameShape(states[0], last) && Mem(last, t) == Mem(states[0], t)
    decreases |states|
  {
    hide Check, FromPartRun, Signed, Cut, Deployable, Replay, SameShape;
    var n := |states| - 1;
    if n == 0 {
      SameShapeSelf(states[0]);
    } else {
      HistoryKeepsOther(env, src, dst, h, t, states[..n]);
      StillDeployable(env, src, dst, h, states[..n]);
      CutKeepsOther(env, states[n - 1], src, dst, h, t, states[n]);
      SameShapeTrans(states[0], states[n - 1], states[n]);
    }
  }

  lemma SameDelivery<S(!new), V(!new)>(env: Env<S, V>, parts: Parts, parts': Parts, t: Target, h: FwInfo,
                                       raw: seq<Byte>)
    requires EnvOk(env) && DeliversImage(env, parts, t, App, h, raw)
    requires Mem(parts', t) == Mem(parts, t) && |Mem(parts', App)| == |Mem(parts, App)|
    ensures DeliversImage(env, parts', t, App, h, raw)
  {
    hide RunPass, InfoOk, Crc32, WritePass, AlgoOf;
  }

  /** However often the release of a package to the application has been cut off, in the middle of an operation
      or between two, a sound application package in a third partition then restores the application. */
  lemma FactoryRestores<S(!new), V(!new)>(env: Env<S, V>, src: Target, h: FwInfo, states: seq<Parts>, t: Target,
                                          hf: FwInfo, raw: seq<Byte>)
    requires EnvOk(env) && CutRuns(env, src, states) && Deployable(env, states[0], src, App, h)
    requires t != src && t != App && Check(env, Mem(states[0], t)) == Some(hf) && CmprsId(hf) != CMPRS_HPATCHLITE
    requires NameIs(hf.partName, Ascii("app")) && |Mem(states[0], t)| < 0x8000_0000
    requires hf.rawSize + HEADER_SIZE <= |Mem(states[0], App)| && DeliversImage(env, states[0], t, App, hf, raw)
    ensures var last := states[|states| - 1];
            var r := ResumeRun(env, last, Empty, t);
            r.ok && Holding(last, Replay(last, r.log, env.sector), App, raw, Encode(hf))
  {
    hide Check, FromPartRun, Signed, Cut, Replay, DeliversImage, NameIs, SameShape, Encode, ResumeRun, NameToId,
         KeepsLength, Holding, Verified;
    HistoryKeepsOther(env, src, App, h, t, states);
    var last := states[|states| - 1];
    ShapeSizes(states[0], last, App);
    SameDelivery(env, states[0], last, t, hf, raw);
    RestoresApp(env, last, t, hf, raw);
  }
}
