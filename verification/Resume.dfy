/** Restoring the application, and releasing a package again in spite of its sign. */
module Resume {
  import opened Bits
  import opened Storage
  import opened StreamSpec
  import opened StreamProof
  import opened Crc
  import opened PatchSpec
  import opened FwInfo
  import opened ReleaseSpec
  import opened ReleaseProof
  import opened PowerCut
  import opened EndToEnd

  /** A partition that got the image `raw` in front and the header `header` at its tail; every other partition
      is as it was. */
  ghost predicate Holding(parts: Parts, after: Parts, dst: Target, raw: seq<Byte>, header: seq<Byte>) {
    && dst in parts && dst in after && |after[dst]| == |parts[dst]| && |raw| + HEADER_SIZE <= |after[dst]|
    && after[dst][..|raw|] == raw && after[dst][|after[dst]| - HEADER_SIZE..] == header
    && after == parts[dst := after[dst]]
  }

  lemma NamedApp(h: FwInfo, swapRole: bool)
    requires NameIs(h.partName, Ascii("app"))
    ensures NameToId(h.partName, swapRole) == Some(App)
  {
    hide NameIs;
  }

  /** How restoring goes on behind the checks. */
  lemma ResumeForm<S(!new), V(!new)>(env: Env<S, V>, parts: Parts, src: Target)
    requires EnvOk(env)
    ensures var r, h := ResumeRun(env, parts, Empty, src), Check(env, Mem(parts, src));
            if Mem(parts, src) == [] || Mem(parts, App) == [] || h.None? || !NameIs(h.value.partName, Ascii("app"))
            then !r.ok && Replay(parts, r.log, env.sector) == parts
            else r == UpdateRun(env, parts, Empty, src, App, h.value)
  {
    hide Check, UpdateRun, NameIs, Replay;
    EmptyLog(parts, env.sector);
  }

  /** From a partition with a checked package that is not differential and delivers its image, restoring
      succeeds exactly when the package is named for the application. Then the image is at the front of
      the application partition, its header at the tail, the destination check passes, and every other
      partition, the source with its sign included, is as it was; with any other name nothing changes. */
  lemma RestoresApp<S(!new), V(!new)>(env: Env<S, V>, parts: Parts, src: Target, h: FwInfo, raw: seq<Byte>)
    requires EnvOk(env) && src != App && Check(env, Mem(parts, src)) == Some(h) && CmprsId(h) != CMPRS_HPATCHLITE
    requires |Mem(parts, src)| < 0x8000_0000 && h.rawSize + HEADER_SIZE <= |Mem(parts, App)| < 0x1_0000_0000
    requires DeliversImage(env, parts, src, App, h, raw)
    ensures WellSized(h)
    ensures var r := ResumeRun(env, parts, Empty, src);
            var after := Replay(parts, r.log, env.sector);
            && (r.ok <==> NameIs(h.partName, Ascii("app")))
            && (r.ok ==> Holding(parts, after, App, raw, Encode(h)) && Verified(Mem(after, App)) == Some(h))
            && (!r.ok ==> after == parts)
  {
    hide Check, Decode, Encode, InfoOk, RunPass, Replay, UpdateRun, Verified, AlgoOf, NameToId, NameIs, WritePass,
         ResumeRun, Crc32, KeepsLength;
    ResumeForm(env, parts, src);
    if NameIs(h.partName, Ascii("app")) {
      NamedApp(h, env.swapRole);
      DeliveredImage(env, parts, src, App, h, raw);
    }
  }

  /** A partition that passes no check restores nothing. */
  lemma RestoresNothing<S(!new), V(!new)>(env: Env<S, V>, parts: Parts, src: Target)
    requires EnvOk(env) && Check(env, Mem(parts, src)) == None
    ensures var r := ResumeRun(env, parts, Empty, src); !r.ok && Replay(parts, r.log, env.sector) == parts
  {
    hide Check, Replay, ResumeRun;
    ResumeForm(env, parts, src);
  }

  /** The tool's package delivers its image to the application partition too, whatever its name. */
  lemma ToolDelivers<S(!new), V(!new)>(env: Env<S, V>, parts: Parts, src: Target, raw: seq<Byte>, body: seq<Byte>,
                                       o: Options, c: Cipher<V>, block: nat) returns (h: FwInfo)
    requires Holds(env, Mem(parts, src), raw, body, o, c, block) && |raw| + HEADER_SIZE <= |Mem(parts, App)|
    ensures Check(env, Mem(parts, src)) == Some(h) && DeliversImage(env, parts, src, App, h, raw)
    ensures WellSized(h) && Encode(h) == Header(raw, body, o).value && h.partName == PackString(16, o.partName)
    ensures CmprsId(h) != CMPRS_HPATCHLITE && h.rawSize == |raw|
  {
    hide Check, Decode, Encode, InfoOk, CreateRblHeader, CycCal, RunPass, Flatten, Header, Whole, Chains, Crc32,
         NameToId, PackString, HandsOn;
    h := HeldChecks(env, Mem(parts, src), raw, body, o, c, block);
    HeldPass(WritePass(env, Mem(parts, src), h, AlgoOf(env, h).value, |Mem(parts, App)|), body, raw, block);
  }

  /** A package made by the tool, for instance in FACTORY, restores the application exactly when it was made
      for it. */
  lemma ToolRestoresApp<S(!new), V(!new)>(env: Env<S, V>, parts: Parts, src: Target, raw: seq<Byte>, body: seq<Byte>,
                                          o: Options, c: Cipher<V>, block: nat)
    requires Holds(env, Mem(parts, src), raw, body, o, c, block) && src != App && 0 !in o.partName
    requires |raw| + HEADER_SIZE <= |Mem(parts, App)| < 0x1_0000_0000
    ensures var r := ResumeRun(env, parts, Empty, src);
            var after := Replay(parts, r.log, env.sector);
            && (r.ok <==> o.partName == Ascii("app"))
            && (r.ok ==> Holding(parts, after, App, raw, Header(raw, body, o).value))
            && (!r.ok ==> after == parts)
  {
    hide Check, Encode, InfoOk, Replay, Verified, NameIs, Header, PackString, ResumeRun, DeliversImage, KeepsLength,
         HandsOn, Chains, Whole, CmprsId;
    var h := ToolDelivers(env, parts, src, raw, body, o, c, block);
    NameSurvives(o.partName, Ascii("app"));
    RestoresApp(env, parts, src, h, raw);
  }

  /** Without the look at the sign, a package is released whether it is signed or not: the same operations as
      with it when the sign is not there, and when it is there, where the run with the look at it does
      nothing, the update and no second sign. */
  lemma SignIgnored<S(!new), V(!new)>(env: Env<S, V>, parts: Parts, src: Target, dst: Target, h: FwInfo)
    requires Deployable(env, parts, src, dst, h)
    ensures WellSized(h)
    ensures !Signed(Mem(parts, src), h) ==>
              FromPartRun(env, parts, Empty, src, false) == FromPartRun(env, parts, Empty, src, true)
    ensures Signed(Mem(parts, src), h) ==>
              && FromPartRun(env, parts, Empty, src, true) == Run(Empty, true)
              && FromPartRun(env, parts, Empty, src, false) == UpdateRun(env, parts, Empty, src, dst, h)
  {
    hide Check, Decode, Encode, Replay, UpdateRun, Verified, Signed, NameToId, SignBytes, SignPos;
    EmptyLog(parts, env.sector);
    if Signed(Mem(parts, src), h) && UpdateRun(env, parts, Empty, src, dst, h).ok {
      ReadBack(env, parts, Empty, src, dst, h);
    }
  }

  /** So a signed package is released again, image, header and all, and its source stays as it is. */
  lemma ReleasedAgain<S(!new), V(!new)>(env: Env<S, V>, parts: Parts, src: Target, dst: Target, h: FwInfo,
                                        raw: seq<Byte>)
    requires Deployable(env, parts, src, dst, h) && DeliversImage(env, parts, src, dst, h, raw)
    requires Signed(Mem(parts, src), h)
    ensures var r := FromPartRun(env, parts, Empty, src, false);
            r.ok && Holding(parts, Replay(parts, r.log, env.sector), dst, raw, Encode(h))
  {
    hide Check, Decode, Encode, InfoOk, RunPass, Replay, UpdateRun, Verified, AlgoOf, NameToId, WritePass,
         FromPartRun, Crc32, KeepsLength, Signed;
    SignIgnored(env, parts, src, dst, h);
    DeliveredImage(env, parts, src, dst, h, raw);
  }

  /** Nothing is released from a partition that fails the check, nor a package that names no partition or one
      that is not there; and one that carries the sign is left alone when the sign is looked at. */
  lemma ReleasesNothing<S(!new), V(!new)>(env: Env<S, V>, parts: Parts, src: Target, checkSign: bool)
    requires EnvOk(env)
    ensures var h, r := Check(env, Mem(parts, src)), FromPartRun(env, parts, Empty, src, checkSign);
            && (h.None? ==> r == Run(Empty, false))
            && (h.Some? && checkSign && Signed(Mem(parts, src), h.value) ==> r == Run(Empty, true))
            && (h.Some? && !(checkSign && Signed(Mem(parts, src), h.value)) ==>
                  var dst := NameToId(h.value.partName, env.swapRole);
                  dst.None? || Mem(parts, dst.value) == [] ==> r == Run(Empty, false))
  {
    hide Check, UpdateRun, Signed, NameToId, Replay;
    EmptyLog(parts, env.sector);
    NothingChecks(env, Mem(parts, src));
  }

  lemma NothingChecks<S(!new), V(!new)>(env: Env<S, V>, m: seq<Byte>)
    requires EnvOk(env)
    ensures m == [] ==> Check(env, m) == None
  {
    hide Decode, InfoOk, AppCrcOk;
  }
}
