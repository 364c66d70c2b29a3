/** The release protocol as functions: which storage operations a release performs, in order, and
    whether it reports success. */
module ReleaseSpec {
  import opened Bits
  import opened Storage
  import opened StreamSpec
  import opened Crc
  import opened PatchSpec
  import opened Stream
  import opened FwInfo

  datatype Algo<!S, !V> = Algo(codec: Codec<S>, cipher: Cipher<V>)

  /** What the boot loader is built with: registered algorithms by cipher and compression id, input
      buffer and read size, sector size, and whether the swap area has a role name. */
  datatype Env<!S, !V> = Env(table: (nat, nat) -> Option<Algo<S, V>>, inCap: nat, readSize: U32, sector: U32,
                             swapRole: bool)

  const CMPRS_HPATCHLITE := 4
  const VERIFY_CRC := 1
  const SIGN_WORD: U32 := 0x5555_AAAA
  const SIGN_ALIGN: U32 := 8

  function CryptId(h: FwInfo): nat { h.algo % 16 }
  function CmprsId(h: FwInfo): nat { h.algo / 256 % 32 }
  function VerifyBits(h: FwInfo): nat { h.algo2 % 16 }

  function AlgoOf<S, V>(env: Env<S, V>, h: FwInfo): Option<Algo<S, V>> {
    env.table(CryptId(h), CmprsId(h))
  }

  /** Every registered decryptor keeps lengths. */
  ghost predicate EnvOk<S(!new), V(!new)>(env: Env<S, V>) {
    && 0 < env.sector && 0 < env.readSize <= BUF_SIZE
    && forall i, k | env.table(i, k).Some? :: KeepsLength(env.table(i, k).value.cipher)
  }

  lemma EnvKeeps<S(!new), V(!new)>(env: Env<S, V>, h: FwInfo)
    requires EnvOk(env)
    ensures 0 < env.sector && (AlgoOf(env, h).Some? ==> KeepsLength(AlgoOf(env, h).value.cipher))
  {
  }

  // Checks

  /** The CRC of a storage range; an empty range is not read. */
  predicate RangeCrcOk(m: seq<Byte>, off: nat, size: nat, crc: U32) {
    if size == 0 then Crc32([]) == crc else RangeOk(m, off, size) && Crc32(m[off..off + size]) == crc
  }

  function CrcPass<S, V>(env: Env<S, V>, src: seq<Byte>, h: FwInfo, a: Algo<S, V>): Pass<S, V> {
    Pass(src, h.pkgSize, h.rawSize, env.inCap, env.readSize, a.codec, a.cipher, ForCrc, Discard)
  }

  function WritePass<S, V>(env: Env<S, V>, src: seq<Byte>, h: FwInfo, a: Algo<S, V>, dstSize: nat): Pass<S, V> {
    Pass(src, h.pkgSize, h.rawSize, env.inCap, env.readSize, a.codec, a.cipher, ForWrite, Upto(dstSize))
  }

  /** The application check: the decoded package has the announced CRC. */
  ghost predicate AppCrcOk<S(!new), V(!new)>(env: Env<S, V>, src: seq<Byte>, h: FwInfo)
    requires EnvOk(env)
  {
    var a := AlgoOf(env, h);
    a.Some? && var o := RunPass(CrcPass(env, src, h, a.value)); o.Done? && Crc32(Flatten(o.chunks)) == h.rawCrc
  }

  /** The package check: header, body CRC, and the application check unless the package is differential. */
  ghost function Check<S(!new), V(!new)>(env: Env<S, V>, m: seq<Byte>): (r: Option<FwInfo>)
    requires EnvOk(env)
    ensures r.Some? ==> WellSized(r.value) && |m| >= HEADER_SIZE && r.value == Decode(m[..HEADER_SIZE])
  {
    if !RangeOk(m, 0, HEADER_SIZE) then None
    else
      var h := Decode(m[..HEADER_SIZE]);
      if InfoOk(h) && RangeCrcOk(m, HEADER_SIZE, h.pkgSize, h.pkgCrc)
         && (CmprsId(h) != CMPRS_HPATCHLITE && VerifyBits(h) == VERIFY_CRC ==> AppCrcOk(env, m, h))
      then Some(h) else None
  }

  /** The destination check: header at the tail, and the image CRC when the header asks for it. */
  function Verified(m: seq<Byte>): (r: Option<FwInfo>)
    ensures r.Some? ==> WellSized(r.value) && |m| >= HEADER_SIZE && r.value == Decode(m[|m| - HEADER_SIZE..])
  {
    if |m| < HEADER_SIZE then None
    else
      var h := Decode(m[|m| - HEADER_SIZE..]);
      if InfoOk(h) && (VerifyBits(h) == VERIFY_CRC ==> RangeCrcOk(m, 0, h.rawSize, h.rawCrc)) then Some(h) else None
  }

  // Release sign

  function SignPos(h: FwInfo): U32 {
    RtAlign(Wrap32(HEADER_SIZE + h.pkgSize), SIGN_ALIGN)
  }

  function SignBytes(): (r: seq<Byte>)
    ensures |r| == 4
  {
    Le(4, SIGN_WORD)
  }

  predicate Signed(m: seq<Byte>, h: FwInfo) {
    RangeOk(m, SignPos(h), 4) && FromLe(m[SignPos(h)..SignPos(h) + 4]) == SIGN_WORD
  }

  // Runs

  /** A run of the protocol: log of storage operations, and the reported result. */
  datatype Run = Run(log: Log, ok: bool)

  /** The next operation of a run, performed if nothing failed before it. */
  function TryOp(parts: Parts, r: Run, op: Op): Run {
    if r.ok && Applies(parts, op) then Run(Then(r.log, op), true) else Run(r.log, false)
  }

  /** Whether an operation applies depends on sizes only, and nothing follows a failure. */
  lemma TryOpSizes(parts: Parts, parts': Parts, r: Run, op: Op)
    requires SameShape(parts, parts')
    ensures TryOp(parts', r, op) == TryOp(parts, r, op)
    ensures !r.ok ==> TryOp(parts, r, op) == r
  {
  }

  /** The erases of a release: the image range, then the tail. */
  function EraseRun(parts: Parts, base: Log, dst: Target, rawSize: U32): Run {
    TryOp(parts, TryOp(parts, Run(base, true), Erase(dst, 0, rawSize)),
          Erase(dst, Wrap32(|Mem(parts, dst)| - HEADER_SIZE), HEADER_SIZE))
  }

  /** The chunks of a pass written one behind the other. */
  function StreamRun(base: Log, dst: Target, o: Outcome): Run {
    Run(Written(base, WriteTo(dst), o.chunks), o.Done?)
  }

  /** Release: erase image and tail, stream the image, write the header to the tail. The run starts
      after the operations `base` on the contents `origin`. */
  ghost function ReleaseRun<S(!new), V(!new)>(env: Env<S, V>, origin: Parts, base: Log, src: Target, dst: Target,
                                              h: FwInfo): Run
    requires EnvOk(env) && WellSized(h)
  {
    var parts := Replay(origin, base, env.sector);
    var size, a := |Mem(parts, dst)|, AlgoOf(env, h);
    var e := EraseRun(parts, base, dst, h.rawSize);
    if a.None? then Run(base, false)
    else if !e.ok then e
    else TryOp(parts, StreamRun(e.log, dst, RunPass(WritePass(env, Mem(parts, src), h, a.value, size))),
               Program(dst, Wrap32(size - HEADER_SIZE), Encode(h)))
  }

  /** Release and verification of the destination. */
  ghost function UpdateRun<S(!new), V(!new)>(env: Env<S, V>, origin: Parts, base: Log, src: Target, dst: Target,
                                             h: FwInfo): Run
    requires EnvOk(env) && WellSized(h)
  {
    var r := ReleaseRun(env, origin, base, src, dst, h);
    Run(r.log, r.ok && Verified(Mem(Replay(origin, r.log, env.sector), dst)).Some?)
  }

  /** Signing the source after a verified update, by the header that verification read back. */
  function SignRun(parts: Parts, u: Run, src: Target, h: FwInfo): Run {
    if Signed(Mem(parts, src), h) then u else Run(TryOp(parts, u, Program(src, SignPos(h), SignBytes())).log, true)
  }

  /** The protocol behind the checks: update of the partition that the header names, and sign. */
  ghost function CheckedRun<S(!new), V(!new)>(env: Env<S, V>, origin: Parts, base: Log, src: Target, h: FwInfo): Run
    requires EnvOk(env) && WellSized(h)
  {
    var parts := Replay(origin, base, env.sector);
    var dst := NameToId(h.partName, env.swapRole);
    if dst.None? || Mem(parts, dst.value) == [] then Run(base, false)
    else
      var u := UpdateRun(env, origin, base, src, dst.value, h);
      var after := Replay(origin, u.log, env.sector);
      if !u.ok then u else SignRun(after, u, src, Verified(Mem(after, dst.value)).value)
  }

  /** The whole protocol from a source partition. */
  ghost function FromPartRun<S(!new), V(!new)>(env: Env<S, V>, origin: Parts, base: Log, src: Target,
                                               checkSign: bool): Run
    requires EnvOk(env)
  {
    var parts := Replay(origin, base, env.sector);
    var m := Mem(parts, src);
    var h := Check(env, m);
    if m == [] || h.None? then Run(base, false)
    else if checkSign && Signed(m, h.value) then Run(base, true)
    else CheckedRun(env, origin, base, src, h.value)
  }

  /** Restoring the application from a source partition: no sign is looked at or written. */
  ghost function ResumeRun<S(!new), V(!new)>(env: Env<S, V>, origin: Parts, base: Log, src: Target): Run
    requires EnvOk(env)
  {
    var parts := Replay(origin, base, env.sector);
    var m := Mem(parts, src);
    var h := Check(env, m);
    if m == [] || Mem(parts, App) == [] || h.None? || !NameIs(h.value.partName, Ascii("app")) then Run(base, false)
    else UpdateRun(env, origin, base, src, App, h.value)
  }
}
