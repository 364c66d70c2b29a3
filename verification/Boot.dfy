/** The boot loader proper: package check, release, verification and sign over a storage object, with
    the global header and the shared static buffers. */
module Boot {
  import opened Bits
  import opened Storage
  import opened StreamSpec
  import opened Stream
  import opened Crc
  import opened PatchSpec
  import opened FwInfo
  import opened ReleaseSpec
  import opened Codecs
  import opened InputBuffer
  import opened SharedBuffer
  import Gzip
  import GzipBuffer
  import Hpatch

  /** The algorithms that the passes over the package in `m` use; there are none over a differential one. */
  function Selected<S, V>(env: Env<S, V>, m: seq<Byte>): Option<Algo<S, V>> {
    if |m| < HEADER_SIZE || CmprsId(Decode(m[..HEADER_SIZE])) == CMPRS_HPATCHLITE then None
    else AlgoOf(env, Decode(m[..HEADER_SIZE]))
  }

  /** The passes over a package stay inside the input buffer. */
  ghost predicate NeverOverruns<S(!new), V(!new)>(env: Env<S, V>, m: seq<Byte>)
    requires EnvOk(env)
  {
    Selected(env, m).Some? ==>
      var h, a := Decode(m[..HEADER_SIZE]), Selected(env, m).value;
      && !RunPass(CrcPass(env, m, h, a)).Overrun?
      && forall size: nat :: !RunPass(WritePass(env, m, h, a, size)).Overrun?
  }

  lemma WriteFits<S(!new), V(!new)>(env: Env<S, V>, m: seq<Byte>, h: FwInfo, size: nat)
    requires EnvOk(env) && NeverOverruns(env, m) && Check(env, m) == Some(h) && CmprsId(h) != CMPRS_HPATCHLITE
    ensures AlgoOf(env, h).Some? ==> !RunPass(WritePass(env, m, h, AlgoOf(env, h).value, size)).Overrun?
  {
    hide RunPass, Decode, InfoOk, RangeCrcOk, AppCrcOk;
  }

  /** Stored packages never overrun, whatever the source holds. */
  lemma StoredPackagesAreSafe<S(!new), V(!new)>(env: Env<S, V>, m: seq<Byte>)
    requires EnvOk(env) && env.readSize <= env.inCap
    requires Selected(env, m).Some? ==> var c := Selected(env, m).value.codec; c == Stored(c.init)
    ensures NeverOverruns(env, m)
  {
    hide RunPass, Decode;
    if Selected(env, m).Some? {
      var h, a := Decode(m[..HEADER_SIZE]), Selected(env, m).value;
      StoredNeverOverruns(CrcPass(env, m, h, a));
      forall size: nat
        ensures !RunPass(WritePass(env, m, h, a, size)).Overrun?
      {
        StoredNeverOverruns(WritePass(env, m, h, a, size));
      }
    }
  }

  /** Nor do block-framed packages with a buffer of two reads and two bytes, however corrupt. */
  lemma FramedPackagesAreSafe<Q(!new), V(!new)>(env: Env<Q, V>, dec: BlockDecoder<Q>, m: seq<Byte>)
    requires EnvOk(env) && 2 * env.readSize + 2 <= env.inCap
    requires Selected(env, m).Some? ==> var c := Selected(env, m).value.codec; c == Framed(c.init, dec)
    ensures NeverOverruns(env, m)
  {
    hide RunPass, Decode;
    if Selected(env, m).Some? {
      var h, a := Decode(m[..HEADER_SIZE]), Selected(env, m).value;
      FramedNeverOverruns(CrcPass(env, m, h, a), dec);
      forall size: nat
        ensures !RunPass(WritePass(env, m, h, a, size)).Overrun?
      {
        FramedNeverOverruns(WritePass(env, m, h, a, size), dec);
      }
    }
  }

  /** Nor do gzip packages whose sizes are not risky for the buffer. */
  lemma GzipPackagesAreSafe<Z(!new), V(!new)>(env: Env<Gzip.State<Z>, V>, inf: Gzip.Inflater<Z>, m: seq<Byte>)
    requires EnvOk(env) && env.readSize <= env.inCap && Gzip.Bounded(inf)
    requires Selected(env, m).Some? ==>
               var h, c := Decode(m[..HEADER_SIZE]), Selected(env, m).value.codec;
               && c == Gzip.GzipCodec(inf, c.init.z) && c.init == Gzip.StartOf(c.init.z)
               && !GzipBuffer.Risky(env.inCap, env.readSize, h.pkgSize, h.rawSize)
    ensures NeverOverruns(env, m)
  {
    hide RunPass, Decode, Gzip.Bounded, GzipBuffer.Risky;
    if Selected(env, m).Some? {
      var h, a := Decode(m[..HEADER_SIZE]), Selected(env, m).value;
      GzipBuffer.SafeSizes(CrcPass(env, m, h, a), inf);
      forall size: nat
        ensures !RunPass(WritePass(env, m, h, a, size)).Overrun?
      {
        GzipBuffer.SafeSizes(WritePass(env, m, h, a, size), inf);
      }
    }
  }

  /** A build with FastLZ or QuickLZ, in which the stored format is registered too, never overruns a
      buffer of two reads and two bytes; it has 32 bytes more than two reads. */
  lemma FramedBuildsAreSafe<Q(!new), V(!new)>(env: Env<Q, V>, dec: BlockDecoder<Q>, m: seq<Byte>)
    requires EnvOk(env) && 2 * env.readSize + 2 <= env.inCap
    requires forall i, k | k != CMPRS_HPATCHLITE && env.table(i, k).Some? ::
               var c := env.table(i, k).value.codec; c == Stored(c.init) || c == Framed(c.init, dec)
    ensures NeverOverruns(env, m)
  {
    hide RunPass, Decode, NeverOverruns;
    if Selected(env, m).Some? && Selected(env, m).value.codec == Framed(Selected(env, m).value.codec.init, dec) {
      FramedPackagesAreSafe(env, dec, m);
    } else {
      StoredPackagesAreSafe(env, m);
    }
  }

  /** The build with gzip and the stored format overruns its buffer with no package whose header announces
      sizes that are not risky; with a buffer of two reads less one byte there are no risky sizes. */
  lemma GzipBuildsAreSafe<Z(!new), V(!new)>(env: Env<Gzip.State<Z>, V>, inf: Gzip.Inflater<Z>, m: seq<Byte>)
    requires EnvOk(env) && env.readSize <= env.inCap && Gzip.Bounded(inf)
    requires forall i, k | k != CMPRS_HPATCHLITE && env.table(i, k).Some? ::
               var c := env.table(i, k).value.codec;
               c == Stored(c.init) || (c == Gzip.GzipCodec(inf, c.init.z) && c.init == Gzip.StartOf(c.init.z))
    requires 2 * env.readSize <= env.inCap + 1 ||
             (|m| >= HEADER_SIZE ==>
                var h := Decode(m[..HEADER_SIZE]); !GzipBuffer.Risky(env.inCap, env.readSize, h.pkgSize, h.rawSize))
    ensures NeverOverruns(env, m)
  {
    hide RunPass, Decode, NeverOverruns;
    if Selected(env, m).Some? && Selected(env, m).value.codec != Stored(Selected(env, m).value.codec.init) {
      GzipPackagesAreSafe(env, inf, m);
    } else {
      StoredPackagesAreSafe(env, m);
    }
  }

  /** The build without compression: one array for all three buffers, and bodies handed on in place. */
  ghost predicate OneArray<S(!new), V(!new)>(env: Env<S, V>) {
    && env.inCap == env.readSize == BUF_SIZE
    && forall i, k | k != CMPRS_HPATCHLITE && env.table(i, k).Some? ::
         var c := env.table(i, k).value.codec; c == InPlaceCodec(c.init)
  }

  lemma SelectedShares<S(!new), V(!new)>(env: Env<S, V>, h: FwInfo, p: Pass<S, V>)
    requires EnvOk(env) && OneArray(env) && AlgoOf(env, h).Some? && CmprsId(h) != CMPRS_HPATCHLITE
    requires p.codec == AlgoOf(env, h).value.codec && p.cipher == AlgoOf(env, h).value.cipher
    requires p.inCap == env.inCap && p.readSize == env.readSize
    ensures Shared(p)
  {
  }

  /** Nor does that build, with any source. */
  lemma OneArrayBuildsAreSafe<S(!new), V(!new)>(env: Env<S, V>, m: seq<Byte>)
    requires EnvOk(env) && OneArray(env)
    ensures NeverOverruns(env, m)
  {
    hide RunPass, Decode, OneArray;
    if Selected(env, m).Some? {
      var h, a := Decode(m[..HEADER_SIZE]), Selected(env, m).value;
      SelectedShares(env, h, CrcPass(env, m, h, a));
      SharedNeverOverruns(CrcPass(env, m, h, a));
      forall size: nat
        ensures !RunPass(WritePass(env, m, h, a, size)).Overrun?
      {
        SelectedShares(env, h, WritePass(env, m, h, a, size));
        SharedNeverOverruns(WritePass(env, m, h, a, size));
      }
    }
  }

  /** What the differential update of the application comes to for the package in DOWNLOAD. */
  function DeltaOutcome(parts: Parts, sector: nat, backend: Hpatch.Backend, bufSize: nat, lib: Library, n: nat,
                        h: FwInfo): (r: Option<seq<Byte>>)
    ensures r.Some? ==> |r.value| <= |Mem(parts, App)|
  {
    PatchOutcome(lib, n, Hpatch.JobOf(parts, sector, backend, bufSize, HEADER_SIZE, ToInt32(h.pkgSize)),
                 ToInt32(h.rawSize))
  }

  /** A partition of `size` bytes with the new image, erased cells, and the header programmed over its tail. */
  function WithTail(image: seq<Byte>, size: nat, h: FwInfo): (m: seq<Byte>)
    requires WellSized(h) && |image| <= size && HEADER_SIZE <= size
    ensures |m| == size
  {
    Programmed(image + Fill(size - |image|), size - HEADER_SIZE, Encode(h))
  }

  /** When image and header do not overlap, the header goes into erased cells behind the image. */
  lemma TailOverErased(image: seq<Byte>, size: nat, h: FwInfo)
    requires WellSized(h) && |image| + HEADER_SIZE <= size
    ensures WithTail(image, size, h) == image + Fill(size - HEADER_SIZE - |image|) + Encode(h)
  {
    hide And, Encode;
    ProgramErased(image + Fill(size - |image|), size - HEADER_SIZE, Encode(h));
  }

  lemma ReadBackTail(m: seq<Byte>, h: FwInfo)
    requires WellSized(h) && Verified(m).Some? && |m| >= HEADER_SIZE && m[|m| - HEADER_SIZE..] == Encode(h)
    ensures Verified(m) == Some(h)
  {
    hide Encode, Decode, InfoOk;
    DecodeEncode(h);
  }

  lemma NoRelease<S(!new), V(!new)>(env: Env<S, V>, origin: Parts, base: Log, src: Target, dst: Target, h: FwInfo)
    requires EnvOk(env) && WellSized(h) && AlgoOf(env, h).None?
    ensures ReleaseRun(env, origin, base, src, dst, h) == Run(base, false)
  {
    hide RunPass, Encode, Replay;
  }

  /** The steps of a release, one after the other, are the release. */
  lemma ReleaseSteps<S(!new), V(!new)>(env: Env<S, V>, origin: Parts, base: Log, src: Target, dst: Target, h: FwInfo,
                                       e: Run, w: Run, t: Run, streamed: Parts)
    requires EnvOk(env) && WellSized(h) && AlgoOf(env, h).Some? && SameShape(Replay(origin, base, env.sector), streamed)
    requires var parts := Replay(origin, base, env.sector);
             && e == EraseRun(parts, base, dst, h.rawSize)
             && w == (if !e.ok then e
                      else StreamRun(e.log, dst, RunPass(WritePass(env, Mem(parts, src), h, AlgoOf(env, h).value,
                                                                   |Mem(parts, dst)|))))
             && t == if !w.ok then w
                     else TryOp(streamed, w, Program(dst, Wrap32(|Mem(streamed, dst)| - HEADER_SIZE), Encode(h)))
    ensures t == ReleaseRun(env, origin, base, src, dst, h)
  {
    var parts := Replay(origin, base, env.sector);
    hide RunPass, Encode, Decode, Replay, EraseRun, StreamRun, WritePass, TryOp, AlgoOf, KeepsLength, Wrap32;
    TryOpSizes(parts, streamed, w, Program(dst, Wrap32(|Mem(parts, dst)| - HEADER_SIZE), Encode(h)));
  }

  lemma SameElsewhere(parts: Parts, parts': Parts, src: Target, dst: Target)
    requires SameShape(parts, parts') && src != dst && forall t :: t in parts' && t != dst ==> parts'[t] == parts[t]
    ensures Mem(parts', src) == Mem(parts, src) && |Mem(parts', dst)| == |Mem(parts, dst)|
  {
  }

  /** How the protocol ends behind the checks. */
  lemma CheckedEnds<S(!new), V(!new)>(env: Env<S, V>, origin: Parts, base: Log, src: Target, h: FwInfo)
    requires EnvOk(env) && WellSized(h)
    ensures var parts, dst := Replay(origin, base, env.sector), NameToId(h.partName, env.swapRole);
            CheckedRun(env, origin, base, src, h) ==
            if dst.None? || |Mem(parts, dst.value)| == 0 then Run(base, false)
            else
              var u := UpdateRun(env, origin, base, src, dst.value, h);
              if !u.ok then u
              else
                var after := Replay(origin, u.log, env.sector);
                SignRun(after, u, src, Verified(Mem(after, dst.value)).value)
  {
    hide UpdateRun, Verified, SignRun, Replay, NameToId;
  }

  /** The part of a storage range that a CRC loop has covered. */
  function CrcDone(m: seq<Byte>, addr: nat, pos: nat): seq<Byte> {
    if 0 < pos && addr + pos <= |m| then m[addr..addr + pos] else []
  }

  lemma CrcStarts(m: seq<Byte>, addr: nat)
    ensures CycCal(0xFFFF_FFFF, CrcDone(m, addr, 0)) == 0xFFFF_FFFF
  {
  }

  lemma CrcOutside(m: seq<Byte>, addr: nat, size: nat, crc: U32)
    requires 0 < size && !RangeOk(m, addr, size)
    ensures !RangeCrcOk(m, addr, size, crc)
  {
  }

  lemma CrcEnds(m: seq<Byte>, addr: nat, size: nat, c: U32, crc: U32)
    requires (size > 0 ==> RangeOk(m, addr, size)) && c == CycCal(0xFFFF_FFFF, CrcDone(m, addr, size))
    ensures RangeCrcOk(m, addr, size, crc) <==> Xor32(c, 0xFFFF_FFFF) == crc
  {
    hide CycCal, Xor32;
  }

  lemma CrcTurns(m: seq<Byte>, addr: nat, pos: nat, n: int)
    requires n >= 0 && RangeOk(m, addr + pos, n) && (pos > 0 ==> RangeOk(m, addr, pos))
    ensures CycCal(CycCal(0xFFFF_FFFF, CrcDone(m, addr, pos)), m[addr + pos..addr + pos + n]) ==
            CycCal(0xFFFF_FFFF, CrcDone(m, addr, pos + n))
  {
    hide CycCal;
    CycCalConcat(0xFFFF_FFFF, CrcDone(m, addr, pos), m[addr + pos..addr + pos + n]);
    assert CrcDone(m, addr, pos) + m[addr + pos..addr + pos + n] == CrcDone(m, addr, pos + n);
  }

  /** A differential package that names the application or nothing. */
  predicate ForApp<S, V>(env: Env<S, V>, h: FwInfo) {
    CmprsId(h) == CMPRS_HPATCHLITE
        && (NameToId(h.partName, env.swapRole) == Some(App) || NameToId(h.partName, env.swapRole).None?)
  }

  /** What the protocol over a differential package comes to: nothing is touched, the application is left
      in pieces, or it is updated and verified. */
  datatype DeltaResult = Untouched(ok: bool) | Spoiled | Updated(app: seq<Byte>)

  ghost function DeltaRun<S(!new), V(!new)>(env: Env<S, V>, parts: Parts, sector: nat, checkSign: bool,
                                            backend: Hpatch.Backend, bufSize: nat, lib: Library, n: nat): DeltaResult
    requires EnvOk(env)
  {
    var m, size := Mem(parts, Download), |Mem(parts, App)|;
    var h := Check(env, m);
    if m == [] || h.None? then Untouched(false)
    else if checkSign && Signed(m, h.value) then Untouched(true)
    else if NameToId(h.value.partName, env.swapRole).None? || size == 0 then Untouched(false)
    else
      var r := DeltaOutcome(parts, sector, backend, bufSize, lib, n, h.value);
      if AlgoOf(env, h.value).Some? && r.Some? && HEADER_SIZE <= size
         && Verified(WithTail(r.value, size, h.value)).Some?
      then Updated(WithTail(r.value, size, h.value)) else Spoiled
  }

  /** A source with the sign programmed behind its package, unless it is there or has no room. */
  function SignedSource(m: seq<Byte>, h: FwInfo): seq<Byte> {
    if Signed(m, h) || !RangeOk(m, SignPos(h), 4) then m else Programmed(m, SignPos(h), SignBytes())
  }

  lemma SignApplied(parts: Parts, h: FwInfo, sector: nat)
    requires sector > 0
    ensures var after := Apply(parts, Program(Download, SignPos(h), SignBytes()), sector);
            && (App in parts ==> App in after && after[App] == parts[App])
            && (!Signed(Mem(parts, Download), h) ==> Mem(after, Download) == SignedSource(Mem(parts, Download), h))
  {
    hide Signed, Programmed, SignPos;
  }

  class Loader<S(!new), V(!new)> {
    const store: Store
    const env: Env<S, V>
    const cmprsBuf: array<Byte>
    const cryptBuf: array<Byte>   // also the decompression output buffer
    var fwInfo: FwInfo            // one header for all partitions

    constructor (store: Store, env: Env<S, V>, oneArray: bool)
      requires env.inCap >= BUF_SIZE && EnvOk(env) && store.sector == env.sector && store.Coherent()
      requires oneArray ==> OneArray(env)
      requires forall t :: t in store.parts ==> |store.parts[t]| < 0x8000_0000
      ensures Valid() && fresh(cmprsBuf) && fresh(cryptBuf) && this.store == store && this.env == env
    {
      this.store, this.env := store, env;
      var input := new Byte[env.inCap](_ => 0);
      var scratch := new Byte[BUF_SIZE](_ => 0);
      cmprsBuf := input;
      cryptBuf := if oneArray then input else scratch;
      fwInfo := Decode(seq(HEADER_SIZE, _ => 0));
    }

    ghost predicate Valid()
      reads this, store
    {
      && EnvOk(env) && store.sector == env.sector && store.Coherent() && Ready()
      && cmprsBuf.Length == env.inCap && cryptBuf.Length == BUF_SIZE && (cmprsBuf == cryptBuf ==> OneArray(env))
      && forall t :: t in store.parts ==> |store.parts[t]| < 0x8000_0000
    }

    /** Enough for the checks, which only read storage. */
    ghost predicate Ready()
      reads this
    {
      cmprsBuf.Length >= BUF_SIZE && WellSized(fwInfo)
    }

    /** Sizes of partitions are 31-bit. */
    ghost predicate Small(t: Target)
      reads this, store
    {
      |Mem(store.parts, t)| < 0x8000_0000
    }

    /** Reads a header from the front or the tail into the global header. */
    method FwInfoRead(t: Target, fromTail: bool) returns (ok: bool)
      requires Ready() && Small(t)
      modifies this`fwInfo
      ensures Ready()
      ensures var m := Mem(store.parts, t);
              && (ok <==> |m| >= HEADER_SIZE)
              && (ok ==> fwInfo == Decode(if fromTail then m[|m| - HEADER_SIZE..] else m[..HEADER_SIZE]))
    {
      var partLen := |Mem(store.parts, t)|;
      if fromTail && partLen < HEADER_SIZE {
        return false;
      }
      var addr := if fromTail then partLen - HEADER_SIZE else 0;
      var data;
      ok, data := store.Read(t, addr, HEADER_SIZE);
      hide Decode;
      if ok {
        assert data == if fromTail then store.parts[t][addr..] else store.parts[t][..HEADER_SIZE];
        fwInfo := Decode(data);
      }
    }

    /** Folds one piece of storage into a CRC; a negative length reads as one no partition can hold. */
    method CrcPiece(t: Target, off: U32, n: int, c: U32) returns (ok: bool, c': U32)
      requires Ready() && Small(t) && -0x8000_0000 <= n <= BUF_SIZE
      modifies cmprsBuf
      ensures ok == (n >= 0 && RangeOk(Mem(store.parts, t), off, n))
      ensures ok ==> c' == CycCal(c, store.parts[t][off..off + n])
    {
      hide CycCal;
      c' := c;
      var data;
      ok, data := store.Read(t, off, Wrap32(n));
      if ok {
        forall i | 0 <= i < n {
          cmprsBuf[i] := data[i];
        }
        assert cmprsBuf[..n] == data;
        c' := CycCal(c, cmprsBuf[..n]);
      }
    }

    /** One round of the CRC loop. */
    method CrcRound(t: Target, addr: U32, size: U32, pos: U32, c: U32) returns (ok: bool, pos': U32, c': U32)
      requires Ready() && Small(t) && addr <= HEADER_SIZE && pos < size
      requires pos > 0 ==> RangeOk(Mem(store.parts, t), addr, pos)
      requires c == CycCal(0xFFFF_FFFF, CrcDone(Mem(store.parts, t), addr, pos))
      modifies cmprsBuf
      ensures ok ==> pos < pos' <= size && RangeOk(Mem(store.parts, t), addr, pos')
      ensures ok ==> c' == CycCal(0xFFFF_FFFF, CrcDone(Mem(store.parts, t), addr, pos'))
      ensures !ok ==> !RangeOk(Mem(store.parts, t), addr, size)
    {
      hide CycCal;
      var readLen := BUF_SIZE;
      var remainLen := ToInt32(size - pos);
      if readLen > remainLen {
        readLen := remainLen;
      }
      pos' := pos;
      ok, c' := CrcPiece(t, Wrap32(addr + pos), readLen, c);
      if ok {
        CrcTurns(Mem(store.parts, t), addr, pos, readLen);
        pos' := pos + readLen;
      }
    }

    /** CRC of a storage range, read in pieces through the input buffer. */
    method FwCrcCheck(t: Target, addr: U32, size: U32, crc: U32) returns (ok: bool)
      requires Ready() && Small(t) && addr <= HEADER_SIZE
      modifies cmprsBuf
      ensures ok == RangeCrcOk(Mem(store.parts, t), addr, size, crc)
    {
      hide CycCal, Ready, Small, Xor32, RangeOk, RangeCrcOk, CrcDone;
      ghost var m := Mem(store.parts, t);
      var pos: U32, c: U32 := 0, 0xFFFF_FFFF;
      CrcStarts(m, addr);
      while pos < size
        invariant pos <= size && (pos > 0 ==> RangeOk(m, addr, pos))
        invariant c == CycCal(0xFFFF_FFFF, CrcDone(m, addr, pos))
      {
        ok, pos, c := CrcRound(t, addr, size, pos, c);
        if !ok {
          CrcOutside(m, addr, size, crc);
          return;
        }
      }
      CrcEnds(m, addr, size, c, crc);
      ok := Xor32(c, 0xFFFF_FFFF) == crc;
    }

    /** Streams a package body through the buffers of this build; one array serves for all three in the
        build without compression. */
    method Stream(c: Config<S, V>, crc0: U32) returns (ok: bool, crc: U32, ghost out: seq<seq<Byte>>)
      requires Valid() && AlgoOf(env, fwInfo).Some? && (c.dst.WriteTo? ==> c.dst.t != c.src) && Small(c.src)
      requires CmprsId(fwInfo) != CMPRS_HPATCHLITE
      requires Algo(c.codec, c.cipher) == AlgoOf(env, fwInfo).value && c.readSize == env.readSize
      requires KeepsLength(c.cipher) && !RunPass(PassOf(store.parts, c, env.inCap)).Overrun?
      modifies store`parts, store`log, cmprsBuf, cryptBuf
      ensures store.Coherent() && store.log == Written(old(store.log), c.dst, out)
      ensures RunPass(old(PassOf(store.parts, c, env.inCap))) == if ok then Done(out) else Failed(out)
      ensures crc == if c.dst.CrcOnly? then CycCal(crc0, Flatten(out)) else crc0
    {
      hide Process, CycCal, Flatten, Written, OneArray;
      if cmprsBuf == cryptBuf {
        SelectedShares(env, fwInfo, PassOf(store.parts, c, env.inCap));
        ok, crc, out := FwStreamShared(store, c, cmprsBuf, crc0);
      } else {
        ok, crc, out := FwStreamProcess(store, c, cmprsBuf, cryptBuf, cryptBuf, crc0);
      }
    }

    /** Decodes the package and checks the CRC of what comes out. */
    method AppCrcCheck(src: Target) returns (ok: bool)
      requires Valid() && |Mem(store.parts, src)| < 0x8000_0000 && CmprsId(fwInfo) != CMPRS_HPATCHLITE
      requires AlgoOf(env, fwInfo).Some? ==>
               !RunPass(CrcPass(env, Mem(store.parts, src), fwInfo, AlgoOf(env, fwInfo).value)).Overrun?
      modifies store`parts, store`log, cmprsBuf, cryptBuf
      ensures Valid() && store.parts == old(store.parts) && store.log == old(store.log)
      ensures ok == AppCrcOk(env, Mem(store.parts, src), fwInfo)
    {
      hide Process, CycCal, Xor32, OneArray, Flatten;
      var a := AlgoOf(env, fwInfo);
      if a.None? {
        return false;
      }
      var c := Config(src, CrcOnly, fwInfo.pkgSize, fwInfo.rawSize, env.readSize, ForCrc, a.value.codec,
                      a.value.cipher);
      assert PassOf(store.parts, c, env.inCap) == CrcPass(env, Mem(store.parts, src), fwInfo, a.value);
      hide RunPass;
      var crc;
      ghost var out;
      ok, crc, out := Stream(c, 0xFFFF_FFFF);
      if ok {
        ok := Xor32(crc, 0xFFFF_FFFF) == fwInfo.rawCrc;
      }
    }

    /** Package check: header, body CRC, application CRC. */
    method FwCheck(src: Target) returns (ok: bool)
      requires Valid() && NeverOverruns(env, Mem(store.parts, src))
      modifies this`fwInfo, store`parts, store`log, cmprsBuf, cryptBuf
      ensures Valid() && store.parts == old(store.parts) && store.log == old(store.log)
      ensures var r := Check(env, Mem(store.parts, src)); (ok <==> r.Some?) && (ok ==> fwInfo == r.value)
    {
      hide Decode, Encode, RunPass, CycCal;
      ok := FwInfoRead(src, false);
      if !ok {
        return;
      }
      ok := InfoOk(fwInfo);
      if !ok {
        return;
      }
      ok := FwCrcCheck(src, HEADER_SIZE, fwInfo.pkgSize, fwInfo.pkgCrc);
      if ok && CmprsId(fwInfo) != CMPRS_HPATCHLITE && VerifyBits(fwInfo) == VERIFY_CRC {
        ok := AppCrcCheck(src);
      }
    }

    /** Destination check; the global header becomes the one found at the tail. */
    method DestPartVerify(t: Target) returns (ok: bool)
      requires Ready() && Small(t)
      modifies this`fwInfo, cmprsBuf
      ensures Ready()
      ensures var r := Verified(Mem(store.parts, t)); (ok <==> r.Some?) && (ok ==> fwInfo == r.value)
    {
      hide Decode, Encode, CycCal, InfoOk, RangeCrcOk, NameIs, Crc32;
      ok := FwInfoRead(t, true);
      if !ok {
        return;
      }
      ok := InfoOk(fwInfo);
      if ok && VerifyBits(fwInfo) == VERIFY_CRC {
        ok := FwCrcCheck(t, 0, fwInfo.rawSize, fwInfo.rawCrc);
      }
    }

    // Release

    /** Erases a range of a partition. */
    method EraseTarget(dst: Target, off: U32, len: U32) returns (ok: bool)
      requires Valid()
      modifies store`parts, store`log
      ensures Valid() && SameShape(old(store.parts), store.parts)
      ensures forall t :: t in store.parts && t != dst ==> store.parts[t] == old(store.parts[t])
      ensures Run(store.log, ok) == TryOp(old(store.parts), Run(old(store.log), true), Erase(dst, off, len))
    {
      hide Erased, Replay, EnvOk, OneArray, Encode, Decode;
      ok := store.EraseWithFeed(dst, off, len);
    }

    /** Erases the image range and the tail of the destination. */
    method EraseDestination(dst: Target) returns (ok: bool)
      requires Valid()
      modifies store`parts, store`log
      ensures Valid() && SameShape(old(store.parts), store.parts)
      ensures forall t :: t in store.parts && t != dst ==> store.parts[t] == old(store.parts[t])
      ensures Run(store.log, ok) == EraseRun(old(store.parts), old(store.log), dst, fwInfo.rawSize)
    {
      hide Erased, Replay, EnvOk, OneArray, Encode, Decode, TryOp, Applies;
      var dstSize := |Mem(store.parts, dst)|;
      ok := EraseTarget(dst, 0, fwInfo.rawSize);
      ghost var first := Run(store.log, ok);
      TryOpSizes(old(store.parts), store.parts, first, Erase(dst, Wrap32(dstSize - HEADER_SIZE), HEADER_SIZE));
      if ok {
        ok := EraseTarget(dst, Wrap32(dstSize - HEADER_SIZE), HEADER_SIZE);
      }
    }

    /** Streams the package body to the destination. */
    method StreamTo(src: Target, dst: Target, a: Algo<S, V>) returns (ok: bool)
      requires Valid() && src != dst && KeepsLength(a.cipher)
      requires AlgoOf(env, fwInfo) == Some(a) && CmprsId(fwInfo) != CMPRS_HPATCHLITE
      requires !RunPass(WritePass(env, Mem(store.parts, src), fwInfo, a, |Mem(store.parts, dst)|)).Overrun?
      modifies store`parts, store`log, cmprsBuf, cryptBuf
      ensures Valid() && SameShape(old(store.parts), store.parts)
      ensures Run(store.log, ok) ==
              StreamRun(old(store.log), dst,
                        RunPass(WritePass(env, old(Mem(store.parts, src)), fwInfo, a, old(|Mem(store.parts, dst)|))))
    {
      hide Process, Written, Flatten, OneArray;
      ghost var p := WritePass(env, Mem(store.parts, src), fwInfo, a, |Mem(store.parts, dst)|);
      var c := Config(src, WriteTo(dst), fwInfo.pkgSize, fwInfo.rawSize, env.readSize, ForWrite, a.codec, a.cipher);
      assert PassOf(store.parts, c, env.inCap) == p;
      hide RunPass;
      var crc;
      ghost var out;
      ok, crc, out := Stream(c, 0);
    }

    /** Writes the global header to the tail of the destination. */
    method WriteTail(dst: Target) returns (ok: bool)
      requires Valid()
      modifies store`parts, store`log
      ensures Valid() && SameShape(old(store.parts), store.parts)
      ensures Run(store.log, ok) ==
              TryOp(old(store.parts), Run(old(store.log), true),
                    Program(dst, Wrap32(|Mem(old(store.parts), dst)| - HEADER_SIZE), Encode(fwInfo)))
    {
      hide Encode, Decode, Programmed, Replay;
      ok := store.Write(dst, Wrap32(|Mem(store.parts, dst)| - HEADER_SIZE), Encode(fwInfo));
    }

    /** Releases the package of the global header from `src` to `dst`: erase, stream, tail header. */
    method FwRelease(src: Target, dst: Target) returns (ok: bool)
      requires Valid() && src != dst && CmprsId(fwInfo) != CMPRS_HPATCHLITE
      requires AlgoOf(env, fwInfo).Some? ==>
                 !RunPass(WritePass(env, Mem(store.parts, src), fwInfo, AlgoOf(env, fwInfo).value,
                                    |Mem(store.parts, dst)|)).Overrun?
      modifies store`parts, store`log, cmprsBuf, cryptBuf
      ensures Valid() && SameShape(old(store.parts), store.parts)
      ensures Run(store.log, ok) == ReleaseRun(env, store.origin, old(store.log), src, dst, fwInfo)
    {
      hide RunPass, Encode, Decode, Replay, WritePass, EraseRun, StreamRun, TryOp, ReleaseRun, SameShape, EnvOk;
      ghost var parts, base := store.parts, store.log;
      var a := AlgoOf(env, fwInfo);
      if a.None? {
        NoRelease(env, store.origin, base, src, dst, fwInfo);
        SameShapeSelf(parts);
        return false;
      }
      ok := EraseDestination(dst);
      ghost var e, erased := Run(store.log, ok), store.parts;
      if ok {
        SameElsewhere(parts, erased, src, dst);
        EnvKeeps(env, fwInfo);
        ok := StreamTo(src, dst, a.value);
      }
      ghost var w, streamed := Run(store.log, ok), store.parts;
      if ok {
        ok := WriteTail(dst);
      }
      SameShapeSelf(erased);
      SameShapeSelf(streamed);
      SameShapeTrans(parts, erased, streamed);
      SameShapeTrans(parts, streamed, store.parts);
      ReleaseSteps(env, store.origin, base, src, dst, fwInfo, e, w, Run(store.log, ok), streamed);
    }

    /** Release and destination check. */
    method FwUpdate(src: Target, dst: Target) returns (ok: bool)
      requires Valid() && src != dst && CmprsId(fwInfo) != CMPRS_HPATCHLITE
      requires AlgoOf(env, fwInfo).Some? ==>
                 !RunPass(WritePass(env, Mem(store.parts, src), fwInfo, AlgoOf(env, fwInfo).value,
                                    |Mem(store.parts, dst)|)).Overrun?
      modifies this`fwInfo, store`parts, store`log, cmprsBuf, cryptBuf
      ensures Valid() && SameShape(old(store.parts), store.parts)
      ensures Run(store.log, ok) == UpdateRun(env, store.origin, old(store.log), src, dst, old(fwInfo))
      ensures ok ==> Verified(Mem(store.parts, dst)) == Some(fwInfo)
    {
      hide RunPass, Verified, ReleaseRun, Replay, EnvOk;
      ok := FwRelease(src, dst);
      if ok {
        ok := DestPartVerify(dst);
      }
    }

    // Release sign

    method ReleaseSignCheck(src: Target) returns (released: bool)
      requires Ready()
      ensures released == Signed(Mem(store.parts, src), fwInfo)
    {
      var ok, data := store.Read(src, SignPos(fwInfo), 4);
      released := ok && FromLe(data) == SIGN_WORD;
    }

    /** Writes the sign behind the package; a source too small for it stays unsigned. */
    method ReleaseSignWrite(src: Target) returns (ok: bool)
      requires Ready() && 0 < store.sector
      modifies store`parts, store`log
      ensures old(Valid()) ==> Valid()
      ensures SameShape(old(store.parts), store.parts)
      ensures Run(store.log, ok) ==
              TryOp(old(store.parts), Run(old(store.log), true), Program(src, SignPos(fwInfo), SignBytes()))
      ensures store.parts == Apply(old(store.parts), Program(src, SignPos(fwInfo), SignBytes()), store.sector)
    {
      hide Replay, Programmed, SignPos, SignBytes;
      ok := store.Write(src, SignPos(fwInfo), SignBytes());
    }

    /** The part of the protocol behind a successful update. */
    method SignAfterUpdate(src: Target, ghost u: Run) returns (ok: bool)
      requires Ready() && 0 < store.sector && u == Run(store.log, true)
      modifies store`parts, store`log
      ensures old(Valid()) ==> Valid()
      ensures SameShape(old(store.parts), store.parts)
      ensures Run(store.log, ok) == SignRun(old(store.parts), u, src, fwInfo)
      ensures store.parts == if Signed(old(Mem(store.parts, src)), fwInfo) then old(store.parts)
                             else Apply(old(store.parts), Program(src, SignPos(fwInfo), SignBytes()), store.sector)
    {
      hide Replay, Programmed, SignPos, SignBytes, Signed, Apply;
      var released := ReleaseSignCheck(src);
      if released {
        SameShapeSelf(store.parts);
      } else {
        var _ := ReleaseSignWrite(src);
      }
      ok := true;
    }

    // Entry points

    lemma ValidFacts()
      requires Valid()
      ensures EnvOk(env) && 0 < env.sector == store.sector && Ready()
      ensures store.parts == Replay(store.origin, store.log, env.sector)
    {
    }

    /** Releases a checked package to the partition that the global header names, and signs it. */
    method ReleaseChecked(src: Target) returns (ok: bool)
      requires Valid() && NeverOverruns(env, Mem(store.parts, src)) && Check(env, Mem(store.parts, src)) == Some(fwInfo)
      requires CmprsId(fwInfo) != CMPRS_HPATCHLITE && NameToId(fwInfo.partName, env.swapRole) != Some(src)
      modifies this`fwInfo, store`parts, store`log, cmprsBuf, cryptBuf
      ensures Valid() && SameShape(old(store.parts), store.parts)
      ensures Run(store.log, ok) == CheckedRun(env, store.origin, old(store.log), src, old(fwInfo))
    {
      hide RunPass, Check, CheckedRun, UpdateRun, Verified, Signed, Replay, SignRun, EnvOk, AlgoOf, WritePass, CrcPass,
           OneArray, NameToId, Apply, NeverOverruns, Selected, Valid, SameShape;
      ValidFacts();
      CheckedEnds(env, store.origin, store.log, src, fwInfo);
      var dst := NameToId(fwInfo.partName, env.swapRole);
      if dst.None? || |Mem(store.parts, dst.value)| == 0 {
        SameShapeSelf(store.parts);
        return false;
      }
      WriteFits(env, Mem(store.parts, src), fwInfo, |Mem(store.parts, dst.value)|);
      ok := FwUpdate(src, dst.value);
      if ok {
        ValidFacts();
        ghost var parts := store.parts;
        ok := SignAfterUpdate(src, Run(store.log, true));
        SameShapeTrans(old(store.parts), parts, store.parts);
      }
    }

    /** Releases the package of a source partition to the partition its header names. */
    method ReleaseFromPart(src: Target, checkSign: bool) returns (ok: bool)
      requires Valid() && NeverOverruns(env, Mem(store.parts, src))
      requires var h := Check(env, Mem(store.parts, src));
               h.Some? ==> CmprsId(h.value) != CMPRS_HPATCHLITE && NameToId(h.value.partName, env.swapRole) != Some(src)
      modifies this`fwInfo, store`parts, store`log, cmprsBuf, cryptBuf
      ensures Valid() && SameShape(old(store.parts), store.parts)
      ensures Run(store.log, ok) == FromPartRun(env, store.origin, old(store.log), src, checkSign)
    {
      hide RunPass, Check, CheckedRun, Verified, Signed, Replay, EnvOk, AlgoOf, WritePass, CrcPass, OneArray,
           NameToId, NeverOverruns;
      SameShapeSelf(store.parts);
      ok := false;
      if |Mem(store.parts, src)| == 0 {
        return;
      }
      ok := FwCheck(src);
      if !ok {
        return;
      }
      if checkSign {
        var released := ReleaseSignCheck(src);
        if released {
          return;
        }
      }
      ok := ReleaseChecked(src);
    }

    /** Restores the application from a source partition. */
    method AppResumeFrom(src: Target) returns (ok: bool)
      requires Valid() && NeverOverruns(env, Mem(store.parts, src)) && src != App
      requires var h := Check(env, Mem(store.parts, src)); h.Some? ==> CmprsId(h.value) != CMPRS_HPATCHLITE
      modifies this`fwInfo, store`parts, store`log, cmprsBuf, cryptBuf
      ensures Valid() && SameShape(old(store.parts), store.parts)
      ensures Run(store.log, ok) == ResumeRun(env, store.origin, old(store.log), src)
    {
      hide RunPass, Check, UpdateRun, Verified, Replay, EnvOk, AlgoOf, WritePass, CrcPass;
      ok := false;
      if |Mem(store.parts, src)| == 0 || |Mem(store.parts, App)| == 0 {
        return;
      }
      ok := FwCheck(src);
      if !ok {
        return;
      }
      if !NameIs(fwInfo.partName, Ascii("app")) {
        return false;
      }
      ok := FwUpdate(src, App);
    }

    // Differential packages

    /** Releases the differential package in DOWNLOAD over the application: patch in place, then the
        header to the tail. */
    method FwReleaseDifferential(backend: Hpatch.Backend, bufSize: nat, lib: Library, n: nat) returns (ok: bool)
      requires Ready() && CmprsId(fwInfo) == CMPRS_HPATCHLITE && App in store.parts && 0 < bufSize
      requires IsPow2(store.sector) && Whole(|store.parts[App]|, store.sector)
      requires |store.parts[App]| + bufSize + |Mem(store.parts, SwapArea)| + store.sector < 0x8000_0000
      modifies store
      ensures var size := |old(store.parts[App])|;
              var r := DeltaOutcome(old(store.parts), store.sector, backend, bufSize, lib, n, fwInfo);
              && (ok <==> AlgoOf(env, fwInfo).Some? && r.Some? && HEADER_SIZE <= size)
              && (ok ==> App in store.parts && store.parts[App] == WithTail(r.value, size, fwInfo))
      ensures Mem(store.parts, Download) == old(Mem(store.parts, Download))
    {
      hide Encode, Decode, InPlace, Programmed, IsPow2, Whole, RunSpan, And, LeftAs;
      if AlgoOf(env, fwInfo).None? {
        return false;
      }
      var dstSize := |store.parts[App]|;
      ghost var done, lo;
      ok, done, lo := Hpatch.ReleaseFromPart(store, backend, bufSize, lib, n, ToInt32(fwInfo.pkgSize),
                                             ToInt32(fwInfo.rawSize), HEADER_SIZE);
      if ok {
        ok := store.Write(App, Wrap32(dstSize - HEADER_SIZE), Encode(fwInfo));
      }
    }

    /** Differential release and destination check: success exactly when the patch yields an image that
        verifies with the header over its tail; the global header becomes the one read back, which is the
        header of the package when image and header do not overlap. */
    method FwUpdateDifferential(backend: Hpatch.Backend, bufSize: nat, lib: Library, n: nat) returns (ok: bool)
      requires Ready() && CmprsId(fwInfo) == CMPRS_HPATCHLITE && App in store.parts && 0 < bufSize
      requires IsPow2(store.sector) && Whole(|store.parts[App]|, store.sector)
      requires |store.parts[App]| + bufSize + |Mem(store.parts, SwapArea)| + store.sector < 0x8000_0000
      modifies this`fwInfo, store, cmprsBuf
      ensures var size, h := |old(store.parts[App])|, old(fwInfo);
              var r := DeltaOutcome(old(store.parts), store.sector, backend, bufSize, lib, n, h);
              && (ok <==>
                  && AlgoOf(env, h).Some? && r.Some? && HEADER_SIZE <= size
                  && Verified(WithTail(r.value, size, h)).Some?)
              && (ok ==> App in store.parts && store.parts[App] == WithTail(r.value, size, h)
                         && Verified(store.parts[App]) == Some(fwInfo))
              && (ok && |r.value| + HEADER_SIZE <= size ==>
                    fwInfo == h && store.parts[App] == r.value + Fill(size - HEADER_SIZE - |r.value|) + Encode(h))
      ensures Ready() && Mem(store.parts, Download) == old(Mem(store.parts, Download))
    {
      hide Encode, Decode, Hpatch.JobOf, IsPow2, Whole, Verified, InPlace, InfoOk, WithTail;
      ghost var size, h := |store.parts[App]|, fwInfo;
      ghost var r := DeltaOutcome(store.parts, store.sector, backend, bufSize, lib, n, h);
      ok := FwReleaseDifferential(backend, bufSize, lib, n);
      if ok {
        ok := DestPartVerify(App);
        if ok && |r.value| + HEADER_SIZE <= size {
          TailOverErased(r.value, size, h);
          ReadBackTail(store.parts[App], h);
        }
      }
    }

    /** The protocol over a differential package in DOWNLOAD for the application. Its sign is written only
        when the application partition has passed verification, and nothing else of the source changes. */
    method ReleaseDifferential(checkSign: bool, backend: Hpatch.Backend, bufSize: nat, lib: Library, n: nat)
      returns (ok: bool)
      requires Valid() && NeverOverruns(env, Mem(store.parts, Download)) && App in store.parts && 0 < bufSize
      requires var h := Check(env, Mem(store.parts, Download)); h.Some? ==> ForApp(env, h.value)
      requires IsPow2(store.sector) && Whole(|store.parts[App]|, store.sector)
      requires |store.parts[App]| + bufSize + |Mem(store.parts, SwapArea)| + store.sector < 0x8000_0000
      modifies this`fwInfo, store, cmprsBuf, cryptBuf
      ensures var r := DeltaRun(env, old(store.parts), store.sector, checkSign, backend, bufSize, lib, n);
              && (ok <==> r == Untouched(true) || r.Updated?)
              && (r.Untouched? ==> store.parts == old(store.parts))
              && (r.Spoiled? ==> Mem(store.parts, Download) == old(Mem(store.parts, Download)))
              && (r.Updated? ==>
                    && App in store.parts && store.parts[App] == r.app && Verified(r.app) == Some(fwInfo)
                    && Mem(store.parts, Download) == SignedSource(old(Mem(store.parts, Download)), fwInfo))
    {
      hide RunPass, Check, Verified, Signed, Replay, EnvOk, AlgoOf, WritePass, CrcPass, OneArray, NameToId,
      DeltaOutcome,
           WithTail, IsPow2, Whole, SignPos, SignBytes, Programmed, Encode, Decode, NeverOverruns, Apply;
      ok := false;
      if |Mem(store.parts, Download)| == 0 {
        return;
      }
      ok := FwCheck(Download);
      if !ok {
        return;
      }
      if checkSign {
        var released := ReleaseSignCheck(Download);
        if released {
          return;
        }
      }
      var dst := NameToId(fwInfo.partName, env.swapRole);
      if dst.None? || |Mem(store.parts, App)| == 0 {
        return false;
      }
      ok := FwUpdateDifferential(backend, bufSize, lib, n);
      if ok {
        ghost var parts := store.parts;
        ok := SignAfterUpdate(Download, Run(store.log, true));
        SignApplied(parts, fwInfo, store.sector);
      }
    }
  }
}
