/** Differential packages from the packaging tool to the patch library. */
module DeltaPackage {
  import opened Bits
  import opened Storage
  import opened StreamSpec
  import opened Crc
  import opened PatchSpec
  import opened PatchRuns
  import opened FwInfo
  import opened ReleaseSpec
  import opened PackageTool
  import opened Boot
  import opened Detection
  import opened Resume
  import Hpatch

  /** What the tool is given for a differential package. */
  datatype Order = Order(raw: seq<Byte>, patch: seq<Byte>, crypt: string, cmprs: string, verify: string,
                         timestamp: nat, part: seq<Byte>, version: seq<Byte>, product: seq<Byte>)

  function File(o: Order): Option<seq<Byte>> {
    PackageRbl(o.raw, o.patch, o.crypt, o.cmprs, o.verify, o.timestamp, o.part, o.version, o.product)
  }

  /** `m` starts with the package that the tool made of the patch, under the name of the differential format. */
  predicate HoldsPatch(m: seq<Byte>, o: Order) {
    && ParseAlgo(o.cmprs, CMPRS_TABLE) == ParseAlgo("hpatchlite", CMPRS_TABLE) && o.timestamp < 0x1_0000_0000
    && |o.raw| < 0x8000_0000 && |o.patch| < 0x8000_0000 && File(o).Some? && File(o).value <= m
  }

  lemma PatchHeader(m: seq<Byte>, o: Order) returns (h: FwInfo)
    requires HoldsPatch(m, o)
    ensures |m| >= HEADER_SIZE + |o.patch| && h == Decode(m[..HEADER_SIZE]) && WellSized(h) && InfoOk(h)
    ensures m[HEADER_SIZE..HEADER_SIZE + |o.patch|] == o.patch
    ensures CmprsId(h) == CMPRS_HPATCHLITE && VerifyBits(h) == 0
    ensures h.pkgSize == |o.patch| && h.rawSize == |o.raw| && h.pkgCrc == Crc32(o.patch) && h.rawCrc == Crc32(o.raw)
    ensures h.partName == PackString(16, o.part) && |o.patch| < 0x8000_0000 && |o.raw| < 0x8000_0000
  {
    hide Decode, InfoOk, Crc32, ParseAlgo, PackageRbl, PackString, CmprsId, VerifyBits;
    var file := File(o).value;
    SelectsWhatWasAsked(o.raw, o.patch, o.crypt, o.cmprs, o.verify, o.timestamp, o.part, o.version, o.product);
    NamesMean();
    var size := HEADER_SIZE + |o.patch|;
    assert m[..size] == file;
    assert m[..HEADER_SIZE] == file[..HEADER_SIZE] && m[HEADER_SIZE..size] == file[HEADER_SIZE..];
    h := Decode(m[..HEADER_SIZE]);
  }

  /** The package check accepts it, without a look at the image. */
  lemma PatchChecks<S(!new), V(!new)>(env: Env<S, V>, m: seq<Byte>, o: Order) returns (h: FwInfo)
    requires EnvOk(env) && HoldsPatch(m, o)
    ensures Check(env, m) == Some(h) && CmprsId(h) == CMPRS_HPATCHLITE && VerifyBits(h) == 0
    ensures h.pkgSize == |o.patch| && h.rawSize == |o.raw| && h.partName == PackString(16, o.part)
    ensures WellSized(h) && InfoOk(h) && |m| >= HEADER_SIZE && h == Decode(m[..HEADER_SIZE])
  {
    hide Decode, InfoOk, Crc32, CmprsId, VerifyBits, PackString, AppCrcOk, HoldsPatch;
    h := PatchHeader(m, o);
    if |o.patch| == 0 {
      assert o.patch == [];
    }
  }

  /** The job that the boot loader sets up for the package in DOWNLOAD. */
  function JobFor(parts: Parts, sector: nat, backend: Hpatch.Backend, bufSize: nat, h: FwInfo): Job {
    Hpatch.JobOf(parts, sector, backend, bufSize, HEADER_SIZE, ToInt32(h.pkgSize))
  }

  /** Its patch file is the patch that the tool was given, all of it and nothing else. */
  lemma PatchFile(parts: Parts, sector: nat, backend: Hpatch.Backend, bufSize: nat, o: Order, h: FwInfo)
    requires HEADER_SIZE <= |Mem(parts, Download)| && h == Decode(Mem(parts, Download)[..HEADER_SIZE])
    requires HoldsPatch(Mem(parts, Download), o)
    ensures var j := JobFor(parts, sector, backend, bufSize, h);
            && j.orig == Mem(parts, App) && j.patchLen == |o.patch| <= |j.patch| && j.patch[..j.patchLen] == o.patch
  {
    hide Decode, InfoOk, Crc32, PackString, HoldsPatch;
    var m := Mem(parts, Download);
    var read := PatchHeader(m, o);
    SliceOfSlice(m, HEADER_SIZE, |m|, 0, |o.patch|);
    assert m[HEADER_SIZE..|m|] == m[HEADER_SIZE..];
  }

  lemma OutcomeMeans(lib: Library, n: nat, j: Job, newerLen: int, r: seq<Byte>)
    requires j.Valid()
    ensures PatchOutcome(lib, n, j, newerLen) == Some(r) <==>
            && |r| == newerLen && |r| <= |j.orig|
            && exists hist :: Completes(lib, j, Partition(j), hist, n, r)
  {
    hide InPlace, Completes;
    InPlaceMeans(lib, n, j, r);
  }

  /** The update of the application yields exactly an image of the announced length that fits the partition and
      is all that the library hands over in a run in which it gets right answers only: the application as the
      partition holds it at that moment, and the patch of the tool piece by piece. */
  lemma DeltaExactly(parts: Parts, sector: nat, backend: Hpatch.Backend, bufSize: nat, lib: Library, n: nat, o: Order,
                     h: FwInfo, image: seq<Byte>)
    requires HEADER_SIZE <= |Mem(parts, Download)| && h == Decode(Mem(parts, Download)[..HEADER_SIZE])
    requires HoldsPatch(Mem(parts, Download), o)
    ensures var j := JobFor(parts, sector, backend, bufSize, h);
            DeltaOutcome(parts, sector, backend, bufSize, lib, n, h) == Some(image) <==>
            && j.Valid() && |image| == |o.raw| && |image| <= |Mem(parts, App)|
            && exists hist :: Completes(lib, j, Partition(j), hist, n, image)
  {
    hide Decode, HoldsPatch, InPlace, Completes, Hpatch.JobOf, PatchOutcome;
    var read := PatchHeader(Mem(parts, Download), o);
    PatchFile(parts, sector, backend, bufSize, o, h);
    var j := JobFor(parts, sector, backend, bufSize, h);
    if j.Valid() {
      OutcomeMeans(lib, n, j, |o.raw|, image);
    } else {
      NoJob(lib, n, j, |o.raw|);
    }
  }

  lemma NoJob(lib: Library, n: nat, j: Job, newerLen: int)
    requires !j.Valid()
    ensures PatchOutcome(lib, n, j, newerLen).None?
  {
  }

  /** In such a run the pieces make up the patch of the tool from its start, as much of it as the library asked
      for, and all of it when that much or more was asked for, in whatever pieces. */
  lemma PatchReaches(parts: Parts, sector: nat, backend: Hpatch.Backend, bufSize: nat, lib: Library, n: nat, o: Order,
                     h: FwInfo, hist: seq<seq<Byte>>, image: seq<Byte>)
    requires HEADER_SIZE <= |Mem(parts, Download)| && h == Decode(Mem(parts, Download)[..HEADER_SIZE])
    requires HoldsPatch(Mem(parts, Download), o) && JobFor(parts, sector, backend, bufSize, h).Valid()
    requires var j := JobFor(parts, sector, backend, bufSize, h); Completes(lib, j, Partition(j), hist, n, image)
    ensures Given(lib, hist) <= o.patch
    ensures Asked(lib, hist) >= |o.patch| ==> Given(lib, hist) == o.patch
    ensures Asked(lib, hist) < |o.patch| ==> |Given(lib, hist)| == Asked(lib, hist)
  {
    hide Decode, HoldsPatch, InPlace, Completes, Given, Asked, Hpatch.JobOf;
    PatchFile(parts, sector, backend, bufSize, o, h);
    var j := JobFor(parts, sector, backend, bufSize, h);
    PatchDelivered(lib, j, Partition(j), hist, n, image);
    PrefixOfPrefix(Given(lib, hist), j.patch, |o.patch|);
  }

  lemma PrefixOfPrefix(a: seq<Byte>, b: seq<Byte>, n: nat)
    requires a <= b && |a| <= n <= |b|
    ensures a <= b[..n]
  {
  }

  /** A header that asks for no check of the image verifies behind any image. */
  lemma TailVerifies(image: seq<Byte>, size: nat, h: FwInfo)
    requires WellSized(h) && InfoOk(h) && VerifyBits(h) == 0 && |image| + HEADER_SIZE <= size
    ensures Verified(WithTail(image, size, h)) == Some(h)
    ensures WithTail(image, size, h) == image + Fill(size - HEADER_SIZE - |image|) + Encode(h)
  {
    hide Encode, InfoOk, Verified, WithTail, VerifyBits;
    TailOverErased(image, size, h);
    var m := WithTail(image, size, h);
    assert m[size - HEADER_SIZE..] == Encode(h);
    VerifiedMeans(m, h);
  }

  /** The whole protocol over the tool's differential package for the application, not released before: when a
      run of the library with right answers hands over an image of the announced length that leaves room for
      the header, the application partition becomes that image, erased cells and the header of the package. */
  lemma DeltaBoots<S(!new), V(!new)>(env: Env<S, V>, parts: Parts, sector: nat, checkSign: bool,
                                     backend: Hpatch.Backend, bufSize: nat, lib: Library, n: nat, o: Order,
                                     hist: seq<seq<Byte>>, image: seq<Byte>) returns (h: FwInfo)
    requires EnvOk(env) && HoldsPatch(Mem(parts, Download), o) && o.part == Ascii("app")
    requires |Mem(parts, Download)| >= HEADER_SIZE
    requires AlgoOf(env, Decode(Mem(parts, Download)[..HEADER_SIZE])).Some?
    requires checkSign ==> !Signed(Mem(parts, Download), Decode(Mem(parts, Download)[..HEADER_SIZE]))
    requires var j := JobFor(parts, sector, backend, bufSize, Decode(Mem(parts, Download)[..HEADER_SIZE]));
             j.Valid() && Completes(lib, j, Partition(j), hist, n, image)
    requires |image| == |o.raw| && |image| + HEADER_SIZE <= |Mem(parts, App)|
    ensures Check(env, Mem(parts, Download)) == Some(h) && WellSized(h)
    ensures DeltaRun(env, parts, sector, checkSign, backend, bufSize, lib, n) ==
            Updated(image + Fill(|Mem(parts, App)| - HEADER_SIZE - |image|) + Encode(h))
  {
    hide Decode, HoldsPatch, Completes, Hpatch.JobOf, Check, Verified, Signed, DeltaOutcome, InfoOk, WithTail, Encode,
         AlgoOf, NameToId, PackString, CmprsId, VerifyBits;
    h := PatchChecks(env, Mem(parts, Download), o);
    DeltaExactly(parts, sector, backend, bufSize, lib, n, o, h, image);
    NamesApp(o, env.swapRole);
    TailVerifies(image, |Mem(parts, App)|, h);
  }

  /** So the device gets the image that the same patch yields against an untouched copy of the old application,
      when the library reads ahead of what has been overwritten. */
  lemma DeltaDelivers<S(!new), V(!new)>(env: Env<S, V>, parts: Parts, sector: nat, checkSign: bool,
                                        backend: Hpatch.Backend, bufSize: nat, lib: Library, n: nat, o: Order,
                                        hist: seq<seq<Byte>>) returns (h: FwInfo)
    requires EnvOk(env) && HoldsPatch(Mem(parts, Download), o) && o.part == Ascii("app")
    requires |Mem(parts, Download)| >= HEADER_SIZE
    requires AlgoOf(env, Decode(Mem(parts, Download)[..HEADER_SIZE])).Some?
    requires checkSign ==> !Signed(Mem(parts, Download), Decode(Mem(parts, Download)[..HEADER_SIZE]))
    requires var j := JobFor(parts, sector, backend, bufSize, Decode(Mem(parts, Download)[..HEADER_SIZE]));
             && j.Valid() && ReadsAhead(lib, n, [], j, Progress(0, []))
             && Completes(lib, j, Copy(j), hist, n, o.raw)
    requires |o.raw| + HEADER_SIZE <= |Mem(parts, App)|
    ensures Check(env, Mem(parts, Download)) == Some(h) && WellSized(h)
    ensures DeltaRun(env, parts, sector, checkSign, backend, bufSize, lib, n) ==
            Updated(o.raw + Fill(|Mem(parts, App)| - HEADER_SIZE - |o.raw|) + Encode(h))
  {
    hide Decode, HoldsPatch, Completes, Check, Verified, Signed, DeltaRun, Encode, AlgoOf, ReadsAhead, OutOfPlace,
         InPlace;
    var j := JobFor(parts, sector, backend, bufSize, Decode(Mem(parts, Download)[..HEADER_SIZE]));
    OutOfPlaceMeans(lib, n, j, o.raw);
    InPlaceRefinesOutOfPlace(lib, n, [], j, Progress(0, []));
    InPlaceMeans(lib, n, j, o.raw);
    var same :| Completes(lib, j, Partition(j), same, n, o.raw);
    h := DeltaBoots(env, parts, sector, checkSign, backend, bufSize, lib, n, o, same, o.raw);
  }

  lemma NamesApp(o: Order, swapRole: bool)
    requires o.part == Ascii("app")
    ensures NameToId(PackString(16, o.part), swapRole) == Some(App)
  {
    NameSurvives(o.part, Ascii("app"));
  }

  /** A package released before is left alone, and so is everything else; a package that fails its check or
      names no partition is not released. */
  lemma DeltaRests<S(!new), V(!new)>(env: Env<S, V>, parts: Parts, sector: nat, checkSign: bool,
                                     backend: Hpatch.Backend, bufSize: nat, lib: Library, n: nat)
    requires EnvOk(env)
    ensures var h := Check(env, Mem(parts, Download));
            var r := DeltaRun(env, parts, sector, checkSign, backend, bufSize, lib, n);
            && (r == Untouched(true) <==> h.Some? && checkSign && Signed(Mem(parts, Download), h.value))
            && (h.None? || (r != Untouched(true) && NameToId(h.value.partName, env.swapRole).None?) ==>
                  r == Untouched(false))
  {
    hide Check, Verified, Signed, DeltaOutcome, WithTail, AlgoOf, NameToId;
    NothingChecks(env, Mem(parts, Download));
  }
}
