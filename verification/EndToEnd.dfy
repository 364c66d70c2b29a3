/** From the packaging tool to the application partition. */
module EndToEnd {
  import opened Bits
  import opened Storage
  import opened StreamSpec
  import opened StreamProof
  import opened Crc
  import opened PatchSpec
  import opened Stream
  import opened Codecs
  import opened StoredLiveness
  import opened Ciphers
  import opened SharedBuffer
  import opened FwInfo
  import opened ReleaseSpec
  import opened ReleaseProof
  import opened PowerCut
  import Gzip
  import opened GzipProof
  import opened PassesAgree
  import opened GzipCompletion
  import opened FramedLiveness

  /** What the tool is given besides image and body. */
  datatype Options = Options(algo: nat, algo2: nat, timestamp: nat, partName: seq<Byte>, fwVer: seq<Byte>,
                             prodCode: seq<Byte>)

  function Header(raw: seq<Byte>, body: seq<Byte>, o: Options): Option<seq<Byte>> {
    CreateRblHeader(raw, body, o.algo, o.algo2, o.timestamp, o.partName, o.fwVer, o.prodCode)
  }

  /** A target role is found exactly under its own name. */
  lemma TargetNamed(partName: seq<Byte>, swapRole: bool)
    requires 0 !in partName
    ensures NameToId(PackString(16, partName), swapRole) ==
            if partName == Ascii("app") then Some(App)
            else if partName == Ascii("download") then Some(Download)
            else if partName == Ascii("factory") then Some(Factory)
            else if swapRole && partName == Ascii("swap") then Some(SwapArea)
            else None
  {
    NameSurvives(partName, Ascii("app"));
    NameSurvives(partName, Ascii("download"));
    NameSurvives(partName, Ascii("factory"));
    NameSurvives(partName, Ascii("swap"));
  }

  /** The codec hands the body on as it is: copied, or in place in the build with one buffer. */
  ghost predicate HandsOn<S(!new)>(codec: Codec<S>, inCap: nat, readSize: nat) {
    codec == Stored(codec.init) || (codec == InPlaceCodec(codec.init) && inCap == readSize == BUF_SIZE)
  }

  /** The package is not differential, and is handed on deciphered by `c`. */
  ghost predicate Uncompressed<S(!new), V(!new)>(env: Env<S, V>, a: Option<Algo<S, V>>, cmprs: nat, c: Cipher<V>) {
    a.Some? && a.value.cipher == c && HandsOn(a.value.codec, env.inCap, env.readSize) && cmprs != CMPRS_HPATCHLITE
  }

  /** `m` holds the package that the tool made of `raw` and `body`: a stored body that `c` deciphers to
      the image. */
  ghost predicate Holds<S(!new), V(!new)>(env: Env<S, V>, m: seq<Byte>, raw: seq<Byte>, body: seq<Byte>, o: Options,
                                          c: Cipher<V>, block: nat) {
    && EnvOk(env) && env.readSize <= env.inCap && Header(raw, body, o).Some?
    && Uncompressed(env, env.table(o.algo % 16, o.algo / 256 % 32), o.algo / 256 % 32, c)
    && 0 < block && Chains(c, block) && Whole(|body|, block) && Whole(env.readSize, block)
    && c.decrypt(c.init, body).1 == raw
    && Header(raw, body, o).value + body <= m && |m| < 0x8000_0000
  }

  /** What the boot loader reads from such a partition. */
  lemma HeldHeader<S(!new), V(!new)>(env: Env<S, V>, m: seq<Byte>, raw: seq<Byte>, body: seq<Byte>, o: Options,
                                     c: Cipher<V>, block: nat) returns (h: FwInfo)
    requires Holds(env, m, raw, body, o, c, block)
    ensures WellSized(h) && |m| >= HEADER_SIZE + |body| && h == Decode(m[..HEADER_SIZE])
    ensures Encode(h) == Header(raw, body, o).value
    ensures InfoOk(h) && Uncompressed(env, AlgoOf(env, h), CmprsId(h), c)
    ensures h.partName == PackString(16, o.partName) && h.algo2 == o.algo2
    ensures h.pkgSize == |body| == |raw| == h.rawSize && h.pkgCrc == Crc32(body) && h.rawCrc == Crc32(raw)
    ensures m[HEADER_SIZE..HEADER_SIZE + |body|] == body
  {
    hide Decode, Encode, InfoOk, CreateRblHeader, Chains, Whole, Crc32, HandsOn;
    var b := Header(raw, body, o).value;
    HeaderSome(raw, body, o);
    HeaderRoundTrip(raw, body, o.algo, o.algo2, o.timestamp, o.partName, o.fwVer, o.prodCode);
    assert KeepsLength(env.table(o.algo % 16, o.algo / 256 % 32).value.cipher);
    assert |c.decrypt(c.init, body).1| == |body|;
    assert m[..HEADER_SIZE] == b && m[HEADER_SIZE..HEADER_SIZE + |body|] == body by {
      assert m[..|b| + |body|] == b + body;
      assert m[HEADER_SIZE..HEADER_SIZE + |body|] == m[..|b| + |body|][HEADER_SIZE..];
      assert m[..HEADER_SIZE] == m[..|b| + |body|][..HEADER_SIZE];
    }
    h := Decode(b);
    EncodeDecode(b);
  }

  /** Either pass over such a package succeeds and delivers the image. */
  lemma HeldPass<S(!new), V(!new)>(p: Pass<S, V>, body: seq<Byte>, raw: seq<Byte>, block: nat)
    requires |p.src| >= HEADER_SIZE + |body| && p.src[HEADER_SIZE..HEADER_SIZE + |body|] == body
    requires KeepsLength(p.cipher) && 0 < block && Chains(p.cipher, block) && Whole(|body|, block)
    requires Whole(p.readSize, block)
    requires HandsOn(p.codec, p.inCap, p.readSize) && p.pkgSize == |body| == |raw| == p.rawSize && |body| < 0x8000_0000
    requires 0 < p.readSize <= p.inCap && (p.sink.Upto? ==> 0 < p.sink.size && p.rawSize <= p.sink.size)
    requires p.cipher.decrypt(p.cipher.init, body).1 == raw
    ensures var r := RunPass(p); r.Done? && Flatten(r.chunks) == raw
  {
    hide RunPass, Chains, Whole, Flatten;
    if p.codec == Stored(p.codec.init) {
      StoredCompletes(p, block);
    } else {
      SharedExact(p, block);
    }
    assert PlainBody(p) == raw && raw[..p.rawSize] == raw;
  }

  /** Package check: header, body CRC and application CRC all pass. */
  lemma HeldChecks<S(!new), V(!new)>(env: Env<S, V>, m: seq<Byte>, raw: seq<Byte>, body: seq<Byte>, o: Options,
                                     c: Cipher<V>, block: nat) returns (h: FwInfo)
    requires Holds(env, m, raw, body, o, c, block)
    ensures Check(env, m) == Some(h) && WellSized(h) && Encode(h) == Header(raw, body, o).value
    ensures Uncompressed(env, AlgoOf(env, h), CmprsId(h), c)
    ensures h.partName == PackString(16, o.partName) && h.pkgSize == |body| == |raw| == h.rawSize
    ensures h.rawCrc == Crc32(raw) && InfoOk(h)
    ensures HEADER_SIZE + |body| <= |m| && m[HEADER_SIZE..HEADER_SIZE + |body|] == body
  {
    hide Decode, Encode, InfoOk, CreateRblHeader, CycCal, RunPass, Flatten, Header, Whole, Chains, HandsOn;
    h := HeldHeader(env, m, raw, body, o, c, block);
    HeldPass(CrcPass(env, m, h, AlgoOf(env, h).value), body, raw, block);
    if |body| == 0 {
      assert body == [];
    }
  }

  /** A pass that delivers makes a release that succeeds. */
  lemma ReleaseSucceeds<S(!new), V(!new)>(env: Env<S, V>, parts: Parts, src: Target, dst: Target, h: FwInfo)
    requires EnvOk(env) && WellSized(h) && AlgoOf(env, h).Some?
    requires h.rawSize + HEADER_SIZE <= |Mem(parts, dst)| < 0x1_0000_0000
    requires RunPass(WritePass(env, Mem(parts, src), h, AlgoOf(env, h).value, |Mem(parts, dst)|)).Done?
    ensures ReleaseRun(env, parts, Empty, src, dst, h).ok
  {
    hide RunPass, Encode, Written;
  }

  /** An image with its header at the tail verifies. */
  lemma VerifiedImage(m: seq<Byte>, raw: seq<Byte>, h: FwInfo)
    requires WellSized(h) && InfoOk(h) && h.rawSize == |raw| && h.rawCrc == Crc32(raw)
    requires |raw| + HEADER_SIZE <= |m| && m[..|raw|] == raw && m[|m| - HEADER_SIZE..] == Encode(h)
    ensures Verified(m) == Some(h)
  {
    hide Encode, Decode, InfoOk, Crc32;
    DecodeEncode(h);
    ImageCrc(m, raw);
  }

  /** Such a package is deployable, and its write pass delivers the image. */
  lemma HeldDeploys<S(!new), V(!new)>(env: Env<S, V>, parts: Parts, src: Target, dst: Target, raw: seq<Byte>,
                                      body: seq<Byte>, o: Options, c: Cipher<V>, block: nat) returns (h: FwInfo)
    requires Holds(env, Mem(parts, src), raw, body, o, c, block)
    requires NameToId(PackString(16, o.partName), env.swapRole) == Some(dst) && dst != src
    requires |raw| + HEADER_SIZE <= |Mem(parts, dst)| < 0x1_0000_0000
    ensures Deployable(env, parts, src, dst, h) && DeliversImage(env, parts, src, dst, h, raw)
    ensures WellSized(h) && Encode(h) == Header(raw, body, o).value && h.pkgSize == |body|
  {
    hide Check, Decode, Encode, InfoOk, CreateRblHeader, CycCal, RunPass, Flatten, Header, Whole, Chains, Crc32,
         NameToId, PackString, HandsOn;
    h := HeldChecks(env, Mem(parts, src), raw, body, o, c, block);
    HeldPass(WritePass(env, Mem(parts, src), h, AlgoOf(env, h).value, |Mem(parts, dst)|), body, raw, block);
  }

  /** The write pass of the package `h` delivers `raw`, and `h` describes it. */
  ghost predicate DeliversImage<S(!new), V(!new)>(env: Env<S, V>, parts: Parts, src: Target, dst: Target, h: FwInfo,
                                                  raw: seq<Byte>)
    requires EnvOk(env)
  {
    && WellSized(h) && InfoOk(h) && h.rawSize == |raw| && h.rawCrc == Crc32(raw) && AlgoOf(env, h).Some?
    && var r := RunPass(WritePass(env, Mem(parts, src), h, AlgoOf(env, h).value, |Mem(parts, dst)|));
       r.Done? && Flatten(r.chunks) == raw
  }

  /** Whatever the formats: a deployable package whose pass delivers the image is released and verified. */
  lemma DeliveredImage<S(!new), V(!new)>(env: Env<S, V>, parts: Parts, src: Target, dst: Target, h: FwInfo,
                                         raw: seq<Byte>)
    requires Deployable(env, parts, src, dst, h) && DeliversImage(env, parts, src, dst, h, raw)
    ensures var u := UpdateRun(env, parts, Empty, src, dst, h);
            var after := Replay(parts, u.log, env.sector);
            && u.ok && Verified(Mem(after, dst)) == Some(h)
            && |after[dst]| == |parts[dst]| && after[dst][..|raw|] == raw
            && after[dst][|after[dst]| - HEADER_SIZE..] == Encode(h)
            && after == parts[dst := after[dst]]
  {
    hide Check, Decode, Encode, InfoOk, CycCal, RunPass, Flatten, Replay, Written, Crc32, ReleaseRun, Verified, AlgoOf,
         NameToId, WritePass;
    ReleaseSucceeds(env, parts, src, dst, h);
    EmptyLog(parts, env.sector);
    ReleaseContents(env, parts, Empty, src, dst, h);
    VerifiedImage(Mem(Replay(parts, ReleaseRun(env, parts, Empty, src, dst, h).log, env.sector), dst), raw, h);
  }

  /** End to end: a partition holding the tool's package passes every check, and releasing it leaves the
      image at the front of its target, the same header at the tail, and nothing else changed. */
  lemma ToolToTarget<S(!new), V(!new)>(env: Env<S, V>, parts: Parts, src: Target, dst: Target, raw: seq<Byte>,
                                       body: seq<Byte>, o: Options, c: Cipher<V>, block: nat) returns (h: FwInfo)
    requires Holds(env, Mem(parts, src), raw, body, o, c, block)
    requires NameToId(PackString(16, o.partName), env.swapRole) == Some(dst) && dst != src
    requires |raw| + HEADER_SIZE <= |Mem(parts, dst)| < 0x1_0000_0000
    ensures Check(env, Mem(parts, src)) == Some(h) && WellSized(h) && Deployable(env, parts, src, dst, h)
    ensures h.pkgSize == |body|
    ensures var u := UpdateRun(env, parts, Empty, src, dst, h);
            var after := Replay(parts, u.log, env.sector);
            && u.ok && Verified(Mem(after, dst)) == Some(h)
            && |after[dst]| == |parts[dst]| && after[dst][..|raw|] == raw
            && after[dst][|after[dst]| - HEADER_SIZE..] == Header(raw, body, o).value
            && after == parts[dst := after[dst]]
  {
    hide Check, Decode, Encode, InfoOk, Header, Replay, UpdateRun, Verified, AlgoOf, NameToId, PackString, Holds,
         DeliversImage;
    h := HeldDeploys(env, parts, src, dst, raw, body, o, c, block);
    DeliveredImage(env, parts, src, dst, h, raw);
  }

  lemma EmptyLog(parts: Parts, sector: nat)
    requires sector > 0
    ensures Replay(parts, Empty, sector) == parts
  {
  }

  lemma ImageCrc(m: seq<Byte>, raw: seq<Byte>)
    requires |raw| <= |m| && m[..|raw|] == raw
    ensures RangeCrcOk(m, 0, |raw|, Crc32(raw))
  {
    hide Crc32;
    assert m[0..|raw|] == raw;
    if |raw| == 0 {
      assert raw == [];
    }
  }

  /** The cells for the sign lie behind the package and are still erased. */
  ghost predicate SignErased(m: seq<Byte>, h: FwInfo) {
    RangeOk(m, SignPos(h), 4) && forall i :: SignPos(h) <= i < SignPos(h) + 4 ==> m[i] == 0xFF
  }

  lemma ErasedIsUnsigned(m: seq<Byte>, h: FwInfo)
    requires SignErased(m, h)
    ensures !Signed(m, h)
    ensures var m' := Programmed(m, SignPos(h), SignBytes());
            Signed(m', h) && forall i :: 0 <= i < |m| && !(SignPos(h) <= i < SignPos(h) + 4) ==> m'[i] == m[i]
  {
    hide And, SignPos;
    hide SignBytes, Le, FromLe;
    var pos := SignPos(h);
    var m' := Programmed(m, pos, SignBytes());
    ProgramErased(m, pos, SignBytes());
    assert m'[pos..pos + 4] == SignBytes();
    SignRoundTrip(m'[pos..pos + 4]);
    SignRoundTrip(m[pos..pos + 4]);
    SignFirst();
    assert m[pos..pos + 4][0] == 0xFF;
  }

  /** The sign as it lies in storage. */
  lemma SignFirst()
    ensures SignBytes() == [0xAA, 0xAA, 0x55, 0x55]
  {
    hide Le;
    LeDigits(SIGN_WORD);
  }

  lemma TwoUpdates(parts: Parts, dst: Target, src: Target, x: seq<Byte>, y: seq<Byte>)
    requires src != dst
    ensures var a := parts[dst := x][src := y]; a[dst] == x && a[src] == y && a == parts[dst := a[dst]][src := a[src]]
  {
  }

  lemma SignLast(parts: Parts, m: seq<Byte>, src: Target, h: FwInfo, sector: nat)
    requires sector > 0 && SignErased(m, h) && Mem(parts, src) == m
    ensures RangeOk(m, SignPos(h), 4)
    ensures Apply(parts, SignOp(src, h), sector) == parts[src := Programmed(m, SignPos(h), SignBytes())]
  {
  }

  /** After a verified update, signing erased cells changes the source by the sign alone. */
  lemma SignedBoot<S(!new), V(!new)>(env: Env<S, V>, parts: Parts, src: Target, dst: Target, h: FwInfo, x: seq<Byte>)
    requires Deployable(env, parts, src, dst, h) && SignErased(Mem(parts, src), h)
    requires WellSized(h) && UpdateRun(env, parts, Empty, src, dst, h).ok
    requires Replay(parts, UpdateRun(env, parts, Empty, src, dst, h).log, env.sector) == parts[dst := x]
    requires Verified(x) == Some(h)
    ensures var after := Complete(env, parts, src);
            && RunOf(env, parts, src).ok && src in after && Signed(after[src], h)
            && dst in after && after[dst] == x && after == parts[dst := x][src := after[src]]
  {
    hide Check, Decode, Encode, RunPass, Whole, Written, Crc32, UpdateRun, Verified, SignErased, Signed, Programmed,
         Replay, FromPartRun, SignPos, SignBytes, Apply, Complete, RunOf, NameToId, InfoOk, AlgoOf, KeepsLength;
    var m := Mem(parts, src);
    ErasedIsUnsigned(m, h);
    SignLast(parts[dst := x], m, src, h, env.sector);
    CompleteSigned(env, parts, src, dst, h);
    TwoUpdates(parts, dst, src, x, Programmed(m, SignPos(h), SignBytes()));
  }

  /** The whole boot sequence over a freshly written package: it reports success, the image runs from
      the front of its target, and the source is signed and otherwise untouched. */
  lemma ToolToBoot<S(!new), V(!new)>(env: Env<S, V>, parts: Parts, src: Target, dst: Target, raw: seq<Byte>,
                                     body: seq<Byte>, o: Options, c: Cipher<V>, block: nat) returns (h: FwInfo)
    requires Holds(env, Mem(parts, src), raw, body, o, c, block)
    requires NameToId(PackString(16, o.partName), env.swapRole) == Some(dst) && dst != src
    requires |raw| + HEADER_SIZE <= |Mem(parts, dst)| < 0x1_0000_0000
    ensures Check(env, Mem(parts, src)) == Some(h) && h.pkgSize == |body|
    ensures SignErased(Mem(parts, src), h) ==>
              var after := Complete(env, parts, src);
              && RunOf(env, parts, src).ok && Verified(Mem(after, dst)) == Some(h)
              && |Mem(after, dst)| == |parts[dst]| && after[dst][..|raw|] == raw
              && after[dst][|after[dst]| - HEADER_SIZE..] == Header(raw, body, o).value
              && src in after && Signed(after[src], h) && after == parts[dst := after[dst]][src := after[src]]
  {
    hide Check, Decode, Encode, Header, Holds, UpdateRun, Verified, SignErased, Signed, Replay, Complete, RunOf,
         NameToId, PackString, KeepsLength;
    h := ToolToTarget(env, parts, src, dst, raw, body, o, c, block);
    if SignErased(Mem(parts, src), h) {
      var after := Replay(parts, UpdateRun(env, parts, Empty, src, dst, h).log, env.sector);
      SignedBoot(env, parts, src, dst, h, after[dst]);
    }
  }

  /** An uncompressed, unencrypted package: the body is the image. */
  lemma HoldsPlain<S(!new), V(!new)>(env: Env<S, V>, m: seq<Byte>, raw: seq<Byte>, o: Options, v: V)
    requires EnvOk(env) && env.readSize <= env.inCap && Uncompressed(env, env.table(0, 0), 0, Plain(v)) && o.algo == 0
    requires Header(raw, raw, o).Some? && Header(raw, raw, o).value + raw <= m && |m| < 0x8000_0000
    ensures Holds(env, m, raw, raw, o, Plain(v), 1)
  {
    hide Header, Whole, Chains, EnvOk, HandsOn;
    PlainChains(v);
    AllWhole(|raw|);
    AllWhole(env.readSize);
  }

  /** A package encrypted with the device key: the body is the image in CBC mode, in whole blocks. */
  lemma HoldsEncrypted<S(!new)>(env: Env<S, Block>, m: seq<Byte>, raw: seq<Byte>, o: Options, e: Decipher, d: Decipher,
                                iv: Block)
    requires EnvOk(env) && env.readSize <= env.inCap && Uncompressed(env, env.table(2, 0), 0, Cbc(d, iv)) && o.algo == 2
    requires Undoes(d, e) && Whole(|raw|, BLOCK) && Whole(env.readSize, BLOCK)
    requires var body := CbcEncrypt(e, iv, raw);
             Header(raw, body, o).Some? && Header(raw, body, o).value + body <= m && |m| < 0x8000_0000
    ensures Holds(env, m, raw, CbcEncrypt(e, iv, raw), o, Cbc(d, iv), BLOCK)
  {
    hide CbcEncrypt, Whole, Header, Chains, Cbc, EnvOk, Undoes, HandsOn;
    CbcIsChaining(d, iv);
    EncryptedBody(e, d, iv, raw);
  }

  /** Behind a package in an erased partition there is room for the sign, and it is erased. */
  lemma FreshSign(package: seq<Byte>, k: nat, h: FwInfo)
    requires |package| == HEADER_SIZE + h.pkgSize && 12 <= k && |package| + k < 0x8000_0000
    ensures SignErased(package + Fill(k), h)
  {
    hide SignPos, AlignDown, AlignUp;
    SignPlace(h);
    AlignUpNear(HEADER_SIZE + h.pkgSize, SIGN_ALIGN);
  }

  lemma AlignUpNear(x: nat, s: nat)
    requires s > 0
    ensures AlignUp(x, s) < x + s
  {
  }

  lemma HeaderSome(raw: seq<Byte>, body: seq<Byte>, o: Options)
    ensures Header(raw, body, o).Some? <==> NumbersFit(raw, body, o.algo, o.algo2, o.timestamp)
  {
    hide Join, Crc32, Le;
  }

  /** From the tool to the running application: for every image and every application package of it,
      uncompressed and unencrypted, written to a download partition that is erased behind it, the boot
      loader's run reports success and leaves the image at the front of the application partition, the
      same header at its tail, and the download partition signed. This holds of builds that copy stored
      bodies and of the build that hands them on in one buffer. */
  lemma PlainPackageBoots<S(!new), V(!new)>(env: Env<S, V>, v: V, before: Parts, raw: seq<Byte>, o: Options, k: nat)
      returns (header: seq<Byte>, h: FwInfo)
    requires EnvOk(env) && env.readSize <= env.inCap && Uncompressed(env, env.table(0, 0), 0, Plain(v))
    requires o.algo == 0 && o.algo2 < 0x1_0000 && o.timestamp < 0x1_0000_0000 && o.partName == Ascii("app")
    requires 12 <= k && HEADER_SIZE + |raw| + k < 0x8000_0000
    requires |raw| + HEADER_SIZE <= |Mem(before, App)| < 0x1_0000_0000
    ensures Header(raw, raw, o) == Some(header)
    ensures var parts := before[Download := header + raw + Fill(k)];
            var after := Complete(env, parts, Download);
            && Check(env, parts[Download]) == Some(h) && RunOf(env, parts, Download).ok
            && App in after && |after[App]| == |before[App]| && after[App][..|raw|] == raw
            && after[App][|after[App]| - HEADER_SIZE..] == header
            && Download in after && Signed(after[Download], h)
  {
    hide Holds, CreateRblHeader, Check, Replay, FromPartRun, SignErased, Signed, Verified, PackString, NameToId, Decode,
         SignPos, InfoOk, Crc32, EnvOk, Header, Uncompressed, Complete, RunOf;
    HeaderSome(raw, raw, o);
    header := Header(raw, raw, o).value;
    var m := header + raw + Fill(k);
    var parts := before[Download := m];
    HeaderLength(raw, raw, o);
    HoldsPlain(env, m, raw, o, v);
    TargetNamed(o.partName, env.swapRole);
    h := ToolToBoot(env, parts, Download, App, raw, raw, o, Plain(v), 1);
    FreshSign(header + raw, k, h);
  }

  lemma HeaderLength(raw: seq<Byte>, body: seq<Byte>, o: Options)
    requires Header(raw, body, o).Some?
    ensures |Header(raw, body, o).value| == HEADER_SIZE
  {
    hide CreateRblHeader, Decode, InfoOk, Crc32;
    HeaderSome(raw, body, o);
    HeaderRoundTrip(raw, body, o.algo, o.algo2, o.timestamp, o.partName, o.fwVer, o.prodCode);
  }

  // Compressed packages

  lemma CheckedApp<S(!new), V(!new)>(env: Env<S, V>, m: seq<Byte>, h: FwInfo)
    requires EnvOk(env) && Check(env, m) == Some(h)
    ensures WellSized(h) && InfoOk(h)
    ensures CmprsId(h) != CMPRS_HPATCHLITE && VerifyBits(h) == VERIFY_CRC ==> AppCrcOk(env, m, h)
  {
    hide Decode, InfoOk, AppCrcOk;
  }

  /** A package that asks for the application check and passed the package check decodes to an image of the
      announced size and CRC. */
  lemma CheckedDecodes<S(!new), V(!new)>(env: Env<S, V>, m: seq<Byte>, h: FwInfo)
    requires EnvOk(env) && Check(env, m) == Some(h) && CmprsId(h) != CMPRS_HPATCHLITE && VerifyBits(h) == VERIFY_CRC
    ensures AlgoOf(env, h).Some?
    ensures var o := RunPass(CrcPass(env, m, h, AlgoOf(env, h).value));
            o.Done? && |Flatten(o.chunks)| == h.rawSize && Crc32(Flatten(o.chunks)) == h.rawCrc
  {
    hide Check, RunPass, Flatten, Crc32;
    CheckedApp(env, m, h);
    EnvKeeps(env, h);
    PassTotal(CrcPass(env, m, h, AlgoOf(env, h).value));
  }

  /** A gzip package that passed the application check is released: the write pass repeats the pass that
      was checked, so the target holds the text of the gzip member. */
  lemma CheckedGzipIsReleased<Z(!new), V(!new)>(env: Env<Gzip.State<Z>, V>, parts: Parts, src: Target, dst: Target,
                                                h: FwInfo, block: nat, inf: Gzip.Inflater<Z>, text: seq<Byte>,
                                                zrep: InflaterRep<Z>)
    requires Deployable(env, parts, src, dst, h) && VerifyBits(h) == VERIFY_CRC && AlgoOf(env, h).Some?
    requires var p := WritePass(env, Mem(parts, src), h, AlgoOf(env, h).value, |Mem(parts, dst)|);
             PassOk(p, block) && |PlainBody(p)| == p.pkgSize && GzipPass(p, inf, PlainBody(p), text, zrep)
    ensures WellSized(h)
    ensures var u := UpdateRun(env, parts, Empty, src, dst, h);
            var after := Replay(parts, u.log, env.sector);
            && u.ok && Verified(Mem(after, dst)) == Some(h)
            && |after[dst]| == |parts[dst]| && after[dst][..|text|] == text && after == parts[dst := after[dst]]
  {
    var m, a := Mem(parts, src), AlgoOf(env, h).value;
    hide Check, Decode, Encode, InfoOk, CycCal, RunPass, Flatten, Replay, UpdateRun, Verified, NameToId, PassOk,
         GzipPass, PlainBody;
    CheckedApp(env, m, h);
    var p := WritePass(env, m, h, a, |Mem(parts, dst)|);
    GzipSizes(p, inf, PlainBody(p), text, zrep);
    GzipPassesAgree(p, block, inf, text, zrep, |Mem(parts, dst)|);
    assert p.(purpose := ForWrite, sink := Upto(|Mem(parts, dst)|)) == p;
    assert p.(purpose := ForCrc, sink := Discard) == CrcPass(env, m, h, a);
    DeliveredImage(env, parts, src, dst, h, text);
  }

  /** The application check of a well-formed gzip package succeeds exactly when the CRC of its text is the
      announced one and the package is one that gets through. */
  lemma GzipAppCheck<Z(!new), V(!new)>(env: Env<Gzip.State<Z>, V>, m: seq<Byte>, h: FwInfo, block: nat,
                                       inf: Gzip.Inflater<Z>, text: seq<Byte>, zrep: InflaterRep<Z>)
    requires EnvOk(env) && AlgoOf(env, h).Some?
    requires var p := CrcPass(env, m, h, AlgoOf(env, h).value);
             && PassOk(p, block) && |PlainBody(p)| == p.pkgSize < 0x8000_0000
             && GzipPass(p, inf, PlainBody(p), text, zrep)
    ensures var p := CrcPass(env, m, h, AlgoOf(env, h).value);
            AppCrcOk(env, m, h) <==>
            && Crc32(text) == h.rawCrc
            && (|| h.rawSize == 0
                || GetsThrough(FindLast(p, inf, PlainBody(p), p.codec.init.z, 0, Min(env.readSize, h.pkgSize), 0),
                               h.rawSize, h.pkgSize))
  {
    hide RunPass, Crc32, GzipPass, PlainBody, FindLast, GetsThrough, Flatten;
    var p := CrcPass(env, m, h, AlgoOf(env, h).value);
    GzipCompletes(p, block, inf, text, zrep);
    GzipSizes(p, inf, PlainBody(p), text, zrep);
    GzipMeets(p, inf, PlainBody(p), text, zrep);
    StreamingRefinesOneShot(p, block, text, GzipRep(PlainBody(p), text, zrep));
    assert text[..|text|] == text;
  }

  lemma GzipSizes<Z(!new), V(!new)>(p: Pass<Gzip.State<Z>, V>, inf: Gzip.Inflater<Z>, body: seq<Byte>, text: seq<Byte>,
                                    zrep: InflaterRep<Z>)
    requires GzipPass(p, inf, body, text, zrep)
    ensures |text| == p.rawSize
  {
  }

  /** A package of well-formed frames is released: the target holds the raw blocks. */
  lemma FramedIsReleased<Q(!new), V(!new)>(env: Env<Q, V>, parts: Parts, src: Target, dst: Target, h: FwInfo,
                                           block: nat, dec: BlockDecoder<Q>)
    requires Deployable(env, parts, src, dst, h) && AlgoOf(env, h).Some?
    requires var p := WritePass(env, Mem(parts, src), h, AlgoOf(env, h).value, |Mem(parts, dst)|);
             && PassOk(p, block) && |PlainBody(p)| == p.pkgSize < 0x8000_0000 && 0 < 2 * p.readSize <= p.inCap
             && p.codec == Framed(p.codec.init, dec)
                && WellFramed(dec, p.codec.init, PlainBody(p), p.rawSize, p.readSize)
             && h.rawCrc == Crc32(Unframe(dec, p.codec.init, PlainBody(p)))
    ensures WellSized(h)
    ensures var p := WritePass(env, Mem(parts, src), h, AlgoOf(env, h).value, |Mem(parts, dst)|);
            var u := UpdateRun(env, parts, Empty, src, dst, h);
            var after := Replay(parts, u.log, env.sector);
            && u.ok && Verified(Mem(after, dst)) == Some(h) && |after[dst]| == |parts[dst]|
            && after[dst][..h.rawSize] == Unframe(dec, p.codec.init, PlainBody(p)) && after == parts[dst := after[dst]]
  {
    var m, a := Mem(parts, src), AlgoOf(env, h).value;
    hide Check, Decode, Encode, InfoOk, CycCal, RunPass, Flatten, Replay, UpdateRun, Verified, NameToId, PassOk,
         PlainBody, Unframe, WellFramed;
    CheckedApp(env, m, h);
    var p := WritePass(env, m, h, a, |Mem(parts, dst)|);
    FramedCompletes(p, block, dec);
    WellFramedTotal(dec, p.codec.init, PlainBody(p), p.rawSize, p.readSize);
    DeliveredImage(env, parts, src, dst, h, Unframe(dec, p.codec.init, PlainBody(p)));
  }
}
