/** Gzip packages whose body fits one read: when they get through can be told from the image size. */
module GzipOneRead {
  import opened Bits
  import opened Storage
  import opened StreamSpec
  import opened StreamProof
  import opened PatchSpec
  import opened Ciphers
  import opened Gzip
  import opened GzipProof
  import opened GzipCompletion

  /** Given the rest of the body and the output room that the loop has for the rest of the text, the
      inflater always takes something. */
  ghost predicate Eager<Z(!new)>(inf: Inflater<Z>, body: seq<Byte>, text: seq<Byte>, zrep: InflaterRep<Z>) {
    forall z: Z, c: nat, e: nat | c < |body| && e < |text| && zrep(z, c, e) ::
      inf(z, body[c..], Min(|text| - e, BUF_SIZE)).taken > 0
  }

  lemma OneReadStep<Z(!new), V(!new)>(p: Pass<State<Z>, V>, inf: Inflater<Z>, body: seq<Byte>, text: seq<Byte>,
                                      zrep: InflaterRep<Z>, z: Z, c: nat, e: nat) returns (r: Inflated<Z>)
    requires GzipPass(p, inf, body, text, zrep) && Eager(inf, body, text, zrep)
    requires c < |body| && e < p.rawSize && zrep(z, c, e)
    ensures r == inf(z, body[c..|body|], Min(p.rawSize - e, BUF_SIZE))
    ensures |r.output| == Min(p.rawSize - e, BUF_SIZE) && 0 < r.taken <= |body| - c
    ensures zrep(r.z, c + r.taken, e + |r.output|)
    ensures c + r.taken == |body| <==> p.rawSize - e <= BUF_SIZE
  {
    var cap := Min(p.rawSize - e, BUF_SIZE);
    r := inf(z, body[c..|body|], cap);
    assert body[c..] == body[c..|body|];
    assert InflatesAt(inf, body, text, zrep, z, c, |body|, e, cap);
  }

  lemma {:induction false} OneReadLast<Z(!new), V(!new)>(p: Pass<State<Z>, V>, inf: Inflater<Z>, body: seq<Byte>,
                                                         text: seq<Byte>, zrep: InflaterRep<Z>, z: Z, c: nat, e: nat)
    requires GzipPass(p, inf, body, text, zrep) && Eager(inf, body, text, zrep)
    requires c < |body| && e < p.rawSize && zrep(z, c, e) && e % BUF_SIZE == 0
    ensures FindLast(p, inf, body, z, c, |body|, e) ==
            Some(LastCall(p.rawSize - 1 - (p.rawSize - 1) % BUF_SIZE, |body|))
    decreases p.rawSize - e
  {
    hide FindLast, GzipPass, Eager;
    var r := OneReadStep(p, inf, body, text, zrep, z, c, e);
    FindLastTurns(p, inf, body, z, c, |body|, e, r, c + r.taken, e + |r.output|);
    if p.rawSize - e > BUF_SIZE {
      OneReadLast(p, inf, body, text, zrep, r.z, c + r.taken, e + BUF_SIZE);
    }
  }

  /** A package whose body fits one read, over an inflater that always takes something, gets through
      exactly when its image does not end within the first 32 bytes behind a whole output buffer. */
  lemma OneReadCompletes<Z(!new), V(!new)>(p: Pass<State<Z>, V>, block: nat, inf: Inflater<Z>, text: seq<Byte>,
                                           zrep: InflaterRep<Z>)
    requires PassOk(p, block) && |PlainBody(p)| == p.pkgSize < 0x8000_0000 && GzipPass(p, inf, PlainBody(p), text, zrep)
    requires p.sink.Upto? ==> 0 < p.sink.size && p.rawSize <= p.sink.size
    requires p.pkgSize <= p.readSize && Eager(inf, PlainBody(p), text, zrep)
    ensures RunPass(p).Done? <==> p.rawSize % BUF_SIZE == 0 || p.rawSize % BUF_SIZE >= REMAIN_SIZE
  {
    hide Process, FindLast, InflatesAt, Chains, PlainBody, Eager;
    GzipCompletes(p, block, inf, text, zrep);
    if p.rawSize > 0 {
      if p.pkgSize == 0 {
        TextEnds(p, inf, PlainBody(p), text, zrep, p.codec.init.z, 0);
      }
      OneReadLast(p, inf, PlainBody(p), text, zrep, p.codec.init.z, 0, 0);
    }
  }

  /** So a package of one read whose image is 1 to 31 bytes longer than a whole output buffer fails. */
  lemma OneReadFails<Z(!new), V(!new)>(p: Pass<State<Z>, V>, block: nat, inf: Inflater<Z>, text: seq<Byte>,
                                       zrep: InflaterRep<Z>)
    requires PassOk(p, block) && |PlainBody(p)| == p.pkgSize < 0x8000_0000
    requires GzipPass(p, inf, PlainBody(p), text, zrep)
    requires p.sink.Upto? ==> 0 < p.sink.size && p.rawSize <= p.sink.size
    requires p.pkgSize <= p.readSize && Eager(inf, PlainBody(p), text, zrep)
    requires BUF_SIZE < p.rawSize < BUF_SIZE + REMAIN_SIZE
    ensures !RunPass(p).Done?
  {
    hide Process, RunPass, GzipPass, PassOk, PlainBody, Eager;
    OneReadCompletes(p, block, inf, text, zrep);
  }

  // Compressed members meet these hypotheses

  /** Body bytes taken and text bytes given out. */
  datatype Taken = Taken(c: nat, e: nat)

  /** An inflater for one member with a given text: it gives out all the room it has, at most one output
      buffer for every body byte, and takes the rest of its input with the end of the text. */
  function Unpack(text: seq<Byte>, z: Taken, input: seq<Byte>, cap: nat): (r: Inflated<Taken>)
    ensures r.taken <= |input| && |r.output| <= cap
  {
    if z.e > |text| then Inflated(z, 0, [], true)
    else if |text| - z.e <= cap then Inflated(Taken(z.c + |input|, |text|), |input|, text[z.e..], false)
    else
      var taken := if cap < BUF_SIZE || input == [] then 0 else 1;
      Inflated(Taken(z.c + taken, z.e + cap), taken, text[z.e..z.e + cap], false)
  }

  function Unpacker(text: seq<Byte>): Inflater<Taken> {
    (z: Taken, input: seq<Byte>, cap: nat) => Unpack(text, z, input, cap)
  }

  /** There is body enough for the rest of the text. */
  function UnpackRep(size: nat, length: nat): InflaterRep<Taken> {
    (z: Taken, c: nat, e: nat) => z == Taken(c, e) && c <= size && e <= length && length - e <= BUF_SIZE * (size - c)
  }

  lemma UnpackAt(body: seq<Byte>, text: seq<Byte>, z: Taken, c: nat, d: nat, e: nat, cap: nat)
    requires c < d <= |body| && e <= |text| && UnpackRep(|body|, |text|)(z, c, e)
    ensures InflatesAt(Unpacker(text), body, text, UnpackRep(|body|, |text|), z, c, d, e, cap)
  {
    assert text[e..] == text[e..|text|];
  }

  /** For every text and every body, down to a byte for each output buffer of text, there is an inflater
      that takes the body for one member with that text and always takes something: the closed form
      holds of packages that compress. */
  lemma CompressedMeets(body: seq<Byte>, text: seq<Byte>)
    requires |text| <= BUF_SIZE * |body|
    ensures Inflates(Unpacker(text), Taken(0, 0), body, text, UnpackRep(|body|, |text|))
    ensures Eager(Unpacker(text), body, text, UnpackRep(|body|, |text|))
  {
    var inf, zrep := Unpacker(text), UnpackRep(|body|, |text|);
    forall z: Taken, c: nat, d: nat, e: nat, cap: nat | c < d <= |body| && e <= |text| && zrep(z, c, e)
      ensures InflatesAt(inf, body, text, zrep, z, c, d, e, cap)
    {
      UnpackAt(body, text, z, c, d, e, cap);
    }
  }

  /** A CRC pass with the default buffer of a gzip build over such a member. */
  function UnpackPass(src: seq<Byte>, pkgSize: U32, text: seq<Byte>): Pass<State<Taken>, ()>
    requires |text| < 0x1_0000_0000
  {
    Pass(src, pkgSize, |text|, BUF_SIZE, BUF_SIZE, GzipCodec(Unpacker(text), Taken(0, 0)), Plain(()), ForCrc, Discard)
  }

  /** For every text, a package of one read that is 4096 times smaller or less is one that the closed form
      covers; with a text of 4097 to 4127 bytes it fails, with one of 4128 it gets through. */
  lemma CompressedPass(src: seq<Byte>, pkgSize: U32, text: seq<Byte>)
    requires pkgSize <= BUF_SIZE && HEADER_SIZE + pkgSize <= |src| && |text| <= BUF_SIZE * pkgSize
    ensures var p, zrep := UnpackPass(src, pkgSize, text), UnpackRep(pkgSize, |text|);
            && PassOk(p, 1) && |PlainBody(p)| == p.pkgSize
            && GzipPass(p, Unpacker(text), PlainBody(p), text, zrep) && Eager(Unpacker(text), PlainBody(p), text, zrep)
            && (RunPass(p).Done? <==> |text| % BUF_SIZE == 0 || |text| % BUF_SIZE >= REMAIN_SIZE)
  {
    hide Process, Inflates, Eager, Unpacker, UnpackRep, Chains, KeepsLength, Whole;
    var p := UnpackPass(src, pkgSize, text);
    PlainChains(());
    AllWhole(pkgSize);
    AllWhole(BUF_SIZE);
    CompressedMeets(PlainBody(p), text);
    OneReadCompletes(p, 1, Unpacker(text), text, UnpackRep(pkgSize, |text|));
  }
}
