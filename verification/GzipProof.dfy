/** The gzip adapter over a greedy inflater: it meets the step contract, and the CRC pass and the
    write pass over one package are the same run. */
module GzipProof {
  import opened Bits
  import opened Storage
  import opened StreamSpec
  import opened StreamProof
  import opened Gzip

  /** Where the inflater may stand: `c` bytes of the member taken, `e` bytes of its text given out. */
  type InflaterRep<!Z> = (Z, nat, nat) -> bool

  /** One call in the middle of a member: the next text bytes come out; input is left over only when
      the output is full and text is still to come. */
  ghost predicate InflatesAt<Z>(inf: Inflater<Z>, body: seq<Byte>, text: seq<Byte>, zrep: InflaterRep<Z>,
                                z: Z, c: nat, d: nat, e: nat, cap: nat)
    requires c <= d <= |body|
  {
    var r := inf(z, body[c..d], cap);
    && !r.failed && r.taken <= d - c && |r.output| <= cap
    && e + |r.output| <= |text| && r.output == text[e..e + |r.output|]
    && zrep(r.z, c + r.taken, e + |r.output|)
    && (r.taken < d - c ==> |r.output| == cap && e + cap < |text|)
  }

  /** `body` is exactly one member with the text `text`: the inflater is greedy, and the last byte, in
      the trailer of section 2.3 of RFC 1952, is taken only when all text is out. */
  ghost predicate Inflates<Z(!new)>(inf: Inflater<Z>, init: Z, body: seq<Byte>, text: seq<Byte>, zrep: InflaterRep<Z>) {
    && zrep(init, 0, 0)
    && (forall z, e | zrep(z, |body|, e) :: e == |text|)
    && (forall z: Z, c: nat, d: nat, e: nat, cap: nat | c < d <= |body| && e <= |text| && zrep(z, c, e) ::
          InflatesAt(inf, body, text, zrep, z, c, d, e, cap))
  }

  /** The adapter after `c` body bytes with `e` text bytes handed on: the inflater is ahead by the
      bytes held back. */
  predicate GzipAt<Z>(body: seq<Byte>, text: seq<Byte>, zrep: InflaterRep<Z>, s: State<Z>, c: nat, e: nat) {
    && |s.remain| < REMAIN_SIZE && e + |s.remain| <= |text| && s.remain == text[e..e + |s.remain|]
    && c + s.availIn <= |body| && zrep(s.z, c, e + |s.remain|)
  }

  function GzipRep<Z>(body: seq<Byte>, text: seq<Byte>, zrep: InflaterRep<Z>): Rep<State<Z>> {
    (s: State<Z>, c: nat, e: nat) => GzipAt(body, text, zrep, s, c, e)
  }

  /** A pass over one gzip member of the announced length. */
  ghost predicate GzipPass<Z(!new), V(!new)>(p: Pass<State<Z>, V>, inf: Inflater<Z>, body: seq<Byte>, text: seq<Byte>,
                                             zrep: InflaterRep<Z>) {
    && p.codec == GzipCodec(inf, p.codec.init.z) && p.codec.init == StartOf(p.codec.init.z)
    && Inflates(inf, p.codec.init.z, body, text, zrep)
    && |body| == p.pkgSize && |text| == p.rawSize && 0 < p.readSize <= p.inCap
  }

  /** The guard on the held-back bytes never fires inside a pass. */
  lemma RemainderFits<Z(!new), V(!new)>(p: Pass<State<Z>, V>, inf: Inflater<Z>, body: seq<Byte>, text: seq<Byte>,
                                        zrep: InflaterRep<Z>, s: State<Z>, c: nat, e: nat)
    requires GzipPass(p, inf, body, text, zrep) && e < p.rawSize && GzipAt(body, text, zrep, s, c, e)
    ensures |s.remain| <= Min(p.rawSize - e, BUF_SIZE)
  {
  }

  /** A decode call inside a pass: what the adapter has to hand on is the next piece of the text, and
      when room is left behind it in the last chunk, it is all the rest, so there is nothing to pad. */
  lemma CallInPass<Z(!new), V(!new)>(p: Pass<State<Z>, V>, inf: Inflater<Z>, body: seq<Byte>, text: seq<Byte>,
                                     zrep: InflaterRep<Z>, s: State<Z>, c: nat, d: nat, e: nat, cap: nat, ctx: Ctx)
      returns (r: Inflated<Z>)
    requires GzipPass(p, inf, body, text, zrep) && GzipAt(body, text, zrep, s, c, e)
    requires c <= d <= |body| && e < p.rawSize && (c < d || c == |body|)
    requires cap == Min(p.rawSize - e, BUF_SIZE) && ctx.total == p.pkgSize && ctx.consumed == c
    ensures |s.remain| <= cap && r == Inflate(inf, s, body[c..d], cap) && !r.failed
    ensures var n := |s.remain| + |r.output|;
            && n <= cap && e + n <= |text| && s.remain + r.output == text[e..e + n]
            && r.taken <= d - c && zrep(r.z, c + r.taken, e + n)
            && (r.taken < d - c ==> n == cap == BUF_SIZE)
    ensures Padding(inf, s, body[c..d], cap, ctx) == 0
  {
    r := Inflate(inf, s, body[c..d], cap);
    if c < d {
      assert InflatesAt(inf, body, text, zrep, s.z, c, d, e + |s.remain|, cap - |s.remain|);
      SliceJoin(text, e, e + |s.remain|, e + |s.remain| + |r.output|);
    }
  }

  /** What the adapter answers when it has the next `|all|` text bytes in hand. */
  lemma Settles<Z(!new)>(body: seq<Byte>, text: seq<Byte>, zrep: InflaterRep<Z>, z: Z, all: seq<Byte>, end: bool,
                         c: nat, d: nat, e: nat, cap: nat, availIn: nat) returns (t: Step<State<Z>>)
    requires c <= d <= |body| < 0x1_0000_0000 && availIn <= d - c
    requires |all| <= cap && e + |all| <= |text| && all == text[e..e + |all|] && zrep(z, d - availIn, e + |all|)
    requires availIn > 0 ==> |all| == BUF_SIZE
    requires c == d ==> end && |all| > 0
    ensures t == Settle(z, all, end, 0, d - c, availIn)
    ensures t.rc != NoSpace
    ensures t.rc == Ok ==> t.consumed <= d - c && 0 < |t.output| <= cap && e + |t.output| <= |text|
    ensures t.rc == Ok ==>
      && t.output == text[e..e + |t.output|]
      && GzipAt(body, text, zrep, t.st, c + t.consumed, e + |t.output|)
  {
    hide Wrap32;
    t := Settle(z, all, end, 0, d - c, availIn);
    var aligned := |all| - |all| % REMAIN_SIZE;
    CutPiece(text, all, e, aligned);
    assert all + Fill(0) == all;
  }

  lemma CutPiece(text: seq<Byte>, all: seq<Byte>, e: nat, k: nat)
    requires e + |all| <= |text| && all == text[e..e + |all|] && k <= |all|
    ensures all[..k] == text[e..e + k] && all[k..] == text[e + k..e + |all|]
  {
  }

  /** A call in a pass. */
  lemma StepInPass<Z(!new), V(!new)>(p: Pass<State<Z>, V>, inf: Inflater<Z>, body: seq<Byte>, text: seq<Byte>,
                                     zrep: InflaterRep<Z>, s: State<Z>, c: nat, d: nat, e: nat, cap: nat, ctx: Ctx)
      returns (t: Step<State<Z>>)
    requires GzipPass(p, inf, body, text, zrep) && GzipAt(body, text, zrep, s, c, e)
    requires c <= d <= |body| && e < p.rawSize && (c < d || c == |body|)
    requires cap == Min(p.rawSize - e, BUF_SIZE) && ctx.total == p.pkgSize && ctx.consumed == c
    ensures t == GzipStep(inf, s, body[c..d], cap, ctx)
    ensures t.rc == NoSpace ==> c == d && t.st == s
    ensures t.rc == Ok ==> t.consumed <= d - c && 0 < |t.output| <= cap && e + |t.output| <= |text|
    ensures t.rc == Ok ==>
      && t.output == text[e..e + |t.output|]
      && GzipAt(body, text, zrep, t.st, c + t.consumed, e + |t.output|)
  {
    hide Settle, PadLength, Inflates;
    var r := CallInPass(p, inf, body, text, zrep, s, c, d, e, cap, ctx);
    t := GzipStep(inf, s, body[c..d], cap, ctx);
    if c < d || (LastChunk(body[c..d], ctx) && s.remain != []) {
      t := Settles(body, text, zrep, r.z, s.remain + r.output, AtEnd(inf, s, body[c..d], cap), c, d, e, cap,
                   d - c - r.taken);
    }
  }

  lemma StepOfPass<Z(!new), V(!new)>(p: Pass<State<Z>, V>, inf: Inflater<Z>, body: seq<Byte>, s: State<Z>, c: nat,
                                     d: nat, e: nat)
    requires p.codec == GzipCodec(inf, p.codec.init.z) && c <= d <= |body| && e < p.rawSize
    ensures StepAt(p, body, s, c, d, e) ==
            GzipStep(inf, s, body[c..d], Min(p.rawSize - e, BUF_SIZE), Ctx(p.pkgSize, c, p.rawSize - e, p.purpose))
  {
  }

  lemma GzipStepMeets<Z(!new), V(!new)>(p: Pass<State<Z>, V>, inf: Inflater<Z>, body: seq<Byte>, text: seq<Byte>,
                                        zrep: InflaterRep<Z>, s: State<Z>, c: nat, d: nat, e: nat)
    requires GzipPass(p, inf, body, text, zrep) && GzipAt(body, text, zrep, s, c, e)
    requires c <= d <= |body| && e < p.rawSize && (c < d || c == |body|)
    ensures StepMeets(p, body, text, GzipRep(body, text, zrep), s, c, d, e)
  {
    hide GzipStep, Inflates, GzipAt, Hungry, StepAt;
    StepOfPass(p, inf, body, s, c, d, e);
    var t := StepInPass(p, inf, body, text, zrep, s, c, d, e, Min(p.rawSize - e, BUF_SIZE),
                        Ctx(p.pkgSize, c, p.rawSize - e, p.purpose));
  }

  /** The adapter meets the step contract. */
  lemma GzipMeets<Z(!new), V(!new)>(p: Pass<State<Z>, V>, inf: Inflater<Z>, body: seq<Byte>, text: seq<Byte>,
                                    zrep: InflaterRep<Z>)
    requires GzipPass(p, inf, body, text, zrep)
    ensures Meets(p, body, text, GzipRep(body, text, zrep))
  {
    var rep := GzipRep(body, text, zrep);
    forall s: State<Z>, c: nat, d: nat, e: nat | c <= d <= |body| && e < p.rawSize && rep(s, c, e)
        && (c < d || c == |body|)
      ensures StepMeets(p, body, text, rep, s, c, d, e)
    {
      GzipStepMeets(p, inf, body, text, zrep, s, c, d, e);
    }
  }

  // Images shorter than the remainder buffer

  lemma ShortStep<Z(!new), V(!new)>(p: Pass<State<Z>, V>, inf: Inflater<Z>, body: seq<Byte>, text: seq<Byte>,
                                    zrep: InflaterRep<Z>, s: State<Z>, c: nat, d: nat, e: nat)
      returns (t: Step<State<Z>>)
    requires GzipPass(p, inf, body, text, zrep) && GzipAt(body, text, zrep, s, c, e) && s.remain == []
    requires p.rawSize < REMAIN_SIZE && c <= d <= |body| && e < p.rawSize && (c < d || c == |body|)
    ensures t == StepAt(p, body, s, c, d, e)
    ensures t.rc == Ok ==> e + |t.output| < p.rawSize && t.st.remain == []
  {
    var cap := Min(p.rawSize - e, BUF_SIZE);
    var ctx := Ctx(p.pkgSize, c, p.rawSize - e, p.purpose);
    hide Inflates, GzipAt;
    StepOfPass(p, inf, body, s, c, d, e);
    t := GzipStep(inf, s, body[c..d], cap, ctx);
    var r := CallInPass(p, inf, body, text, zrep, s, c, d, e, cap, ctx);
    assert s.remain + r.output == r.output;
  }

  lemma {:induction false} ShortInner<Z(!new), V(!new)>(p: Pass<State<Z>, V>, inf: Inflater<Z>, body: seq<Byte>,
                                                        text: seq<Byte>, zrep: InflaterRep<Z>, s: State<Z>, c: nat,
                                                        d: nat, e: nat, out: seq<seq<Byte>>)
    requires GzipPass(p, inf, body, text, zrep) && GzipAt(body, text, zrep, s, c, e) && s.remain == []
    requires p.rawSize < REMAIN_SIZE && c <= d <= |body| && e < p.rawSize
    ensures var r := DecodeAll(p, s, body[c..d], c, e, out); r.pos < p.rawSize && (r.rc != Error ==> r.st.remain == [])
    decreases p.rawSize - e + d - c
  {
    hide DecodeAll, StepMeets, Hungry, Inflates, GzipStep, Meets, GzipAt;
    GzipMeets(p, inf, body, text, zrep);
    var m := AdvanceMeets(p, body, text, GzipRep(body, text, zrep), s, c, d, e);
    var c', e', out' := c, e, out;
    if c < d || c == |body| {
      var t := ShortStep(p, inf, body, text, zrep, s, c, d, e);
      if t.rc == NoSpace {
        var t' := StepInPass(p, inf, body, text, zrep, s, c, d, e, Min(p.rawSize - e, BUF_SIZE),
                             Ctx(p.pkgSize, c, p.rawSize - e, p.purpose));
        StepOfPass(p, inf, body, s, c, d, e);
      }
    }
    if m.Go? {
      c', e', out' := c + m.taken, e + |m.output|, out + [m.output];
      assert body[c..d][m.taken..] == body[c'..d];
      ShortInner(p, inf, body, text, zrep, m.st, c', d, e', out');
    }
    DecodeTurns(p, s, body[c..d], c, e, out, m, body[c'..d], c', e', out');
  }

  lemma {:induction false} ShortProcess<Z(!new), V(!new)>(p: Pass<State<Z>, V>, block: nat, inf: Inflater<Z>,
                                                          text: seq<Byte>, zrep: InflaterRep<Z>, s: State<Z>, v: V,
                                                          c: nat, d: nat, e: nat, out: seq<seq<Byte>>)
    requires PassOk(p, block) && |PlainBody(p)| == p.pkgSize && GzipPass(p, inf, PlainBody(p), text, zrep)
    requires Meets(p, PlainBody(p), text, GzipRep(PlainBody(p), text, zrep))
    requires OuterState(p, block, text, GzipRep(PlainBody(p), text, zrep), s, v, c, d, e) && Flatten(out) == text[..e]
    requires e < p.rawSize < REMAIN_SIZE && s.remain == []
    ensures !Process(p, s, v, d, PlainBody(p)[c..d], e, out).Done?
    decreases p.rawSize - e
  {
    hide Process, OneRound, DecodeAll, Advance, Fetch, AfterRead, StepAt, StepMeets, Hungry, Chains, Flatten, Inflates;
    var go, d', r := RoundMeets(p, block, text, GzipRep(PlainBody(p), text, zrep), s, v, c, d, e, out);
    ShortInner(p, inf, PlainBody(p), text, zrep, s, c, d', e, out);
    RoundTurns(p, s, v, d, PlainBody(p)[c..d], e, out, go, After(p, d').0, PlainBody(p)[d..d'], d',
               PlainBody(p)[c..d'], r);
    if go && r.rc != Error && r.pos > e {
      ShortProcess(p, block, inf, text, zrep, r.st, After(p, d').0, r.consumed, d', r.pos, r.out);
    }
  }

  /** An image shorter than the remainder buffer never gets through, however good its package is: the
      call that completes it fills the output budget exactly, holds everything back and is taken for
      one that produced nothing. */
  lemma ShortImagesNeverComplete<Z(!new), V(!new)>(p: Pass<State<Z>, V>, block: nat, inf: Inflater<Z>, text: seq<Byte>,
                                                   zrep: InflaterRep<Z>)
    requires PassOk(p, block) && |PlainBody(p)| == p.pkgSize && GzipPass(p, inf, PlainBody(p), text, zrep)
    requires 0 < p.rawSize < REMAIN_SIZE
    ensures !RunPass(p).Done?
  {
    GzipMeets(p, inf, PlainBody(p), text, zrep);
    assert Body(p)[..0] == [] && PlainBody(p)[0..0] == [];
    ShortProcess(p, block, inf, text, zrep, p.codec.init, p.cipher.init, 0, 0, 0, []);
  }
}
