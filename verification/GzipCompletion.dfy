/** Exactly when a gzip package gets through: what decides is where in the text the last call of the
    inflater starts, and whether the rest of the member comes with another read. */
module GzipCompletion {
  import opened Bits
  import opened Storage
  import opened StreamSpec
  import opened StreamProof
  import opened PatchSpec
  import opened Gzip
  import opened GzipProof

  /** The last call: `from` text bytes were out before it, and `read` body bytes had been read. */
  datatype LastCall = LastCall(from: nat, read: nat)

  /** The calls of the inflater alone, each with a full output budget, up to the one that gives out the
      last text byte; none when a call before it does not both take input and give something out. */
  function FindLast<Z, V>(p: Pass<State<Z>, V>, inf: Inflater<Z>, body: seq<Byte>, z: Z, c: nat, d: nat,
                          e: nat): (f: Option<LastCall>)
    requires c <= d <= |body| && e < p.rawSize
    ensures f.Some? ==> e <= f.value.from < p.rawSize && d <= f.value.read <= |body|
    decreases p.rawSize - e
  {
    var r := inf(z, body[c..d], Min(p.rawSize - e, BUF_SIZE));
    var c', e' := c + r.taken, e + |r.output|;
    if e' == p.rawSize then Some(LastCall(e, d))
    else if r.output == [] || r.taken == 0 || e' > p.rawSize || c' > d then None
    else if c' < d then FindLast(p, inf, body, r.z, c', d, e')
    else FindLast(p, inf, body, r.z, d, Min(d + p.readSize, |body|), e')
  }

  /** The last call fills the remainder buffer at least once, and what it holds back can be flushed: there
      is nothing, or the body has been read to its end. */
  predicate GetsThrough(f: Option<LastCall>, rawSize: nat, pkgSize: nat) {
    f.Some? && var n := rawSize - f.value.from;
               n >= REMAIN_SIZE && (n % REMAIN_SIZE == 0 || f.value.read == pkgSize)
  }

  /** A pass over one member with room at the destination, between two reads or inside one, with nothing
      held back. */
  ghost predicate Clean<Z(!new), V(!new)>(p: Pass<State<Z>, V>, inf: Inflater<Z>, body: seq<Byte>, text: seq<Byte>,
                                          zrep: InflaterRep<Z>, s: State<Z>, c: nat, e: nat) {
    && GzipPass(p, inf, body, text, zrep) && |body| < 0x8000_0000
    && (p.sink.Upto? ==> 0 < p.sink.size && p.rawSize <= p.sink.size)
    && GzipAt(body, text, zrep, s, c, e) && s.remain == [] && e < p.rawSize
  }

  lemma CleanSizes<Z(!new), V(!new)>(p: Pass<State<Z>, V>, inf: Inflater<Z>, body: seq<Byte>, text: seq<Byte>,
                                     zrep: InflaterRep<Z>, s: State<Z>, c: nat, e: nat)
    requires Clean(p, inf, body, text, zrep, s, c, e)
    ensures e < p.rawSize && |body| == p.pkgSize
  {
  }

  /** One call with nothing held back before it. */
  lemma CleanStep<Z(!new), V(!new)>(p: Pass<State<Z>, V>, inf: Inflater<Z>, body: seq<Byte>, text: seq<Byte>,
                                    zrep: InflaterRep<Z>, s: State<Z>, c: nat, d: nat, e: nat, cap: nat, ctx: Ctx)
      returns (r: Inflated<Z>, t: Step<State<Z>>)
    requires Clean(p, inf, body, text, zrep, s, c, e) && c < d <= |body|
    requires cap == Min(p.rawSize - e, BUF_SIZE) && ctx.total == p.pkgSize && ctx.consumed == c
    ensures r == inf(s.z, body[c..d], cap) && t == GzipStep(inf, s, body[c..d], cap, ctx)
    ensures r.taken <= d - c && |r.output| <= cap && zrep(r.z, c + r.taken, e + |r.output|)
    ensures r.taken < d - c ==> |r.output| == cap == BUF_SIZE && e + cap < p.rawSize
    ensures e + |r.output| == p.rawSize ==> if p.rawSize - e < REMAIN_SIZE then t.rc == Error
              else t.rc == Ok && t.consumed == d - c && p.rawSize - e == |t.output| + |t.st.remain|
                   && |t.st.remain| == (p.rawSize - e) % REMAIN_SIZE
    ensures e + |r.output| < p.rawSize ==> if r.output == [] || r.taken == 0 then t.rc == Error
              else t.rc == Ok && t.consumed == r.taken && t.output == r.output && t.st.remain == [] && t.st.z == r.z
  {
    r := CallInPass(p, inf, body, text, zrep, s, c, d, e, cap, ctx);
    assert s.remain + r.output == r.output && r.output + Fill(0) == r.output;
    t := GzipStep(inf, s, body[c..d], cap, ctx);
    assert InflatesAt(inf, body, text, zrep, s.z, c, d, e, cap);
  }

  /** What is held back is the whole rest of the text. */
  ghost predicate HoldsRest<Z(!new), V(!new)>(p: Pass<State<Z>, V>, inf: Inflater<Z>, body: seq<Byte>, text: seq<Byte>,
                                              zrep: InflaterRep<Z>, s: State<Z>, c: nat, e: nat) {
    && GzipPass(p, inf, body, text, zrep) && |body| < 0x8000_0000
    && (p.sink.Upto? ==> 0 < p.sink.size && p.rawSize <= p.sink.size)
    && GzipAt(body, text, zrep, s, c, e) && e < p.rawSize && |s.remain| == p.rawSize - e
  }

  /** With the body read to its end, the rest is flushed. */
  lemma Flushes<Z(!new), V(!new)>(p: Pass<State<Z>, V>, inf: Inflater<Z>, body: seq<Byte>, text: seq<Byte>,
                                  zrep: InflaterRep<Z>, s: State<Z>, e: nat, out: seq<seq<Byte>>)
    requires HoldsRest(p, inf, body, text, zrep, s, |body|, e)
    ensures var r := DecodeAll(p, s, [], |body|, e, out); r.rc == Ok && r.pos == p.rawSize && r.rest == []
  {
    var m := Advance(p, s, [], |body|, e);
    assert s.remain + [] == s.remain && s.remain + Fill(0) == s.remain;
    assert m.Go? && m.output == s.remain && m.taken == 0;
    hide DecodeAll;
    var m' := Advance(p, m.st, [], |body|, p.rawSize);
    DecodeTurns(p, s, [], |body|, e, out, m, [], |body|, p.rawSize, out + [s.remain]);
    DecodeTurns(p, m.st, [], |body|, p.rawSize, out + [s.remain], m', [], |body|, p.rawSize, out + [s.remain]);
  }

  lemma HeldIsShort<Z(!new), V(!new)>(p: Pass<State<Z>, V>, inf: Inflater<Z>, body: seq<Byte>, text: seq<Byte>,
                                      zrep: InflaterRep<Z>, s: State<Z>, c: nat, e: nat)
    requires HoldsRest(p, inf, body, text, zrep, s, c, e)
    ensures 0 < |s.remain| == p.rawSize - e < REMAIN_SIZE
  {
  }

  /** With more input instead, nothing gets on. */
  lemma Sticks<Z(!new), V(!new)>(p: Pass<State<Z>, V>, inf: Inflater<Z>, body: seq<Byte>, text: seq<Byte>,
                                 zrep: InflaterRep<Z>, s: State<Z>, c: nat, d: nat, e: nat, out: seq<seq<Byte>>)
    requires HoldsRest(p, inf, body, text, zrep, s, c, e) && c < d <= |body|
    ensures e < p.rawSize && DecodeAll(p, s, body[c..d], c, e, out).pos == e
  {
    hide DecodeAll, Inflates, GzipAt, InflatesAt;
    var cap, ctx := Min(p.rawSize - e, BUF_SIZE), Ctx(p.pkgSize, c, p.rawSize - e, p.purpose);
    assert cap == |s.remain| < REMAIN_SIZE by { HeldIsShort(p, inf, body, text, zrep, s, c, e); }
    var r := CallInPass(p, inf, body, text, zrep, s, c, d, e, cap, ctx);
    assert r.output == [] && s.remain + r.output == s.remain;
    var m := Advance(p, s, body[c..d], c, e);
    DecodeTurns(p, s, body[c..d], c, e, out, m, body[c..d], c, e, out);
  }

  /** Without input before the end of the body, or without a budget, the inner loop is over. */
  lemma InnerOver<S, V>(p: Pass<S, V>, st: S, consumed: nat, pos: nat, out: seq<seq<Byte>>)
    requires pos <= p.rawSize && (pos == p.rawSize || consumed < p.pkgSize)
    ensures DecodeAll(p, st, [], consumed, pos, out) == Inner(Ok, st, [], consumed, pos, out)
  {
    var m := Advance(p, st, [], consumed, pos);
    DecodeTurns(p, st, [], consumed, pos, out, m, [], consumed, pos, out);
  }

  /** One round of the inner loop, with nothing held back before it. */
  lemma CleanAdvance<Z(!new), V(!new)>(p: Pass<State<Z>, V>, inf: Inflater<Z>, body: seq<Byte>, text: seq<Byte>,
                                       zrep: InflaterRep<Z>, s: State<Z>, c: nat, d: nat, e: nat)
      returns (r: Inflated<Z>, m: Move<State<Z>>)
    requires Clean(p, inf, body, text, zrep, s, c, e) && c < d <= |body|
    ensures r == inf(s.z, body[c..d], Min(p.rawSize - e, BUF_SIZE)) && m == Advance(p, s, body[c..d], c, e)
    ensures r.taken <= d - c && e + |r.output| <= p.rawSize
    ensures m.Halt? ==> m.rc == Error
    ensures e + |r.output| == p.rawSize ==> (m.Go? <==> p.rawSize - e >= REMAIN_SIZE)
    ensures e + |r.output| == p.rawSize && m.Go? ==>
              && m.taken == d - c && e < e + |m.output| && p.rawSize - e == |m.output| + |m.st.remain|
              && |m.st.remain| == (p.rawSize - e) % REMAIN_SIZE
              && (m.st.remain != [] ==> HoldsRest(p, inf, body, text, zrep, m.st, d, e + |m.output|))
    ensures e + |r.output| < p.rawSize ==> (m.Halt? <==> r.output == [] || r.taken == 0)
    ensures e + |r.output| < p.rawSize && m.Go? ==>
              && m.taken == r.taken && m.output == r.output && m.st.z == r.z
              && Clean(p, inf, body, text, zrep, m.st, c + r.taken, e + |r.output|)
              && (c + r.taken == d ==> d < |body|)
  {
    hide GzipStep, Inflates, GzipAt, InflatesAt;
    var cap, ctx := Min(p.rawSize - e, BUF_SIZE), Ctx(p.pkgSize, c, p.rawSize - e, p.purpose);
    var t;
    r, t := CleanStep(p, inf, body, text, zrep, s, c, d, e, cap, ctx);
    var t' := StepInPass(p, inf, body, text, zrep, s, c, d, e, cap, ctx);
    m := Advance(p, s, body[c..d], c, e);
    if e + |r.output| < p.rawSize && c + r.taken == d == |body| {
      TextEnds(p, inf, body, text, zrep, r.z, e + |r.output|);
    }
  }

  lemma TextEnds<Z(!new), V(!new)>(p: Pass<State<Z>, V>, inf: Inflater<Z>, body: seq<Byte>, text: seq<Byte>,
                                   zrep: InflaterRep<Z>, z: Z, e: nat)
    requires GzipPass(p, inf, body, text, zrep) && zrep(z, |body|, e)
    ensures e == p.rawSize
  {
  }

  /** What the inner loop says about the end of the pass: it fails, completes, or goes on with nothing held
      back, when the calls of the inflater alone say so; or what is held back waits for a flush that will
      not come. */
  ghost predicate Foretold<Z(!new), V(!new)>(p: Pass<State<Z>, V>, inf: Inflater<Z>, body: seq<Byte>, text: seq<Byte>,
                                             zrep: InflaterRep<Z>, f: Option<LastCall>, d: nat, r: Inner<State<Z>>)
    requires d <= |body|
  {
    if r.rc == Error then !GetsThrough(f, p.rawSize, |body|)
    else
      && r.rest == [] && (r.pos >= p.rawSize ==> r.pos == p.rawSize && GetsThrough(f, p.rawSize, |body|))
      && (r.pos < p.rawSize ==>
            && d < |body|
            && if r.st.remain == []
               then
                 && Clean(p, inf, body, text, zrep, r.st, d, r.pos)
                 && f == FindLast(p, inf, body, r.st.z, d, Min(d + p.readSize, |body|), r.pos)
               else
                 && HoldsRest(p, inf, body, text, zrep, r.st, d, r.pos)
                 && !GetsThrough(f, p.rawSize, |body|))
  }

  /** The inner loop behind the last call. */
  lemma LastInner<Z(!new), V(!new)>(p: Pass<State<Z>, V>, inf: Inflater<Z>, body: seq<Byte>, text: seq<Byte>,
                                    zrep: InflaterRep<Z>, f: LastCall, s: State<Z>, d: nat, e: nat, out: seq<seq<Byte>>)
      returns (r: Inner<State<Z>>)
    requires d <= |body| == p.pkgSize && e <= p.rawSize && f.read == d && f.from + REMAIN_SIZE <= p.rawSize
    requires |s.remain| == p.rawSize - e == (p.rawSize - f.from) % REMAIN_SIZE
    requires s.remain != [] ==> HoldsRest(p, inf, body, text, zrep, s, d, e)
    ensures r == DecodeAll(p, s, [], d, e, out) && Foretold(p, inf, body, text, zrep, Some(f), d, r)
  {
    hide DecodeAll, HoldsRest;
    r := DecodeAll(p, s, [], d, e, out);
    if d == |body| && s.remain != [] {
      Flushes(p, inf, body, text, zrep, s, e, out);
    } else {
      InnerOver(p, s, d, e, out);
    }
  }

  /** One call does not change what the calls come to. */
  lemma FindLastTurns<Z, V>(p: Pass<State<Z>, V>, inf: Inflater<Z>, body: seq<Byte>, z: Z, c: nat, d: nat, e: nat,
                            r: Inflated<Z>, c': nat, e': nat)
    requires c <= d <= |body| && e < p.rawSize && r == inf(z, body[c..d], Min(p.rawSize - e, BUF_SIZE))
    requires c' == c + r.taken <= d && e' == e + |r.output| <= p.rawSize
    ensures FindLast(p, inf, body, z, c, d, e) ==
            if e' == p.rawSize then Some(LastCall(e, d))
            else if r.output == [] || r.taken == 0 then None
            else if c' < d then FindLast(p, inf, body, r.z, c', d, e')
            else FindLast(p, inf, body, r.z, d, Min(d + p.readSize, |body|), e')
  {
  }

  lemma GoesOn<Z(!new), V(!new)>(p: Pass<State<Z>, V>, inf: Inflater<Z>, body: seq<Byte>, text: seq<Byte>,
                                 zrep: InflaterRep<Z>, s: State<Z>, d: nat, e: nat, out: seq<seq<Byte>>)
      returns (r: Inner<State<Z>>)
    requires Clean(p, inf, body, text, zrep, s, d, e) && d < |body| == p.pkgSize
    ensures r == DecodeAll(p, s, [], d, e, out) && r.rc != Error && r.pos == e
    ensures Foretold(p, inf, body, text, zrep, FindLast(p, inf, body, s.z, d, Min(d + p.readSize, |body|), e), d, r)
  {
    hide DecodeAll, GzipPass, GzipAt, FindLast;
    InnerOver(p, s, d, e, out);
    r := Inner(Ok, s, [], d, e, out);
  }

  lemma Fails<Z(!new), V(!new)>(p: Pass<State<Z>, V>, inf: Inflater<Z>, body: seq<Byte>, text: seq<Byte>,
                                zrep: InflaterRep<Z>, f: Option<LastCall>, d: nat, r: Inner<State<Z>>)
    requires d <= |body| && r.rc == Error && (f.Some? ==> p.rawSize - f.value.from < REMAIN_SIZE)
    ensures Foretold(p, inf, body, text, zrep, f, d, r)
  {
  }

  /** The last round of the inner loop on what has been read. */
  lemma CleanLast<Z(!new), V(!new)>(p: Pass<State<Z>, V>, inf: Inflater<Z>, body: seq<Byte>, text: seq<Byte>,
                                    zrep: InflaterRep<Z>, s: State<Z>, c: nat, d: nat, e: nat, out: seq<seq<Byte>>)
      returns (r: Inner<State<Z>>)
    requires Clean(p, inf, body, text, zrep, s, c, e) && c < d <= |body|
    requires var m := Advance(p, s, body[c..d], c, e); m.Go? ==> m.taken == d - c
    ensures r == DecodeAll(p, s, body[c..d], c, e, out)
    ensures Foretold(p, inf, body, text, zrep, FindLast(p, inf, body, s.z, c, d, e), d, r)
    ensures r.rc != Error ==> r.pos > e
  {
    hide Advance, DecodeAll, GzipPass, GzipAt, FindLast, HoldsRest, Clean, Foretold, GetsThrough;
    CleanSizes(p, inf, body, text, zrep, s, c, e);
    var i, m := CleanAdvance(p, inf, body, text, zrep, s, c, d, e);
    FindLastTurns(p, inf, body, s.z, c, d, e, i, c + i.taken, e + |i.output|);
    if m.Halt? {
      r := Inner(m.rc, m.st, body[c..d], c, e, out);
      DecodeTurns(p, s, body[c..d], c, e, out, m, body[c..d], c, e, out);
      Fails(p, inf, body, text, zrep, FindLast(p, inf, body, s.z, c, d, e), d, r);
    } else {
      var e', out' := e + |m.output|, out + [m.output];
      assert body[c..d][d - c..] == [];
      DecodeTurns(p, s, body[c..d], c, e, out, m, [], d, e', out');
      if e + |i.output| == p.rawSize {
        r := LastInner(p, inf, body, text, zrep, LastCall(e, d), m.st, d, e', out');
      } else {
        r := GoesOn(p, inf, body, text, zrep, m.st, d, e', out');
      }
    }
  }

  /** Any other round leaves input, and the calls of the inflater go on from there. */
  lemma CleanMoves<Z(!new), V(!new)>(p: Pass<State<Z>, V>, inf: Inflater<Z>, body: seq<Byte>, text: seq<Byte>,
                                     zrep: InflaterRep<Z>, s: State<Z>, c: nat, d: nat, e: nat, m: Move<State<Z>>)
    requires Clean(p, inf, body, text, zrep, s, c, e) && c < d <= |body|
    requires m == Advance(p, s, body[c..d], c, e) && m.Go? && m.taken < d - c
    ensures var c', e' := c + m.taken, e + |m.output|;
            && e < e' < p.rawSize && Clean(p, inf, body, text, zrep, m.st, c', e')
               && body[c..d][m.taken..] == body[c'..d]
            && FindLast(p, inf, body, s.z, c, d, e) == FindLast(p, inf, body, m.st.z, c', d, e')
  {
    hide Advance, GzipPass, GzipAt, FindLast, HoldsRest, Clean;
    CleanSizes(p, inf, body, text, zrep, s, c, e);
    var i, _ := CleanAdvance(p, inf, body, text, zrep, s, c, d, e);
    FindLastTurns(p, inf, body, s.z, c, d, e, i, c + i.taken, e + |i.output|);
  }

  lemma {:induction false} CleanInner<Z(!new), V(!new)>(p: Pass<State<Z>, V>, inf: Inflater<Z>, body: seq<Byte>,
                                                        text: seq<Byte>, zrep: InflaterRep<Z>, s: State<Z>, c: nat,
                                                        d: nat, e: nat, out: seq<seq<Byte>>)
      returns (r: Inner<State<Z>>)
    requires Clean(p, inf, body, text, zrep, s, c, e) && c < d <= |body|
    ensures r == DecodeAll(p, s, body[c..d], c, e, out)
    ensures Foretold(p, inf, body, text, zrep, FindLast(p, inf, body, s.z, c, d, e), d, r)
    ensures r.rc != Error ==> r.pos > e
    decreases p.rawSize - e
  {
    hide Advance, DecodeAll, FindLast, Clean, Foretold;
    CleanSizes(p, inf, body, text, zrep, s, c, e);
    var m := Advance(p, s, body[c..d], c, e);
    if m.Halt? || m.taken == d - c {
      r := CleanLast(p, inf, body, text, zrep, s, c, d, e, out);
    } else {
      var c', e', out' := c + m.taken, e + |m.output|, out + [m.output];
      CleanMoves(p, inf, body, text, zrep, s, c, d, e, m);
      DecodeTurns(p, s, body[c..d], c, e, out, m, body[c'..d], c', e', out');
      r := CleanInner(p, inf, body, text, zrep, m.st, c', d, e', out');
    }
  }

  // The outer loop

  /** What holds back the whole rest before the end of the body is never completed. */
  lemma StuckFails<Z(!new), V(!new)>(p: Pass<State<Z>, V>, block: nat, inf: Inflater<Z>, text: seq<Byte>,
                                     zrep: InflaterRep<Z>, s: State<Z>, d: nat, e: nat, out: seq<seq<Byte>>)
    requires PassOk(p, block) && |PlainBody(p)| == p.pkgSize && d < p.pkgSize && Whole(d, block)
    requires HoldsRest(p, inf, PlainBody(p), text, zrep, s, d, e)
    ensures !Process(p, s, After(p, d).0, d, [], e, out).Done?
  {
    hide Process, OneRound, DecodeAll, Advance, Fetch, AfterRead, Chains, Inflates, GzipAt, PlainBody, After;
    var d' := FetchNext(p, block, d, d);
    var piece := PlainBody(p)[d..d'];
    assert [] + piece == piece;
    var r := DecodeAll(p, s, piece, d, e, out);
    Sticks(p, inf, PlainBody(p), text, zrep, s, d, d', e, out);
    RoundTurns(p, s, After(p, d).0, d, [], e, out, true, After(p, d').0, piece, d', piece, r);
  }

  lemma {:induction false} CleanProcess<Z(!new), V(!new)>(p: Pass<State<Z>, V>, block: nat, inf: Inflater<Z>,
                                                          text: seq<Byte>, zrep: InflaterRep<Z>, s: State<Z>, d: nat,
                                                          e: nat, out: seq<seq<Byte>>)
    requires PassOk(p, block) && |PlainBody(p)| == p.pkgSize && d < p.pkgSize < 0x8000_0000 && Whole(d, block)
    requires 0 < p.readSize <= p.inCap && Clean(p, inf, PlainBody(p), text, zrep, s, d, e)
    ensures e < p.rawSize
    ensures Process(p, s, After(p, d).0, d, [], e, out).Done? <==>
            GetsThrough(FindLast(p, inf, PlainBody(p), s.z, d, Min(d + p.readSize, p.pkgSize), e), p.rawSize, p.pkgSize)
    decreases p.rawSize - e
  {
    hide Process, OneRound, DecodeAll, Advance, Fetch, AfterRead, Chains, Clean, HoldsRest, FindLast, GetsThrough,
         PlainBody, After;
    CleanSizes(p, inf, PlainBody(p), text, zrep, s, d, e);
    var d' := FetchNext(p, block, d, d);
    var piece := PlainBody(p)[d..d'];
    assert [] + piece == piece;
    var r := CleanInner(p, inf, PlainBody(p), text, zrep, s, d, d', e, out);
    RoundTurns(p, s, After(p, d).0, d, [], e, out, true, After(p, d').0, piece, d', piece, r);
    if r.rc != Error {
      if r.pos == p.rawSize {
        ProcessEnds(p, r.st, After(p, d').0, d', [], r.pos, r.out);
      } else if r.st.remain == [] {
        CleanProcess(p, block, inf, text, zrep, r.st, d', r.pos, r.out);
      } else {
        StuckFails(p, block, inf, text, zrep, r.st, d', r.pos, r.out);
      }
    }
  }

  /** A gzip package gets through if and only if its image is empty or the last call of the inflater gives
      out at least 32 bytes, and a multiple of 32 unless it had the whole body. */
  lemma GzipCompletes<Z(!new), V(!new)>(p: Pass<State<Z>, V>, block: nat, inf: Inflater<Z>, text: seq<Byte>,
                                        zrep: InflaterRep<Z>)
    requires PassOk(p, block) && |PlainBody(p)| == p.pkgSize < 0x8000_0000 && GzipPass(p, inf, PlainBody(p), text, zrep)
    requires p.sink.Upto? ==> 0 < p.sink.size && p.rawSize <= p.sink.size
    ensures RunPass(p).Done? <==>
            || p.rawSize == 0
            || GetsThrough(FindLast(p, inf, PlainBody(p), p.codec.init.z, 0, Min(p.readSize, p.pkgSize), 0),
                           p.rawSize, p.pkgSize)
  {
    hide Process, FindLast, GetsThrough, InflatesAt, Chains, PlainBody, After;
    if p.rawSize == 0 {
      ProcessEnds(p, p.codec.init, p.cipher.init, 0, [], 0, []);
    } else {
      if p.pkgSize == 0 {
        TextEnds(p, inf, PlainBody(p), text, zrep, p.codec.init.z, 0);
      }
      AfterNothing(p, block);
      CleanProcess(p, block, inf, text, zrep, p.codec.init, 0, 0, []);
    }
  }
}
