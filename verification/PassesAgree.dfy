/** The CRC pass and the write pass over one package are the same run. */
module PassesAgree {
  import opened Bits
  import opened Storage
  import opened StreamSpec
  import opened StreamProof
  import opened Codecs
  import opened Gzip
  import opened GzipProof

  predicate Roomy(sink: Sink, rawSize: nat) {
    sink.Upto? ==> 0 < sink.size && rawSize <= sink.size
  }

  /** `q` is `p` with another purpose and sink, and in every covered state its codec answers alike. */
  ghost predicate Agree<S(!new), V(!new)>(p: Pass<S, V>, q: Pass<S, V>, body: seq<Byte>, rep: Rep<S>) {
    && q == p.(purpose := q.purpose, sink := q.sink) && Roomy(p.sink, p.rawSize) && Roomy(q.sink, p.rawSize)
    && forall st: S, c: nat, d: nat, e: nat | c <= d <= |body| && e < p.rawSize && rep(st, c, e)
       && (c < d || c == |body|) ::
         StepAt(p, body, st, c, d, e) == StepAt(q, body, st, c, d, e)
  }

  lemma SameMove<S(!new), V(!new)>(p: Pass<S, V>, q: Pass<S, V>, body: seq<Byte>, text: seq<Byte>, rep: Rep<S>,
                                   st: S, c: nat, d: nat, e: nat)
    requires Meets(p, body, text, rep) && Agree(p, q, body, rep)
    requires c <= d <= |body| && e <= p.rawSize && e <= |text| && rep(st, c, e)
    ensures Advance(p, st, body[c..d], c, e) == Advance(q, st, body[c..d], c, e)
  {
    if e < p.rawSize && (c < d || c == |body|) {
      assert StepAt(p, body, st, c, d, e) == StepAt(q, body, st, c, d, e);
    }
  }

  lemma {:induction false} SameInner<S(!new), V(!new)>(p: Pass<S, V>, q: Pass<S, V>, body: seq<Byte>, text: seq<Byte>,
                                                       rep: Rep<S>, st: S, c: nat, d: nat, e: nat, out: seq<seq<Byte>>)
    requires Meets(p, body, text, rep) && Agree(p, q, body, rep)
    requires c <= d <= |body| && e <= p.rawSize && e <= |text| && rep(st, c, e)
    ensures DecodeAll(p, st, body[c..d], c, e, out) == DecodeAll(q, st, body[c..d], c, e, out)
    decreases p.rawSize - e + d - c
  {
    hide DecodeAll, Advance, StepAt, StepMeets, Hungry, InflatesAt;
    SameMove(p, q, body, text, rep, st, c, d, e);
    var m := AdvanceMeets(p, body, text, rep, st, c, d, e);
    var c', e', out' := c, e, out;
    if m.Go? {
      c', e', out' := c + m.taken, e + |m.output|, out + [m.output];
      assert body[c..d][m.taken..] == body[c'..d];
      SameInner(p, q, body, text, rep, m.st, c', d, e', out');
    }
    DecodeTurns(p, st, body[c..d], c, e, out, m, body[c'..d], c', e', out');
    DecodeTurns(q, st, body[c..d], c, e, out, m, body[c'..d], c', e', out');
  }

  lemma {:induction false} SameProcess<S(!new), V(!new)>(p: Pass<S, V>, q: Pass<S, V>, block: nat, text: seq<Byte>,
                                                         rep: Rep<S>, st: S, v: V, c: nat, d: nat, e: nat,
                                                         out: seq<seq<Byte>>)
    requires PassOk(p, block) && |PlainBody(p)| == p.pkgSize
    requires Meets(p, PlainBody(p), text, rep) && Agree(p, q, PlainBody(p), rep)
    requires OuterState(p, block, text, rep, st, v, c, d, e) && Flatten(out) == text[..e]
    ensures Process(p, st, v, d, PlainBody(p)[c..d], e, out) == Process(q, st, v, d, PlainBody(p)[c..d], e, out)
    decreases p.rawSize - e
  {
    hide Process, OneRound, DecodeAll, Advance, AfterRead, StepAt, StepMeets, Hungry, Chains, Flatten;
    if e < p.rawSize {
      var go, d', r := RoundMeets(p, block, text, rep, st, v, c, d, e, out);
      SameInner(p, q, PlainBody(p), text, rep, st, c, d', e, out);
      if go && r.rc != Error && r.pos > e {
        SameProcess(p, q, block, text, rep, r.st, After(p, d').0, r.consumed, d', r.pos, r.out);
      }
      RoundTurns(p, st, v, d, PlainBody(p)[c..d], e, out, go, After(p, d').0, PlainBody(p)[d..d'], d',
                 PlainBody(p)[c..d'], r);
      RoundTurns(q, st, v, d, PlainBody(p)[c..d], e, out, go, After(p, d').0, PlainBody(p)[d..d'], d',
                 PlainBody(p)[c..d'], r);
    } else {
      ProcessEnds(p, st, v, d, PlainBody(p)[c..d], e, out);
      ProcessEnds(q, st, v, d, PlainBody(p)[c..d], e, out);
    }
  }

  /** Passes that differ only in purpose and sink, over a codec that answers alike where the contract
      covers it, are the same run, chunk by chunk. */
  lemma SamePass<S(!new), V(!new)>(p: Pass<S, V>, q: Pass<S, V>, block: nat, text: seq<Byte>, rep: Rep<S>)
    requires PassOk(p, block) && |PlainBody(p)| == p.pkgSize
    requires Meets(p, PlainBody(p), text, rep) && Agree(p, q, PlainBody(p), rep)
    ensures RunPass(p) == RunPass(q)
  {
    assert Body(p)[..0] == [] && PlainBody(p)[0..0] == [];
    SameProcess(p, q, block, text, rep, p.codec.init, p.cipher.init, 0, 0, 0, []);
  }

  lemma GzipAgrees<Z(!new), V(!new)>(p: Pass<State<Z>, V>, q: Pass<State<Z>, V>, inf: Inflater<Z>, body: seq<Byte>,
                                     text: seq<Byte>, zrep: InflaterRep<Z>, s: State<Z>, c: nat, d: nat, e: nat)
    requires GzipPass(p, inf, body, text, zrep) && q == p.(purpose := q.purpose, sink := q.sink)
    requires GzipAt(body, text, zrep, s, c, e) && c <= d <= |body| && e < p.rawSize && (c < d || c == |body|)
    ensures StepAt(p, body, s, c, d, e) == StepAt(q, body, s, c, d, e)
  {
    var cap := Min(p.rawSize - e, BUF_SIZE);
    StepOfPass(p, inf, body, s, c, d, e);
    StepOfPass(q, inf, body, s, c, d, e);
    var r := CallInPass(p, inf, body, text, zrep, s, c, d, e, cap, Ctx(p.pkgSize, c, p.rawSize - e, p.purpose));
    var r' := CallInPass(p, inf, body, text, zrep, s, c, d, e, cap, Ctx(p.pkgSize, c, p.rawSize - e, q.purpose));
  }

  /** Over one gzip member of the announced length the padding branch is dead: the write pass delivers
      chunk for chunk what the CRC pass has checked, and on success that is the text of the member. */
  lemma GzipPassesAgree<Z(!new), V(!new)>(p: Pass<State<Z>, V>, block: nat, inf: Inflater<Z>, text: seq<Byte>,
                                          zrep: InflaterRep<Z>, size: nat)
    requires PassOk(p, block) && |PlainBody(p)| == p.pkgSize && GzipPass(p, inf, PlainBody(p), text, zrep)
    requires 0 < size && p.rawSize <= size
    ensures var o := RunPass(p.(purpose := ForWrite, sink := Upto(size)));
            && RunPass(p.(purpose := ForCrc, sink := Discard)) == o
            && (o.Done? ==> Flatten(o.chunks) == text)
  {
    var a, b := p.(purpose := ForCrc, sink := Discard), p.(purpose := ForWrite, sink := Upto(size));
    var body, rep := PlainBody(p), GzipRep(PlainBody(p), text, zrep);
    assert PlainBody(a) == body && GzipPass(a, inf, body, text, zrep);
    GzipMeets(a, inf, body, text, zrep);
    forall s: State<Z>, c: nat, d: nat, e: nat | c <= d <= |body| && e < a.rawSize && rep(s, c, e)
        && (c < d || c == |body|)
      ensures StepAt(a, body, s, c, d, e) == StepAt(b, body, s, c, d, e)
    {
      GzipAgrees(a, b, inf, body, text, zrep, s, c, d, e);
    }
    SamePass(a, b, block, text, rep);
    StreamingRefinesOneShot(a, block, text, rep);
  }
}
