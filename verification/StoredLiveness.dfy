/** Stored packages always complete. */
module StoredLiveness {
  import opened Bits
  import opened Storage
  import opened StreamSpec
  import opened StreamProof
  import opened Codecs

  /** A pass over a stored body that holds the whole image, with room for it at the destination. */
  ghost predicate StoredPass<S(!new), V(!new)>(p: Pass<S, V>) {
    && p.codec == Stored(p.codec.init) && p.rawSize <= p.pkgSize < 0x8000_0000 && 0 < p.readSize <= p.inCap
    && (p.sink.Upto? ==> 0 < p.sink.size && p.rawSize <= p.sink.size)
  }

  /** One step copies as much as the output room takes. */
  lemma StoredAdvances<S(!new), V(!new)>(p: Pass<S, V>, st: S, body: seq<Byte>, c: nat, d: nat)
      returns (m: Move<S>, c': nat)
    requires StoredPass(p) && |body| == p.pkgSize && c <= d <= |body| && c <= p.rawSize
    ensures m == Advance(p, st, body[c..d], c, c)
    ensures c <= c' <= d && c' <= p.rawSize
    ensures m.Go? ==> c' == c + m.taken == c + |m.output| && c < c' && body[c..d][m.taken..] == body[c'..d]
    ensures m.Halt? ==> m.rc == Ok && c' == c && (c == p.rawSize || c == d)
  {
    m := Advance(p, st, body[c..d], c, c);
    c' := if m.Go? then c + m.taken else c;
  }

  /** The inner loop puts out all pending input, up to the image size. */
  lemma {:induction false} InnerStored<S(!new), V(!new)>(p: Pass<S, V>, st: S, body: seq<Byte>, c: nat, d: nat,
                                                         out: seq<seq<Byte>>) returns (r: Inner<S>)
    requires StoredPass(p) && |body| == p.pkgSize && c <= d <= |body| && c <= p.rawSize
    ensures r == DecodeAll(p, st, body[c..d], c, c, out)
    ensures r.rc == Ok && r.pos == Min(d, p.rawSize) && r.rest == body[r.pos..d]
    decreases d - c
  {
    hide Advance, DecodeAll, NoneStep;
    var m, c' := StoredAdvances(p, st, body, c, d);
    var out' := if m.Go? then out + [m.output] else out;
    DecodeTurns(p, st, body[c..d], c, c, out, m, body[c'..d], c', c', out');
    if m.Go? {
      r := InnerStored(p, m.st, body, c', d, out');
    } else {
      r := Inner(m.rc, m.st, body[c..d], c, c, out);
    }
  }

  lemma {:induction false} ProcessStored<S(!new), V(!new)>(p: Pass<S, V>, block: nat, st: S, c: nat,
                                                                  out: seq<seq<Byte>>)
    requires PassOk(p, block) && |PlainBody(p)| == p.pkgSize && StoredPass(p) && c < p.rawSize && Whole(c, block)
    ensures Process(p, st, After(p, c).0, c, [], c, out).Done?
    decreases p.rawSize - c
  {
    hide Process, OneRound, DecodeAll, Advance, AfterRead, NoneStep, Fetch, Chains;
    var body := PlainBody(p);
    var d := FetchNext(p, block, c, c);
    var r := InnerStored(p, st, body, c, d, out);
    assert body[c..c] == [] && [] + body[c..d] == body[c..d];
    RoundTurns(p, st, After(p, c).0, c, [], c, out, true, After(p, d).0, body[c..d], d, body[c..d], r);
    if d < p.rawSize {
      assert r.rest == [];
      ProcessStored(p, block, r.st, d, r.out);
    } else {
      ProcessEnds(p, r.st, After(p, d).0, d, r.rest, r.pos, r.out);
    }
  }

  /** A stored package whose body holds the whole image always completes and delivers it. */
  lemma StoredCompletes<S(!new), V(!new)>(p: Pass<S, V>, block: nat)
    requires PassOk(p, block) && |PlainBody(p)| == p.pkgSize && StoredPass(p)
    ensures var o := RunPass(p); o.Done? && Flatten(o.chunks) == PlainBody(p)[..p.rawSize]
  {
    assert Body(p)[..0] == [];
    if p.rawSize > 0 {
      ProcessStored(p, block, p.codec.init, 0, []);
    }
    NoneMeets(p, PlainBody(p));
    StreamingRefinesOneShot(p, block, PlainBody(p), NoneRep());
  }
}
