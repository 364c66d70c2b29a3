/** Streaming refines one-shot decoding, for every codec that meets the step contract. */
module StreamProof {
  import opened Bits
  import opened Storage
  import opened StreamSpec

  // One-shot meaning

  function Body<S(!new), V(!new)>(p: Pass<S, V>): seq<Byte>
    requires HEADER_SIZE + p.pkgSize <= |p.src|
  {
    p.src[HEADER_SIZE..HEADER_SIZE + p.pkgSize]
  }

  /** The whole body decrypted in one call. */
  function PlainBody<S(!new), V(!new)>(p: Pass<S, V>): seq<Byte>
    requires HEADER_SIZE + p.pkgSize <= |p.src|
  {
    p.cipher.decrypt(p.cipher.init, Body(p)).1
  }

  ghost predicate ChainsAt<V(!new)>(c: Cipher<V>, v: V, a: seq<Byte>, b: seq<Byte>) {
    var first := c.decrypt(v, a);
    var second := c.decrypt(first.0, b);
    c.decrypt(v, a + b) == (second.0, first.1 + second.1)
  }

  /** Decrypting piece by piece, in multiples of the block size, is decrypting in one go. */
  ghost predicate Chains<V(!new)>(c: Cipher<V>, block: nat)
    requires block > 0
  {
    && (forall v :: c.decrypt(v, []) == (v, []))
    && (forall v, a, b | Whole(|a|, block) && Whole(|b|, block) :: ChainsAt(c, v, a, b))
  }

  // Step contract

  /** Where a decoder may stand: `rep(st, c, e)` says that in state `st` it has taken `c` bytes of
      `body` and given out `e` bytes of `text`. */
  type Rep<!S> = (S, nat, nat) -> bool

  function StepAt<S(!new), V(!new)>(p: Pass<S, V>, body: seq<Byte>, st: S, c: nat, d: nat, e: nat): Step<S>
    requires c <= d <= |body| && e < p.rawSize
  {
    p.codec.step(st, body[c..d], Min(p.rawSize - e, BUF_SIZE), Ctx(p.pkgSize, c, p.rawSize - e, p.purpose))
  }

  /** With any more input, a step that succeeds takes more than what is there now. */
  ghost predicate Hungry<S(!new), V(!new)>(p: Pass<S, V>, body: seq<Byte>, st: S, c: nat, d: nat, e: nat)
    requires c <= d <= |body| && e < p.rawSize
  {
    forall d' | d <= d' <= |body| :: var r := StepAt(p, body, st, c, d', e); r.rc == Ok ==> r.consumed > d - c
  }

  /** The step contract, for one call: success makes progress with the next output bytes in place;
      asking for more input changes nothing, and leftover input must be consumable or absent. */
  ghost predicate StepMeets<S(!new), V(!new)>(p: Pass<S, V>, body: seq<Byte>, text: seq<Byte>, rep: Rep<S>,
                                              st: S, c: nat, d: nat, e: nat)
    requires c <= d <= |body| && e < p.rawSize
  {
    var r := StepAt(p, body, st, c, d, e);
    match r.rc
    case Ok =>
      && r.consumed <= d - c && |r.output| <= Min(p.rawSize - e, BUF_SIZE)
      && (r.consumed > 0 || |r.output| > 0)
      && e + |r.output| <= |text| && r.output == text[e..e + |r.output|]
      && rep(r.st, c + r.consumed, e + |r.output|)
    case NoSpace =>
      && rep(r.st, c, e)
      && (c == d || (p.inCap >= 2 * p.readSize && Hungry(p, body, r.st, c, d, e)))
    case Error => true
  }

  ghost predicate Meets<S(!new), V(!new)>(p: Pass<S, V>, body: seq<Byte>, text: seq<Byte>, rep: Rep<S>) {
    && 0 < p.readSize <= p.inCap && |body| == p.pkgSize
    && rep(p.codec.init, 0, 0)
    && forall st: S, c: nat, d: nat, e: nat | c <= d <= |body| && e < p.rawSize && rep(st, c, e)
       && (c < d || c == |body|) ::
         StepMeets(p, body, text, rep, st, c, d, e)
  }

  // Proof

  /** Where the inner loop may end when it starts at body offset `c`: the chunks so far are a prefix
      of the text. */
  ghost predicate InnerGood<S(!new), V(!new)>(p: Pass<S, V>, body: seq<Byte>, text: seq<Byte>, rep: Rep<S>,
                                              c: nat, d: nat, r: Inner<S>)
    requires c <= d <= |body|
  {
    && r.pos <= |text| && r.pos <= p.rawSize && Flatten(r.out) == text[..r.pos]
    && (r.rc != Error ==>
          && c <= r.consumed <= d && r.rest == body[r.consumed..d]
          && rep(r.st, r.consumed, r.pos)
          && (r.pos == p.rawSize || r.rest == [] ||
              (p.inCap >= 2 * p.readSize && Hungry(p, body, r.st, r.consumed, d, r.pos))))
  }

  /** One round of the inner loop from a state that the contract covers. */
  lemma AdvanceMeets<S(!new), V(!new)>(p: Pass<S, V>, body: seq<Byte>, text: seq<Byte>, rep: Rep<S>,
                                       st: S, c: nat, d: nat, e: nat) returns (m: Move<S>)
    requires Meets(p, body, text, rep)
    requires c <= d <= |body| && e <= p.rawSize && e <= |text| && rep(st, c, e)
    ensures m == Advance(p, st, body[c..d], c, e)
    ensures m.Go? ==> e < p.rawSize && (c < d || c == |body|)
    ensures m.Go? ==> StepAt(p, body, st, c, d, e) == Step(Ok, m.st, m.taken, m.output)
    ensures m.Go? ==>
      && e + |m.output| <= |text| && m.output == text[e..e + |m.output|]
      && rep(m.st, c + m.taken, e + |m.output|)
    ensures m.Halt? && m.rc != Error ==> rep(m.st, c, e)
    ensures m.Halt? && m.rc != Error && e < p.rawSize && c < d ==>
              p.inCap >= 2 * p.readSize && Hungry(p, body, m.st, c, d, e)
  {
    m := Advance(p, st, body[c..d], c, e);
    if e < p.rawSize && (c < d || c == |body|) {
      assert StepMeets(p, body, text, rep, st, c, d, e);
    }
  }

  lemma TextGrows(out: seq<seq<Byte>>, chunk: seq<Byte>, text: seq<Byte>, e: nat)
    requires e + |chunk| <= |text| && Flatten(out) == text[..e] && chunk == text[e..e + |chunk|]
    ensures Flatten(out + [chunk]) == text[..e + |chunk|]
  {
    FlattenAppend(out, chunk);
    SliceJoin(text, 0, e, e + |chunk|);
  }

  /** What the inner loop does from a state that the contract covers. */
  lemma {:induction false} InnerMeets<S(!new), V(!new)>(p: Pass<S, V>, body: seq<Byte>, text: seq<Byte>, rep: Rep<S>,
      st: S, c: nat, d: nat, e: nat, out: seq<seq<Byte>>) returns (r: Inner<S>)
    requires Meets(p, body, text, rep)
    requires c <= d <= |body| && e <= p.rawSize && e <= |text| && rep(st, c, e) && Flatten(out) == text[..e]
    ensures r == DecodeAll(p, st, body[c..d], c, e, out)
    ensures InnerGood(p, body, text, rep, c, d, r)
    decreases p.rawSize - e + d - c
  {
    var m := AdvanceMeets(p, body, text, rep, st, c, d, e);
    hide Advance, DecodeAll, StepAt, StepMeets, Hungry, Flatten;
    var c', e', out' := c, e, out;
    if m.Go? {
      c', e', out' := c + m.taken, e + |m.output|, out + [m.output];
      assert body[c..d][m.taken..] == body[c'..d];
      TextGrows(out, m.output, text, e);
      r := InnerMeets(p, body, text, rep, m.st, c', d, e', out');
    } else {
      r := Inner(m.rc, m.st, body[c..d], c, e, out);
    }
    DecodeTurns(p, st, body[c..d], c, e, out, m, body[c'..d], c', e', out');
  }

  /** From a hungry state, output means that the whole old residue was taken. */
  lemma HungryMoves<S(!new), V(!new)>(p: Pass<S, V>, body: seq<Byte>, text: seq<Byte>, rep: Rep<S>,
      st: S, c: nat, h: nat, d: nat, e: nat, out: seq<seq<Byte>>)
    requires Meets(p, body, text, rep)
    requires c <= h <= d <= |body| && e < p.rawSize && e <= |text| && rep(st, c, e)
    requires Hungry(p, body, st, c, h, e)
    ensures var r := DecodeAll(p, st, body[c..d], c, e, out); r.pos > e ==> r.consumed > h
  {
    var m := AdvanceMeets(p, body, text, rep, st, c, d, e);
    if m.Go? {
      var c', e' := c + m.taken, e + |m.output|;
      assert body[c..d][m.taken..] == body[c'..d];
      assert DecodeAll(p, m.st, body[c'..d], c', e', out + [m.output]).consumed >= c';
    }
  }

  /** Sizes and algorithms a pass relies on. */
  ghost predicate PassOk<S(!new), V(!new)>(p: Pass<S, V>, block: nat) {
    && HEADER_SIZE + p.pkgSize <= |p.src| && KeepsLength(p.cipher)
    && 0 < block && Chains(p.cipher, block) && Whole(p.pkgSize, block) && Whole(p.readSize, block)
  }

  /** Decryptor state and output after the first `d` body bytes. */
  function After<S(!new), V(!new)>(p: Pass<S, V>, d: nat): (V, seq<Byte>)
    requires HEADER_SIZE + p.pkgSize <= |p.src| && d <= p.pkgSize
  {
    p.cipher.decrypt(p.cipher.init, Body(p)[..d])
  }

  lemma AfterNothing<S(!new), V(!new)>(p: Pass<S, V>, block: nat)
    requires PassOk(p, block)
    ensures After(p, 0).0 == p.cipher.init
  {
    assert Body(p)[..0] == [];
  }

  /** The output so far is a prefix of the whole plain body. */
  lemma CipherPrefix<S(!new), V(!new)>(p: Pass<S, V>, block: nat, d: nat)
    requires PassOk(p, block) && d <= p.pkgSize && Whole(d, block)
    ensures |PlainBody(p)| == p.pkgSize && After(p, d).1 == PlainBody(p)[..d]
  {
    var a, b := Body(p)[..d], Body(p)[d..];
    WholeSum(d, p.pkgSize - d, block);
    assert ChainsAt(p.cipher, p.cipher.init, a, b);
    assert a + b == Body(p);
  }

  lemma CipherStep<S(!new), V(!new)>(p: Pass<S, V>, block: nat, d: nat, d': nat)
    requires PassOk(p, block) && d <= d' <= p.pkgSize && Whole(d, block) && Whole(d', block)
    ensures var next := p.cipher.decrypt(After(p, d).0, Body(p)[d..d']);
            After(p, d') == (next.0, After(p, d).1 + next.1)
  {
    hide Whole, KeepsLength;
    var a, b := Body(p)[..d], Body(p)[d..d'];
    WholeSum(d, d' - d, block);
    assert ChainsAt(p.cipher, p.cipher.init, a, b);
    assert a + b == Body(p)[..d'];
  }

  /** Decrypting the next piece read gives the next piece of the whole plain body. */
  lemma CipherNext<S(!new), V(!new)>(p: Pass<S, V>, block: nat, d: nat, d': nat)
    requires PassOk(p, block) && d <= d' <= p.pkgSize && Whole(d, block) && Whole(d', block)
    ensures |PlainBody(p)| == p.pkgSize
    ensures p.cipher.decrypt(After(p, d).0, p.src[HEADER_SIZE + d..HEADER_SIZE + d']) ==
            (After(p, d').0, PlainBody(p)[d..d'])
  {
    hide After, PlainBody, Chains, Whole, KeepsLength;
    SliceOfSlice(p.src, HEADER_SIZE, HEADER_SIZE + p.pkgSize, d, d');
    CipherStep(p, block, d, d');
    CipherPrefix(p, block, d);
    CipherPrefix(p, block, d');
    var whole, next := PlainBody(p), p.cipher.decrypt(After(p, d).0, Body(p)[d..d']).1;
    assert whole[..d'] == whole[..d] + next;
    assert next == whole[..d'][d..];
  }

  /** State of the outer loop with body offsets `c` (decoded), `d` (read) and text offset `e`. */
  ghost predicate OuterState<S(!new), V(!new)>(p: Pass<S, V>, block: nat, text: seq<Byte>, rep: Rep<S>,
                                               st: S, v: V, c: nat, d: nat, e: nat)
    requires PassOk(p, block) && |PlainBody(p)| == p.pkgSize
  {
    && c <= d <= p.pkgSize && Whole(d, block) && e <= p.rawSize && e <= |text|
    && v == After(p, d).0
    && rep(st, c, e)
    && (e == p.rawSize || c == d ||
        (p.inCap >= 2 * p.readSize && d - c <= p.readSize && Hungry(p, PlainBody(p), st, c, d, e)))
  }

  /** What a pass delivers: never an overrun, always a prefix of the text, and all that was asked
      for when it reports success. */
  ghost predicate Delivers<S(!new), V(!new)>(p: Pass<S, V>, text: seq<Byte>, o: Outcome) {
    && !o.Overrun? && Flatten(o.chunks) <= text
    && (o.Done? ==> |Flatten(o.chunks)| == p.rawSize)
  }

  /** The decoding of one round. */
  lemma DecodeMeets<S(!new), V(!new)>(p: Pass<S, V>, block: nat, text: seq<Byte>, rep: Rep<S>,
      st: S, v: V, c: nat, d: nat, e: nat, d': nat, out: seq<seq<Byte>>) returns (r: Inner<S>)
    requires PassOk(p, block) && |PlainBody(p)| == p.pkgSize && Meets(p, PlainBody(p), text, rep)
    requires OuterState(p, block, text, rep, st, v, c, d, e) && e < p.rawSize && Flatten(out) == text[..e]
    requires d <= d' <= p.pkgSize && d' - d <= p.readSize && Whole(d', block)
    ensures r == DecodeAll(p, st, PlainBody(p)[c..d'], c, e, out)
    ensures InnerGood(p, PlainBody(p), text, rep, c, d', r)
    ensures r.rc != Error && r.pos > e ==>
              OuterState(p, block, text, rep, r.st, After(p, d').0, r.consumed, d', r.pos)
  {
    r := InnerMeets(p, PlainBody(p), text, rep, st, c, d', e, out);
    if c < d {
      HungryMoves(p, PlainBody(p), text, rep, st, c, d, d', e, out);
    }
  }

  /** The read of one round, with the decryption resolved. */
  lemma FetchNext<S(!new), V(!new)>(p: Pass<S, V>, block: nat, c: nat, d: nat) returns (d': nat)
    requires PassOk(p, block) && |PlainBody(p)| == p.pkgSize && 0 < p.readSize <= p.inCap
    requires c <= d <= p.pkgSize && Whole(d, block) && (c == d || d - c + p.readSize <= p.inCap)
    ensures d <= d' <= p.pkgSize && d' - d <= p.readSize && Whole(d', block)
    ensures var f := Fetch(p, After(p, d).0, d, d - c);
            && f != Stop(true)
            && (f.Got? ==> f == Got(After(p, d').0, PlainBody(p)[d..d']) && c < d')
            && (p.pkgSize < 0x8000_0000 && c < p.pkgSize ==> f.Got? && d' == d + Min(p.readSize, p.pkgSize - d))
  {
    var remain := ToInt32(p.pkgSize - d);
    d' := d + if remain > 0 then Min(p.readSize, remain) else 0;
    WholeSum(d, p.pkgSize - d, block);
    WholeSum(d, d' - d, block);
    CipherNext(p, block, d, d');
    assert HEADER_SIZE + d' == HEADER_SIZE + d + (d' - d);
  }

  /** One round of the outer loop from a covered state: what is read, and what decoding comes to. */
  lemma RoundMeets<S(!new), V(!new)>(p: Pass<S, V>, block: nat, text: seq<Byte>, rep: Rep<S>,
      st: S, v: V, c: nat, d: nat, e: nat, out: seq<seq<Byte>>) returns (go: bool, d': nat, r: Inner<S>)
    requires PassOk(p, block) && |PlainBody(p)| == p.pkgSize && Meets(p, PlainBody(p), text, rep)
    requires OuterState(p, block, text, rep, st, v, c, d, e) && e < p.rawSize && Flatten(out) == text[..e]
    ensures d <= d' <= p.pkgSize && PlainBody(p)[c..d] + PlainBody(p)[d..d'] == PlainBody(p)[c..d']
    ensures Fetch(p, v, d, d - c) == if go then Got(After(p, d').0, PlainBody(p)[d..d']) else Stop(false)
    ensures r == DecodeAll(p, st, PlainBody(p)[c..d'], c, e, out)
    ensures r.pos <= |text| && Flatten(r.out) == text[..r.pos]
    ensures r.rc != Error && r.pos > e ==>
              && c <= r.consumed <= d' && r.rest == PlainBody(p)[r.consumed..d']
              && OuterState(p, block, text, rep, r.st, After(p, d').0, r.consumed, d', r.pos)
  {
    d' := FetchNext(p, block, c, d);
    go := Fetch(p, v, d, d - c).Got?;
    SliceJoin(PlainBody(p), c, d, d');
    r := DecodeMeets(p, block, text, rep, st, v, c, d, e, d', out);
  }

  lemma {:induction false} ProcessMeets<S(!new), V(!new)>(p: Pass<S, V>, block: nat, text: seq<Byte>, rep: Rep<S>,
      st: S, v: V, c: nat, d: nat, e: nat, out: seq<seq<Byte>>)
    requires PassOk(p, block) && |PlainBody(p)| == p.pkgSize && Meets(p, PlainBody(p), text, rep)
    requires OuterState(p, block, text, rep, st, v, c, d, e) && Flatten(out) == text[..e]
    ensures Delivers(p, text, Process(p, st, v, d, PlainBody(p)[c..d], e, out))
    decreases p.rawSize - e
  {
    hide Process, OneRound, DecodeAll, Advance, Fetch, AfterRead, StepAt, StepMeets, Hungry, Chains, Flatten;
    if e < p.rawSize {
      var go, d', r := RoundMeets(p, block, text, rep, st, v, c, d, e, out);
      RoundTurns(p, st, v, d, PlainBody(p)[c..d], e, out, go, After(p, d').0, PlainBody(p)[d..d'], d',
                 PlainBody(p)[c..d'], r);
      if go && r.rc != Error && r.pos > e {
        ProcessMeets(p, block, text, rep, r.st, After(p, d').0, r.consumed, d', r.pos, r.out);
      }
    } else {
      ProcessEnds(p, st, v, d, PlainBody(p)[c..d], e, out);
    }
  }

  /** Streaming refines one-shot decoding: whatever the chunking, a pass never overruns its input
      buffer, hands on only a prefix of the decoded text, and when it reports success that prefix is
      exactly the first `rawSize` bytes. */
  lemma StreamingRefinesOneShot<S(!new), V(!new)>(p: Pass<S, V>, block: nat, text: seq<Byte>, rep: Rep<S>)
    requires PassOk(p, block) && |PlainBody(p)| == p.pkgSize && Meets(p, PlainBody(p), text, rep)
    ensures var o := RunPass(p);
            && !o.Overrun? && Flatten(o.chunks) <= text
            && (o.Done? ==> |text| >= p.rawSize && Flatten(o.chunks) == text[..p.rawSize])
  {
    assert Body(p)[..0] == [] && PlainBody(p)[0..0] == [];
    ProcessMeets(p, block, text, rep, p.codec.init, p.cipher.init, 0, 0, 0, []);
  }
}
