/** The input buffer never overruns with stored and framed packages, even corrupt ones, under any
    cipher that keeps lengths. */
module InputBuffer {
  import opened Bits
  import opened Storage
  import opened StreamSpec
  import opened Codecs

  /** What may be left in the buffer between two reads: nothing, or, for codecs that keep a residue,
      what the codec cannot go on with, with room for a read behind it. */
  ghost predicate Between<S(!new), V(!new)>(p: Pass<S, V>, wait: (S, seq<Byte>) -> bool, st: S, input: seq<Byte>,
                                            pos: nat) {
    pos >= p.rawSize || input == [] || (|input| + p.readSize <= p.inCap && wait(st, input))
  }

  /** Every decode from there ends there: with no more input than one read, if it made progress. */
  ghost predicate Drains<S(!new), V(!new)>(p: Pass<S, V>, wait: (S, seq<Byte>) -> bool) {
    forall st: S, input: seq<Byte>, plain: seq<Byte>, consumed: nat, pos: nat, out: seq<seq<Byte>> |
      pos < p.rawSize && |plain| <= p.readSize && Between(p, wait, st, input, pos) ::
        DrainsAt(p, wait, st, input, plain, consumed, pos, out)
  }

  ghost predicate DrainsAt<S(!new), V(!new)>(p: Pass<S, V>, wait: (S, seq<Byte>) -> bool, st: S, input: seq<Byte>,
                                             plain: seq<Byte>, consumed: nat, pos: nat, out: seq<seq<Byte>>)
    requires pos < p.rawSize
  {
    var r := DecodeAll(p, st, input + plain, consumed, pos, out);
    r.rc != Error && r.pos > pos ==> Between(p, wait, r.st, r.rest, r.pos)
  }

  lemma {:induction false} NoOverrun<S(!new), V(!new)>(p: Pass<S, V>, wait: (S, seq<Byte>) -> bool, st: S, v: V,
                                                       read: nat, input: seq<Byte>, pos: nat, out: seq<seq<Byte>>)
    requires KeepsLength(p.cipher) && |input| <= read <= p.pkgSize && p.readSize <= p.inCap
    requires Drains(p, wait) && Between(p, wait, st, input, pos)
    ensures !Process(p, st, v, read, input, pos, out).Overrun?
    decreases p.rawSize - pos
  {
    hide DecodeAll, Advance;
    if pos < p.rawSize {
      var f := Fetch(p, v, read, |input|);
      if f.Got? {
        assert DrainsAt(p, wait, st, input, f.plain, read - |input|, pos, out);
        var r := OneRound(p, st, v, read, input, pos, out);
        if r.Next? {
          NoOverrun(p, wait, r.st, r.v, r.read, r.rest, r.pos, r.out);
        }
      }
    }
  }

  // Stored packages keep no residue

  function NeverWaits<S>(): (S, seq<Byte>) -> bool { (st, input) => false }

  lemma {:induction false} StoredDrains<S(!new), V(!new)>(p: Pass<S, V>, st: S, input: seq<Byte>, consumed: nat,
                                                          pos: nat, out: seq<seq<Byte>>)
    requires p.codec == Stored(p.codec.init) && pos <= p.rawSize
    ensures var r := DecodeAll(p, st, input, consumed, pos, out); r.rc != Error ==> r.pos >= p.rawSize || r.rest == []
    decreases p.rawSize - pos + |input|
  {
    var m := Advance(p, st, input, consumed, pos);
    hide DecodeAll;
    var input', consumed', pos', out' := input, consumed, pos, out;
    if m.Go? {
      input', consumed', pos', out' := input[m.taken..], consumed + m.taken, pos + |m.output|, out + [m.output];
      StoredDrains(p, m.st, input', consumed', pos', out');
    }
    DecodeTurns(p, st, input, consumed, pos, out, m, input', consumed', pos', out');
  }

  lemma StoredNeverOverruns<S(!new), V(!new)>(p: Pass<S, V>)
    requires p.codec == Stored(p.codec.init) && KeepsLength(p.cipher) && p.readSize <= p.inCap
    ensures !RunPass(p).Overrun?
  {
    forall st: S, input: seq<Byte>, plain: seq<Byte>, consumed: nat, pos: nat, out: seq<seq<Byte>> |
      pos < p.rawSize && |plain| <= p.readSize && Between(p, NeverWaits(), st, input, pos)
      ensures DrainsAt(p, NeverWaits(), st, input, plain, consumed, pos, out)
    {
      StoredDrains(p, st, input + plain, consumed, pos, out);
    }
    NoOverrun(p, NeverWaits(), p.codec.init, p.cipher.init, 0, [], 0, []);
  }

  // Framed packages keep less than one frame, and a frame that did not fit before is taken whole

  /** The buffer starts with an incomplete frame. */
  function WaitsForFrame<Q>(): (Q, seq<Byte>) -> bool {
    (q, input) => |input| < FRAME_HEADER || |input| < NeedLen(BlockSize(input))
  }

  lemma {:induction false} FramedDrains<Q(!new), V(!new)>(p: Pass<Q, V>, dec: BlockDecoder<Q>, q: Q, input: seq<Byte>,
                                                          consumed: nat, pos: nat, out: seq<seq<Byte>>)
    requires p.codec == Framed(p.codec.init, dec) && pos <= p.rawSize
    ensures var r := DecodeAll(p, q, input, consumed, pos, out);
            r.rc != Error ==> r.pos >= p.rawSize || r.rest == [] || WaitsForFrame()(r.st, r.rest)
    decreases p.rawSize - pos + |input|
  {
    var m := Advance(p, q, input, consumed, pos);
    hide DecodeAll;
    var input', consumed', pos', out' := input, consumed, pos, out;
    if m.Go? {
      input', consumed', pos', out' := input[m.taken..], consumed + m.taken, pos + |m.output|, out + [m.output];
      FramedDrains(p, dec, m.st, input', consumed', pos', out');
    }
    DecodeTurns(p, q, input, consumed, pos, out, m, input', consumed', pos', out');
  }

  /** A frame that counts for nothing is met again and again, until the image is full or the decoder
      fails. */
  lemma {:induction false} FramedSpins<Q(!new), V(!new)>(p: Pass<Q, V>, dec: BlockDecoder<Q>, q: Q, input: seq<Byte>,
                                                         consumed: nat, pos: nat, out: seq<seq<Byte>>)
    requires p.codec == Framed(p.codec.init, dec) && pos <= p.rawSize
    requires |input| >= FRAME_HEADER && NeedLen(BlockSize(input)) == 0
    ensures var r := DecodeAll(p, q, input, consumed, pos, out); r.rc != Error ==> r.pos >= p.rawSize
    decreases p.rawSize - pos
  {
    hide DecodeAll, BlockSize, Decoded;
    var m := Advance(p, q, input, consumed, pos);
    var pos', out' := pos, out;
    if m.Go? {
      pos', out' := pos + |m.output|, out + [m.output];
      assert input[0..] == input;
      FramedSpins(p, dec, m.st, input, consumed, pos', out');
    }
    DecodeTurns(p, q, input, consumed, pos, out, m, input, consumed, pos', out');
  }

  /** A frame that goes through behind an incomplete one and a new piece takes all the incomplete one, or,
      when its header was incomplete, at least a byte, or nothing over and over. */
  lemma FramedFirst<Q(!new), V(!new)>(p: Pass<Q, V>, dec: BlockDecoder<Q>, q: Q, input: seq<Byte>, plain: seq<Byte>,
                                      consumed: nat, pos: nat) returns (m: Move<Q>)
    requires p.codec == Framed(p.codec.init, dec) && pos < p.rawSize
    requires input == [] || WaitsForFrame()(q, input)
    ensures m == Advance(p, q, input + plain, consumed, pos)
    ensures m.Go? && input != [] && |input| - 2 > m.taken ==>
              |input + plain| >= FRAME_HEADER && NeedLen(BlockSize(input + plain)) == 0
  {
    var all := input + plain;
    m := Advance(p, q, all, consumed, pos);
    if |input| >= FRAME_HEADER {
      assert all[..FRAME_HEADER] == input[..FRAME_HEADER];
    }
  }

  /** So progress leaves at most two bytes more than the new piece. */
  lemma FramedTakes<Q(!new), V(!new)>(p: Pass<Q, V>, dec: BlockDecoder<Q>, q: Q, input: seq<Byte>, plain: seq<Byte>,
                                      consumed: nat, pos: nat, out: seq<seq<Byte>>)
    requires p.codec == Framed(p.codec.init, dec) && pos < p.rawSize
    requires input == [] || WaitsForFrame()(q, input)
    ensures var r := DecodeAll(p, q, input + plain, consumed, pos, out);
            r.rc != Error && r.pos > pos ==> r.pos >= p.rawSize || |r.rest| <= |plain| + 2
  {
    hide Advance, BlockSize, WaitsForFrame;
    var all := input + plain;
    var m := FramedFirst(p, dec, q, input, plain, consumed, pos);
    if |all| >= FRAME_HEADER && NeedLen(BlockSize(all)) == 0 {
      FramedSpins(p, dec, q, all, consumed, pos, out);
    } else if m.Go? {
      assert |DecodeAll(p, m.st, all[m.taken..], consumed + m.taken, pos + |m.output|,
                        out + [m.output]).rest| <= |all| - m.taken;
    }
  }

  /** With a buffer of two reads and two bytes no framed package overruns, however corrupt: two of the three
      bytes of an incomplete header can stay behind when its length wraps. */
  lemma FramedNeverOverruns<Q(!new), V(!new)>(p: Pass<Q, V>, dec: BlockDecoder<Q>)
    requires p.codec == Framed(p.codec.init, dec) && KeepsLength(p.cipher) && 2 * p.readSize + 2 <= p.inCap
    ensures !RunPass(p).Overrun?
  {
    var wait := WaitsForFrame<Q>();
    forall q: Q, input: seq<Byte>, plain: seq<Byte>, consumed: nat, pos: nat, out: seq<seq<Byte>> |
      pos < p.rawSize && |plain| <= p.readSize && Between(p, wait, q, input, pos)
      ensures DrainsAt(p, wait, q, input, plain, consumed, pos, out)
    {
      FramedDrains(p, dec, q, input + plain, consumed, pos, out);
      FramedTakes(p, dec, q, input, plain, consumed, pos, out);
    }
    NoOverrun(p, wait, p.codec.init, p.cipher.init, 0, [], 0, []);
  }
}
