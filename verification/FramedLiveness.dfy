/** Well-formed framed packages always complete. */
module FramedLiveness {
  import opened Bits
  import opened Storage
  import opened StreamSpec
  import opened StreamProof
  import opened Codecs

  /** `b` is a run of frames that each fit one read, decode to 1..BUF_SIZE bytes and total `raw`. */
  ghost predicate WellFramed<Q>(dec: BlockDecoder<Q>, q: Q, b: seq<Byte>, raw: nat, readSize: nat)
    decreases |b|
  {
    if b == [] then raw == 0
    else
      && |b| >= FRAME_HEADER && BlockSize(b) > 0
      && var need := BlockSize(b) + FRAME_HEADER;
         && need <= |b| && need <= readSize
         && var r := dec.decode(q, b[FRAME_HEADER..need]);
            && r.1.Block? && 0 < |r.1.data| <= Min(raw, BUF_SIZE)
            && WellFramed(dec, r.0, b[need..], raw - |r.1.data|, readSize)
  }

  lemma {:induction false} WellFramedFits<Q>(dec: BlockDecoder<Q>, q: Q, b: seq<Byte>, raw: nat, readSize: nat)
    requires WellFramed(dec, q, b, raw, readSize) && |b| < 0x1_0000_0000
    ensures NoWrap(dec, q, b)
    decreases |b|
  {
    if b != [] {
      var need := BlockSize(b) + FRAME_HEADER;
      var r := dec.decode(q, b[FRAME_HEADER..need]);
      WellFramedFits(dec, r.0, b[need..], raw - |r.1.data|, readSize);
    }
  }

  /** The first of well-formed frames, as the decoder steps through it. */
  lemma FirstFrame<Q>(dec: BlockDecoder<Q>, body: seq<Byte>, q: Q, c: nat, d: nat, raw: nat, readSize: nat)
      returns (r: Step<Q>)
    requires c <= d <= |body| < 0x1_0000_0000 && 0 < raw && WellFramed(dec, q, body[c..], raw, readSize)
    ensures c < |body| && r == FramedStep(dec, q, body[c..d], Min(raw, BUF_SIZE))
    ensures r.rc == Ok ==> 0 < r.consumed <= d - c && 0 < |r.output| <= Min(raw, BUF_SIZE)
    ensures r.rc == Ok ==> WellFramed(dec, r.st, body[c + r.consumed..], raw - |r.output|, readSize)
    ensures r.rc != Ok ==> r.rc == NoSpace && r.st == q && d - c < readSize && d < |body|
  {
    hide BlockSize, NoWrap;
    WellFramedFits(dec, q, body[c..], raw, readSize);
    r := FrameStep(dec, body, q, c, d, Min(raw, BUF_SIZE));
    if d - c >= FRAME_HEADER {
      FrameInBuffer(body, c, d);
    }
  }

  /** A framed pass over a decoder state at a frame boundary. */
  ghost predicate Frames<Q(!new), V(!new)>(p: Pass<Q, V>, dec: BlockDecoder<Q>, body: seq<Byte>) {
    && p.codec == Framed(p.codec.init, dec) && |body| == p.pkgSize < 0x8000_0000
    && (p.sink.Upto? ==> 0 < p.sink.size && p.rawSize <= p.sink.size)
  }

  /** One step at a frame boundary: a whole frame goes through, a partial one waits for more. */
  lemma FrameAdvances<Q(!new), V(!new)>(p: Pass<Q, V>, dec: BlockDecoder<Q>, body: seq<Byte>, q: Q, c: nat, d: nat,
                                        e: nat) returns (m: Move<Q>, c': nat, e': nat)
    requires Frames(p, dec, body) && c <= d <= |body| && e <= p.rawSize
    requires WellFramed(dec, q, body[c..], p.rawSize - e, p.readSize)
    ensures m == Advance(p, q, body[c..d], c, e)
    ensures c <= c' <= d && e <= e' <= p.rawSize && WellFramed(dec, m.st, body[c'..], p.rawSize - e', p.readSize)
    ensures m.Go? ==> c' == c + m.taken && e' == e + |m.output| && e < e' && body[c..d][m.taken..] == body[c'..d]
    ensures m.Halt? ==> m.rc != Error && c' == c && e' == e && (e == p.rawSize || d - c < p.readSize)
    ensures e < p.rawSize ==> c < |body|
    ensures e < p.rawSize && (d - c >= p.readSize || d == |body|) ==> m.Go?
  {
    hide FramedStep, WellFramed;
    m := Advance(p, q, body[c..d], c, e);
    c', e' := c, e;
    if e < p.rawSize {
      var r := FirstFrame(dec, body, q, c, d, p.rawSize - e, p.readSize);
    }
    if m.Go? {
      c', e' := c + m.taken, e + |m.output|;
      assert body[c..d][m.taken..] == body[c'..d];
    }
  }

  lemma {:induction false} InnerFrames<Q(!new), V(!new)>(p: Pass<Q, V>, dec: BlockDecoder<Q>, body: seq<Byte>,
      q: Q, c: nat, d: nat, e: nat, out: seq<seq<Byte>>) returns (r: Inner<Q>, c': nat)
    requires Frames(p, dec, body) && c <= d <= |body| && e <= p.rawSize
    requires WellFramed(dec, q, body[c..], p.rawSize - e, p.readSize)
    ensures r == DecodeAll(p, q, body[c..d], c, e, out)
    ensures r.rc != Error && e <= r.pos <= p.rawSize && c <= c' <= d && r.rest == body[c'..d]
    ensures WellFramed(dec, r.st, body[c'..], p.rawSize - r.pos, p.readSize)
    ensures r.pos == p.rawSize || d - c' < p.readSize
    ensures e < p.rawSize && (d - c >= p.readSize || d == |body|) ==> r.pos > e
    decreases p.rawSize - e
  {
    hide DecodeAll, Advance, WellFramed, Frames;
    var m, e';
    m, c', e' := FrameAdvances(p, dec, body, q, c, d, e);
    var out' := if m.Go? then out + [m.output] else out;
    DecodeTurns(p, q, body[c..d], c, e, out, m, body[c'..d], c', e', out');
    if m.Go? {
      r, c' := InnerFrames(p, dec, body, m.st, c', d, e', out');
    } else {
      r := Inner(m.rc, m.st, body[c..d], c, e, out);
    }
  }

  lemma {:induction false} ProcessFrames<Q(!new), V(!new)>(p: Pass<Q, V>, block: nat, dec: BlockDecoder<Q>,
                                                          q: Q, c: nat, d: nat, e: nat, out: seq<seq<Byte>>)
    requires PassOk(p, block) && |PlainBody(p)| == p.pkgSize < 0x8000_0000 && Frames(p, dec, PlainBody(p))
    requires 0 < 2 * p.readSize <= p.inCap
    requires c <= d <= p.pkgSize && Whole(d, block) && e <= p.rawSize && (e == p.rawSize || d - c < p.readSize)
    requires WellFramed(dec, q, PlainBody(p)[c..], p.rawSize - e, p.readSize)
    ensures Process(p, q, After(p, d).0, d, PlainBody(p)[c..d], e, out).Done?
    decreases p.rawSize - e
  {
    hide Process, OneRound, DecodeAll, Advance, AfterRead, Fetch, Chains, WellFramed, FramedStep;
    var body := PlainBody(p);
    if e < p.rawSize {
      var d' := FetchNext(p, block, c, d);
      SliceJoin(body, c, d, d');
      assert c < p.pkgSize by { var m, c', e' := FrameAdvances(p, dec, body, q, c, d, e); }
      var r, c' := InnerFrames(p, dec, body, q, c, d', e, out);
      RoundTurns(p, q, After(p, d).0, d, body[c..d], e, out, true, After(p, d').0, body[d..d'], d', body[c..d'], r);
      ProcessFrames(p, block, dec, r.st, c', d', r.pos, r.out);
    } else {
      ProcessEnds(p, q, After(p, d).0, d, body[c..d], e, out);
    }
  }

  lemma {:induction false} WellFramedTotal<Q>(dec: BlockDecoder<Q>, q: Q, b: seq<Byte>, raw: nat, readSize: nat)
    requires WellFramed(dec, q, b, raw, readSize)
    ensures |Unframe(dec, q, b)| == raw
    decreases |b|
  {
    if b != [] {
      var need := BlockSize(b) + FRAME_HEADER;
      var r := dec.decode(q, b[FRAME_HEADER..need]);
      WellFramedTotal(dec, r.0, b[need..], raw - |r.1.data|, readSize);
    }
  }

  /** Framed packages always complete and never overrun: if every frame fits one read and the raw
      blocks are of legal size and total `rawSize`, the pass succeeds and delivers all of them. */
  lemma FramedCompletes<Q(!new), V(!new)>(p: Pass<Q, V>, block: nat, dec: BlockDecoder<Q>)
    requires PassOk(p, block) && |PlainBody(p)| == p.pkgSize < 0x8000_0000 && Frames(p, dec, PlainBody(p))
    requires 0 < 2 * p.readSize <= p.inCap
    requires WellFramed(dec, p.codec.init, PlainBody(p), p.rawSize, p.readSize)
    ensures var o := RunPass(p); o.Done? && Flatten(o.chunks) == Unframe(dec, p.codec.init, PlainBody(p))
  {
    var text := Unframe(dec, p.codec.init, PlainBody(p));
    assert Body(p)[..0] == [] && PlainBody(p)[0..0] == [] && PlainBody(p)[0..] == PlainBody(p);
    WellFramedFits(dec, p.codec.init, PlainBody(p), p.rawSize, p.readSize);
    ProcessFrames(p, block, dec, p.codec.init, 0, 0, 0, []);
    FramedMeets(p, dec, PlainBody(p));
    StreamingRefinesOneShot(p, block, text, FramedRep(dec, PlainBody(p), text));
    WellFramedTotal(dec, p.codec.init, PlainBody(p), p.rawSize, p.readSize);
  }

  // Framing

  /** A length as a frame header has it, high byte first. */
  function HeaderOf(size: nat): (b: seq<Byte>)
    ensures |b| == FRAME_HEADER
  {
    [size / 0x100_0000 % 256, size / 0x1_0000 % 256, size / 256 % 256, size % 256]
  }

  /** The frames of some packed blocks, one behind the other. */
  function Framing(blocks: seq<seq<Byte>>): seq<Byte> {
    if blocks == [] then [] else HeaderOf(|blocks[0]|) + blocks[0] + Framing(blocks[1..])
  }

  /** Each block fits one read with its header and unpacks to 1..BUF_SIZE bytes. */
  ghost predicate Legal<Q>(dec: BlockDecoder<Q>, q: Q, blocks: seq<seq<Byte>>, readSize: nat) {
    blocks != [] ==>
      var r := dec.decode(q, blocks[0]);
      && 0 < |blocks[0]| && |blocks[0]| + FRAME_HEADER <= readSize
      && r.1.Block? && 0 < |r.1.data| <= BUF_SIZE && Legal(dec, r.0, blocks[1..], readSize)
  }

  /** What the blocks unpack to, in order. */
  function Unpacked<Q>(dec: BlockDecoder<Q>, q: Q, blocks: seq<seq<Byte>>): seq<Byte> {
    if blocks == [] then []
    else
      var r := dec.decode(q, blocks[0]);
      if r.1.Block? then r.1.data + Unpacked(dec, r.0, blocks[1..]) else []
  }

  lemma Digits(x: U32)
    ensures x == (((x / 0x100_0000 % 256) * 256 + x / 0x1_0000 % 256) * 256 + x / 256 % 256) * 256 + x % 256
  {
    Carry(x, 1);
    Carry(x, 256);
    Carry(x, 0x1_0000);
  }

  lemma Carry(x: nat, unit: nat)
    requires unit == 1 || unit == 256 || unit == 0x1_0000
    ensures x / unit == x / (unit * 256) * 256 + x / unit % 256
  {
  }

  lemma HeaderReadBack(size: U32, rest: seq<Byte>)
    ensures BlockSize(HeaderOf(size) + rest) == size
  {
    hide BigEndian;
    var b := HeaderOf(size);
    assert (b + rest)[..FRAME_HEADER] == b;
    BigEndianOfFour(b);
    Digits(size);
  }

  /** Framing round trip: legal blocks, framed, are well-formed frames and stand for what the blocks unpack to. */
  lemma {:induction false} FramingRoundTrip<Q>(dec: BlockDecoder<Q>, q: Q, blocks: seq<seq<Byte>>, readSize: nat)
    requires Legal(dec, q, blocks, readSize) && readSize < 0x1_0000_0000
    ensures Unframe(dec, q, Framing(blocks)) == Unpacked(dec, q, blocks)
    ensures WellFramed(dec, q, Framing(blocks), |Unpacked(dec, q, blocks)|, readSize)
    decreases |blocks|
  {
    hide BlockSize, HeaderOf;
    if blocks != [] {
      var rest, r := Framing(blocks[1..]), dec.decode(q, blocks[0]);
      FramingRoundTrip(dec, r.0, blocks[1..], readSize);
      HeaderReadBack(|blocks[0]|, blocks[0] + rest);
      FirstOfFraming(blocks);
    }
  }

  lemma FirstOfFraming(blocks: seq<seq<Byte>>)
    requires blocks != []
    ensures var b, need := Framing(blocks), |blocks[0]| + FRAME_HEADER;
            && b == HeaderOf(|blocks[0]|) + (blocks[0] + Framing(blocks[1..])) && need <= |b|
            && b[FRAME_HEADER..need] == blocks[0] && b[need..] == Framing(blocks[1..])
  {
    ThreeParts(HeaderOf(|blocks[0]|), blocks[0], Framing(blocks[1..]));
  }

  lemma ThreeParts(a: seq<Byte>, b: seq<Byte>, c: seq<Byte>)
    ensures a + b + c == a + (b + c)
    ensures (a + b + c)[|a|..|a| + |b|] == b && (a + b + c)[|a| + |b|..] == c
  {
  }
}
