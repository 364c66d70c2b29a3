/** The decoder adapters for stored and block-framed packages, and their step contracts. */
module Codecs {
  import opened Bits
  import opened Storage
  import opened StreamSpec
  import opened StreamProof

  // NONE

  /** The stored format: copy what fits. The decoder has no state of its own; whatever state the other
      formats of a build share passes through. */
  function NoneStep<S>(st: S, input: seq<Byte>, cap: nat, ctx: Ctx): Step<S> {
    if |input| == 0 then Step(NoSpace, st, 0, [])
    else
      var n := Min(|input|, cap);
      Step(Ok, st, n, input[..n])
  }

  function Stored<S>(init: S): Codec<S> {
    Codec(init, (st: S, input: seq<Byte>, cap: nat, ctx: Ctx) => NoneStep(st, input, cap, ctx))
  }

  /** Copies pending input to the output buffer. */
  method NoneDecompress(input: array<Byte>, inLen: nat, output: array<Byte>, cap: nat)
    returns (rc: Rc, consumed: nat, produced: nat)
    requires inLen <= input.Length && cap <= output.Length && input != output
    modifies output
    ensures produced <= cap
    ensures forall ctx :: NoneStep((), input[..inLen], cap, ctx) == Step(rc, (), consumed, output[..produced])
  {
    rc, consumed, produced := NoSpace, 0, 0;
    if inLen != 0 {
      var n := if inLen < cap then inLen else cap;
      forall i | 0 <= i < n {
        output[i] := input[i];
      }
      rc, consumed, produced := Ok, n, n;
      assert output[..n] == input[..inLen][..n];
    }
  }

  function NoneRep<S>(): Rep<S> {
    (st: S, c: nat, e: nat) => c == e
  }

  /** The stored format meets the step contract; the text is the body itself. */
  lemma NoneMeets<S(!new), V(!new)>(p: Pass<S, V>, body: seq<Byte>)
    requires p.codec == Stored(p.codec.init) && 0 < p.readSize <= p.inCap && |body| == p.pkgSize
    ensures Meets(p, body, body, NoneRep())
  {
    var rep := NoneRep<S>();
    forall st: S, c: nat, d: nat, e: nat | c <= d <= |body| && e < p.rawSize && rep(st, c, e) && (c < d || c == |body|)
      ensures StepMeets(p, body, body, rep, st, c, d, e)
    {
      if c < d {
        var n := Min(d - c, Min(p.rawSize - e, BUF_SIZE));
        SliceOfSlice(body, c, d, 0, n);
      }
    }
  }

  // Block frames: a 4-byte big-endian length, then a compressed block (FastLZ, QuickLZ)

  const FRAME_HEADER := 4

  datatype Raw = Bad | Block(data: seq<Byte>)

  /** A third-party block decoder with its state. `decode` is its answer to a block that lies in the
      pending input, the raw block or failure; `beyond` is what it comes to when the announced length
      runs past the pending input, which it does not know: anything. */
  datatype BlockDecoder<!Q> = BlockDecoder(decode: (Q, seq<Byte>) -> (Q, Raw), beyond: (Q, seq<Byte>, U32) -> (Q, Raw))

  function BigEndian(b: seq<Byte>): (r: nat)
    ensures r < Pow256(|b|)
  {
    if b == [] then 0 else BigEndian(b[..|b| - 1]) * 256 + b[|b| - 1] as int
  }

  /** The length that a frame announces. */
  function BlockSize(input: seq<Byte>): U32
    requires |input| >= FRAME_HEADER
  {
    assert Pow256(FRAME_HEADER) == 0x1_0000_0000;
    BigEndian(input[..FRAME_HEADER])
  }

  /** The header loop: shifts in one byte at a time, in 32 bits. */
  method GetBlockSize(compDatas: array<Byte>) returns (blockSize: U32)
    requires compDatas.Length >= FRAME_HEADER
    ensures blockSize == BlockSize(compDatas[..])
  {
    blockSize := 0;
    var i := 0;
    assert Pow256(FRAME_HEADER) == 0x1_0000_0000;
    while i < FRAME_HEADER
      invariant 0 <= i <= FRAME_HEADER && blockSize == BigEndian(compDatas[..i])
    {
      assert compDatas[..i + 1][..i] == compDatas[..i];
      Pow256Monotone(i + 1, FRAME_HEADER);
      assert BigEndian(compDatas[..i + 1]) == BigEndian(compDatas[..i]) * 256 + compDatas[i] as int;
      blockSize := Wrap32(blockSize * 256);
      blockSize := Wrap32(blockSize + compDatas[i]);
      i := i + 1;
    }
    assert compDatas[..][..FRAME_HEADER] == compDatas[..FRAME_HEADER];
  }

  /** Header and block, summed in 32 bits. */
  function NeedLen(size: U32): U32 { Wrap32(size + FRAME_HEADER) }

  /** What the decoder answers to the block behind the header. */
  function Decoded<Q>(dec: BlockDecoder<Q>, q: Q, input: seq<Byte>): (Q, Raw)
    requires |input| >= FRAME_HEADER
  {
    var size := BlockSize(input);
    if size + FRAME_HEADER <= |input| then dec.decode(q, input[FRAME_HEADER..size + FRAME_HEADER])
    else dec.beyond(q, input[FRAME_HEADER..], size)
  }

  /** One frame per step; a block larger than the output room is an error. */
  function FramedStep<Q>(dec: BlockDecoder<Q>, q: Q, input: seq<Byte>, cap: nat): Step<Q> {
    if |input| < FRAME_HEADER then Step(NoSpace, q, 0, [])
    else
      var size := BlockSize(input);
      if size == 0 then Step(Error, q, 0, [])
      else if |input| < NeedLen(size) then Step(NoSpace, q, 0, [])
      else
        var r := Decoded(dec, q, input);
        if r.1.Bad? || |r.1.data| == 0 || |r.1.data| > cap then Step(Error, r.0, 0, [])
        else Step(Ok, r.0, NeedLen(size), r.1.data)
  }

  /** The block that a step hands to the decoder lies in the pending input if and only if header and
      announced length can be summed in 32 bits. */
  lemma BlockInside(input: seq<Byte>)
    requires FRAME_HEADER <= |input| < 0x1_0000_0000 && |input| >= NeedLen(BlockSize(input))
    ensures BlockSize(input) + FRAME_HEADER <= |input| <==> BlockSize(input) + FRAME_HEADER < 0x1_0000_0000
  {
  }

  lemma BigEndianOfFour(b: seq<Byte>)
    requires |b| == 4
    ensures BigEndian(b) == ((b[0] as int * 256 + b[1]) * 256 + b[2]) * 256 + b[3]
  {
    assert b[..3][..2] == b[..2] && b[..2][..1] == b[..1] && b[..1][..0] == [];
    assert BigEndian(b[..1]) == b[0] as int;
    assert BigEndian(b[..2]) == BigEndian(b[..1]) * 256 + b[1] as int;
    assert BigEndian(b[..3]) == BigEndian(b[..2]) * 256 + b[2] as int;
  }

  /** A header at which the check lets any input through: four bytes are enough for a block of almost
      2^32 bytes, and one byte counts as taken. */
  lemma HeaderWraps(rest: seq<Byte>)
    requires |rest| < 0x8000_0000
    ensures var input: seq<Byte> := [0xFF, 0xFF, 0xFF, 0xFD] + rest;
            BlockSize(input) == 0xFFFF_FFFD && NeedLen(BlockSize(input)) == 1 && BlockSize(input) > |input|
  {
    var input: seq<Byte> := [0xFF, 0xFF, 0xFF, 0xFD] + rest;
    assert input[..FRAME_HEADER] == [0xFF, 0xFF, 0xFF, 0xFD];
    BigEndianOfFour(input[..FRAME_HEADER]);
  }

  function Framed<Q>(init: Q, dec: BlockDecoder<Q>): Codec<Q> {
    Codec(init, (q: Q, input: seq<Byte>, cap: nat, ctx: Ctx) => FramedStep(dec, q, input, cap))
  }

  /** What a framed body stands for: its raw blocks up to the first frame that is cut short, empty or
      undecodable. */
  function Unframe<Q>(dec: BlockDecoder<Q>, q: Q, b: seq<Byte>): seq<Byte>
    decreases |b|
  {
    if |b| < FRAME_HEADER || BlockSize(b) == 0 || |b| < BlockSize(b) + FRAME_HEADER then []
    else
      var r := dec.decode(q, b[FRAME_HEADER..BlockSize(b) + FRAME_HEADER]);
      if r.1.Bad? || |r.1.data| == 0 then []
      else r.1.data + Unframe(dec, r.0, b[BlockSize(b) + FRAME_HEADER..])
  }

  /** No frame up to there announces a length that wraps with its header. */
  predicate NoWrap<Q>(dec: BlockDecoder<Q>, q: Q, b: seq<Byte>)
    decreases |b|
  {
    |b| >= FRAME_HEADER ==>
      && BlockSize(b) + FRAME_HEADER < 0x1_0000_0000
      && (0 < BlockSize(b) && BlockSize(b) + FRAME_HEADER <= |b| ==>
            var r := dec.decode(q, b[FRAME_HEADER..BlockSize(b) + FRAME_HEADER]);
            r.1.Block? && |r.1.data| > 0 ==> NoWrap(dec, r.0, b[BlockSize(b) + FRAME_HEADER..]))
  }

  /** Decoder in state `q` after `c` body bytes: the rest of the text is what the rest of the body
      stands for. */
  function FramedRep<Q(!new)>(dec: BlockDecoder<Q>, body: seq<Byte>, text: seq<Byte>): Rep<Q> {
    (q: Q, c: nat, e: nat) =>
      c <= |body| && e <= |text| && NoWrap(dec, q, body[c..]) && text[e..] == Unframe(dec, q, body[c..])
  }

  /** A buffer that holds a whole frame shows the same frame as the body from there on. */
  lemma FrameInBuffer(body: seq<Byte>, c: nat, d: nat)
    requires c <= d <= |body| && d - c >= FRAME_HEADER
    ensures BlockSize(body[c..d]) == BlockSize(body[c..])
    ensures d - c >= BlockSize(body[c..]) + FRAME_HEADER ==>
              var n := BlockSize(body[c..]) + FRAME_HEADER;
              && body[c..d][FRAME_HEADER..n] == body[c..][FRAME_HEADER..n]
              && body[c..][n..] == body[c + n..]
  {
    var size := BlockSize(body[c..d]);
    SliceOfSlice(body, c, d, 0, FRAME_HEADER);
    SliceOfSlice(body, c, |body|, 0, FRAME_HEADER);
    assert body[c..] == body[c..|body|];
    if d - c >= size + FRAME_HEADER {
      SliceOfSlice(body, c, d, FRAME_HEADER, size + FRAME_HEADER);
      SliceOfSlice(body, c, |body|, FRAME_HEADER, size + FRAME_HEADER);
    }
  }

  /** A step on a buffer whose frame does not wrap: the frame that the body shows there, or a wait for the
      rest of it. */
  lemma FrameStep<Q>(dec: BlockDecoder<Q>, body: seq<Byte>, q: Q, c: nat, d: nat, cap: nat) returns (r: Step<Q>)
    requires c <= d <= |body| && NoWrap(dec, q, body[c..])
    ensures r == FramedStep(dec, q, body[c..d], cap)
    ensures r.rc == NoSpace ==> r.st == q && (d - c < FRAME_HEADER || d - c < BlockSize(body[c..]) + FRAME_HEADER)
    ensures r.rc == Ok ==> FRAME_HEADER < r.consumed <= d - c && 0 < |r.output| <= cap
    ensures r.rc == Ok ==> r.consumed == BlockSize(body[c..]) + FRAME_HEADER
    ensures r.rc == Ok ==> dec.decode(q, body[c..][FRAME_HEADER..r.consumed]) == (r.st, Block(r.output))
    ensures r.rc == Ok ==> body[c..][r.consumed..] == body[c + r.consumed..]
    ensures r.rc == Ok ==> NoWrap(dec, r.st, body[c + r.consumed..])
  {
    hide BigEndian;
    r := FramedStep(dec, q, body[c..d], cap);
    if d - c >= FRAME_HEADER {
      FrameInBuffer(body, c, d);
    }
  }

  /** Any successful step on more input takes a whole frame, so more than an incomplete one. */
  lemma FramedHungry<Q(!new), V(!new)>(p: Pass<Q, V>, dec: BlockDecoder<Q>, body: seq<Byte>, q: Q, c: nat, d: nat,
                                       e: nat)
    requires p.codec == Framed(p.codec.init, dec) && c <= d <= |body| && e < p.rawSize && NoWrap(dec, q, body[c..])
    requires FramedStep(dec, q, body[c..d], Min(p.rawSize - e, BUF_SIZE)).rc == NoSpace
    ensures Hungry(p, body, q, c, d, e)
  {
    hide FramedStep, NoWrap;
    var s := FrameStep(dec, body, q, c, d, Min(p.rawSize - e, BUF_SIZE));
    forall d' | d <= d' <= |body|
      ensures var r := StepAt(p, body, q, c, d', e); r.rc == Ok ==> r.consumed > d - c
    {
      var r := FrameStep(dec, body, q, c, d', Min(p.rawSize - e, BUF_SIZE));
    }
  }

  /** A framed format meets the step contract for every body whose lengths do not wrap, with a buffer of
      two reads. */
  lemma FramedMeets<Q(!new), V(!new)>(p: Pass<Q, V>, dec: BlockDecoder<Q>, body: seq<Byte>)
    requires p.codec == Framed(p.codec.init, dec) && 0 < 2 * p.readSize <= p.inCap && |body| == p.pkgSize
    requires NoWrap(dec, p.codec.init, body)
    ensures var text := Unframe(dec, p.codec.init, body); Meets(p, body, text, FramedRep(dec, body, text))
  {
    var text := Unframe(dec, p.codec.init, body);
    var rep := FramedRep(dec, body, text);
    assert body[0..] == body && text[0..] == text;
    forall q: Q, c: nat, d: nat, e: nat | c <= d <= |body| && e < p.rawSize && rep(q, c, e) && (c < d || c == |body|)
      ensures StepMeets(p, body, text, rep, q, c, d, e)
    {
      FramedStepMeets(p, dec, body, text, q, c, d, e);
    }
  }

  /** The text goes on behind a frame. */
  lemma FramedText<Q(!new)>(dec: BlockDecoder<Q>, body: seq<Byte>, text: seq<Byte>, q: Q, c: nat, e: nat, n: nat,
                            q': Q, output: seq<Byte>)
    requires FramedRep(dec, body, text)(q, c, e) && FRAME_HEADER < n <= |body| - c
    requires n == BlockSize(body[c..]) + FRAME_HEADER && body[c..][n..] == body[c + n..]
    requires dec.decode(q, body[c..][FRAME_HEADER..n]) == (q', Block(output)) && 0 < |output|
    requires NoWrap(dec, q', body[c + n..])
    ensures e + |output| <= |text| && output == text[e..e + |output|]
    ensures FramedRep(dec, body, text)(q', c + n, e + |output|)
  {
    hide BlockSize, NoWrap;
    var rest := Unframe(dec, q', body[c + n..]);
    assert body[c..][BlockSize(body[c..]) + FRAME_HEADER..] == body[c + n..];
    assert Unframe(dec, q, body[c..]) == output + rest;
    assert text[e..e + |output|] == text[e..][..|output|];
    assert text[e + |output|..] == text[e..][|output|..];
  }

  lemma FramedStepMeets<Q(!new), V(!new)>(p: Pass<Q, V>, dec: BlockDecoder<Q>, body: seq<Byte>, text: seq<Byte>,
                                          q: Q, c: nat, d: nat, e: nat)
    requires p.codec == Framed(p.codec.init, dec) && 0 < 2 * p.readSize <= p.inCap
    requires c <= d <= |body| && e < p.rawSize && FramedRep(dec, body, text)(q, c, e)
    ensures StepMeets(p, body, text, FramedRep(dec, body, text), q, c, d, e)
  {
    hide FramedStep, NoWrap, Unframe, BlockSize, Hungry;
    var r := FrameStep(dec, body, q, c, d, Min(p.rawSize - e, BUF_SIZE));
    assert StepAt(p, body, q, c, d, e) == r;
    match r.rc
    case Error =>
    case NoSpace => FramedHungry(p, dec, body, q, c, d, e);
    case Ok => FramedText(dec, body, text, q, c, e, r.consumed, r.st, r.output);
  }

  /** Decodes one frame into the output buffer. */
  method FramedDecompress<Q(!new)>(dec: BlockDecoder<Q>, q: Q, input: array<Byte>, inLen: nat, output: array<Byte>,
                                   cap: nat) returns (rc: Rc, q': Q, consumed: nat, produced: nat)
    requires inLen <= input.Length && cap <= output.Length && input != output
    modifies output
    ensures produced <= cap
    ensures FramedStep(dec, q, old(input[..inLen]), cap) == Step(rc, q', consumed, output[..produced])
  {
    rc, q', consumed, produced := NoSpace, q, 0, 0;
    if inLen < FRAME_HEADER {
      return;
    }
    var blockSize := GetBlockSize(input);
    assert input[..inLen][..FRAME_HEADER] == input[..][..FRAME_HEADER];
    var needLen := Wrap32(blockSize + FRAME_HEADER);
    if blockSize == 0 {
      rc := Error;
      return;
    }
    if inLen < needLen {
      return;
    }
    var r := Decoded(dec, q, input[..inLen]);
    q' := r.0;
    if r.1.Bad? || |r.1.data| == 0 || |r.1.data| > cap {
      rc := Error;
      return;
    }
    forall i | 0 <= i < |r.1.data| {
      output[i] := r.1.data[i];
    }
    rc, consumed, produced := Ok, needLen, |r.1.data|;
  }
}
