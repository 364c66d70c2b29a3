/** Gzip passes that do overrun the input buffer: a plain package with bytes behind its member, and one for
    every risky combination of sizes. */
module GzipOverrun {
  import opened Bits
  import opened Storage
  import opened StreamSpec
  import opened Ciphers
  import opened Gzip
  import opened GzipBuffer

  /** A CRC pass without encryption. */
  function GzipOver<Z>(src: seq<Byte>, pkgSize: U32, rawSize: U32, inCap: nat, readSize: nat, inf: Inflater<Z>,
                       z: Z): Pass<State<Z>, ()> {
    Pass(src, pkgSize, rawSize, inCap, readSize, GzipCodec(inf, z), Plain(()), ForCrc, Discard)
  }

  // Bytes behind a small member

  /** zlib on a member of 40 bytes with 100 bytes of text: it takes the member, gives out the text and
      stops. */
  function SmallMember(text: seq<Byte>): Inflater<bool>
    requires |text| == 100
  {
    (done: bool, input: seq<Byte>, cap: nat) =>
      if !done && |input| >= 40 && cap >= 100 then Inflated(true, 40, text, false) else Inflated(done, 0, [], false)
  }

  lemma SmallMemberInner(p: Pass<State<bool>, ()>, text: seq<Byte>, input: seq<Byte>)
    requires |text| == 100 && |input| == 4096 && p.pkgSize == 8192 && p.rawSize == 100 && p.sink == Discard
    requires p.codec == GzipCodec(SmallMember(text), false)
    ensures DecodeAll(p, p.codec.init, input, 0, 0, []) ==
            Inner(NoSpace, State(true, text[96..], 4056), input[40..], 40, 96, [text[..96]])
  {
    hide DecodeAll;
    var s := State(true, text[96..], 4056);
    var m := Advance(p, p.codec.init, input, 0, 0);
    assert [] + text == text;
    assert m == Go(s, 40, text[..96]);
    DecodeTurns(p, p.codec.init, input, 0, 0, [], m, input[40..], 40, 96, [text[..96]]);
    var m' := Advance(p, s, input[40..], 40, 96);
    assert text[96..] + [] == text[96..];
    assert m' == Halt(NoSpace, s);
    DecodeTurns(p, s, input[40..], 40, 96, [text[..96]], m', input[40..], 40, 96, [text[..96]]);
  }

  /** In the default configuration of a gzip build, a package of 8192 bytes that is a small member and
      anything behind it makes the second read end 4056 bytes behind the input buffer. */
  lemma TrailingBytesOverrun(src: seq<Byte>, text: seq<Byte>)
    requires |text| == 100 && HEADER_SIZE + 8192 <= |src|
    ensures RunPass(GzipOver(src, 8192, 100, 4096, 4096, SmallMember(text), false)) == Overrun([text[..96]])
  {
    var p := GzipOver(src, 8192, 100, 4096, 4096, SmallMember(text), false);
    var piece := src[HEADER_SIZE..HEADER_SIZE + 4096];
    SmallMemberInner(p, text, piece);
    hide DecodeAll, Advance;
    var r := Inner(NoSpace, State(true, text[96..], 4056), piece[40..], 40, 96, [text[..96]]);
    assert [] + piece == piece;
    RoundTurns(p, p.codec.init, (), 0, [], 0, [], true, (), piece, 4096, piece, r);
  }

  // An overrun for every risky combination of sizes

  /** What the inflater below has given out after `z` bytes taken, with `last` after `g` bytes. */
  function GivenOut(g: nat, last: nat, z: nat): nat
    requires z <= g <= last
  {
    Min(BUF_SIZE * z, last - (g - z))
  }

  /** Takes one byte a call and gives out as much as it can with a byte left for every byte to come, up
      to `g` bytes taken; then fills what room there is without taking anything. */
  function TrickleStep(g: nat, last: nat, z: nat, input: seq<Byte>, cap: nat): (r: Inflated<nat>)
    requires g <= last
    ensures r.taken <= |input| && |r.output| <= cap
  {
    if z < g && input != [] && GivenOut(g, last, z + 1) - GivenOut(g, last, z) <= cap
    then Inflated(z + 1, 1, Fill(GivenOut(g, last, z + 1) - GivenOut(g, last, z)), false)
    else Inflated(z, 0, Fill(cap), false)
  }

  function Trickle(g: nat, last: nat): Inflater<nat>
    requires g <= last
  {
    (z: nat, input: seq<Byte>, cap: nat) requires g <= last => TrickleStep(g, last, z, input, cap)
  }

  /** Output in front of the bytes that get stuck. */
  function Before(rawSize: nat, g: nat): nat
    requires rawSize > 0
  {
    Min(rawSize - 1, BUF_SIZE * g)
  }

  ghost predicate TrickleRun(p: Pass<State<nat>, ()>, g: nat) {
    && g < p.rawSize <= BUF_SIZE * g + REMAIN_SIZE - 1
    && p.codec == GzipCodec(Trickle(g, Before(p.rawSize, g)), 0) && p.cipher == Plain(()) && p.sink == Discard
  }

  /** Output of the run after `z` bytes taken. */
  function Out(p: Pass<State<nat>, ()>, g: nat, z: nat): nat
    requires z <= g < p.rawSize <= BUF_SIZE * g + REMAIN_SIZE - 1
  {
    GivenOut(g, Before(p.rawSize, g), z)
  }

  /** While bytes are to be taken, all that is inflated goes out. */
  lemma TrickleGoes(p: Pass<State<nat>, ()>, g: nat, s: State<nat>, input: seq<Byte>, cap: nat, ctx: Ctx)
      returns (t: Step<State<nat>>)
    requires TrickleRun(p, g) && s.z < g && s.remain == [] && 0 < |input| < 0x1_0000_0000 && !LastChunk(input, ctx)
    requires cap == Min(p.rawSize - Out(p, g, s.z), BUF_SIZE)
    ensures t == GzipStep(Trickle(g, Before(p.rawSize, g)), s, input, cap, ctx)
    ensures t.rc == Ok && t.consumed == 1 && |t.output| == Out(p, g, s.z + 1) - Out(p, g, s.z) > 0
    ensures t.st.z == s.z + 1 && t.st.remain == [] && |t.output| <= cap
  {
    var n := Out(p, g, s.z + 1) - Out(p, g, s.z);
    assert 0 < n <= cap && (n == cap ==> n == BUF_SIZE);
    var r := Inflated(s.z + 1, 1, Fill(n), false);
    assert Inflate(Trickle(g, Before(p.rawSize, g)), s, input, cap) == r;
    assert s.remain + r.output == r.output && r.output + Fill(0) == r.output;
    t := GzipStep(Trickle(g, Before(p.rawSize, g)), s, input, cap, ctx);
  }

  /** After that, all that is inflated is held back. */
  lemma TrickleSticks(p: Pass<State<nat>, ()>, g: nat, s: State<nat>, input: seq<Byte>, cap: nat, ctx: Ctx)
      returns (t: Step<State<nat>>)
    requires TrickleRun(p, g) && s.z == g && s.remain == [] && 0 < |input| < 0x1_0000_0000
    requires cap == Min(p.rawSize - Out(p, g, g), BUF_SIZE)
    ensures t == GzipStep(Trickle(g, Before(p.rawSize, g)), s, input, cap, ctx)
    ensures t.rc == NoSpace && t.st.z == g && 0 < |t.st.remain| == p.rawSize - Out(p, g, g) < REMAIN_SIZE
  {
    assert 0 < cap < REMAIN_SIZE;
    assert Inflate(Trickle(g, Before(p.rawSize, g)), s, input, cap) == Inflated(g, 0, Fill(cap), false);
    assert s.remain + Fill(cap) == Fill(cap);
    t := GzipStep(Trickle(g, Before(p.rawSize, g)), s, input, cap, ctx);
  }

  lemma TrickleAdvance(p: Pass<State<nat>, ()>, g: nat, s: State<nat>, input: seq<Byte>) returns (m: Move<State<nat>>)
    requires TrickleRun(p, g) && s.z <= g && s.remain == [] && |input| < 0x1_0000_0000 && s.z + |input| < p.pkgSize
    ensures Out(p, g, s.z) < p.rawSize && m == Advance(p, s, input, s.z, Out(p, g, s.z))
    ensures input == [] ==> m == Halt(Ok, s)
    ensures m.Go? <==> input != [] && s.z < g
    ensures m.Go? ==> m.taken == 1 && m.st.z == s.z + 1 && m.st.remain == []
    ensures m.Go? ==> Out(p, g, s.z) + |m.output| == Out(p, g, s.z + 1)
    ensures input != [] && m.Halt? ==> m.rc == NoSpace && m.st.z == g && Waits(p, m.st, Out(p, g, g))
  {
    var e := Out(p, g, s.z);
    assert e < p.rawSize;
    m := Advance(p, s, input, s.z, e);
    var cap, ctx := Min(p.rawSize - e, BUF_SIZE), Ctx(p.pkgSize, s.z, p.rawSize - e, p.purpose);
    hide GzipStep, Trickle, Out;
    if input == [] {
    } else if s.z < g {
      var t := TrickleGoes(p, g, s, input, cap, ctx);
    } else {
      var t := TrickleSticks(p, g, s, input, cap, ctx);
    }
  }

  /** The inner loop takes what it may and stops. */
  lemma {:induction false} TrickleInner(p: Pass<State<nat>, ()>, g: nat, s: State<nat>, input: seq<Byte>,
                                        out: seq<seq<Byte>>) returns (r: Inner<State<nat>>)
    requires TrickleRun(p, g) && s.z <= g && s.remain == [] && |input| < 0x1_0000_0000 && s.z + |input| < p.pkgSize
    ensures Out(p, g, s.z) < p.rawSize
    ensures r == DecodeAll(p, s, input, s.z, Out(p, g, s.z), out)
    ensures var z := Min(s.z + |input|, g);
            r.rc != Error && r.st.z == z && r.pos == Out(p, g, z) && |r.rest| == s.z + |input| - z
    ensures s.z + |input| <= g ==> r.st.remain == []
    ensures s.z + |input| > g ==> Waits(p, r.st, r.pos)
    decreases |input|
  {
    hide Advance, DecodeAll, Out, Waits, Trickle, GivenOut, Before, GzipCodec, Plain;
    assert g < p.rawSize <= BUF_SIZE * g + REMAIN_SIZE - 1;
    hide TrickleRun;
    var m := TrickleAdvance(p, g, s, input);
    var pos := Out(p, g, s.z);
    var input', z', pos', out' := input, s.z, pos, out;
    if m.Go? {
      input', z', pos', out' := input[1..], s.z + 1, pos + |m.output|, out + [m.output];
      r := TrickleInner(p, g, m.st, input', out');
    } else {
      r := Inner(m.rc, m.st, input, s.z, pos, out);
    }
    DecodeTurns(p, s, input, s.z, pos, out, m, input', z', pos', out');
  }

  lemma OutGrows(p: Pass<State<nat>, ()>, g: nat, y: nat, z: nat)
    requires TrickleRun(p, g) && y < z <= g
    ensures Out(p, g, y) < Out(p, g, z) < p.rawSize
  {
  }

  lemma TrickleFetches(p: Pass<State<nat>, ()>, g: nat, d: nat, read: nat)
    requires TrickleRun(p, g) && 0 < p.readSize <= p.inCap && OverrunAt(p.inCap, p.readSize, p.pkgSize, p.rawSize, g, d)
    requires HEADER_SIZE + p.pkgSize <= |p.src|
    ensures KeepsLength(p.cipher)
    ensures read + p.readSize <= d ==>
              Fetch(p, (), read, 0) == Got((), p.src[HEADER_SIZE + read..HEADER_SIZE + read + p.readSize])
    ensures Fetch(p, (), d, d - g) == Stop(true)
  {
  }

  /** The reads before the one that gets stuck go through; the one behind it overruns. */
  lemma {:induction false} TrickleOverruns(p: Pass<State<nat>, ()>, inf: Inflater<nat>, g: nat, d: nat, s: State<nat>,
                                           read: nat, out: seq<seq<Byte>>)
    requires TrickleRun(p, g) && GzipRun(p, inf) && 0 < p.readSize <= p.inCap && HEADER_SIZE + p.pkgSize <= |p.src|
    requires OverrunAt(p.inCap, p.readSize, p.pkgSize, p.rawSize, g, d)
    requires s.remain == [] && s.z == read <= g && Whole(read, p.readSize) && read + p.readSize <= d
    ensures Process(p, s, (), read, [], Out(p, g, read), out).Overrun?
    decreases d - read
  {
    hide Process, DecodeAll, Advance, Out, Waits, OneRound, AfterRead, Trickle, GivenOut, Before, Fetch, Bounded,
         KeepsLength, GzipCodec, Plain;
    assert g < p.rawSize <= BUF_SIZE * g + REMAIN_SIZE - 1;
    TrickleFetches(p, g, d, read);
    var next := read + p.readSize;
    WholeSum(read, p.readSize, p.readSize);
    if next < d {
      WholeApart(next, d, p.readSize);
    }
    var piece := p.src[HEADER_SIZE + read..HEADER_SIZE + next];
    assert [] + piece == piece;
    var r := TrickleInner(p, g, s, piece, out);
    OutGrows(p, g, read, Min(next, g));
    RoundTurns(p, s, (), read, [], Out(p, g, read), out, true, (), piece, next, piece, r);
    if next < d {
      assert r.rest == [];
      TrickleOverruns(p, inf, g, d, r.st, next, r.out);
    } else {
      WaitingEnds(p, inf, r.st, (), d, r.rest, r.pos, r.out);
    }
  }

  lemma TrickleBounded(g: nat, last: nat)
    requires g <= last
    ensures Bounded(Trickle(g, last))
  {
  }

  /** The bytes taken in an overrun with a given image size, and the read they are taken from. */
  lemma {:induction false} RiskyWay(inCap: nat, readSize: nat, pkgSize: nat, rawSize: nat, top: nat)
      returns (g: nat, d: nat)
    requires 0 < readSize <= inCap && readSize <= BUF_SIZE && pkgSize < 0x8000_0000
    requires 2 <= rawSize <= BUF_SIZE * top + REMAIN_SIZE - 1 && top < pkgSize - inCap
    requires var j := top - AlignDown(top, readSize); 1 <= j <= RiskWidth(inCap, readSize)
    ensures OverrunAt(inCap, readSize, pkgSize, rawSize, g, d) && g < rawSize
    decreases top
  {
    var e, w := AlignDown(top, readSize), RiskWidth(inCap, readSize);
    if top < rawSize {
      g, d := top, e + readSize;
      WholeSum(e, readSize, readSize);
    } else if top > e + 1 {
      SameBlock(top - 1, e, readSize);
      g, d := RiskyWay(inCap, readSize, pkgSize, rawSize, top - 1);
    } else {
      SameBlock(e - readSize + w, e - readSize, readSize);
      g, d := RiskyWay(inCap, readSize, pkgSize, rawSize, e - readSize + w);
    }
  }

  lemma SameBlock(x: nat, e: int, s: nat)
    requires 0 < s && 0 <= e <= x < e + s && (Whole(e, s) || Whole(e + s, s))
    ensures AlignDown(x, s) == e
  {
    WholeSum(s, e, s);
    var a := AlignDown(x, s);
    if a < e {
      WholeApart(a, e, s);
    } else if e < a {
      WholeApart(e, a, s);
    }
  }

  lemma RiskyTop(inCap: nat, readSize: nat, pkgSize: nat, rawSize: nat) returns (g: nat, d: nat)
    requires 0 < readSize <= inCap && readSize <= BUF_SIZE && Risky(inCap, readSize, pkgSize, rawSize)
    ensures OverrunAt(inCap, readSize, pkgSize, rawSize, g, d) && g < rawSize
  {
    var top := MostTaken(inCap, readSize, pkgSize);
    var m := pkgSize - inCap - 1;
    var e := AlignDown(m, readSize);
    hide OverrunAt, AlignDown, Whole;
    SameBlock(top, if m == e then e - readSize else e, readSize);
    g, d := RiskyWay(inCap, readSize, pkgSize, rawSize, top);
  }

  /** Conversely, for all risky sizes, and whatever the body holds, there is an inflater that keeps inside
      its buffers with which the pass overruns. */
  lemma RiskySizesOverrun(src: seq<Byte>, inCap: nat, readSize: nat, pkgSize: U32, rawSize: U32)
      returns (inf: Inflater<nat>)
    requires 0 < readSize <= inCap && readSize <= BUF_SIZE && HEADER_SIZE + pkgSize <= |src|
    requires Risky(inCap, readSize, pkgSize, rawSize)
    ensures var p := GzipOver(src, pkgSize, rawSize, inCap, readSize, inf, 0);
            GzipRun(p, inf) && RunPass(p).Overrun?
  {
    var g, d := RiskyTop(inCap, readSize, pkgSize, rawSize);
    inf := Trickle(g, Before(rawSize, g));
    TrickleBounded(g, Before(rawSize, g));
    var p := GzipOver(src, pkgSize, rawSize, inCap, readSize, inf, 0);
    hide Process, DecodeAll, Advance, OverrunAt, Trickle, Risky;
    TrickleOverruns(p, inf, g, d, StartOf(0), 0, []);
  }
}
