/** When a gzip pass overruns the input buffer: never with a buffer of two reads, and with a smaller
    one exactly for package and image sizes that can be told from the header. */
module GzipBuffer {
  import opened Bits
  import opened Storage
  import opened StreamSpec
  import opened Gzip

  // One call

  /** What a call can do, whatever the inflater is fed: it makes progress, or it asks for more with all
      the rest of the image held back. */
  lemma StepBounds<Z(!new)>(inf: Inflater<Z>, s: State<Z>, input: seq<Byte>, cap: nat, ctx: Ctx)
    requires Bounded(inf) && 0 < |input| < 0x1_0000_0000 && 0 < cap
    ensures var t := GzipStep(inf, s, input, cap, ctx);
            && (t.rc == Ok ==> 0 < t.consumed <= |input| && 0 < |t.output| <= cap)
            && (t.rc == NoSpace ==> |t.st.remain| == cap < REMAIN_SIZE)
  {
    if |s.remain| <= cap {
      assert inf(s.z, input, cap - |s.remain|).taken <= |input|;
      assert |inf(s.z, input, cap - |s.remain|).output| <= cap - |s.remain|;
    }
  }

  /** With the whole output room held back already, no call gets on. */
  lemma StepStuck<Z(!new)>(inf: Inflater<Z>, s: State<Z>, input: seq<Byte>, cap: nat, ctx: Ctx)
    requires Bounded(inf) && 0 < |input| && |s.remain| == cap < REMAIN_SIZE
    ensures GzipStep(inf, s, input, cap, ctx).rc != Ok
  {
    assert |inf(s.z, input, 0).output| <= 0;
  }

  // The inner loop

  ghost predicate GzipRun<Z(!new), V(!new)>(p: Pass<State<Z>, V>, inf: Inflater<Z>) {
    p.codec == GzipCodec(inf, p.codec.init.z) && p.codec.init == StartOf(p.codec.init.z) && Bounded(inf)
        && KeepsLength(p.cipher)
  }

  /** Input is pending, and all the rest of the image is held back. */
  predicate Waits<Z, V>(p: Pass<State<Z>, V>, s: State<Z>, pos: nat) {
    pos < p.rawSize && |s.remain| == p.rawSize - pos < REMAIN_SIZE
  }

  lemma AdvanceBounds<Z(!new), V(!new)>(p: Pass<State<Z>, V>, inf: Inflater<Z>, s: State<Z>, input: seq<Byte>,
                                        consumed: nat, pos: nat)
    requires GzipRun(p, inf) && 0 < |input| < 0x1_0000_0000 && pos < p.rawSize
    ensures var m := Advance(p, s, input, consumed, pos);
            && (m.Go? ==> 0 < m.taken && |m.output| <= BUF_SIZE)
            && (m.Halt? && m.rc != Error ==> Waits(p, m.st, pos))
  {
    hide GzipStep, Bounded, KeepsLength;
    StepBounds(inf, s, input, Min(p.rawSize - pos, BUF_SIZE), Ctx(p.pkgSize, consumed, p.rawSize - pos, p.purpose));
  }

  /** Where the inner loop ends: output is bounded by the input taken, and input is left over only in
      the waiting state. */
  lemma {:induction false} InnerBounds<Z(!new), V(!new)>(p: Pass<State<Z>, V>, inf: Inflater<Z>, s: State<Z>,
                                                         input: seq<Byte>, consumed: nat, pos: nat, out: seq<seq<Byte>>)
    requires GzipRun(p, inf) && |input| < 0x1_0000_0000 && pos <= p.rawSize
    ensures var r := DecodeAll(p, s, input, consumed, pos, out);
            && (r.rc != Error ==> r.pos == p.rawSize || r.rest == [] || Waits(p, r.st, r.pos))
            && (input != [] && r.pos > pos ==> |r.rest| < |input|)
            && (r.rest != [] || r.consumed < p.pkgSize ==> r.pos - pos <= BUF_SIZE * (|input| - |r.rest|))
    decreases p.rawSize - pos + |input|
  {
    var m := Advance(p, s, input, consumed, pos);
    if input != [] && pos < p.rawSize {
      AdvanceBounds(p, inf, s, input, consumed, pos);
    }
    hide Advance, DecodeAll, GzipStep, Bounded, KeepsLength;
    var input', consumed', pos', out' := input, consumed, pos, out;
    if m.Go? {
      input', consumed', pos', out' := input[m.taken..], consumed + m.taken, pos + |m.output|, out + [m.output];
      InnerBounds(p, inf, m.st, input', consumed', pos', out');
    }
    DecodeTurns(p, s, input, consumed, pos, out, m, input', consumed', pos', out');
  }

  // The outer loop

  /** From the waiting state, no decoding makes progress. */
  lemma WaitingDecodes<Z(!new), V(!new)>(p: Pass<State<Z>, V>, inf: Inflater<Z>, s: State<Z>, input: seq<Byte>,
                                         consumed: nat, pos: nat, out: seq<seq<Byte>>)
    requires GzipRun(p, inf) && Waits(p, s, pos) && input != []
    ensures DecodeAll(p, s, input, consumed, pos, out).pos == pos
  {
    StepStuck(inf, s, input, Min(p.rawSize - pos, BUF_SIZE), Ctx(p.pkgSize, consumed, p.rawSize - pos, p.purpose));
    var m := Advance(p, s, input, consumed, pos);
    DecodeTurns(p, s, input, consumed, pos, out, m, input, consumed, pos, out);
  }

  /** From the waiting state the pass overruns with the next read, or fails. */
  lemma WaitingEnds<Z(!new), V(!new)>(p: Pass<State<Z>, V>, inf: Inflater<Z>, s: State<Z>, v: V, read: nat,
                                      input: seq<Byte>, pos: nat, out: seq<seq<Byte>>)
    requires GzipRun(p, inf) && Waits(p, s, pos) && 0 < |input| <= read <= p.pkgSize
    ensures Process(p, s, v, read, input, pos, out).Overrun? <==> Fetch(p, v, read, |input|) == Stop(true)
  {
    hide DecodeAll, Advance, Fetch, GzipStep;
    var f := Fetch(p, v, read, |input|);
    if f.Got? {
      hide Process, OneRound;
      WaitingDecodes(p, inf, s, input + f.plain, read - |input|, pos, out);
      var r := DecodeAll(p, s, input + f.plain, read - |input|, pos, out);
      RoundTurns(p, s, v, read, input, pos, out, true, f.v, f.plain, read + |f.plain|, input + f.plain, r);
    }
  }

  /** How an overrun comes about: `g` bytes taken of `d` read, the rest of the image held back, and a next
      read that does not fit behind what is pending. */
  predicate OverrunAt(inCap: nat, readSize: nat, pkgSize: nat, rawSize: nat, g: nat, d: nat)
    requires 0 < readSize
  {
    && Whole(d, readSize) && readSize <= d < pkgSize < 0x8000_0000 && d - readSize < g < d
    && d - g + Min(readSize, pkgSize - d) > inCap
    && 2 <= rawSize <= BUF_SIZE * g + REMAIN_SIZE - 1
  }

  /** A read into the empty buffer. */
  lemma CleanFetch<S(!new), V(!new)>(p: Pass<S, V>, v: V, read: nat) returns (d: nat)
    requires KeepsLength(p.cipher) && 0 < p.readSize <= p.inCap && read <= p.pkgSize
    requires Whole(read, p.readSize) || read == p.pkgSize
    ensures var f := Fetch(p, v, read, 0);
            && f != Stop(true)
            && (f.Got? ==> read < d <= p.pkgSize < 0x8000_0000 + read && |f.plain| == d - read <= p.readSize)
            && (f.Got? && d < p.pkgSize ==> d == read + p.readSize && Whole(read, p.readSize) && Whole(d, p.readSize))
  {
    d := read + Min(p.readSize, p.pkgSize - read);
    WholeSum(p.readSize, read, p.readSize);
  }

  /** A round that starts with an empty buffer. */
  lemma CleanRound<Z(!new), V(!new)>(p: Pass<State<Z>, V>, inf: Inflater<Z>, s: State<Z>, v: V, read: nat, pos: nat,
                                     out: seq<seq<Byte>>) returns (go: bool, d: nat, v': V, r: Inner<State<Z>>)
    requires GzipRun(p, inf) && 0 < p.readSize <= p.inCap && read <= p.pkgSize && pos < p.rawSize
    requires Whole(read, p.readSize) || read == p.pkgSize
    ensures !go ==> !Process(p, s, v, read, [], pos, out).Overrun?
    ensures go ==> read < d <= p.pkgSize < 0x8000_0000 + read && |r.rest| <= d && pos < r.pos <= p.rawSize
    ensures go && d < p.pkgSize ==> d == read + p.readSize && Whole(d, p.readSize)
    ensures go ==> Process(p, s, v, read, [], pos, out) == Process(p, r.st, v', d, r.rest, r.pos, r.out)
    ensures go ==> r.pos == p.rawSize || r.rest == [] || (Waits(p, r.st, r.pos) && |r.rest| < d - read)
    ensures go && d < p.pkgSize ==> r.pos - pos <= BUF_SIZE * (d - read - |r.rest|)
  {
    hide DecodeAll, Advance, Fetch, GzipStep, Waits, Process, OneRound, AfterRead, Bounded;
    d := CleanFetch(p, v, read);
    var f := Fetch(p, v, read, 0);
    go, v', r := f.Got?, v, Inner(Error, s, [], 0, 0, []);
    var plain := if go then f.plain else [];
    assert [] + plain == plain;
    if go {
      v', r := f.v, DecodeAll(p, s, plain, read, pos, out);
      InnerBounds(p, inf, s, plain, read, pos, out);
    }
    RoundTurns(p, s, v, read, [], pos, out, go, v', plain, d, plain, r);
    go := go && r.rc != Error && r.pos > pos;
  }

  /** In the waiting state a next read that does not fit makes an overrun of that kind. */
  lemma OverrunFound<Z(!new), V(!new)>(p: Pass<State<Z>, V>, s: State<Z>, v: V, read: nat, d: nat, left: nat, pos: nat)
    requires KeepsLength(p.cipher) && 0 < p.readSize && p.pkgSize < 0x8000_0000 + read
    requires read > 0 ==> p.pkgSize < 0x8000_0000
    requires read < d <= p.pkgSize && (d < p.pkgSize ==> d == read + p.readSize && Whole(d, p.readSize))
    requires 0 < left < d - read && Waits(p, s, pos) && 0 < pos
    requires d < p.pkgSize ==> pos <= BUF_SIZE * (d - left)
    requires Fetch(p, v, d, left) == Stop(true)
    ensures OverrunAt(p.inCap, p.readSize, p.pkgSize, p.rawSize, d - left, d)
  {
  }

  /** Every overrun comes about that way. */
  lemma {:induction false} OverrunShape<Z(!new), V(!new)>(p: Pass<State<Z>, V>, inf: Inflater<Z>, s: State<Z>, v: V,
      read: nat, pos: nat, out: seq<seq<Byte>>) returns (g: nat, d: nat)
    requires GzipRun(p, inf) && 0 < p.readSize <= p.inCap && read <= p.pkgSize && pos <= p.rawSize
    requires Whole(read, p.readSize) || read == p.pkgSize
    requires read < p.pkgSize ==> pos <= BUF_SIZE * read
    requires read > 0 ==> p.pkgSize < 0x8000_0000
    requires Process(p, s, v, read, [], pos, out).Overrun?
    ensures OverrunAt(p.inCap, p.readSize, p.pkgSize, p.rawSize, g, d)
    decreases p.rawSize - pos
  {
    hide DecodeAll, Advance, Process, GzipStep, Bounded, Fetch, OverrunAt, KeepsLength;
    g, d := 0, 0;
    if pos == p.rawSize {
      ProcessEnds(p, s, v, read, [], pos, out);
    } else {
      var go, v', r;
      go, d, v', r := CleanRound(p, inf, s, v, read, pos, out);
      if r.pos == p.rawSize {
        ProcessEnds(p, r.st, v', d, r.rest, r.pos, r.out);
      } else if r.rest == [] {
        g, d := OverrunShape(p, inf, r.st, v', d, r.pos, r.out);
      } else {
        WaitingEnds(p, inf, r.st, v', d, r.rest, r.pos, r.out);
        OverrunFound(p, r.st, v', read, d, |r.rest|, r.pos);
        g := d - |r.rest|;
      }
    }
  }

  // The sizes for which there is such a way

  /** Within each read, the taken bytes that leave too much pending: at most this many. */
  function RiskWidth(inCap: nat, readSize: nat): int { 2 * readSize - inCap - 1 }

  /** The most bytes that can be taken in an overrun; 0 when there is none. */
  function MostTaken(inCap: nat, readSize: nat, pkgSize: nat): nat
    requires 0 < readSize <= inCap
  {
    var m, w := pkgSize - inCap - 1, RiskWidth(inCap, readSize);
    if m < 1 || w < 1 then 0
    else
      var e := AlignDown(m, readSize);
      if m == e then e - readSize + w else Min(m, e + w)
  }

  /** Package and image sizes with which a gzip pass can overrun the input buffer. */
  predicate Risky(inCap: nat, readSize: nat, pkgSize: nat, rawSize: nat)
    requires 0 < readSize <= inCap
  {
    var g := MostTaken(inCap, readSize, pkgSize);
    0 < g && pkgSize < 0x8000_0000 && 2 <= rawSize <= BUF_SIZE * g + REMAIN_SIZE - 1
  }

  lemma OverrunIsRisky(inCap: nat, readSize: nat, pkgSize: nat, rawSize: nat, g: nat, d: nat)
    requires 0 < readSize <= inCap && OverrunAt(inCap, readSize, pkgSize, rawSize, g, d)
    ensures Risky(inCap, readSize, pkgSize, rawSize)
  {
    var m, w := pkgSize - inCap - 1, RiskWidth(inCap, readSize);
    var e := AlignDown(m, readSize);
    assert 1 <= g - (d - readSize) <= w && g <= m;
    WholeSum(readSize, d - readSize, readSize);
    if d - readSize < e {
      WholeApart(d - readSize, e, readSize);
    } else if e < d - readSize {
      WholeApart(e, d - readSize, readSize);
    }
    assert g <= MostTaken(inCap, readSize, pkgSize);
  }

  /** With a buffer of one read, as gzip builds have it, what is risky can be read off the header. */
  lemma OneReadRisk(size: nat, pkgSize: nat, rawSize: nat)
    requires 2 <= size
    ensures var m := pkgSize - size - 1;
            Risky(size, size, pkgSize, rawSize) <==>
            && 1 <= m && pkgSize < 0x8000_0000
            && 2 <= rawSize <= BUF_SIZE * (if m % size == 0 then m - 1 else m) + REMAIN_SIZE - 1
  {
    var m := pkgSize - size - 1;
    if 1 <= m {
      AlignDownMod(m, size);
    }
  }

  /** No inflater and no body, however corrupt, overruns the input buffer outside these sizes. */
  lemma SafeSizes<Z(!new), V(!new)>(p: Pass<State<Z>, V>, inf: Inflater<Z>)
    requires GzipRun(p, inf) && 0 < p.readSize <= p.inCap
    requires !Risky(p.inCap, p.readSize, p.pkgSize, p.rawSize)
    ensures !RunPass(p).Overrun?
  {
    hide Process, Bounded, KeepsLength, GzipCodec, OverrunAt, Risky;
    if RunPass(p).Overrun? {
      var g, d := OverrunShape(p, inf, p.codec.init, p.cipher.init, 0, 0, []);
      OverrunIsRisky(p.inCap, p.readSize, p.pkgSize, p.rawSize, g, d);
    }
  }

  /** A buffer that takes one read behind what the last one may leave is never overrun. */
  lemma GzipNeverOverruns<Z(!new), V(!new)>(p: Pass<State<Z>, V>, inf: Inflater<Z>)
    requires GzipRun(p, inf) && 0 < p.readSize <= p.inCap && 2 * p.readSize <= p.inCap + 1
    ensures !RunPass(p).Overrun?
  {
    SafeSizes(p, inf);
  }

  /** Nor is any buffer by a package that fits it, but for one byte. */
  lemma SmallPackagesFit<Z(!new), V(!new)>(p: Pass<State<Z>, V>, inf: Inflater<Z>)
    requires GzipRun(p, inf) && 0 < p.readSize <= p.inCap && p.pkgSize <= p.inCap + 1
    ensures !RunPass(p).Overrun?
  {
    SafeSizes(p, inf);
  }
}
