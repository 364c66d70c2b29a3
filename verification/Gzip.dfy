/** The gzip adapter: output in multiples of 32 bytes, the rest carried to the next call. */
module Gzip {
  import opened Bits
  import opened Storage
  import opened StreamSpec

  const REMAIN_SIZE := 32

  /** One call of a third-party inflater: input taken, output produced, or failure. */
  datatype Inflated<+Z> = Inflated(z: Z, taken: nat, output: seq<Byte>, failed: bool)

  type Inflater<!Z> = (Z, seq<Byte>, nat) -> Inflated<Z>

  /** What zlib promises of every call: it stays inside the buffers it is given. */
  ghost predicate Bounded<Z(!new)>(inf: Inflater<Z>) {
    forall z, input, cap :: inf(z, input, cap).taken <= |input| && |inf(z, input, cap).output| <= cap
  }

  /** Adapter state: the inflater, the bytes held back, and the input the inflater left over. */
  datatype State<+Z> = State(z: Z, remain: seq<Byte>, availIn: nat)

  predicate LastChunk(input: seq<Byte>, ctx: Ctx) {
    ctx.total > 0 && ctx.consumed + |input| >= ctx.total
  }

  function StartOf<Z>(z: Z): State<Z> { State(z, [], 0) }

  /** What a call gets from the inflater; no input means a flush of what is held back. */
  function Inflate<Z>(inf: Inflater<Z>, s: State<Z>, input: seq<Byte>, cap: nat): (r: Inflated<Z>)
    requires |s.remain| <= cap
  {
    if input == [] then Inflated(s.z, 0, [], false) else inf(s.z, input, cap - |s.remain|)
  }

  /** The end of the stream, as far as the adapter can tell: output room was left. */
  predicate AtEnd<Z>(inf: Inflater<Z>, s: State<Z>, input: seq<Byte>, cap: nat)
    requires |s.remain| <= cap
  {
    input == [] || |Inflate(inf, s, input, cap).output| < cap - |s.remain|
  }

  /** Length of the 0xFF padding behind `total` bytes. */
  function PadLength(total: nat, end: bool, last: bool, purpose: Purpose, cap: nat): (n: nat)
    ensures n < REMAIN_SIZE
  {
    var extra := total % REMAIN_SIZE;
    if end && extra > 0 && purpose == ForWrite && last && total - extra + REMAIN_SIZE <= cap then REMAIN_SIZE - extra
    else 0
  }

  /** The padding fills the last chunk of a write up to a whole number of 32 bytes when that fits; otherwise
      there is none. */
  lemma PadExact(total: nat, end: bool, last: bool, purpose: Purpose, cap: nat)
    ensures var n := PadLength(total, end, last, purpose, cap);
            if end && last && purpose == ForWrite && AlignUp(total, REMAIN_SIZE) <= cap
            then total + n == AlignUp(total, REMAIN_SIZE) else n == 0
  {
    hide AlignDown;
    AlignDownMod(total, REMAIN_SIZE);
    var q := total - total % REMAIN_SIZE;
    AlignDownMod(q, REMAIN_SIZE);
    if total % REMAIN_SIZE == 0 {
      AlignWhole(total, REMAIN_SIZE);
    } else {
      NextMultiple(total, q, REMAIN_SIZE);
    }
  }

  lemma NextMultiple(x: nat, q: nat, s: nat)
    requires s > 0 && Whole(q, s) && q < x < q + s
    ensures AlignUp(x, s) == q + s
  {
    WholeSum(q, s, s);
    AlignUpLeast(x, s, q + s);
    if AlignUp(x, s) < q + s {
      WholeApart(q, AlignUp(x, s), s);
    }
  }

  function Padding<Z>(inf: Inflater<Z>, s: State<Z>, input: seq<Byte>, cap: nat, ctx: Ctx): nat
    requires |s.remain| <= cap
  {
    PadLength(|s.remain| + |Inflate(inf, s, input, cap).output|, AtEnd(inf, s, input, cap), LastChunk(input, ctx),
              ctx.purpose, cap)
  }

  /** The answer to a call: `all` is what there is to hand out, of which whole multiples go now, and
      everything with padding behind it at the end. */
  function Settle<Z>(z: Z, all: seq<Byte>, end: bool, pad: nat, inLen: nat, availIn: nat): Step<State<Z>> {
    var aligned := |all| - |all| % REMAIN_SIZE;
    var out := if end then all + Fill(pad) else all[..aligned];
    var s' := State(z, if end then [] else all[aligned..], availIn);
    var consumed := Wrap32(inLen - availIn);
    if consumed == 0 && |out| == 0 && !end then Step(NoSpace, s', 0, [])
    else if |out| == 0 || (consumed == 0 && inLen > 0) then Step(Error, s', 0, [])
    else Step(Ok, s', consumed, out)
  }

  function GzipStep<Z>(inf: Inflater<Z>, s: State<Z>, input: seq<Byte>, cap: nat, ctx: Ctx): Step<State<Z>> {
    if |s.remain| > cap then Step(Error, s, 0, [])
    else if input == [] && (!LastChunk(input, ctx) || s.remain == []) then Step(NoSpace, s, 0, [])
    else
      var r := Inflate(inf, s, input, cap);
      if r.failed then Step(Error, s, 0, [])
      else
        Settle(r.z, s.remain + r.output, AtEnd(inf, s, input, cap), Padding(inf, s, input, cap, ctx), |input|,
               if input == [] then s.availIn else if r.taken <= |input| then |input| - r.taken else 0)
  }

  function GzipCodec<Z>(inf: Inflater<Z>, z: Z): Codec<State<Z>> {
    Codec(StartOf(z), (s: State<Z>, input: seq<Byte>, cap: nat, ctx: Ctx) => GzipStep(inf, s, input, cap, ctx))
  }

  // Conservation

  datatype Call = Call(input: seq<Byte>, cap: nat, ctx: Ctx)

  /** Nothing is lost or reordered in one call: held-back bytes and inflated bytes come out, or are
      held back, in order; at most 31 padding bytes follow, and only behind the last chunk of a write. */
  lemma StepConserves<Z>(inf: Inflater<Z>, s: State<Z>, k: Call)
    requires var r := GzipStep(inf, s, k.input, k.cap, k.ctx); r.rc != Error && |s.remain| < REMAIN_SIZE
    ensures |s.remain| <= k.cap
    ensures var r, pad := GzipStep(inf, s, k.input, k.cap, k.ctx), Padding(inf, s, k.input, k.cap, k.ctx);
            && |r.st.remain| < REMAIN_SIZE && pad < REMAIN_SIZE
            && r.output + r.st.remain == s.remain + Inflate(inf, s, k.input, k.cap).output + Fill(pad)
            && (pad > 0 ==> k.ctx.purpose == ForWrite && LastChunk(k.input, k.ctx) && r.st.remain == [])
  {
  }

  /** A run of calls: state reached, all output, everything inflated, padding of the last call. */
  datatype Trace<+Z> = Trace(st: State<Z>, emitted: seq<Byte>, inflated: seq<Byte>, pad: nat)

  /** No call of the run fails, and no call but the last is padded. */
  predicate Smooth<Z>(inf: Inflater<Z>, s: State<Z>, calls: seq<Call>) {
    calls == [] ||
    var init, k := calls[..|calls| - 1], calls[|calls| - 1];
    && Smooth(inf, s, init) && RunCalls(inf, s, init).pad == 0
    && GzipStep(inf, RunCalls(inf, s, init).st, k.input, k.cap, k.ctx).rc != Error
  }

  function RunCalls<Z>(inf: Inflater<Z>, s: State<Z>, calls: seq<Call>): Trace<Z> {
    if calls == [] then Trace(s, [], [], 0)
    else
      var t, k := RunCalls(inf, s, calls[..|calls| - 1]), calls[|calls| - 1];
      var r := GzipStep(inf, t.st, k.input, k.cap, k.ctx);
      if |t.st.remain| > k.cap then Trace(r.st, t.emitted + r.output, t.inflated, 0)
      else Trace(r.st, t.emitted + r.output, t.inflated + Inflate(inf, t.st, k.input, k.cap).output,
                 Padding(inf, t.st, k.input, k.cap, k.ctx))
  }

  /** Over any run of calls that do not fail, emitted bytes followed by the saved remainder are all
      inflated bytes in order, apart from fewer than 32 bytes of 0xFF behind a padded last chunk. */
  lemma {:induction false} RunConserves<Z>(inf: Inflater<Z>, s: State<Z>, calls: seq<Call>)
    requires Smooth(inf, s, calls) && |s.remain| < REMAIN_SIZE
    ensures var t := RunCalls(inf, s, calls);
            && t.emitted + t.st.remain == s.remain + t.inflated + Fill(t.pad)
            && |t.st.remain| < REMAIN_SIZE && t.pad < REMAIN_SIZE
            && (t.pad > 0 ==> calls != [] && calls[|calls| - 1].ctx.purpose == ForWrite)
  {
    if calls != [] {
      var init, k := calls[..|calls| - 1], calls[|calls| - 1];
      var t := RunCalls(inf, s, init);
      RunConserves(inf, s, init);
      StepConserves(inf, t.st, k);
      Reassociate(t.emitted, t.st.remain, s.remain, t.inflated,
                  GzipStep(inf, t.st, k.input, k.cap, k.ctx).output,
                  GzipStep(inf, t.st, k.input, k.cap, k.ctx).st.remain,
                  Inflate(inf, t.st, k.input, k.cap).output, Fill(Padding(inf, t.st, k.input, k.cap, k.ctx)));
    }
  }

  lemma Reassociate(emitted: seq<Byte>, rest: seq<Byte>, start: seq<Byte>, inflated: seq<Byte>,
                    output: seq<Byte>, rest': seq<Byte>, more: seq<Byte>, pad: seq<Byte>)
    requires emitted + rest == start + inflated + Fill(0) && output + rest' == rest + more + pad
    ensures emitted + output + rest' == start + (inflated + more) + pad
  {
    assert start + inflated + Fill(0) == start + inflated;
    assert emitted + output + rest' == emitted + (output + rest') == emitted + (rest + more + pad)
        == (emitted + rest) + more + pad;
  }
}
