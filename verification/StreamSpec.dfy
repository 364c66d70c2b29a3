/** The streaming decode pipeline as functions: the two nested loops of read, decrypt, decode and
    consume, the step contract of a codec, and the theorem that streaming is one-shot decoding. */
module StreamSpec {
  import opened Bits
  import opened Storage

  const HEADER_SIZE := 96
  const BUF_SIZE := 4096

  datatype Rc = Ok | NoSpace | Error
  datatype Purpose = ForWrite | ForCrc

  /** What a decode call is told: package length, bytes consumed before, output still wanted. */
  datatype Ctx = Ctx(total: nat, consumed: nat, rawRemaining: nat, purpose: Purpose)

  datatype Step<+S> = Step(rc: Rc, st: S, consumed: nat, output: seq<Byte>)

  /** A decoder: state, buffered input, output capacity and context in, one step out. */
  datatype Codec<!S> = Codec(init: S, step: (S, seq<Byte>, nat, Ctx) -> Step<S>)

  /** A stateful decryptor. */
  datatype Cipher<!V> = Cipher(init: V, decrypt: (V, seq<Byte>) -> (V, seq<Byte>))

  /** One pass over a package: source partition, sizes from the header, buffer sizes, algorithms and
      where the output goes (`sink` is the destination size, absent in a CRC pass). */
  datatype Pass<!S, !V> = Pass(src: seq<Byte>, pkgSize: U32, rawSize: U32, inCap: nat, readSize: nat,
                               codec: Codec<S>, cipher: Cipher<V>, purpose: Purpose, sink: Sink)

  datatype Sink = Discard | Upto(size: nat)

  predicate Takes(sink: Sink, pos: nat, len: nat) {
    match sink
    case Discard => true
    case Upto(size) => size > 0 && pos + len <= size
  }

  function Min(a: nat, b: nat): nat { if a < b then a else b }

  /** The chunks handed to the consumer, put together. */
  function Flatten(chunks: seq<seq<Byte>>): seq<Byte> {
    if chunks == [] then [] else Flatten(chunks[..|chunks| - 1]) + chunks[|chunks| - 1]
  }

  lemma FlattenAppend(chunks: seq<seq<Byte>>, chunk: seq<Byte>)
    ensures Flatten(chunks + [chunk]) == Flatten(chunks) + chunk
  {
    assert (chunks + [chunk])[..|chunks|] == chunks;
  }

  ghost predicate KeepsLength<V(!new)>(c: Cipher<V>) {
    forall v, x :: |c.decrypt(v, x).1| == |x|
  }

  // Inner loop

  datatype Inner<+S> = Inner(rc: Rc, st: S, rest: seq<Byte>, consumed: nat, pos: nat, out: seq<seq<Byte>>)

  /** One round of the inner loop: it goes on with what was taken and produced, or it ends. */
  datatype Move<+S> = Go(st: S, taken: nat, output: seq<Byte>) | Halt(rc: Rc, st: S)

  function Advance<S, V>(p: Pass<S, V>, st: S, input: seq<Byte>, consumed: nat, pos: nat): (m: Move<S>)
    requires pos <= p.rawSize
    ensures m.Go? ==> m.taken <= |input| && pos + |m.output| <= p.rawSize && (m.taken > 0 || |m.output| > 0)
  {
    if pos == p.rawSize || (input == [] && consumed < p.pkgSize) then Halt(Ok, st)
    else
      var cap := Min(p.rawSize - pos, BUF_SIZE);
      var r := p.codec.step(st, input, cap, Ctx(p.pkgSize, consumed, p.rawSize - pos, p.purpose));
      if r.rc != Ok then Halt(r.rc, r.st)
      else if r.consumed > |input| || |r.output| > cap || (r.consumed == 0 && |r.output| == 0) then Halt(Ok, r.st)
      else if !Takes(p.sink, pos, |r.output|) then Halt(Error, r.st)
      else Go(r.st, r.consumed, r.output)
  }

  /** Decodes buffered input until it runs dry, an error comes or the output budget is spent; `out`
      collects the chunks handed to the consumer. */
  function DecodeAll<S, V>(p: Pass<S, V>, st: S, input: seq<Byte>, consumed: nat, pos: nat,
                           out: seq<seq<Byte>>): (r: Inner<S>)
    requires pos <= p.rawSize
    ensures pos <= r.pos <= p.rawSize && |r.rest| <= |input|
    ensures r.consumed + |r.rest| == consumed + |input|
    decreases p.rawSize - pos + |input|
  {
    match Advance(p, st, input, consumed, pos)
    case Halt(rc, st') => Inner(rc, st', input, consumed, pos, out)
    case Go(st', taken, output) =>
      DecodeAll(p, st', input[taken..], consumed + taken, pos + |output|, out + [output])
  }

  /** One round of the inner loop does not change what the loop comes to. */
  lemma DecodeTurns<S, V>(p: Pass<S, V>, st: S, input: seq<Byte>, consumed: nat, pos: nat, out: seq<seq<Byte>>,
                          m: Move<S>, input': seq<Byte>, consumed': nat, pos': nat, out': seq<seq<Byte>>)
    requires pos <= p.rawSize && m == Advance(p, st, input, consumed, pos)
    requires m.Go? ==> input' == input[m.taken..] && consumed' == consumed + m.taken
                       && pos' == pos + |m.output| && out' == out + [m.output]
    requires m.Halt? ==> (input', consumed', pos', out') == (input, consumed, pos, out)
    ensures pos' <= p.rawSize
    ensures DecodeAll(p, st, input, consumed, pos, out) ==
            if m.Go? then DecodeAll(p, m.st, input', consumed', pos', out')
            else Inner(m.rc, m.st, input', consumed', pos', out')
  {
  }

  // Outer loop

  /** How a pass ends; `Overrun` stands for writing past the end of the input buffer. */
  datatype Outcome = Done(chunks: seq<seq<Byte>>) | Failed(chunks: seq<seq<Byte>>) | Overrun(chunks: seq<seq<Byte>>)

  /** One read with decryption, or the reason why the pass ends here. */
  datatype Fetched<+V> = Got(v: V, plain: seq<Byte>) | Stop(overrun: bool)

  function Fetch<S(!new), V(!new)>(p: Pass<S, V>, v: V, read: nat, buffered: nat): (f: Fetched<V>)
    requires KeepsLength(p.cipher) && read <= p.pkgSize
    ensures f.Got? ==> read + |f.plain| <= p.pkgSize && buffered + |f.plain| <= buffered + p.readSize
  {
    var remain := ToInt32(p.pkgSize - read);
    var n := if remain > 0 then Min(p.readSize, remain) else 0;
    if remain < 0 || (remain == 0 && buffered == 0) then Stop(false)
    else if remain == 0 then Got(v, [])
    else if buffered + n > p.inCap then Stop(true)
    else if !RangeOk(p.src, HEADER_SIZE + read, n) then Stop(false)
    else
      var d := p.cipher.decrypt(v, p.src[HEADER_SIZE + read..HEADER_SIZE + read + n]);
      Got(d.0, d.1)
  }

  /** One round of the outer loop: the state for the next one, or the end of the pass. */
  datatype Round<+S, +V> =
    | Next(st: S, v: V, read: nat, rest: seq<Byte>, pos: nat, out: seq<seq<Byte>>)
    | End(outcome: Outcome)

  function OneRound<S(!new), V(!new)>(p: Pass<S, V>, st: S, v: V, read: nat, input: seq<Byte>, pos: nat,
                                      out: seq<seq<Byte>>): (r: Round<S, V>)
    requires KeepsLength(p.cipher) && |input| <= read <= p.pkgSize
    ensures r.Next? ==> pos < r.pos <= p.rawSize && |r.rest| <= r.read <= p.pkgSize
  {
    if pos >= p.rawSize then End(Done(out))
    else
      match Fetch(p, v, read, |input|)
      case Stop(overrun) => End(if overrun then Overrun(out) else Failed(out))
      case Got(v', plain) =>
        var r := DecodeAll(p, st, input + plain, read - |input|, pos, out);
        if r.rc == Error || r.pos == pos then End(Failed(r.out))
        else Next(r.st, v', read + |plain|, r.rest, r.pos, r.out)
  }

  /** The pass from a state between two reads: `read` body bytes read so far, `input` of them still
      buffered, `pos` bytes put out as the chunks `out`. */
  function Process<S(!new), V(!new)>(p: Pass<S, V>, st: S, v: V, read: nat, input: seq<Byte>, pos: nat,
                                     out: seq<seq<Byte>>): Outcome
    requires KeepsLength(p.cipher) && |input| <= read <= p.pkgSize
    decreases p.rawSize - pos
  {
    match OneRound(p, st, v, read, input, pos, out)
    case End(o) => o
    case Next(st', v', read', rest, pos', out') => Process(p, st', v', read', rest, pos', out')
  }

  lemma FetchFits<S(!new), V(!new)>(p: Pass<S, V>, st: S, v: V, read: nat, input: seq<Byte>, pos: nat,
                                    out: seq<seq<Byte>>)
    requires KeepsLength(p.cipher) && |input| <= read <= p.pkgSize && pos < p.rawSize
    requires !Process(p, st, v, read, input, pos, out).Overrun?
    ensures Fetch(p, v, read, |input|) != Stop(true)
  {
  }

  /** What a pass comes to after a read: `all` is the pending input with the new piece. */
  function AfterRead<S(!new), V(!new)>(p: Pass<S, V>, st: S, v: V, read: nat, all: seq<Byte>, pos: nat,
                                       out: seq<seq<Byte>>): Outcome
    requires KeepsLength(p.cipher) && |all| <= read <= p.pkgSize && pos <= p.rawSize
  {
    var r := DecodeAll(p, st, all, read - |all|, pos, out);
    if r.rc == Error || r.pos == pos then Failed(r.out)
    else Process(p, r.st, v, read, r.rest, r.pos, r.out)
  }

  lemma FetchTurns<S(!new), V(!new)>(p: Pass<S, V>, st: S, v: V, read: nat, input: seq<Byte>, pos: nat,
                                     out: seq<seq<Byte>>, go: bool, v': V, plain: seq<Byte>, read': nat, all: seq<Byte>)
    requires KeepsLength(p.cipher) && |input| <= read <= p.pkgSize && pos < p.rawSize
    requires Fetch(p, v, read, |input|) == if go then Got(v', plain) else Stop(false)
    requires go ==> all == input + plain && read' == read + |plain|
    ensures go ==> |all| <= read' <= p.pkgSize
    ensures Process(p, st, v, read, input, pos, out) ==
            if go then AfterRead(p, st, v', read', all, pos, out) else Failed(out)
  {
    hide DecodeAll, Advance, Fetch;
  }

  lemma DecodeEnds<S(!new), V(!new)>(p: Pass<S, V>, st: S, v: V, read: nat, all: seq<Byte>, pos: nat,
                                     out: seq<seq<Byte>>, consumed: nat, r: Inner<S>)
    requires KeepsLength(p.cipher) && |all| <= read <= p.pkgSize && pos <= p.rawSize && consumed == read - |all|
    requires DecodeAll(p, st, all, consumed, pos, out) == r
    ensures |r.rest| <= read
    ensures AfterRead(p, st, v, read, all, pos, out) ==
            if r.rc != Error && r.pos > pos then Process(p, r.st, v, read, r.rest, r.pos, r.out) else Failed(r.out)
  {
    hide DecodeAll, Advance, Fetch, Process, OneRound;
  }

  lemma ProcessEnds<S(!new), V(!new)>(p: Pass<S, V>, st: S, v: V, read: nat, input: seq<Byte>, pos: nat,
                                      out: seq<seq<Byte>>)
    requires KeepsLength(p.cipher) && |input| <= read <= p.pkgSize && pos >= p.rawSize
    ensures Process(p, st, v, read, input, pos, out) == Done(out)
  {
  }

  /** One round of the outer loop does not change what the pass comes to. */
  lemma RoundTurns<S(!new), V(!new)>(p: Pass<S, V>, st: S, v: V, read: nat, input: seq<Byte>, pos: nat,
                                     out: seq<seq<Byte>>, go: bool, v': V, plain: seq<Byte>, read': nat, all: seq<Byte>,
                                     r: Inner<S>)
    requires KeepsLength(p.cipher) && |input| <= read <= p.pkgSize && pos < p.rawSize
    requires Fetch(p, v, read, |input|) == if go then Got(v', plain) else Stop(false)
    requires go ==>
      && all == input + plain && read' == read + |plain|
      && r == DecodeAll(p, st, all, read' - |all|, pos, out)
    ensures go ==> |r.rest| <= read' <= p.pkgSize
    ensures Process(p, st, v, read, input, pos, out) ==
            if !go then Failed(out)
            else if r.rc != Error && r.pos > pos then Process(p, r.st, v', read', r.rest, r.pos, r.out)
            else Failed(r.out)
  {
    hide Process, OneRound, DecodeAll, Advance, Fetch, AfterRead;
    FetchTurns(p, st, v, read, input, pos, out, go, v', plain, read', all);
    if go {
      DecodeEnds(p, st, v', read', all, pos, out, read' - |all|, r);
    }
  }

  function RunPass<S(!new), V(!new)>(p: Pass<S, V>): Outcome
    requires KeepsLength(p.cipher)
  {
    Process(p, p.codec.init, p.cipher.init, 0, [], 0, [])
  }
}
