/** A framed package that overruns the input buffer when it has fewer than two bytes more than two reads:
    a header split across two reads announces a length that wraps. */
module FramedOverrun {
  import opened Bits
  import opened Storage
  import opened StreamSpec
  import opened Ciphers
  import opened Codecs

  /** A block decoder that answers one byte to everything. */
  function OneByte(): BlockDecoder<()> {
    BlockDecoder((q: (), block: seq<Byte>) => (q, Block([7])), (q: (), block: seq<Byte>, size: U32) => (q, Block([7])))
  }

  /** A read that holds one good frame and three bytes of the next header. */
  function FirstRead(n: nat): (r: seq<Byte>)
    requires 8 <= n <= BUF_SIZE
    ensures |r| == n
  {
    [0, 0, (n - 7) / 256, (n - 7) % 256] + Fill(n - 7) + [0xFF, 0xFF, 0xFF]
  }

  function SecondRead(n: nat): (r: seq<Byte>)
    requires 0 < n
    ensures |r| == n
  {
    [0xFD] + seq(n - 1, _ => 0)
  }

  /** What the first read leaves: the start of a header. */
  const SPLIT: seq<Byte> := [0xFF, 0xFF, 0xFF]

  /** The good frame goes through; the split header waits. */
  lemma FirstFrames(n: nat, cap: nat)
    requires 8 <= n <= BUF_SIZE && 0 < cap
    ensures FramedStep(OneByte(), (), FirstRead(n), cap) == Step(Ok, (), n - 3, [7])
    ensures FirstRead(n)[n - 3..] == SPLIT
    ensures FramedStep(OneByte(), (), SPLIT, cap) == Step(NoSpace, (), 0, [])
  {
    BigEndianOfFour(FirstRead(n)[..FRAME_HEADER]);
  }

  /** The wrapped frame takes one byte; the header behind it waits for almost 2^32. */
  lemma SecondFrames(n: nat, cap: nat)
    requires 8 <= n <= BUF_SIZE && 0 < cap
    ensures var all := SPLIT + SecondRead(n);
            && FramedStep(OneByte(), (), all, cap) == Step(Ok, (), 1, [7])
            && FramedStep(OneByte(), (), all[1..], cap) == Step(NoSpace, (), 0, [])
  {
    var all := SPLIT + SecondRead(n);
    BigEndianOfFour(all[..FRAME_HEADER]);
    BigEndianOfFour(all[1..][..FRAME_HEADER]);
  }

  function WrapPass(src: seq<Byte>, inCap: nat, readSize: nat): Pass<(), ()>
    requires 3 * readSize < 0x1_0000_0000
  {
    Pass(src, 3 * readSize, BUF_SIZE, inCap, readSize, Framed((), OneByte()), Plain(()), ForCrc, Discard)
  }

  /** One frame goes through, and the rest of the input waits. */
  lemma OneFrame(p: Pass<(), ()>, input: seq<Byte>, taken: nat, consumed: nat, pos: nat, out: seq<seq<Byte>>)
    requires p.codec == Framed((), OneByte()) && p.sink == Discard && pos + 1 < p.rawSize
    requires 0 < taken < |input| && 0 < Min(p.rawSize - pos, BUF_SIZE) && 0 < Min(p.rawSize - pos - 1, BUF_SIZE)
    requires FramedStep(OneByte(), (), input, Min(p.rawSize - pos, BUF_SIZE)) == Step(Ok, (), taken, [7])
    requires FramedStep(OneByte(), (), input[taken..], Min(p.rawSize - pos - 1, BUF_SIZE)) == Step(NoSpace, (), 0, [])
    ensures DecodeAll(p, (), input, consumed, pos, out) ==
            Inner(NoSpace, (), input[taken..], consumed + taken, pos + 1, out + [[7]])
  {
    hide DecodeAll, FramedStep, OneByte;
    var m := Advance(p, (), input, consumed, pos);
    DecodeTurns(p, (), input, consumed, pos, out, m, input[taken..], consumed + taken, pos + 1, out + [[7]]);
    var m' := Advance(p, (), input[taken..], consumed + taken, pos + 1);
    DecodeTurns(p, (), input[taken..], consumed + taken, pos + 1, out + [[7]], m',
                input[taken..], consumed + taken, pos + 1, out + [[7]]);
  }

  lemma WrapFetches(p: Pass<(), ()>, read: nat, buffered: nat)
    requires p.cipher == Plain(()) && read + p.readSize <= p.pkgSize < 0x8000_0000 && 0 < p.readSize
    requires HEADER_SIZE + p.pkgSize <= |p.src|
    ensures KeepsLength(p.cipher)
    ensures Fetch(p, (), read, buffered) ==
            if buffered + p.readSize > p.inCap then Stop(true)
            else Got((), p.src[HEADER_SIZE + read..HEADER_SIZE + read + p.readSize])
  {
  }

  lemma ReadOverruns(p: Pass<(), ()>, read: nat, input: seq<Byte>, pos: nat, out: seq<seq<Byte>>)
    requires KeepsLength(p.cipher) && |input| <= read <= p.pkgSize && pos < p.rawSize
    requires Fetch(p, (), read, |input|) == Stop(true)
    ensures Process(p, (), (), read, input, pos, out).Overrun?
  {
    hide Fetch, DecodeAll;
  }

  /** A read that fits, behind which one frame goes through. */
  lemma OneFrameRound(p: Pass<(), ()>, read: nat, input: seq<Byte>, plain: seq<Byte>, taken: nat, pos: nat,
                      out: seq<seq<Byte>>)
    requires KeepsLength(p.cipher) && |input| <= read && read + |plain| <= p.pkgSize && pos + 1 < p.rawSize
    requires Fetch(p, (), read, |input|) == Got((), plain) && 0 < taken < |input| + |plain|
    requires var all := input + plain;
             DecodeAll(p, (), all, read - |input|, pos, out) ==
             Inner(NoSpace, (), all[taken..], read - |input| + taken, pos + 1, out + [[7]])
    ensures |input| + |plain| - taken <= read + |plain|
    ensures Process(p, (), (), read, input, pos, out) ==
            Process(p, (), (), read + |plain|, (input + plain)[taken..], pos + 1, out + [[7]])
  {
    hide Process, OneRound, DecodeAll, Advance, Fetch, AfterRead;
    var all := input + plain;
    RoundTurns(p, (), (), read, input, pos, out, true, (), plain, read + |plain|, all,
               DecodeAll(p, (), all, read - |input|, pos, out));
  }

  /** For every read size from 8 bytes on, a buffer of two reads with less than two bytes more is overrun by
      such a package, at the third read if not at the second. */
  lemma SplitHeaderOverruns(src: seq<Byte>, inCap: nat, readSize: nat)
    requires 8 <= readSize <= BUF_SIZE && readSize <= inCap < 2 * readSize + 2
    requires HEADER_SIZE + 3 * readSize <= |src|
    requires src[HEADER_SIZE..HEADER_SIZE + readSize] == FirstRead(readSize)
    requires src[HEADER_SIZE + readSize..HEADER_SIZE + 2 * readSize] == SecondRead(readSize)
    ensures var p := WrapPass(src, inCap, readSize); KeepsLength(p.cipher) && RunPass(p).Overrun?
  {
    hide Process, DecodeAll, FramedStep, OneByte, Framed, FirstRead, SecondRead, Plain, Fetch;
    var p, n := WrapPass(src, inCap, readSize), readSize;
    var first, all := FirstRead(n), SPLIT + SecondRead(n);
    WrapFetches(p, 0, 0);
    FirstFrames(n, BUF_SIZE);
    FirstFrames(n, BUF_SIZE - 1);
    OneFrame(p, first, n - 3, 0, 0, []);
    assert [] + first == first && [] + [[7]] == [[7]];
    assert p.codec.init == () && p.cipher.init == ();
    OneFrameRound(p, 0, [], first, n - 3, 0, []);
    WrapFetches(p, n, 3);
    if n + 3 > inCap {
      ReadOverruns(p, n, SPLIT, 1, [[7]]);
    } else {
      SecondFrames(n, BUF_SIZE - 1);
      SecondFrames(n, BUF_SIZE - 2);
      OneFrame(p, all, 1, n - 3, 1, [[7]]);
      OneFrameRound(p, n, SPLIT, SecondRead(n), 1, 1, [[7]]);
      WrapFetches(p, 2 * n, n + 2);
      ReadOverruns(p, 2 * n, all[1..], 2, [[7]] + [[7]]);
    }
  }
}
