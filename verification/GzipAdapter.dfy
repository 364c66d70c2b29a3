/** The gzip decompress handler with its remainder buffer, over caller-supplied arrays. */
module GzipAdapter {
  import opened Bits
  import opened Storage
  import opened StreamSpec
  import opened Gzip

  class Adapter<Z(!new)> {
    const inf: Inflater<Z>
    var strm: Z
    var availIn: U32
    const remainBuf: array<Byte>
    var remainLen: nat

    constructor (inf: Inflater<Z>, z: Z)
      ensures Valid() && fresh(remainBuf) && St() == StartOf(z) && this.inf == inf
    {
      this.inf, strm, availIn, remainLen := inf, z, 0, 0;
      remainBuf := new Byte[REMAIN_SIZE];
    }

    ghost predicate Valid()
      reads this
    {
      remainBuf.Length == REMAIN_SIZE && remainLen < REMAIN_SIZE
    }

    ghost function St(): State<Z>
      reads this, remainBuf
      requires Valid()
    {
      State(strm, remainBuf[..remainLen], availIn)
    }

    /** Inflates behind the bytes held back. */
    method Fill(input: array<Byte>, inLen: nat, output: array<Byte>, cap: nat) returns (r: Inflated<Z>)
      requires Valid() && Bounded(inf) && input != output && output != remainBuf
      requires inLen <= input.Length && remainLen <= cap <= output.Length
      modifies output
      ensures r == Inflate(inf, St(), input[..inLen], cap)
      ensures remainLen + |r.output| <= cap && r.taken <= inLen
      ensures output[..remainLen + |r.output|] == St().remain + r.output
    {
      ghost var given := input[..inLen];
      forall i | 0 <= i < remainLen {
        output[i] := remainBuf[i];
      }
      assert input[..inLen] == given;
      r := Inflated(strm, 0, [], false);
      if inLen == 0 {
        assert input[..inLen] == [];
      } else {
        r := inf(strm, input[..inLen], cap - remainLen);
        assert |r.output| <= cap - remainLen;
        forall i | 0 <= i < |r.output| {
          output[remainLen + i] := r.output[i];
        }
        assert input[..inLen] == given;
      }
    }

    /** Keeps the bytes behind the last whole multiple of 32 for the next call. */
    method Save(output: array<Byte>, from: nat, n: nat)
      requires Valid() && n < REMAIN_SIZE && from + n <= output.Length && output != remainBuf
      modifies remainBuf, this`remainLen
      ensures Valid() && remainLen == n && remainBuf[..remainLen] == output[from..from + n]
    {
      forall i | 0 <= i < n {
        remainBuf[i] := output[from + i];
      }
      remainLen := n;
    }

    /** The tail of the stream: pads it up to a multiple of 32 when asked and when there is room. */
    method Finish(output: array<Byte>, total: nat, cap: nat, pad: bool) returns (produced: nat)
      requires Valid() && total <= cap <= output.Length && output != remainBuf && remainLen == total % REMAIN_SIZE
      requires remainBuf[..remainLen] == output[total - remainLen..total]
      modifies output, this`remainLen
      ensures Valid() && remainLen == 0 && produced <= cap
      ensures var n := PadLength(total, true, true, if pad then ForWrite else ForCrc, cap);
              output[..produced] == old(output[..total]) + Storage.Fill(n)
    {
      var extra := remainLen;
      var aligned := total - extra;
      produced := aligned;
      if extra > 0 {
        if pad && aligned + REMAIN_SIZE <= cap {
          forall i | 0 <= i < extra {
            output[aligned + i] := remainBuf[i];
          }
          forall i | extra <= i < REMAIN_SIZE {
            output[aligned + i] := 0xFF;
          }
          produced := produced + REMAIN_SIZE;
        } else {
          produced := produced + extra;
        }
        remainLen := 0;
      }
    }

    /** Hands out whole multiples of 32 bytes and keeps the rest, or everything at the end. */
    method Emit(output: array<Byte>, total: nat, cap: nat, isEnd: bool, lastChunk: bool, purpose: Purpose)
        returns (produced: nat)
      requires Valid() && total <= cap <= output.Length && output != remainBuf
      modifies remainBuf, this`remainLen, output
      ensures Valid() && produced <= cap
      ensures var all := old(output[..total]);
              var n := PadLength(total, isEnd, lastChunk, purpose, cap);
              var aligned := total - total % REMAIN_SIZE;
              && output[..produced] == (if isEnd then all + Storage.Fill(n) else all[..aligned])
              && remainBuf[..remainLen] == if isEnd then [] else all[aligned..]
    {
      var newRemain := total % REMAIN_SIZE;
      Save(output, total - newRemain, newRemain);
      produced := total - newRemain;
      if isEnd {
        produced := Finish(output, total, cap, purpose == ForWrite && lastChunk);
      }
    }

    /** Closes a call: output, remainder, and the verdict on its progress. */
    method Close(output: array<Byte>, total: nat, cap: nat, isEnd: bool, lastChunk: bool, purpose: Purpose, inLen: U32)
      returns (rc: Rc, consumed: nat, produced: nat)
      requires Valid() && total <= cap <= output.Length && output != remainBuf
      modifies remainBuf, this`remainLen, output
      ensures Valid()
      ensures var t := Settle(strm, old(output[..total]), isEnd, PadLength(total, isEnd, lastChunk, purpose, cap),
                              inLen, availIn);
              && rc == t.rc && St() == t.st
              && (rc == Ok ==> produced <= cap && consumed == t.consumed && output[..produced] == t.output)
    {
      produced := Emit(output, total, cap, isEnd, lastChunk, purpose);
      consumed := Wrap32(inLen - availIn);
      rc := if consumed == 0 && produced == 0 && !isEnd then NoSpace
            else if produced == 0 || (consumed == 0 && inLen > 0) then Error
            else Ok;
    }

    /** The decompress handler. */
    method Decompress(input: array<Byte>, inLen: U32, output: array<Byte>, cap: U32, ctx: Ctx)
      returns (rc: Rc, consumed: nat, produced: nat)
      requires Valid() && Bounded(inf) && input != output && output != remainBuf && input != remainBuf
      requires inLen as nat <= input.Length && cap as nat <= output.Length
      modifies this, remainBuf, output
      ensures Valid()
      ensures var t := GzipStep(inf, old(St()), old(input[..inLen]), cap, ctx);
              && rc == t.rc && St() == t.st
              && (rc == Ok ==> produced <= cap && consumed == t.consumed && output[..produced] == t.output)
    {
      hide Settle, PadLength, Bounded;
      rc, consumed, produced := Error, 0, 0;
      var lastChunk := ctx.total > 0 && ctx.consumed + inLen >= ctx.total;
      if remainLen > cap {
        return;
      }
      if inLen == 0 && (!lastChunk || remainLen == 0) {
        rc := NoSpace;
        return;
      }
      ghost var s := St();
      var r := Fill(input, inLen, output, cap);
      if r.failed {
        return;
      }
      var total := remainLen + |r.output|;
      var isEnd := inLen == 0 || |r.output| < cap - remainLen;
      if inLen > 0 {
        availIn := inLen - r.taken;
      }
      strm := r.z;
      assert output[..total] == s.remain + r.output;
      rc, consumed, produced := Close(output, total, cap, isEnd, lastChunk, ctx.purpose, inLen);
    }
  }
}
