/** What the package check and the destination check say about the bytes they looked at, and which
    changes they notice. */
module Detection {
  import opened Bits
  import opened Storage
  import opened Crc
  import opened CrcTheory
  import opened PatchSpec
  import opened StreamSpec
  import opened FwInfo
  import opened ReleaseSpec

  const FRONT := HEADER_SIZE - 4   // the bytes that the header CRC covers

  lemma LeInjective(x: U32, y: U32)
    requires Le(4, x) == Le(4, y)
    ensures x == y
  {
    hide Le;
    WordOf(x);
    WordOf(y);
  }

  /** The header CRC closes the header. */
  lemma EncodeEnds(h: FwInfo)
    requires WellSized(h)
    ensures Encode(h)[FRONT..] == Le(4, h.hdrCrc)
  {
    hide Le, Sum, FrontOf;
    JoinAppend(FrontOf(h), [Le(4, h.hdrCrc)]);
    JoinOne(Le(4, h.hdrCrc));
  }

  /** Header bytes are accepted exactly when they start with the magic word and end with the CRC of what
      lies before. */
  lemma HeaderAccepted(b: seq<Byte>)
    requires |b| == HEADER_SIZE
    ensures InfoOk(Decode(b)) <==> NameIs(Decode(b).magic, Ascii("RBL")) && b[FRONT..] == Le(4, Crc32(b[..FRONT]))
  {
    hide Le, Encode, Decode, Crc32, NameIs;
    var h := Decode(b);
    EncodeDecode(b);
    EncodeEnds(h);
    if b[FRONT..] == Le(4, Crc32(b[..FRONT])) {
      LeInjective(Crc32(b[..FRONT]), h.hdrCrc);
    }
  }

  /** No accepted header stays accepted with one byte changed. */
  lemma HeaderChange(b: seq<Byte>, i: nat, x: Byte)
    requires |b| == HEADER_SIZE && InfoOk(Decode(b)) && i < HEADER_SIZE && x != b[i]
    ensures !InfoOk(Decode(b[i := x]))
  {
    hide Le, Decode, Crc32, NameIs, InfoOk;
    var c := b[i := x];
    HeaderAccepted(b);
    HeaderAccepted(c);
    if i < FRONT {
      assert c[..FRONT] == b[..FRONT][i := x] && c[FRONT..] == b[FRONT..];
      ChangeDetected(b[..FRONT], i, x);
      if InfoOk(Decode(c)) {
        LeInjective(Crc32(b[..FRONT]), Crc32(c[..FRONT]));
      }
    } else {
      assert c[..FRONT] == b[..FRONT];
      assert c[FRONT..][i - FRONT] == x && b[FRONT..][i - FRONT] == b[i];
    }
  }

  /** Nor does a storage range with the right CRC. */
  lemma RangeChange(m: seq<Byte>, off: nat, size: nat, crc: U32, i: nat, x: Byte)
    requires RangeCrcOk(m, off, size, crc) && off <= i < off + size
    ensures i < |m|
    ensures x != m[i] ==> !RangeCrcOk(m[i := x], off, size, crc)
  {
    hide Crc32;
    if x != m[i] {
      var range := m[off..off + size];
      assert m[i := x][off..off + size] == range[i - off := x];
      ChangeDetected(range, i - off, x);
    }
  }

  /** What an accepted package is: its header as read, and a body inside the partition with the CRC announced. */
  lemma CheckedMeans<S(!new), V(!new)>(env: Env<S, V>, m: seq<Byte>, h: FwInfo)
    requires EnvOk(env) && Check(env, m) == Some(h)
    ensures WellSized(h) && InfoOk(h) && HEADER_SIZE + h.pkgSize <= |m| && m[..HEADER_SIZE] == Encode(h)
    ensures Crc32(m[HEADER_SIZE..HEADER_SIZE + h.pkgSize]) == h.pkgCrc
  {
    hide Crc32, Encode, Decode, InfoOk, AppCrcOk;
    EncodeDecode(m[..HEADER_SIZE]);
    if h.pkgSize == 0 {
      assert m[HEADER_SIZE..HEADER_SIZE] == [];
    }
  }

  /** A package that is accepted is rejected with any one byte of its header or body changed. */
  lemma CheckRejectsChange<S(!new), V(!new)>(env: Env<S, V>, m: seq<Byte>, h: FwInfo, i: nat, x: Byte)
    requires EnvOk(env) && Check(env, m) == Some(h) && i < HEADER_SIZE + h.pkgSize
    ensures i < |m|
    ensures x != m[i] ==> Check(env, m[i := x]) == None
  {
    hide Crc32, Encode, Decode, InfoOk, AppCrcOk, RangeCrcOk;
    CheckedMeans(env, m, h);
    if x != m[i] && i < HEADER_SIZE {
      assert m[i := x][..HEADER_SIZE] == m[..HEADER_SIZE][i := x];
      HeaderChange(m[..HEADER_SIZE], i, x);
    } else if x != m[i] {
      assert m[i := x][..HEADER_SIZE] == m[..HEADER_SIZE];
      RangeChange(m, HEADER_SIZE, h.pkgSize, h.pkgCrc, i, x);
    }
  }

  /** What a header promises of a partition that carries it at the tail. */
  predicate Carries(m: seq<Byte>, h: FwInfo) {
    && WellSized(h) && InfoOk(h) && |m| >= HEADER_SIZE && m[|m| - HEADER_SIZE..] == Encode(h)
    && (VerifyBits(h) == VERIFY_CRC ==> h.rawSize <= |m| && Crc32(m[..h.rawSize]) == h.rawCrc)
  }

  /** Verification succeeds exactly when the partition carries a sound header at its tail and, if that header
      asks for it, an image in front that lies in the partition and has the CRC announced. */
  lemma VerifiedMeans(m: seq<Byte>, h: FwInfo)
    ensures Verified(m) == Some(h) <==> Carries(m, h)
  {
    hide Crc32, Encode, Decode, InfoOk, VerifyBits;
    if |m| >= HEADER_SIZE {
      var tail := m[|m| - HEADER_SIZE..];
      EncodeDecode(tail);
      if WellSized(h) && tail == Encode(h) {
        DecodeEncode(h);
      }
      if h.rawSize <= |m| {
        assert m[0..h.rawSize] == m[..h.rawSize];
        assert h.rawSize == 0 ==> m[..h.rawSize] == [];
      }
    }
  }

  /** A verified partition no longer verifies with one byte of its tail header changed, nor, under a header
      that asks for the check, with one byte of its image changed. */
  lemma VerifiedRejectsChange(m: seq<Byte>, h: FwInfo, i: nat, x: Byte)
    requires Verified(m) == Some(h) && i < |m| && x != m[i]
    requires |m| - HEADER_SIZE <= i || (VerifyBits(h) == VERIFY_CRC && i < h.rawSize)
    ensures Verified(m[i := x]) == None
  {
    hide Crc32, Encode, Decode, InfoOk, RangeCrcOk, VerifyBits;
    var n := |m| - HEADER_SIZE;
    var c := m[i := x];
    if n <= i {
      assert c[n..] == m[n..][i - n := x];
      HeaderChange(m[n..], i - n, x);
    } else {
      assert c[n..] == m[n..];
      RangeChange(m, 0, h.rawSize, h.rawCrc, i, x);
    }
  }
}
