/** The 96-byte package header: the layout the boot loader reads, and the printer in the packaging tool. */
module FwInfo {
  import opened Bits
  import opened Storage
  import opened StreamSpec
  import opened Crc
  import opened PatchSpec

  // Little-endian words

  function Le(n: nat, x: nat): (r: seq<Byte>)
    ensures |r| == n
  {
    if n == 0 then [] else [x % 256] + Le(n - 1, x / 256)
  }

  function FromLe(b: seq<Byte>): (x: nat)
    ensures x < Pow256(|b|)
  {
    if b == [] then 0 else b[0] as int + 256 * FromLe(b[1..])
  }

  lemma {:induction false} LeRoundTrip(n: nat, x: nat)
    requires x < Pow256(n)
    ensures FromLe(Le(n, x)) == x
  {
    if n > 0 {
      LeRoundTrip(n - 1, x / 256);
    }
  }

  lemma {:induction false} FromLeRoundTrip(b: seq<Byte>)
    ensures Le(|b|, FromLe(b)) == b
  {
    if b != [] {
      FromLeRoundTrip(b[1..]);
      assert FromLe(b) % 256 == b[0] && FromLe(b) / 256 == FromLe(b[1..]);
    }
  }

  lemma LeTwo(n: nat, x: nat)
    ensures Le(n + 2, x) == [x % 256, x / 256 % 256] + Le(n, x / 0x1_0000)
  {
    hide Le;
    LeNext(n + 2, x);
    LeNext(n + 1, x / 256);
    assert x / 256 / 256 == x / 0x1_0000;
    assert [x % 256] + ([x / 256 % 256] + Le(n, x / 0x1_0000)) == [x % 256, x / 256 % 256] + Le(n, x / 0x1_0000);
  }

  /** Numbers of two and of four bytes, low byte first. */
  lemma LeDigits(x: nat)
    ensures Le(2, x) == [x % 256, x / 256 % 256]
    ensures Le(4, x) == [x % 256, x / 256 % 256] + [x / 0x1_0000 % 256, x / 0x1_0000 / 256 % 256]
  {
    hide Le;
    LeTwo(0, x);
    LeTwo(2, x);
    LeTwo(0, x / 0x1_0000);
    LeNext(0, x / 0x1_0000);
    LeNext(0, x / 0x1_0000 / 0x1_0000);
  }

  lemma LeNext(n: nat, x: nat)
    ensures Le(n, x) == if n == 0 then [] else [x % 256] + Le(n - 1, x / 256)
  {
  }

  // Fields of fixed width

  function Sum(widths: seq<nat>): nat {
    if widths == [] then 0 else widths[0] + Sum(widths[1..])
  }

  function Join(fields: seq<seq<Byte>>): (r: seq<Byte>) {
    if fields == [] then [] else fields[0] + Join(fields[1..])
  }

  function Split(b: seq<Byte>, widths: seq<nat>): (r: seq<seq<Byte>>)
    requires |b| == Sum(widths)
    ensures |r| == |widths| && forall i :: 0 <= i < |r| ==> |r[i]| == widths[i]
  {
    if widths == [] then [] else [b[..widths[0]]] + Split(b[widths[0]..], widths[1..])
  }

  ghost predicate Fit(fields: seq<seq<Byte>>, widths: seq<nat>) {
    |fields| == |widths| && forall i :: 0 <= i < |fields| ==> |fields[i]| == widths[i]
  }

  lemma {:induction false} SplitJoin(fields: seq<seq<Byte>>, widths: seq<nat>)
    requires Fit(fields, widths)
    ensures |Join(fields)| == Sum(widths) && Split(Join(fields), widths) == fields
  {
    if fields != [] {
      SplitJoin(fields[1..], widths[1..]);
      assert Join(fields)[..widths[0]] == fields[0] && Join(fields)[widths[0]..] == Join(fields[1..]);
    }
  }

  lemma {:induction false} JoinSplit(b: seq<Byte>, widths: seq<nat>)
    requires |b| == Sum(widths)
    ensures Join(Split(b, widths)) == b
  {
    if widths != [] {
      JoinSplit(b[widths[0]..], widths[1..]);
      assert Split(b, widths)[1..] == Split(b[widths[0]..], widths[1..]);
    }
  }

  lemma {:induction false} JoinAppend(a: seq<seq<Byte>>, b: seq<seq<Byte>>)
    ensures Join(a + b) == Join(a) + Join(b)
  {
    if a == [] {
      assert a + b == b;
    } else {
      JoinAppend(a[1..], b);
      assert (a + b)[1..] == a[1..] + b && (a + b)[0] == a[0];
      assert a[0] + (Join(a[1..]) + Join(b)) == (a[0] + Join(a[1..])) + Join(b);
    }
  }

  // The header

  datatype FwInfo = FwInfo(magic: seq<Byte>, algo: nat, algo2: nat, timeStamp: nat, partName: seq<Byte>,
                           fwVer: seq<Byte>, prodCode: seq<Byte>, pkgCrc: U32, rawCrc: U32, rawSize: U32, pkgSize: U32,
                           hdrCrc: U32)

  const WIDTHS: seq<nat> := [4, 2, 2, 4, 16, 24, 24, 4, 4, 4, 4, 4]

  lemma HeaderWidth()
    ensures Sum(WIDTHS) == HEADER_SIZE && Pow256(2) == 0x1_0000 && Pow256(4) == 0x1_0000_0000
  {
    assert WIDTHS[1..][1..][1..][1..] == [16, 24, 24, 4, 4, 4, 4, 4];
    assert [16, 24, 24, 4, 4, 4, 4, 4][1..][1..][1..][1..] == [4, 4, 4, 4];
    assert Sum([4, 4, 4, 4]) == 16;
    assert Sum([16, 24, 24, 4, 4, 4, 4, 4]) == 84;
  }

  /** All fields but the header CRC, in order. */
  function FrontOf(h: FwInfo): seq<seq<Byte>> {
    [h.magic, Le(2, h.algo), Le(2, h.algo2), Le(4, h.timeStamp), h.partName, h.fwVer, h.prodCode,
     Le(4, h.pkgCrc), Le(4, h.rawCrc), Le(4, h.rawSize), Le(4, h.pkgSize)]
  }

  function FieldsOf(h: FwInfo): seq<seq<Byte>> {
    FrontOf(h) + [Le(4, h.hdrCrc)]
  }

  predicate WellSized(h: FwInfo) {
    && |h.magic| == 4 && h.algo < 0x1_0000 && h.algo2 < 0x1_0000 && h.timeStamp < 0x1_0000_0000
    && |h.partName| == 16 && |h.fwVer| == 24 && |h.prodCode| == 24
  }

  function FromFields(f: seq<seq<Byte>>): (h: FwInfo)
    requires Fit(f, WIDTHS)
    ensures WellSized(h)
  {
    HeaderWidth();
    FwInfo(f[0], FromLe(f[1]), FromLe(f[2]), FromLe(f[3]), f[4], f[5], f[6], Word(f[7]), Word(f[8]), Word(f[9]),
           Word(f[10]), Word(f[11]))
  }

  function Word(b: seq<Byte>): U32
    requires |b| == 4
  {
    HeaderWidth();
    FromLe(b)
  }

  lemma WordOf(x: U32)
    ensures Word(Le(4, x)) == x
  {
    HeaderWidth();
    LeRoundTrip(4, x);
  }

  lemma FromFieldsOf(h: FwInfo)
    requires WellSized(h)
    ensures Fit(FieldsOf(h), WIDTHS) && FromFields(FieldsOf(h)) == h
  {
    hide Le, FromLe, Word, Sum;
    HeaderWidth();
    LeRoundTrip(2, h.algo);
    LeRoundTrip(2, h.algo2);
    LeRoundTrip(4, h.timeStamp);
    WordOf(h.pkgCrc);
    WordOf(h.rawCrc);
    WordOf(h.rawSize);
    WordOf(h.pkgSize);
    WordOf(h.hdrCrc);
  }

  lemma FieldsOfFrom(f: seq<seq<Byte>>)
    requires Fit(f, WIDTHS)
    ensures FieldsOf(FromFields(f)) == f
  {
    hide Le, FromLe, Sum;
    forall i | 0 <= i < |f|
      ensures Le(WIDTHS[i], FromLe(f[i])) == f[i]
    {
      FromLeRoundTrip(f[i]);
    }
    assert Le(WIDTHS[1], FromLe(f[1])) == f[1] && Le(WIDTHS[2], FromLe(f[2])) == f[2]
        && Le(WIDTHS[3], FromLe(f[3])) == f[3];
    assert Le(WIDTHS[7], FromLe(f[7])) == f[7] && Le(WIDTHS[8], FromLe(f[8])) == f[8]
        && Le(WIDTHS[9], FromLe(f[9])) == f[9];
    assert Le(WIDTHS[10], FromLe(f[10])) == f[10] && Le(WIDTHS[11], FromLe(f[11])) == f[11];
  }

  /** The header as it lies in memory and in storage. */
  function Encode(h: FwInfo): (r: seq<Byte>)
    requires WellSized(h)
    ensures |r| == HEADER_SIZE
  {
    FromFieldsOf(h);
    SplitJoin(FieldsOf(h), WIDTHS);
    HeaderWidth();
    Join(FieldsOf(h))
  }

  function Decode(b: seq<Byte>): (h: FwInfo)
    requires |b| == HEADER_SIZE
    ensures WellSized(h)
  {
    HeaderWidth();
    FromFields(Split(b, WIDTHS))
  }

  /** What is written is read back. */
  lemma DecodeEncode(h: FwInfo)
    requires WellSized(h)
    ensures Decode(Encode(h)) == h
  {
    hide FieldsOf, FromFields, Sum;
    HeaderWidth();
    FromFieldsOf(h);
    SplitJoin(FieldsOf(h), WIDTHS);
  }

  /** A header that was read is written back byte for byte. */
  lemma EncodeDecode(b: seq<Byte>)
    requires |b| == HEADER_SIZE
    ensures Encode(Decode(b)) == b
  {
    hide FieldsOf, FromFields, Sum;
    HeaderWidth();
    JoinSplit(b, WIDTHS);
    FieldsOfFrom(Split(b, WIDTHS));
  }

  lemma {:induction false} SumNext(widths: seq<nat>, i: nat)
    requires i < |widths|
    ensures Sum(widths[..i + 1]) == Sum(widths[..i]) + widths[i]
  {
    assert widths[..i + 1][0] == widths[0];
    if i > 0 {
      assert widths[..i + 1][1..] == widths[1..][..i] && widths[..i][1..] == widths[1..][..i - 1];
      SumNext(widths[1..], i - 1);
    }
  }

  lemma {:induction false} FieldAt(fields: seq<seq<Byte>>, widths: seq<nat>, i: nat)
    requires Fit(fields, widths) && i < |fields|
    ensures var off := Sum(widths[..i]);
            off + widths[i] <= |Join(fields)| && Join(fields)[off..off + widths[i]] == fields[i]
  {
    if i > 0 {
      var rest := Join(fields[1..]);
      FieldAt(fields[1..], widths[1..], i - 1);
      assert widths[..i][1..] == widths[1..][..i - 1];
      FieldBehind(fields[0], rest, Sum(widths[1..][..i - 1]), widths[i]);
    }
  }

  lemma FieldBehind(first: seq<Byte>, rest: seq<Byte>, off: nat, width: nat)
    requires off + width <= |rest|
    ensures (first + rest)[|first| + off..|first| + off + width] == rest[off..off + width]
  {
  }

  lemma Offsets()
    ensures Sum(WIDTHS[..0]) == 0 && Sum(WIDTHS[..1]) == 4 && Sum(WIDTHS[..2]) == 6 && Sum(WIDTHS[..3]) == 8
    ensures Sum(WIDTHS[..4]) == 12 && Sum(WIDTHS[..5]) == 28 && Sum(WIDTHS[..6]) == 52 && Sum(WIDTHS[..7]) == 76
    ensures Sum(WIDTHS[..8]) == 80 && Sum(WIDTHS[..9]) == 84 && Sum(WIDTHS[..10]) == 88 && Sum(WIDTHS[..11]) == 92
  {
    NoWidths(WIDTHS);
    hide Sum;
    forall i | 0 <= i < 11
      ensures Sum(WIDTHS[..i + 1]) == Sum(WIDTHS[..i]) + WIDTHS[i]
    {
      SumNext(WIDTHS, i);
    }
    assert Sum(WIDTHS[..0 + 1]) == 4;
    assert Sum(WIDTHS[..1 + 1]) == 6;
    assert Sum(WIDTHS[..2 + 1]) == 8;
    assert Sum(WIDTHS[..3 + 1]) == 12;
    assert Sum(WIDTHS[..4 + 1]) == 28;
    assert Sum(WIDTHS[..5 + 1]) == 52;
    assert Sum(WIDTHS[..6 + 1]) == 76;
    assert Sum(WIDTHS[..7 + 1]) == 80;
    assert Sum(WIDTHS[..8 + 1]) == 84;
    assert Sum(WIDTHS[..9 + 1]) == 88;
    assert Sum(WIDTHS[..10 + 1]) == 92;
  }

  lemma NoWidths(widths: seq<nat>)
    ensures Sum(widths[..0]) == 0
  {
  }

  /** Where the fields lie: the packed structure that boot loader and application share. */
  lemma Layout(h: FwInfo)
    requires WellSized(h)
    ensures var b := Encode(h);
            && b[0..4] == h.magic && b[4..6] == Le(2, h.algo) && b[6..8] == Le(2, h.algo2)
            && b[8..12] == Le(4, h.timeStamp) && b[12..28] == h.partName && b[28..52] == h.fwVer
            && b[52..76] == h.prodCode && b[76..80] == Le(4, h.pkgCrc) && b[80..84] == Le(4, h.rawCrc)
            && b[84..88] == Le(4, h.rawSize) && b[88..92] == Le(4, h.pkgSize) && b[92..96] == Le(4, h.hdrCrc)
  {
    hide Le, Sum, Join;
    var f, b := FieldsOf(h), Encode(h);
    Offsets();
    forall i | 0 <= i < 12
      ensures Sum(WIDTHS[..i]) + WIDTHS[i] <= |b| && b[Sum(WIDTHS[..i])..Sum(WIDTHS[..i]) + WIDTHS[i]] == f[i]
    {
      FieldAt(f, WIDTHS, i);
    }
  }

  // Strings

  function Ascii(s: string): (r: seq<Byte>)
    ensures |r| == |s|
  {
    seq(|s|, i requires 0 <= i < |s| => (s[i] as int) % 256)
  }

  /** `strcmp(field, role) == 0` for a role name shorter than the field. */
  predicate NameIs(field: seq<Byte>, role: seq<Byte>) {
    role + [0] <= field
  }

  /** Target that a part name in a header stands for; builds with a storage swap have a role for it. */
  function NameToId(field: seq<Byte>, swapRole: bool): Option<Target> {
    if NameIs(field, Ascii("app")) then Some(App)
    else if NameIs(field, Ascii("download")) then Some(Download)
    else if NameIs(field, Ascii("factory")) then Some(Factory)
    else if swapRole && NameIs(field, Ascii("swap")) then Some(SwapArea)
    else None
  }

  /** Magic word and header CRC. */
  predicate InfoOk(h: FwInfo)
    requires WellSized(h)
  {
    NameIs(h.magic, Ascii("RBL")) && Crc32(Encode(h)[..HEADER_SIZE - 4]) == h.hdrCrc
  }

  // The packaging tool

  /** A fixed-width string field: cut off or filled up with zeros. */
  function PackString(n: nat, s: seq<Byte>): (r: seq<Byte>)
    ensures |r| == n
  {
    if |s| >= n then s[..n] else s + seq(n - |s|, _ => 0)
  }

  /** Every number fits its field. */
  predicate NumbersFit(rawFw: seq<Byte>, pkgObj: seq<Byte>, algo: nat, algo2: nat, timestamp: nat) {
    && algo < 0x1_0000 && algo2 < 0x1_0000 && timestamp < 0x1_0000_0000
    && |rawFw| < 0x1_0000_0000 && |pkgObj| < 0x1_0000_0000
  }

  /** The header for an image and its package body; fails on a number that does not fit its field. */
  function CreateRblHeader(rawFw: seq<Byte>, pkgObj: seq<Byte>, algo: nat, algo2: nat, timestamp: nat,
                           partName: seq<Byte>, fwVer: seq<Byte>, prodCode: seq<Byte>): Option<seq<Byte>> {
    if !NumbersFit(rawFw, pkgObj, algo, algo2, timestamp) then None
    else
      var header := Join([PackString(4, Ascii("RBL") + [0]), Le(2, algo), Le(2, algo2), Le(4, timestamp),
                          PackString(16, partName), PackString(24, fwVer), PackString(24, prodCode),
                          Le(4, Crc32(pkgObj)), Le(4, Crc32(rawFw)), Le(4, |rawFw|), Le(4, |pkgObj|)]);
      Some(header + Le(4, Crc32(header)))
  }

  /** The reader gets back what the tool printed, and accepts it. */
  lemma HeaderRoundTrip(rawFw: seq<Byte>, pkgObj: seq<Byte>, algo: nat, algo2: nat, timestamp: nat,
                        partName: seq<Byte>, fwVer: seq<Byte>, prodCode: seq<Byte>)
    requires NumbersFit(rawFw, pkgObj, algo, algo2, timestamp)
    ensures CreateRblHeader(rawFw, pkgObj, algo, algo2, timestamp, partName, fwVer, prodCode).Some?
    ensures var b := CreateRblHeader(rawFw, pkgObj, algo, algo2, timestamp, partName, fwVer, prodCode).value;
            && |b| == HEADER_SIZE && InfoOk(Decode(b))
            && Decode(b) ==
               FwInfo(Ascii("RBL") + [0], algo, algo2, timestamp, PackString(16, partName), PackString(24, fwVer),
                      PackString(24, prodCode), Crc32(pkgObj), Crc32(rawFw), |rawFw|, |pkgObj|,
                      Crc32(b[..HEADER_SIZE - 4]))
  {
    var b := CreateRblHeader(rawFw, pkgObj, algo, algo2, timestamp, partName, fwVer, prodCode).value;
    var h := FwInfo(Ascii("RBL") + [0], algo, algo2, timestamp, PackString(16, partName), PackString(24, fwVer),
                    PackString(24, prodCode), Crc32(pkgObj), Crc32(rawFw), |rawFw|, |pkgObj|, Crc32(b[..|b| - 4]));
    hide Le, FromLe, Join, Split, Sum, Crc32;
    var front, last := FrontOf(h), Le(4, h.hdrCrc);
    assert PackString(4, Ascii("RBL") + [0]) == h.magic;
    assert b == Join(front) + last && b[..|b| - 4] == Join(front);
    JoinAppend(front, [last]);
    JoinOne(last);
    DecodeEncode(h);
    assert Encode(h) == b;
  }

  lemma JoinOne(x: seq<Byte>)
    ensures Join([x]) == x
  {
  }

  /** The boot loader finds a target by its name exactly when the name given to the tool is that
      name; a longer one is cut off and matches nothing. */
  lemma NameSurvives(partName: seq<Byte>, role: seq<Byte>)
    requires 0 !in partName && 0 !in role && |role| < 16
    ensures NameIs(PackString(16, partName), role) <==> partName == role
  {
    var field, key := PackString(16, partName), role + [0];
    assert key[..|role|] == role;
    if partName == role {
      assert key == field[..|role| + 1];
    } else if |partName| < |role| {
      assert key[|partName|] in role && field[|partName|] == 0;
    } else if |partName| > |role| {
      assert key[|role|] == 0 && field[|role|] in partName;
    } else {
      assert field[..|role|] == partName;
    }
  }
}
