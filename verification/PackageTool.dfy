/** The packaging tool's command: algorithm names to header fields, header and body to a package file. */
module PackageTool {
  import opened Bits
  import opened Storage
  import opened StreamSpec
  import opened Crc
  import opened PatchSpec
  import opened FwInfo
  import opened ReleaseSpec

  /** Names that an option takes, with their values. */
  type Table = map<string, nat>

  const CRYPT_TABLE: Table := map["none" := 0, "xor" := 1, "aes" := 2]
  const CMPRS_TABLE: Table :=
    map["none" := 0, "gzip" := 0x100, "quicklz" := 0x200, "fastlz" := 0x300, "hpatchlite" := 0x400]
  const VERIFY_TABLE: Table := map["none" := 0, "crc" := 1]

  predicate IsSpace(c: char) { c == ' ' || '\t' <= c <= '\r' }

  function Lower(s: string): (r: string)
    ensures |r| == |s|
  {
    seq(|s|, i requires 0 <= i < |s| => if 'A' <= s[i] <= 'Z' then s[i] - 'A' + 'a' else s[i])
  }

  /** Without white space at either end. */
  function Strip(s: string): string
    decreases |s|
  {
    if s == [] then s
    else if IsSpace(s[0]) then Strip(s[1..])
    else if IsSpace(s[|s| - 1]) then Strip(s[..|s| - 1])
    else s
  }

  /** An option value: a name of the table up to case and white space around it, or an error. */
  function ParseAlgo(value: string, table: Table): Option<nat> {
    var v := Lower(Strip(value));
    if v in table then Some(table[v]) else None
  }

  /** A name as the tables have it: lower case, and no white space at its ends. */
  predicate Bare(name: string) {
    && (name != [] ==> !IsSpace(name[0]) && !IsSpace(name[|name| - 1]))
    && forall i :: 0 <= i < |name| ==> !('A' <= name[i] <= 'Z')
  }

  lemma StripStep(s: string)
    requires s != []
    ensures IsSpace(s[0]) ==> Strip(s) == Strip(s[1..])
    ensures !IsSpace(s[0]) && IsSpace(s[|s| - 1]) ==> Strip(s) == Strip(s[..|s| - 1])
    ensures !IsSpace(s[0]) && !IsSpace(s[|s| - 1]) ==> Strip(s) == s
  {
    hide IsSpace;
  }

  lemma Between(before: string, name: string, after: string)
    ensures var s := before + name + after;
            && (before != [] ==> s[0] == before[0] && s[1..] == before[1..] + name + after)
            && (before == [] && name != [] ==> s[0] == name[0])
            && (after != [] ==> s[|s| - 1] == after[|after| - 1]
                                && s[..|s| - 1] == before + name + after[..|after| - 1])
            && (before == [] && after == [] ==> s == name)
  {
  }

  /** Stripping takes exactly the white space at both ends. */
  lemma {:induction false} StripEnds(before: string, name: string, after: string)
    requires forall i :: 0 <= i < |before| ==> IsSpace(before[i])
    requires forall i :: 0 <= i < |after| ==> IsSpace(after[i])
    requires name != [] && !IsSpace(name[0]) && !IsSpace(name[|name| - 1])
    ensures Strip(before + name + after) == name
    decreases |before| + |after|
  {
    hide Strip, IsSpace;
    Between(before, name, after);
    StripStep(before + name + after);
    if before != [] {
      StripEnds(before[1..], name, after);
    } else if after != [] {
      StripEnds(before, name, after[..|after| - 1]);
    }
  }

  /** A value names a table entry when it is that name up to case, with any white space around it. */
  lemma ParsesName(before: string, value: string, after: string, table: Table)
    requires forall i :: 0 <= i < |before| ==> IsSpace(before[i])
    requires forall i :: 0 <= i < |after| ==> IsSpace(after[i])
    requires value != [] && Bare(Lower(value))
    ensures ParseAlgo(before + value + after, table) ==
            if Lower(value) in table then Some(table[Lower(value)]) else None
  {
    assert Lower(value)[0] == value[0] || !IsSpace(value[0]);
    assert Lower(value)[|value| - 1] == value[|value| - 1] || !IsSpace(value[|value| - 1]);
    StripEnds(before, value, after);
  }

  lemma ParsesBare(name: string, table: Table)
    requires name != [] && Bare(name)
    ensures ParseAlgo(name, table) == if name in table then Some(table[name]) else None
  {
    assert Lower(name) == name;
    assert [] + name + [] == name;
    ParsesName([], name, [], table);
  }

  /** The names and the values that the boot loader gives them. */
  lemma NamesMean()
    ensures ParseAlgo("none", CRYPT_TABLE) == Some(0) && ParseAlgo("xor", CRYPT_TABLE) == Some(1)
    ensures ParseAlgo("aes", CRYPT_TABLE) == Some(2)
    ensures ParseAlgo("none", CMPRS_TABLE) == Some(0) && ParseAlgo("gzip", CMPRS_TABLE) == Some(1 * 0x100)
    ensures ParseAlgo("quicklz", CMPRS_TABLE) == Some(2 * 0x100)
    ensures ParseAlgo("fastlz", CMPRS_TABLE) == Some(3 * 0x100)
    ensures ParseAlgo("hpatchlite", CMPRS_TABLE) == Some(CMPRS_HPATCHLITE * 0x100)
    ensures ParseAlgo("none", VERIFY_TABLE) == Some(0) && ParseAlgo("crc", VERIFY_TABLE) == Some(VERIFY_CRC)
  {
    hide ParseAlgo;
    ParsesBare("none", CRYPT_TABLE);
    ParsesBare("xor", CRYPT_TABLE);
    ParsesBare("aes", CRYPT_TABLE);
    ParsesBare("none", CMPRS_TABLE);
    ParsesBare("gzip", CMPRS_TABLE);
    ParsesBare("quicklz", CMPRS_TABLE);
    ParsesBare("fastlz", CMPRS_TABLE);
    ParsesBare("hpatchlite", CMPRS_TABLE);
    ParsesBare("none", VERIFY_TABLE);
    ParsesBare("crc", VERIFY_TABLE);
  }

  function Or(w: nat, x: nat, y: nat): int { x + y - And(w, x, y) }

  /** What the options stand for: cipher, compression and verification. */
  datatype Choice = Choice(crypt: nat, cmprs: nat, verify: nat)

  function Parsed(crypt: string, cmprs: string, verify: string): Option<Choice> {
    var c, m, v := ParseAlgo(crypt, CRYPT_TABLE), ParseAlgo(cmprs, CMPRS_TABLE), ParseAlgo(verify, VERIFY_TABLE);
    if c.None? || m.None? || v.None? then None else Some(Choice(c.value, m.value, v.value))
  }

  function AlgoField(c: Choice): int { Or(16, c.crypt, c.cmprs) }

  /** A differential package has no check of the image. */
  function Algo2Field(c: Choice): nat {
    if c.cmprs == CMPRS_TABLE["hpatchlite"] then VERIFY_TABLE["none"] else c.verify
  }

  /** The values that the tables allow. */
  predicate Listed(c: Choice) {
    c.crypt <= 2 && c.cmprs in {0, 0x100, 0x200, 0x300, 0x400} && c.verify <= 1
  }

  lemma TablesList(crypt: string, cmprs: string, verify: string)
    ensures var c := Parsed(crypt, cmprs, verify); c.Some? ==> Listed(c.value)
  {
    hide Lower, Strip;
  }

  /** The two parts of the algorithm field do not overlap. */
  lemma FieldsAdd(c: Choice)
    requires Listed(c)
    ensures AlgoField(c) == c.crypt + c.cmprs
    ensures Algo2Field(c) == if c.cmprs == 0x400 then 0 else c.verify
  {
    hide And, Pow2;
    Pow2Of32();
    AndDisjoint(16, 8, c.crypt, c.cmprs / 0x100);
  }

  /** The boot loader's masks take them apart again. */
  lemma FieldsPart(h: FwInfo, c: Choice)
    requires Listed(c) && h.algo == c.crypt + c.cmprs && h.algo2 == if c.cmprs == 0x400 then 0 else c.verify
    ensures CryptId(h) == c.crypt && CmprsId(h) * 0x100 == c.cmprs
    ensures VerifyBits(h) == if CmprsId(h) == CMPRS_HPATCHLITE then 0 else c.verify
  {
  }

  /** The package file: header and body. */
  function PackageRbl(rawFw: seq<Byte>, pkgObj: seq<Byte>, crypt: string, cmprs: string, verify: string, timestamp: nat,
                      part: seq<Byte>, version: seq<Byte>, product: seq<Byte>): Option<seq<Byte>> {
    var c := Parsed(crypt, cmprs, verify);
    if c.None? then None
    else
      TablesList(crypt, cmprs, verify);
      FieldsAdd(c.value);
      var header := CreateRblHeader(rawFw, pkgObj, AlgoField(c.value), Algo2Field(c.value), timestamp,
                                    part, version, product);
      if header.None? then None else Some(header.value + pkgObj)
  }

  /** The boot loader selects by the header what the tool was asked for, and finds the body behind it; a
      differential package asks for no check of the image, whatever the tool was told. */
  lemma SelectsWhatWasAsked(rawFw: seq<Byte>, pkgObj: seq<Byte>, crypt: string, cmprs: string, verify: string,
                            timestamp: nat, part: seq<Byte>, version: seq<Byte>, product: seq<Byte>)
    requires timestamp < 0x1_0000_0000 && |rawFw| < 0x1_0000_0000 && |pkgObj| < 0x1_0000_0000
    ensures var file := PackageRbl(rawFw, pkgObj, crypt, cmprs, verify, timestamp, part, version, product);
            && (file.Some? <==> Parsed(crypt, cmprs, verify).Some?)
            && (file.Some? ==>
                  && |file.value| == HEADER_SIZE + |pkgObj| && file.value[HEADER_SIZE..] == pkgObj
                  && var h, c := Decode(file.value[..HEADER_SIZE]), Parsed(crypt, cmprs, verify).value;
                     && InfoOk(h) && CryptId(h) == c.crypt && CmprsId(h) * 0x100 == c.cmprs
                     && VerifyBits(h) == (if CmprsId(h) == CMPRS_HPATCHLITE then 0 else c.verify)
                     && h.pkgSize == |pkgObj| && h.rawSize == |rawFw| && h.partName == PackString(16, part)
                     && h.pkgCrc == Crc32(pkgObj) && h.rawCrc == Crc32(rawFw))
  {
    hide CreateRblHeader, Decode, InfoOk, Crc32, Parsed, AlgoField, Algo2Field, CryptId, CmprsId, VerifyBits, Listed;
    if Parsed(crypt, cmprs, verify).Some? {
      var c := Parsed(crypt, cmprs, verify).value;
      TablesList(crypt, cmprs, verify);
      FieldsAdd(c);
      ListedFits(c);
      HeaderRoundTrip(rawFw, pkgObj, AlgoField(c), Algo2Field(c), timestamp, part, version, product);
      var b := CreateRblHeader(rawFw, pkgObj, AlgoField(c), Algo2Field(c), timestamp, part, version, product).value;
      assert (b + pkgObj)[..HEADER_SIZE] == b && (b + pkgObj)[HEADER_SIZE..] == pkgObj;
      FieldsPart(Decode(b), c);
    }
  }

  lemma ListedFits(c: Choice)
    requires Listed(c)
    ensures c.crypt + c.cmprs < 0x1_0000 && c.verify < 0x1_0000
  {
  }
}
