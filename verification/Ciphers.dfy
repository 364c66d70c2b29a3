/** The decryptors: none, and AES in CBC mode with a chaining value carried from call to call. */
module Ciphers {
  import opened Bits
  import opened Storage
  import opened StreamSpec
  import opened StreamProof
  import opened Crc
  import opened CrcTheory

  const BLOCK := 16

  type Block = b: seq<Byte> | |b| == BLOCK witness seq(BLOCK, _ => 0)

  /** The inverse block cipher under the device key. */
  type Decipher = Block -> Block

  /** No encryption; whatever state the other ciphers of a build share passes through. */
  function Plain<V>(init: V): Cipher<V> {
    Cipher(init, (v: V, x: seq<Byte>) => (v, x))
  }

  lemma PlainChains<V(!new)>(init: V)
    ensures KeepsLength(Plain(init)) && Chains(Plain(init), 1)
  {
    forall v: V, a: seq<Byte>, b: seq<Byte>
      ensures ChainsAt(Plain(init), v, a, b)
    {
    }
  }

  function XorByte(x: Byte, y: Byte): Byte {
    Pow2Of32();
    Xor(8, x, y)
  }

  lemma XorByteBits(x: Byte, y: Byte, i: nat)
    requires i < 8
    ensures Bit(XorByte(x, y), i) <==> Bit(x, i) != Bit(y, i)
  {
    hide Xor, Bit;
    Pow2Of32();
    XorBits(8, x, y, i);
  }

  function XorBlock(a: Block, b: Block): Block {
    seq(BLOCK, i requires 0 <= i < BLOCK => XorByte(a[i], b[i]))
  }

  /** CBC decryption: plain text, and the chaining value for what follows. */
  function CbcDecrypt(d: Decipher, iv: Block, data: seq<Byte>): (r: (Block, seq<Byte>))
    ensures |r.1| == |data|
    decreases |data|
  {
    if |data| < BLOCK then (iv, data)
    else
      var first: Block := data[..BLOCK];
      var rest := CbcDecrypt(d, first, data[BLOCK..]);
      (rest.0, XorBlock(d(first), iv) + rest.1)
  }

  function Cbc(d: Decipher, iv: Block): Cipher<Block> {
    Cipher(iv, (v: Block, x: seq<Byte>) => CbcDecrypt(d, v, x))
  }

  function BlockAt(data: seq<Byte>, j: nat): Block
    requires j * BLOCK + BLOCK <= |data|
  {
    data[j * BLOCK..j * BLOCK + BLOCK]
  }

  /** Block `j` of the plain text, by the cipher block before it, the IV for the first. */
  lemma {:induction false} CbcBlocks(d: Decipher, iv: Block, data: seq<Byte>, j: nat)
    requires j * BLOCK + BLOCK <= |data|
    ensures BlockAt(CbcDecrypt(d, iv, data).1, j) ==
            XorBlock(d(BlockAt(data, j)), if j == 0 then iv else BlockAt(data, j - 1))
    decreases |data|
  {
    var first: Block := data[..BLOCK];
    var head: seq<Byte>, rest: seq<Byte> := XorBlock(d(first), iv), CbcDecrypt(d, first, data[BLOCK..]).1;
    if j == 0 {
      assert (head + rest)[..BLOCK] == head;
    } else {
      CbcBlocks(d, first, data[BLOCK..], j - 1);
      SliceOfSlice(data, BLOCK, |data|, (j - 1) * BLOCK, (j - 1) * BLOCK + BLOCK);
      assert data[BLOCK..|data|] == data[BLOCK..];
      if j > 1 {
        SliceOfSlice(data, BLOCK, |data|, (j - 2) * BLOCK, (j - 2) * BLOCK + BLOCK);
      }
      assert BlockAt(head + rest, j) == BlockAt(rest, j - 1);
    }
  }

  /** The equations of section 6.2 of NIST SP 800-38A, bit by bit: a bit of block `j` of the plain text is
      set exactly when that bit of the deciphered block differs from that of the cipher block before it,
      the IV for the first. */
  lemma CbcEquations(d: Decipher, iv: Block, data: seq<Byte>, j: nat, k: nat, i: nat)
    requires j * BLOCK + BLOCK <= |data| && k < BLOCK && i < 8
    ensures var before := if j == 0 then iv else BlockAt(data, j - 1);
            Bit(CbcDecrypt(d, iv, data).1[j * BLOCK + k], i) <==>
            Bit(d(BlockAt(data, j))[k], i) != Bit(before[k], i)
  {
    hide Bit, XorByte;
    var before := if j == 0 then iv else BlockAt(data, j - 1);
    CbcBlocks(d, iv, data, j);
    assert BlockAt(CbcDecrypt(d, iv, data).1, j)[k] == CbcDecrypt(d, iv, data).1[j * BLOCK + k];
    XorByteBits(d(BlockAt(data, j))[k], before[k], i);
  }

  /** The chaining value carried on is the last cipher block. */
  lemma {:induction false} CbcChains(d: Decipher, iv: Block, a: seq<Byte>, b: seq<Byte>)
    requires Whole(|a|, BLOCK)
    ensures var first := CbcDecrypt(d, iv, a);
            var second := CbcDecrypt(d, first.0, b);
            CbcDecrypt(d, iv, a + b) == (second.0, first.1 + second.1)
    decreases |a|
  {
    if a == [] {
      assert a + b == b;
      assert [] + CbcDecrypt(d, iv, b).1 == CbcDecrypt(d, iv, b).1;
    } else {
      var next: Block := a[..BLOCK];
      CbcChains(d, next, a[BLOCK..], b);
      assert (a + b)[..BLOCK] == next && (a + b)[BLOCK..] == a[BLOCK..] + b;
      var first := CbcDecrypt(d, next, a[BLOCK..]);
      var second := CbcDecrypt(d, first.0, b);
      assert XorBlock(d(next), iv) + (first.1 + second.1) == (XorBlock(d(next), iv) + first.1) + second.1;
    }
  }

  /** CBC meets what the streaming theorem asks of a decryptor. */
  lemma CbcIsChaining(d: Decipher, iv: Block)
    ensures KeepsLength(Cbc(d, iv)) && Chains(Cbc(d, iv), BLOCK)
  {
    var c := Cbc(d, iv);
    forall v: Block, a: seq<Byte>, b: seq<Byte> | Whole(|a|, BLOCK) && Whole(|b|, BLOCK)
      ensures ChainsAt(c, v, a, b)
    {
      CbcChains(d, v, a, b);
    }
  }

  // Round trip

  /** The block decipher `d` undoes the block cipher `e`. */
  ghost predicate Undoes(d: Decipher, e: Decipher) {
    forall b: Block :: d(e(b)) == b
  }

  /** CBC encryption of whole blocks, as done before packaging. */
  function CbcEncrypt(e: Decipher, iv: Block, data: seq<Byte>): (r: seq<Byte>)
    ensures |r| == |data|
    decreases |data|
  {
    if |data| < BLOCK then data
    else
      var first: Block := e(XorBlock(data[..BLOCK], iv));
      first + CbcEncrypt(e, first, data[BLOCK..])
  }

  lemma XorBlockTwice(a: Block, b: Block)
    ensures XorBlock(XorBlock(a, b), b) == a
  {
    forall i | 0 <= i < BLOCK
      ensures XorBlock(XorBlock(a, b), b)[i] == a[i]
    {
      Pow2Of32();
      XorTwice(8, a[i], b[i]);
    }
  }

  /** Decryption undoes encryption when the block decipher undoes the block cipher. */
  lemma {:induction false} CbcRoundTrip(e: Decipher, d: Decipher, iv: Block, data: seq<Byte>)
    requires Undoes(d, e)
    ensures CbcDecrypt(d, iv, CbcEncrypt(e, iv, data)).1 == data
    decreases |data|
  {
    if |data| >= BLOCK {
      var head: Block := data[..BLOCK];
      var first: Block := e(XorBlock(head, iv));
      var rest := CbcEncrypt(e, first, data[BLOCK..]);
      CbcRoundTrip(e, d, first, data[BLOCK..]);
      assert (first + rest)[..BLOCK] == first && (first + rest)[BLOCK..] == rest;
      XorBlockTwice(head, iv);
      assert head + data[BLOCK..] == data;
    }
  }

  /** A body encrypted with the device key and IV deciphers to the image. */
  lemma EncryptedBody(e: Decipher, d: Decipher, iv: Block, data: seq<Byte>)
    requires Undoes(d, e)
    ensures var c := Cbc(d, iv); c.decrypt(c.init, CbcEncrypt(e, iv, data)).1 == data
  {
    CbcRoundTrip(e, d, iv, data);
  }

  // Any cutting into pieces

  function DecryptPieces<V>(c: Cipher<V>, v: V, pieces: seq<seq<Byte>>): (V, seq<Byte>) {
    if pieces == [] then (v, [])
    else
      var before := DecryptPieces(c, v, pieces[..|pieces| - 1]);
      var last := c.decrypt(before.0, pieces[|pieces| - 1]);
      (last.0, before.1 + last.1)
  }

  /** Decrypting a body in any pieces of whole blocks is decrypting it in one call. */
  lemma {:induction false} PiecesAreWhole<V(!new)>(c: Cipher<V>, block: nat, v: V, pieces: seq<seq<Byte>>)
    requires block > 0 && Chains(c, block) && forall i :: 0 <= i < |pieces| ==> Whole(|pieces[i]|, block)
    ensures DecryptPieces(c, v, pieces) == c.decrypt(v, Flatten(pieces)) && Whole(|Flatten(pieces)|, block)
  {
    if pieces != [] {
      var init, last := pieces[..|pieces| - 1], pieces[|pieces| - 1];
      PiecesAreWhole(c, block, v, init);
      assert ChainsAt(c, v, Flatten(init), last);
      WholeSum(|Flatten(init)|, |last|, block);
    }
  }

  // The AES context

  /** The chaining value set up from the configured text: cut to 16 bytes or filled up with zeros. */
  function IvOf(text: seq<Byte>): Block {
    seq(BLOCK, i requires 0 <= i < BLOCK => if i < |text| then text[i] else 0)
  }

  /** A text of one block is the chaining value, a longer one gives its front, a shorter one is filled up
      with zeros. */
  lemma IvOfText(text: seq<Byte>)
    ensures |text| == BLOCK ==> IvOf(text) == text
    ensures |text| > BLOCK ==> IvOf(text) == text[..BLOCK]
    ensures |text| < BLOCK ==> IvOf(text) == text + seq(BLOCK - |text|, _ => 0)
  {
  }

  class Aes {
    const iv: array<Byte>
    const decipher: Decipher

    constructor (decipher: Decipher)
      ensures fresh(iv) && iv.Length == BLOCK && this.decipher == decipher
    {
      iv := new Byte[BLOCK];
      this.decipher := decipher;
    }

    /** Sets up the chaining value; whatever passes went before leave no trace. */
    method DecryptInit(text: array<Byte>)
      requires iv.Length == BLOCK && text != iv
      modifies iv
      ensures iv[..] == IvOf(text[..])
    {
      var len := text.Length;
      if len > BLOCK {
        len := BLOCK;
      }
      forall i | 0 <= i < BLOCK {
        iv[i] := 0;
      }
      forall i | 0 <= i < len {
        iv[i] := text[i];
      }
    }

    /** Decrypts one piece and keeps the chaining value for the next. */
    method Decrypt(dst: array<Byte>, src: array<Byte>, len: nat)
      requires iv.Length == BLOCK && len <= src.Length && len <= dst.Length && dst != iv
      modifies iv, dst
      ensures (iv[..], dst[..len]) == CbcDecrypt(decipher, old(iv[..]), old(src[..len]))
    {
      var r := CbcDecrypt(decipher, iv[..], src[..len]);
      forall i | 0 <= i < len {
        dst[i] := r.1[i];
      }
      forall i | 0 <= i < BLOCK {
        iv[i] := r.0[i];
      }
      assert dst[..len] == r.1 && iv[..] == r.0;
    }
  }
}
