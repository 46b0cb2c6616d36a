/**
 * Cipher Block Chaining over an abstract 16-byte block cipher, as section 6.2 of
 * NIST SP 800-38A defines it: C_0 = IV, C_i = E(P_i xor C_(i-1)) and
 * P_i = D(C_i) xor C_(i-1). The block cipher (AES in the program) is a pair of
 * functions; the only fact used about it is that D undoes E.
 *
 * The module also fixes how the codec's loops cut a byte stream into blocks: each
 * read of 16 bytes takes what is left, at most 16 bytes, into a zeroed 16-byte
 * buffer, so a short last piece is zero-extended.
 */
module Cbc {
  import opened Common

  const BlockSize: nat := 16

  type Block = s: seq<byte> | |s| == BlockSize witness Zeros(BlockSize)

  /** The program's cipher.Block, seen through its two block functions. */
  datatype BlockCipher = BlockCipher(encrypt: Block -> Block, decrypt: Block -> Block)

  /**
   * aes.NewCipher: keys of 16, 24 and 32 bytes are accepted and give the block
   * cipher aes(key); any other length is an aes.KeySizeError.
   */
  function NewCipher(key: seq<byte>, aes: seq<byte> -> BlockCipher): (r: Result<BlockCipher, Error>)
  {
    if |key| in {16, 24, 32} then Success(aes(key)) else Failure(KeySize(|key|))
  }

  /** Decryption undoes encryption, as it does for AES under one key. */
  ghost predicate Invertible(c: BlockCipher)
  {
    forall x: Block :: c.decrypt(c.encrypt(x)) == x
  }

  function ZeroBlock(): (z: Block)
  {
    Zeros(BlockSize)
  }

  /** Bytewise exclusive or of two blocks. */
  function Xor(a: Block, b: Block): (r: Block)
  {
    seq(BlockSize, i requires 0 <= i < BlockSize => a[i] ^ b[i])
  }

  /** Xor with the same block twice is the identity. */
  lemma XorCancel(a: Block, b: Block)
    ensures Xor(Xor(a, b), b) == a
  {
    var x := Xor(Xor(a, b), b);
    forall i | 0 <= i < BlockSize
      ensures x[i] == a[i]
    {
      assert Xor(a, b)[i] == a[i] ^ b[i];
    }
  }

  /**
   * CBC encryption of the plaintext blocks ps under c, chained from prev (the IV
   * for the first block): each ciphertext block is the chaining value of the next.
   */
  function CbcEncrypt(c: BlockCipher, prev: Block, ps: seq<Block>): (cs: seq<Block>)
    ensures |cs| == |ps|
    decreases |ps|
  {
    if |ps| == 0 then []
    else
      var x := c.encrypt(Xor(ps[0], prev));
      [x] + CbcEncrypt(c, x, ps[1..])
  }

  /** CBC decryption of the ciphertext blocks cs under c, chained from prev. */
  function CbcDecrypt(c: BlockCipher, prev: Block, cs: seq<Block>): (ps: seq<Block>)
    ensures |ps| == |cs|
    decreases |cs|
  {
    if |cs| == 0 then []
    else [Xor(c.decrypt(cs[0]), prev)] + CbcDecrypt(c, cs[0], cs[1..])
  }

  /** Section 6.2 of NIST SP 800-38A for encryption, block by block: C_1 = E(P_1 xor IV), C_i = E(P_i xor C_(i-1)). */
  lemma {:induction false} CbcEncryptAt(c: BlockCipher, iv: Block, ps: seq<Block>, i: nat)
    requires i < |ps|
    ensures var cs := CbcEncrypt(c, iv, ps);
      cs[i] == c.encrypt(Xor(ps[i], if i == 0 then iv else cs[i - 1]))
    decreases i
  {
    if i > 0 {
      var x := c.encrypt(Xor(ps[0], iv));
      CbcEncryptAt(c, x, ps[1..], i - 1);
      if i == 1 {
        assert CbcEncrypt(c, iv, ps)[0] == x;
      }
    }
  }

  /** Section 6.2 of NIST SP 800-38A for decryption, block by block: P_1 = D(C_1) xor IV, P_i = D(C_i) xor C_(i-1). */
  lemma {:induction false} CbcDecryptAt(c: BlockCipher, iv: Block, cs: seq<Block>, i: nat)
    requires i < |cs|
    ensures CbcDecrypt(c, iv, cs)[i] == Xor(c.decrypt(cs[i]), if i == 0 then iv else cs[i - 1])
    decreases i
  {
    if i > 0 {
      CbcDecryptAt(c, cs[0], cs[1..], i - 1);
    }
  }

  /** With an invertible block cipher, CBC decryption undoes CBC encryption under the same IV. */
  lemma {:induction false} CbcRoundTrip(c: BlockCipher, iv: Block, ps: seq<Block>)
    requires Invertible(c)
    ensures CbcDecrypt(c, iv, CbcEncrypt(c, iv, ps)) == ps
    decreases |ps|
  {
    if |ps| > 0 {
      var x := c.encrypt(Xor(ps[0], iv));
      CbcRoundTrip(c, x, ps[1..]);
      XorCancel(ps[0], iv);
      assert ps == [ps[0]] + ps[1..];
    }
  }

  /** The bytes of a sequence of blocks, in order. */
  function Flatten(bs: seq<Block>): (s: seq<byte>)
    ensures |s| == BlockSize * |bs|
    decreases |bs|
  {
    if |bs| == 0 then [] else bs[0] + Flatten(bs[1..])
  }

  /**
   * The blocks the codec's loops see when they read p 16 bytes at a time: every
   * read takes at most 16 bytes into a zeroed buffer.
   */
  function Chunks(p: seq<byte>): (bs: seq<Block>)
    ensures |p| <= BlockSize * |bs| < |p| + BlockSize
    decreases |p|
  {
    if |p| == 0 then []
    else if |p| <= BlockSize then [p + Zeros(BlockSize - |p|)]
    else [p[..BlockSize]] + Chunks(p[BlockSize..])
  }

  /** The length of n bytes rounded up to a whole number of blocks. */
  function PaddedLength(n: nat): (r: nat)
    ensures r % BlockSize == 0 && n <= r < n + BlockSize
  {
    if n == 0 then 0 else if n <= BlockSize then BlockSize else BlockSize + PaddedLength(n - BlockSize)
  }

  /** p fills |Chunks(p)| blocks: the least number of blocks that hold it. */
  lemma {:induction false} ChunksCount(p: seq<byte>)
    ensures |Chunks(p)| == (|p| + BlockSize - 1) / BlockSize
    ensures BlockSize * |Chunks(p)| == PaddedLength(|p|)
    decreases |p|
  {
    if |p| > BlockSize {
      ChunksCount(p[BlockSize..]);
    }
  }

  /** A count r that falls in block j rounds up to the end of that block. */
  lemma BlockEnd(r: nat, j: nat)
    requires BlockSize * j <= r < BlockSize * j + BlockSize
    ensures (r / BlockSize + 1) * BlockSize == BlockSize * j + BlockSize
  {
  }

  /**
   * A 16-byte buffer that was all zero and received the first n bytes of d, n
   * being all of d up to 16, holds the first chunk of d.
   */
  lemma ReadChunk(buf: seq<byte>, d: seq<byte>, n: nat)
    requires |buf| == BlockSize && n == Min(BlockSize, |d|)
    requires buf[..n] == d[..n] && buf[n..] == Zeros(BlockSize)[n..]
    ensures buf == FirstChunk(d)
  {
    assert buf == buf[..n] + buf[n..];
  }

  /** The block that one read of 16 bytes from p fills: at most 16 bytes of p in a zeroed buffer. */
  function FirstChunk(p: seq<byte>): (b: Block)
    ensures |p| == 0 ==> b == ZeroBlock()
  {
    var n := Min(BlockSize, |p|);
    p[..n] + Zeros(BlockSize - n)
  }

  /** One read of 16 bytes from p yields the first chunk and leaves the chunks of the rest. */
  lemma ChunksStep(p: seq<byte>)
    requires |p| > 0
    ensures Chunks(p) == [FirstChunk(p)] + Chunks(p[Min(BlockSize, |p|)..])
  {
    var n := Min(BlockSize, |p|);
    if |p| <= BlockSize {
      assert FirstChunk(p) == p + Zeros(BlockSize - |p|) by {
        assert p[..n] == p;
      }
      assert Chunks(p[n..]) == [] by {
        assert p[n..] == [];
      }
      assert Chunks(p) == [p + Zeros(BlockSize - |p|)];
    } else {
      assert FirstChunk(p) == p[..BlockSize] by {
        assert Zeros(0) == [];
        assert p[..BlockSize] + Zeros(0) == p[..BlockSize];
      }
      assert Chunks(p) == [p[..BlockSize]] + Chunks(p[BlockSize..]);
    }
  }

  /** The chunks of p, laid end to end, are p followed by the zero fill of its last block. */
  lemma {:induction false} FlattenChunks(p: seq<byte>)
    ensures Flatten(Chunks(p)) == p + Zeros(PaddedLength(|p|) - |p|)
    decreases |p|
  {
    if 0 < |p| <= BlockSize {
      var b := p + Zeros(BlockSize - |p|);
      assert Chunks(p) == [b];
      assert Flatten([b]) == b + Flatten([]);
      assert PaddedLength(|p|) == BlockSize;
    } else if |p| > BlockSize {
      var rest := p[BlockSize..];
      var fill := Zeros(PaddedLength(|rest|) - |rest|);
      FlattenChunks(rest);
      assert PaddedLength(|p|) - |p| == PaddedLength(|rest|) - |rest|;
      assert Chunks(p) == [p[..BlockSize]] + Chunks(rest);
      assert Flatten(Chunks(p)) == p[..BlockSize] + (rest + fill);
      AppendAssoc(p[..BlockSize], rest, fill);
      assert p[..BlockSize] + rest == p;
    }
  }

  /** Reading back a whole number of blocks gives those blocks. */
  lemma {:induction false} ChunksFlatten(bs: seq<Block>)
    ensures Chunks(Flatten(bs)) == bs
    decreases |bs|
  {
    if |bs| > 0 {
      var s := Flatten(bs);
      assert s[..BlockSize] == bs[0];
      assert s[BlockSize..] == Flatten(bs[1..]);
      if |bs| == 1 {
        assert s == bs[0] + [];
        assert s + Zeros(0) == s;
        assert Chunks(s) == [s + Zeros(BlockSize - |s|)];
        assert bs == [bs[0]];
      } else {
        ChunksFlatten(bs[1..]);
        assert Chunks(s) == [s[..BlockSize]] + Chunks(s[BlockSize..]);
        assert bs == [bs[0]] + bs[1..];
      }
    }
  }

  /**
   * The ciphertext the encrypt loop writes, from chaining value prev, for the
   * bytes p its reader still holds, when nothing fails: one block per read of up
   * to 16 bytes, then the block of the iteration that meets end of input, which
   * encrypts the untouched all-zero buffer.
   */
  function EncryptStream(c: BlockCipher, prev: Block, p: seq<byte>): (ct: seq<byte>)
    ensures |ct| == PaddedLength(|p|) + BlockSize
    decreases |p|
  {
    var x := c.encrypt(Xor(FirstChunk(p), prev));
    if |p| == 0 then x else x + EncryptStream(c, x, p[Min(BlockSize, |p|)..])
  }

  /**
   * The plaintext the decrypt loop writes, from chaining value prev, for the bytes
   * q its reader still holds, when nothing fails: each read's chunk is decrypted
   * whole, but only as many bytes as the read returned are kept.
   */
  function DecryptStream(c: BlockCipher, prev: Block, q: seq<byte>): (pt: seq<byte>)
    ensures |pt| == |q|
    decreases |q|
  {
    if |q| == 0 then []
    else
      var n := Min(BlockSize, |q|);
      var block := FirstChunk(q);
      Xor(c.decrypt(block), prev)[..n] + DecryptStream(c, block, q[n..])
  }

  /**
   * The encrypt loop's output is the CBC encryption, under section 6.2 of NIST
   * SP 800-38A, of the plaintext's chunks followed by one all-zero block.
   */
  lemma {:induction false} EncryptStreamIsCbc(c: BlockCipher, prev: Block, p: seq<byte>)
    ensures EncryptStream(c, prev, p) == Flatten(CbcEncrypt(c, prev, Chunks(p) + [ZeroBlock()]))
    decreases |p|
  {
    var ps := Chunks(p) + [ZeroBlock()];
    var b := FirstChunk(p);
    var x := c.encrypt(Xor(b, prev));
    var later := if |p| == 0 then [] else Chunks(p[Min(BlockSize, |p|)..]) + [ZeroBlock()];
    assert ps == [b] + later by {
      if |p| > 0 {
        ChunksStep(p);
      }
    }
    assert CbcEncrypt(c, prev, ps) == [x] + CbcEncrypt(c, x, later);
    assert Flatten(CbcEncrypt(c, prev, ps)) == x + Flatten(CbcEncrypt(c, x, later));
    if |p| > 0 {
      EncryptStreamIsCbc(c, x, p[Min(BlockSize, |p|)..]);
    }
  }

  /**
   * The decrypt loop's output is the CBC decryption of the ciphertext's chunks,
   * cut to the ciphertext's length.
   */
  lemma {:induction false} DecryptStreamIsCbc(c: BlockCipher, prev: Block, q: seq<byte>)
    ensures DecryptStream(c, prev, q) == Flatten(CbcDecrypt(c, prev, Chunks(q)))[..|q|]
    decreases |q|
  {
    if |q| > 0 {
      var n := Min(BlockSize, |q|);
      var b := FirstChunk(q);
      var y := Xor(c.decrypt(b), prev);
      var later := Chunks(q[n..]);
      var tail := Flatten(CbcDecrypt(c, b, later));
      assert Chunks(q) == [b] + later by {
        ChunksStep(q);
      }
      assert Flatten(CbcDecrypt(c, prev, Chunks(q))) == y + tail;
      DecryptStreamIsCbc(c, b, q[n..]);
      TakeAppend(y + tail, y[..n], tail, |q|, |q| - n);
      if n < BlockSize {
        assert later == [] && tail == [];
        assert (y + tail)[..|q|] == y[..n];
      } else {
        assert y[..n] == y;
      }
    }
  }

  /** Flattening distributes over concatenation. */
  lemma {:induction false} FlattenAppend(a: seq<Block>, b: seq<Block>)
    ensures Flatten(a + b) == Flatten(a) + Flatten(b)
    decreases |a|
  {
    if |a| > 0 {
      FlattenAppend(a[1..], b);
      assert (a + b)[1..] == a[1..] + b;
      AppendAssoc(a[0], Flatten(a[1..]), Flatten(b));
    } else {
      assert a + b == b;
    }
  }

  /**
   * Decrypting what encryption produced gives back p, then the zero fill of p's
   * last block, then the all-zero block of the end-of-input iteration. The proof
   * goes through the block level: the ciphertext is the CBC encryption of p's
   * chunks and a zero block, the decrypt loop cuts it back into those same
   * ciphertext blocks, and CBC decryption undoes CBC encryption.
   */
  lemma DecryptEncryptStream(c: BlockCipher, prev: Block, p: seq<byte>)
    requires Invertible(c)
    ensures DecryptStream(c, prev, EncryptStream(c, prev, p))
         == p + Zeros(PaddedLength(|p|) - |p|) + Zeros(BlockSize)
  {
    var ps := Chunks(p) + [ZeroBlock()];
    var cs := CbcEncrypt(c, prev, ps);
    var ct := EncryptStream(c, prev, p);
    EncryptStreamIsCbc(c, prev, p);
    assert ct == Flatten(cs);
    ChunksFlatten(cs);
    CbcRoundTrip(c, prev, ps);
    assert CbcDecrypt(c, prev, Chunks(ct)) == ps;
    DecryptStreamIsCbc(c, prev, ct);
    assert |Flatten(ps)| == |ct|;
    assert DecryptStream(c, prev, ct) == Flatten(ps);
    FlattenAppend(Chunks(p), [ZeroBlock()]);
    FlattenChunks(p);
    assert Flatten([ZeroBlock()]) == ZeroBlock() + Flatten([]);
  }

  /** Padding n bytes and adding the final block gives one block more than n bytes need. */
  lemma {:induction false} PaddedLengthBlocks(n: nat)
    ensures PaddedLength(n) + BlockSize == BlockSize * ((n + BlockSize - 1) / BlockSize + 1)
    decreases n
  {
    if n > BlockSize {
      PaddedLengthBlocks(n - BlockSize);
      assert (n + BlockSize - 1) / BlockSize == (n - 1) / BlockSize + 1;
    }
  }

  lemma PrefixThenZeros(d: seq<byte>, p: seq<byte>, fill: nat)
    requires d == p + Zeros(fill) + Zeros(BlockSize)
    ensures d[..|p|] == p && AllZero(d[|p|..])
  {
    ZerosAppend(fill, BlockSize);
    AppendAssoc(p, Zeros(fill), Zeros(BlockSize));
    assert d == p + Zeros(fill + BlockSize);
  }

  /**
   * The round trip in the terms the codec's users see: decrypting the
   * ciphertext gives a stream that starts with the plaintext and has only zero
   * bytes after it.
   */
  lemma RecoverPrefix(c: BlockCipher, prev: Block, p: seq<byte>)
    requires Invertible(c)
    ensures DecryptStream(c, prev, EncryptStream(c, prev, p))[..|p|] == p
    ensures AllZero(DecryptStream(c, prev, EncryptStream(c, prev, p))[|p|..])
  {
    DecryptEncryptStream(c, prev, p);
    PrefixThenZeros(DecryptStream(c, prev, EncryptStream(c, prev, p)), p, PaddedLength(|p|) - |p|);
  }

  /**
   * The round trip as a client of the codec sees it: the ciphertext is one
   * block longer than the padded plaintext, so it differs from the plaintext,
   * and so does the decryption, which is the plaintext followed by zero bytes.
   */
  lemma RoundTrip(c: BlockCipher, iv: Block, p: seq<byte>, e: seq<byte>, d: seq<byte>)
    requires Invertible(c)
    requires e == EncryptStream(c, iv, p) && d == DecryptStream(c, iv, e)
    ensures |d| == |e| == BlockSize * ((|p| + BlockSize - 1) / BlockSize + 1)
    ensures e != p && d != p
    ensures d[..|p|] == p && AllZero(d[|p|..])
  {
    RecoverPrefix(c, iv, p);
    PaddedLengthBlocks(|p|);
  }
}
