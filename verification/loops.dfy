/**
 * The state both codecs' loops keep between iterations, stated on values: how
 * much of the input the reads have taken, and which part of the whole output
 * has been produced so far. The loops in Capi and Crypter hold these as their
 * invariants, and the lemmas here carry them across one iteration.
 */
module Loops {
  import opened Common
  import opened Cbc

  /**
   * After j iterations of the encrypt loop over p, with data left to read: the
   * reads took the first min(|p|, 16j) bytes, the loop produced sent, one block
   * per iteration, and ct (the whole ciphertext) is sent followed by what the
   * rest of the stream yields from chaining value stream.
   */
  ghost predicate EncryptProgress(c: BlockCipher, p: seq<byte>, ct: seq<byte>, sent: seq<byte>,
                                  j: nat, stream: Block, data: seq<byte>)
  {
    && |data| <= |p| && data == p[|p| - |data|..]
    && |p| - |data| == Min(|p|, BlockSize * j)
    && |sent| == BlockSize * j
    && |ct| == PaddedLength(|p|) + BlockSize
    && ct == sent + EncryptStream(c, stream, data)
  }

  /** Before the first iteration nothing is read and nothing produced. */
  lemma EncryptStart(c: BlockCipher, iv: Block, p: seq<byte>)
    ensures EncryptProgress(c, p, EncryptStream(c, iv, p), [], 0, iv, p)
  {
    assert p[0..] == p;
  }

  /**
   * An iteration that reads a non-empty chunk of data encrypts that chunk,
   * chained to stream, into x and moves on to the rest.
   */
  lemma EncryptNext(c: BlockCipher, p: seq<byte>, ct: seq<byte>, sent: seq<byte>,
                    j: nat, stream: Block, data: seq<byte>, x: Block, rest: seq<byte>)
    requires EncryptProgress(c, p, ct, sent, j, stream, data) && |data| > 0
    requires x == c.encrypt(Xor(FirstChunk(data), stream)) && rest == data[Min(BlockSize, |data|)..]
    ensures EncryptProgress(c, p, ct, sent + x, j + 1, x, rest)
  {
    AppendAssoc(sent, x, EncryptStream(c, x, rest));
    assert rest == p[|p| - |rest|..];
  }

  /**
   * A sink whose room ends inside the block x of the next iteration: x
   * completes ct's first |sent| + 16 bytes, the padded plaintext does not fit,
   * and the reads have then taken everything up to the end of the block the
   * room ends in.
   */
  lemma EncryptOverflow(c: BlockCipher, p: seq<byte>, ct: seq<byte>, sent: seq<byte>,
                        j: nat, stream: Block, data: seq<byte>, x: Block, rest: seq<byte>, room: nat)
    requires EncryptProgress(c, p, ct, sent, j, stream, data) && |data| > 0
    requires x == c.encrypt(Xor(FirstChunk(data), stream)) && rest == data[Min(BlockSize, |data|)..]
    requires |sent| <= room < |sent| + BlockSize
    ensures room < PaddedLength(|p|)
    ensures |sent| + BlockSize <= |ct| && ct[..|sent| + BlockSize] == sent + x
    ensures rest == p[Min(|p|, (room / BlockSize + 1) * BlockSize)..]
  {
    EncryptNext(c, p, ct, sent, j, stream, data, x, rest);
    assert ct[..|sent| + BlockSize] == sent + x by {
      assert ct == (sent + x) + EncryptStream(c, x, rest);
    }
    assert BlockSize * (j + 1) == BlockSize * j + BlockSize;
    BlockEnd(room, j);
    assert |p| - |rest| == Min(|p|, (room / BlockSize + 1) * BlockSize);
  }

  /**
   * Once data is exhausted, what was produced is the padded plaintext's blocks,
   * and the final iteration's block x (the encrypted zero buffer) completes ct.
   */
  lemma EncryptEnd(c: BlockCipher, p: seq<byte>, ct: seq<byte>, sent: seq<byte>, j: nat, stream: Block, x: Block)
    requires EncryptProgress(c, p, ct, sent, j, stream, [])
    requires x == c.encrypt(Xor(ZeroBlock(), stream))
    ensures |sent| == PaddedLength(|p|) && ct[..|sent|] == sent
    ensures ct == sent + x
  {
    assert EncryptStream(c, stream, []) == x;
    assert PaddedLength(0) == 0;
    assert ct[..|sent|] == sent;
  }

  /**
   * After j iterations of the decrypt loop over q, with data left to read: the
   * reads took the first min(|q|, 16j) bytes, the loop produced as many plaintext
   * bytes as it read, and pt is sent followed by what the rest of the stream
   * yields from chaining value stream.
   */
  ghost predicate DecryptProgress(c: BlockCipher, q: seq<byte>, pt: seq<byte>, sent: seq<byte>,
                                  j: nat, stream: Block, data: seq<byte>)
  {
    && |data| <= |q| && data == q[|q| - |data|..]
    && |q| - |data| == Min(|q|, BlockSize * j)
    && |sent| == |q| - |data|
    && pt == sent + DecryptStream(c, stream, data)
  }

  lemma DecryptStart(c: BlockCipher, iv: Block, q: seq<byte>)
    ensures DecryptProgress(c, q, DecryptStream(c, iv, q), [], 0, iv, q)
  {
    assert q[0..] == q;
  }

  /**
   * An iteration that reads a non-empty chunk b of data decrypts it chained to
   * stream, keeps the y bytes that were read, and chains to b itself.
   */
  lemma DecryptNext(c: BlockCipher, q: seq<byte>, pt: seq<byte>, sent: seq<byte>,
                    j: nat, stream: Block, data: seq<byte>, b: Block, y: seq<byte>, rest: seq<byte>)
    requires DecryptProgress(c, q, pt, sent, j, stream, data) && |data| > 0
    requires b == FirstChunk(data) && y == Xor(c.decrypt(b), stream)[..Min(BlockSize, |data|)]
    requires rest == data[Min(BlockSize, |data|)..]
    ensures DecryptProgress(c, q, pt, sent + y, j + 1, b, rest)
  {
    AppendAssoc(sent, y, DecryptStream(c, b, rest));
    assert rest == q[|q| - |rest|..];
  }

  /**
   * A sink whose room ends inside the plaintext y of the next iteration: y
   * completes pt's first |sent| + |y| bytes, the whole plaintext does not fit,
   * and the reads have then taken everything up to the end of the block the
   * room ends in.
   */
  lemma DecryptOverflow(c: BlockCipher, q: seq<byte>, pt: seq<byte>, sent: seq<byte>, j: nat, stream: Block,
                        data: seq<byte>, b: Block, y: seq<byte>, rest: seq<byte>, room: nat)
    requires DecryptProgress(c, q, pt, sent, j, stream, data) && |data| > 0
    requires b == FirstChunk(data) && y == Xor(c.decrypt(b), stream)[..Min(BlockSize, |data|)]
    requires rest == data[Min(BlockSize, |data|)..]
    requires |sent| <= room < |sent| + |y|
    ensures room < |q|
    ensures |sent| + |y| <= |pt| && pt[..|sent| + |y|] == sent + y
    ensures rest == q[Min(|q|, (room / BlockSize + 1) * BlockSize)..]
  {
    DecryptNext(c, q, pt, sent, j, stream, data, b, y, rest);
    assert pt[..|sent| + |y|] == sent + y by {
      assert pt == (sent + y) + DecryptStream(c, b, rest);
    }
    assert |sent| == BlockSize * j;
    assert BlockSize * (j + 1) == BlockSize * j + BlockSize;
    BlockEnd(room, j);
    assert |q| - |rest| == Min(|q|, (room / BlockSize + 1) * BlockSize);
  }

  /** Once data is exhausted, everything has been produced. */
  lemma DecryptEnd(c: BlockCipher, q: seq<byte>, pt: seq<byte>, sent: seq<byte>, j: nat, stream: Block)
    requires DecryptProgress(c, q, pt, sent, j, stream, [])
    ensures pt == sent && |sent| == |q|
  {
  }
}
