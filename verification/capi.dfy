/**
 * The library front end (package capi): every failure is returned to the caller
 * as an error value.
 */
module Capi {
  import opened Common
  import opened Decimal
  import opened Cbc
  import opened Streams
  import opened Format
  import opened Loops

  /** NewHeader: the current format version, carrying iv unchanged. */
  function NewHeader(iv: seq<byte>): (h: Header)
    ensures h.version == DataFileVersion && h.iv == iv
  {
    Header(DataFileVersion, iv)
  }

  /**
   * WriteHeader: stage the version text and the IV in a buffer, refuse a staged
   * header that is not 17 bytes long, then hand the buffer to the sink in one write.
   */
  method WriteHeader(h: Header, file: Writer) returns (err: Option<Error>)
    modifies file
    ensures var data := HeaderBytes(h);
      if |data| != HeaderSize then
        err == Some(HeaderLength(|data|)) &&
        file.written == old(file.written) && file.room == old(file.room)
      else
        && file.written == old(file.written) + Clip(data, old(file.room))
        && file.room == Less(old(file.room), HeaderSize)
        && err == if Fits(old(file.room), HeaderSize) then None else Some(WriteFailed)
  {
    var data := new Writer(None);
    var _, _ := data.Write(FormatInt(h.version));
    var _, _ := data.Write(h.iv);
    assert data.written == HeaderBytes(h);
    var dataSize := |data.written|;
    if dataSize != VersionBytes + IvBytes {
      return Some(HeaderLength(dataSize));
    }
    // data.WriteTo(file): a single Write of everything staged
    var s, e := file.Write(data.written);
    if e.Some? {
      return e;
    }
    if s != dataSize {
      return Some(HeaderWriteCount(s));
    }
    return None;
  }

  /**
   * ReadHeader: one read of the 1-byte version field, parsed as a decimal
   * number, then one read of the 16-byte IV. The count of the version read is
   * not checked: an empty source leaves the zero byte of the buffer, which does
   * not parse.
   */
  method ReadHeader(file: Reader) returns (r: Result<Header, Error>)
    modifies file
    ensures var d := old(file.data);
      if |d| == 0 || !IsDigit(d[0]) then
        r == Failure(ParseSyntax) && file.data == d[Min(VersionBytes, |d|)..]
      else if |d| < HeaderSize then
        r == Failure(ShortIV(|d| - VersionBytes)) && file.data == []
      else
        && r.Success? && |r.value.iv| == IvBytes
        && r.value.version as int == DigitValue(d[0])
        && r.value.iv == d[VersionBytes..HeaderSize]
        && file.data == d[HeaderSize..]
  {
    var data := new byte[VersionBytes](_ => 0);
    var s, err := file.Read(data);
    // a version read of other than 1 byte is only reported on standard output
    var version := ParseByte(data[0]);
    if version.Failure? {
      return Failure(version.error);
    }
    data := new byte[IvBytes](_ => 0);
    s, err := file.Read(data);
    if s != IvBytes {
      return Failure(ShortIV(s));
    }
    assert data[..] == data[..s];
    return Success(Header(version.value, data[..]));
  }

  /**
   * GenKey: size bytes from crypto/rand through io.ReadFull, or a panic. The
   * random source is whatever byte sequence it manages to supply.
   */
  method GenKey(size: int) returns (r: Result<seq<byte>, Error>)
    ensures size < 0 ==> r == Failure(Panic)
    ensures r.Success? ==> |r.value| == size
    ensures r.Failure? ==> r.error == Panic
  {
    if size < 0 {
      // make([]byte, size) panics on a negative length
      return Failure(Panic);
    }
    var supply: seq<byte> := *;
    var n := Min(size, |supply|);
    if n != size {
      return Failure(Panic);
    }
    return Success(supply[..n]);
  }

  /** GenIV: a random 16-byte IV, or a panic. */
  method GenIV() returns (r: Result<seq<byte>, Error>)
    ensures r.Success? ==> |r.value| == IvBytes
    ensures r.Failure? ==> r.error == Panic
  {
    r := GenKey(16);
  }

  /**
   * ReadKey: a single read of 32 bytes; a read error is returned as it is, a
   * read of fewer bytes is an error, and only 32 bytes make a cipher.
   */
  method ReadKey(input: Reader, aes: seq<byte> -> BlockCipher) returns (r: Result<BlockCipher, Error>)
    modifies input
    ensures var d := old(input.data);
      && input.data == d[Min(AesKeySize, |d|)..]
      && (r.Success? <==> |d| >= AesKeySize)
      && (r.Success? ==> r.value == aes(d[..AesKeySize]))
      && (|d| == 0 ==> r == Failure(input.end))
      && (0 < |d| < AesKeySize ==> r == Failure(ShortKey(|d|)))
  {
    var key := new byte[AesKeySize](_ => 0);
    var n, err := input.Read(key);
    if err.Some? {
      return Failure(err.value);
    }
    if n != AesKeySize {
      return Failure(ShortKey(n));
    }
    assert key[..] == key[..n];
    r := NewCipher(key[..], aes);
  }

  /**
   * What Encrypt leaves behind for plaintext p, a reader that ends in end and a
   * sink that held before and had room: the sink then holds after and has room'
   * left, the reader still holds rest, and err is returned.
   *
   * While the sink has room for the padded plaintext, every block of it is
   * written and the reader is drained; at end of input the encrypted all-zero
   * block follows, as far as it fits (its write error is dropped), while a read
   * failure instead is returned with nothing more written. Once a block does not
   * fit, the sink is full, the write error is returned, and the reader keeps
   * what lies past that block.
   */
  ghost predicate EncryptOutcome(c: BlockCipher, iv: Block, p: seq<byte>, end: Error, room: Option<nat>,
                                 before: seq<byte>, after: seq<byte>, room': Option<nat>,
                                 rest: seq<byte>, err: Option<Error>)
  {
    var ct := EncryptStream(c, iv, p);
    var blocks := PaddedLength(|p|);
    if Fits(room, blocks) then
      && rest == []
      && (end == EOF ==> err == None && after == before + Clip(ct, room) && room' == Less(room, |ct|))
      && (end != EOF ==> err == Some(end) && after == before + ct[..blocks] && room' == Less(room, blocks))
    else
      && err == Some(WriteFailed)
      && after == before + ct[..room.value]
      && room' == Some(0)
      && rest == p[Min(|p|, (room.value / BlockSize + 1) * BlockSize)..]
  }

  /** A read failure once the plaintext is used up ends Encrypt with every padded block written. */
  lemma EncryptReadFailure(c: BlockCipher, iv: Block, p: seq<byte>, sent: seq<byte>, j: nat, stream: Block,
                           end: Error, room: Option<nat>, before: seq<byte>)
    requires EncryptProgress(c, p, EncryptStream(c, iv, p), sent, j, stream, [])
    requires Fits(room, |sent|) && end != EOF
    ensures EncryptOutcome(c, iv, p, end, room, before, before + sent, Less(room, |sent|), [], Some(end))
  {
    EncryptEnd(c, p, EncryptStream(c, iv, p), sent, j, stream, c.encrypt(Xor(ZeroBlock(), stream)));
  }

  /** End of input ends Encrypt with the final block written as far as it fits, and no error. */
  lemma EncryptEndOfInput(c: BlockCipher, iv: Block, p: seq<byte>, sent: seq<byte>, j: nat, stream: Block,
                          x: Block, room: Option<nat>, before: seq<byte>)
    requires EncryptProgress(c, p, EncryptStream(c, iv, p), sent, j, stream, [])
    requires Fits(room, |sent|) && x == c.encrypt(Xor(ZeroBlock(), stream))
    ensures EncryptOutcome(c, iv, p, EOF, room, before, before + sent + Clip(x, Less(room, |sent|)),
                           Less(Less(room, |sent|), BlockSize), [], None)
  {
    EncryptEnd(c, p, EncryptStream(c, iv, p), sent, j, stream, x);
    ClipAppend(sent, x, room);
    AppendAssoc(before, sent, Clip(x, Less(room, |sent|)));
  }

  /** A block that does not fit ends Encrypt with the sink full and the rest of the input unread. */
  lemma EncryptWriteFailure(c: BlockCipher, iv: Block, p: seq<byte>, sent: seq<byte>, j: nat, stream: Block,
                            data: seq<byte>, x: Block, rest: seq<byte>, end: Error, room: Option<nat>,
                            before: seq<byte>)
    requires EncryptProgress(c, p, EncryptStream(c, iv, p), sent, j, stream, data) && |data| > 0
    requires x == c.encrypt(Xor(FirstChunk(data), stream)) && rest == data[Min(BlockSize, |data|)..]
    requires Fits(room, |sent|) && !Fits(Less(room, |sent|), BlockSize)
    ensures EncryptOutcome(c, iv, p, end, room, before, before + sent + Clip(x, Less(room, |sent|)),
                           Less(Less(room, |sent|), BlockSize), rest, Some(WriteFailed))
  {
    EncryptOverflow(c, p, EncryptStream(c, iv, p), sent, j, stream, data, x, rest, room.value);
    assert !Fits(room, PaddedLength(|p|));
    FillUp(before, sent, x, EncryptStream(c, iv, p), room);
    assert before + sent + Clip(x, Less(room, |sent|)) == before + EncryptStream(c, iv, p)[..room.value];
  }

  /** A block that fits keeps Encrypt's loop invariant, with the block appended to what was sent. */
  lemma EncryptContinue(c: BlockCipher, iv: Block, p: seq<byte>, sent: seq<byte>, j: nat, stream: Block,
                        data: seq<byte>, x: Block, rest: seq<byte>, room: Option<nat>, before: seq<byte>)
    requires EncryptProgress(c, p, EncryptStream(c, iv, p), sent, j, stream, data) && |data| > 0
    requires x == c.encrypt(Xor(FirstChunk(data), stream)) && rest == data[Min(BlockSize, |data|)..]
    requires Fits(room, |sent|) && Fits(Less(room, |sent|), BlockSize)
    ensures EncryptProgress(c, p, EncryptStream(c, iv, p), sent + x, j + 1, x, rest)
    ensures Fits(room, |sent + x|)
    ensures before + sent + Clip(x, Less(room, |sent|)) == before + (sent + x)
    ensures Less(Less(room, |sent|), BlockSize) == Less(room, |sent + x|)
  {
    EncryptNext(c, p, EncryptStream(c, iv, p), sent, j, stream, data, x, rest);
    ClipAppend(sent, x, room);
    AppendAssoc(before, sent, x);
  }

  /**
   * Encrypt: read the input 16 bytes at a time into a zeroed block, CBC-encrypt
   * the block and write it, until a read reports end of input; that last
   * iteration still encrypts and writes its (all-zero) block. A read error other
   * than io.EOF is returned at once; a write error is returned except in the
   * end-of-input iteration, where it is dropped.
   */
  method Encrypt(c: BlockCipher, iv: seq<byte>, input: Reader, output: Writer) returns (err: Option<Error>)
    requires |iv| == BlockSize
    modifies input, output
    ensures EncryptOutcome(c, iv, old(input.data), input.end, old(output.room),
                           old(output.written), output.written, output.room, input.data, err)
  {
    var stream: Block := iv;  // the CBC encrypter's chaining value
    ghost var p, room, before := input.data, output.room, output.written;
    ghost var sent: seq<byte> := [];
    ghost var j: nat := 0;
    EncryptStart(c, iv, p);
    while true
      invariant EncryptProgress(c, p, EncryptStream(c, iv, p), sent, j, stream, input.data)
      invariant Fits(room, |sent|)
      invariant output.written == before + sent
      invariant output.room == Less(room, |sent|)
      decreases |input.data|
    {
      ghost var d := input.data;
      var plain := new byte[BlockSize](_ => 0);
      ghost var zero := plain[..];
      assert zero == Zeros(BlockSize);
      var n, rerr := input.Read(plain);
      if rerr.Some? && rerr.value != EOF {
        EncryptReadFailure(c, iv, p, sent, j, stream, input.end, room, before);
        return rerr;
      }
      var block: Block := plain[..];
      ReadChunk(block, d, n);
      var cryptic := c.encrypt(Xor(block, stream));
      var _, oErr := output.Write(cryptic);
      if rerr == Some(EOF) {
        EncryptEndOfInput(c, iv, p, sent, j, stream, cryptic, room, before);
        break;
      }
      if oErr.Some? {
        EncryptWriteFailure(c, iv, p, sent, j, stream, d, cryptic, input.data, input.end, room, before);
        return oErr;
      }
      EncryptContinue(c, iv, p, sent, j, stream, d, cryptic, input.data, room, before);
      stream := cryptic;
      sent, j := sent + cryptic, j + 1;
    }
    return None;
  }

  /**
   * What Decrypt leaves behind for ciphertext q, a reader that ends in end and a
   * sink that held before and had room: the sink then holds after and has room'
   * left, the reader still holds rest, and err is returned.
   *
   * While the sink has room for as many bytes as q holds, the decrypted stream is
   * written whole, the reader is drained, and only a read failure is returned.
   * Otherwise the sink is filled, the write error is returned, and the reader
   * keeps what lies past the block that did not fit.
   */
  ghost predicate DecryptOutcome(c: BlockCipher, iv: Block, q: seq<byte>, end: Error, room: Option<nat>,
                                 before: seq<byte>, after: seq<byte>, room': Option<nat>,
                                 rest: seq<byte>, err: Option<Error>)
  {
    var pt := DecryptStream(c, iv, q);
    if Fits(room, |q|) then
      && rest == []
      && after == before + pt
      && room' == Less(room, |q|)
      && err == if end == EOF then None else Some(end)
    else
      && err == Some(WriteFailed)
      && after == before + pt[..room.value]
      && room' == Some(0)
      && rest == q[Min(|q|, (room.value / BlockSize + 1) * BlockSize)..]
  }

  /** Once the ciphertext is used up, Decrypt ends: with no error at end of input, else with the read failure. */
  lemma DecryptFinish(c: BlockCipher, iv: Block, q: seq<byte>, sent: seq<byte>, j: nat, stream: Block,
                      end: Error, room: Option<nat>, before: seq<byte>)
    requires DecryptProgress(c, q, DecryptStream(c, iv, q), sent, j, stream, [])
    requires Fits(room, |sent|)
    ensures DecryptOutcome(c, iv, q, end, room, before, before + sent, Less(room, |sent|), [],
                           if end == EOF then None else Some(end))
  {
    DecryptEnd(c, q, DecryptStream(c, iv, q), sent, j, stream);
  }

  /** A chunk whose plaintext does not fit ends Decrypt with the sink full and the rest of the input unread. */
  lemma DecryptWriteFailure(c: BlockCipher, iv: Block, q: seq<byte>, sent: seq<byte>, j: nat, stream: Block,
                            data: seq<byte>, b: Block, y: seq<byte>, rest: seq<byte>, end: Error,
                            room: Option<nat>, before: seq<byte>)
    requires DecryptProgress(c, q, DecryptStream(c, iv, q), sent, j, stream, data) && |data| > 0
    requires b == FirstChunk(data) && y == Xor(c.decrypt(b), stream)[..Min(BlockSize, |data|)]
    requires rest == data[Min(BlockSize, |data|)..]
    requires Fits(room, |sent|) && !Fits(Less(room, |sent|), |y|)
    ensures DecryptOutcome(c, iv, q, end, room, before, before + sent + Clip(y, Less(room, |sent|)),
                           Less(Less(room, |sent|), |y|), rest, Some(WriteFailed))
  {
    DecryptOverflow(c, q, DecryptStream(c, iv, q), sent, j, stream, data, b, y, rest, room.value);
    assert !Fits(room, |q|);
    FillUp(before, sent, y, DecryptStream(c, iv, q), room);
    assert before + sent + Clip(y, Less(room, |sent|)) == before + DecryptStream(c, iv, q)[..room.value];
  }

  /** A block that fits keeps Decrypt's loop invariant, with its plaintext appended to what was sent. */
  lemma DecryptContinue(c: BlockCipher, iv: Block, q: seq<byte>, sent: seq<byte>, j: nat, stream: Block,
                        data: seq<byte>, b: Block, y: seq<byte>, rest: seq<byte>, room: Option<nat>,
                        before: seq<byte>)
    requires DecryptProgress(c, q, DecryptStream(c, iv, q), sent, j, stream, data) && |data| > 0
    requires b == FirstChunk(data) && y == Xor(c.decrypt(b), stream)[..Min(BlockSize, |data|)]
    requires rest == data[Min(BlockSize, |data|)..]
    requires Fits(room, |sent|) && Fits(Less(room, |sent|), |y|)
    ensures DecryptProgress(c, q, DecryptStream(c, iv, q), sent + y, j + 1, b, rest)
    ensures Fits(room, |sent + y|)
    ensures before + sent + Clip(y, Less(room, |sent|)) == before + (sent + y)
    ensures Less(Less(room, |sent|), |y|) == Less(room, |sent + y|)
  {
    DecryptNext(c, q, DecryptStream(c, iv, q), sent, j, stream, data, b, y, rest);
    ClipAppend(sent, y, room);
    AppendAssoc(before, sent, y);
  }

  /**
   * Decrypt: read the input 16 bytes at a time into a zeroed block, CBC-decrypt
   * the block and write as many bytes of it as the read returned, until a read
   * reports end of input. Errors are handled as in Encrypt.
   */
  method Decrypt(c: BlockCipher, iv: seq<byte>, input: Reader, output: Writer) returns (err: Option<Error>)
    requires |iv| == BlockSize
    modifies input, output
    ensures DecryptOutcome(c, iv, old(input.data), input.end, old(output.room),
                           old(output.written), output.written, output.room, input.data, err)
  {
    var stream: Block := iv;  // the CBC decrypter's chaining value
    ghost var q, room, before := input.data, output.room, output.written;
    ghost var sent: seq<byte> := [];
    ghost var j: nat := 0;
    DecryptStart(c, iv, q);
    while true
      invariant DecryptProgress(c, q, DecryptStream(c, iv, q), sent, j, stream, input.data)
      invariant Fits(room, |sent|)
      invariant output.written == before + sent
      invariant output.room == Less(room, |sent|)
      decreases |input.data|
    {
      ghost var d := input.data;
      var cryptic := new byte[BlockSize](_ => 0);
      ghost var zero := cryptic[..];
      assert zero == Zeros(BlockSize);
      var s, rerr := input.Read(cryptic);
      if rerr.Some? && rerr.value != EOF {
        DecryptFinish(c, iv, q, sent, j, stream, input.end, room, before);
        return rerr;
      }
      var block: Block := cryptic[..];
      ReadChunk(block, d, s);
      var plain := Xor(c.decrypt(block), stream);
      var chained := stream;
      stream := block;
      var _, oErr := output.Write(plain[..s]);
      if rerr == Some(EOF) {
        WriteNothing(before + sent, plain[..s], Less(room, |sent|));
        DecryptFinish(c, iv, q, sent, j, chained, input.end, room, before);
        break;
      }
      if oErr.Some? {
        DecryptWriteFailure(c, iv, q, sent, j, chained, d, block, plain[..s], input.data, input.end, room, before);
        return oErr;
      }
      DecryptContinue(c, iv, q, sent, j, chained, d, block, plain[..s], input.data, room, before);
      sent, j := sent + plain[..s], j + 1;
    }
    return None;
  }

  /** Into an empty bytes.Buffer, from a bytes.Buffer, Encrypt writes the whole ciphertext and succeeds. */
  lemma EncryptIntoBuffer(c: BlockCipher, iv: Block, p: seq<byte>, after: seq<byte>, room': Option<nat>,
                          rest: seq<byte>, err: Option<Error>)
    requires EncryptOutcome(c, iv, p, EOF, None, [], after, room', rest, err)
    ensures err == None && after == EncryptStream(c, iv, p)
  {
    assert [] + EncryptStream(c, iv, p) == EncryptStream(c, iv, p);
  }

  /** Into an empty bytes.Buffer, from a bytes.Buffer, Decrypt writes the whole decrypted stream and succeeds. */
  lemma DecryptIntoBuffer(c: BlockCipher, iv: Block, q: seq<byte>, after: seq<byte>, room': Option<nat>,
                          rest: seq<byte>, err: Option<Error>)
    requires DecryptOutcome(c, iv, q, EOF, None, [], after, room', rest, err)
    ensures err == None && after == DecryptStream(c, iv, q)
  {
    assert [] + DecryptStream(c, iv, q) == DecryptStream(c, iv, q);
  }

  /**
   * TestWriteReadHeader: a header made by NewHeader, written to a buffer and read
   * back, has the same version and IV, and the read takes all 17 bytes.
   */
  method HeaderRoundTrip(iv: seq<byte>)
    returns (written: Option<Error>, wire: seq<byte>, r: Result<Header, Error>, left: seq<byte>)
    requires |iv| == IvBytes
    ensures written == None
    ensures |wire| == HeaderSize && wire[VersionBytes..] == iv
    ensures r == Success(NewHeader(iv)) && left == []
  {
    var h := NewHeader(iv);
    var b := new Writer(None);
    written := WriteHeader(h, b);
    HeaderBytesLayout(h);
    wire := b.written;
    assert wire == [DigitByte(1)] + iv;
    DigitRoundTrip(1);
    assert IsDigit(wire[0]) && DigitValue(wire[0]) == 1;
    var src := new Reader(wire, EOF);
    r := ReadHeader(src);
    left := src.data;
    assert r.value.iv == iv && r.value.version == 1;
  }

  /**
   * TestWriteEncryptDecrypt: encrypting a buffer and decrypting the result gives
   * back the plaintext as a prefix, followed only by zero bytes, and the
   * ciphertext is a whole number of blocks, one more than the plaintext fills,
   * so it differs from the plaintext.
   */
  method EncryptDecrypt(c: BlockCipher, iv: seq<byte>, data: seq<byte>)
    returns (e: seq<byte>, d: seq<byte>, encErr: Option<Error>, decErr: Option<Error>)
    requires Invertible(c) && |iv| == BlockSize
    ensures encErr == None && decErr == None
    ensures |e| == BlockSize * ((|data| + BlockSize - 1) / BlockSize + 1) && e != data
    ensures |d| == |e| && d[..|data|] == data && AllZero(d[|data|..])
  {
    var source := new Reader(data, EOF);
    var sink := new Writer(None);
    encErr := Encrypt(c, iv, source, sink);
    EncryptIntoBuffer(c, iv, data, sink.written, sink.room, source.data, encErr);
    e := sink.written;
    var back := new Reader(e, EOF);
    var plain := new Writer(None);
    decErr := Decrypt(c, iv, back, plain);
    DecryptIntoBuffer(c, iv, e, plain.written, plain.room, back.data, decErr);
    d := plain.written;
    RoundTrip(c, iv, data, e, d);
  }
}
