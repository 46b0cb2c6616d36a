/**
 * The command-line front end (package main, without main and its flags): the
 * same codec as Capi, but a failure is only reported on standard output and
 * the work goes on, or the process halts through os.Exit(-1).
 */
module Crypter {
  import opened Common
  import opened Decimal
  import opened Cbc
  import opened Streams
  import opened Format
  import opened Loops

  /** How a call ends: it returns (with a value), or the process halts with an exit code. */
  datatype Status<T> = Done(value: T) | Exited(code: int)

  /** The code every failure halts with. */
  const FailureCode: int := -1

  /**
   * writeHeader: stage the version text and the IV, then hand them to the sink
   * in one write. A staged header of other than 17 bytes, a write error and a
   * short write are only printed: the sink gets the staged bytes regardless.
   */
  method WriteHeader(h: Header, file: Writer)
    modifies file
    ensures file.written == old(file.written) + Clip(HeaderBytes(h), old(file.room))
    ensures file.room == Less(old(file.room), |HeaderBytes(h)|)
  {
    var data := new Writer(None);
    var _, _ := data.Write(FormatInt(h.version));
    var _, _ := data.Write(h.iv);
    assert data.written == HeaderBytes(h);
    // a size other than VERSION_BYTES + IV_BYTES is only printed
    // data.WriteTo(file): a single Write of everything staged; its errors are only printed
    var _, _ := file.Write(data.written);
  }

  /**
   * readHeader: one read of the 1-byte version field into a zeroed buffer, parsed
   * as a decimal number, then one read into a zeroed 16-byte IV buffer. Short
   * reads are only printed; a version that does not parse gives no header.
   */
  method ReadHeader(file: Reader) returns (h: Option<Header>)
    modifies file
    ensures var d := old(file.data);
      if |d| == 0 || !IsDigit(d[0]) then
        h == None && file.data == d[Min(VersionBytes, |d|)..]
      else
        var m := Min(IvBytes, |d| - VersionBytes);
        && h.Some? && |h.value.iv| == IvBytes
        && h.value.version as int == DigitValue(d[0])
        && h.value.iv == d[VersionBytes..VersionBytes + m] + Zeros(IvBytes - m)
        && file.data == d[VersionBytes + m..]
  {
    var data := new byte[VersionBytes](_ => 0);
    var s, err := file.Read(data);
    // a read of other than VERSION_BYTES bytes is only printed
    var version := ParseByte(data[0]);
    if version.Failure? {
      return None;
    }
    data := new byte[IvBytes](_ => 0);
    ghost var zero := data[..];
    assert zero == Zeros(IvBytes);
    s, err := file.Read(data);
    // a read of other than IV_BYTES bytes is only printed
    assert data[..] == data[..s] + data[s..];
    return Some(Header(version.value, data[..]));
  }

  /**
   * readKey: a single read of 32 bytes. A read error, a read of fewer bytes and a
   * key the cipher refuses each halt the process.
   */
  method ReadKey(input: Reader, aes: seq<byte> -> BlockCipher) returns (r: Status<BlockCipher>)
    modifies input
    ensures var d := old(input.data);
      && input.data == d[Min(AesKeySize, |d|)..]
      && (r.Done? <==> |d| >= AesKeySize)
      && (r.Done? ==> r.value == aes(d[..AesKeySize]))
      && (r.Exited? ==> r.code == FailureCode)
  {
    var key := new byte[AesKeySize](_ => 0);
    var n, err := input.Read(key);
    if err.Some? {
      return Exited(FailureCode);
    }
    if n != AesKeySize {
      return Exited(FailureCode);
    }
    assert key[..] == key[..n];
    var c := NewCipher(key[..], aes);
    if c.Failure? {
      return Exited(FailureCode);
    }
    return Done(c.value);
  }

  /**
   * What encrypt leaves behind for plaintext p, a reader that ends in end and a
   * sink that held before and had room: the sink then holds after and has room'
   * left, and the reader holds rest. Write errors are ignored, so the sink gets
   * the ciphertext as far as it has room. At end of input the call returns; a
   * read failure halts the process before the final block is encrypted.
   */
  ghost predicate EncryptOutcome(c: BlockCipher, iv: Block, p: seq<byte>, end: Error, room: Option<nat>,
                                 before: seq<byte>, after: seq<byte>, room': Option<nat>,
                                 rest: seq<byte>, status: Status<()>)
  {
    var ct := EncryptStream(c, iv, p);
    var blocks := PaddedLength(|p|);
    && rest == []
    && (end == EOF ==>
          status == Done(()) && after == before + Clip(ct, room) && room' == Less(room, |ct|))
    && (end != EOF ==>
          status == Exited(FailureCode) && after == before + Clip(ct[..blocks], room) &&
          room' == Less(room, blocks))
  }

  /** A read failure once the plaintext is used up halts encrypt with the padded blocks sent. */
  lemma EncryptReadFailure(c: BlockCipher, iv: Block, p: seq<byte>, sent: seq<byte>, j: nat, stream: Block,
                           end: Error, room: Option<nat>, before: seq<byte>)
    requires EncryptProgress(c, p, EncryptStream(c, iv, p), sent, j, stream, []) && end != EOF
    ensures EncryptOutcome(c, iv, p, end, room, before, before + Clip(sent, room), Less(room, |sent|),
                           [], Exited(FailureCode))
  {
    EncryptEnd(c, p, EncryptStream(c, iv, p), sent, j, stream, c.encrypt(Xor(ZeroBlock(), stream)));
  }

  /** End of input ends encrypt once the final block is sent. */
  lemma EncryptEndOfInput(c: BlockCipher, iv: Block, p: seq<byte>, sent: seq<byte>, j: nat, stream: Block,
                          x: Block, room: Option<nat>, before: seq<byte>)
    requires EncryptProgress(c, p, EncryptStream(c, iv, p), sent, j, stream, [])
    requires x == c.encrypt(Xor(ZeroBlock(), stream))
    ensures EncryptOutcome(c, iv, p, EOF, room, before, before + Clip(sent, room) + Clip(x, Less(room, |sent|)),
                           Less(Less(room, |sent|), BlockSize), [], Done(()))
  {
    EncryptEnd(c, p, EncryptStream(c, iv, p), sent, j, stream, x);
    ClipAppend(sent, x, room);
    AppendAssoc(before, Clip(sent, room), Clip(x, Less(room, |sent|)));
  }

  /** Each block sent keeps encrypt's loop invariant, whether or not the sink has room for it. */
  lemma EncryptContinue(c: BlockCipher, iv: Block, p: seq<byte>, sent: seq<byte>, j: nat, stream: Block,
                        data: seq<byte>, x: Block, rest: seq<byte>, room: Option<nat>, before: seq<byte>)
    requires EncryptProgress(c, p, EncryptStream(c, iv, p), sent, j, stream, data) && |data| > 0
    requires x == c.encrypt(Xor(FirstChunk(data), stream)) && rest == data[Min(BlockSize, |data|)..]
    ensures EncryptProgress(c, p, EncryptStream(c, iv, p), sent + x, j + 1, x, rest)
    ensures before + Clip(sent, room) + Clip(x, Less(room, |sent|)) == before + Clip(sent + x, room)
    ensures Less(Less(room, |sent|), BlockSize) == Less(room, |sent + x|)
  {
    EncryptNext(c, p, EncryptStream(c, iv, p), sent, j, stream, data, x, rest);
    ClipAppend(sent, x, room);
    AppendAssoc(before, Clip(sent, room), Clip(x, Less(room, |sent|)));
  }

  /**
   * encrypt: read the input 16 bytes at a time into a zeroed block, CBC-encrypt
   * the block and write it, until a read reports end of input; that last
   * iteration still encrypts and writes its (all-zero) block. A read error other
   * than io.EOF halts the process; write errors are not looked at.
   */
  method Encrypt(c: BlockCipher, iv: seq<byte>, input: Reader, output: Writer) returns (status: Status<()>)
    requires |iv| == BlockSize
    modifies input, output
    ensures EncryptOutcome(c, iv, old(input.data), input.end, old(output.room),
                           old(output.written), output.written, output.room, input.data, status)
  {
    var stream: Block := iv;  // the CBC encrypter's chaining value
    ghost var p, room, before := input.data, output.room, output.written;
    ghost var sent: seq<byte> := [];
    ghost var j: nat := 0;
    EncryptStart(c, iv, p);
    while true
      invariant EncryptProgress(c, p, EncryptStream(c, iv, p), sent, j, stream, input.data)
      invariant output.written == before + Clip(sent, room)
      invariant output.room == Less(room, |sent|)
      decreases |input.data|
    {
      ghost var d := input.data;
      var plain := new byte[BlockSize](_ => 0);
      ghost var zero := plain[..];
      assert zero == Zeros(BlockSize);
      var n, rerr := input.Read(plain);
      if rerr.Some? && rerr.value != EOF {
        EncryptReadFailure(c, iv, p, sent, j, stream, input.end, room, before);
        return Exited(FailureCode);
      }
      var block: Block := plain[..];
      ReadChunk(block, d, n);
      var cryptic := c.encrypt(Xor(block, stream));
      var _, _ := output.Write(cryptic);
      if rerr == Some(EOF) {
        EncryptEndOfInput(c, iv, p, sent, j, stream, cryptic, room, before);
        break;
      }
      EncryptContinue(c, iv, p, sent, j, stream, d, cryptic, input.data, room, before);
      stream := cryptic;
      sent, j := sent + cryptic, j + 1;
    }
    return Done(());
  }

  /**
   * What decrypt leaves behind for ciphertext q, a reader that ends in end and a
   * sink that held before and had room: the sink gets the decrypted stream as
   * far as it has room, the reader is drained, and the call returns at end of
   * input or halts the process on a read failure.
   */
  ghost predicate DecryptOutcome(c: BlockCipher, iv: Block, q: seq<byte>, end: Error, room: Option<nat>,
                                 before: seq<byte>, after: seq<byte>, room': Option<nat>,
                                 rest: seq<byte>, status: Status<()>)
  {
    var pt := DecryptStream(c, iv, q);
    && rest == []
    && after == before + Clip(pt, room)
    && room' == Less(room, |q|)
    && status == if end == EOF then Done(()) else Exited(FailureCode)
  }

  /** Once the ciphertext is used up, decrypt ends, whether the last read meets end of input or fails. */
  lemma DecryptFinish(c: BlockCipher, iv: Block, q: seq<byte>, sent: seq<byte>, j: nat, stream: Block,
                      end: Error, room: Option<nat>, before: seq<byte>)
    requires DecryptProgress(c, q, DecryptStream(c, iv, q), sent, j, stream, [])
    ensures DecryptOutcome(c, iv, q, end, room, before, before + Clip(sent, room), Less(room, |sent|), [],
                           if end == EOF then Done(()) else Exited(FailureCode))
  {
    DecryptEnd(c, q, DecryptStream(c, iv, q), sent, j, stream);
  }

  /** Each block's plaintext sent keeps decrypt's loop invariant, whether or not the sink has room for it. */
  lemma DecryptContinue(c: BlockCipher, iv: Block, q: seq<byte>, sent: seq<byte>, j: nat, stream: Block,
                        data: seq<byte>, b: Block, y: seq<byte>, rest: seq<byte>, room: Option<nat>,
                        before: seq<byte>)
    requires DecryptProgress(c, q, DecryptStream(c, iv, q), sent, j, stream, data) && |data| > 0
    requires b == FirstChunk(data) && y == Xor(c.decrypt(b), stream)[..Min(BlockSize, |data|)]
    requires rest == data[Min(BlockSize, |data|)..]
    ensures DecryptProgress(c, q, DecryptStream(c, iv, q), sent + y, j + 1, b, rest)
    ensures before + Clip(sent, room) + Clip(y, Less(room, |sent|)) == before + Clip(sent + y, room)
    ensures Less(Less(room, |sent|), |y|) == Less(room, |sent + y|)
  {
    DecryptNext(c, q, DecryptStream(c, iv, q), sent, j, stream, data, b, y, rest);
    ClipAppend(sent, y, room);
    AppendAssoc(before, Clip(sent, room), Clip(y, Less(room, |sent|)));
  }

  /**
   * decrypt: read the input 16 bytes at a time into a zeroed block, CBC-decrypt
   * the block and write as many bytes of it as the read returned, until a read
   * reports end of input. A read error other than io.EOF halts the process;
   * write errors are not looked at.
   */
  method Decrypt(c: BlockCipher, iv: seq<byte>, input: Reader, output: Writer) returns (status: Status<()>)
    requires |iv| == BlockSize
    modifies input, output
    ensures DecryptOutcome(c, iv, old(input.data), input.end, old(output.room),
                           old(output.written), output.written, output.room, input.data, status)
  {
    var stream: Block := iv;  // the CBC decrypter's chaining value
    ghost var q, room, before := input.data, output.room, output.written;
    ghost var sent: seq<byte> := [];
    ghost var j: nat := 0;
    DecryptStart(c, iv, q);
    while true
      invariant DecryptProgress(c, q, DecryptStream(c, iv, q), sent, j, stream, input.data)
      invariant output.written == before + Clip(sent, room)
      invariant output.room == Less(room, |sent|)
      decreases |input.data|
    {
      ghost var d := input.data;
      var cryptic := new byte[BlockSize](_ => 0);
      ghost var zero := cryptic[..];
      assert zero == Zeros(BlockSize);
      var s, rerr := input.Read(cryptic);
      if rerr.Some? && rerr.value != EOF {
        DecryptFinish(c, iv, q, sent, j, stream, input.end, room, before);
        return Exited(FailureCode);
      }
      var block: Block := cryptic[..];
      ReadChunk(block, d, s);
      var plain := Xor(c.decrypt(block), stream);
      var chained := stream;
      stream := block;
      var _, _ := output.Write(plain[..s]);
      if rerr == Some(EOF) {
        WriteNothing(before + Clip(sent, room), plain[..s], Less(room, |sent|));
        DecryptFinish(c, iv, q, sent, j, chained, input.end, room, before);
        break;
      }
      DecryptContinue(c, iv, q, sent, j, chained, d, block, plain[..s], input.data, room, before);
      sent, j := sent + plain[..s], j + 1;
    }
    return Done(());
  }

  /** Into an empty bytes.Buffer, from a bytes.Buffer, Encrypt writes the whole ciphertext and succeeds. */
  lemma EncryptIntoBuffer(c: BlockCipher, iv: Block, p: seq<byte>, after: seq<byte>, room': Option<nat>,
                          rest: seq<byte>, status: Status<()>)
    requires EncryptOutcome(c, iv, p, EOF, None, [], after, room', rest, status)
    ensures status == Done(()) && after == EncryptStream(c, iv, p)
  {
    assert [] + EncryptStream(c, iv, p) == EncryptStream(c, iv, p);
  }

  /** Into an empty bytes.Buffer, from a bytes.Buffer, Decrypt writes the whole decrypted stream and succeeds. */
  lemma DecryptIntoBuffer(c: BlockCipher, iv: Block, q: seq<byte>, after: seq<byte>, room': Option<nat>,
                          rest: seq<byte>, status: Status<()>)
    requires DecryptOutcome(c, iv, q, EOF, None, [], after, room', rest, status)
    ensures status == Done(()) && after == DecryptStream(c, iv, q)
  {
    assert [] + DecryptStream(c, iv, q) == DecryptStream(c, iv, q);
  }

  /**
   * TestWriteReadHeader, for every single-digit version: a header written to a
   * buffer and read back has the same version and IV, and the read takes all
   * 17 bytes.
   */
  method HeaderRoundTrip(version: int64, iv: seq<byte>) returns (wire: seq<byte>, h: Option<Header>, left: seq<byte>)
    requires 0 <= version <= 9 && |iv| == IvBytes
    ensures |wire| == HeaderSize && wire[VersionBytes..] == iv
    ensures h == Some(Header(version, iv))
    ensures left == []
  {
    var b := new Writer(None);
    WriteHeader(Header(version, iv), b);
    HeaderBytesLayout(Header(version, iv));
    wire := b.written;
    assert wire == [DigitByte(version as int)] + iv;
    DigitRoundTrip(version as int);
    assert IsDigit(wire[0]) && DigitValue(wire[0]) == version as int;
    var src := new Reader(wire, EOF);
    h := ReadHeader(src);
    left := src.data;
    assert wire[VersionBytes..HeaderSize] == iv;
    assert left == wire[HeaderSize..];
    assert iv + Zeros(0) == iv;
    assert h.value.iv == iv && h.value.version == version;
  }

  /**
   * TestWriteEncryptDecrypt: the ciphertext differs from the plaintext, and
   * decrypting it gives back the plaintext followed by zero bytes only. The
   * result is always longer than the plaintext, so the test's closing check that
   * the two are equal does not hold.
   */
  method EncryptDecrypt(c: BlockCipher, iv: seq<byte>, data: seq<byte>)
    returns (e: seq<byte>, d: seq<byte>, encStatus: Status<()>, decStatus: Status<()>)
    requires Invertible(c) && |iv| == BlockSize
    ensures encStatus == Done(()) && decStatus == Done(())
    ensures e != data && d != data
    ensures |d| == |e| == BlockSize * ((|data| + BlockSize - 1) / BlockSize + 1)
    ensures d[..|data|] == data && AllZero(d[|data|..])
  {
    var source := new Reader(data, EOF);
    var sink := new Writer(None);
    encStatus := Encrypt(c, iv, source, sink);
    EncryptIntoBuffer(c, iv, data, sink.written, sink.room, source.data, encStatus);
    e := sink.written;
    var back := new Reader(e, EOF);
    var plain := new Writer(None);
    decStatus := Decrypt(c, iv, back, plain);
    DecryptIntoBuffer(c, iv, e, plain.written, plain.room, back.data, decStatus);
    d := plain.written;
    RoundTrip(c, iv, data, e, d);
  }
}
