# crypter, modelled in Dafny

crypter encrypts a byte stream with AES-256 in CBC mode. The output is a small
header followed by the ciphertext. The header holds the decimal text of the
format version (`1`) and the 16-byte IV, so it is 17 bytes. There are two front
ends to the same codec:

- `capi` (package `capi`) returns every failure to its caller as an `error`.
- `crypter.go` (package `main`) prints most failures and goes on, and halts the
  process with `os.Exit(-1)` on the rest.

The model has these modules:

- `Common`: bytes, Go's `int64`, option and result wrappers, and the error values.
- `Streams`: the `io.Reader` and `io.Writer` the codec talks to. `Reader` has
  `bytes.Buffer` semantics and ends either in `io.EOF` or in a read failure.
  `Writer` appends what it is given and may have limited room; a write that does
  not fit is cut short and fails.
- `Decimal`: `strconv.FormatInt(v, 10)`, and `strconv.ParseInt` on the one-byte
  strings the header reader passes it.
- `Format`: the constants, the header record and its wire bytes.
- `Cbc`: CBC encryption and decryption (section 6.2 of NIST SP 800-38A) over an
  abstract block cipher. It also gives the byte-level streams the codec's loops
  produce: `EncryptStream` and `DecryptStream`.
- `Loops`: the loop state the encrypt and decrypt loops keep, stated on values,
  and the lemmas that carry it across one iteration.
- `Capi` and `Crypter`: the two front ends, as imperative methods over
  `Reader`/`Writer` objects. The two Go tests are modelled as client methods.

The loops read 16 bytes at a time into a zeroed buffer, and the encrypt loop also
encrypts the all-zero buffer of the iteration that meets end of input. So the
ciphertext of p is `⌈|p|/16⌉ + 1` blocks long. Decrypting it gives p, then the
zero fill of p's last block, then 16 zero bytes. The decrypted text is therefore
never equal to p. The closing check of `TestWriteEncryptDecrypt` in
`crypter_test.go` (lines 44-46) compares the whole output with p, so it does not
hold; `Crypter.EncryptDecrypt` states this. The capi test reads back only
`len(data)` bytes, and that prefix is p (`Capi.EncryptDecrypt`).

## Model

| member | source | states |
|---|---|---|
| Decimal.DigitRoundTrip | capi/api.go:60 | Reading the value of the ASCII digit of d gives back d. |
| Decimal.DigitsValue | capi/api.go:33 | The decimal digits of n denote n. |
| Decimal.FormatIntText | capi/api.go:33 | FormatInt(v, 10) has a minus sign exactly when v < 0, and then decimal digits that denote abs(v). It is one byte long exactly for 0..9, and that byte is v's digit. |
| Decimal.ParseByte | capi/api.go:60-63 | ParseInt of a one-byte string succeeds exactly on a digit, with a value 0..9 whose FormatInt text is that byte. Anything else, a lone sign included, is a syntax error. |
| Decimal.ParseFormatDigit | crypter.go:53 | Parsing the text of a version 0..9 gives that version back. |
| Format.HeaderBytesLayout | capi/api.go:32-36 | With a 16-byte IV, the staged header has 17 bytes exactly when the version is 0..9. It is then the version's digit followed by the IV, and its first byte parses back to the version. |
| Format.LengthCheckIsOnTotal | capi/api.go:35-39 | The 17-byte check looks only at the total: version 10 with a 15-byte IV also passes it, and its first byte reads back as version 1. |
| Streams.Reader.Read | capi/api.go:116 | A read into p gives min(len(p), remaining) bytes and leaves the rest of p untouched. It has no error while bytes remain, and the reader's end error once they are gone. |
| Streams.Writer.Write | capi/api.go:123 | A write appends what fits in the room left and reports WriteFailed exactly when that is not all of p. |
| Cbc.XorCancel | capi/api.go:143 | Xor-ing the same block twice is the identity. |
| Cbc.CbcEncryptAt | capi/api.go:113-122 | Block i of the CBC encryption is E(P_i xor IV) for i = 0, else E(P_i xor C_(i-1)). |
| Cbc.CbcDecryptAt | capi/api.go:135-143 | Block i of the CBC decryption is D(C_i) xor IV for i = 0, else D(C_i) xor C_(i-1). |
| Cbc.CbcRoundTrip | capi/api.go:112-153 | With an invertible block cipher, CBC decryption under an IV undoes CBC encryption under that IV. |
| Cbc.Chunks | capi/api.go:114-116 | The blocks that successive 16-byte reads fill hold p in the fewest whole blocks. |
| Cbc.PaddedLength | capi/api.go:115 | The padded length is a multiple of 16, at least n and less than n + 16. |
| Cbc.ChunksCount | capi/api.go:114-126 | p is cut into ⌈|p|/16⌉ blocks, which together are PaddedLength(|p|) bytes. |
| Cbc.ReadChunk | capi/api.go:115-116 | A read of at most 16 bytes into a zeroed buffer fills the block FirstChunk gives. |
| Cbc.ChunksStep | capi/api.go:114-116 | One read takes the first block of the input, and the remaining blocks are those of the rest. |
| Cbc.FlattenChunks | capi/api.go:114-122 | The blocks laid end to end are p followed by zero bytes up to the padded length. |
| Cbc.ChunksFlatten | capi/api.go:136-143 | Cutting a whole number of blocks back into blocks gives those blocks. |
| Cbc.EncryptStream | capi/api.go:114-126 | The ciphertext the encrypt loop writes is PaddedLength(|p|) + 16 bytes long: ⌈|p|/16⌉ + 1 blocks. |
| Cbc.DecryptStream | capi/api.go:138-144 | The decrypt loop writes exactly as many bytes as it reads. |
| Cbc.EncryptStreamIsCbc | capi/api.go:112-132 | The encrypt loop's output is the NIST CBC encryption of the input's blocks followed by one all-zero block. |
| Cbc.DecryptStreamIsCbc | capi/api.go:134-153 | The decrypt loop's output is the NIST CBC decryption of the input's blocks, cut to the input's length. |
| Cbc.DecryptEncryptStream | crypter.go:111-145 | With an invertible cipher, decrypting the encrypted stream gives p, then the zero fill of its last block, then 16 zero bytes. The proof goes through the block level: the encrypt loop's output is CBC of the chunks, the decrypt loop cuts it back into the same blocks, and CBC decryption undoes CBC encryption. |
| Cbc.FlattenAppend | capi/api.go:114-122 | The bytes of two block sequences laid end to end are the bytes of each, one after the other. |
| Cbc.PaddedLengthBlocks | capi/api.go:114-126 | The padded length plus the final block is 16 × (⌈n/16⌉ + 1). |
| Cbc.RecoverPrefix | crypter.go:129-145 | Decrypting the ciphertext gives a stream that starts with p and has only zero bytes after it. |
| Cbc.RoundTrip | crypter_test.go:38-46 | The ciphertext is 16 × (⌈|p|/16⌉ + 1) bytes and differs from p. The decryption has the same length, differs from p, starts with p and is zero after it. |
| Loops.EncryptStart | capi/api.go:113 | Before the first read, the encrypt loop state holds with nothing read and nothing written, chained from the IV. |
| Loops.EncryptNext | capi/api.go:115-123 | One iteration on a non-empty remainder takes the next block of input, appends its encryption, and keeps the loop state. |
| Loops.EncryptOverflow | capi/api.go:123-129 | When a sink's room ends inside the next block: the room is less than the padded length, the bytes written so far are a prefix of the ciphertext, and the reader keeps the input past that block. |
| Loops.EncryptEnd | capi/api.go:121-126 | Once the input is used up, the padded blocks have been written, and the ciphertext is those blocks plus the encrypted zero block. |
| Loops.DecryptStart | capi/api.go:135 | Before the first read, the decrypt loop state holds with nothing read and nothing written. |
| Loops.DecryptNext | capi/api.go:137-144 | One iteration decrypts the next block, appends as many bytes as were read, chains on the ciphertext block, and keeps the loop state. |
| Loops.DecryptOverflow | capi/api.go:144-150 | When a sink's room ends inside the next plaintext piece: the room is less than the input length, what was written is a prefix of the plaintext, and the reader keeps the input past that block. |
| Loops.DecryptEnd | capi/api.go:145-147 | Once the input is used up, the whole decrypted stream has been written. |
| Capi.NewHeader | capi/api.go:27-29 | A new header carries version 1 and the given IV. |
| Capi.WriteHeader | capi/api.go:31-50 | A staged header of other than 17 bytes is refused with nothing written. Otherwise the sink gets the 17 bytes as far as it has room, and a short write is an error. |
| Capi.ReadHeader | capi/api.go:52-74 | An empty source or a non-digit first byte is a syntax error. A source shorter than 17 bytes is a short-IV error with the source drained. Otherwise the header is the digit's version and the next 16 bytes, and the source keeps the rest. |
| Capi.GenKey | capi/api.go:77-85 | A negative size panics. Otherwise the result is size random bytes, or a panic when the random source comes up short. |
| Capi.GenIV | capi/api.go:88-90 | The result is 16 random bytes, or a panic. |
| Capi.ReadKey | capi/api.go:93-109 | One read of 32 bytes. The cipher is built from the first 32 bytes exactly when the source holds at least 32. An empty source returns the reader's error, and a shorter one a short-key error. |
| Capi.EncryptReadFailure | capi/api.go:116-120 | A read failure after the last block returns that error, with all padded blocks written. |
| Capi.EncryptEndOfInput | capi/api.go:121-126 | End of input writes the encrypted zero block as far as it fits, drops its write error, and returns no error. |
| Capi.EncryptWriteFailure | capi/api.go:123-129 | A block that does not fit fills the sink to its room with a prefix of the ciphertext and returns WriteFailed; the reader keeps the input past that block. |
| Capi.EncryptContinue | capi/api.go:114-130 | A block that fits keeps the loop invariant. |
| Capi.Encrypt | capi/api.go:112-132 | The sink gets the ciphertext of the reader's contents, as far as it has room. A read failure is returned after the padded blocks; a write failure is returned with the sink full; at end of input the result is no error. |
| Capi.DecryptFinish | capi/api.go:138-147 | Once the input is used up, the whole plaintext has been written: the result is no error at end of input, else the read failure. |
| Capi.DecryptWriteFailure | capi/api.go:144-150 | A piece that does not fit fills the sink to its room with a prefix of the plaintext and returns WriteFailed; the reader keeps the input past that block. |
| Capi.DecryptContinue | capi/api.go:136-151 | A piece that fits keeps the loop invariant. |
| Capi.Decrypt | capi/api.go:134-153 | The sink gets the decryption of the reader's contents, as far as it has room. A write failure is returned with the sink full; otherwise the result is no error at end of input, else the read failure. |
| Capi.EncryptIntoBuffer | capi/api_test.go:36-39 | From one bytes.Buffer into an empty one, Encrypt writes the whole ciphertext and returns no error. |
| Capi.DecryptIntoBuffer | capi/api_test.go:45-46 | From one bytes.Buffer into an empty one, Decrypt writes the whole decrypted stream and returns no error. |
| Capi.HeaderRoundTrip | capi/api_test.go:10-27 | A new header with a 16-byte IV passes the 17-byte check and is written to a buffer with no error. The 17 bytes read back with no error, version 1 and the same IV, leaving nothing unread. |
| Capi.EncryptDecrypt | capi/api_test.go:28-53 | Both calls return no error. The ciphertext is ⌈n/16⌉ + 1 blocks and differs from the data. The decryption has the same length, its first len(data) bytes are the data, and the rest are zero. |
| Crypter.WriteHeader | crypter.go:28-43 | The sink gets the staged header bytes as far as it has room, whatever their length; size and write errors are only printed. |
| Crypter.ReadHeader | crypter.go:45-72 | An empty source or a non-digit first byte gives no header. Otherwise the version is the digit, and the IV is the next at most 16 bytes padded with zero bytes to 16 when the source is short. |
| Crypter.ReadKey | crypter.go:91-108 | One read of 32 bytes. The cipher is built from the first 32 bytes exactly when the source holds at least 32; otherwise the process halts with code -1. |
| Crypter.EncryptReadFailure | crypter.go:115-119 | A read failure after the last block halts with code -1, with all padded blocks written. |
| Crypter.EncryptEndOfInput | crypter.go:120-125 | End of input writes the encrypted zero block as far as it fits and returns. |
| Crypter.EncryptContinue | crypter.go:113-126 | Each block, written as far as the sink has room, keeps the loop invariant. |
| Crypter.Encrypt | crypter.go:111-127 | The sink gets the ciphertext as far as it has room; write errors are ignored. End of input returns; a read failure halts with code -1 after the padded blocks. |
| Crypter.DecryptFinish | crypter.go:133-142 | Once the input is used up, the whole plaintext has been written as far as it fits. The call returns at end of input and halts with -1 on a read failure. |
| Crypter.DecryptContinue | crypter.go:131-144 | Each piece, written as far as the sink has room, keeps the loop invariant. |
| Crypter.Decrypt | crypter.go:129-145 | The sink gets the decryption as far as it has room; write errors are ignored. End of input returns; a read failure halts with code -1. |
| Crypter.EncryptIntoBuffer | crypter_test.go:35-39 | From one bytes.Buffer into an empty one, encrypt writes the whole ciphertext and returns. |
| Crypter.DecryptIntoBuffer | crypter_test.go:43-45 | From one bytes.Buffer into an empty one, decrypt writes the whole decrypted stream and returns. |
| Crypter.HeaderRoundTrip | crypter_test.go:10-25 | A header with a version 0..9 written to a buffer is 17 bytes and reads back with the same version and IV, leaving nothing unread. |
| Crypter.EncryptDecrypt | crypter_test.go:26-49 | Both calls return. The ciphertext differs from the data. The decryption has the ciphertext's length, ⌈n/16⌉ + 1 blocks, and is not equal to the data, so the test's final check fails. It starts with the data and is zero after it. |

## Left out

- AES itself: the block cipher is a pair of functions, and the only fact used
  about it is that decryption undoes encryption. `aes.NewCipher` is a parameter
  mapping a key to such a pair, plus Go's check that a key has 16, 24 or 32 bytes.
- crypto/rand: `GenKey` draws an arbitrary byte sequence as its random supply, so
  the model says nothing about how random the bytes are.
- `crypter.go`'s `genKey` and `genIV` (lines 75-88) are the same as capi's
  `GenKey` and `GenIV` and are modelled once, as `Capi.GenKey` and `Capi.GenIV`.
- `main` and its flags (`crypter.go` lines 147 onward): file and standard-stream
  handling, base64 key output, and choosing between encryption and decryption.
- Printing to standard output: messages are dropped, and only the control flow
  around them is kept.
- Writers other than one that fills up. A Writer takes what fits in its room and
  refuses everything after that. A sink that refuses one write and accepts a
  later one is not modelled. Because crypter.go ignores write errors (lines 122
  and 140), such a sink would receive the ciphertext with a gap in it.
- Readers other than `bytes.Buffer`. A Reader gives min(requested, remaining)
  bytes per read and reports its end only on a read that returns nothing. A
  reader that returns fewer bytes while more remain, or that fails halfway, is
  not modelled.
- `strconv.ParseInt` is modelled only on the one-byte strings the header reader
  gives it. `strconv.FormatInt` is modelled for every `int64`.
- `cipher.NewCBCEncrypter` and `NewCBCDecrypter` panic on an IV of other than 16
  bytes. The model makes a 16-byte IV a precondition of the encrypt and decrypt
  methods instead of modelling the panic.
- Capi.WriteHeader: the branch for a write that reports success with fewer bytes
  than the header (capi/api.go lines 45-48) cannot be taken, because a Writer
  that takes fewer bytes always reports an error. The branch is kept in the
  method, and its error value `HeaderWriteCount` is never returned.
- `os.Exit(-1)` is modelled as a result `Exited(-1)` that the caller receives,
  not as the end of the process.
- Concurrency, timing and the Go tests run as executables: the tests are client
  methods whose contracts state what the tests check.
