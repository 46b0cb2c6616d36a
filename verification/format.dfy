/**
 * The container header both front ends share: the decimal text of the format
 * version followed by the raw 16-byte IV, 17 bytes in all when the version is a
 * single digit.
 */
module Format {
  import opened Common
  import opened Decimal

  /** DATA_FILE_VERSION and VERSION. */
  const DataFileVersion: int64 := 1
  /** VERSION_BYTES: the width the reader expects of the version field. */
  const VersionBytes: nat := 1
  /** IV_BYTES. */
  const IvBytes: nat := 16
  /** AES_KEY_SIZE: a 256-bit key. */
  const AesKeySize: nat := 32
  /** VERSION_BYTES + IV_BYTES, the size the header codec checks for. */
  const HeaderSize: nat := VersionBytes + IvBytes

  /** Header and header: a version tag and the IV of the ciphertext that follows. */
  datatype Header = Header(version: int64, iv: seq<byte>)

  /** What the writers put in their staging buffer: FormatInt(version, 10), then the IV. */
  function HeaderBytes(h: Header): (bytes: seq<byte>)
  {
    FormatInt(h.version) + h.iv
  }

  /**
   * With a 16-byte IV, the serialized header has the expected 17 bytes exactly
   * when the version is 0..9, and it is then the version's ASCII digit and the IV.
   */
  lemma HeaderBytesLayout(h: Header)
    requires |h.iv| == IvBytes
    ensures |HeaderBytes(h)| == HeaderSize <==> 0 <= h.version <= 9
    ensures 0 <= h.version <= 9 ==>
      HeaderBytes(h) == [DigitByte(h.version as int)] + h.iv &&
      ParseByte(HeaderBytes(h)[0]) == Success(h.version) &&
      HeaderBytes(h)[VersionBytes..HeaderSize] == h.iv
  {
    FormatIntText(h.version);
  }

  /**
   * The 17-byte check is on the total only: version 10 with a 15-byte IV also
   * serializes to 17 bytes, and its first byte then reads back as version 1.
   */
  lemma LengthCheckIsOnTotal(iv: seq<byte>)
    requires |iv| == IvBytes - 1
    ensures var h := HeaderBytes(Header(10, iv));
      |h| == HeaderSize && ParseByte(h[0]) == Success(1)
  {
    FormatIntText(1);
    assert Digits(10) == Digits(1) + [DigitByte(0)];
  }
}
