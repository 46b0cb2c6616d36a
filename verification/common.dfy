/** Bytes, the failure-carrying wrappers and the error values shared by every module. */
module Common {

  /** A Go `byte`. */
  type byte = bv8

  /** A Go `int64`. */
  newtype int64 = x: int | -0x8000_0000_0000_0000 <= x < 0x8000_0000_0000_0000

  function Min(a: int, b: int): (r: int) { if a <= b then a else b }

  /** The contents of a freshly `make`d byte slice of length n. */
  function Zeros(n: nat): (z: seq<byte>)
    ensures |z| == n
    ensures forall i :: 0 <= i < n ==> z[i] == 0
  {
    seq(n, _ => 0)
  }

  /** Every byte of s is zero. */
  predicate AllZero(s: seq<byte>)
  {
    forall i :: 0 <= i < |s| ==> s[i] == 0
  }

  /** Two runs of zero bytes make one. */
  lemma ZerosAppend(m: nat, n: nat)
    ensures Zeros(m) + Zeros(n) == Zeros(m + n)
  {
  }

  /** A sequence that agrees with a + b up to a cut j bytes into b starts with a and then b up to the cut. */
  lemma TakeAppend<T>(s: seq<T>, a: seq<T>, b: seq<T>, k: nat, j: nat)
    requires k == |a| + j && j <= |b| && k <= |s|
    requires s[..k] == (a + b)[..k]
    ensures s[..k] == a + b[..j]
    ensures j == 0 ==> s[..k] == a
  {
    assert (a + b)[..k] == a + b[..j];
    if j == 0 {
      assert a + b[..j] == a;
    }
  }

  lemma AppendAssoc<T>(a: seq<T>, b: seq<T>, c: seq<T>)
    ensures a + (b + c) == (a + b) + c
  {
  }

  datatype Option<+T> = None | Some(value: T)

  datatype Result<+T, +E> = Success(value: T) | Failure(error: E)

  /** Go's `error` values as far as the codec can see them. */
  datatype Error =
    | EOF                          // io.EOF: a reader has nothing more to give
    | WriteFailed                  // a writer took fewer bytes than it was offered
    | HeaderLength(size: nat)      // WriteHeader: serialized header is not 17 bytes long
    | HeaderWriteCount(wrote: nat) // WriteHeader: the sink reported fewer bytes than the header
    | ParseSyntax                  // strconv.ErrSyntax from ParseInt
    | ShortIV(got: nat)            // ReadHeader: the IV read returned fewer than 16 bytes
    | ShortKey(got: nat)           // ReadKey: the key read returned other than 32 bytes
    | KeySize(size: nat)           // aes.KeySizeError
    | Panic                        // GenKey panics: a negative size, or crypto/rand came up short
}
