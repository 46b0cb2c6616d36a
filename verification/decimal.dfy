/**
 * The two pieces of Go's strconv the header codec uses: FormatInt(v, 10), the
 * decimal text of an int64, and ParseInt(s, 10, 64) on the one-byte strings
 * ReadHeader hands it.
 */
module Decimal {
  import opened Common

  /** An ASCII decimal digit, '0' (0x30) to '9' (0x39). */
  predicate IsDigit(b: byte)
  {
    0x30 <= b <= 0x39
  }

  /** The ASCII digit for d. */
  function DigitByte(d: nat): (b: byte)
    requires d < 10
    ensures IsDigit(b)
  {
    (d as bv8) + 0x30
  }

  /** The value of an ASCII digit. */
  function DigitValue(b: byte): (d: nat)
    requires IsDigit(b)
    ensures d < 10 && DigitByte(d) == b
  {
    (b - 0x30) as nat
  }

  /** DigitValue undoes DigitByte. */
  lemma DigitRoundTrip(d: nat)
    requires d < 10
    ensures DigitValue(DigitByte(d)) == d
  {
    assert (d as bv8) + 0x30 - 0x30 == d as bv8;
  }

  /** The decimal digits of n, most significant first, without leading zeros. */
  function Digits(n: nat): (s: seq<byte>)
    ensures |s| >= 1 && (|s| == 1 <==> n < 10)
    ensures forall i :: 0 <= i < |s| ==> IsDigit(s[i])
    ensures n > 0 ==> s[0] != 0x30
    decreases n
  {
    if n < 10 then [DigitByte(n)] else Digits(n / 10) + [DigitByte(n % 10)]
  }

  /** The number a string of decimal digits denotes, read most significant first. */
  function Value(s: seq<byte>): (n: nat)
    requires forall i :: 0 <= i < |s| ==> IsDigit(s[i])
  {
    if |s| == 0 then 0 else Value(s[..|s| - 1]) * 10 + DigitValue(s[|s| - 1])
  }

  /** Digits(n) denotes n. */
  lemma {:induction false} DigitsValue(n: nat)
    ensures Value(Digits(n)) == n
    decreases n
  {
    var s := Digits(n);
    if n < 10 {
      assert s == [DigitByte(n)];
      assert s[..0] == [];
      DigitRoundTrip(n);
    } else {
      var q, r := n / 10, n % 10;
      assert s == Digits(q) + [DigitByte(r)];
      assert s[..|s| - 1] == Digits(q);
      DigitsValue(q);
      DigitRoundTrip(r);
      assert Value(s) == q * 10 + r;
    }
  }

  /** strconv.FormatInt(v, 10): a minus sign for a negative v, then the digits of |v|. */
  function FormatInt(v: int64): (s: seq<byte>)
    ensures |s| >= 1
  {
    if v < 0 then [0x2D] + Digits(-(v as int)) else Digits(v as int)
  }

  /**
   * FormatInt gives the sign and the decimal digits of v, and is one byte long
   * exactly for 0..9, where that byte is the ASCII digit of v.
   */
  lemma FormatIntText(v: int64)
    ensures var s := FormatInt(v);
      && (s[0] == 0x2D <==> v < 0)
      && var digits := if v < 0 then s[1..] else s;
         && (forall i :: 0 <= i < |digits| ==> IsDigit(digits[i]))
         && Value(digits) == if v < 0 then -(v as int) else v as int
    ensures |FormatInt(v)| == 1 <==> 0 <= v <= 9
    ensures 0 <= v <= 9 ==> FormatInt(v) == [DigitByte(v as int)]
  {
    if v < 0 {
      DigitsValue(-(v as int));
      assert FormatInt(v)[1..] == Digits(-(v as int));
    } else {
      DigitsValue(v as int);
    }
  }

  /**
   * strconv.ParseInt(s, 10, 64) for a one-byte s = [b]: a lone sign or any other
   * non-digit is a syntax error, and a digit parses to the version whose text is [b].
   */
  function ParseByte(b: byte): (r: Result<int64, Error>)
    ensures r.Success? <==> IsDigit(b)
    ensures r.Success? ==> 0 <= r.value <= 9 && FormatInt(r.value) == [b]
    ensures r.Failure? ==> r.error == ParseSyntax
  {
    if IsDigit(b) then Success(DigitValue(b) as int64) else Failure(ParseSyntax)
  }

  /** Parsing the one-byte text of a version 0..9 gives the version back. */
  lemma ParseFormatDigit(v: int64)
    requires 0 <= v <= 9
    ensures |FormatInt(v)| == 1 && ParseByte(FormatInt(v)[0]) == Success(v)
  {
    FormatIntText(v);
  }
}
