/**
 The encoding/hex functions the identifier's text form is built on:
 EncodeToString, which writes two lower-case digits per byte, and
 DecodeString, which reads digit pairs of either case and stops at the first
 byte that is not a hex digit.
 */
module Hex {

  import opened Binary
  import opened Errors

  /** hextable: the sixteen lower-case ASCII digits "0123456789abcdef". */
  const HEX_TABLE: seq<byte> := [0x30, 0x31, 0x32, 0x33, 0x34, 0x35, 0x36, 0x37,
                                 0x38, 0x39, 0x61, 0x62, 0x63, 0x64, 0x65, 0x66]

  /** An ASCII digit '0'-'9', 'a'-'f' or 'A'-'F'. */
  predicate IsHexDigit(c: byte) {
    || 0x30 <= c <= 0x39
    || 0x61 <= c <= 0x66
    || 0x41 <= c <= 0x46
  }

  /** An ASCII digit '0'-'9' or 'a'-'f': what the encoder writes. */
  predicate IsLowerHexDigit(c: byte) {
    IsHexDigit(c) && !(0x41 <= c <= 0x46)
  }

  predicate AllHexDigits(s: seq<byte>) {
    forall i :: 0 <= i < |s| ==> IsHexDigit(s[i])
  }

  /** The position of the first byte of s that is not a hex digit, or |s|
      when there is none. */
  function FirstNonHexDigit(s: seq<byte>): (k: nat)
    ensures k <= |s|
    ensures AllHexDigits(s[..k])
    ensures k < |s| ==> !IsHexDigit(s[k])
  {
    if |s| == 0 then 0
    else if !IsHexDigit(s[0]) then 0
    else
      var k := 1 + FirstNonHexDigit(s[1..]);
      assert s[..k] == [s[0]] + s[1..][..k - 1];
      k
  }

  /** The value of one hex digit (the reverse table of encoding/hex). */
  function NibbleValue(c: byte): (r: int)
    requires IsHexDigit(c)
    ensures 0 <= r < 16
  {
    if c <= 0x39 then c as int - 0x30
    else if c <= 0x46 then c as int - 0x41 + 10
    else c as int - 0x61 + 10
  }

  /** The lower-case spelling of a hex digit; other bytes are left alone. */
  function LowerCase(c: byte): byte {
    if 0x41 <= c <= 0x46 then c + 0x20 else c
  }

  /** The digit of the high nibble of b. */
  function HighDigit(b: byte): byte {
    HEX_TABLE[b as int / 16]
  }

  /** The digit of the low nibble of b. */
  function LowDigit(b: byte): byte {
    HEX_TABLE[b as int % 16]
  }

  /** The table entry for n is a lower-case digit whose value is n. */
  lemma TableDigit(n: int)
    requires 0 <= n < 16
    ensures IsLowerHexDigit(HEX_TABLE[n]) && NibbleValue(HEX_TABLE[n]) == n
  {
    assert HEX_TABLE[n] as int == if n < 10 then 0x30 + n else 0x57 + n;
  }

  /** The two digits written for a byte are lower case and spell its value. */
  lemma DigitsOfByte(b: byte)
    ensures IsLowerHexDigit(HighDigit(b)) && IsLowerHexDigit(LowDigit(b))
    ensures NibbleValue(HighDigit(b)) * 16 + NibbleValue(LowDigit(b)) == b as int
  {
    TableDigit(b as int / 16);
    TableDigit(b as int % 16);
  }

  /** Every upper-case hex digit of s replaced by its lower-case spelling. */
  function ToLower(s: seq<byte>): (r: seq<byte>)
    ensures |r| == |s|
    ensures forall i :: 0 <= i < |s| ==> r[i] == LowerCase(s[i])
  {
    seq(|s|, i requires 0 <= i < |s| => LowerCase(s[i]))
  }

  /** hex.EncodeToString: each byte becomes its high and its low nibble's
      digit, so the text is twice as long and all lower case. */
  function EncodeToString(src: seq<byte>): (r: seq<byte>)
    ensures |r| == 2 * |src|
    ensures forall j :: 0 <= j < |r| ==> IsLowerHexDigit(r[j])
  {
    if |src| == 0 then []
    else
      var rest := EncodeToString(src[1..]);
      DigitsOfByte(src[0]);
      [HighDigit(src[0]), LowDigit(src[0])] + rest
  }

  /** hex.DecodeString: reads the input two digits at a time; the first byte
      that is not a digit is reported, and a well-formed input of odd length
      fails with ErrLength.  The bytes decoded before a failure are returned
      alongside the error, as Go does. */
  function DecodeString(src: seq<byte>): (r: GoResult<seq<byte>, HexError>)
    ensures r.error.None? <==> |src| % 2 == 0 && AllHexDigits(src)
    ensures r.error == Some(OddLength) <==> |src| % 2 == 1 && AllHexDigits(src)
    ensures FirstNonHexDigit(src) < |src| ==> r.error == Some(InvalidByte(src[FirstNonHexDigit(src)]))
    ensures r.error.None? ==> |r.value| == |src| / 2
  {
    if |src| == 0 then GoResult([], None)
    else if !IsHexDigit(src[0]) then GoResult([], Some(InvalidByte(src[0])))
    else if |src| == 1 then GoResult([], Some(OddLength))
    else if !IsHexDigit(src[1]) then GoResult([], Some(InvalidByte(src[1])))
    else
      var rest := DecodeString(src[2..]);
      assert AllHexDigits(src) <==> AllHexDigits(src[2..]);
      GoResult([PairValue(src[0], src[1])] + rest.value, rest.error)
  }

  /** Each decoded byte is the value of its digit pair, high nibble first:
      the i-th byte comes from the digits at 2i and 2i + 1. */
  lemma {:induction false} DecodeSpells(src: seq<byte>)
    requires DecodeString(src).error.None?
    ensures forall i :: 0 <= i < |src| / 2 ==>
              DecodeString(src).value[i] == PairValue(src[2 * i], src[2 * i + 1])
    decreases |src|
  {
    if |src| > 0 {
      var rest := src[2..];
      var v := DecodeString(src).value;
      DecodeSpells(rest);
      assert v == [PairValue(src[0], src[1])] + DecodeString(rest).value;
      forall i | 1 <= i < |src| / 2
        ensures v[i] == PairValue(src[2 * i], src[2 * i + 1])
      {
        assert rest[2 * (i - 1)] == src[2 * i];
        assert rest[2 * (i - 1) + 1] == src[2 * i + 1];
      }
    }
  }

  /** The encoder writes each byte as the digit pair that spells it, high
      nibble first. */
  lemma EncodeSpells(b: seq<byte>)
    ensures forall i :: 0 <= i < |b| ==>
              PairValue(EncodeToString(b)[2 * i], EncodeToString(b)[2 * i + 1]) == b[i]
  {
    DecodeEncode(b);
    DecodeSpells(EncodeToString(b));
  }

  /** The byte two digits spell, high nibble first. */
  function PairValue(hi: byte, lo: byte): (r: byte)
    requires IsHexDigit(hi) && IsHexDigit(lo)
  {
    (NibbleValue(hi) * 16 + NibbleValue(lo)) as byte
  }

  /** Decoding what the encoder wrote gives back the original bytes. */
  lemma {:induction false} DecodeEncode(b: seq<byte>)
    ensures DecodeString(EncodeToString(b)) == GoResult(b, None)
  {
    if |b| > 0 {
      var s := EncodeToString(b);
      DigitsOfByte(b[0]);
      assert s[2..] == EncodeToString(b[1..]);
      DecodeEncode(b[1..]);
      assert PairValue(s[0], s[1]) == b[0];
      assert b == [b[0]] + b[1..];
    }
  }

  /** Encoding what the decoder accepted gives back the input, folded to
      lower case: the decoder accepts either case, the encoder writes lower. */
  lemma {:induction false} EncodeDecode(s: seq<byte>)
    requires DecodeString(s).error.None?
    ensures EncodeToString(DecodeString(s).value) == ToLower(s)
    decreases |s|
  {
    if |s| > 0 {
      var v := PairValue(s[0], s[1]);
      var rest := DecodeString(s[2..]);
      assert DecodeString(s).value == [v] + rest.value;
      EncodeDecode(s[2..]);
      DigitsOfByte(v);
      PairSpelling(HighDigit(v), LowDigit(v), s[0], s[1]);
      assert ([v] + rest.value)[1..] == rest.value;
      assert ToLower(s) == [LowerCase(s[0]), LowerCase(s[1])] + ToLower(s[2..]);
    }
  }

  /** A lower-case digit pair and any digit pair that spell the same byte
      differ only in case. */
  lemma PairSpelling(hi: byte, lo: byte, hi': byte, lo': byte)
    requires IsLowerHexDigit(hi) && IsLowerHexDigit(lo) && IsHexDigit(hi') && IsHexDigit(lo')
    requires NibbleValue(hi) * 16 + NibbleValue(lo) == NibbleValue(hi') * 16 + NibbleValue(lo')
    ensures hi == LowerCase(hi') && lo == LowerCase(lo')
  {
    DigitPairUnique(NibbleValue(hi), NibbleValue(lo), NibbleValue(hi'), NibbleValue(lo'));
    SameDigit(hi, hi');
    SameDigit(lo, lo');
  }

  /** A byte value has one spelling as a pair of base-16 digits. */
  lemma DigitPairUnique(hi: int, lo: int, hi': int, lo': int)
    requires 0 <= hi < 16 && 0 <= lo < 16 && 0 <= hi' < 16 && 0 <= lo' < 16
    requires hi * 16 + lo == hi' * 16 + lo'
    ensures hi == hi' && lo == lo'
  {
  }

  /** Two digits with the same value are the same up to case. */
  lemma SameDigit(c: byte, d: byte)
    requires IsLowerHexDigit(c) && IsHexDigit(d)
    requires NibbleValue(c) == NibbleValue(d)
    ensures c == LowerCase(d)
  {
  }
}
