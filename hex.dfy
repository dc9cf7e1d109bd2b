/** Hexadecimal text and bytes: `bytes.fromhex` (decoding, upper or lower case
    digits) and `bytes.hex()` (encoding, always lower case). */
module HexCodec {
  import opened Wrappers
  import opened Bytes

  /** Why `bytes.fromhex` raises ValueError. */
  datatype HexError =
    | NotHexDigit(position: nat)  // the first character that is not a hex digit
    | OddLength                   // every character is a digit, but one is left over

  predicate IsHexDigit(c: char) {
    '0' <= c <= '9' || 'a' <= c <= 'f' || 'A' <= c <= 'F'
  }

  predicate IsLowerHexDigit(c: char) {
    '0' <= c <= '9' || 'a' <= c <= 'f'
  }

  predicate AllHexDigits(s: string) {
    forall i :: 0 <= i < |s| ==> IsHexDigit(s[i])
  }

  predicate AllLowerHexDigits(s: string) {
    forall i :: 0 <= i < |s| ==> IsLowerHexDigit(s[i])
  }

  function DigitValue(c: char): (v: nat)
    requires IsHexDigit(c)
    ensures v < 16
  {
    if '0' <= c <= '9' then c as int - '0' as int
    else if 'a' <= c <= 'f' then c as int - 'a' as int + 10
    else c as int - 'A' as int + 10
  }

  /** The lower-case digit `bytes.hex()` writes for a nibble. */
  function HexChar(d: nat): (c: char)
    requires d < 16
    ensures IsLowerHexDigit(c) && DigitValue(c) == d
  {
    if d < 10 then ('0' as int + d) as char else ('a' as int + d - 10) as char
  }

  /** The byte that a pair of hex digits stands for, high nibble first. */
  function PairValue(hi: char, lo: char): byte
    requires IsHexDigit(hi) && IsHexDigit(lo)
  {
    (16 * DigitValue(hi) + DigitValue(lo)) as byte
  }

  /** `bytes.fromhex(s)`: digits are read in pairs from the left and the first
      offending character is the one reported. */
  function DecodeHex(s: string): (r: Result<seq<byte>, HexError>)
    ensures r.Ok? <==> |s| % 2 == 0 && AllHexDigits(s)
    ensures r.Ok? ==> 2 * |r.value| == |s|
    ensures r.Ok? ==> forall i :: 0 <= i < |r.value| ==> r.value[i] == PairValue(s[2 * i], s[2 * i + 1])
    ensures r == Err(OddLength) ==> |s| % 2 == 1 && AllHexDigits(s)
    ensures r.Err? && r.error.NotHexDigit? ==>
      r.error.position < |s| && !IsHexDigit(s[r.error.position]) && AllHexDigits(s[..r.error.position])
  {
    DecodeHexFrom(s, 0)
  }

  /** Decoding of the suffix of a string that starts at `offset`; error
      positions are reported relative to the whole string. */
  function DecodeHexFrom(s: string, offset: nat): (r: Result<seq<byte>, HexError>)
    ensures r.Ok? <==> |s| % 2 == 0 && AllHexDigits(s)
    ensures r.Ok? ==> 2 * |r.value| == |s|
    ensures r.Ok? ==> forall i :: 0 <= i < |r.value| ==> r.value[i] == PairValue(s[2 * i], s[2 * i + 1])
    ensures r == Err(OddLength) ==> |s| % 2 == 1 && AllHexDigits(s)
    ensures r.Err? && r.error.NotHexDigit? ==>
      offset <= r.error.position < offset + |s| &&
      !IsHexDigit(s[r.error.position - offset]) &&
      AllHexDigits(s[..r.error.position - offset])
    decreases |s|
  {
    if |s| == 0 then Ok([])
    else if !IsHexDigit(s[0]) then Err(NotHexDigit(offset))
    else if |s| == 1 then Err(OddLength)
    else if !IsHexDigit(s[1]) then Err(NotHexDigit(offset + 1))
    else
      match DecodeHexFrom(s[2..], offset + 2)
      case Err(e) => Err(e)
      case Ok(rest) => Ok([PairValue(s[0], s[1])] + rest)
  }

  /** `bs.hex()`: two lower-case digits per byte, high nibble first. */
  function Hex(bs: seq<byte>): (s: string)
    ensures |s| == 2 * |bs| && AllLowerHexDigits(s)
  {
    if bs == [] then ""
    else [HexChar(bs[0] as nat / 16), HexChar(bs[0] as nat % 16)] + Hex(bs[1..])
  }

  /** `bytes.fromhex(bs.hex()) == bs`. */
  lemma {:induction false} DecodeHexOfHex(bs: seq<byte>)
    ensures DecodeHex(Hex(bs)) == Ok(bs)
  {
    var r := DecodeHex(Hex(bs));
    assert r.Ok? && |r.value| == |bs|;
    forall i | 0 <= i < |bs| ensures r.value[i] == bs[i] {
      HexAt(bs, i);
      assert 16 * (bs[i] as nat / 16) + bs[i] as nat % 16 == bs[i] as nat;
    }
    assert r.value == bs;
  }

  /** Where the two digits of byte `i` sit in `Hex(bs)`. */
  lemma {:induction false} HexAt(bs: seq<byte>, i: nat)
    requires i < |bs|
    ensures Hex(bs)[2 * i] == HexChar(bs[i] as nat / 16)
    ensures Hex(bs)[2 * i + 1] == HexChar(bs[i] as nat % 16)
  {
    if i > 0 {
      HexAt(bs[1..], i - 1);
    }
  }

  /** The other direction: lower-case hex text of even length is exactly what
      `bytes.hex()` writes for the bytes it decodes to. */
  lemma {:induction false} HexOfDecodeHex(s: string)
    requires |s| % 2 == 0 && AllLowerHexDigits(s)
    ensures DecodeHex(s).Ok? && Hex(DecodeHex(s).value) == s
  {
    assert AllHexDigits(s);
    var bs := DecodeHex(s).value;
    var t := Hex(bs);
    forall i | 0 <= i < |bs| ensures t[2 * i] == s[2 * i] && t[2 * i + 1] == s[2 * i + 1] {
      HexAt(bs, i);
      LowerPairDigits(s[2 * i], s[2 * i + 1]);
    }
    forall k | 0 <= k < |s| ensures t[k] == s[k] {
      var i := k / 2;
      assert k == 2 * i || k == 2 * i + 1;
    }
  }

  /** A lower-case digit pair is written back unchanged. */
  lemma LowerPairDigits(hi: char, lo: char)
    requires IsLowerHexDigit(hi) && IsLowerHexDigit(lo)
    ensures HexChar(PairValue(hi, lo) as nat / 16) == hi
    ensures HexChar(PairValue(hi, lo) as nat % 16) == lo
  {
  }
}
