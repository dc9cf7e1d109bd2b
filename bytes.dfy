/** Byte strings and the fixed-width big-endian integer encoding of Python's
    `int.to_bytes(width, byteorder='big')`. */
module Bytes {
  import opened Wrappers

  newtype byte = x: int | 0 <= x < 256

  /** 2^k */
  function Pow2(k: nat): (r: nat)
    ensures r >= 1
  {
    if k == 0 then 1 else 2 * Pow2(k - 1)
  }

  /** 256^width: the number of values that fit in `width` bytes. */
  function Pow256(width: nat): (r: nat)
    ensures r >= 1
  {
    if width == 0 then 1 else 256 * Pow256(width - 1)
  }

  /** The unsigned integer a big-endian byte string denotes. */
  function FromBigEndian(bs: seq<byte>): (n: nat)
    ensures n < Pow256(|bs|)
  {
    if bs == [] then 0
    else FromBigEndian(bs[..|bs| - 1]) * 256 + bs[|bs| - 1] as nat
  }

  /** The low `width` bytes of `n`, most significant first. */
  function Digits(n: nat, width: nat): (r: seq<byte>)
    ensures |r| == width
  {
    if width == 0 then [] else Digits(n / 256, width - 1) + [(n % 256) as byte]
  }

  /** `n.to_bytes(width, 'big')`: None where Python raises OverflowError
      because `n` does not fit in `width` bytes. */
  function ToBigEndian(n: nat, width: nat): (r: Option<seq<byte>>)
    ensures r.Some? <==> n < Pow256(width)
    ensures r.Some? ==> |r.value| == width
  {
    if n < Pow256(width) then Some(Digits(n, width)) else None
  }

  /** Decoding the digits of a number that fits gives the number back. */
  lemma {:induction false} FromBigEndianOfDigits(n: nat, width: nat)
    requires n < Pow256(width)
    ensures FromBigEndian(Digits(n, width)) == n
  {
    if width > 0 {
      FromBigEndianOfDigits(n / 256, width - 1);
      var high := Digits(n / 256, width - 1);
      var bs := high + [(n % 256) as byte];
      assert bs[..|bs| - 1] == high;
    }
  }

  /** Decoding gives back the encoded number. */
  lemma FromBigEndianOfToBigEndian(n: nat, width: nat)
    requires n < Pow256(width)
    ensures FromBigEndian(ToBigEndian(n, width).value) == n
  {
    FromBigEndianOfDigits(n, width);
  }

  /** A byte string is the digits of the number it denotes. */
  lemma {:induction false} DigitsOfFromBigEndian(bs: seq<byte>)
    ensures Digits(FromBigEndian(bs), |bs|) == bs
  {
    if bs != [] {
      var init := bs[..|bs| - 1];
      DigitsOfFromBigEndian(init);
      var n := FromBigEndian(bs);
      assert n / 256 == FromBigEndian(init);
      assert init + [bs[|bs| - 1]] == bs;
    }
  }

  /** Every byte string of a given width is the encoding of the number it
      denotes: the encoding is onto, and decoding is one-to-one. */
  lemma ToBigEndianOfFromBigEndian(bs: seq<byte>)
    ensures ToBigEndian(FromBigEndian(bs), |bs|) == Some(bs)
  {
    DigitsOfFromBigEndian(bs);
  }
}
