/** `count_leading_zero_bits` of miner.py: the number of zero bits before the
    first set bit of a byte string, reading each byte from its most
    significant bit down. */
module LeadingZeros {
  import opened Bytes

  /** Bit `i` of `b`, i.e. `b & (1 << i) != 0`. */
  predicate BitSet(b: nat, i: nat)
  {
    if i == 0 then b % 2 == 1 else BitSet(b / 2, i - 1)
  }

  /** Bit `k` of a byte string, counting from the most significant bit of
      the first byte. */
  predicate BitAt(data: seq<byte>, k: nat)
    requires k < 8 * |data|
  {
    BitSet(data[k / 8] as nat, 7 - k % 8)
  }

  /** Python's `int.bit_length()`. */
  function BitLength(b: nat): nat
  {
    if b == 0 then 0 else 1 + BitLength(b / 2)
  }

  /** The zero bits above the highest set bit of one byte (8 for a zero byte). */
  function ByteLeadingZeros(b: byte): (n: nat)
    ensures n <= 8
  {
    BitLengthBelow(b as nat, 8);
    8 - BitLength(b as nat)
  }

  /** The leading zero bits: eight per leading zero byte, then the zeros
      above the highest set bit of the first nonzero byte. */
  function LeadingZeroBits(data: seq<byte>): nat
  {
    if data == [] then 0
    else if data[0] == 0 then 8 + LeadingZeroBits(data[1..])
    else ByteLeadingZeros(data[0])
  }

  lemma {:induction false} BitLengthBelow(b: nat, k: nat)
    requires b < Pow2(k)
    ensures BitLength(b) <= k
  {
    if b > 0 {
      BitLengthBelow(b / 2, k - 1);
    }
  }

  lemma {:induction false} ZeroHasNoBits(i: nat)
    ensures !BitSet(0, i)
  {
    if i > 0 {
      ZeroHasNoBits(i - 1);
    }
  }

  /** The highest set bit of a positive number is bit `BitLength(b) - 1`. */
  lemma {:induction false} HighestSetBit(b: nat)
    requires b > 0
    ensures BitSet(b, BitLength(b) - 1)
    ensures forall j :: BitLength(b) <= j ==> !BitSet(b, j)
  {
    if b == 1 {
      forall j | 1 <= j ensures !BitSet(b, j) {
        ZeroHasNoBits(j - 1);
      }
    } else {
      HighestSetBit(b / 2);
      forall j | BitLength(b) <= j ensures !BitSet(b, j) {
        assert !BitSet(b / 2, j - 1);
      }
    }
  }

  /** A byte whose bit i is its highest set bit has bit length i + 1. */
  lemma BitLengthOfHighestSetBit(b: nat, i: nat)
    requires b < 256 && i < 8 && BitSet(b, i)
    requires forall j :: i < j < 8 ==> !BitSet(b, j)
    ensures BitLength(b) == i + 1
  {
    if b == 0 {
      ZeroHasNoBits(i);
    } else {
      HighestSetBit(b);
      BitLengthBelow(b, 8);
    }
  }

  /** Leading zero bytes contribute eight bits each. */
  lemma {:induction false} ZeroBytesPrefix(data: seq<byte>, k: nat)
    requires k <= |data|
    requires forall j :: 0 <= j < k ==> data[j] == 0
    ensures LeadingZeroBits(data) == 8 * k + LeadingZeroBits(data[k..])
  {
    if k > 0 {
      ZeroBytesPrefix(data[1..], k - 1);
      assert data[1..][k - 1..] == data[k..];
    }
  }

  /** The count never exceeds the number of bits, and reaches it exactly when
      every byte is zero. */
  lemma {:induction false} LeadingZeroBitsBound(data: seq<byte>)
    ensures LeadingZeroBits(data) <= 8 * |data|
    ensures LeadingZeroBits(data) == 8 * |data| <==> forall j :: 0 <= j < |data| ==> data[j] == 0
  {
    if data != [] {
      LeadingZeroBitsBound(data[1..]);
      if data[0] != 0 {
        HighestSetBit(data[0] as nat);
      } else {
        assert forall j :: 1 <= j < |data| ==> data[j] == data[1..][j - 1];
      }
    }
  }

  /** The count is the position of the first set bit, most significant bit
      of the first byte first: every bit before it is clear, and the bit at
      it (when there is one) is set. */
  lemma {:induction false} LeadingZeroBitsIsFirstSetBit(data: seq<byte>)
    ensures LeadingZeroBits(data) <= 8 * |data|
    ensures forall k :: 0 <= k < LeadingZeroBits(data) ==> !BitAt(data, k)
    ensures LeadingZeroBits(data) < 8 * |data| ==> BitAt(data, LeadingZeroBits(data))
  {
    LeadingZeroBitsBound(data);
    var n := LeadingZeroBits(data);
    if data == [] {
    } else if data[0] == 0 {
      var rest := data[1..];
      LeadingZeroBitsIsFirstSetBit(rest);
      assert n == 8 + LeadingZeroBits(rest);
      forall k | 0 <= k < n ensures !BitAt(data, k) {
        if k < 8 {
          BitAtHead(data, k);
          ZeroHasNoBits(7 - k);
        } else {
          BitAtTail(data, k);
        }
      }
      if n < 8 * |data| {
        BitAtTail(data, n);
      }
    } else {
      var b := data[0] as nat;
      HighestSetBit(b);
      BitLengthBelow(b, 8);
      assert n == 8 - BitLength(b) < 8;
      forall k | 0 <= k < n ensures !BitAt(data, k) {
        BitAtHead(data, k);
      }
      BitAtHead(data, n);
    }
  }

  /** Bit k < 8 of a byte string is bit 7 - k of its first byte. */
  lemma BitAtHead(data: seq<byte>, k: nat)
    requires k < 8 <= 8 * |data|
    ensures BitAt(data, k) == BitSet(data[0] as nat, 7 - k)
  {
    assert k / 8 == 0 && k % 8 == k;
  }

  /** Bit k >= 8 of a byte string is bit k - 8 of its tail. */
  lemma BitAtTail(data: seq<byte>, k: nat)
    requires 8 <= k < 8 * |data|
    ensures BitAt(data, k) == BitAt(data[1..], k - 8)
  {
    assert k / 8 == (k - 8) / 8 + 1 && k % 8 == (k - 8) % 8;
  }

  /** After z zero bytes, a first nonzero byte whose highest set bit is bit h
      brings the count to 8 * z + 7 - h, whatever follows. */
  lemma LeadingZeroBitsAtFirstNonzero(zeros: seq<byte>, b: nat, rest: seq<byte>, h: nat)
    requires forall j :: 0 <= j < |zeros| ==> zeros[j] == 0
    requires b < 256 && h < 8 && BitSet(b, h)
    requires forall j :: h < j < 8 ==> !BitSet(b, j)
    ensures LeadingZeroBits(zeros + [b as byte] + rest) == 8 * |zeros| + 7 - h
  {
    var data := zeros + [b as byte] + rest;
    ZeroBytesPrefix(data, |zeros|);
    assert data[|zeros|..] == [b as byte] + rest;
    BitLengthOfHighestSetBit(b, h);
    if b == 0 {
      ZeroHasNoBits(h);
    }
  }

  /** Bytes after the first nonzero byte do not matter: appending to a string
      that holds a nonzero byte leaves the count unchanged. */
  lemma {:induction false} LeadingZeroBitsAppend(data: seq<byte>, more: seq<byte>)
    requires exists j :: 0 <= j < |data| && data[j] != 0
    ensures LeadingZeroBits(data + more) == LeadingZeroBits(data)
  {
    assert (data + more)[0] == data[0];
    if data[0] == 0 {
      var j :| 0 <= j < |data| && data[j] != 0;
      assert data[1..][j - 1] != 0;
      assert (data + more)[1..] == data[1..] + more;
      LeadingZeroBitsAppend(data[1..], more);
    }
  }

  /** `count_leading_zero_bits(data)`: an accumulator over the bytes, with an
      inner scan of the first nonzero byte from bit 7 down that returns at
      the first set bit. */
  method CountLeadingZeroBits(data: seq<byte>) returns (n: nat)
    ensures n == LeadingZeroBits(data)
  {
    n := 0;
    for idx := 0 to |data|
      invariant n == 8 * idx
      invariant forall j :: 0 <= j < idx ==> data[j] == 0
    {
      var b := data[idx];
      if b == 0 {
        n := n + 8;
      } else {
        var v := b as nat;
        var i := 7;
        while true
          invariant 0 <= i < 8
          invariant n == 8 * idx + 7 - i
          invariant forall j :: i < j < 8 ==> !BitSet(v, j)
          decreases i
        {
          if BitSet(v, i) {
            LeadingZeroBitsAtFirstNonzero(data[..idx], v, data[idx + 1..], i);
            assert data[..idx] + [b] + data[idx + 1..] == data;
            return;
          }
          n := n + 1;
          if i == 0 {
            HighestSetBit(v);
            BitLengthBelow(v, 8);
          }
          i := i - 1;
        }
      }
    }
    ZeroBytesPrefix(data, |data|);
  }
}
