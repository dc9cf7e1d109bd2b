/** miner.py: the command-line inputs of the miner and its brute-force nonce
    search. SHA-256 is not modelled; the search takes the hash function as a
    parameter. */
module Miner {
  import opened Wrappers
  import opened Bytes
  import opened HexCodec
  import opened LeadingZeros

  /** Length the block hash and the ledger hash must have. */
  const HashLength: nat := 32

  /** The nonce is hashed as 8 big-endian bytes (a PostgreSQL BIGINT). */
  const NonceWidth: nat := 8

  /** The first nonce that no longer fits in `NonceWidth` bytes. */
  const NonceLimit: nat := 0x1_0000_0000_0000_0000

  lemma NonceLimitIsPow256()
    ensures Pow256(NonceWidth) == NonceLimit
  {
  }

  // ---------------------------------------------------------------------
  // parse_hex_string and the length checks of main
  // ---------------------------------------------------------------------

  /** One leading `\x` is removed, or else one leading `0x`; the test is
      case-sensitive. */
  function StripHexPrefix(s: string): string
  {
    if |s| >= 2 && s[..2] == "\\x" then s[2..]
    else if |s| >= 2 && s[..2] == "0x" then s[2..]
    else s
  }

  /** `parse_hex_string(s)`. */
  function ParseHexString(s: string): Result<seq<byte>, HexError>
  {
    DecodeHex(StripHexPrefix(s))
  }

  /** Plain hex digits parse the same with a `\x` prefix, a `0x` prefix or
      none. */
  lemma ParseHexStringPrefixes(h: string)
    requires AllHexDigits(h)
    ensures ParseHexString("\\x" + h) == DecodeHex(h)
    ensures ParseHexString("0x" + h) == DecodeHex(h)
    ensures ParseHexString(h) == DecodeHex(h)
  {
    assert ("\\x" + h)[..2] == "\\x" && ("\\x" + h)[2..] == h;
    assert ("0x" + h)[..2] == "0x" && ("0x" + h)[2..] == h;
    if |h| >= 2 {
      assert IsHexDigit(h[1]);
      assert h[..2] != "\\x" && h[..2] != "0x";
    }
  }

  /** At most one prefix is removed, and an upper-case `0X` is not a prefix:
      in each case the `x` or `X` left in place is rejected. */
  lemma ParseHexStringOnePrefix(h: string)
    ensures ParseHexString("\\x0x" + h) == Err(NotHexDigit(1))
    ensures ParseHexString("0x0x" + h) == Err(NotHexDigit(1))
    ensures ParseHexString("0X" + h) == Err(NotHexDigit(1))
  {
    assert ("\\x0x" + h)[..2] == "\\x" && ("\\x0x" + h)[2..] == "0x" + h;
    assert ("0x0x" + h)[..2] == "0x" && ("0x0x" + h)[2..] == "0x" + h;
    assert ("0X" + h)[..2] == "0X";
    assert !IsHexDigit(("0x" + h)[1]) && !IsHexDigit(("0X" + h)[1]);
  }

  /** Why `main` exits before mining. */
  datatype InputError =
    | BadHex(cause: HexError)     // a hash argument is not valid hex
    | BlockHashLength(got: nat)   // the block hash is not 32 bytes
    | LedgerHashLength(got: nat)  // the ledger hash is not 32 bytes

  /** The block-hash and ledger-hash arguments of `main`: both are parsed
      first, then the block hash's length is checked, then the ledger
      hash's. */
  function ParseBlockInputs(blockArg: string, ledgerArg: string): (r: Result<(seq<byte>, seq<byte>), InputError>)
    ensures r.Ok? <==>
      ParseHexString(blockArg).Ok? && |ParseHexString(blockArg).value| == HashLength &&
      ParseHexString(ledgerArg).Ok? && |ParseHexString(ledgerArg).value| == HashLength
    ensures r.Ok? ==> r.value == (ParseHexString(blockArg).value, ParseHexString(ledgerArg).value)
    ensures r.Err? && r.error.BadHex? ==>
      (ParseHexString(blockArg).Err? && r.error.cause == ParseHexString(blockArg).error) ||
      (ParseHexString(blockArg).Ok? && ParseHexString(ledgerArg) == Err(r.error.cause))
    ensures r.Err? && r.error.BlockHashLength? ==>
      ParseHexString(blockArg).Ok? && ParseHexString(ledgerArg).Ok? &&
      r.error.got == |ParseHexString(blockArg).value| != HashLength
    ensures r.Err? && r.error.LedgerHashLength? ==>
      ParseHexString(blockArg).Ok? && |ParseHexString(blockArg).value| == HashLength &&
      ParseHexString(ledgerArg).Ok? && r.error.got == |ParseHexString(ledgerArg).value| != HashLength
  {
    match (ParseHexString(blockArg), ParseHexString(ledgerArg))
    case (Err(e), _) => Err(BadHex(e))
    case (_, Err(e)) => Err(BadHex(e))
    case (Ok(blockHash), Ok(ledgerHash)) =>
      if |blockHash| != HashLength then Err(BlockHashLength(|blockHash|))
      else if |ledgerHash| != HashLength then Err(LedgerHashLength(|ledgerHash|))
      else Ok((blockHash, ledgerHash))
  }

  /** A hash given as `\x` followed by the 64 hex digits of 32 bytes is
      accepted and decodes to those bytes. */
  lemma ParseBlockInputsAcceptsHashes(blockHash: seq<byte>, ledgerHash: seq<byte>)
    requires |blockHash| == HashLength && |ledgerHash| == HashLength
    ensures ParseBlockInputs("\\x" + Hex(blockHash), "\\x" + Hex(ledgerHash)) == Ok((blockHash, ledgerHash))
  {
    AllLowerIsHex(Hex(blockHash));
    AllLowerIsHex(Hex(ledgerHash));
    ParseHexStringPrefixes(Hex(blockHash));
    ParseHexStringPrefixes(Hex(ledgerHash));
    DecodeHexOfHex(blockHash);
    DecodeHexOfHex(ledgerHash);
  }

  lemma AllLowerIsHex(s: string)
    requires AllLowerHexDigits(s)
    ensures AllHexDigits(s)
  {
  }

  // ---------------------------------------------------------------------
  // The hash input: block_hash ‖ ledger_hash ‖ pub ‖ nonce
  // ---------------------------------------------------------------------

  /** `pre_data + nonce.to_bytes(8, 'big')`; None where `to_bytes` raises
      OverflowError. */
  function HashInput(prefix: seq<byte>, nonce: nat): (r: Option<seq<byte>>)
    ensures r.Some? <==> nonce < NonceLimit
    ensures r.Some? ==> |r.value| == |prefix| + NonceWidth && r.value[..|prefix|] == prefix
  {
    NonceLimitIsPow256();
    match ToBigEndian(nonce, NonceWidth)
    case None => None
    case Some(nonceBytes) =>
      var data := prefix + nonceBytes;
      assert data[..|prefix|] == prefix && data[|prefix|..] == nonceBytes;
      Some(data)
  }

  /** The last eight bytes of the hash input decode back to the nonce. */
  lemma HashInputNonce(prefix: seq<byte>, nonce: nat)
    requires nonce < NonceLimit
    ensures FromBigEndian(HashInput(prefix, nonce).value[|prefix|..]) == nonce
  {
    NonceLimitIsPow256();
    var nonceBytes := ToBigEndian(nonce, NonceWidth).value;
    assert HashInput(prefix, nonce).value[|prefix|..] == nonceBytes;
    FromBigEndianOfToBigEndian(nonce, NonceWidth);
  }

  /** Distinct nonces hash distinct inputs. */
  lemma HashInputInjective(prefix: seq<byte>, m: nat, n: nat)
    requires m < NonceLimit && n < NonceLimit
    requires HashInput(prefix, m) == HashInput(prefix, n)
    ensures m == n
  {
    HashInputNonce(prefix, m);
    HashInputNonce(prefix, n);
  }
}
