# SQLChain miner: proof-of-work search and its inputs

SQLChain's miner looks for a good nonce for a block. It hashes
`block_hash ‖ ledger_hash ‖ pub ‖ nonce` with SHA-256, where:

- `pub` is the miner's 33-byte compressed public key.
- `nonce` is written as 8 big-endian bytes, the width of a PostgreSQL BIGINT.

It tries nonces 0, 1, 2, … and keeps the one whose hash has the most leading
zero bits. It stops when a hash reaches the target number of zero bits, when
an iteration cap is reached, or when the user interrupts it.

This project models that core in Dafny:

- `bytes.dfy` (module `Bytes`): bytes, and the fixed-width big-endian
  encoding `n.to_bytes(width, 'big')` together with its inverse.
- `hex.dfy` (module `HexCodec`): `bytes.fromhex` and `bytes.hex()`.
- `crypto.dfy` (module `Crypto`): `key_from_privhex`. The key is lowered to
  lower case, every `0x` is removed, and the rest is decoded as hex.
- `leading_zeros.dfy` (module `LeadingZeros`): `count_leading_zero_bits`.
  It is kept as the source's nested loops and proved against a recursive
  definition. That definition is then characterised as the position of the
  first set bit.
- `miner.dfy` (module `Miner`):
  - `parse_hex_string`, with its optional `\x` or `0x` prefix;
  - the 32-byte checks that `main` applies to the block and ledger hashes;
  - the hash input `pre_data + nonce.to_bytes(8, 'big')`.
- `mining.dfy` (module `Mining`): the loop of `mine`, kept as a loop.
  - Its module-level globals (`best_nonce`, `best_hash`,
    `best_leading_zeros`, `iterations`) are the fields of the class
    `MinerState`.
  - The class invariant relates those fields to a ghost record `tried` of
    the counts of the nonces hashed so far.
  - `best_leading_zeros` is the maximum count, and `best_nonce` is the
    earliest nonce with that count.

SHA-256 is a parameter, `hash: seq<byte> -> seq<byte>`, so every property
holds for any hash function.

Python's truthiness is kept: a `target_zeros` or `max_iterations` of 0 acts
like `None`, so 0 means "absent".

`nonce.to_bytes(8, 'big')` raises OverflowError once the nonce reaches
2^64. The model makes that a third way for `mine` to stop, `NonceOverflow`.
This is also why the loop provably terminates without a precondition.

## Model

| member | source | states |
|---|---|---|
| Bytes.ToBigEndian | miner.py:109 | `n.to_bytes(width, 'big')` succeeds exactly when `n < 256^width`, and then yields `width` bytes |
| Bytes.FromBigEndianOfToBigEndian | miner.py:109 | reading the encoded bytes back as a big-endian number gives the nonce |
| Bytes.ToBigEndianOfFromBigEndian | miner.py:109 | every byte string of a given width is the encoding of the number it denotes, so the encoding is one-to-one and onto |
| HexCodec.DecodeHex | miner.py:49 | `bytes.fromhex` succeeds iff the text has even length and only hex digits (either case); byte i is the value of digit pair i, high nibble first; a failure names the first non-digit (all digits before it are valid), or, when every character is a digit, the odd length |
| HexCodec.Hex | crypto.py:88 | `bytes.hex()` writes two lower-case hex digits per byte |
| HexCodec.DecodeHexOfHex | miner.py:49 | `bytes.fromhex(bs.hex()) == bs` for every byte string |
| HexCodec.HexOfDecodeHex | miner.py:49 | even-length lower-case hex text decodes, and its bytes are written back as exactly that text |
| Crypto.LowerIdempotent | crypto.py:18 | after `lower()` no ASCII capital is left, every other character stays where it was, and lowering again changes nothing |
| Crypto.RemoveZeroXNoX | crypto.py:18 | `replace("0x", "")` leaves text without an `x` unchanged |
| Crypto.RemoveZeroXAfter | crypto.py:18 | every `0x` is removed, not just a leading one; the text around it is kept |
| Crypto.RemoveZeroXSinglePass | crypto.py:18 | the replace makes one pass: `"00xx"` becomes `"0x"`, and the key is then rejected at position 1 |
| Crypto.LowerHexUnchanged | crypto.py:18 | lower-case hex digits pass through the lowering and the replace unchanged |
| Crypto.KeyFromPrivHexRoundTrip | crypto.py:17-19 | the printed form `0x` + `priv.hex()`, and the bare digits, both load back as `priv` |
| Crypto.KeyFromPrivHexIgnoresCase | crypto.py:17-19 | loading a key does not depend on the case of its letters |
| Crypto.KeyFromPrivHexUpperMarker | crypto.py:18 | because the text is lowered first, a `0X` marker is removed too |
| Crypto.KeyFromPrivHexInnerMarker | crypto.py:17-19 | a `0x` between two runs of hex digits is dropped, and the digits are decoded as one |
| LeadingZeros.CountLeadingZeroBits | miner.py:23-35 | the byte loop with its inner bit scan from bit 7 down returns the leading-zero count of the whole string |
| LeadingZeros.LeadingZeroBitsBound | miner.py:23-35 | the count is at most 8 bits per byte, and equals that exactly when every byte is zero |
| LeadingZeros.LeadingZeroBitsIsFirstSetBit | miner.py:23-35 | every bit before the count is clear, and the bit at the count (if there is one) is set, reading bits most significant first |
| LeadingZeros.LeadingZeroBitsAtFirstNonzero | miner.py:26-34 | after z zero bytes, a byte whose highest set bit is h gives 8z + 7 − h, whatever follows |
| LeadingZeros.LeadingZeroBitsAppend | miner.py:31-33 | the scan returns at the first set bit, so bytes appended after a nonzero byte do not change the count |
| LeadingZeros.BitLengthOfHighestSetBit | miner.py:31-32 | a byte whose highest set bit (`byte & (1 << i)`) is bit i has bit length i + 1 |
| Miner.ParseHexStringPrefixes | miner.py:38-49 | hex digits parse the same with a `\x` prefix, a `0x` prefix, or none |
| Miner.ParseHexStringOnePrefix | miner.py:43-47 | at most one prefix is removed, and the test is case-sensitive: `\x0x…`, `0x0x…` and `0X…` are all rejected at position 1 |
| Miner.ParseBlockInputs | miner.py:193-206 | given a key that loaded, `main` goes on to mine exactly when both hashes parse and each is 32 bytes; a parse error comes first (the block hash before the ledger hash), then the block hash's length, then the ledger hash's |
| Miner.ParseBlockInputsAcceptsHashes | miner.py:193-206 | any two 32-byte hashes written as `\x` + hex are accepted and parsed back to themselves |
| Miner.HashInput | miner.py:104-110 | the hash input exists exactly when the nonce is below 2^64, and is `pre_data` followed by 8 nonce bytes |
| Miner.HashInputNonce | miner.py:107-110 | the last 8 bytes of the hash input decode to the nonce |
| Miner.HashInputInjective | miner.py:107-110 | distinct nonces give distinct hash inputs |
| Mining.CountsAt | miner.py:104-116 | entry i of the counts is the leading-zero count of the hash of nonce i |
| Mining.BestCountIsMaximum | miner.py:118-122 | `best_leading_zeros` (updated only on a strictly greater count) is the maximum of 0 and the counts so far, and is one of them when positive |
| Mining.BestIndexIsEarliest | miner.py:118-122 | `best_nonce` is the earliest nonce with the best count, because ties keep the earlier nonce; it stays 0 while no count is positive |
| Mining.BestBelowTargetIff | miner.py:126 | a positive target is above the best count exactly when it is above every count |
| Mining.TracksStep | miner.py:112-122 | hashing the next nonce and updating the best only on a strictly greater count keeps the globals equal to the best of the counts tried |
| Mining.MinerState.constructor | miner.py:15-18 | the globals start at nonce 0, no hash, 0 zero bits, 0 iterations, with nothing tried |
| Mining.MinerState.TryNonce | miner.py:104-122 | hashes the next nonce, adds its count to the counts tried, and moves the best only on a strictly greater count; no hash input exists at 2^64 |
| Mining.MinerState.Step | miner.py:106-143 | one loop pass: stops on a new best that reaches the target (without counting the iteration), stops on nonce overflow, and otherwise counts one iteration |
| Mining.MinerState.Mine | miner.py:69-147 | keeps the invariant; on target reached: the first nonce whose count reaches the target, every earlier count below it, that nonce is `best_nonce`, `iterations` equals it (the winning hash is not counted), any cap not yet reached; on cap reached: exactly `max_iterations` nonces tried, none reaching the target; on nonce overflow: all 2^64 nonces tried, no cap below that, none reaching the target |

## Left out

- sqlchain.py, the SQL ledger and everything that stores or verifies blocks are not part of this model.
- SHA-256 is not modelled. It is the parameter `hash`, so every property holds for any function from bytes to bytes.
- Key derivation is left out: BIP-39 mnemonics, HD derivation and `derive_public` (secp256k1). Signing, `key_random` (the OS random source) and crypto.py's command line are left out too. These are foreign cryptographic libraries. `pub` is a parameter of the miner state.
- Printing, the tqdm progress bar, `time.time()`, elapsed time and hash rate are left out. They are I/O and clock reads that do not affect the search.
- The SIGINT handler, `sys.exit` and the interrupt path are left out. An interrupt can stop `mine` between any two steps. Once a positive count has been seen, the handler reports the best values that the invariant of `MinerState` describes.
- The handler's failures are not modelled. While no hash has a positive count, `best_hash` is still `None`, and the handler's `best_hash.hex()` (miner.py:59) raises AttributeError before it prints the best hash. The handler is registered (miner.py:209) before `mine` sets `start_time` (miner.py:82). An interrupt in that window makes `time.time() - start_time` (miner.py:54) raise TypeError.
- Miner.ParseBlockInputs: covers only the hash arguments. `main` loads the private key first (miner.py:175-186), and a bad `--priv-key` raises in `bytes.fromhex` (crypto.py:19) or in `keys.PrivateKey` (crypto.py:30) before any hash is parsed.
- argparse and the choice between `--priv-key`, `--mnemonic` and the default mnemonic are left out. `--block-hash` and `--ledger-hash` are the string arguments of `ParseBlockInputs`.
- HexCodec.DecodeHex: `bytes.fromhex` also skips ASCII whitespace between digit pairs, which is not modelled. Python reports both errors as ValueError with a message, which is not modelled either.
- Crypto.Lower: `str.lower()` is modelled for ASCII only. Non-ASCII case mappings are not part of this model.
- Mining.MinerState.Mine: `targetZeros` and `maxIterations` are naturals. A negative argparse value, which Python treats as truthy, is not modelled. `None` and 0 are both 0.
- Mining.MinerState.Mine: requires a fresh state (nothing tried, 0 iterations), because `main` calls `mine` once per process. A second call, which would carry on from the old globals, is not modelled.
- Mining.MinerState.Mine: the unbounded run of the source (no target, no cap) ends in the model at the 2^64 overflow of `to_bytes`, as it would in Python. A run that long is a model-only outcome.
