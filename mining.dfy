/** The brute-force nonce search of `mine` in miner.py. */
module Mining {
  import opened Wrappers
  import opened Bytes
  import opened LeadingZeros
  import opened Miner

  /** `sha256(pre_data + nonce.to_bytes(8, 'big'))` for nonce `n`, with the
      hash function given. */
  function Digest(hash: seq<byte> -> seq<byte>, prefix: seq<byte>, n: nat): seq<byte>
    requires n < NonceLimit
  {
    hash(HashInput(prefix, n).value)
  }

  /** The leading zero bits of the hash of nonce `n`. */
  function Score(hash: seq<byte> -> seq<byte>, prefix: seq<byte>, n: nat): nat
    requires n < NonceLimit
  {
    LeadingZeroBits(Digest(hash, prefix, n))
  }

  /** The counts of nonces 0 .. n-1, in the order `mine` tries them. */
  function Counts(hash: seq<byte> -> seq<byte>, prefix: seq<byte>, n: nat): (c: seq<nat>)
    requires n <= NonceLimit
    ensures |c| == n
  {
    if n == 0 then [] else Counts(hash, prefix, n - 1) + [Score(hash, prefix, n - 1)]
  }

  /** Entry i of the counts is the count of nonce i. */
  lemma {:induction false} CountsAt(hash: seq<byte> -> seq<byte>, prefix: seq<byte>, n: nat, i: nat)
    requires i < n <= NonceLimit
    ensures Counts(hash, prefix, n)[i] == Score(hash, prefix, i)
  {
    if i < n - 1 {
      CountsAt(hash, prefix, n - 1, i);
    }
  }

  // ---------------------------------------------------------------------
  // Best tracking over the counts of the nonces tried, in the order tried
  // ---------------------------------------------------------------------

  /** `best_leading_zeros`: starts at 0 and moves to a count only when the
      count is strictly greater. */
  function BestCount(counts: seq<nat>): nat
  {
    if counts == [] then 0
    else
      var last := |counts| - 1;
      if counts[last] > BestCount(counts[..last]) then counts[last] else BestCount(counts[..last])
  }

  /** `best_nonce`: starts at 0 and moves with `best_leading_zeros`. */
  function BestIndex(counts: seq<nat>): nat
  {
    if counts == [] then 0
    else
      var last := |counts| - 1;
      if counts[last] > BestCount(counts[..last]) then last else BestIndex(counts[..last])
  }

  /** The best count is the maximum of 0 and the counts tried. */
  lemma {:induction false} BestCountIsMaximum(counts: seq<nat>)
    ensures forall i :: 0 <= i < |counts| ==> counts[i] <= BestCount(counts)
    ensures BestCount(counts) == 0 || exists i :: 0 <= i < |counts| && counts[i] == BestCount(counts)
  {
    if counts != [] {
      var last := |counts| - 1;
      var init := counts[..last];
      BestCountIsMaximum(init);
      assert forall i :: 0 <= i < last ==> counts[i] == init[i];
      if BestCount(init) > 0 && counts[last] <= BestCount(init) {
        var i :| 0 <= i < |init| && init[i] == BestCount(init);
        assert counts[i] == BestCount(counts);
      }
    }
  }

  /** The best index is the EARLIEST index whose count is the best count
      (0 while no count is positive): ties keep the earlier nonce. */
  lemma {:induction false} BestIndexIsEarliest(counts: seq<nat>)
    ensures BestCount(counts) == 0 ==> BestIndex(counts) == 0
    ensures BestCount(counts) > 0 ==>
      BestIndex(counts) < |counts| &&
      counts[BestIndex(counts)] == BestCount(counts) &&
      forall i :: 0 <= i < BestIndex(counts) ==> counts[i] < BestCount(counts)
  {
    if counts != [] {
      var last := |counts| - 1;
      var init := counts[..last];
      BestIndexIsEarliest(init);
      assert forall i :: 0 <= i < last ==> counts[i] == init[i];
      if counts[last] > BestCount(init) {
        BestCountIsMaximum(init);
      }
    }
  }

  /** Every count is below `target`. */
  ghost predicate AllBelow(counts: seq<nat>, target: nat)
  {
    forall i :: 0 <= i < |counts| ==> counts[i] < target
  }

  /** A positive target is above the best count exactly when it is above
      every count. */
  lemma BestBelowTargetIff(counts: seq<nat>, target: nat)
    requires target > 0
    ensures BestCount(counts) < target <==> AllBelow(counts, target)
  {
    BestCountIsMaximum(counts);
  }

  /** `tried` holds the counts of nonces 0 .. |tried|-1, and the best-so-far
      values are those `mine` derives from them. */
  ghost predicate Tracks(hash: seq<byte> -> seq<byte>, prefix: seq<byte>, tried: seq<nat>,
                         bestNonce: nat, bestHash: Option<seq<byte>>, bestLeadingZeros: nat)
  {
    |tried| <= NonceLimit &&
    tried == Counts(hash, prefix, |tried|) &&
    bestLeadingZeros == BestCount(tried) &&
    bestNonce == BestIndex(tried) &&
    (bestLeadingZeros == 0 ==> bestHash == None) &&
    (bestLeadingZeros > 0 ==> bestNonce < |tried| && bestHash == Some(Digest(hash, prefix, bestNonce)))
  }

  /** One step of the loop: hashing the next nonce and updating the best
      values only on a strictly greater count keeps them those of the counts. */
  lemma TracksStep(hash: seq<byte> -> seq<byte>, prefix: seq<byte>, tried: seq<nat>,
                   bestNonce: nat, bestHash: Option<seq<byte>>, bestLeadingZeros: nat, count: nat)
    requires Tracks(hash, prefix, tried, bestNonce, bestHash, bestLeadingZeros)
    requires |tried| < NonceLimit && count == Score(hash, prefix, |tried|)
    ensures count > bestLeadingZeros ==>
      Tracks(hash, prefix, tried + [count], |tried|, Some(Digest(hash, prefix, |tried|)), count)
    ensures count <= bestLeadingZeros ==>
      Tracks(hash, prefix, tried + [count], bestNonce, bestHash, bestLeadingZeros)
  {
    var next := tried + [count];
    assert next[..|tried|] == tried;
    assert Counts(hash, prefix, |next|) == next;
  }

  // ---------------------------------------------------------------------
  // The loop of `mine`
  // ---------------------------------------------------------------------

  /** How `mine` stops. */
  datatype MineOutcome =
    | TargetReached        // a hash reached `target_zeros`
    | IterationCapReached  // `max_iterations` nonces were tried
    | NonceOverflow        // `nonce.to_bytes(8, 'big')` raised OverflowError

  /** The module-level state of miner.py that `mine` updates, with the fixed
      inputs of one mining run. */
  class MinerState {
    /** `pre_data = block_hash + ledger_hash + pub` */
    const prefix: seq<byte>
    /** SHA-256, not modelled */
    const hash: seq<byte> -> seq<byte>

    var bestNonce: nat
    var bestHash: Option<seq<byte>>
    var bestLeadingZeros: nat
    var iterations: nat

    /** The leading zero counts of the nonces hashed so far, in order. */
    ghost var tried: seq<nat>

    /** Nonces are tried consecutively from 0, and the best-so-far globals
        are those of the counts tried. */
    ghost predicate Valid()
      reads this`tried, this`bestNonce, this`bestHash, this`bestLeadingZeros
    {
      Tracks(hash, prefix, tried, bestNonce, bestHash, bestLeadingZeros)
    }

    /** The globals as the module initialises them. */
    constructor (blockHash: seq<byte>, ledgerHash: seq<byte>, pub: seq<byte>, hash: seq<byte> -> seq<byte>)
      ensures Valid() && tried == []
      ensures prefix == blockHash + ledgerHash + pub && this.hash == hash
      ensures bestNonce == 0 && bestHash == None && bestLeadingZeros == 0 && iterations == 0
    {
      prefix := blockHash + ledgerHash + pub;
      this.hash := hash;
      bestNonce, bestHash, bestLeadingZeros, iterations := 0, None, 0, 0;
      tried := [];
    }

    /** The first half of the loop body of `mine` for nonce `nonce`, the
        nonce after the last one tried: hash it, count its leading zero bits
        and move the best-so-far globals only on a strictly greater count.
        Returns the count, or None where `to_bytes` raises OverflowError. */
    method TryNonce(nonce: nat) returns (leadingZeros: Option<nat>)
      requires Valid() && |tried| == nonce
      modifies this`tried, this`bestNonce, this`bestHash, this`bestLeadingZeros
      ensures Valid()
      ensures leadingZeros.None? <==> nonce >= NonceLimit
      ensures leadingZeros.None? ==> tried == old(tried) && bestLeadingZeros == old(bestLeadingZeros)
      ensures leadingZeros.Some? ==>
        tried == old(tried) + [leadingZeros.value] && tried[..nonce] == old(tried) &&
        (leadingZeros.value > old(bestLeadingZeros) ==>
           bestNonce == nonce && bestLeadingZeros == leadingZeros.value) &&
        (leadingZeros.value <= old(bestLeadingZeros) ==> bestLeadingZeros == old(bestLeadingZeros))
    {
      var data := HashInput(prefix, nonce);
      if data.None? {
        return None;
      }
      var hashResult := hash(data.value);
      var count := CountLeadingZeroBits(hashResult);
      TracksStep(hash, prefix, tried, bestNonce, bestHash, bestLeadingZeros, count);
      if count > bestLeadingZeros {
        tried, bestNonce, bestHash, bestLeadingZeros := tried + [count], nonce, Some(hashResult), count;
      } else {
        tried := tried + [count];
      }
      leadingZeros := Some(count);
    }

    /** One pass of the loop body of `mine`: try the next nonce, stop when
        its count is a new best that reaches the target, and otherwise count
        the iteration. Returns the outcome when the loop stops here. */
    method Step(nonce: nat, targetZeros: nat) returns (stop: Option<MineOutcome>)
      requires Valid() && |tried| == iterations == nonce
      requires targetZeros > 0 ==> bestLeadingZeros < targetZeros
      modifies this
      ensures Valid()
      ensures stop != Some(IterationCapReached)
      ensures stop == Some(NonceOverflow) <==> nonce >= NonceLimit
      ensures stop == Some(NonceOverflow) ==>
        |tried| == iterations == nonce && (targetZeros > 0 ==> AllBelow(tried, targetZeros))
      ensures stop == Some(TargetReached) ==>
        // the first count to reach the target, which becomes the best ...
        targetZeros > 0 && |tried| == nonce + 1 && tried[nonce] >= targetZeros &&
        AllBelow(tried[..nonce], targetZeros) && bestNonce == nonce &&
        // ... and is not counted as an iteration
        iterations == nonce
      ensures stop.None? ==>
        |tried| == iterations == nonce + 1 && (targetZeros > 0 ==> bestLeadingZeros < targetZeros)
    {
      if targetZeros > 0 {
        BestBelowTargetIff(tried, targetZeros);
      }
      var bestBefore := bestLeadingZeros;
      var leadingZeros := TryNonce(nonce);
      if leadingZeros.None? {
        return Some(NonceOverflow);
      }
      if leadingZeros.value > bestBefore && targetZeros > 0 && leadingZeros.value >= targetZeros {
        return Some(TargetReached);
      }
      iterations := iterations + 1;
      return None;
    }

    /** `mine(block_hash, ledger_hash, pub, target_zeros, max_iterations)`;
        a target or a cap of 0 counts as absent, as in Python. It returns how
        the loop stopped and the final value of its local `nonce`. */
    method Mine(targetZeros: nat, maxIterations: nat) returns (outcome: MineOutcome, nonce: nat)
      requires Valid() && tried == [] && iterations == 0
      modifies this
      ensures Valid()
      ensures outcome == TargetReached ==>
        // stops at the first nonce whose count reaches the target ...
        targetZeros > 0 && |tried| == nonce + 1 && tried[nonce] >= targetZeros &&
        AllBelow(tried[..nonce], targetZeros) &&
        // ... which becomes the best but is not counted as an iteration
        bestNonce == nonce && iterations == nonce &&
        (maxIterations > 0 ==> iterations < maxIterations)
      ensures outcome == IterationCapReached ==>
        maxIterations > 0 && |tried| == nonce == iterations == maxIterations &&
        (targetZeros > 0 ==> AllBelow(tried, targetZeros))
      ensures outcome == NonceOverflow ==>
        |tried| == nonce == iterations == NonceLimit &&
        (maxIterations == 0 || maxIterations > NonceLimit) &&
        (targetZeros > 0 ==> AllBelow(tried, targetZeros))
    {
      nonce := 0;
      while true
        invariant Valid()
        invariant |tried| == iterations == nonce <= NonceLimit
        invariant maxIterations > 0 ==> nonce < maxIterations
        invariant targetZeros > 0 ==> bestLeadingZeros < targetZeros
        decreases NonceLimit - nonce
      {
        var stop := Step(nonce, targetZeros);
        if stop.Some? {
          return stop.value, nonce;
        }
        nonce := nonce + 1;
        if maxIterations > 0 && iterations >= maxIterations {
          if targetZeros > 0 {
            BestBelowTargetIff(tried, targetZeros);
          }
          return IterationCapReached, nonce;
        }
      }
    }
  }
}
