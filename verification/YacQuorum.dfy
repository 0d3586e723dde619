/** Supermajority arithmetic: yac_common.cpp for the consensus and
    chain_validator_impl.cpp for the ledger. Both divide in floating point;
    here the division is exact, over `real`. */
module YacQuorum {
  import opened Sequences

  /** `all - 1` on uint64_t wraps around when there are no peers. */
  function PeersMinusOne(all: nat): nat {
    if all == 0 then 0xFFFF_FFFF_FFFF_FFFF else all - 1
  }

  predicate HasSupermajority(current: nat, all: nat) {
    if current > all then false
    else
      var f := PeersMinusOne(all) as real / 3.0;
      current as real >= 2.0 * f + 1.0
  }

  /** ChainValidatorImpl::checkSupermajority: signed peer count, no upper bound on signatures. */
  predicate CheckSupermajority(signatures: nat, peers: nat) {
    var f := (peers - 1) as real / 3.0;
    signatures as real >= 2.0 * f + 1.0
  }

  /** The threshold in integers: more than two thirds of the peers. */
  predicate Quorum(count: nat, peers: nat) {
    peers >= 1 && 3 * count >= 2 * peers + 1
  }

  lemma SupermajorityIsQuorum(current: nat, all: nat)
    ensures HasSupermajority(current, all) <==> current <= all && Quorum(current, all)
  {
    if 1 <= all && current <= all {
      var f := (all - 1) as real / 3.0;
      assert 3.0 * f == (all - 1) as real;
      assert (3 * current) as real == 3.0 * current as real;
      assert (2 * all + 1) as real == 2.0 * (3.0 * f) + 3.0;
    }
  }

  lemma ChainCheckIsQuorum(signatures: nat, peers: nat)
    ensures CheckSupermajority(signatures, peers) <==> 3 * signatures >= 2 * peers + 1
  {
    var f := (peers - 1) as real / 3.0;
    assert 3.0 * f == (peers - 1) as real;
    assert (3 * signatures) as real == 3.0 * signatures as real;
    assert (2 * peers + 1) as real == 2.0 * (3.0 * f) + 3.0;
  }

  /** Two quorums of the same n peers share more than a third of them: the
      intersection is larger than any set of at most (n - 1) / 3 faulty keys. */
  lemma QuorumsIntersect<K>(keys: set<K>, left: set<K>, right: set<K>, faulty: set<K>)
      returns (k: K)
    requires left <= keys && right <= keys && faulty <= keys
    requires Quorum(|left|, |keys|) && Quorum(|right|, |keys|)
    requires 3 * |faulty| + 1 <= |keys|
    ensures k in left && k in right && k !in faulty
  {
    var both := left * right;
    assert |left + right| == |left| + |right| - |both|;
    SubsetSize(left + right, keys);
    if both <= faulty {
      SubsetSize(both, faulty);
    }
    k :| k in both && k !in faulty;
  }

  /** A quorum always contains a correct peer. */
  lemma QuorumHasHonest<K>(keys: set<K>, voters: set<K>, faulty: set<K>) returns (k: K)
    requires voters <= keys && faulty <= keys
    requires Quorum(|voters|, |keys|) && 3 * |faulty| + 1 <= |keys|
    ensures k in voters && k !in faulty
  {
    k := QuorumsIntersect(keys, voters, voters, faulty);
  }
}
