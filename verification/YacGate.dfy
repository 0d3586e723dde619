/** The gate between block creation and YAC (yac_gate_impl.cpp): a commit of the
    current block turns its votes into the block's signatures. */
module YacGate {
  import opened Wrappers
  import opened YacTypes
  import opened YacQuorum
  import opened YacStorageModel
  import opened YacStorageLaws
  import opened YacAgreement
  import opened Validator
  import opened Chain

  const EMPTY_BLOCK := Block("", "", 0, [], [])

  function SignaturesOf(votes: seq<Vote>): seq<Signature> {
    seq(|votes|, i requires 0 <= i < |votes| => votes[i].signature)
  }

  class Gate {
    var currentHash: YacHash
    var currentBlock: Block

    constructor ()
      ensures currentHash == YacHash("", "") && currentBlock == EMPTY_BLOCK
    {
      currentHash := YacHash("", "");
      currentBlock := EMPTY_BLOCK;
    }

    /** vote: remembers the block if the orderer knows the peers, and says whether voting starts. */
    method Vote(block: Block, hash: YacHash, orderKnown: bool) returns (started: bool)
      modifies this
      ensures started == orderKnown
      ensures (currentHash, currentBlock) == if orderKnown then (hash, block) else old((currentHash, currentBlock))
    {
      if !orderKnown {
        return false;
      }
      currentHash := hash;
      currentBlock := block;
      return true;
    }

    /** on_commit: the block to apply; `None` is the exception for a commit without votes. */
    method OnCommit(commit: Commit) returns (block: Option<Block>)
      modifies `currentBlock
      ensures block.None? <==> commit.votes == []
      ensures if commit.votes != [] && commit.votes[0].hash == currentHash
        then currentBlock == old(currentBlock).(sigs := SignaturesOf(commit.votes)) && block == Some(currentBlock)
        else currentBlock == old(currentBlock) && (block.Some? ==> block.value == EMPTY_BLOCK)
    {
      if |commit.votes| == 0 {
        return None;
      }
      if commit.votes[0].hash == currentHash {
        currentBlock := currentBlock.(sigs := []);
        for i := 0 to |commit.votes|
          invariant currentBlock == old(currentBlock).(sigs := SignaturesOf(commit.votes)[..i])
        {
          currentBlock := currentBlock.(sigs := currentBlock.sigs + [commit.votes[i].signature]);
        }
        return Some(currentBlock);
      }
      return Some(EMPTY_BLOCK);
    }
  }

  /** From votes to ledger: the block signed with the certificate of a committed
      store of n peers passes the chain validator's supermajority check for n
      peers; so, made of filtered transactions on the top block, it is accepted. */
  lemma CertificateSignsBlock(b: BlockView, block: Block, verify: Block -> bool, s: StoreView, txs: seq<Transaction>)
    requires BlockOk(b) && !b.current.state.NotCommitted? && |s.wsv.peers| == b.peers
    requires block.sigs == SignaturesOf(b.current.answer.commit.value.votes)
    requires block.transactions == Filter(s.wsv, txs).0 && block.prevHash == s.topHash && verify(block)
    ensures CheckSupermajority(|block.sigs|, b.peers)
    ensures ValidateBlock(verify, s, block).0 && ValidateBlock(verify, s, block).1.wsv == Filter(s.wsv, txs).1
  {
    ChainCheckIsQuorum(|block.sigs|, b.peers);
    FilteredBlockAccepted(verify, s, block, txs);
  }

  // ---- agreement on the ledger ----

  /** YacHashProviderImpl::makeHash: the hash of the block stands for the proposal as well. */
  function MakeHash(block: Block): YacHash {
    YacHash(block.hash, block.hash)
  }

  /** So hashes made of blocks are equal as soon as they name the same proposal, or the same block. */
  lemma OneBlockPerProposal(a: Block, b: Block)
    ensures MakeHash(a) == MakeHash(b) <==> a.hash == b.hash
    ensures MakeHash(a).proposalHash == MakeHash(b).proposalHash ==> MakeHash(a) == MakeHash(b)
    ensures MakeHash(a).blockHash == a.hash
  {}

  function Unsigned(block: Block): Block {
    block.(sigs := [])
  }

  /** The block that the gate passes on for a commit of it. */
  function SignedWith(block: Block, commit: Commit): Block {
    block.(sigs := SignaturesOf(commit.votes))
  }

  /** Applying a block depends on its signatures in no way, except in the block that is kept. */
  lemma AppliesUnsigned(s: StoreView, a: Block, b: Block)
    requires Unsigned(a) == Unsigned(b)
    ensures var (x, y) := (ApplyBlock(s, a), ApplyBlock(s, b));
      x.0 == y.0 && x.1.wsv == y.1.wsv && x.1.topHash == y.1.topHash
  {
    assert a.transactions == Unsigned(a).transactions && b.transactions == Unsigned(b).transactions;
    assert a.hash == Unsigned(a).hash && a.prevHash == Unsigned(a).prevHash;
    assert b.hash == Unsigned(b).hash && b.prevHash == Unsigned(b).prevHash;
  }

  /** The keys that sign a block. */
  function SigningKeys(block: Block): set<string> {
    set sig | sig in block.sigs :: sig.pubkey
  }

  /** The signatures of a block signed with a certificate are the genuine ones of a quorum of
      ledger keys, exactly those that voted, one for each. */
  lemma SignedByVoters(c: Config, commit: Commit, hash: YacHash, block: Block)
    requires Certifies(c, commit, hash)
    ensures var signed := SignedWith(block, commit);
      && SigningKeys(signed) == Signers(commit.votes) <= c.keys
      && |signed.sigs| == |commit.votes| && Quorum(|SigningKeys(signed)|, |c.keys|)
      && forall sig :: sig in signed.sigs ==> sig.signature == c.sign(sig.pubkey, hash)
  {
    var signed := SignedWith(block, commit);
    CertificateSigners(c, commit, hash);
    forall sig | sig in signed.sigs
      ensures exists v :: v in commit.votes && v.signature == sig
    {
      var i :| 0 <= i < |signed.sigs| && signed.sigs[i] == sig;
      assert commit.votes[i].signature == sig;
    }
    forall v | v in commit.votes
      ensures v.signature in signed.sigs
    {
      var i :| 0 <= i < |commit.votes| && commit.votes[i] == v;
      assert signed.sigs[i] == v.signature;
    }
  }

  /** A block signed with a certificate of the round is judged by its signatures and its content alone. */
  lemma CertifiedVerdict(c: Config, commit: Commit, hash: YacHash, block: Block, verify: Block -> bool, s: StoreView)
    requires Certifies(c, commit, hash) && |s.wsv.peers| == |c.keys|
    ensures var signed := SignedWith(block, commit);
      ValidateBlock(verify, s, signed) == if verify(signed) then ApplyBlock(s, signed) else (false, s)
  {
    ChainCheckIsQuorum(|commit.votes|, |c.keys|);
  }

  /** Consensus on the ledger: two correct peers report commits in one round, each for
      the block its gate remembers. If a block hash determines the content of a block,
      both remember the same content; from one state of the ledger, the blocks they sign
      get the same verdict, world state and top hash, provided both verify or neither does. */
  lemma LedgersAgree(c: Config, run: seq<Network>, actions: seq<Action>,
                     i: nat, p: string, left: Commit, j: nat, q: string, right: Commit,
                     a: Block, b: Block, verify: Block -> bool, s: StoreView)
    requires ConfigOk(c) && IsRun(c, run, actions) && |s.wsv.peers| == |c.keys|
    requires i < |run| && p in run[i].nodes && left in run[i].nodes[p].notified
    requires j < |run| && q in run[j].nodes && right in run[j].nodes[q].notified
    requires left.votes != [] && left.votes[0].hash == MakeHash(a)
    requires right.votes != [] && right.votes[0].hash == MakeHash(b)
    requires a.hash == b.hash ==> Unsigned(a) == Unsigned(b)
    ensures Unsigned(a) == Unsigned(b)
    ensures var x, y := SignedWith(a, left), SignedWith(b, right);
      var (l, r) := (ValidateBlock(verify, s, x), ValidateBlock(verify, s, y));
      && (verify(x) == verify(y) ==> l.0 == r.0 && l.1.wsv == r.1.wsv && l.1.topHash == r.1.topHash)
      && (l.0 && r.0 ==> l.1.wsv == r.1.wsv && l.1.topHash == r.1.topHash)
      && (l.0 && !r.0 ==> !verify(y))
  {
    Agreement(c, run, actions, i, p, left, j, q, right);
    assert left.votes[0] in left.votes && right.votes[0] in right.votes;
    ReportedCertified(c, run, actions, i, p, left);
    ReportedCertified(c, run, actions, j, q, right);
    var g :| Certifies(c, left, g);
    var h :| Certifies(c, right, h);
    CertifiedVerdict(c, left, g, a, verify, s);
    CertifiedVerdict(c, right, h, b, verify, s);
    AppliesUnsigned(s, SignedWith(a, left), SignedWith(b, right));
  }

  lemma ReportedCertified(c: Config, run: seq<Network>, actions: seq<Action>, i: nat, p: string, commit: Commit)
    requires ConfigOk(c) && IsRun(c, run, actions)
    requires i < |run| && p in run[i].nodes && commit in run[i].nodes[p].notified
    ensures Certified(c, commit)
  {
    RunIsSafe(c, run, actions, i);
    assert NodeOk(c, p, run[i].nodes[p]);
  }
}
