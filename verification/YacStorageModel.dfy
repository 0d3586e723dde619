/** What the three nested vote storages hold and how one call changes it, on
    values. The classes in YacStorage.dfy are proved to perform these steps. */
module YacStorageModel {
  import opened Wrappers
  import opened YacTypes
  import opened YacQuorum

  // ---- YacBlockStorage ----

  datatype BlockView = BlockView(hash: YacHash, peers: nat, votes: seq<Vote>, current: StorageResult)

  function EmptyBlock(hash: YacHash, peers: nat): BlockView {
    BlockView(hash, peers, [], UNDECIDED)
  }

  function InsertVote(b: BlockView, msg: Vote): (after: BlockView)
    ensures after.hash == b.hash && after.peers == b.peers
  {
    if msg in b.votes then b
    else
      var votes := b.votes + [msg];
      var answer := b.current.answer.(commit := Some(Commit(votes)));
      var current := match b.current.state
        case NotCommitted =>
          if HasSupermajority(|votes|, b.peers) then StorageResult(answer, Committed) else b.current
        case Committed => StorageResult(answer, CommittedBefore)
        case CommittedBefore => StorageResult(answer, CommittedBefore);
      b.(votes := votes, current := current)
  }

  function InsertVotes(b: BlockView, msgs: seq<Vote>): (after: BlockView)
    ensures after.hash == b.hash && after.peers == b.peers
  {
    if msgs == [] then b
    else InsertVote(InsertVotes(b, msgs[..|msgs| - 1]), msgs[|msgs| - 1])
  }

  predicate CommitScheme(commit: Commit, hash: YacHash, peers: nat) {
    HasSupermajority(|commit.votes|, peers) && forall v :: v in commit.votes ==> v.hash == hash
  }

  function InsertCommit(b: BlockView, commit: Commit): (BlockView, StorageResult) {
    if CommitScheme(commit, b.hash, b.peers) then
      var after := InsertVotes(b, commit.votes);
      var settled :=
        if b.current.state.NotCommitted? && after.current.state.CommittedBefore?
        then after.(current := after.current.(state := Committed))
        else after;
      (settled, settled.current)
    else (b, UNDECIDED)
  }

  // ---- YacProposalStorage ----

  datatype ProposalView = ProposalView(hash: string, peers: nat, current: StorageResult, blocks: seq<BlockView>)

  function EmptyProposal(hash: string, peers: nat): ProposalView {
    ProposalView(hash, peers, UNDECIDED, [])
  }

  /** Index of the first store of `hash` at or after `from`, or the number of stores. */
  function FindBlock(blocks: seq<BlockView>, hash: YacHash, from: nat := 0): (i: nat)
    requires from <= |blocks|
    ensures from <= i <= |blocks|
    ensures i < |blocks| ==> blocks[i].hash == hash
    ensures forall j :: from <= j < i ==> blocks[j].hash != hash
    decreases |blocks| - from
  {
    if from == |blocks| || blocks[from].hash == hash then from
    else FindBlock(blocks, hash, from + 1)
  }

  /** The stores after looking `hash` up: a missing store is appended. */
  function WithBlock(p: ProposalView, hash: YacHash): (q: ProposalView)
    ensures FindBlock(p.blocks, hash) < |q.blocks|
  {
    if FindBlock(p.blocks, hash) < |p.blocks| then p
    else p.(blocks := p.blocks + [EmptyBlock(hash, p.peers)])
  }

  function ProposalInsert(p: ProposalView, msg: Vote): ProposalView {
    if msg.hash.proposalHash != p.hash then p
    else
      var i := FindBlock(p.blocks, msg.hash);
      var q := WithBlock(p, msg.hash);
      var b := InsertVote(q.blocks[i], msg);
      q.(blocks := q.blocks[i := b],
         current := if b.current.state.NotCommitted? then q.current else b.current)
  }

  function ProposalApply(p: ProposalView, commit: Commit): (ProposalView, StorageResult) {
    if commit.votes == [] then (p, UNDECIDED)
    else
      var hash := commit.votes[0].hash;
      var i := FindBlock(p.blocks, hash);
      var q := WithBlock(p, hash);
      var (b, result) := InsertCommit(q.blocks[i], commit);
      (q.(blocks := q.blocks[i := b],
          current := if result.state.Committed? then result else q.current), result)
  }

  // ---- YacVoteStorage ----

  type StorageView = seq<ProposalView>

  function FindProposal(s: StorageView, hash: string, from: nat := 0): (i: nat)
    requires from <= |s|
    ensures from <= i <= |s|
    ensures i < |s| ==> s[i].hash == hash
    ensures forall j :: from <= j < i ==> s[j].hash != hash
    decreases |s| - from
  {
    if from == |s| || s[from].hash == hash then from else FindProposal(s, hash, from + 1)
  }

  function WithProposal(s: StorageView, hash: string, peers: nat): (t: StorageView)
    ensures FindProposal(s, hash) < |t|
  {
    if FindProposal(s, hash) < |s| then s else s + [EmptyProposal(hash, peers)]
  }

  function StoreVote(s: StorageView, msg: Vote, peers: nat): (StorageView, StorageResult) {
    var i := FindProposal(s, msg.hash.proposalHash);
    var t := WithProposal(s, msg.hash.proposalHash, peers);
    var p := ProposalInsert(t[i], msg);
    (t[i := p], p.current)
  }

  function ApplyCommit(s: StorageView, commit: Commit, peers: nat): (StorageView, StorageResult) {
    if commit.votes == [] then (s, UNDECIDED)
    else
      var hash := commit.votes[0].hash.proposalHash;
      var i := FindProposal(s, hash);
      var t := WithProposal(s, hash, peers);
      var (p, result) := ProposalApply(t[i], commit);
      (t[i := p], result)
  }

  function ProposalState(s: StorageView, hash: YacHash): Option<StorageResult> {
    var i := FindProposal(s, hash.proposalHash);
    if i < |s| then Some(s[i].current) else None
  }
}
