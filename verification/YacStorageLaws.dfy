/** What every run of the vote storages keeps and computes. */
module YacStorageLaws {
  import opened Wrappers
  import opened Sequences
  import opened YacTypes
  import opened YacQuorum
  import opened YacStorageModel

  // ---- one block store ----

  /** A block store commits exactly when its distinct votes for its own hash
      reach the quorum, and from then on it answers precisely these votes. */
  ghost predicate BlockOk(b: BlockView) {
    && Distinct(b.votes)
    && (forall v :: v in b.votes ==> v.hash == b.hash)
    && (b.current.state.NotCommitted? <==> !Quorum(|b.votes|, b.peers))
    && b.current.answer.commit == (if b.current.state.NotCommitted? then None else Some(Commit(b.votes)))
    && b.current.answer.reject == None
  }

  lemma InsertVoteKeeps(b: BlockView, msg: Vote)
    requires BlockOk(b) && msg.hash == b.hash
    ensures var after := InsertVote(b, msg);
      && BlockOk(after) && after.hash == b.hash && after.peers == b.peers
      && b.votes <= after.votes && Elements(after.votes) == Elements(b.votes) + {msg}
      && (after.current.state.Committed? <==>
            (b.current.state.NotCommitted? && Quorum(|after.votes|, b.peers))
            || (b.current.state.Committed? && msg in b.votes))
  {
    SupermajorityIsQuorum(|b.votes| + 1, b.peers);
  }

  lemma {:induction false} InsertVotesKeep(b: BlockView, msgs: seq<Vote>)
    requires BlockOk(b) && forall v :: v in msgs ==> v.hash == b.hash
    ensures var after := InsertVotes(b, msgs);
      && BlockOk(after) && after.hash == b.hash && after.peers == b.peers
      && b.votes <= after.votes && Elements(after.votes) == Elements(b.votes) + Elements(msgs)
      && (b.current.state.Committed? && Elements(msgs) <= Elements(b.votes) ==> after == b)
      && (b.current.state.Committed? && !(Elements(msgs) <= Elements(b.votes)) ==> after.current.state.CommittedBefore?)
      && (b.current.state.CommittedBefore? ==> after.current.state.CommittedBefore?)
  {
    if msgs != [] {
      var front, last := msgs[..|msgs| - 1], msgs[|msgs| - 1];
      InsertVotesKeep(b, front);
      InsertVoteKeeps(InsertVotes(b, front), last);
      assert Elements(msgs) == Elements(front) + {last};
      assert last in Elements(InsertVotes(b, front).votes) <==> last in InsertVotes(b, front).votes;
    }
  }

  /** The outcome of offering a commit message to a store, in terms of the sets of votes alone. */
  ghost function CommitOutcome(b: BlockView, commit: Commit): CommitState {
    var merged := Elements(b.votes) + Elements(commit.votes);
    if !CommitScheme(commit, b.hash, b.peers) || !Quorum(|merged|, b.peers) then NotCommitted
    else if b.current.state.NotCommitted? then Committed
    else if b.current.state.Committed? && Elements(commit.votes) <= Elements(b.votes) then Committed
    else CommittedBefore
  }

  lemma InsertCommitKeeps(b: BlockView, commit: Commit)
    requires BlockOk(b)
    ensures var (after, result) := InsertCommit(b, commit);
      && BlockOk(after) && after.hash == b.hash && after.peers == b.peers && b.votes <= after.votes
      && Elements(after.votes) == Elements(b.votes) +
           (if CommitScheme(commit, b.hash, b.peers) then Elements(commit.votes) else {})
      && result.state == CommitOutcome(b, commit)
      && (!result.state.NotCommitted? ==> result == after.current)
      && (!after.current.state.NotCommitted? && b.current.state.NotCommitted? ==> result.state.Committed?)
  {
    if CommitScheme(commit, b.hash, b.peers) {
      InsertVotesKeep(b, commit.votes);
      DistinctSize(InsertVotes(b, commit.votes).votes);
    }
  }

  /** A certificate convinces every other store of the same round: the commit
      answered by one store, if it names no more votes than there are peers,
      is accepted elsewhere and commits a store that had not committed. */
  lemma CertificateTransfers(source: BlockView, target: BlockView)
    requires BlockOk(source) && BlockOk(target)
    requires source.hash == target.hash && source.peers == target.peers
    requires !source.current.state.NotCommitted? && |source.votes| <= source.peers
    ensures var commit := source.current.answer.commit.value;
      && CommitScheme(commit, target.hash, target.peers)
      && !InsertCommit(target, commit).1.state.NotCommitted?
      && (target.current.state.NotCommitted? ==> InsertCommit(target, commit).1.state.Committed?)
      && Elements(source.votes) <= Elements(InsertCommit(target, commit).0.votes)
  {
    var commit := source.current.answer.commit.value;
    SupermajorityIsQuorum(|source.votes|, source.peers);
    InsertCommitKeeps(target, commit);
    DistinctSize(source.votes);
    SubsetSize(Elements(source.votes), Elements(target.votes) + Elements(source.votes));
  }

  // ---- one proposal store ----

  /** The cached answer of a proposal store comes from block store `i`: a
      supermajority prefix of the votes that store holds by now. */
  ghost predicate CachedFrom(p: ProposalView, i: nat) {
    && i < |p.blocks|
    && p.current.answer.commit.Some?
    && p.current.answer.commit.value.votes <= p.blocks[i].votes
    && Quorum(|p.current.answer.commit.value.votes|, p.peers)
  }

  /** One sound block store per hash of the proposal. */
  ghost predicate StoresOk(p: ProposalView) {
    && (forall i :: 0 <= i < |p.blocks| ==>
          BlockOk(p.blocks[i]) && p.blocks[i].peers == p.peers && p.blocks[i].hash.proposalHash == p.hash)
    && (forall i, j :: 0 <= i < j < |p.blocks| ==> p.blocks[i].hash != p.blocks[j].hash)
  }

  /** The proposal is undecided exactly while all its block stores are, and never rejects. */
  ghost predicate AnswerOk(p: ProposalView) {
    && (p.current.state.NotCommitted? <==> forall i :: 0 <= i < |p.blocks| ==> p.blocks[i].current.state.NotCommitted?)
    && (p.current.state.NotCommitted? ==> p.current == UNDECIDED)
    && (!p.current.state.NotCommitted? ==> exists i :: CachedFrom(p, i))
    && p.current.answer.reject == None
  }

  ghost predicate ProposalOk(p: ProposalView) {
    StoresOk(p) && AnswerOk(p)
  }

  lemma WithBlockKeeps(p: ProposalView, hash: YacHash)
    requires ProposalOk(p) && hash.proposalHash == p.hash
    ensures ProposalOk(WithBlock(p, hash))
    ensures WithBlock(p, hash).blocks[FindBlock(p.blocks, hash)].hash == hash
  {
    if FindBlock(p.blocks, hash) == |p.blocks| {
      AppendBlockKeeps(p, hash);
    }
  }

  lemma EmptyBlockOk(hash: YacHash, peers: nat)
    ensures BlockOk(EmptyBlock(hash, peers))
  {}

  lemma AppendBlockKeeps(p: ProposalView, hash: YacHash)
    requires ProposalOk(p) && hash.proposalHash == p.hash
    requires forall i :: 0 <= i < |p.blocks| ==> p.blocks[i].hash != hash
    ensures ProposalOk(p.(blocks := p.blocks + [EmptyBlock(hash, p.peers)]))
  {
    EmptyBlockOk(hash, p.peers);
    AppendedAnswer(p, EmptyBlock(hash, p.peers));
  }

  lemma AppendedAnswer(p: ProposalView, b: BlockView)
    requires AnswerOk(p) && b.current.state.NotCommitted?
    ensures AnswerOk(p.(blocks := p.blocks + [b]))
  {
    var q := p.(blocks := p.blocks + [b]);
    assert forall i :: 0 <= i < |p.blocks| ==> q.blocks[i] == p.blocks[i];
    if !p.current.state.NotCommitted? {
      var i: nat :| CachedFrom(p, i);
      assert CachedFrom(q, i);
      var k :| 0 <= k < |p.blocks| && !p.blocks[k].current.state.NotCommitted?;
      assert !q.blocks[k].current.state.NotCommitted?;
    }
  }

  /** Replacing one block store by a later one keeps the proposal store sound,
      if the cached answer is refreshed whenever that store commits first. */
  lemma ReplaceBlockKeeps(p: ProposalView, i: nat, b: BlockView, current: StorageResult)
    requires ProposalOk(p) && i < |p.blocks|
    requires BlockOk(b) && b.hash == p.blocks[i].hash && b.peers == p.peers && p.blocks[i].votes <= b.votes
    requires (current == b.current && !b.current.state.NotCommitted?)
             || (current == p.current && (!b.current.state.NotCommitted? ==> !p.blocks[i].current.state.NotCommitted?))
    ensures ProposalOk(p.(blocks := p.blocks[i := b], current := current))
  {
    var q := p.(blocks := p.blocks[i := b], current := current);
    if current == b.current && !b.current.state.NotCommitted? {
      assert CachedFrom(q, i) && !q.blocks[i].current.state.NotCommitted?;
    } else if !p.current.state.NotCommitted? {
      var j :| CachedFrom(p, j);
      assert CachedFrom(q, j);
      var k :| 0 <= k < |p.blocks| && !p.blocks[k].current.state.NotCommitted?;
      assert !q.blocks[k].current.state.NotCommitted?;
    }
  }

  lemma ProposalInsertKeeps(p: ProposalView, msg: Vote)
    requires ProposalOk(p)
    ensures ProposalOk(ProposalInsert(p, msg))
  {
    if msg.hash.proposalHash == p.hash {
      WithBlockKeeps(p, msg.hash);
      var i, q := FindBlock(p.blocks, msg.hash), WithBlock(p, msg.hash);
      InsertVoteKeeps(q.blocks[i], msg);
      var b := InsertVote(q.blocks[i], msg);
      ReplaceBlockKeeps(q, i, b, if b.current.state.NotCommitted? then q.current else b.current);
    }
  }

  lemma ProposalApplyKeeps(p: ProposalView, commit: Commit)
    requires ProposalOk(p) && (commit.votes != [] ==> commit.votes[0].hash.proposalHash == p.hash)
    ensures ProposalOk(ProposalApply(p, commit).0)
  {
    if commit.votes != [] {
      var hash := commit.votes[0].hash;
      WithBlockKeeps(p, hash);
      var i, q := FindBlock(p.blocks, hash), WithBlock(p, hash);
      InsertCommitKeeps(q.blocks[i], commit);
      var (b, result) := InsertCommit(q.blocks[i], commit);
      ReplaceBlockKeeps(q, i, b, if result.state.Committed? then result else q.current);
    }
  }

  /** The keys that signed the votes of one store. */
  ghost function Signers(votes: seq<Vote>): set<string> {
    set v | v in votes :: v.signature.pubkey
  }

  lemma {:induction false} SignersSize(votes: seq<Vote>)
    requires forall i, j :: 0 <= i < j < |votes| ==> votes[i].signature.pubkey != votes[j].signature.pubkey
    ensures |Signers(votes)| == |votes|
  {
    if votes != [] {
      var front, last := votes[..|votes| - 1], votes[|votes| - 1];
      SignersSize(front);
      assert Signers(votes) == Signers(front) + {last.signature.pubkey};
    }
  }

  /** Each key of `keys` signs at most one vote message over all the stores of a proposal. */
  ghost predicate OneVotePerKey(p: ProposalView, keys: set<string>) {
    && (forall j, v :: 0 <= j < |p.blocks| && v in p.blocks[j].votes ==> v.signature.pubkey in keys)
    && (forall j, k, v, w ::
          (0 <= j < |p.blocks| && 0 <= k < |p.blocks| && v in p.blocks[j].votes && w in p.blocks[k].votes
           && v.signature.pubkey == w.signature.pubkey) ==> v == w)
  }

  lemma StoreSigners(p: ProposalView, keys: set<string>, i: nat)
    requires ProposalOk(p) && OneVotePerKey(p, keys) && i < |p.blocks|
    ensures |Signers(p.blocks[i].votes)| == |p.blocks[i].votes| && Signers(p.blocks[i].votes) <= keys
  {
    var votes := p.blocks[i].votes;
    forall a, b | 0 <= a < b < |votes|
      ensures votes[a].signature.pubkey != votes[b].signature.pubkey
    {
      assert BlockOk(p.blocks[i]) && votes[a] in votes && votes[b] in votes;
    }
    SignersSize(votes);
  }

  lemma QuorumStoresCoincide(p: ProposalView, keys: set<string>, i: nat, j: nat)
    requires ProposalOk(p) && |keys| == p.peers && OneVotePerKey(p, keys)
    requires i < |p.blocks| && Quorum(|p.blocks[i].votes|, p.peers)
    requires j < |p.blocks| && Quorum(|p.blocks[j].votes|, p.peers)
    ensures i == j
  {
    var left, right := p.blocks[i], p.blocks[j];
    StoreSigners(p, keys, i);
    StoreSigners(p, keys, j);
    var k := QuorumsIntersect(keys, Signers(left.votes), Signers(right.votes), {});
    var v :| v in left.votes && v.signature.pubkey == k;
    var w :| w in right.votes && w.signature.pubkey == k;
    assert v == w && v.hash == left.hash && w.hash == right.hash;
  }

  /** One winner: if each of n keys contributes at most one vote message to a
      proposal, at most one of its block stores commits, and the cached answer
      is a supermajority prefix of the votes of that one. */
  lemma OneWinner(p: ProposalView, keys: set<string>, i: nat)
    requires ProposalOk(p) && |keys| == p.peers && OneVotePerKey(p, keys)
    requires i < |p.blocks| && !p.blocks[i].current.state.NotCommitted?
    ensures forall j :: 0 <= j < |p.blocks| && !p.blocks[j].current.state.NotCommitted? ==> j == i
    ensures CachedFrom(p, i)
  {
    forall j | 0 <= j < |p.blocks| && Quorum(|p.blocks[j].votes|, p.peers)
      ensures j == i
    {
      QuorumStoresCoincide(p, keys, i, j);
    }
    var j: nat :| CachedFrom(p, j);
    assert |p.current.answer.commit.value.votes| <= |p.blocks[j].votes|;
  }

  // ---- the whole storage ----

  ghost predicate StorageOk(s: StorageView, peers: nat) {
    && (forall i :: 0 <= i < |s| ==> ProposalOk(s[i]) && s[i].peers == peers)
    && (forall i, j :: 0 <= i < j < |s| ==> s[i].hash != s[j].hash)
  }

  lemma StoreVoteKeeps(s: StorageView, msg: Vote, peers: nat)
    requires StorageOk(s, peers)
    ensures StorageOk(StoreVote(s, msg, peers).0, peers)
  {
    var t := WithProposal(s, msg.hash.proposalHash, peers);
    ProposalInsertKeeps(t[FindProposal(s, msg.hash.proposalHash)], msg);
  }

  lemma ApplyCommitKeeps(s: StorageView, commit: Commit, peers: nat)
    requires StorageOk(s, peers)
    ensures StorageOk(ApplyCommit(s, commit, peers).0, peers)
  {
    if commit.votes != [] {
      var hash := commit.votes[0].hash.proposalHash;
      var t := WithProposal(s, hash, peers);
      ProposalApplyKeeps(t[FindProposal(s, hash)], commit);
    }
  }

  /** The storage as one table from hashes to block stores. */
  function Lookup(s: StorageView, hash: YacHash): Option<BlockView> {
    var i := FindProposal(s, hash.proposalHash);
    if i == |s| then None
    else
      var j := FindBlock(s[i].blocks, hash);
      if j == |s[i].blocks| then None else Some(s[i].blocks[j])
  }

  function BlockFor(s: StorageView, hash: YacHash, peers: nat): BlockView {
    match Lookup(s, hash)
    case Some(b) => b
    case None => EmptyBlock(hash, peers)
  }

  lemma BlockForOk(s: StorageView, hash: YacHash, peers: nat)
    requires StorageOk(s, peers)
    ensures var b := BlockFor(s, hash, peers); BlockOk(b) && b.hash == hash && b.peers == peers
  {
    EmptyBlockOk(hash, peers);
  }

  lemma FindBlockIs(blocks: seq<BlockView>, hash: YacHash, i: nat)
    requires i <= |blocks|
    requires forall j :: 0 <= j < i ==> blocks[j].hash != hash
    requires i < |blocks| ==> blocks[i].hash == hash
    ensures FindBlock(blocks, hash) == i
  {}

  lemma FindProposalIs(s: StorageView, hash: string, i: nat)
    requires i <= |s|
    requires forall j :: 0 <= j < i ==> s[j].hash != hash
    requires i < |s| ==> s[i].hash == hash
    ensures FindProposal(s, hash) == i
  {}

  /** Setting store `j` of proposal store `i` is setting one entry of the table. */
  lemma LookupAfter(s: StorageView, t: StorageView, i: nat, j: nat, p: ProposalView, b: BlockView,
                    hash: YacHash, other: YacHash, peers: nat)
    requires StorageOk(s, peers) && i == FindProposal(s, hash.proposalHash)
    requires t == WithProposal(s, hash.proposalHash, peers)
    requires j == FindBlock(t[i].blocks, hash)
    requires p.hash == hash.proposalHash && p.blocks == WithBlock(t[i], hash).blocks[j := b] && b.hash == hash
    ensures Lookup(t[i := p], other) == if other == hash then Some(b) else Lookup(s, other)
  {
    var u := t[i := p];
    if other.proposalHash == hash.proposalHash {
      FindProposalIs(u, other.proposalHash, i);
      if other == hash {
        FindBlockIs(p.blocks, hash, j);
      } else {
        var k := FindBlock(t[i].blocks, other);
        FindBlockIs(p.blocks, other, if k < |t[i].blocks| then k else |p.blocks|);
      }
    } else {
      var k := FindProposal(s, other.proposalHash);
      FindProposalIs(u, other.proposalHash, if k < |s| then k else |u|);
    }
  }

  lemma BlockForFound(s: StorageView, hash: YacHash, peers: nat)
    requires StorageOk(s, peers)
    ensures var t := WithProposal(s, hash.proposalHash, peers);
      var q := t[FindProposal(s, hash.proposalHash)];
      WithBlock(q, hash).blocks[FindBlock(q.blocks, hash)] == BlockFor(s, hash, peers)
  {}

  /** Storing a vote updates the entry of its own hash and no other. */
  lemma StoreVoteTable(s: StorageView, msg: Vote, peers: nat, hash: YacHash)
    requires StorageOk(s, peers)
    ensures Lookup(StoreVote(s, msg, peers).0, hash) ==
      if hash == msg.hash then Some(InsertVote(BlockFor(s, hash, peers), msg)) else Lookup(s, hash)
  {
    var i := FindProposal(s, msg.hash.proposalHash);
    var t := WithProposal(s, msg.hash.proposalHash, peers);
    BlockForFound(s, msg.hash, peers);
    LookupAfter(s, t, i, FindBlock(t[i].blocks, msg.hash), ProposalInsert(t[i], msg),
                InsertVote(BlockFor(s, msg.hash, peers), msg), msg.hash, hash, peers);
  }

  /** Applying a commit updates the entry of its first vote's hash and no other. */
  lemma ApplyCommitTable(s: StorageView, commit: Commit, peers: nat, hash: YacHash)
    requires StorageOk(s, peers) && commit.votes != []
    ensures Lookup(ApplyCommit(s, commit, peers).0, hash) ==
      if hash == commit.votes[0].hash then Some(InsertCommit(BlockFor(s, hash, peers), commit).0) else Lookup(s, hash)
    ensures ApplyCommit(s, commit, peers).1 ==
      InsertCommit(BlockFor(s, commit.votes[0].hash, peers), commit).1
  {
    var first := commit.votes[0].hash;
    var i := FindProposal(s, first.proposalHash);
    var t := WithProposal(s, first.proposalHash, peers);
    BlockForFound(s, first, peers);
    LookupAfter(s, t, i, FindBlock(t[i].blocks, first), ProposalApply(t[i], commit).0,
                InsertCommit(BlockFor(s, first, peers), commit).0, first, hash, peers);
  }

  // ---- every run ----

  datatype Event = VoteStored(vote: Vote) | CommitApplied(commit: Commit)

  function Step(s: StorageView, event: Event, peers: nat): StorageView {
    match event
    case VoteStored(vote) => StoreVote(s, vote, peers).0
    case CommitApplied(commit) => ApplyCommit(s, commit, peers).0
  }

  function Run(events: seq<Event>, peers: nat): StorageView {
    if events == [] then [] else Step(Run(events[..|events| - 1], peers), events[|events| - 1], peers)
  }

  /** The votes for `hash` that one message brings: the vote itself, or all the
      votes of a commit that certifies `hash`. */
  ghost function Brings(event: Event, hash: YacHash, peers: nat): set<Vote> {
    match event
    case VoteStored(vote) => if vote.hash == hash then {vote} else {}
    case CommitApplied(commit) => if CommitScheme(commit, hash, peers) then Elements(commit.votes) else {}
  }

  ghost function Received(events: seq<Event>, hash: YacHash, peers: nat): set<Vote> {
    set k, v | 0 <= k < |events| && v in Brings(events[k], hash, peers) :: v
  }

  /** Does some message mention `hash`, directly or as the first vote of a commit? */
  ghost predicate Mentions(event: Event, hash: YacHash) {
    match event
    case VoteStored(vote) => vote.hash == hash
    case CommitApplied(commit) => commit.votes != [] && commit.votes[0].hash == hash
  }

  ghost predicate Mentioned(events: seq<Event>, hash: YacHash) {
    exists k :: 0 <= k < |events| && Mentions(events[k], hash)
  }

  lemma ReceivedSplits(events: seq<Event>, hash: YacHash, peers: nat)
    requires events != []
    ensures var front, last := events[..|events| - 1], events[|events| - 1];
      && Received(events, hash, peers) == Received(front, hash, peers) + Brings(last, hash, peers)
      && (Mentioned(events, hash) <==> Mentioned(front, hash) || Mentions(last, hash))
  {
    var front := events[..|events| - 1];
    assert forall k :: 0 <= k < |front| ==> events[k] == front[k];
  }

  /** Refinement: after any run the nested lists are sound, there is a store for
      a hash exactly when some message mentioned it, and its distinct votes are
      exactly those received directly or in an accepted commit. */
  lemma {:induction false} StorageRefinement(events: seq<Event>, peers: nat, hash: YacHash)
    ensures StorageOk(Run(events, peers), peers)
    ensures Lookup(Run(events, peers), hash).Some? <==> Mentioned(events, hash)
    ensures var b := BlockFor(Run(events, peers), hash, peers);
      b.hash == hash && b.peers == peers && BlockOk(b) && Elements(b.votes) == Received(events, hash, peers)
  {
    if events != [] {
      var front, last := events[..|events| - 1], events[|events| - 1];
      var s := Run(front, peers);
      StorageRefinement(front, peers, hash);
      ReceivedSplits(events, hash, peers);
      StepRefines(s, last, peers, hash);
    }
  }

  lemma StepRefines(s: StorageView, event: Event, peers: nat, hash: YacHash)
    requires StorageOk(s, peers)
    requires BlockOk(BlockFor(s, hash, peers)) && BlockFor(s, hash, peers).hash == hash
    requires BlockFor(s, hash, peers).peers == peers
    ensures StorageOk(Step(s, event, peers), peers)
    ensures Lookup(Step(s, event, peers), hash).Some? <==> Lookup(s, hash).Some? || Mentions(event, hash)
    ensures var b := BlockFor(Step(s, event, peers), hash, peers);
      && BlockOk(b) && b.hash == hash && b.peers == peers
      && Elements(b.votes) == Elements(BlockFor(s, hash, peers).votes) + Brings(event, hash, peers)
  {
    var b := BlockFor(s, hash, peers);
    match event {
      case VoteStored(vote) =>
        StoreVoteKeeps(s, vote, peers);
        StoreVoteTable(s, vote, peers, hash);
        if vote.hash == hash { InsertVoteKeeps(b, vote); }
      case CommitApplied(commit) =>
        ApplyCommitKeeps(s, commit, peers);
        if commit.votes == [] {
          SupermajorityIsQuorum(0, peers);
        } else {
          ApplyCommitTable(s, commit, peers, hash);
          InsertCommitKeeps(b, commit);
          assert commit.votes[0] in commit.votes;
        }
    }
  }

  /** A store is past not_committed exactly when the votes received for its hash reach the quorum. */
  lemma CommittedIffQuorum(events: seq<Event>, peers: nat, hash: YacHash)
    ensures !BlockFor(Run(events, peers), hash, peers).current.state.NotCommitted?
            <==> Quorum(|Received(events, hash, peers)|, peers)
  {
    StorageRefinement(events, peers, hash);
    DistinctSize(BlockFor(Run(events, peers), hash, peers).votes);
  }

  /** Once committed, a hash stays committed whatever messages follow, and its certificate only grows. */
  lemma NeverUncommits(events: seq<Event>, more: seq<Event>, peers: nat, hash: YacHash)
    requires !BlockFor(Run(events, peers), hash, peers).current.state.NotCommitted?
    ensures var later := BlockFor(Run(events + more, peers), hash, peers);
      && !later.current.state.NotCommitted?
      && later.current.answer.commit == Some(Commit(later.votes))
      && Received(events, hash, peers) <= Elements(later.votes)
  {
    CommittedIffQuorum(events, peers, hash);
    CommittedIffQuorum(events + more, peers, hash);
    StorageRefinement(events + more, peers, hash);
    assert Received(events, hash, peers) <= Received(events + more, hash, peers) by {
      forall v | v in Received(events, hash, peers)
        ensures v in Received(events + more, hash, peers)
      {
        var k :| 0 <= k < |events| && v in Brings(events[k], hash, peers);
        assert (events + more)[k] == events[k];
      }
    }
    SubsetSize(Received(events, hash, peers), Received(events + more, hash, peers));
  }

  /** Over the whole run, the votes stored for one proposal come from `keys`, each key signing at most one. */
  ghost predicate OneVotePerKeyInRun(events: seq<Event>, peers: nat, keys: set<string>, proposalHash: string) {
    forall g: YacHash, h: YacHash, v, w ::
      (g.proposalHash == proposalHash && h.proposalHash == proposalHash
       && v in Received(events, g, peers) && w in Received(events, h, peers)) ==>
      v.signature.pubkey in keys && (v.signature.pubkey == w.signature.pubkey ==> v == w)
  }

  /** Every block store of a run is the entry of its own hash, with the votes received for it. */
  lemma StoreInRun(events: seq<Event>, peers: nat, i: nat, k: nat)
    requires i < |Run(events, peers)| && k < |Run(events, peers)[i].blocks|
    ensures StorageOk(Run(events, peers), peers)
    ensures var b := Run(events, peers)[i].blocks[k];
      b.hash.proposalHash == Run(events, peers)[i].hash && Elements(b.votes) == Received(events, b.hash, peers)
  {
    var s := Run(events, peers);
    var b := s[i].blocks[k];
    StorageRefinement(events, peers, b.hash);
    assert ProposalOk(s[i]);
    FindProposalIs(s, b.hash.proposalHash, i);
    FindBlockIs(s[i].blocks, b.hash, k);
    assert BlockFor(s, b.hash, peers) == b;
  }

  lemma OneVotePerKeyInStore(events: seq<Event>, peers: nat, keys: set<string>, i: nat)
    requires i < |Run(events, peers)|
    requires OneVotePerKeyInRun(events, peers, keys, Run(events, peers)[i].hash)
    ensures OneVotePerKey(Run(events, peers)[i], keys)
  {
    var p := Run(events, peers)[i];
    forall k, v | 0 <= k < |p.blocks| && v in p.blocks[k].votes
      ensures p.blocks[k].hash.proposalHash == p.hash && v in Received(events, p.blocks[k].hash, peers)
    {
      StoreInRun(events, peers, i, k);
      assert v in Elements(p.blocks[k].votes);
    }
  }

  /** A committed hash has its store in the list of its proposal. */
  lemma CommittedStore(s: StorageView, peers: nat, h: YacHash)
    requires StorageOk(s, peers) && !BlockFor(s, h, peers).current.state.NotCommitted?
    ensures var i := FindProposal(s, h.proposalHash);
      && i < |s| && FindBlock(s[i].blocks, h) < |s[i].blocks|
      && s[i].blocks[FindBlock(s[i].blocks, h)] == BlockFor(s, h, peers)
      && s[i].blocks[FindBlock(s[i].blocks, h)].hash == h
  {}

  /** One winner over every run: if each of n keys votes at most once for a proposal,
      no other hash of it commits beside `g`, and its store caches a supermajority
      prefix of the votes for `g`. */
  lemma OneWinnerInRun(events: seq<Event>, peers: nat, keys: set<string>, g: YacHash, h: YacHash)
    requires |keys| == peers && OneVotePerKeyInRun(events, peers, keys, g.proposalHash)
    requires !BlockFor(Run(events, peers), g, peers).current.state.NotCommitted?
    ensures var s := Run(events, peers);
      var i := FindProposal(s, g.proposalHash);
      && i < |s| && CachedFrom(s[i], FindBlock(s[i].blocks, g))
      && s[i].blocks[FindBlock(s[i].blocks, g)] == BlockFor(s, g, peers)
    ensures g.proposalHash == h.proposalHash && !BlockFor(Run(events, peers), h, peers).current.state.NotCommitted? ==>
      g == h
  {
    var s := Run(events, peers);
    StorageRefinement(events, peers, g);
    CommittedStore(s, peers, g);
    var i := FindProposal(s, g.proposalHash);
    OneVotePerKeyInStore(events, peers, keys, i);
    OneWinner(s[i], keys, FindBlock(s[i].blocks, g));
    if g.proposalHash == h.proposalHash && !BlockFor(s, h, peers).current.state.NotCommitted? {
      CommittedStore(s, peers, h);
    }
  }
}
