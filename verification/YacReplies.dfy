/** What a peer answers to a vote, and when its proposal counts as committed: the
    answer that a proposal store caches, through every vote and commit. */
module YacReplies {
  import opened Wrappers
  import opened YacTypes
  import opened YacQuorum
  import opened YacStorageModel
  import opened YacStorageLaws
  import opened YacModel
  import opened YacRotation
  import opened YacProgress

  /** The cached answer of a proposal; a proposal nobody mentioned is undecided. */
  function Cached(s: StorageView, hash: YacHash): StorageResult {
    match ProposalState(s, hash)
    case None => UNDECIDED
    case Some(result) => result
  }

  // ---- one message ----

  /** A vote refreshes the cached answer of its proposal if its own store is committed
      then, and of no other proposal; the storage answers with the cache. */
  lemma StoreVoteCaches(s: StorageView, vote: Vote, n: nat, hash: YacHash)
    requires StorageOk(s, n)
    ensures var b := InsertVote(BlockFor(s, vote.hash, n), vote);
      var t := StoreVote(s, vote, n);
      && Cached(t.0, hash) ==
           (if hash.proposalHash == vote.hash.proposalHash && !b.current.state.NotCommitted? then b.current
            else Cached(s, hash))
      && t.1 == Cached(t.0, vote.hash)
  {
    var i, t := FindProposal(s, vote.hash.proposalHash), WithProposal(s, vote.hash.proposalHash, n);
    BlockForFound(s, vote.hash, n);
    var p := ProposalInsert(t[i], vote);
    CacheAfter(s, t, i, p, vote.hash.proposalHash, hash, n);
    CacheAfter(s, t, i, p, vote.hash.proposalHash, vote.hash, n);
  }

  /** Replacing proposal store `i` changes the cached answer of its proposal only. */
  lemma CacheAfter(s: StorageView, t: StorageView, i: nat, p: ProposalView, proposal: string, hash: YacHash, n: nat)
    requires StorageOk(s, n) && i == FindProposal(s, proposal) && t == WithProposal(s, proposal, n)
    requires p.hash == proposal
    ensures Cached(t[i := p], hash) == if hash.proposalHash == proposal then p.current else Cached(s, hash)
    ensures t[i].current == Cached(s, YacHash(proposal, ""))
  {
    if hash.proposalHash == proposal {
      FindProposalIs(t[i := p], proposal, i);
    } else {
      var j := FindProposal(s, hash.proposalHash);
      if j < |s| {
        FindProposalIs(t[i := p], hash.proposalHash, j);
      } else {
        FindProposalIs(t[i := p], hash.proposalHash, |t|);
      }
    }
  }

  /** A commit refreshes the cached answer of its proposal only if it is answered committed. */
  lemma ApplyCommitCaches(s: StorageView, commit: Commit, n: nat, hash: YacHash)
    requires StorageOk(s, n) && commit.votes != []
    ensures var g := commit.votes[0].hash;
      var t := ApplyCommit(s, commit, n);
      Cached(t.0, hash) ==
        if hash.proposalHash == g.proposalHash && CommitOutcome(BlockFor(s, g, n), commit).Committed? then t.1
        else Cached(s, hash)
  {
    var g := commit.votes[0].hash;
    var i, t := FindProposal(s, g.proposalHash), WithProposal(s, g.proposalHash, n);
    BlockForOk(s, g, n);
    BlockForFound(s, g, n);
    InsertCommitKeeps(BlockFor(s, g, n), commit);
    CacheAfter(s, t, i, ProposalApply(t[i], commit).0, g.proposalHash, hash, n);
  }

  /** A commit that is answered committed_before leaves what the proposal has cached. */
  lemma KnownCommitKeepsCache(s: StorageView, commit: Commit, n: nat, hash: YacHash)
    requires StorageOk(s, n) && commit.votes != []
    requires CommitOutcome(BlockFor(s, commit.votes[0].hash, n), commit).CommittedBefore?
    ensures ProposalState(ApplyCommit(s, commit, n).0, hash) == ProposalState(s, hash)
  {
    var g := commit.votes[0].hash;
    var i := FindProposal(s, g.proposalHash);
    ApplyCommitCaches(s, commit, n, hash);
    assert i < |s|;
    CacheAfter(s, s, i, ProposalApply(s[i], commit).0, g.proposalHash, hash, n);
    FindProposalSame(s, i, ProposalApply(s[i], commit).0, hash.proposalHash);
  }

  lemma FindProposalSame(s: StorageView, i: nat, p: ProposalView, hash: string)
    requires i < |s| && p.hash == s[i].hash
    ensures FindProposal(s[i := p], hash) == FindProposal(s, hash)
  {
    FindProposalIs(s[i := p], hash, FindProposal(s, hash));
  }

  // ---- the answer to a vote ----

  /** The messages that carry a certificate for an answer with this label. */
  function Certified(state: CommitState, votes: seq<Vote>, peers: seq<Peer>, from: Peer): seq<Outgoing> {
    match state
    case NotCommitted => []
    case Committed => seq(|peers|, i requires 0 <= i < |peers| => SendCommit(peers[i], Commit(votes)))
    case CommittedBefore => [SendCommit(from, Commit(votes))]
  }

  /** Every verified vote: its own certificate, once its hash is committed, to all peers if
      that answers committed and to the voter alone if it answers committed_before; while
      the hash is undecided, in the same way, the certificate that the proposal has cached. */
  lemma VoteAnswered(y: YacView, crypto: Crypto, from: Peer, vote: Vote)
    requires StorageOk(y.storage, |y.order.peers|) && crypto.verifyVote(vote)
    ensures var z := OnVote(y, crypto, from, vote);
      var cached := Cached(y.storage, vote.hash);
      z.sent == y.sent +
        if !Undecided(z, vote.hash)
        then Certified(StoreOf(z, vote.hash).current.state, VotesFor(z, vote.hash), y.order.peers, from)
        else if cached.answer.commit.Some?
        then Certified(cached.state, cached.answer.commit.value.votes, y.order.peers, from)
        else []
  {
    var n := |y.order.peers|;
    BlockForOk(y.storage, vote.hash, n);
    InsertVoteKeeps(StoreOf(y, vote.hash), vote);
    StoreVoteCaches(y.storage, vote, n, vote.hash);
    StoreVoteTable(y.storage, vote, n, vote.hash);
    CachedAnswer(y.storage, n, vote.hash);
    var result := StoreVote(y.storage, vote, n).1;
    if result.answer.commit.Some? {
      assert Spread(result.answer, y.order.peers) == CommitTo(y.order.peers, result.answer.commit.value);
      assert Spread(result.answer, [from]) == [SendCommit(from, result.answer.commit.value)];
    }
  }

  /** A cached answer never rejects, and has a commit exactly when it is decided. */
  lemma CachedAnswer(s: StorageView, n: nat, hash: YacHash)
    requires StorageOk(s, n)
    ensures Cached(s, hash).answer.reject == None
    ensures Cached(s, hash).answer.commit.Some? <==> !Cached(s, hash).state.NotCommitted?
  {
    var i := FindProposal(s, hash.proposalHash);
    if i < |s| { assert ProposalOk(s[i]); }
  }

  /** A vote that comes after the commit is answered to its sender with the grown certificate. */
  lemma LateVoteAnswered(y: YacView, crypto: Crypto, from: Peer, vote: Vote)
    requires StorageOk(y.storage, |y.order.peers|) && crypto.verifyVote(vote)
    requires !Undecided(y, vote.hash) && vote !in VotesFor(y, vote.hash)
    ensures OnVote(y, crypto, from, vote).sent ==
      y.sent + [SendCommit(from, Commit(VotesFor(y, vote.hash) + [vote]))]
  {
    VoteAnswered(y, crypto, from, vote);
    StoreVoteTable(y.storage, vote, |y.order.peers|, vote.hash);
  }

  /** A repeated vote: to all peers while the store answers committed, to the voter once it answers committed_before. */
  lemma RepeatedVoteAnswered(y: YacView, crypto: Crypto, from: Peer, vote: Vote)
    requires StorageOk(y.storage, |y.order.peers|) && crypto.verifyVote(vote)
    requires !Undecided(y, vote.hash) && vote in VotesFor(y, vote.hash)
    ensures var commit := Commit(VotesFor(y, vote.hash));
      OnVote(y, crypto, from, vote).sent == y.sent +
        if Muted(y, vote.hash) then [SendCommit(from, commit)]
        else seq(|y.order.peers|, i requires 0 <= i < |y.order.peers| => SendCommit(y.order.peers[i], commit))
  {
    VoteAnswered(y, crypto, from, vote);
    StoreVoteTable(y.storage, vote, |y.order.peers|, vote.hash);
  }

  // ---- when a proposal is cached as committed ----

  /** What the last message of a run makes of the cached answer of a proposal, if anything: a
      vote that leaves the store of its hash committed caches that store's label; a commit that
      is answered committed caches that. */
  ghost function Decision(events: seq<Event>, n: nat, proposal: string): Option<CommitState>
    requires events != []
  {
    match events[|events| - 1]
    case VoteStored(vote) =>
      if vote.hash.proposalHash == proposal && Quorum(|Received(events, vote.hash, n)|, n)
      then Some(BlockFor(Run(events, n), vote.hash, n).current.state) else None
    case CommitApplied(commit) =>
      if commit.votes != [] && commit.votes[0].hash.proposalHash == proposal
         && CommitOutcome(BlockFor(Run(events[..|events| - 1], n), commit.votes[0].hash, n), commit).Committed?
      then Some(Committed) else None
  }

  /** The decisions that the messages of a run make, one after the other. */
  ghost function Decisions(events: seq<Event>, n: nat, proposal: string): (ds: seq<Option<CommitState>>)
    ensures |ds| == |events|
  {
    if events == [] then []
    else Decisions(events[..|events| - 1], n, proposal) + [Decision(events, n, proposal)]
  }

  /** Message `k` decides `state`, and no later one decides anything. */
  ghost predicate Last(ds: seq<Option<CommitState>>, k: nat, state: CommitState) {
    k < |ds| && ds[k] == Some(state) && forall j :: k < j < |ds| ==> ds[j] == None
  }

  ghost predicate LastIs(ds: seq<Option<CommitState>>, state: CommitState) {
    exists k :: Last(ds, k, state)
  }

  lemma LastStep(ds: seq<Option<CommitState>>, d: Option<CommitState>, state: CommitState)
    ensures LastIs(ds + [d], state) <==> if d.None? then LastIs(ds, state) else d.value == state
  {
    var all := ds + [d];
    if d.None? {
      if k: nat :| Last(ds, k, state) {
        assert Last(all, k, state);
      }
      if k: nat :| Last(all, k, state) {
        assert forall j :: k <= j < |ds| ==> all[j] == ds[j];
        assert Last(ds, k, state);
      }
    } else {
      assert all[|ds|] == d;
      if d.value == state { assert Last(all, |ds|, state); }
    }
  }

  /** The label after one more message. */
  lemma DecisionStep(events: seq<Event>, n: nat, hash: YacHash)
    requires events != []
    ensures Cached(Run(events, n), hash).state ==
      match Decision(events, n, hash.proposalHash)
      case None => Cached(Run(events[..|events| - 1], n), hash).state
      case Some(state) => state
  {
    var front, last := events[..|events| - 1], events[|events| - 1];
    StorageRefinement(front, n, hash);
    match last {
      case VoteStored(vote) =>
        StoreVoteCaches(Run(front, n), vote, n, hash);
        StoreVoteTable(Run(front, n), vote, n, vote.hash);
        CommittedIffQuorum(events, n, vote.hash);
      case CommitApplied(commit) =>
        if commit.votes != [] {
          var g := commit.votes[0].hash;
          ApplyCommitCaches(Run(front, n), commit, n, hash);
          ApplyCommitTable(Run(front, n), commit, n, g);
          BlockForOk(Run(front, n), g, n);
          InsertCommitKeeps(BlockFor(Run(front, n), g, n), commit);
        }
    }
  }

  /** Over every run, a proposal is cached under a label if and only if the last message that
      decided anything about it decided this label; without any it is undecided. */
  lemma {:induction false} CachedStateIff(events: seq<Event>, n: nat, hash: YacHash, state: CommitState)
    requires !state.NotCommitted?
    ensures Cached(Run(events, n), hash).state == state <==>
      LastIs(Decisions(events, n, hash.proposalHash), state)
  {
    if events != [] {
      var front := events[..|events| - 1];
      CachedStateIff(front, n, hash, state);
      DecisionStep(events, n, hash);
      var ds, d := Decisions(front, n, hash.proposalHash), Decision(events, n, hash.proposalHash);
      assert Decisions(events, n, hash.proposalHash) == ds + [d];
      LastStep(ds, d, state);
    }
  }

  /** A peer with this storage does not vote exactly if the last decision was `Committed`. */
  lemma VotingStopsIff(events: seq<Event>, y: YacView, crypto: Crypto, hash: YacHash, order: Ordering, n: nat)
    requires y.storage == Run(events, n) && order.peers != []
    ensures CallVote(y, crypto, hash, order).sent == y.sent <==>
      LastIs(Decisions(events, n, hash.proposalHash), Committed)
  {
    CachedStateIff(events, n, hash, Committed);
    VotesIff(y, crypto, hash, order);
  }

  /** In particular a vote that comes after the commit opens the proposal again, */
  lemma LateVoteReopens(y: YacView, crypto: Crypto, from: Peer, late: Vote)
    requires StorageOk(y.storage, |y.order.peers|) && crypto.verifyVote(late)
    requires !Undecided(y, late.hash) && late !in VotesFor(y, late.hash)
    ensures Open(OnVote(y, crypto, from, late), late.hash)
  {
    StoreVoteCaches(y.storage, late, |y.order.peers|, late.hash);
  }

  /** while a commit that brings the same vote leaves it closed. */
  lemma LateCommitKeepsClosed(y: YacView, crypto: Crypto, commit: Commit, hash: YacHash)
    requires StorageOk(y.storage, |y.order.peers|) && crypto.verifyCommit(commit)
    requires Certificate(commit, hash, |y.order.peers|) && !Receptive(y, hash, commit)
    ensures Open(OnCommit(y, crypto, commit), hash) == Open(y, hash)
  {
    CertificateOutcome(y, commit, hash);
    KnownCommitKeepsCache(y.storage, commit, |y.order.peers|, hash);
  }
}
