/** How a round succeeds, and how a report is lost: from the vote that completes a
    quorum to the peers that report the certificate, and to those that never will. */
module YacProgress {
  import opened Wrappers
  import opened Sequences
  import opened YacTypes
  import opened YacQuorum
  import opened YacStorageModel
  import opened YacStorageLaws
  import opened YacModel
  import opened YacRotation

  /** The answer to a vote is the answer of its block store, once that has committed. */
  lemma StoreVoteAnswers(s: StorageView, vote: Vote, peers: nat)
    requires StorageOk(s, peers)
    ensures var b := InsertVote(BlockFor(s, vote.hash, peers), vote);
      !b.current.state.NotCommitted? ==> StoreVote(s, vote, peers).1 == b.current
  {
    BlockForFound(s, vote.hash, peers);
  }

  /** The votes that a peer holds for a hash. */
  function VotesFor(y: YacView, hash: YacHash): seq<Vote> {
    BlockFor(y.storage, hash, |y.order.peers|).votes
  }

  ghost predicate Undecided(y: YacView, hash: YacHash) {
    BlockFor(y.storage, hash, |y.order.peers|).current.state.NotCommitted?
  }

  /** The next vote that makes up a quorum. */
  ghost predicate Completes(y: YacView, vote: Vote) {
    && Undecided(y, vote.hash) && vote !in VotesFor(y, vote.hash)
    && Quorum(|VotesFor(y, vote.hash)| + 1, |y.order.peers|)
  }

  /** The vote that completes a quorum makes the peer send the certificate to
      every peer of the order, and to each of them once. */
  lemma QuorumIsSpread(y: YacView, crypto: Crypto, from: Peer, vote: Vote)
    requires StorageOk(y.storage, |y.order.peers|) && crypto.verifyVote(vote) && Completes(y, vote)
    ensures OnVote(y, crypto, from, vote).sent ==
      y.sent + CommitTo(y.order.peers, Commit(VotesFor(y, vote.hash) + [vote]))
  {
    var n := |y.order.peers|;
    var b := BlockFor(y.storage, vote.hash, n);
    BlockForOk(y.storage, vote.hash, n);
    InsertVoteKeeps(b, vote);
    StoreVoteAnswers(y.storage, vote, n);
    var result := StoreVote(y.storage, vote, n).1;
    assert result == StorageResult(Answer(Some(Commit(b.votes + [vote])), None), Committed);
    assert Spread(result.answer, y.order.peers) == CommitTo(y.order.peers, Commit(b.votes + [vote]));
  }

  /** The completed quorum is a certificate in the sense of every store of n peers. */
  lemma CompletedQuorumCertifies(y: YacView, vote: Vote)
    requires StorageOk(y.storage, |y.order.peers|) && Completes(y, vote)
    ensures var commit := Commit(VotesFor(y, vote.hash) + [vote]);
      Distinct(commit.votes) && CommitScheme(commit, vote.hash, |y.order.peers|)
  {
    var n := |y.order.peers|;
    BlockForOk(y.storage, vote.hash, n);
    SupermajorityIsQuorum(|VotesFor(y, vote.hash)| + 1, n);
  }

  // ---- when a commit is reported ----

  /** The block store of a hash in a peer. */
  function StoreOf(y: YacView, hash: YacHash): BlockView {
    BlockFor(y.storage, hash, |y.order.peers|)
  }

  /** A delivered commit that the peer reports. */
  ghost predicate Reports(z: YacView, crypto: Crypto, commit: Commit) {
    && crypto.verifyCommit(commit) && commit.votes != []
    && CommitOutcome(StoreOf(z, commit.votes[0].hash), commit).Committed?
  }

  /** Delivery of any commit: a report, if and only if it is accepted by a store that
      is undecided or is committed and learns nothing new; it holds all votes of that store. */
  lemma ReportsIff(z: YacView, crypto: Crypto, commit: Commit)
    requires StorageOk(z.storage, |z.order.peers|)
    ensures var after := OnCommit(z, crypto, commit);
      if Reports(z, crypto, commit)
      then after.notified == z.notified + [Commit(VotesFor(after, commit.votes[0].hash))]
      else after.notified == z.notified
  {
    if commit.votes != [] {
      var n, hash := |z.order.peers|, commit.votes[0].hash;
      BlockForOk(z.storage, hash, n);
      ApplyCommitTable(z.storage, commit, n, hash);
      InsertCommitKeeps(StoreOf(z, hash), commit);
    }
  }

  /** What makes a commit message a certificate for a hash. */
  ghost predicate Certificate(commit: Commit, hash: YacHash, peers: nat) {
    Distinct(commit.votes) && CommitScheme(commit, hash, peers)
  }

  /** The peer would report a certificate: it is undecided, or committed and holds all its votes. */
  ghost predicate Receptive(z: YacView, hash: YacHash, commit: Commit) {
    || Undecided(z, hash)
    || (StoreOf(z, hash).current.state.Committed? && Elements(commit.votes) <= Elements(VotesFor(z, hash)))
  }

  /** A store that answers committed_before: its hash has been decided and more was learned since. */
  ghost predicate Muted(z: YacView, hash: YacHash) {
    StoreOf(z, hash).current.state.CommittedBefore?
  }

  lemma CertificateOutcome(z: YacView, commit: Commit, hash: YacHash)
    requires StorageOk(z.storage, |z.order.peers|) && Certificate(commit, hash, |z.order.peers|)
    ensures commit.votes != [] && commit.votes[0].hash == hash
    ensures CommitOutcome(StoreOf(z, hash), commit) == if Receptive(z, hash, commit) then Committed else CommittedBefore
  {
    var n, b := |z.order.peers|, StoreOf(z, hash);
    BlockForOk(z.storage, hash, n);
    SupermajorityIsQuorum(|commit.votes|, n);
    assert commit.votes[0] in commit.votes;
    DistinctSize(commit.votes);
    SubsetSize(Elements(commit.votes), Elements(b.votes) + Elements(commit.votes));
  }

  /** A verified certificate is reported if and only if the peer is receptive to it. The
      report joins it with the votes held; without a report the hash is muted from then
      on. The round is closed either way. */
  lemma CertificateIsReportedIff(z: YacView, crypto: Crypto, commit: Commit, hash: YacHash)
    requires StorageOk(z.storage, |z.order.peers|) && crypto.verifyCommit(commit)
    requires Certificate(commit, hash, |z.order.peers|)
    ensures var after := OnCommit(z, crypto, commit);
      && after.timer == None
      && Elements(VotesFor(after, hash)) == Elements(VotesFor(z, hash)) + Elements(commit.votes)
      && after.notified == z.notified + (if Receptive(z, hash, commit) then [Commit(VotesFor(after, hash))] else [])
      && (Receptive(z, hash, commit) <==> !Muted(after, hash))
  {
    var n := |z.order.peers|;
    CertificateOutcome(z, commit, hash);
    ReportsIff(z, crypto, commit);
    BlockForOk(z.storage, hash, n);
    ApplyCommitTable(z.storage, commit, n, hash);
    InsertCommitKeeps(StoreOf(z, hash), commit);
  }

  /** From one peer to another: the peer that completes a quorum sends the certificate to
      every peer of the order, and a peer of the round that accepts it reports it if and
      only if it is receptive to it, otherwise never again reports this hash. */
  lemma QuorumReachesPeers(y: YacView, crypto: Crypto, from: Peer, vote: Vote, z: YacView, other: Crypto)
    requires StorageOk(y.storage, |y.order.peers|) && crypto.verifyVote(vote) && Completes(y, vote)
    requires |z.order.peers| == |y.order.peers| && StorageOk(z.storage, |z.order.peers|)
    requires other.verifyCommit(Commit(VotesFor(y, vote.hash) + [vote]))
    ensures var commit := Commit(VotesFor(y, vote.hash) + [vote]);
      var after := OnCommit(z, other, commit);
      && OnVote(y, crypto, from, vote).sent == y.sent + CommitTo(y.order.peers, commit)
      && (|after.notified| == |z.notified| + 1 <==> Receptive(z, vote.hash, commit))
      && (after.notified == z.notified <==> Muted(after, vote.hash))
  {
    QuorumIsSpread(y, crypto, from, vote);
    CompletedQuorumCertifies(y, vote);
    CertificateIsReportedIff(z, other, Commit(VotesFor(y, vote.hash) + [vote]), vote.hash);
  }

  // ---- what becomes of a committed store ----

  /** A committed store stays as it is, or learns new votes and is muted. */
  ghost predicate Evolves(b: BlockView, after: BlockView) {
    after == b || (b.votes < after.votes && after.current.state.CommittedBefore?)
  }

  lemma VoteEvolves(b: BlockView, msg: Vote)
    requires !b.current.state.NotCommitted?
    ensures Evolves(b, InsertVote(b, msg))
  {}

  lemma CommitEvolves(b: BlockView, commit: Commit)
    requires BlockOk(b) && !b.current.state.NotCommitted?
    ensures Evolves(b, InsertCommit(b, commit).0)
  {
    if CommitScheme(commit, b.hash, b.peers) {
      InsertVotesKeep(b, commit.votes);
      if b.current.state.CommittedBefore? {
        MutedVotes(b, commit.votes);
      } else if !(Elements(commit.votes) <= Elements(b.votes)) {
        assert b.votes != InsertVotes(b, commit.votes).votes;
      }
    }
  }

  lemma {:induction false} MutedVotes(b: BlockView, msgs: seq<Vote>)
    requires b.current.state.CommittedBefore?
    ensures Evolves(b, InsertVotes(b, msgs))
  {
    if msgs != [] {
      MutedVotes(b, msgs[..|msgs| - 1]);
      VoteEvolves(InsertVotes(b, msgs[..|msgs| - 1]), msgs[|msgs| - 1]);
    }
  }

  /** What happens to a peer: an input, or a call of `vote`. */
  datatype Occurrence = Called(hash: YacHash, order: Ordering) | Arrived(input: Input)

  function Meet(y: YacView, crypto: Crypto, o: Occurrence): YacView {
    match o
    case Called(hash, order) => CallVote(y, crypto, hash, order)
    case Arrived(input) => React(y, crypto, input)
  }

  function Live(y: YacView, crypto: Crypto, occurrences: seq<Occurrence>): YacView {
    if occurrences == [] then y
    else Meet(Live(y, crypto, occurrences[..|occurrences| - 1]), crypto, occurrences[|occurrences| - 1])
  }

  /** Every call of `vote` names an order of n peers. */
  predicate SameRound(occurrences: seq<Occurrence>, n: nat) {
    forall o :: o in occurrences && o.Called? ==> |o.order.peers| == n
  }

  /** What an occurrence does to the storage, if anything. */
  ghost function StorageEvent(crypto: Crypto, o: Occurrence): Option<Event> {
    match o
    case Arrived(VoteArrived(_, vote)) => if crypto.verifyVote(vote) then Some(VoteStored(vote)) else None
    case Arrived(CommitArrived(commit)) => if crypto.verifyCommit(commit) then Some(CommitApplied(commit)) else None
    case _ => None
  }

  lemma MeetSteps(y: YacView, crypto: Crypto, o: Occurrence, n: nat)
    requires |y.order.peers| == n && (o.Called? ==> |o.order.peers| == n)
    ensures |Meet(y, crypto, o).order.peers| == n
    ensures Meet(y, crypto, o).storage ==
      match StorageEvent(crypto, o) case None => y.storage case Some(event) => Step(y.storage, event, n)
    ensures !(o.Arrived? && o.input.CommitArrived?) ==> Meet(y, crypto, o).notified == y.notified
  {}

  lemma StepEvolves(s: StorageView, event: Event, n: nat, hash: YacHash)
    requires StorageOk(s, n) && !BlockFor(s, hash, n).current.state.NotCommitted?
    ensures StorageOk(Step(s, event, n), n)
    ensures Evolves(BlockFor(s, hash, n), BlockFor(Step(s, event, n), hash, n))
  {
    var b := BlockFor(s, hash, n);
    BlockForOk(s, hash, n);
    match event {
      case VoteStored(vote) =>
        StoreVoteKeeps(s, vote, n);
        StoreVoteTable(s, vote, n, hash);
        VoteEvolves(b, vote);
      case CommitApplied(commit) =>
        ApplyCommitKeeps(s, commit, n);
        if commit.votes != [] {
          ApplyCommitTable(s, commit, n, hash);
          CommitEvolves(b, commit);
        }
    }
  }

  lemma MeetKeepsStorage(y: YacView, crypto: Crypto, o: Occurrence, n: nat)
    requires |y.order.peers| == n && StorageOk(y.storage, n) && (o.Called? ==> |o.order.peers| == n)
    ensures |Meet(y, crypto, o).order.peers| == n && StorageOk(Meet(y, crypto, o).storage, n)
  {
    MeetSteps(y, crypto, o, n);
    match StorageEvent(crypto, o) {
      case None =>
      case Some(VoteStored(vote)) => StoreVoteKeeps(y.storage, vote, n);
      case Some(CommitApplied(commit)) => ApplyCommitKeeps(y.storage, commit, n);
    }
  }

  lemma EvolvesOn(b: BlockView, c: BlockView, d: BlockView)
    requires Evolves(b, c) && Evolves(c, d)
    ensures Evolves(b, d)
  {}

  /** Over every run of a peer, a committed store stays as it is or is muted with more votes. */
  lemma {:induction false} RunEvolves(y: YacView, crypto: Crypto, occurrences: seq<Occurrence>, n: nat, hash: YacHash)
    requires |y.order.peers| == n && StorageOk(y.storage, n) && SameRound(occurrences, n)
    requires !Undecided(y, hash)
    ensures var z := Live(y, crypto, occurrences);
      && |z.order.peers| == n && StorageOk(z.storage, n)
      && !Undecided(z, hash) && Evolves(StoreOf(y, hash), StoreOf(z, hash))
  {
    if occurrences != [] {
      var front, last := occurrences[..|occurrences| - 1], occurrences[|occurrences| - 1];
      RunEvolves(y, crypto, front, n, hash);
      var x := Live(y, crypto, front);
      MeetSteps(x, crypto, last, n);
      MeetKeepsStorage(x, crypto, last, n);
      if StorageEvent(crypto, last).Some? {
        StepEvolves(x.storage, StorageEvent(crypto, last).value, n, hash);
      }
      EvolvesOn(StoreOf(y, hash), StoreOf(x, hash), StoreOf(Meet(x, crypto, last), hash));
    }
  }

  /** The commits reported from the `from`-th on carry no vote for the hash. */
  ghost predicate SilentFrom(z: YacView, from: nat, hash: YacHash) {
    from <= |z.notified| && forall k, v :: from <= k < |z.notified| && v in z.notified[k].votes ==> v.hash != hash
  }

  /** What a peer reports on one delivery, if anything, is not for a muted hash. */
  lemma ReportsAnother(y: YacView, crypto: Crypto, commit: Commit, hash: YacHash)
    requires StorageOk(y.storage, |y.order.peers|) && Muted(y, hash) && Reports(y, crypto, commit)
    ensures var reported := VotesFor(OnCommit(y, crypto, commit), commit.votes[0].hash);
      forall v :: v in reported ==> v.hash != hash
  {
    var n, other := |y.order.peers|, commit.votes[0].hash;
    assert other != hash;
    ApplyCommitKeeps(y.storage, commit, n);
    BlockForOk(ApplyCommit(y.storage, commit, n).0, other, n);
  }

  lemma SilentAppend(y: YacView, z: YacView, from: nat, hash: YacHash, reported: Commit)
    requires SilentFrom(y, from, hash) && z.notified == y.notified + [reported]
    requires forall v :: v in reported.votes ==> v.hash != hash
    ensures SilentFrom(z, from, hash)
  {}

  lemma MutedStep(y: YacView, crypto: Crypto, o: Occurrence, n: nat, hash: YacHash, from: nat)
    requires |y.order.peers| == n && StorageOk(y.storage, n) && (o.Called? ==> |o.order.peers| == n)
    requires Muted(y, hash) && SilentFrom(y, from, hash)
    ensures y.notified <= Meet(y, crypto, o).notified && SilentFrom(Meet(y, crypto, o), from, hash)
  {
    MeetSteps(y, crypto, o, n);
    if o.Arrived? && o.input.CommitArrived? {
      var commit := o.input.commit;
      var after := OnCommit(y, crypto, commit);
      ReportsIff(y, crypto, commit);
      if Reports(y, crypto, commit) {
        ReportsAnother(y, crypto, commit, hash);
        SilentAppend(y, after, from, hash, Commit(VotesFor(after, commit.votes[0].hash)));
      }
    }
  }

  /** A muted hash is never reported again: over every run it stays muted, and no
      commit reported carries a vote for it. */
  lemma {:induction false} MutedForever(y: YacView, crypto: Crypto, occurrences: seq<Occurrence>, n: nat, hash: YacHash)
    requires |y.order.peers| == n && StorageOk(y.storage, n) && SameRound(occurrences, n) && Muted(y, hash)
    ensures var z := Live(y, crypto, occurrences);
      Muted(z, hash) && y.notified <= z.notified && SilentFrom(z, |y.notified|, hash)
  {
    RunEvolves(y, crypto, occurrences, n, hash);
    if occurrences != [] {
      var front, last := occurrences[..|occurrences| - 1], occurrences[|occurrences| - 1];
      MutedForever(y, crypto, front, n, hash);
      RunEvolves(y, crypto, front, n, hash);
      MutedStep(Live(y, crypto, front), crypto, last, n, hash, |y.notified|);
    }
  }

  /** The first certificate decides: if a peer does not report it, it never reports its hash again. */
  lemma UnreportedIsLost(z: YacView, crypto: Crypto, commit: Commit, hash: YacHash, occurrences: seq<Occurrence>)
    requires StorageOk(z.storage, |z.order.peers|) && crypto.verifyCommit(commit)
    requires Certificate(commit, hash, |z.order.peers|) && !Receptive(z, hash, commit)
    requires SameRound(occurrences, |z.order.peers|)
    ensures var later := Live(OnCommit(z, crypto, commit), crypto, occurrences);
      z.notified <= later.notified && SilentFrom(later, |z.notified|, hash)
  {
    var n := |z.order.peers|;
    CertificateIsReportedIff(z, crypto, commit, hash);
    ApplyCommitKeeps(z.storage, commit, n);
    MutedForever(OnCommit(z, crypto, commit), crypto, occurrences, n, hash);
  }

  // ---- the peer that collects the quorum ----

  lemma CollectorCommits(y: YacView, crypto: Crypto, from: Peer, vote: Vote)
    requires StorageOk(y.storage, |y.order.peers|) && crypto.verifyVote(vote) && Completes(y, vote)
    ensures var after := OnVote(y, crypto, from, vote);
      && after.order == y.order && StorageOk(after.storage, |y.order.peers|) && after.notified == y.notified
      && StoreOf(after, vote.hash).current.state.Committed?
      && VotesFor(after, vote.hash) == VotesFor(y, vote.hash) + [vote]
  {
    var n := |y.order.peers|;
    BlockForOk(y.storage, vote.hash, n);
    InsertVoteKeeps(StoreOf(y, vote.hash), vote);
    StoreVoteTable(y.storage, vote, n, vote.hash);
    StoreVoteKeeps(y.storage, vote, n);
  }

  /** The collecting peer, whatever happens before its own certificate reaches it: it
      reports the certificate then if and only if it has accepted no further vote for the
      hash in the meantime. If it has, the hash is muted. */
  lemma CollectorReportsIff(y: YacView, crypto: Crypto, from: Peer, vote: Vote, occurrences: seq<Occurrence>)
    requires StorageOk(y.storage, |y.order.peers|) && crypto.verifyVote(vote) && Completes(y, vote)
    requires SameRound(occurrences, |y.order.peers|)
    requires crypto.verifyCommit(Commit(VotesFor(y, vote.hash) + [vote]))
    ensures var commit := Commit(VotesFor(y, vote.hash) + [vote]);
      var z := Live(OnVote(y, crypto, from, vote), crypto, occurrences);
      && (|OnCommit(z, crypto, commit).notified| == |z.notified| + 1 <==> VotesFor(z, vote.hash) == commit.votes)
      && (VotesFor(z, vote.hash) != commit.votes ==> Muted(z, vote.hash))
  {
    var n, hash := |y.order.peers|, vote.hash;
    var commit := Commit(VotesFor(y, hash) + [vote]);
    var start := OnVote(y, crypto, from, vote);
    CollectorCommits(y, crypto, from, vote);
    CompletedQuorumCertifies(y, vote);
    RunEvolves(start, crypto, occurrences, n, hash);
    var z := Live(start, crypto, occurrences);
    CertificateIsReportedIff(z, crypto, commit, hash);
  }

  /** A new vote mutes a committed hash. */
  lemma LateVoteMutes(z: YacView, crypto: Crypto, from: Peer, late: Vote)
    requires StorageOk(z.storage, |z.order.peers|) && !Undecided(z, late.hash)
    requires crypto.verifyVote(late) && late !in VotesFor(z, late.hash)
    ensures var after := OnVote(z, crypto, from, late);
      after.order == z.order && StorageOk(after.storage, |z.order.peers|) && after.notified == z.notified
      && Muted(after, late.hash)
  {
    StoreVoteTable(z.storage, late, |z.order.peers|, late.hash);
    StoreVoteKeeps(z.storage, late, |z.order.peers|);
  }

  /** So one more vote between the quorum and its certificate costs the collector its report. */
  lemma CollectorMuted(y: YacView, crypto: Crypto, from: Peer, vote: Vote, late: Vote)
    requires StorageOk(y.storage, |y.order.peers|) && crypto.verifyVote(vote) && Completes(y, vote)
    requires crypto.verifyVote(late) && late.hash == vote.hash && late != vote && late !in VotesFor(y, vote.hash)
    requires crypto.verifyCommit(Commit(VotesFor(y, vote.hash) + [vote]))
    ensures var z := OnVote(OnVote(y, crypto, from, vote), crypto, from, late);
      && z.order == y.order && StorageOk(z.storage, |y.order.peers|)
      && Muted(z, vote.hash) && z.notified == y.notified
      && OnCommit(z, crypto, Commit(VotesFor(y, vote.hash) + [vote])).notified == y.notified
  {
    var start, commit := OnVote(y, crypto, from, vote), Commit(VotesFor(y, vote.hash) + [vote]);
    CollectorCommits(y, crypto, from, vote);
    CompletedQuorumCertifies(y, vote);
    LateVoteMutes(start, crypto, from, late);
    CertificateIsReportedIff(OnVote(start, crypto, from, late), crypto, commit, vote.hash);
  }

  /** After a report the peer is committed and holds the votes of the certificate. */
  lemma ReporterHolds(z: YacView, crypto: Crypto, commit: Commit, hash: YacHash)
    requires StorageOk(z.storage, |z.order.peers|) && crypto.verifyCommit(commit)
    requires Certificate(commit, hash, |z.order.peers|) && Receptive(z, hash, commit)
    ensures var once := OnCommit(z, crypto, commit);
      && once.order == z.order && StorageOk(once.storage, |z.order.peers|)
      && !Undecided(once, hash) && Receptive(once, hash, commit)
  {
    var n := |z.order.peers|;
    CertificateIsReportedIff(z, crypto, commit, hash);
    CertificateOutcome(z, commit, hash);
    ApplyCommitKeeps(z.storage, commit, n);
    ApplyCommitTable(z.storage, commit, n, hash);
    BlockForOk(z.storage, hash, n);
    InsertCommitKeeps(StoreOf(z, hash), commit);
  }

  /** Reports are not exactly once either: the certificate a peer has just reported,
      delivered again, is reported again with the same votes. */
  lemma RedeliveryReports(z: YacView, crypto: Crypto, commit: Commit, hash: YacHash)
    requires StorageOk(z.storage, |z.order.peers|) && crypto.verifyCommit(commit)
    requires Certificate(commit, hash, |z.order.peers|) && Receptive(z, hash, commit)
    ensures var once := OnCommit(z, crypto, commit);
      var report := Commit(VotesFor(once, hash));
      once.notified == z.notified + [report] && OnCommit(once, crypto, commit).notified == once.notified + [report]
  {
    var once := OnCommit(z, crypto, commit);
    CertificateIsReportedIff(z, crypto, commit, hash);
    ReporterHolds(z, crypto, commit, hash);
    CertificateIsReportedIff(once, crypto, commit, hash);
    StepEvolves(once.storage, CommitApplied(commit), |z.order.peers|, hash);
  }

  // ---- concrete peers, four in the round ----

  const HASH := YacHash("proposal", "block")

  function SampleVote(key: string): Vote {
    Vote(HASH, Signature("", key))
  }

  function Trusting(): Crypto {
    Crypto(_ => true, _ => true, _ => true, h => Vote(h, Signature("", "")))
  }

  function Fresh(): YacView {
    var peers := [Peer("", "a"), Peer("", "b"), Peer("", "c"), Peer("", "d")];
    YacView([], Ordering(peers, 0), None, [], [])
  }

  /** The certificate of three of four votes. */
  function Three(): Commit {
    Commit([SampleVote("a"), SampleVote("b"), SampleVote("c")])
  }

  lemma ThreeCertify()
    ensures Certificate(Three(), HASH, 4)
  {
    SupermajorityIsQuorum(3, 4);
  }

  /** A certificate that is delivered twice is reported twice. */
  lemma RepeatedReport()
    ensures var once := OnCommit(Fresh(), Trusting(), Three());
      |once.notified| == 1 && OnCommit(once, Trusting(), Three()).notified == once.notified + once.notified
  {
    ThreeCertify();
    RedeliveryReports(Fresh(), Trusting(), Three(), HASH);
  }

  function Receive(y: YacView, key: string): YacView {
    OnVote(y, Trusting(), Peer("", ""), SampleVote(key))
  }

  /** A peer of the round that holds exactly `votes`, too few for a quorum. */
  ghost predicate Holding(y: YacView, votes: seq<Vote>) {
    && y.order == Fresh().order && StorageOk(y.storage, 4) && y.notified == []
    && Undecided(y, HASH) && VotesFor(y, HASH) == votes
  }

  lemma EarlyVote(y: YacView, votes: seq<Vote>, key: string)
    requires Holding(y, votes) && |votes| <= 1 && SampleVote(key) !in votes
    ensures Holding(Receive(y, key), votes + [SampleVote(key)])
  {
    StoreVoteTable(y.storage, SampleVote(key), 4, HASH);
    StoreVoteKeeps(y.storage, SampleVote(key), 4);
    SupermajorityIsQuorum(|votes| + 1, 4);
  }

  /** A peer that has two of the four votes. */
  function TwoVotes(): YacView {
    Receive(Receive(Fresh(), "a"), "b")
  }

  lemma TwoVotesAre()
    ensures Holding(TwoVotes(), [SampleVote("a"), SampleVote("b")])
  {
    EarlyVote(Fresh(), [], "a");
    var one := Receive(Fresh(), "a");
    assert Holding(one, [SampleVote("a")]) by { assert [] + [SampleVote("a")] == [SampleVote("a")]; }
    SecondVote(one);
  }

  lemma SecondVote(y: YacView)
    requires Holding(y, [SampleVote("a")])
    ensures Holding(Receive(y, "b"), [SampleVote("a"), SampleVote("b")])
  {
    EarlyVote(y, [SampleVote("a")], "b");
    assert [SampleVote("a")] + [SampleVote("b")] == [SampleVote("a"), SampleVote("b")];
  }

  /** A peer that collects the fourth vote before its own certificate of three comes
      back to it spreads the certificate but never reports its hash, whatever follows. */
  lemma LostReport(occurrences: seq<Occurrence>)
    requires SameRound(occurrences, 4)
    ensures var y := TwoVotes();
      var z := Receive(Receive(y, "c"), "d");
      && Receive(y, "c").sent == y.sent + CommitTo(y.order.peers, Three())
      && OnCommit(z, Trusting(), Three()).notified == []
      && SilentFrom(Live(z, Trusting(), occurrences), 0, HASH)
  {
    var y, c, d := TwoVotes(), SampleVote("c"), SampleVote("d");
    TwoVotesAre();
    assert Commit(VotesFor(y, HASH) + [c]) == Three();
    QuorumIsSpread(y, Trusting(), Peer("", ""), c);
    CollectorMuted(y, Trusting(), Peer("", ""), c, d);
    MutedForever(Receive(Receive(y, "c"), "d"), Trusting(), occurrences, 4, HASH);
  }
}
