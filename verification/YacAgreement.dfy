/** Agreement of YAC: a network of peers, some of them faulty, in one round. */
module YacAgreement {
  import opened Wrappers
  import opened Sequences
  import opened YacTypes
  import opened YacQuorum
  import opened YacStorageModel
  import opened YacStorageLaws
  import opened YacModel

  /** The peers of a round by public key, the faulty ones among them, the block
      each correct peer votes for, the signature scheme, and each peer's crypto provider. */
  datatype Config = Config(
    keys: set<string>,
    faulty: set<string>,
    choice: string -> YacHash,
    sign: (string, YacHash) -> string,
    crypto: string -> Crypto)

  /** A vote signed with a ledger key; the signature is determined by key and hash. */
  predicate Genuine(c: Config, v: Vote) {
    v.signature.pubkey in c.keys && v.signature.signature == c.sign(v.signature.pubkey, v.hash)
  }

  /** The provider of peer `key` signs with that key and accepts only genuine votes. */
  ghost predicate SoundCrypto(c: Config, key: string) {
    && (forall h :: c.crypto(key).getVote(h) == Vote(h, Signature(c.sign(key, h), key)))
    && (forall v :: c.crypto(key).verifyVote(v) ==> Genuine(c, v))
    && (forall m, v :: c.crypto(key).verifyCommit(m) && v in m.votes ==> Genuine(c, v))
  }

  ghost predicate ConfigOk(c: Config) {
    && c.faulty <= c.keys && 3 * |c.faulty| + 1 <= |c.keys|
    && forall key :: key in c.keys ==> SoundCrypto(c, key)
  }

  /** The correct peers and every message ever sent. Messages are never lost from
      `wire`: they can be delivered late, repeatedly, to anyone, or not at all. */
  datatype Network = Network(nodes: map<string, YacView>, wire: set<Outgoing>)

  function VotesOf(m: Outgoing): seq<Vote> {
    match m
    case SendVote(_, vote) => [vote]
    case SendCommit(_, commit) => commit.votes
    case SendReject(_, reject) => reject.votes
  }

  datatype Action =
    | StartVoting(key: string, order: Ordering)
    | TimerExpires(key: string)
    | DeliverVote(key: string, from: Peer, vote: Vote, via: Outgoing)
    | DeliverCommit(key: string, commit: Commit, via: Outgoing)
    | DeliverReject(key: string, reject: Reject, via: Outgoing)
    | Forge(message: Outgoing)

  ghost predicate Init(c: Config, net: Network) {
    && net.nodes.Keys == c.keys - c.faulty && net.wire == {}
    && forall key :: key in net.nodes ==>
         net.nodes[key].storage == [] && net.nodes[key].timer == None && net.nodes[key].sent == []
         && net.nodes[key].notified == [] && |net.nodes[key].order.peers| == |c.keys|
  }

  /** The correct peer `key` becomes `y`, and what it sent is on the wire. */
  ghost predicate Moves(net: Network, next: Network, key: string, y: YacView) {
    next == Network(net.nodes[key := y], net.wire + Elements(y.sent))
  }

  /** A faulty peer can send anything except a correct peer's signature that nobody has seen. */
  ghost predicate CanForge(c: Config, net: Network, message: Outgoing) {
    forall v :: v in VotesOf(message) && Genuine(c, v) && v.signature.pubkey !in c.faulty ==>
      exists m :: m in net.wire && v in VotesOf(m)
  }

  ghost predicate Next(c: Config, net: Network, action: Action, next: Network) {
    match action
    case StartVoting(key, order) =>
      key in net.nodes && |order.peers| == |c.keys|
      && Moves(net, next, key, CallVote(net.nodes[key], c.crypto(key), c.choice(key), order))
    case TimerExpires(key) =>
      key in net.nodes && Moves(net, next, key, OnTimer(net.nodes[key], c.crypto(key)))
    case DeliverVote(key, from, vote, via) =>
      key in net.nodes && via in net.wire && via.SendVote? && via.vote == vote
      && Moves(net, next, key, OnVote(net.nodes[key], c.crypto(key), from, vote))
    case DeliverCommit(key, commit, via) =>
      key in net.nodes && via in net.wire && via.SendCommit? && via.commit == commit
      && Moves(net, next, key, OnCommit(net.nodes[key], c.crypto(key), commit))
    case DeliverReject(key, reject, via) =>
      key in net.nodes && via in net.wire && via.SendReject? && via.reject == reject
      && Moves(net, next, key, OnReject(net.nodes[key], c.crypto(key), reject))
    case Forge(message) =>
      CanForge(c, net, message) && next == net.(wire := net.wire + {message})
  }

  ghost predicate IsRun(c: Config, run: seq<Network>, actions: seq<Action>) {
    && |run| == |actions| + 1 && Init(c, run[0])
    && forall i :: 0 <= i < |actions| ==> Next(c, run[i], actions[i], run[i + 1])
  }

  // ---- invariant ----

  /** A correct peer's signature appears only under the hash that peer voted for. */
  ghost predicate Faithful(c: Config, v: Vote) {
    Genuine(c, v) && v.signature.pubkey !in c.faulty ==> v.hash == c.choice(v.signature.pubkey)
  }

  ghost predicate AllFaithful(c: Config, votes: seq<Vote>) {
    forall v :: v in votes ==> Faithful(c, v)
  }

  ghost predicate AllTrusted(c: Config, votes: seq<Vote>) {
    forall v :: v in votes ==> Genuine(c, v) && Faithful(c, v)
  }

  /** A quorum of distinct, genuine and faithful votes for `hash`. */
  ghost predicate Certifies(c: Config, commit: Commit, hash: YacHash) {
    && Distinct(commit.votes) && AllTrusted(c, commit.votes) && Quorum(|commit.votes|, |c.keys|)
    && forall v :: v in commit.votes ==> v.hash == hash
  }

  ghost predicate Certified(c: Config, commit: Commit) {
    exists hash :: Certifies(c, commit, hash)
  }

  ghost predicate NodeOk(c: Config, key: string, y: YacView) {
    && StorageOk(y.storage, |c.keys|) && |y.order.peers| == |c.keys|
    && (forall hash :: AllTrusted(c, BlockFor(y.storage, hash, |c.keys|).votes))
    && (y.timer.Some? ==> y.timer.value == c.choice(key))
    && (forall m :: m in y.sent ==> AllFaithful(c, VotesOf(m)))
    && (forall commit :: commit in y.notified ==> Certified(c, commit))
  }

  ghost predicate Safe(c: Config, net: Network) {
    && net.nodes.Keys == c.keys - c.faulty
    && (forall m :: m in net.wire ==> AllFaithful(c, VotesOf(m)))
    && (forall key :: key in net.nodes ==> NodeOk(c, key, net.nodes[key]))
  }

  /** The answer a proposal store caches holds only votes of one of its block stores. */
  lemma CachedTrusted(c: Config, s: StorageView, i: nat)
    requires StorageOk(s, |c.keys|) && i < |s| && s[i].current.answer.commit.Some?
    requires forall hash :: AllTrusted(c, BlockFor(s, hash, |c.keys|).votes)
    ensures AllTrusted(c, s[i].current.answer.commit.value.votes)
  {
    var p := s[i];
    assert !p.current.state.NotCommitted?;
    var j: nat :| CachedFrom(p, j);
    var b := p.blocks[j];
    FindProposalIs(s, p.hash, i);
    FindBlockIs(p.blocks, b.hash, j);
    assert BlockFor(s, b.hash, |c.keys|) == b;
    forall v | v in p.current.answer.commit.value.votes
      ensures v in b.votes
    {}
  }

  lemma StorageStepTrusted(c: Config, s: StorageView, event: Event)
    requires StorageOk(s, |c.keys|)
    requires forall hash :: AllTrusted(c, BlockFor(s, hash, |c.keys|).votes)
    requires event.VoteStored? ==> Genuine(c, event.vote) && Faithful(c, event.vote)
    requires event.CommitApplied? ==> AllTrusted(c, event.commit.votes)
    ensures StorageOk(Step(s, event, |c.keys|), |c.keys|)
    ensures forall hash :: AllTrusted(c, BlockFor(Step(s, event, |c.keys|), hash, |c.keys|).votes)
  {
    forall hash
      ensures StorageOk(Step(s, event, |c.keys|), |c.keys|)
      ensures AllTrusted(c, BlockFor(Step(s, event, |c.keys|), hash, |c.keys|).votes)
    {
      BlockForOk(s, hash, |c.keys|);
      StepRefines(s, event, |c.keys|, hash);
      var before, after := BlockFor(s, hash, |c.keys|).votes, BlockFor(Step(s, event, |c.keys|), hash, |c.keys|).votes;
      forall v | v in after
        ensures v in before || v in Brings(event, hash, |c.keys|)
      {
        assert v in Elements(after);
      }
    }
    var some := YacHash("", "");
    BlockForOk(s, some, |c.keys|);
    StepRefines(s, event, |c.keys|, some);
  }

  lemma SpreadFaithful(c: Config, result: StorageResult, peers: seq<Peer>, from: Peer)
    requires result.answer.reject == None
    requires result.answer.commit.Some? ==> AllFaithful(c, result.answer.commit.value.votes)
    ensures forall m :: m in Replies(result, peers, from) ==> AllFaithful(c, VotesOf(m))
  {}

  lemma OnVoteOk(c: Config, key: string, y: YacView, from: Peer, vote: Vote)
    requires ConfigOk(c) && key in c.keys && NodeOk(c, key, y) && Faithful(c, vote)
    ensures NodeOk(c, key, OnVote(y, c.crypto(key), from, vote))
  {
    if c.crypto(key).verifyVote(vote) {
      var n := |c.keys|;
      StorageStepTrusted(c, y.storage, VoteStored(vote));
      var (storage, result) := StoreVote(y.storage, vote, n);
      var i := FindProposal(y.storage, vote.hash.proposalHash);
      assert result == storage[i].current;
      if result.answer.commit.Some? {
        CachedTrusted(c, storage, i);
      }
      SpreadFaithful(c, result, y.order.peers, from);
    }
  }

  /** A commit that the storage reports is a certificate for its first vote's hash. */
  lemma ReportedCertifies(c: Config, s: StorageView, commit: Commit)
    requires StorageOk(s, |c.keys|) && commit.votes != []
    requires AllTrusted(c, BlockFor(s, commit.votes[0].hash, |c.keys|).votes) && AllTrusted(c, commit.votes)
    requires ApplyCommit(s, commit, |c.keys|).1.state.Committed?
    ensures var answer := ApplyCommit(s, commit, |c.keys|).1.answer.commit;
      answer.Some? && Certifies(c, answer.value, commit.votes[0].hash)
  {
    var n, hash := |c.keys|, commit.votes[0].hash;
    var b := BlockFor(s, hash, n);
    ApplyCommitTable(s, commit, n, hash);
    BlockForOk(s, hash, n);
    InsertCommitKeeps(b, commit);
    var after := InsertCommit(b, commit).0;
    forall v | v in after.votes
      ensures v in b.votes || v in commit.votes
    {
      assert v in Elements(after.votes);
    }
  }

  lemma OnCommitOk(c: Config, key: string, y: YacView, commit: Commit)
    requires ConfigOk(c) && key in c.keys && NodeOk(c, key, y) && AllFaithful(c, commit.votes)
    ensures NodeOk(c, key, OnCommit(y, c.crypto(key), commit))
  {
    if c.crypto(key).verifyCommit(commit) {
      StorageStepTrusted(c, y.storage, CommitApplied(commit));
      if ApplyCommit(y.storage, commit, |c.keys|).1.state.Committed? {
        ReportedCertifies(c, y.storage, commit);
      }
    }
  }

  lemma VotingStepOk(c: Config, key: string, y: YacView)
    requires ConfigOk(c) && key in c.keys && key !in c.faulty && NodeOk(c, key, y)
    ensures NodeOk(c, key, VotingStep(y, c.crypto(key), c.choice(key)))
  {
    assert SoundCrypto(c, key);
  }

  lemma MoveKeepsSafe(c: Config, net: Network, next: Network, key: string, y: YacView)
    requires Safe(c, net) && key in net.nodes && Moves(net, next, key, y) && NodeOk(c, key, y)
    ensures Safe(c, next)
  {}

  lemma NextKeepsSafe(c: Config, net: Network, action: Action, next: Network)
    requires ConfigOk(c) && Safe(c, net) && Next(c, net, action, next)
    ensures Safe(c, next)
  {
    match action {
      case StartVoting(key, order) =>
        VotingStepOk(c, key, net.nodes[key].(order := order));
        MoveKeepsSafe(c, net, next, key, next.nodes[key]);
      case TimerExpires(key) =>
        var y := net.nodes[key];
        if y.timer.Some? {
          VotingStepOk(c, key, y.(timer := None, order := SwitchToNext(y.order)));
        }
        MoveKeepsSafe(c, net, next, key, next.nodes[key]);
      case DeliverVote(key, from, vote, via) =>
        assert vote in VotesOf(via);
        OnVoteOk(c, key, net.nodes[key], from, vote);
        MoveKeepsSafe(c, net, next, key, next.nodes[key]);
      case DeliverCommit(key, commit, via) =>
        OnCommitOk(c, key, net.nodes[key], commit);
        MoveKeepsSafe(c, net, next, key, next.nodes[key]);
      case DeliverReject(key, reject, via) =>
        MoveKeepsSafe(c, net, next, key, next.nodes[key]);
      case Forge(message) =>
    }
  }

  lemma {:induction false} RunIsSafe(c: Config, run: seq<Network>, actions: seq<Action>, i: nat)
    requires ConfigOk(c) && IsRun(c, run, actions) && i < |run|
    ensures Safe(c, run[i])
  {
    if i > 0 {
      RunIsSafe(c, run, actions, i - 1);
      NextKeepsSafe(c, run[i - 1], actions[i - 1], run[i]);
    }
  }

  // ---- agreement ----

  /** Distinct genuine votes for one hash come from distinct keys. */
  lemma CertificateSigners(c: Config, commit: Commit, hash: YacHash)
    requires Certifies(c, commit, hash)
    ensures Signers(commit.votes) <= c.keys && Quorum(|Signers(commit.votes)|, |c.keys|)
  {
    var votes := commit.votes;
    forall i, j | 0 <= i < j < |votes|
      ensures votes[i].signature.pubkey != votes[j].signature.pubkey
    {
      assert votes[i] in votes && votes[j] in votes;
    }
    SignersSize(votes);
  }

  lemma CertificatesAgree(c: Config, left: Commit, g: YacHash, right: Commit, h: YacHash)
    requires ConfigOk(c) && Certifies(c, left, g) && Certifies(c, right, h)
    ensures g == h
  {
    CertificateSigners(c, left, g);
    CertificateSigners(c, right, h);
    var k := QuorumsIntersect(c.keys, Signers(left.votes), Signers(right.votes), c.faulty);
    var v :| v in left.votes && v.signature.pubkey == k;
    var w :| w in right.votes && w.signature.pubkey == k;
  }

  /** Agreement: in every run, any two commits reported by correct peers at any
      two moments are for the same hash, and a correct peer voted for it. */
  lemma Agreement(c: Config, run: seq<Network>, actions: seq<Action>,
                  i: nat, p: string, left: Commit, j: nat, q: string, right: Commit)
    requires ConfigOk(c) && IsRun(c, run, actions)
    requires i < |run| && p in run[i].nodes && left in run[i].nodes[p].notified
    requires j < |run| && q in run[j].nodes && right in run[j].nodes[q].notified
    ensures left.votes != [] && right.votes != []
    ensures forall v, w :: v in left.votes && w in right.votes ==> v.hash == w.hash
    ensures exists v :: v in left.votes && v.signature.pubkey in c.keys - c.faulty
                        && v.hash == c.choice(v.signature.pubkey)
  {
    RunIsSafe(c, run, actions, i);
    RunIsSafe(c, run, actions, j);
    assert NodeOk(c, p, run[i].nodes[p]) && NodeOk(c, q, run[j].nodes[q]);
    var g :| Certifies(c, left, g);
    var h :| Certifies(c, right, h);
    CertificatesAgree(c, left, g, right, h);
    CertificateSigners(c, left, g);
    var k := QuorumHasHonest(c.keys, Signers(left.votes), c.faulty);
    var v :| v in left.votes && v.signature.pubkey == k;
    assert Genuine(c, v) && Faithful(c, v);
  }
}
