/** One YAC peer on values: what each call of yac.cpp does to its storage, its
    leader order, its timer, the messages it sends and the commits it reports. */
module YacModel {
  import opened Wrappers
  import opened YacTypes
  import opened YacStorageModel

  // ---- ClusterOrdering ----

  datatype Ordering = Ordering(peers: seq<Peer>, index: nat)

  /** The leader, after resetting an index that ran past the end; `None` is the
      exception thrown for an empty order. */
  function CurrentLeader(o: Ordering): (Ordering, Option<Peer>) {
    var i := if o.index >= |o.peers| then 0 else o.index;
    (o.(index := i), if i < |o.peers| then Some(o.peers[i]) else None)
  }

  predicate HasNext(o: Ordering) {
    o.index != |o.peers|
  }

  function SwitchToNext(o: Ordering): Ordering {
    o.(index := o.index + 1)
  }

  // ---- Yac ----

  datatype Outgoing =
    | SendVote(to: Peer, vote: Vote)
    | SendCommit(to: Peer, commit: Commit)
    | SendReject(to: Peer, reject: Reject)

  /** The crypto provider of a peer. */
  datatype Crypto = Crypto(
    verifyVote: Vote -> bool,
    verifyCommit: Commit -> bool,
    verifyReject: Reject -> bool,
    getVote: YacHash -> Vote)

  /** `timer` is the hash of the voting step that the running timer will resume. */
  datatype YacView = YacView(
    storage: StorageView,
    order: Ordering,
    timer: Option<YacHash>,
    sent: seq<Outgoing>,
    notified: seq<Commit>)

  function VotingStep(y: YacView, crypto: Crypto, hash: YacHash): YacView {
    var proposal := ProposalState(y.storage, hash);
    if proposal.Some? && proposal.value.state.Committed? then y
    else
      var (order, leader) := CurrentLeader(y.order);
      match leader
      case None => y.(order := order)
      case Some(peer) =>
        y.(order := order, timer := Some(hash), sent := y.sent + [SendVote(peer, crypto.getVote(hash))])
  }

  function CallVote(y: YacView, crypto: Crypto, hash: YacHash, order: Ordering): YacView {
    VotingStep(y.(order := order), crypto, hash)
  }

  /** The timer handler; without a running timer nothing happens. */
  function OnTimer(y: YacView, crypto: Crypto): YacView {
    match y.timer
    case None => y
    case Some(hash) =>
      var next := y.(timer := None, order := SwitchToNext(y.order));
      if HasNext(next.order) then VotingStep(next, crypto, hash) else next
  }

  function CommitTo(peers: seq<Peer>, commit: Commit): seq<Outgoing> {
    seq(|peers|, i requires 0 <= i < |peers| => SendCommit(peers[i], commit))
  }

  function RejectTo(peers: seq<Peer>, reject: Reject): seq<Outgoing> {
    seq(|peers|, i requires 0 <= i < |peers| => SendReject(peers[i], reject))
  }

  /** The messages that spread an answer to `peers`. */
  function Spread(answer: Answer, peers: seq<Peer>): seq<Outgoing> {
    (if answer.commit.Some? then CommitTo(peers, answer.commit.value) else []) +
    (if answer.reject.Some? then RejectTo(peers, answer.reject.value) else [])
  }

  /** A first commit is spread to all, a repeated one returned to the voter. */
  function Replies(result: StorageResult, peers: seq<Peer>, from: Peer): seq<Outgoing> {
    match result.state
    case NotCommitted => []
    case Committed => Spread(result.answer, peers)
    case CommittedBefore => Spread(result.answer, [from])
  }

  function OnVote(y: YacView, crypto: Crypto, from: Peer, vote: Vote): YacView {
    if !crypto.verifyVote(vote) then y
    else
      var (storage, result) := StoreVote(y.storage, vote, |y.order.peers|);
      y.(storage := storage, sent := y.sent + Replies(result, y.order.peers, from))
  }

  function OnCommit(y: YacView, crypto: Crypto, commit: Commit): YacView {
    if !crypto.verifyCommit(commit) then y
    else
      var (storage, result) := ApplyCommit(y.storage, commit, |y.order.peers|);
      var news := if result.state.Committed? && result.answer.commit.Some? then [result.answer.commit.value] else [];
      y.(storage := storage, timer := None, notified := y.notified + news)
  }

  function OnReject(y: YacView, crypto: Crypto, reject: Reject): YacView {
    if !crypto.verifyReject(reject) then y else y.(timer := None)
  }
}
