/** The YAC peer as an object: every method performs the step of YacModel that bears its name. */
module Yac {
  import opened Wrappers
  import opened YacTypes
  import opened YacStorage
  import opened YacModel

  class ClusterOrdering {
    const order: seq<Peer>
    var index: nat

    constructor (order: seq<Peer>)
      ensures View() == Ordering(order, 0)
    {
      this.order := order;
      index := 0;
    }

    /** The copy that passing an ordering by value makes. */
    constructor Copy(other: ClusterOrdering)
      ensures View() == other.View()
    {
      order := other.order;
      index := other.index;
    }

    ghost function View(): Ordering
      reads this
    {
      Ordering(order, index)
    }

    method CurrentLeader() returns (leader: Option<Peer>)
      modifies this
      ensures (View(), leader) == YacModel.CurrentLeader(old(View()))
    {
      if index >= |order| {
        index := 0;
      }
      return if index < |order| then Some(order[index]) else None;
    }

    method HasNext() returns (more: bool)
      ensures more <==> YacModel.HasNext(View())
    {
      return index != |order|;
    }

    method SwitchToNext()
      modifies this
      ensures View() == YacModel.SwitchToNext(old(View()))
    {
      index := index + 1;
    }
  }

  class YacPeer {
    const crypto: Crypto
    const storage: VoteStorage
    var order: ClusterOrdering
    var timer: Option<YacHash>
    var sent: seq<Outgoing>
    var notified: seq<Commit>

    constructor (crypto: Crypto, order: ClusterOrdering)
      ensures Valid() && fresh(Footprint())
      ensures this.crypto == crypto && View() == YacView([], order.View(), None, [], [])
    {
      this.crypto := crypto;
      storage := new VoteStorage();
      this.order := new ClusterOrdering.Copy(order);
      timer, sent, notified := None, [], [];
    }

    ghost predicate Valid()
      reads this, storage, storage.repr
    {
      storage.Valid() && this !in storage.repr && order !in storage.repr
    }

    ghost function Footprint(): set<object>
      reads this, storage
    {
      {this, order} + storage.repr
    }

    ghost function View(): YacView
      requires Valid()
      reads this, order, storage, storage.repr
    {
      YacView(storage.View(), order.View(), timer, sent, notified)
    }

    method Vote(hash: YacHash, order: ClusterOrdering)
      requires Valid()
      modifies this, this.order
      ensures Valid() && (this.order == old(this.order) || fresh(this.order))
      ensures View() == CallVote(old(View()), crypto, hash, old(order.View()))
    {
      TakeOrder(order);
      VotingStep(hash);
    }

    method TakeOrder(other: ClusterOrdering)
      requires Valid()
      modifies `order
      ensures Valid() && fresh(order)
      ensures View() == old(View()).(order := old(other.View()))
    {
      order := new ClusterOrdering.Copy(other);
    }

    method VotingStep(hash: YacHash)
      requires Valid()
      modifies this`timer, this`sent, order
      ensures Valid()
      ensures View() == YacModel.VotingStep(old(View()), crypto, hash)
    {
      var proposal := storage.Find(hash);
      if proposal.Some? && proposal.value.state == Committed {
        return;
      }
      var leader := Leader();
      if leader.Some? {
        SendAndWait(leader.value, hash);
      }
    }

    method Leader() returns (leader: Option<Peer>)
      requires Valid()
      modifies order
      ensures Valid() && (View().order, leader) == YacModel.CurrentLeader(old(View()).order)
      ensures View() == old(View()).(order := View().order)
    {
      leader := order.CurrentLeader();
    }

    method SendAndWait(peer: Peer, hash: YacHash)
      requires Valid()
      modifies `timer, `sent
      ensures Valid() && View() ==
        old(View()).(timer := Some(hash), sent := old(sent) + [SendVote(peer, crypto.getVote(hash))])
    {
      sent := sent + [SendVote(peer, crypto.getVote(hash))];
      timer := Some(hash);
    }

    method OnTimer()
      requires Valid()
      modifies this`timer, this`sent, order
      ensures Valid()
      ensures View() == YacModel.OnTimer(old(View()), crypto)
    {
      if timer.Some? {
        var hash := timer.value;
        timer := None;
        order.SwitchToNext();
        assert storage.Valid() && storage.View() == old(storage.View());
        var more := order.HasNext();
        if more {
          VotingStep(hash);
        }
      }
    }

    method OnVote(from: Peer, vote: Vote)
      requires Valid()
      modifies Footprint()
      ensures Valid() && fresh(Footprint() - old(Footprint()))
      ensures View() == YacModel.OnVote(old(View()), crypto, from, vote)
    {
      if crypto.verifyVote(vote) {
        var result := StoreVote(vote);
        match result.state {
          case NotCommitted =>
          case Committed => Propagate(result.answer, order.order);
          case CommittedBefore => Propagate(result.answer, [from]);
        }
      }
    }

    method OnCommit(commit: Commit)
      requires Valid()
      modifies Footprint()
      ensures Valid() && fresh(Footprint() - old(Footprint()))
      ensures View() == YacModel.OnCommit(old(View()), crypto, commit)
    {
      if crypto.verifyCommit(commit) {
        var result := ApplyCommit(commit);
        if result.state == Committed && result.answer.commit.Some? {
          Notify(result.answer.commit.value);
        }
        CloseRound();
      }
    }

    method OnReject(reject: Reject)
      requires Valid()
      modifies `timer
      ensures Valid()
      ensures View() == YacModel.OnReject(old(View()), crypto, reject)
    {
      if crypto.verifyReject(reject) {
        CloseRound();
      }
    }

    method StoreVote(vote: Vote) returns (result: StorageResult)
      requires Valid()
      modifies storage.repr
      ensures Valid() && fresh(Footprint() - old(Footprint()))
      ensures (View().storage, result) ==
        YacStorageModel.StoreVote(old(View()).storage, vote, |old(View()).order.peers|)
      ensures View() == old(View()).(storage := View().storage)
    {
      result := storage.Store(vote, |order.order|);
    }

    method ApplyCommit(commit: Commit) returns (result: StorageResult)
      requires Valid()
      modifies storage.repr
      ensures Valid() && fresh(Footprint() - old(Footprint()))
      ensures (View().storage, result) ==
        YacStorageModel.ApplyCommit(old(View()).storage, commit, |old(View()).order.peers|)
      ensures View() == old(View()).(storage := View().storage)
    {
      result := storage.Apply(commit, |order.order|);
    }

    method Notify(commit: Commit)
      requires Valid()
      modifies `notified
      ensures Valid() && View() == old(View()).(notified := old(notified) + [commit])
    {
      notified := notified + [commit];
    }

    method CloseRound()
      requires Valid()
      modifies `timer
      ensures Valid() && View() == old(View()).(timer := None)
    {
      timer := None;
    }

    method Propagate(answer: Answer, peers: seq<Peer>)
      requires Valid()
      modifies `sent
      ensures Valid() && View() == old(View()).(sent := old(sent) + Spread(answer, peers))
    {
      if answer.commit.Some? {
        for i := 0 to |peers|
          invariant sent == old(sent) + CommitTo(peers, answer.commit.value)[..i]
        {
          sent := sent + [SendCommit(peers[i], answer.commit.value)];
        }
      }
      ghost var half := sent;
      if answer.reject.Some? {
        for i := 0 to |peers|
          invariant sent == half + RejectTo(peers, answer.reject.value)[..i]
        {
          sent := sent + [SendReject(peers[i], answer.reject.value)];
        }
      }
    }
  }
}
