/** Whom a peer votes to: one call of `vote` walks through the leader order once. */
module YacRotation {
  import opened Wrappers
  import opened YacTypes
  import opened YacStorageModel
  import opened YacModel

  datatype Input =
    | TimerFired
    | VoteArrived(from: Peer, vote: Vote)
    | CommitArrived(commit: Commit)
    | RejectArrived(reject: Reject)

  function React(y: YacView, crypto: Crypto, input: Input): YacView {
    match input
    case TimerFired => OnTimer(y, crypto)
    case VoteArrived(from, vote) => OnVote(y, crypto, from, vote)
    case CommitArrived(commit) => OnCommit(y, crypto, commit)
    case RejectArrived(reject) => OnReject(y, crypto, reject)
  }

  function Reacts(y: YacView, crypto: Crypto, inputs: seq<Input>): YacView {
    if inputs == [] then y
    else React(Reacts(y, crypto, inputs[..|inputs| - 1]), crypto, inputs[|inputs| - 1])
  }

  /** The votes among the messages sent, in order. */
  function VotesIn(sent: seq<Outgoing>): seq<Outgoing> {
    if sent == [] then []
    else
      var last := sent[|sent| - 1];
      VotesIn(sent[..|sent| - 1]) + if last.SendVote? then [last] else []
  }

  function VotesTo(peers: seq<Peer>, vote: Vote): seq<Outgoing> {
    seq(|peers|, i requires 0 <= i < |peers| => SendVote(peers[i], vote))
  }

  lemma {:induction false} VotesInAppend(sent: seq<Outgoing>, more: seq<Outgoing>)
    ensures VotesIn(sent + more) == VotesIn(sent) + VotesIn(more)
  {
    if more == [] {
      assert sent + more == sent;
    } else {
      assert (sent + more)[..|sent + more| - 1] == sent + more[..|more| - 1];
      VotesInAppend(sent, more[..|more| - 1]);
    }
  }

  lemma {:induction false} NoVotes(sent: seq<Outgoing>)
    requires forall m :: m in sent ==> !m.SendVote?
    ensures VotesIn(sent) == []
  {
    if sent != [] {
      NoVotes(sent[..|sent| - 1]);
    }
  }

  /** The state of a round: the peers from `from` up to `count` got the vote, and a
      running timer stands at the last of them. */
  ghost predicate Voted(y: YacView, crypto: Crypto, hash: YacHash, peers: seq<Peer>, before: seq<Outgoing>,
                        from: nat, count: nat) {
    && from <= count <= |peers| && y.order.peers == peers
    && VotesIn(y.sent) == VotesIn(before) + VotesTo(peers[from..count], crypto.getVote(hash))
    && (y.timer.Some? && peers != [] ==> y.timer == Some(hash) && count >= 1 && y.order.index == count - 1)
  }

  ghost predicate Open(y: YacView, hash: YacHash) {
    var proposal := ProposalState(y.storage, hash);
    proposal.Some? ==> !proposal.value.state.Committed?
  }

  /** A voting step at index `count` sends at most the next vote. */
  lemma VotingStepAdvances(y: YacView, crypto: Crypto, hash: YacHash, peers: seq<Peer>, before: seq<Outgoing>,
                           from: nat, count: nat)
    requires count < |peers| && Voted(y.(timer := None), crypto, hash, peers, before, from, count)
    requires (y.timer.None? || Open(y, hash)) && y.order.index == count
    ensures var z := VotingStep(y, crypto, hash);
      Voted(z, crypto, hash, peers, before, from, if z.timer.Some? then count + 1 else count)
  {
    var z := VotingStep(y, crypto, hash);
    if z.timer.Some? {
      var vote := crypto.getVote(hash);
      var next := SendVote(peers[count], vote);
      VotesInAppend(y.sent, [next]);
      assert z.sent == y.sent + [next];
      assert VotesIn([next]) == [next];
      assert VotesTo(peers[from..count + 1], vote) == VotesTo(peers[from..count], vote) + [next];
    }
  }

  lemma OnVoteSendsNoVotes(y: YacView, crypto: Crypto, from: Peer, vote: Vote)
    ensures var z := OnVote(y, crypto, from, vote);
      z.order == y.order && z.timer == y.timer && VotesIn(z.sent) == VotesIn(y.sent)
  {
    var out := Replies(StoreVote(y.storage, vote, |y.order.peers|).1, y.order.peers, from);
    VotesInAppend(y.sent, out);
    NoVotes(out);
  }

  lemma ReactKeeps(y: YacView, crypto: Crypto, input: Input, hash: YacHash, peers: seq<Peer>,
                   before: seq<Outgoing>, from: nat, count: nat) returns (after: nat)
    requires Voted(y, crypto, hash, peers, before, from, count)
    ensures count <= after && Voted(React(y, crypto, input), crypto, hash, peers, before, from, after)
  {
    after := count;
    match input {
      case TimerFired =>
        if y.timer.Some? && count < |peers| {
          var next := y.(timer := None, order := SwitchToNext(y.order));
          VotingStepAdvances(next, crypto, hash, peers, before, from, count);
          after := if VotingStep(next, crypto, hash).timer.Some? then count + 1 else count;
        }
      case VoteArrived(sender, vote) => OnVoteSendsNoVotes(y, crypto, sender, vote);
      case CommitArrived(commit) =>
      case RejectArrived(reject) =>
    }
  }

  /** A call of `vote` for a committed proposal changes the order but not the running
      timer, which then goes on with its old hash from the second peer of the new order. */
  ghost predicate Resumes(y: YacView, hash: YacHash, peers: seq<Peer>) {
    y.timer.Some? && !Open(y, hash) && peers != []
  }

  /** The hash that is voted for after a call of `vote`, and the first peer that gets it. */
  ghost function VotedFor(y: YacView, hash: YacHash, peers: seq<Peer>): (YacHash, nat) {
    if Resumes(y, hash, peers) then (y.timer.value, 1) else (hash, 0)
  }

  lemma CallStarts(y: YacView, crypto: Crypto, hash: YacHash, peers: seq<Peer>) returns (count: nat)
    ensures var (voted, from) := VotedFor(y, hash, peers);
      Voted(CallVote(y, crypto, hash, Ordering(peers, 0)), crypto, voted, peers, y.sent, from, count)
  {
    var (voted, from) := VotedFor(y, hash, peers);
    count := from;
    var start := y.(order := Ordering(peers, 0));
    assert VotesTo(peers[from..from], crypto.getVote(voted)) == [];
    if peers != [] && !Resumes(y, hash, peers) {
      VotingStepAdvances(start, crypto, hash, peers, y.sent, 0, 0);
      count := if VotingStep(start, crypto, hash).timer.Some? then 1 else 0;
    }
  }

  /** In any run after a call of `vote`, whatever was going on before, all votes sent are
      for one hash and go to successive peers of the order, each once: from the first
      peer on, or, if an older timer resumes, from the second. */
  lemma {:induction false} VotesFollowOrder(y: YacView, crypto: Crypto, hash: YacHash, peers: seq<Peer>,
                                            inputs: seq<Input>)
      returns (count: nat)
    ensures var (voted, from) := VotedFor(y, hash, peers);
      Voted(Reacts(CallVote(y, crypto, hash, Ordering(peers, 0)), crypto, inputs), crypto, voted, peers, y.sent,
            from, count)
  {
    if inputs == [] {
      count := CallStarts(y, crypto, hash, peers);
    } else {
      var (voted, from) := VotedFor(y, hash, peers);
      var front := inputs[..|inputs| - 1];
      count := VotesFollowOrder(y, crypto, hash, peers, front);
      count := ReactKeeps(Reacts(CallVote(y, crypto, hash, Ordering(peers, 0)), crypto, front), crypto,
                          inputs[|inputs| - 1], voted, peers, y.sent, from, count);
    }
  }

  /** The timer stands at a peer, and no more votes went out than peers passed. */
  ghost predicate Bounded(y: YacView, peers: seq<Peer>, before: nat) {
    && y.order.peers == peers
    && before <= |VotesIn(y.sent)| <= before + |peers|
    && (y.timer.Some? && peers != [] ==> y.order.index < |peers| && |VotesIn(y.sent)| <= before + y.order.index + 1)
  }

  /** Whatever was going on before, one call of `vote` leads to at most n votes
      in any run: n - index bounds what is still to come. */
  lemma {:induction false} AtMostOneRound(y: YacView, crypto: Crypto, hash: YacHash, peers: seq<Peer>,
                                          inputs: seq<Input>)
    ensures Bounded(Reacts(CallVote(y, crypto, hash, Ordering(peers, 0)), crypto, inputs), peers, |VotesIn(y.sent)|)
  {
    if inputs != [] {
      var front, last := inputs[..|inputs| - 1], inputs[|inputs| - 1];
      AtMostOneRound(y, crypto, hash, peers, front);
      var z := Reacts(CallVote(y, crypto, hash, Ordering(peers, 0)), crypto, front);
      if last.VoteArrived? {
        OnVoteSendsNoVotes(z, crypto, last.from, last.vote);
      }
    }
  }

  function Fire(y: YacView, crypto: Crypto, times: nat): YacView {
    if times == 0 then y else OnTimer(Fire(y, crypto, times - 1), crypto)
  }

  /** The index at which an order starts: one past the end starts over. */
  function FirstIndex(o: Ordering): nat {
    if o.index < |o.peers| then o.index else 0
  }

  lemma NextVote(peers: seq<Peer>, first: nat, next: nat, vote: Vote)
    requires first <= next < |peers|
    ensures VotesTo(peers[first..next + 1], vote) == VotesTo(peers[first..next], vote) + [SendVote(peers[next], vote)]
  {}

  /** Where a round stands after votes to the peers from the first index up to `reached`. */
  ghost predicate Reached(y: YacView, z: YacView, crypto: Crypto, hash: YacHash, order: Ordering, reached: nat) {
    && FirstIndex(order) <= reached <= |order.peers|
    && z.storage == y.storage && z.notified == y.notified && z.order.peers == order.peers
    && z.sent == y.sent + VotesTo(order.peers[FirstIndex(order)..reached], crypto.getVote(hash))
  }

  lemma StepReaches(y: YacView, x: YacView, crypto: Crypto, hash: YacHash, order: Ordering, next: nat)
    requires Open(y, hash) && next < |order.peers| && FirstIndex(x.order) == next
    requires Reached(y, x, crypto, hash, order, next)
    ensures var z := VotingStep(x, crypto, hash);
      Reached(y, z, crypto, hash, order, next + 1) && z.timer == Some(hash) && z.order.index == next
  {
    NextVote(order.peers, FirstIndex(order), next, crypto.getVote(hash));
  }

  /** An expiry moves on to the next peer, or ends the round behind the last one. */
  lemma ExpiryReaches(y: YacView, x: YacView, crypto: Crypto, hash: YacHash, order: Ordering, next: nat)
    requires Open(y, hash) && 0 < next <= |order.peers| && x.timer == Some(hash) && x.order.index == next - 1
    requires Reached(y, x, crypto, hash, order, next)
    ensures var z := OnTimer(x, crypto);
      if next < |order.peers|
      then Reached(y, z, crypto, hash, order, next + 1) && z.timer == Some(hash) && z.order.index == next
      else Reached(y, z, crypto, hash, order, next) && z.timer == None
  {
    if next < |order.peers| {
      StepReaches(y, x.(timer := None, order := SwitchToNext(x.order)), crypto, hash, order, next);
    }
  }

  lemma CallReaches(y: YacView, crypto: Crypto, hash: YacHash, order: Ordering)
    requires order.peers != [] && Open(y, hash)
    ensures var z := CallVote(y, crypto, hash, order);
      Reached(y, z, crypto, hash, order, FirstIndex(order) + 1) && z.timer == Some(hash)
      && z.order.index == FirstIndex(order)
  {
    var first := FirstIndex(order);
    assert VotesTo(order.peers[first..first], crypto.getVote(hash)) == [];
    StepReaches(y, y.(order := order), crypto, hash, order, first);
  }

  /** Undisturbed, after `times` expiries of the timer exactly the `times + 1` peers from
      the first index on have the vote; once the last one has it the round is over. */
  lemma {:induction false} Rotation(y: YacView, crypto: Crypto, hash: YacHash, order: Ordering, times: nat)
    requires order.peers != [] && Open(y, hash)
    ensures var z := Fire(CallVote(y, crypto, hash, order), crypto, times);
      var n, next := |order.peers|, FirstIndex(order) + times;
      && Reached(y, z, crypto, hash, order, if next < n then next + 1 else n)
      && (next < n ==> z.timer == Some(hash) && z.order.index == next)
      && (next >= n ==> z.timer == None)
  {
    if times == 0 {
      CallReaches(y, crypto, hash, order);
    } else {
      var next := FirstIndex(order) + times;
      Rotation(y, crypto, hash, order, times - 1);
      if next <= |order.peers| {
        ExpiryReaches(y, Fire(CallVote(y, crypto, hash, order), crypto, times - 1), crypto, hash, order, next);
      }
    }
  }

  /** A call of `vote` sends the vote, to the leader, if and only if there is a peer and the
      proposal is not cached as committed; otherwise nothing but the order changes. */
  lemma VotesIff(y: YacView, crypto: Crypto, hash: YacHash, order: Ordering)
    ensures var z := CallVote(y, crypto, hash, order);
      if Open(y, hash) && order.peers != []
      then z.sent == y.sent + [SendVote(order.peers[FirstIndex(order)], crypto.getVote(hash))] && z.timer == Some(hash)
      else z.sent == y.sent && z.timer == y.timer
  {}

  // ---- closing a round ----

  /** Without a running timer, and without a call of `vote`, a peer sends no votes and starts no timer. */
  lemma {:induction false} ClosedStaysClosed(y: YacView, crypto: Crypto, inputs: seq<Input>)
    requires y.timer.None?
    ensures var z := Reacts(y, crypto, inputs);
      z.timer.None? && z.order == y.order && VotesIn(z.sent) == VotesIn(y.sent)
  {
    if inputs != [] {
      var front, last := inputs[..|inputs| - 1], inputs[|inputs| - 1];
      ClosedStaysClosed(y, crypto, front);
      if last.VoteArrived? {
        OnVoteSendsNoVotes(Reacts(y, crypto, front), crypto, last.from, last.vote);
      }
    }
  }

  /** A verified commit or reject, whatever it says, ends the voting of its receiver. */
  lemma VerifiedMessageCloses(y: YacView, crypto: Crypto, input: Input, inputs: seq<Input>)
    requires (input.CommitArrived? && crypto.verifyCommit(input.commit))
             || (input.RejectArrived? && crypto.verifyReject(input.reject))
    ensures VotesIn(Reacts(React(y, crypto, input), crypto, inputs).sent) == VotesIn(y.sent)
  {
    ClosedStaysClosed(React(y, crypto, input), crypto, inputs);
  }

  /** A message that does not verify has no effect at all. */
  lemma UnverifiedIsIgnored(y: YacView, crypto: Crypto, input: Input)
    requires input.VoteArrived? ==> !crypto.verifyVote(input.vote)
    requires input.CommitArrived? ==> !crypto.verifyCommit(input.commit)
    requires input.RejectArrived? ==> !crypto.verifyReject(input.reject)
    requires !input.TimerFired?
    ensures React(y, crypto, input) == y
  {}
}
