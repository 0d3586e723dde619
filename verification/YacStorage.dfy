/** The vote storages as the source writes them: objects that search their
    lists by loop and update themselves in place. */
module YacStorage {
  import opened Wrappers
  import opened Sequences
  import opened YacTypes
  import opened YacQuorum
  import opened YacStorageModel

  class BlockStorage {
    const hash: YacHash
    const peersInRound: nat
    var votes: seq<Vote>
    var current: StorageResult

    constructor (hash: YacHash, peersInRound: nat)
      ensures View() == EmptyBlock(hash, peersInRound)
    {
      this.hash := hash;
      this.peersInRound := peersInRound;
      votes := [];
      current := UNDECIDED;
    }

    ghost function View(): BlockView
      reads this
    {
      BlockView(hash, peersInRound, votes, current)
    }

    method UniqueVote(msg: Vote) returns (unique: bool)
      ensures unique <==> msg !in votes
    {
      for i := 0 to |votes|
        invariant msg !in votes[..i]
      {
        if votes[i] == msg {
          return false;
        }
      }
      return true;
    }

    method Insert(msg: Vote) returns (result: StorageResult)
      modifies this
      ensures View() == InsertVote(old(View()), msg)
      ensures result == current
    {
      var unique := UniqueVote(msg);
      if unique {
        votes := votes + [msg];
        match current.state {
          case NotCommitted =>
            if HasSupermajority(|votes|, peersInRound) {
              current := current.(state := Committed);
              current := current.(answer := current.answer.(commit := Some(Commit(votes))));
            }
          case Committed =>
            current := current.(state := CommittedBefore);
            current := current.(answer := current.answer.(commit := Some(Commit(votes))));
          case CommittedBefore =>
            current := current.(answer := current.answer.(commit := Some(Commit(votes))));
        }
      }
      return current;
    }

    method CheckCommitScheme(commit: Commit) returns (ok: bool)
      ensures ok <==> CommitScheme(commit, hash, peersInRound)
    {
      if !HasSupermajority(|commit.votes|, peersInRound) {
        return false;
      }
      SupermajorityIsQuorum(|commit.votes|, peersInRound);
      var commonHash := commit.votes[0].hash;
      if commonHash != hash {
        return false;
      }
      for i := 0 to |commit.votes|
        invariant forall j :: 0 <= j < i ==> commit.votes[j].hash == hash
      {
        if commonHash != commit.votes[i].hash {
          assert commit.votes[i] in commit.votes;
          return false;
        }
      }
      return true;
    }

    method InsertCommit(commit: Commit) returns (result: StorageResult)
      modifies this
      ensures (View(), result) == YacStorageModel.InsertCommit(old(View()), commit)
    {
      var ok := CheckCommitScheme(commit);
      if !ok {
        return UNDECIDED;
      }
      var initialState := current.state;
      for i := 0 to |commit.votes|
        invariant View() == InsertVotes(old(View()), commit.votes[..i])
      {
        assert commit.votes[..i + 1][..i] == commit.votes[..i];
        var inserted := Insert(commit.votes[i]);
        current := inserted;
      }
      assert commit.votes[..|commit.votes|] == commit.votes;
      if initialState == NotCommitted && current.state == CommittedBefore {
        current := current.(state := Committed);
      }
      return current;
    }
  }

  ghost function BlockViews(blocks: seq<BlockStorage>): (views: seq<BlockView>)
    reads blocks
    ensures |views| == |blocks|
    ensures forall i :: 0 <= i < |blocks| ==> views[i] == blocks[i].View()
  {
    seq(|blocks|, i requires 0 <= i < |blocks| reads blocks => blocks[i].View())
  }

  class ProposalStorage {
    const hash: string
    const peersInRound: nat
    var current: StorageResult
    var blocks: seq<BlockStorage>

    constructor (hash: string, peersInRound: nat)
      ensures Valid() && View() == EmptyProposal(hash, peersInRound)
      ensures blocks == []
    {
      this.hash := hash;
      this.peersInRound := peersInRound;
      current := UNDECIDED;
      blocks := [];
    }

    ghost predicate Valid()
      reads this
    {
      Distinct(blocks)
    }

    ghost function View(): ProposalView
      reads this, blocks
    {
      ProposalView(hash, peersInRound, current, BlockViews(blocks))
    }

    method FindStore(blockHash: YacHash) returns (index: nat)
      requires Valid()
      modifies `blocks
      ensures Valid() && index < |blocks|
      ensures index == FindBlock(old(View()).blocks, blockHash)
      ensures View() == WithBlock(old(View()), blockHash)
      ensures blocks == old(blocks) || (blocks == old(blocks) + [blocks[|blocks| - 1]] && fresh(blocks[|blocks| - 1]))
    {
      for i := 0 to |blocks|
        invariant forall j :: 0 <= j < i ==> blocks[j].hash != blockHash
      {
        if blocks[i].hash.proposalHash == blockHash.proposalHash && blocks[i].hash.blockHash == blockHash.blockHash {
          return i;
        }
      }
      var container := new BlockStorage(blockHash, peersInRound);
      blocks := blocks + [container];
      assert View().blocks == old(View()).blocks + [EmptyBlock(blockHash, peersInRound)];
      return |blocks| - 1;
    }

    method Insert(msg: Vote) returns (result: StorageResult)
      requires Valid()
      modifies this, blocks
      ensures Valid() && View() == ProposalInsert(old(View()), msg)
      ensures result == current
      ensures forall b :: b in blocks && b !in old(blocks) ==> fresh(b)
    {
      if msg.hash.proposalHash == hash {
        var index := FindStore(msg.hash);
        var blockState := InsertAt(index, msg);
        match blockState.state {
          case NotCommitted =>
          case Committed => current := blockState;
          case CommittedBefore => current := blockState;
        }
      }
      return current;
    }

    method InsertAt(index: nat, msg: Vote) returns (result: StorageResult)
      requires Valid() && index < |blocks|
      modifies blocks[index]
      ensures View() == old(View()).(blocks := old(View()).blocks[index := InsertVote(old(View()).blocks[index], msg)])
      ensures result == View().blocks[index].current
    {
      result := blocks[index].Insert(msg);
      assert BlockViews(blocks) == old(BlockViews(blocks))[index := blocks[index].View()];
    }

    method Apply(commit: Commit) returns (result: StorageResult)
      requires Valid()
      modifies this, blocks
      ensures Valid() && (View(), result) == ProposalApply(old(View()), commit)
      ensures forall b :: b in blocks && b !in old(blocks) ==> fresh(b)
    {
      if |commit.votes| == 0 {
        return UNDECIDED;
      }
      var index := FindStore(commit.votes[0].hash);
      result := ApplyAt(index, commit);
      if result.state == Committed {
        Cache(result);
      }
    }

    method Cache(result: StorageResult)
      requires Valid()
      modifies `current
      ensures Valid() && View() == old(View()).(current := result)
    {
      current := result;
    }

    method ApplyAt(index: nat, commit: Commit) returns (result: StorageResult)
      requires Valid() && index < |blocks|
      modifies blocks[index]
      ensures Valid()
      ensures var (b, r) := YacStorageModel.InsertCommit(old(View()).blocks[index], commit);
        View() == old(View()).(blocks := old(View()).blocks[index := b]) && result == r
    {
      result := blocks[index].InsertCommit(commit);
      assert BlockViews(blocks) == old(BlockViews(blocks))[index := blocks[index].View()];
    }
  }

  /** These proposal stores and their block stores are all in `repr`. */
  ghost predicate Owned(proposals: seq<ProposalStorage>, repr: set<object>)
    reads proposals
  {
    forall i :: 0 <= i < |proposals| ==> proposals[i] in repr && Elements(proposals[i].blocks) <= repr
  }

  ghost function ProposalViews(proposals: seq<ProposalStorage>, repr: set<object>): (views: StorageView)
    requires Owned(proposals, repr)
    reads proposals, repr
    ensures |views| == |proposals|
    ensures forall i :: 0 <= i < |proposals| ==> views[i] == proposals[i].View()
  {
    seq(|proposals|, i requires 0 <= i < |proposals| && Owned(proposals, repr) reads proposals, repr =>
      assert forall b :: b in proposals[i].blocks ==> b in Elements(proposals[i].blocks);
      proposals[i].View())
  }

  class VoteStorage {
    var proposals: seq<ProposalStorage>
    ghost var repr: set<object>

    constructor ()
      ensures Valid() && View() == [] && fresh(repr)
    {
      proposals := [];
      repr := {this};
    }

    /** No two proposal stores, and no two of their block stores, are the same object. */
    ghost predicate Valid()
      reads this, repr
    {
      && this in repr
      && (forall i :: 0 <= i < |proposals| ==> proposals[i] in repr)
      && Owned(proposals, repr)
      && Distinct(proposals)
      && (forall i :: 0 <= i < |proposals| ==> proposals[i].Valid())
      && forall i, j :: 0 <= i < j < |proposals| ==> Elements(proposals[i].blocks) !! Elements(proposals[j].blocks)
    }

    ghost function View(): StorageView
      requires Valid()
      reads this, repr
    {
      ProposalViews(proposals, repr)
    }

    method FindProposalStorage(hash: string, peersInRound: nat) returns (index: nat)
      requires Valid()
      modifies this
      ensures Valid() && index < |proposals| && proposals[index].hash == hash
      ensures index == FindProposal(old(View()), hash)
      ensures View() == WithProposal(old(View()), hash, peersInRound)
      ensures fresh(repr - old(repr)) && old(repr) <= repr
    {
      for i := 0 to |proposals|
        invariant forall j :: 0 <= j < i ==> proposals[j].hash != hash
      {
        if proposals[i].hash == hash {
          return i;
        }
      }
      Append(hash, peersInRound);
      return |proposals| - 1;
    }

    method Append(hash: string, peersInRound: nat)
      requires Valid()
      modifies this
      ensures |proposals| == |old(proposals)| + 1 && proposals[|proposals| - 1].hash == hash
      ensures Valid() && View() == old(View()) + [EmptyProposal(hash, peersInRound)]
      ensures fresh(repr - old(repr)) && old(repr) <= repr
    {
      var storage := new ProposalStorage(hash, peersInRound);
      assert forall i :: 0 <= i < |proposals| ==> proposals[i].View() == old(proposals[i].View());
      assert forall p :: p in proposals ==> p != storage;
      proposals := proposals + [storage];
      repr := repr + {storage};
      assert Elements(storage.blocks) == {};
    }

    method Store(msg: Vote, peersInRound: nat) returns (result: StorageResult)
      requires Valid()
      modifies repr
      ensures Valid() && fresh(repr - old(repr))
      ensures (View(), result) == StoreVote(old(View()), msg, peersInRound)
    {
      var index := FindProposalStorage(msg.hash.proposalHash, peersInRound);
      result := StoreAt(index, msg);
    }

    method StoreAt(index: nat, msg: Vote) returns (result: StorageResult)
      requires Valid() && index < |proposals|
      modifies repr
      ensures Valid() && proposals == old(proposals) && fresh(repr - old(repr)) && old(repr) <= repr
      ensures View() == old(View())[index := ProposalInsert(old(View())[index], msg)]
      ensures result == View()[index].current
    {
      var target := proposals[index];
      assert Elements(target.blocks) <= repr;
      result := target.Insert(msg);
      repr := repr + Elements(target.blocks);
      KeepOthers(index);
    }

    method Apply(commit: Commit, peersInRound: nat) returns (result: StorageResult)
      requires Valid()
      modifies repr
      ensures Valid() && fresh(repr - old(repr))
      ensures (View(), result) == ApplyCommit(old(View()), commit, peersInRound)
    {
      if |commit.votes| == 0 {
        return UNDECIDED;
      }
      result := ApplyVotes(commit, peersInRound);
    }

    method ApplyVotes(commit: Commit, peersInRound: nat) returns (result: StorageResult)
      requires Valid() && commit.votes != []
      modifies repr
      ensures Valid() && fresh(repr - old(repr))
      ensures (View(), result) == ApplyCommit(old(View()), commit, peersInRound)
    {
      var index := FindProposalStorage(commit.votes[0].hash.proposalHash, peersInRound);
      result := ApplyAt(index, commit);
    }

    method ApplyAt(index: nat, commit: Commit) returns (result: StorageResult)
      requires Valid() && index < |proposals|
      modifies repr
      ensures Valid() && proposals == old(proposals) && fresh(repr - old(repr)) && old(repr) <= repr
      ensures View() == old(View())[index := ProposalApply(old(View())[index], commit).0]
      ensures result == ProposalApply(old(View())[index], commit).1
    {
      var target := proposals[index];
      assert Elements(target.blocks) <= repr;
      result := target.Apply(commit);
      repr := repr + Elements(target.blocks);
      KeepOthers(index);
    }

    /** Changing one proposal store, its block stores and fresh ones keeps the rest. */
    twostate lemma KeepOthers(index: nat)
      requires old(Valid()) && proposals == old(proposals) && index < |proposals|
      requires repr == old(repr) + Elements(proposals[index].blocks)
      requires proposals[index].Valid()
      requires forall b :: b in proposals[index].blocks && b !in old(proposals[index].blocks) ==> fresh(b)
      requires forall p :: p in proposals && p != proposals[index] ==> unchanged(p)
      requires forall b: BlockStorage :: b in old(repr) && b !in old(proposals[index].blocks) ==> unchanged(b)
      ensures Valid() && |View()| == |old(View())|
      ensures View() == old(View())[index := proposals[index].View()]
    {
      forall i | 0 <= i < |proposals| && i != index
        ensures proposals[i].blocks == old(proposals[i].blocks) && proposals[i].Valid()
        ensures Elements(proposals[i].blocks) <= repr
        ensures Elements(proposals[i].blocks) !! Elements(proposals[index].blocks)
        ensures proposals[i].View() == old(proposals[i].View())
      {
        assert proposals[i] in proposals && proposals[i] != proposals[index];
        assert unchanged(proposals[i]);
        assert Elements(proposals[i].blocks) <= old(repr);
        assert Elements(proposals[i].blocks) !! Elements(old(proposals[index].blocks));
        var blocks := proposals[i].blocks;
        forall k | 0 <= k < |blocks|
          ensures blocks[k] in old(repr) && blocks[k] !in proposals[index].blocks
          ensures blocks[k].View() == old(blocks[k].View())
        {
          assert blocks[k] in Elements(blocks);
          assert blocks[k] !in Elements(old(proposals[index].blocks));
          assert unchanged(blocks[k]);
        }
        assert BlockViews(blocks) == old(BlockViews(blocks));
      }
    }

    method Find(hash: YacHash) returns (state: Option<StorageResult>)
      requires Valid()
      ensures state == ProposalState(View(), hash)
    {
      for i := 0 to |proposals|
        invariant forall j :: 0 <= j < i ==> proposals[j].hash != hash.proposalHash
      {
        if proposals[i].hash == hash.proposalHash {
          return Some(proposals[i].current);
        }
      }
      return None;
    }
  }
}
