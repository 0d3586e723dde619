/** The synchronizer: commits the block agreed on, or a chain loaded from one of its signers. */
module Synchronizer {
  import opened Wrappers
  import opened YacTypes
  import opened WorldState
  import opened Commands
  import opened Validator
  import opened Chain

  /** Which of the signers' answers are valid chains. */
  ghost function Validity(verify: Block -> bool, ledger: Wsv, top: string, signers: seq<Signature>,
                          load: string -> seq<Block>): (valid: seq<bool>)
    ensures |valid| == |signers|
    ensures forall i :: 0 <= i < |valid| ==> valid[i] == ChainValid(verify, ledger, top, load(signers[i].pubkey))
  {
    seq(|signers|, i requires 0 <= i < |signers| => ChainValid(verify, ledger, top, load(signers[i].pubkey)))
  }

  /** The signer that the loop settles on: the first with a valid answer. A storage that
      cannot be created ends the search. */
  function FirstServing(valid: seq<bool>, available: nat -> bool, from: nat): Option<nat>
    requires from <= |valid|
    decreases |valid| - from
  {
    if from == |valid| || !available(from + 1) then None
    else if valid[from] then Some(from)
    else FirstServing(valid, available, from + 1)
  }

  ghost function Choice(verify: Block -> bool, ledger: Wsv, top: string, block: Block,
                        load: string -> seq<Block>, available: nat -> bool): Option<seq<Block>> {
    if !available(0) then None
    else if ChainValid(verify, ledger, top, [block]) then Some([block])
    else
      match FirstServing(Validity(verify, ledger, top, block.sigs, load), available, 0)
      case None => None
      case Some(i) => if i < |block.sigs| then Some(load(block.sigs[i].pubkey)) else None
  }

  /** The commands of all chains announced so far. */
  function History(chains: seq<seq<Block>>): seq<Command> {
    if chains == [] then [] else History(chains[..|chains| - 1]) + ChainCommands(chains[|chains| - 1])
  }

  /** All announced blocks, as one chain. */
  function Joined(chains: seq<seq<Block>>): seq<Block> {
    if chains == [] then [] else Joined(chains[..|chains| - 1]) + chains[|chains| - 1]
  }

  class Synchronizer {
    const verify: Block -> bool
    ghost const genesis: Wsv
    ghost const genesisTop: string
    var ledger: Wsv
    var notified: seq<seq<Block>>

    constructor (verify: Block -> bool, ledger: Wsv, ghost top: string)
      ensures Valid() && this.verify == verify && this.ledger == ledger && notified == []
      ensures Linked() && LastHash() == top
    {
      this.verify := verify;
      this.genesis := ledger;
      this.genesisTop := top;
      this.ledger := ledger;
      notified := [];
    }

    /** At any time the ledger is the replay of everything announced. */
    ghost predicate Valid()
      reads this
    {
      ExecuteAll(genesis, History(notified)) == (true, ledger)
    }

    /** The announced chains are together one valid chain from the first ledger on. */
    ghost predicate Linked()
      reads this
    {
      ChainValid(verify, genesis, genesisTop, Joined(notified))
    }

    /** The hash of the last announced block. */
    ghost function LastHash(): string
      reads this
    {
      HashBefore(genesisTop, Joined(notified), |Joined(notified)|)
    }

    /** process_commit. `top` is the hash of the last stored block, `load` what each
        signer answers, `available(k)` whether the k-th storage can be created. */
    method ProcessCommit(block: Block, top: string, load: string -> seq<Block>, available: nat -> bool)
      requires Valid()
      modifies this
      ensures Valid()
      ensures match Choice(verify, old(ledger), top, block, load, available)
        case None => ledger == old(ledger) && notified == old(notified)
        case Some(chain) =>
          ExecuteAll(old(ledger), ChainCommands(chain)) == (true, ledger) && notified == old(notified) + [chain]
      ensures old(Linked()) && top == old(LastHash()) ==> Linked()
    {
      if !available(0) {
        return;
      }
      var storage := new MutableStorage(ledger, top);
      var ok := storage.Validate(verify, block);
      OneBlock(verify, StoreView(ledger, top, map[]), block);
      if ok {
        Commit(storage.db.tables, [block], top);
        return;
      }
      ghost var valid := Validity(verify, ledger, top, block.sigs, load);
      for i := 0 to |block.sigs|
        invariant ledger == old(ledger) && notified == old(notified)
        invariant FirstServing(valid, available, 0) == FirstServing(valid, available, i)
      {
        var chain := load(block.sigs[i].pubkey);
        if !available(i + 1) {
          return;
        }
        storage := new MutableStorage(ledger, top);
        ok := storage.ValidateAll(verify, chain);
        ChainAccepted(verify, StoreView(ledger, top, map[]), chain);
        if ok {
          Commit(storage.db.tables, chain, top);
          return;
        }
      }
    }

    /** Makes the storage's state the ledger and announces the chain. */
    method Commit(state: Wsv, chain: seq<Block>, ghost top: string)
      requires Valid() && ExecuteAll(ledger, ChainCommands(chain)) == (true, state)
      requires ChainValid(verify, ledger, top, chain)
      modifies this
      ensures Valid() && ledger == state && notified == old(notified) + [chain]
      ensures old(Linked()) && top == old(LastHash()) ==> Linked()
    {
      ExecuteAllAppend(genesis, History(notified), ChainCommands(chain));
      assert (notified + [chain])[..|notified|] == notified;
      if Linked() && top == LastHash() {
        JoinedCommands(notified);
        ChainValidAppend(verify, genesis, genesisTop, Joined(notified), chain);
      }
      ledger := state;
      notified := notified + [chain];
    }
  }

  lemma {:induction false} JoinedCommands(chains: seq<seq<Block>>)
    ensures ChainCommands(Joined(chains)) == History(chains)
  {
    if chains != [] {
      var front, last := chains[..|chains| - 1], chains[|chains| - 1];
      JoinedCommands(front);
      ChainCommandsAppend(Joined(front), last);
    }
  }

  /** validateBlock is validateChain on one block. */
  lemma OneBlock(verify: Block -> bool, s: StoreView, block: Block)
    ensures ValidateBlock(verify, s, block) == ValidateChain(verify, s, [block])
    ensures ValidateBlock(verify, s, block).0 <==> ChainValid(verify, s.wsv, s.topHash, [block])
    ensures ValidateBlock(verify, s, block).0 ==>
      ExecuteAll(s.wsv, ChainCommands([block])) == (true, ValidateBlock(verify, s, block).1.wsv)
  {
    assert ValidateChain(verify, s, [block][..0]) == (true, s);
    ChainAccepted(verify, s, [block]);
  }

  /** Signer `i` has a valid answer and is asked: all storages up to its turn can be
      created, and no signer before it has a valid answer. */
  predicate Serves(valid: seq<bool>, available: nat -> bool, from: nat, i: nat) {
    && from <= i < |valid| && valid[i]
    && (forall j :: from <= j < i ==> !valid[j])
    && forall k :: from < k <= i + 1 ==> available(k)
  }

  lemma {:induction false} FirstServingIff(valid: seq<bool>, available: nat -> bool, from: nat, i: nat)
    requires from <= |valid|
    ensures FirstServing(valid, available, from) == Some(i) <==> Serves(valid, available, from, i)
    decreases |valid| - from
  {
    if from < |valid| && available(from + 1) && !valid[from] {
      FirstServingIff(valid, available, from + 1, i);
    }
  }

  /** Exactly what process_commit settles on: the agreed block if it is valid; otherwise the
      answer of the first signer in the block's list whose answer is valid; otherwise nothing. */
  lemma ChoiceIff(verify: Block -> bool, ledger: Wsv, top: string, block: Block,
                  load: string -> seq<Block>, available: nat -> bool, chain: seq<Block>)
    ensures Choice(verify, ledger, top, block, load, available) == Some(chain) <==>
      && available(0)
      && if ChainValid(verify, ledger, top, [block]) then chain == [block]
         else exists i: nat :: Serves(Validity(verify, ledger, top, block.sigs, load), available, 0, i)
                               && chain == load(block.sigs[i].pubkey)
  {
    var valid := Validity(verify, ledger, top, block.sigs, load);
    forall i: nat
      ensures FirstServing(valid, available, 0) == Some(i) <==> Serves(valid, available, 0, i)
    {
      FirstServingIff(valid, available, 0, i);
    }
  }

  ghost predicate Answered(chain: seq<Block>, signers: seq<Signature>, load: string -> seq<Block>) {
    exists s :: s in signers && chain == load(s.pubkey)
  }

  /** Only fully validated chains are committed: the agreed block, or the answer of one of its signers. */
  lemma {:induction false} ChoiceIsValid(verify: Block -> bool, ledger: Wsv, top: string, block: Block,
                      load: string -> seq<Block>, available: nat -> bool)
    ensures match Choice(verify, ledger, top, block, load, available)
      case None => true
      case Some(chain) => ChainValid(verify, ledger, top, chain)
                          && (chain == [block] || Answered(chain, block.sigs, load))
  {
    var valid := Validity(verify, ledger, top, block.sigs, load);
    var choice := FirstServing(valid, available, 0);
    if choice.Some? {
      FirstServingIff(valid, available, 0, choice.value);
      assert block.sigs[choice.value] in block.sigs;
    }
  }
}
