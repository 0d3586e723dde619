/** Applying blocks: chain_validator_impl.cpp over mutable_storage_impl.cpp. */
module Chain {
  import opened YacTypes
  import opened YacQuorum
  import opened WorldState
  import opened Commands
  import opened Validator
  import Database

  datatype Block = Block(
    hash: string, prevHash: string, height: nat, sigs: seq<Signature>, transactions: seq<Transaction>)

  /** A mutable storage: the open transaction, the hash it has reached, the blocks taken so far. */
  datatype StoreView = StoreView(wsv: Wsv, topHash: string, blocks: map<nat, Block>)

  /** The height under which a block is kept: a 32-bit key. */
  function Slot(block: Block): nat {
    block.height % 0x1_0000_0000
  }

  function KeepBlock(blocks: map<nat, Block>, block: Block): map<nat, Block> {
    if Slot(block) in blocks then blocks else blocks[Slot(block) := block]
  }

  function ApplyBlock(s: StoreView, block: Block): (bool, StoreView) {
    if block.prevHash != s.topHash then (false, s)
    else
      var (ok, after) := ExecuteAll(s.wsv, CommandsOf(block.transactions));
      if ok then (true, StoreView(after, block.hash, KeepBlock(s.blocks, block))) else (false, s)
  }

  function ValidateBlock(verify: Block -> bool, s: StoreView, block: Block): (bool, StoreView) {
    if CheckSupermajority(|block.sigs|, |s.wsv.peers|) && verify(block) then ApplyBlock(s, block) else (false, s)
  }

  function ValidateChain(verify: Block -> bool, s: StoreView, blocks: seq<Block>): (bool, StoreView) {
    if blocks == [] then (true, s)
    else
      var (ok, t) := ValidateChain(verify, s, blocks[..|blocks| - 1]);
      if ok then ValidateBlock(verify, t, blocks[|blocks| - 1]) else (false, t)
  }

  // ---- in place ----

  class MutableStorage {
    const db: Database.Connection
    var topHash: string
    var blocks: map<nat, Block>

    constructor (wsv: Wsv, topHash: string)
      ensures fresh(db) && View() == StoreView(wsv, topHash, map[])
    {
      db := new Database.Connection(wsv);
      this.topHash := topHash;
      blocks := map[];
    }

    ghost function View(): StoreView
      reads this, db
    {
      StoreView(db.tables, topHash, blocks)
    }

    method ExecuteTransactions(txs: seq<Transaction>) returns (ok: bool)
      modifies db
      ensures (ok, db.tables) == ExecuteAll(old(db.tables), CommandsOf(txs))
    {
      for i := 0 to |txs|
        invariant ExecuteAll(old(db.tables), CommandsOf(txs[..i])) == (true, db.tables)
      {
        ghost var start := db.tables;
        assert txs[..i + 1][..i] == txs[..i];
        ExecuteAllAppend(old(db.tables), CommandsOf(txs[..i]), txs[i].commands);
        for j := 0 to |txs[i].commands|
          invariant ExecuteAll(start, txs[i].commands) == ExecuteAll(db.tables, txs[i].commands[j..])
        {
          var executed := db.Execute(txs[i].commands[j]);
          if !executed {
            StopsEarly(old(db.tables), txs, i + 1);
            return false;
          }
        }
      }
      assert txs[..|txs|] == txs;
      return true;
    }

    /** apply, with the function that validateBlock passes to it: a failing block is rolled back. */
    method Apply(block: Block) returns (ok: bool)
      modifies this, db
      ensures (ok, View()) == ApplyBlock(old(View()), block)
    {
      var savepoint := db.tables;
      if block.prevHash != topHash {
        ok := false;
      } else {
        ok := ExecuteTransactions(block.transactions);
      }
      if ok {
        blocks := KeepBlock(blocks, block);
        topHash := block.hash;
      } else {
        db.tables := savepoint;
      }
    }

    method Validate(verify: Block -> bool, block: Block) returns (ok: bool)
      modifies this, db
      ensures (ok, View()) == ValidateBlock(verify, old(View()), block)
    {
      if CheckSupermajority(|block.sigs|, |db.tables.peers|) && verify(block) {
        ok := Apply(block);
      } else {
        ok := false;
      }
    }

    method ValidateAll(verify: Block -> bool, chain: seq<Block>) returns (ok: bool)
      modifies this, db
      ensures (ok, View()) == ValidateChain(verify, old(View()), chain)
    {
      for i := 0 to |chain|
        invariant ValidateChain(verify, old(View()), chain[..i]) == (true, View())
      {
        assert chain[..i + 1][..i] == chain[..i];
        ok := Validate(verify, chain[i]);
        if !ok {
          RejectionStands(verify, old(View()), chain, i + 1);
          return false;
        }
      }
      assert chain[..|chain|] == chain;
      return true;
    }
  }

  /** Commands after a failing one are not executed. */
  lemma {:induction false} StopsEarly(w: Wsv, txs: seq<Transaction>, i: nat)
    requires i <= |txs| && !ExecuteAll(w, CommandsOf(txs[..i])).0
    ensures ExecuteAll(w, CommandsOf(txs)) == ExecuteAll(w, CommandsOf(txs[..i]))
    decreases |txs|
  {
    if i == |txs| {
      assert txs[..i] == txs;
    } else {
      assert txs[..|txs| - 1][..i] == txs[..i];
      StopsEarly(w, txs[..|txs| - 1], i);
      ExecuteAllAppend(w, CommandsOf(txs[..|txs| - 1]), txs[|txs| - 1].commands);
    }
  }

  lemma {:induction false} RejectionStands(verify: Block -> bool, s: StoreView, blocks: seq<Block>, i: nat)
    requires i <= |blocks| && !ValidateChain(verify, s, blocks[..i]).0
    ensures ValidateChain(verify, s, blocks) == ValidateChain(verify, s, blocks[..i])
    decreases |blocks|
  {
    if i == |blocks| {
      assert blocks[..i] == blocks;
    } else {
      assert blocks[..|blocks| - 1][..i] == blocks[..i];
      RejectionStands(verify, s, blocks[..|blocks| - 1], i);
    }
  }

  // ---- what a valid chain is ----

  function ChainCommands(blocks: seq<Block>): seq<Command> {
    if blocks == [] then []
    else ChainCommands(blocks[..|blocks| - 1]) + CommandsOf(blocks[|blocks| - 1].transactions)
  }

  function HashBefore(top: string, blocks: seq<Block>, i: nat): string
    requires i <= |blocks|
  {
    if i == 0 then top else blocks[i - 1].hash
  }

  /** Block `i` links to its predecessor, verifies, carries signatures of more than
      two thirds of the peers in force after the blocks before it, and executes. */
  ghost predicate Fits(verify: Block -> bool, start: Wsv, top: string, blocks: seq<Block>, i: nat)
    requires i < |blocks|
  {
    var w := ExecuteAll(start, ChainCommands(blocks[..i])).1;
    && blocks[i].prevHash == HashBefore(top, blocks, i) && verify(blocks[i])
    && 3 * |blocks[i].sigs| >= 2 * |w.peers| + 1
    && ExecuteAll(w, CommandsOf(blocks[i].transactions)).0
  }

  ghost predicate ChainValid(verify: Block -> bool, start: Wsv, top: string, blocks: seq<Block>) {
    forall i :: 0 <= i < |blocks| ==> Fits(verify, start, top, blocks, i)
  }

  lemma PrefixFits(verify: Block -> bool, start: Wsv, top: string, blocks: seq<Block>, n: nat, i: nat)
    requires i < n <= |blocks|
    ensures Fits(verify, start, top, blocks[..n], i) == Fits(verify, start, top, blocks, i)
  {
    assert blocks[..n][..i] == blocks[..i];
  }

  lemma ChainValidSplits(verify: Block -> bool, start: Wsv, top: string, blocks: seq<Block>)
    requires blocks != []
    ensures ChainValid(verify, start, top, blocks) <==>
      ChainValid(verify, start, top, blocks[..|blocks| - 1]) && Fits(verify, start, top, blocks, |blocks| - 1)
  {
    var n := |blocks| - 1;
    forall i | 0 <= i < n
      ensures Fits(verify, start, top, blocks[..n], i) == Fits(verify, start, top, blocks, i)
    {
      PrefixFits(verify, start, top, blocks, n, i);
    }
    if ChainValid(verify, start, top, blocks[..n]) && Fits(verify, start, top, blocks, n) {
      forall i | 0 <= i < |blocks|
        ensures Fits(verify, start, top, blocks, i)
      {
        if i < n { assert Fits(verify, start, top, blocks[..n], i); }
      }
    }
  }

  lemma Associate(a: seq<Command>, b: seq<Command>, c: seq<Command>)
    ensures (a + b) + c == a + (b + c)
  {}

  lemma {:induction false} ChainCommandsAppend(first: seq<Block>, second: seq<Block>)
    ensures ChainCommands(first + second) == ChainCommands(first) + ChainCommands(second)
  {
    var all := first + second;
    if second == [] {
      assert all == first;
    } else {
      var front, last := second[..|second| - 1], second[|second| - 1];
      assert all[..|all| - 1] == first + front && all[|all| - 1] == last;
      ChainCommandsAppend(first, front);
      Associate(ChainCommands(first), ChainCommands(front), CommandsOf(last.transactions));
    }
  }

  /** validateChain accepts exactly the valid chains, and then holds the result of
      all their commands and the hash of the last block. */
  lemma {:induction false} ChainAccepted(verify: Block -> bool, s: StoreView, blocks: seq<Block>)
    ensures var (ok, t) := ValidateChain(verify, s, blocks);
      && (ok <==> ChainValid(verify, s.wsv, s.topHash, blocks))
      && (ok ==> ExecuteAll(s.wsv, ChainCommands(blocks)) == (true, t.wsv)
                 && t.topHash == HashBefore(s.topHash, blocks, |blocks|))
  {
    if blocks != [] {
      var front, last := blocks[..|blocks| - 1], blocks[|blocks| - 1];
      ChainAccepted(verify, s, front);
      ChainValidSplits(verify, s.wsv, s.topHash, blocks);
      var (ok, t) := ValidateChain(verify, s, front);
      if ok {
        ChainCheckIsQuorum(|last.sigs|, |t.wsv.peers|);
        ExecuteAllAppend(s.wsv, ChainCommands(front), CommandsOf(last.transactions));
      }
    }
  }

  /** Validating a chain in two parts. */
  lemma {:induction false} ValidateChainAppend(verify: Block -> bool, s: StoreView,
                                               first: seq<Block>, second: seq<Block>)
    requires ValidateChain(verify, s, first).0
    ensures ValidateChain(verify, s, first + second) == ValidateChain(verify, ValidateChain(verify, s, first).1, second)
  {
    var all := first + second;
    if second == [] {
      assert all == first;
    } else {
      var front, last := second[..|second| - 1], second[|second| - 1];
      assert all[..|all| - 1] == first + front && all[|all| - 1] == last;
      ValidateChainAppend(verify, s, first, front);
    }
  }

  /** A valid chain continued by a chain that is valid after it is a valid chain, and conversely. */
  lemma ChainValidAppend(verify: Block -> bool, start: Wsv, top: string, first: seq<Block>, second: seq<Block>)
    requires ChainValid(verify, start, top, first)
    ensures ChainValid(verify, start, top, first + second) <==>
      ChainValid(verify, ExecuteAll(start, ChainCommands(first)).1, HashBefore(top, first, |first|), second)
  {
    var s := StoreView(start, top, map[]);
    ChainAccepted(verify, s, first);
    ChainAccepted(verify, s, first + second);
    ChainAccepted(verify, ValidateChain(verify, s, first).1, second);
    ValidateChainAppend(verify, s, first, second);
  }

  /** On rejection, the storage holds the longest valid prefix: the first block
      that does not fit has left no trace. */
  lemma {:induction false} RejectionKeepsPrefix(verify: Block -> bool, s: StoreView, blocks: seq<Block>)
      returns (k: nat)
    requires !ValidateChain(verify, s, blocks).0
    ensures k < |blocks| && ChainValid(verify, s.wsv, s.topHash, blocks[..k])
    ensures !Fits(verify, s.wsv, s.topHash, blocks, k)
    ensures ValidateChain(verify, s, blocks).1 == ValidateChain(verify, s, blocks[..k]).1
    ensures ExecuteAll(s.wsv, ChainCommands(blocks[..k])) == (true, ValidateChain(verify, s, blocks).1.wsv)
  {
    var n := |blocks| - 1;
    ChainAccepted(verify, s, blocks[..n]);
    if ValidateChain(verify, s, blocks[..n]).0 {
      ChainAccepted(verify, s, blocks);
      ChainValidSplits(verify, s.wsv, s.topHash, blocks);
      k := n;
    } else {
      k := RejectionKeepsPrefix(verify, s, blocks[..n]);
      assert blocks[..n][..k] == blocks[..k];
      PrefixFits(verify, s.wsv, s.topHash, blocks, n, k);
    }
  }

  /** A block of filtered transactions that links, verifies and is signed by a
      quorum is accepted, and reproduces the state the validator saw. */
  lemma FilteredBlockAccepted(verify: Block -> bool, s: StoreView, block: Block, txs: seq<Transaction>)
    requires block.transactions == Filter(s.wsv, txs).0
    requires block.prevHash == s.topHash && verify(block) && 3 * |block.sigs| >= 2 * |s.wsv.peers| + 1
    ensures ValidateBlock(verify, s, block).0 && ValidateBlock(verify, s, block).1.wsv == Filter(s.wsv, txs).1
  {
    ChainCheckIsQuorum(|block.sigs|, |s.wsv.peers|);
    ReplayReproduces(s.wsv, txs);
  }

  /** No earlier block takes the slot of block `i`. */
  ghost predicate TakesSlot(blocks: seq<Block>, i: nat)
    requires i < |blocks|
  {
    forall j :: 0 <= j < i ==> Slot(blocks[j]) != Slot(blocks[i])
  }

  /** `kept` holds, of all blocks with the same height modulo 2^32, the first, and nothing else. */
  ghost predicate KeepsFirst(kept: map<nat, Block>, blocks: seq<Block>) {
    && (forall i :: 0 <= i < |blocks| ==> Slot(blocks[i]) in kept)
    && (forall i :: 0 <= i < |blocks| && TakesSlot(blocks, i) ==> kept[Slot(blocks[i])] == blocks[i])
    && (forall h :: h in kept ==> kept[h] in blocks && Slot(kept[h]) == h)
  }

  lemma SlotTaken(kept: map<nat, Block>, blocks: seq<Block>, block: Block)
    requires KeepsFirst(kept, blocks)
    ensures Slot(block) in kept ==> !TakesSlot(blocks + [block], |blocks|)
  {
    if Slot(block) in kept {
      var j :| 0 <= j < |blocks| && blocks[j] == kept[Slot(block)];
      assert (blocks + [block])[j] == blocks[j];
    }
  }

  lemma KeepBlockKeepsFirst(kept: map<nat, Block>, blocks: seq<Block>, block: Block)
    requires KeepsFirst(kept, blocks)
    ensures KeepsFirst(KeepBlock(kept, block), blocks + [block])
  {
    var all, n := blocks + [block], |blocks|;
    forall i | 0 <= i < |all| && TakesSlot(all, i)
      ensures Slot(all[i]) in KeepBlock(kept, block) && KeepBlock(kept, block)[Slot(all[i])] == all[i]
    {
      if i < n {
        assert forall j :: 0 <= j < i ==> all[j] == blocks[j];
        assert TakesSlot(blocks, i);
      } else {
        assert Slot(block) !in kept by { SlotTaken(kept, blocks, block); }
      }
    }
  }

  function KeepAll(blocks: seq<Block>): map<nat, Block> {
    if blocks == [] then map[] else KeepBlock(KeepAll(blocks[..|blocks| - 1]), blocks[|blocks| - 1])
  }

  lemma {:induction false} KeepAllKeepsFirst(blocks: seq<Block>)
    ensures KeepsFirst(KeepAll(blocks), blocks)
  {
    if blocks != [] {
      var front, last := blocks[..|blocks| - 1], blocks[|blocks| - 1];
      assert blocks == front + [last];
      KeepAllKeepsFirst(front);
      KeepBlockKeepsFirst(KeepAll(front), front, last);
    }
  }

  lemma {:induction false} AcceptedBlocks(verify: Block -> bool, s: StoreView, blocks: seq<Block>)
    requires s.blocks == map[] && ValidateChain(verify, s, blocks).0
    ensures ValidateChain(verify, s, blocks).1.blocks == KeepAll(blocks)
  {
    if blocks != [] {
      AcceptedBlocks(verify, s, blocks[..|blocks| - 1]);
    }
  }

  /** A fresh storage that has accepted a chain keeps the first block of each slot. */
  lemma BlocksKept(verify: Block -> bool, s: StoreView, blocks: seq<Block>)
    requires s.blocks == map[] && ValidateChain(verify, s, blocks).0
    ensures KeepsFirst(ValidateChain(verify, s, blocks).1.blocks, blocks)
  {
    AcceptedBlocks(verify, s, blocks);
    KeepAllKeepsFirst(blocks);
  }
}
