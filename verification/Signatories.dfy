/** The keys of accounts: what executed and what validated commands keep of them. */
module Signatories {
  import opened Sequences
  import opened WorldState
  import opened Commands
  import opened Validator
  import opened Chain

  ghost predicate AccountRows(w: Wsv) {
    forall id :: id in w.accounts ==>
      w.accounts[id].accountId == id && w.accounts[id].domainName in w.domains
      && w.accounts[id].masterKey in w.signatories
  }

  ghost predicate SignatoryRows(w: Wsv) {
    forall id, key :: (id, key) in w.accountSignatories ==> id in w.accounts && key in w.signatories
  }

  ghost predicate AssetRows(w: Wsv) {
    && (forall id :: id in w.assets ==> w.assets[id].domainId in w.domains)
    && (forall id, asset :: (id, asset) in w.balances ==> id in w.accounts && asset in w.assets)
  }

  ghost predicate PeerRows(w: Wsv) {
    forall key, other :: key in w.peers && other in w.peers && w.peers[key] == w.peers[other] ==> key == other
  }

  /** The rows of the database refer to each other as its keys and foreign keys demand. */
  ghost predicate Referential(w: Wsv) {
    AccountRows(w) && SignatoryRows(w) && AssetRows(w) && PeerRows(w)
  }

  /** Every account has its master key among its signatories and a quorum of 1 to 9. */
  ghost predicate Keyed(w: Wsv) {
    forall id :: id in w.accounts ==>
      (id, w.accounts[id].masterKey) in w.accountSignatories && 1 <= w.accounts[id].quorum <= 9
  }

  lemma KeepsAccountRows(w: Wsv, c: Command)
    requires AccountRows(w)
    ensures AccountRows(Execute(w, c).1)
  {}

  lemma KeepsSignatoryRows(w: Wsv, c: Command)
    requires SignatoryRows(w)
    ensures SignatoryRows(Execute(w, c).1)
  {}

  lemma KeepsAssetRows(w: Wsv, c: Command)
    requires AssetRows(w)
    ensures AssetRows(Execute(w, c).1)
  {}

  lemma KeepsPeerRows(w: Wsv, c: Command)
    requires PeerRows(w)
    ensures PeerRows(Execute(w, c).1)
  {
    assert forall key :: key in w.peers ==> w.peers[key] in w.peers.Values;
  }

  /** Every execution, validated or not, keeps the references. */
  lemma ExecuteKeepsReferential(w: Wsv, c: Command)
    requires Referential(w)
    ensures Referential(Execute(w, c).1)
  {
    KeepsAccountRows(w, c);
    KeepsSignatoryRows(w, c);
    KeepsAssetRows(w, c);
    KeepsPeerRows(w, c);
  }

  // ---- master keys and quorums ----

  /** The commands that break an account's keys: removing its master key, making a
      master key of one that is no signatory, setting a quorum outside 1 to 9. */
  predicate Unkeys(w: Wsv, c: Command) {
    match c
    case RemoveSignatory(id, key) => id in w.accounts && w.accounts[id].masterKey == key
    case AssignMasterKey(id, key) => (id, key) !in w.accountSignatories
    case SetQuorum(_, quorum) => !(1 <= quorum <= 9)
    case _ => false
  }

  /** Executed without validation, as in a block, a command keeps the keys if and only if it is none of these. */
  lemma CommandKeepsKeyedIff(w: Wsv, c: Command)
    requires Referential(w) && Keyed(w) && Execute(w, c).0
    ensures Keyed(Execute(w, c).1) <==> !Unkeys(w, c)
  {
    if Unkeys(w, c) {
      UnkeyedAccount(w, c);
    } else {
      KeepsKeyed(w, c);
    }
  }

  lemma KeepsKeyed(w: Wsv, c: Command)
    requires AccountRows(w) && Keyed(w) && Execute(w, c).0 && !Unkeys(w, c)
    ensures Keyed(Execute(w, c).1)
  {}

  lemma UnkeyedAccount(w: Wsv, c: Command)
    requires AccountRows(w) && Execute(w, c).0 && Unkeys(w, c)
    ensures c.accountId in Execute(w, c).1.accounts
    ensures var row := Execute(w, c).1.accounts[c.accountId];
      (c.accountId, row.masterKey) !in Execute(w, c).1.accountSignatories || !(1 <= row.quorum <= 9)
  {}

  /** The validator lets none of them through. */
  lemma ValidatedKeepsKeys(w: Wsv, creator: Account, c: Command)
    requires Validate(w, creator, c)
    ensures !Unkeys(w, c)
  {}

  /** No command breaks keys at its turn, */
  predicate NoneUnkeys(w: Wsv, commands: seq<Command>)
    decreases commands
  {
    commands == [] || (!Unkeys(w, commands[0]) && NoneUnkeys(Execute(w, commands[0]).1, commands[1..]))
  }

  /** and the keys are whole before and after every command. */
  ghost predicate StaysKeyed(w: Wsv, commands: seq<Command>)
    decreases commands
  {
    Keyed(w) && (commands != [] ==> StaysKeyed(Execute(w, commands[0]).1, commands[1..]))
  }

  /** Over every sequence of commands that executes: the keys are whole throughout
      if and only if no command breaks them at its turn. */
  lemma {:induction false} StaysKeyedIff(w: Wsv, commands: seq<Command>)
    requires Referential(w) && Keyed(w) && ExecuteAll(w, commands).0
    ensures StaysKeyed(w, commands) <==> NoneUnkeys(w, commands)
    ensures NoneUnkeys(w, commands) ==> Keyed(ExecuteAll(w, commands).1)
    decreases commands
  {
    if commands != [] {
      CommandKeepsKeyedIff(w, commands[0]);
      if !Unkeys(w, commands[0]) {
        ExecuteKeepsReferential(w, commands[0]);
        StaysKeyedIff(Execute(w, commands[0]).1, commands[1..]);
      }
    }
  }

  /** So it is for an accepted chain of blocks, whose commands nobody validates again. */
  lemma ChainStaysKeyedIff(verify: Block -> bool, s: StoreView, blocks: seq<Block>)
    requires Referential(s.wsv) && Keyed(s.wsv) && ValidateChain(verify, s, blocks).0
    ensures StaysKeyed(s.wsv, ChainCommands(blocks)) <==> NoneUnkeys(s.wsv, ChainCommands(blocks))
    ensures NoneUnkeys(s.wsv, ChainCommands(blocks)) ==> Keyed(ValidateChain(verify, s, blocks).1.wsv)
  {
    ChainAccepted(verify, s, blocks);
    StaysKeyedIff(s.wsv, ChainCommands(blocks));
  }

  lemma {:induction false} NoneUnkeysAppend(w: Wsv, first: seq<Command>, second: seq<Command>)
    requires ExecuteAll(w, first).0
    ensures NoneUnkeys(w, first + second) <==> NoneUnkeys(w, first) && NoneUnkeys(ExecuteAll(w, first).1, second)
    decreases first
  {
    if first == [] {
      assert first + second == second;
    } else {
      assert (first + second)[1..] == first[1..] + second;
      NoneUnkeysAppend(Execute(w, first[0]).1, first[1..], second);
    }
  }

  lemma {:induction false} RunKeepsKeys(w: Wsv, creator: Account, commands: seq<Command>)
    requires RunCommands(w, creator, commands).0
    ensures NoneUnkeys(w, commands)
    decreases commands
  {
    if commands != [] {
      ValidatedKeepsKeys(w, creator, commands[0]);
      RunKeepsKeys(Execute(w, commands[0]).1, creator, commands[1..]);
    }
  }

  /** The transactions that the validator keeps contain no such command at its turn. */
  lemma {:induction false} FilterKeepsKeys(w: Wsv, txs: seq<Transaction>)
    ensures NoneUnkeys(w, CommandsOf(Filter(w, txs).0))
  {
    if txs != [] {
      var front, last := txs[..|txs| - 1], txs[|txs| - 1];
      var (kept, before) := Filter(w, front);
      FilterKeepsKeys(w, front);
      KeptCommands(w, txs);
      if CheckTransaction(before, last).0 {
        RunKeepsKeys(before, before.accounts[last.creatorAccountId], last.commands);
        NoneUnkeysAppend(w, CommandsOf(kept), last.commands);
      }
    }
  }

  lemma {:induction false} ExecuteAllKeepsReferential(w: Wsv, commands: seq<Command>)
    requires Referential(w)
    ensures Referential(ExecuteAll(w, commands).1)
    decreases commands
  {
    if commands != [] {
      ExecuteKeepsReferential(w, commands[0]);
      ExecuteAllKeepsReferential(Execute(w, commands[0]).1, commands[1..]);
    }
  }

  /** Over every run of the validator, each account keeps its master key among its
      signatories, which are therefore never exhausted, and a quorum of 1 to 9. */
  lemma MasterKeysStay(w: Wsv, txs: seq<Transaction>)
    requires Referential(w) && Keyed(w)
    ensures Referential(Filter(w, txs).1) && Keyed(Filter(w, txs).1)
    ensures StaysKeyed(w, CommandsOf(Filter(w, txs).0))
  {
    ReplayReproduces(w, txs);
    FilterKeepsKeys(w, txs);
    StaysKeyedIff(w, CommandsOf(Filter(w, txs).0));
    ExecuteAllKeepsReferential(w, CommandsOf(Filter(w, txs).0));
  }

  /** Validation is needed: executing an unvalidated block can remove the last master key. */
  lemma UnvalidatedCommandUnkeys() returns (w: Wsv, c: Command)
    ensures Referential(w) && Keyed(w) && Execute(w, c).0 && !Keyed(Execute(w, c).1)
  {
    var account := Account("a@d", "d", NO_PERMISSIONS, 1, "key");
    w := Wsv({"d"}, {"key"}, map["a@d" := account], {("a@d", "key")}, map[], map[], map[]);
    c := RemoveSignatory("a@d", "key");
    CommandKeepsKeyedIff(w, c);
  }

  /** RemoveSignatory never fails; for a key that is no signatory it changes nothing. */
  lemma RemoveSucceeds(w: Wsv, id: string, key: string)
    ensures Execute(w, RemoveSignatory(id, key)).0
    ensures (id, key) !in w.accountSignatories ==> Execute(w, RemoveSignatory(id, key)).1 == w
    ensures (id, key) !in Execute(w, RemoveSignatory(id, key)).1.accountSignatories
  {
    if (id, key) !in w.accountSignatories {
      assert w.accountSignatories - {(id, key)} == w.accountSignatories;
    }
  }

  // ---- enough signatories for the quorum ----

  function RowsOf(w: Wsv, id: string): set<(string, string)> {
    set row | row in w.accountSignatories && row.0 == id
  }

  /** Every account has at least as many signatories as its quorum asks for. */
  ghost predicate Signable(w: Wsv) {
    forall id :: id in w.accounts ==> w.accounts[id].quorum <= |RowsOf(w, id)|
  }

  /** A quorum set above the number of signatories, or a signatory removed when all are needed. */
  predicate Overasks(w: Wsv, c: Command) {
    match c
    case SetQuorum(id, quorum) => quorum > |RowsOf(w, id)|
    case RemoveSignatory(id, key) =>
      id in w.accounts && (id, key) in w.accountSignatories && w.accounts[id].quorum == |RowsOf(w, id)|
    case _ => false
  }

  lemma RowsAfterRemove(w: Wsv, id: string, key: string, other: string)
    ensures var after := Execute(w, RemoveSignatory(id, key)).1;
      |RowsOf(after, other)| == |RowsOf(w, other)| - if other == id && (id, key) in w.accountSignatories then 1 else 0
  {
    var after := Execute(w, RemoveSignatory(id, key)).1;
    if other == id && (id, key) in w.accountSignatories {
      assert RowsOf(after, other) == RowsOf(w, other) - {(id, key)};
      assert (id, key) in RowsOf(w, other);
    } else {
      assert RowsOf(after, other) == RowsOf(w, other);
    }
  }

  lemma RowsStay(w: Wsv, c: Command, id: string)
    requires !c.RemoveSignatory?
    ensures RowsOf(w, id) <= RowsOf(Execute(w, c).1, id) && |RowsOf(w, id)| <= |RowsOf(Execute(w, c).1, id)|
    ensures c.SetQuorum? ==> RowsOf(w, id) == RowsOf(Execute(w, c).1, id)
  {
    SubsetSize(RowsOf(w, id), RowsOf(Execute(w, c).1, id));
  }

  lemma OpenedRow(w: Wsv, c: Command)
    requires c.CreateAccount? && Execute(w, c).0
    ensures |RowsOf(Execute(w, c).1, c.accountName + "@" + c.domainId)| >= 1
  {
    assert (c.accountName + "@" + c.domainId, c.pubkey) in RowsOf(Execute(w, c).1, c.accountName + "@" + c.domainId);
  }

  lemma QuorumAfter(w: Wsv, c: Command, id: string)
    requires AccountRows(w) && Execute(w, c).0 && id in Execute(w, c).1.accounts
    ensures Execute(w, c).1.accounts[id].quorum ==
      if c.SetQuorum? && c.accountId == id then c.newQuorum
      else if id in w.accounts then w.accounts[id].quorum else 1
    ensures id !in w.accounts ==> c.CreateAccount? && id == c.accountName + "@" + c.domainId
    ensures c.SetQuorum? ==> c.accountId in w.accounts
  {}

  lemma KeepsSignable(w: Wsv, c: Command)
    requires AccountRows(w) && Signable(w) && Execute(w, c).0 && !Overasks(w, c)
    ensures Signable(Execute(w, c).1)
  {
    var after := Execute(w, c).1;
    forall id | id in after.accounts
      ensures after.accounts[id].quorum <= |RowsOf(after, id)|
    {
      QuorumAfter(w, c, id);
      if c.RemoveSignatory? { RowsAfterRemove(w, c.accountId, c.pubkey, id); } else { RowsStay(w, c, id); }
      if c.CreateAccount? { OpenedRow(w, c); }
    }
  }

  /** Validated or not, a command keeps the accounts signable if and only if it is none of these two. */
  lemma CommandKeepsSignableIff(w: Wsv, c: Command)
    requires AccountRows(w) && Signable(w) && Execute(w, c).0
    ensures Signable(Execute(w, c).1) <==> !Overasks(w, c)
  {
    if Overasks(w, c) {
      assert c.accountId in Execute(w, c).1.accounts;
      QuorumAfter(w, c, c.accountId);
      if c.RemoveSignatory? {
        RowsAfterRemove(w, c.accountId, c.pubkey, c.accountId);
      } else {
        RowsStay(w, c, c.accountId);
      }
    } else {
      KeepsSignable(w, c);
    }
  }

  predicate NoneOverasks(w: Wsv, commands: seq<Command>)
    decreases commands
  {
    commands == [] || (!Overasks(w, commands[0]) && NoneOverasks(Execute(w, commands[0]).1, commands[1..]))
  }

  ghost predicate StaysSignable(w: Wsv, commands: seq<Command>)
    decreases commands
  {
    Signable(w) && (commands != [] ==> StaysSignable(Execute(w, commands[0]).1, commands[1..]))
  }

  /** The same over every sequence of commands that executes. */
  lemma {:induction false} StaysSignableIff(w: Wsv, commands: seq<Command>)
    requires AccountRows(w) && Signable(w) && ExecuteAll(w, commands).0
    ensures StaysSignable(w, commands) <==> NoneOverasks(w, commands)
    ensures NoneOverasks(w, commands) ==> Signable(ExecuteAll(w, commands).1)
    decreases commands
  {
    if commands != [] {
      CommandKeepsSignableIff(w, commands[0]);
      if !Overasks(w, commands[0]) {
        KeepsAccountRows(w, commands[0]);
        StaysSignableIff(Execute(w, commands[0]).1, commands[1..]);
      }
    }
  }

  /** The validator does not prevent it: the owner of an account with one key may ask for nine. */
  lemma ValidatedCommandOverasks() returns (w: Wsv, creator: Account, c: Command)
    ensures Referential(w) && Keyed(w) && Signable(w) && creator.accountId in w.accounts
    ensures Validate(w, creator, c) && Execute(w, c).0 && !Signable(Execute(w, c).1)
  {
    creator := Account("a@d", "d", NO_PERMISSIONS, 1, "key");
    w := Wsv({"d"}, {"key"}, map["a@d" := creator], {("a@d", "key")}, map[], map[], map[]);
    c := SetQuorum("a@d", 9);
    assert RowsOf(w, "a@d") == {("a@d", "key")};
    CommandKeepsSignableIff(w, c);
  }
}
