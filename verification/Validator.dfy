/** The stateful validator: filters a proposal transaction by transaction, each
    under a savepoint (stateful_validator_impl.cpp, temporary_wsv_impl.cpp). */
module Validator {
  import opened YacTypes
  import opened WorldState
  import opened Commands
  import Database

  datatype Transaction = Transaction(signatures: seq<Signature>, creatorAccountId: string, commands: seq<Command>)

  datatype Proposal = Proposal(transactions: seq<Transaction>, height: nat)

  /** Validates and executes commands in order until one fails. */
  function RunCommands(w: Wsv, creator: Account, commands: seq<Command>): (bool, Wsv)
    decreases commands
  {
    if commands == [] then (true, w)
    else if !Validate(w, creator, commands[0]) then (false, w)
    else
      var (ok, after) := Execute(w, commands[0]);
      if ok then RunCommands(after, creator, commands[1..]) else (false, after)
  }

  function CheckTransaction(w: Wsv, tx: Transaction): (bool, Wsv) {
    if tx.creatorAccountId !in w.accounts || |tx.signatures| < w.accounts[tx.creatorAccountId].quorum then (false, w)
    else RunCommands(w, w.accounts[tx.creatorAccountId], tx.commands)
  }

  /** Applies a transaction, or nothing of it. */
  function ApplyTransaction(w: Wsv, tx: Transaction): (bool, Wsv) {
    var (ok, after) := CheckTransaction(w, tx);
    (ok, if ok then after else w)
  }

  function Filter(w: Wsv, txs: seq<Transaction>): (seq<Transaction>, Wsv) {
    if txs == [] then ([], w)
    else
      var (kept, before) := Filter(w, txs[..|txs| - 1]);
      var last := txs[|txs| - 1];
      var (ok, after) := ApplyTransaction(before, last);
      (if ok then kept + [last] else kept, after)
  }

  /** Executes commands without validating them, as a block is replayed, until one fails. */
  function ExecuteAll(w: Wsv, commands: seq<Command>): (bool, Wsv)
    decreases commands
  {
    if commands == [] then (true, w)
    else
      var (ok, after) := Execute(w, commands[0]);
      if ok then ExecuteAll(after, commands[1..]) else (false, after)
  }

  function CommandsOf(txs: seq<Transaction>): seq<Command> {
    if txs == [] then [] else CommandsOf(txs[..|txs| - 1]) + txs[|txs| - 1].commands
  }

  // ---- in place ----

  class TemporaryWsv {
    const db: Database.Connection

    constructor (db: Database.Connection)
      ensures this.db == db
    {
      this.db := db;
    }

    method Check(tx: Transaction) returns (ok: bool)
      modifies db
      ensures (ok, db.tables) == CheckTransaction(old(db.tables), tx)
    {
      if tx.creatorAccountId !in db.tables.accounts {
        return false;
      }
      var account := db.tables.accounts[tx.creatorAccountId];
      if |tx.signatures| < account.quorum {
        return false;
      }
      for i := 0 to |tx.commands|
        invariant RunCommands(old(db.tables), account, tx.commands) ==
                  RunCommands(db.tables, account, tx.commands[i..])
      {
        if !Validate(db.tables, account, tx.commands[i]) {
          return false;
        }
        var executed := db.Execute(tx.commands[i]);
        if !executed {
          return false;
        }
      }
      return true;
    }

    /** apply: the function runs between a savepoint and its release or rollback. */
    method Apply(tx: Transaction) returns (ok: bool)
      modifies db
      ensures (ok, db.tables) == ApplyTransaction(old(db.tables), tx)
    {
      var savepoint := db.tables;
      ok := Check(tx);
      if !ok {
        db.tables := savepoint;
      }
    }
  }

  method ValidateProposal(proposal: Proposal, wsv: TemporaryWsv) returns (validated: Proposal)
    modifies wsv.db
    ensures (validated.transactions, wsv.db.tables) == Filter(old(wsv.db.tables), proposal.transactions)
    ensures validated.height == proposal.height
  {
    var valid := [];
    for i := 0 to |proposal.transactions|
      invariant (valid, wsv.db.tables) == Filter(old(wsv.db.tables), proposal.transactions[..i])
    {
      assert proposal.transactions[..i + 1][..i] == proposal.transactions[..i];
      var answer := wsv.Apply(proposal.transactions[i]);
      if answer {
        valid := valid + [proposal.transactions[i]];
      }
    }
    assert proposal.transactions[..|proposal.transactions|] == proposal.transactions;
    validated := Proposal(valid, proposal.height);
  }

  // ---- laws ----

  /** The state after the first `i` commands, whatever becomes of each of them. */
  function StateAt(w: Wsv, commands: seq<Command>, i: nat): Wsv
    requires i <= |commands|
  {
    if i == 0 then w else Execute(StateAt(w, commands, i - 1), commands[i - 1]).1
  }

  lemma {:induction false} StateAtTail(w: Wsv, commands: seq<Command>, i: nat)
    requires i < |commands|
    ensures StateAt(Execute(w, commands[0]).1, commands[1..], i) == StateAt(w, commands, i + 1)
  {
    if i > 0 { StateAtTail(w, commands, i - 1); }
  }

  /** Command `i` executes at its turn, */
  ghost predicate Executes(w: Wsv, commands: seq<Command>, i: nat)
    requires i < |commands|
  {
    Execute(StateAt(w, commands, i), commands[i]).0
  }

  /** or is also allowed to its creator there. */
  ghost predicate Runs(w: Wsv, creator: Account, commands: seq<Command>, i: nat)
    requires i < |commands|
  {
    Validate(StateAt(w, commands, i), creator, commands[i]) && Executes(w, commands, i)
  }

  /** A block's commands all execute if and only if each does at its turn, */
  lemma {:induction false} ExecuteAllIff(w: Wsv, commands: seq<Command>)
    ensures ExecuteAll(w, commands).0 <==> forall i :: 0 <= i < |commands| ==> Executes(w, commands, i)
    decreases commands
  {
    if commands != [] {
      var next, rest, n := Execute(w, commands[0]).1, commands[1..], |commands|;
      ExecuteAllIff(next, rest);
      assert Executes(w, commands, 0) == Execute(w, commands[0]).0;
      forall i | 0 <= i < n - 1
        ensures Executes(next, rest, i) == Executes(w, commands, i + 1)
      {
        StateAtTail(w, commands, i);
      }
      assert forall i :: 1 <= i < n ==> Executes(w, commands, i) == Executes(next, rest, i - 1);
    }
  }

  /** and then the state is that of the last turn. */
  lemma {:induction false} ExecuteAllState(w: Wsv, commands: seq<Command>)
    requires ExecuteAll(w, commands).0
    ensures ExecuteAll(w, commands).1 == StateAt(w, commands, |commands|)
    decreases commands
  {
    if commands != [] {
      ExecuteAllState(Execute(w, commands[0]).1, commands[1..]);
      StateAtTail(w, commands, |commands| - 1);
    }
  }

  /** The commands of a transaction run if and only if each is allowed and executes at its turn. */
  lemma {:induction false} RunCommandsIff(w: Wsv, creator: Account, commands: seq<Command>)
    ensures RunCommands(w, creator, commands).0 <==> forall i :: 0 <= i < |commands| ==> Runs(w, creator, commands, i)
    decreases commands
  {
    if commands != [] {
      var next, rest, n := Execute(w, commands[0]).1, commands[1..], |commands|;
      RunCommandsIff(next, creator, rest);
      assert Runs(w, creator, commands, 0) == (Validate(w, creator, commands[0]) && Execute(w, commands[0]).0);
      forall i | 0 <= i < n - 1
        ensures Runs(next, creator, rest, i) == Runs(w, creator, commands, i + 1)
      {
        StateAtTail(w, commands, i);
      }
      assert forall i :: 1 <= i < n ==> Runs(w, creator, commands, i) == Runs(next, creator, rest, i - 1);
    }
  }

  /** The creator has an account, the signatures reach its quorum, and every command is
      allowed to the creator and executes at its turn. */
  ghost predicate Admissible(w: Wsv, tx: Transaction) {
    && tx.creatorAccountId in w.accounts
    && |tx.signatures| >= w.accounts[tx.creatorAccountId].quorum
    && forall i :: 0 <= i < |tx.commands| ==> Runs(w, w.accounts[tx.creatorAccountId], tx.commands, i)
  }

  lemma AdmissibleIff(w: Wsv, tx: Transaction)
    ensures CheckTransaction(w, tx).0 <==> Admissible(w, tx)
  {
    if tx.creatorAccountId in w.accounts {
      RunCommandsIff(w, w.accounts[tx.creatorAccountId], tx.commands);
    }
  }

  /** Transaction `k` is admissible in the state left by the transactions kept before it. */
  ghost predicate Passes(w: Wsv, txs: seq<Transaction>, k: nat)
    requires k < |txs|
  {
    Admissible(Filter(w, txs[..k]).1, txs[k])
  }

  /** The filter keeps exactly the transactions that pass, in their order;
      `kept` lists their positions. */
  lemma {:induction false} FilterKeepsOrder(w: Wsv, txs: seq<Transaction>) returns (kept: seq<nat>)
    ensures |kept| == |Filter(w, txs).0|
    ensures forall i :: 0 <= i < |kept| ==> kept[i] < |txs| && Filter(w, txs).0[i] == txs[kept[i]]
    ensures forall i, j :: 0 <= i < j < |kept| ==> kept[i] < kept[j]
    ensures forall k :: 0 <= k < |txs| ==> (k in kept <==> Passes(w, txs, k))
  {
    kept := [];
    if txs != [] {
      var n := |txs| - 1;
      kept := FilterKeepsOrder(w, txs[..n]);
      forall k | 0 <= k < n
        ensures Passes(w, txs[..n], k) == Passes(w, txs, k)
      {
        assert txs[..n][..k] == txs[..k] && txs[..n][k] == txs[k];
      }
      AdmissibleIff(Filter(w, txs[..n]).1, txs[n]);
      if Passes(w, txs, n) {
        kept := kept + [n];
      }
    }
  }

  lemma {:induction false} RunIsExecution(w: Wsv, creator: Account, commands: seq<Command>)
    requires RunCommands(w, creator, commands).0
    ensures ExecuteAll(w, commands) == RunCommands(w, creator, commands)
    decreases commands
  {
    if commands != [] {
      RunIsExecution(Execute(w, commands[0]).1, creator, commands[1..]);
    }
  }

  lemma {:induction false} ExecuteAllAppend(w: Wsv, first: seq<Command>, second: seq<Command>)
    ensures ExecuteAll(w, first + second) ==
      if ExecuteAll(w, first).0 then ExecuteAll(ExecuteAll(w, first).1, second) else ExecuteAll(w, first)
    decreases first
  {
    if first == [] {
      assert first + second == second;
    } else {
      assert (first + second)[1..] == first[1..] + second;
      ExecuteAllAppend(Execute(w, first[0]).1, first[1..], second);
    }
  }

  /** Replay: executing just the commands of the kept transactions, without
      validation, succeeds from the same start and reaches the validator's state. */
  lemma {:induction false} ReplayReproduces(w: Wsv, txs: seq<Transaction>)
    ensures ExecuteAll(w, CommandsOf(Filter(w, txs).0)) == (true, Filter(w, txs).1)
  {
    if txs != [] {
      var front, last := txs[..|txs| - 1], txs[|txs| - 1];
      ReplayReproduces(w, front);
      var (kept, before) := Filter(w, front);
      if CheckTransaction(before, last).0 {
        RunIsExecution(before, before.accounts[last.creatorAccountId], last.commands);
        assert (kept + [last])[..|kept|] == kept;
        ExecuteAllAppend(w, CommandsOf(kept), last.commands);
      }
    }
  }

  /** The last transaction that is kept adds its commands to those kept before it. */
  lemma KeptCommands(w: Wsv, txs: seq<Transaction>)
    requires txs != []
    ensures var (kept, before) := Filter(w, txs[..|txs| - 1]);
      var last := txs[|txs| - 1];
      && ExecuteAll(w, CommandsOf(kept)) == (true, before)
      && CommandsOf(Filter(w, txs).0) ==
           CommandsOf(kept) + if CheckTransaction(before, last).0 then last.commands else []
  {
    var kept, last := Filter(w, txs[..|txs| - 1]).0, txs[|txs| - 1];
    ReplayReproduces(w, txs[..|txs| - 1]);
    assert (kept + [last])[..|kept|] == kept;
  }

  /** A filtered proposal is a fixed point of the filter. */
  lemma {:induction false} FilterIsIdempotent(w: Wsv, txs: seq<Transaction>)
    ensures Filter(w, Filter(w, txs).0) == Filter(w, txs)
  {
    if txs != [] {
      var front, last := txs[..|txs| - 1], txs[|txs| - 1];
      FilterIsIdempotent(w, front);
      var (kept, before) := Filter(w, front);
      if CheckTransaction(before, last).0 {
        assert (kept + [last])[..|kept|] == kept;
      }
    }
  }
}
