/** Who can change what: the permission checks of the validator, over whole runs. */
module Authorization {
  import opened FixedPoint
  import opened YacTypes
  import opened WorldState
  import opened Commands
  import opened Validator
  import opened Signatories
  import opened Conservation

  ghost predicate Nobody(w: Wsv, right: Permissions -> bool) {
    forall id :: id in w.accounts ==> !right(w.accounts[id].permissions)
  }

  predicate SetsPermissions(p: Permissions) {
    p.setPermissions
  }

  predicate Issues(p: Permissions) {
    p.issueAssets
  }

  /** The rights to act on other accounts. */
  predicate Administers(p: Permissions) {
    p.setPermissions || p.addSignatory || p.removeSignatory || p.setQuorum
  }

  // ---- rights do not spread ----

  lemma CommandKeepsRights(w: Wsv, creator: Account, c: Command, right: Permissions -> bool)
    requires Nobody(w, right) && !right(NO_PERMISSIONS) && !creator.permissions.setPermissions
    requires AccountRows(w) && Validate(w, creator, c) && Execute(w, c).0
    ensures Nobody(Execute(w, c).1, right)
  {}

  lemma {:induction false} RunKeepsRights(w: Wsv, creator: Account, commands: seq<Command>, right: Permissions -> bool)
    requires Nobody(w, right) && !right(NO_PERMISSIONS) && !creator.permissions.setPermissions
    requires AccountRows(w) && RunCommands(w, creator, commands).0
    ensures AccountRows(RunCommands(w, creator, commands).1) && Nobody(RunCommands(w, creator, commands).1, right)
    decreases commands
  {
    if commands != [] {
      KeepsAccountRows(w, commands[0]);
      CommandKeepsRights(w, creator, commands[0], right);
      RunKeepsRights(Execute(w, commands[0]).1, creator, commands[1..], right);
    }
  }

  /** No escalation: while nobody may set permissions, a right that nobody holds
      is held by nobody after any run of the validator. */
  lemma {:induction false} NoEscalation(w: Wsv, txs: seq<Transaction>, right: Permissions -> bool)
    requires AccountRows(w) && Nobody(w, SetsPermissions)
    requires Nobody(w, right) && !right(NO_PERMISSIONS)
    ensures var after := Filter(w, txs).1;
      AccountRows(after) && Nobody(after, SetsPermissions) && Nobody(after, right)
  {
    if txs != [] {
      var front, last := txs[..|txs| - 1], txs[|txs| - 1];
      NoEscalation(w, front, right);
      var before := Filter(w, front).1;
      if CheckTransaction(before, last).0 {
        var creator := before.accounts[last.creatorAccountId];
        RunKeepsRights(before, creator, last.commands, right);
        RunKeepsRights(before, creator, last.commands, SetsPermissions);
      }
    }
  }

  // ---- accounts are touched only by their owners ----

  /** The row and the signatories of account `id` are the same. */
  ghost predicate SameAccount(w: Wsv, after: Wsv, id: string) {
    && (id in w.accounts ==> id in after.accounts && after.accounts[id] == w.accounts[id])
    && (forall key :: (id, key) in after.accountSignatories <==> (id, key) in w.accountSignatories)
  }

  lemma CommandTouches(w: Wsv, creator: Account, c: Command, id: string)
    requires AccountRows(w) && Validate(w, creator, c) && Execute(w, c).0
    requires id in w.accounts && creator.accountId != id && !Administers(creator.permissions)
    ensures SameAccount(w, Execute(w, c).1, id)
  {}

  lemma {:induction false} RunTouches(w: Wsv, creator: Account, commands: seq<Command>, id: string)
    requires AccountRows(w) && RunCommands(w, creator, commands).0
    requires id in w.accounts && creator.accountId != id && !Administers(creator.permissions)
    ensures SameAccount(w, RunCommands(w, creator, commands).1, id)
    decreases commands
  {
    if commands != [] {
      KeepsAccountRows(w, commands[0]);
      CommandTouches(w, creator, commands[0], id);
      RunTouches(Execute(w, commands[0]).1, creator, commands[1..], id);
    }
  }

  /** The kept transactions before the last one are among all the kept ones. */
  lemma KeptFront(w: Wsv, txs: seq<Transaction>)
    requires txs != []
    ensures forall tx :: tx in Filter(w, txs[..|txs| - 1]).0 ==> tx in Filter(w, txs).0
    ensures CheckTransaction(Filter(w, txs[..|txs| - 1]).1, txs[|txs| - 1]).0 ==> txs[|txs| - 1] in Filter(w, txs).0
  {}

  lemma {:induction false} FilterKeepsAccountRows(w: Wsv, txs: seq<Transaction>)
    requires AccountRows(w)
    ensures AccountRows(Filter(w, txs).1)
  {
    if txs != [] {
      FilterKeepsAccountRows(w, txs[..|txs| - 1]);
      var before, last := Filter(w, txs[..|txs| - 1]).1, txs[|txs| - 1];
      if CheckTransaction(before, last).0 {
        RunKeepsAccountRows(before, before.accounts[last.creatorAccountId], last.commands);
      }
    }
  }

  lemma {:induction false} RunKeepsAccountRows(w: Wsv, creator: Account, commands: seq<Command>)
    requires AccountRows(w)
    ensures AccountRows(RunCommands(w, creator, commands).1)
    decreases commands
  {
    if commands != [] {
      KeepsAccountRows(w, commands[0]);
      RunKeepsAccountRows(Execute(w, commands[0]).1, creator, commands[1..]);
    }
  }

  /** Where nobody administers, an account none of whose transactions is kept
      keeps its row and its signatories over the whole run. */
  lemma {:induction false} OnlyOwnerChanges(w: Wsv, txs: seq<Transaction>, id: string)
    requires AccountRows(w) && Nobody(w, Administers) && id in w.accounts
    requires forall tx :: tx in Filter(w, txs).0 ==> tx.creatorAccountId != id
    ensures SameAccount(w, Filter(w, txs).1, id)
  {
    if txs != [] {
      var front, last := txs[..|txs| - 1], txs[|txs| - 1];
      KeptFront(w, txs);
      OnlyOwnerChanges(w, front, id);
      NoEscalation(w, front, Administers);
      var before := Filter(w, front).1;
      if CheckTransaction(before, last).0 {
        RunTouches(before, before.accounts[last.creatorAccountId], last.commands, id);
      }
    }
  }

  // ---- balances are spent only by their owners ----

  /** What a command of somebody else brings to a wallet, */
  function Credited(w: Wsv, c: Command, id: string, asset: string): nat {
    if (c.AddAssetQuantity? && c.accountId == id && c.assetId == asset)
       || (c.TransferAsset? && c.destAccountId == id && c.assetId == asset)
    then Joint(w, asset, c.amount) else 0
  }

  /** and what an issue that wraps the wallet takes away again. */
  function Taken(w: Wsv, c: Command, id: string, asset: string): nat {
    if Wraps(w, c) && c.accountId == id && c.assetId == asset then TWO_64 else 0
  }

  lemma CommandCredits(w: Wsv, creator: Account, c: Command, id: string, asset: string)
    requires BalancesOk(w) && Validate(w, creator, c) && Execute(w, c).0 && creator.accountId != id
    ensures Balance(Execute(w, c).1, id, asset) ==
      Balance(w, id, asset) + Credited(w, c, id, asset) - Taken(w, c, id, asset)
  {
    if c.TransferAsset? {
      TransferIsExact(w, creator, c);
    } else if c.AddAssetQuantity? {
      AddIsExact(w, c);
    } else {
      OthersKeepBalances(w, c);
    }
  }

  function CreditedBy(w: Wsv, commands: seq<Command>, id: string, asset: string): nat
    decreases commands
  {
    if commands == [] then 0
    else Credited(w, commands[0], id, asset) + CreditedBy(Execute(w, commands[0]).1, commands[1..], id, asset)
  }

  function TakenBy(w: Wsv, commands: seq<Command>, id: string, asset: string): nat
    decreases commands
  {
    if commands == [] then 0
    else Taken(w, commands[0], id, asset) + TakenBy(Execute(w, commands[0]).1, commands[1..], id, asset)
  }

  /** No issue to the wallet wraps it at its turn. */
  predicate NoIssueWrapsTo(w: Wsv, commands: seq<Command>, id: string, asset: string)
    decreases commands
  {
    commands == [] ||
    (!(Wraps(w, commands[0]) && commands[0].accountId == id && commands[0].assetId == asset)
     && NoIssueWrapsTo(Execute(w, commands[0]).1, commands[1..], id, asset))
  }

  /** No command makes the wallet fall. */
  predicate NeverFalls(w: Wsv, commands: seq<Command>, id: string, asset: string)
    decreases commands
  {
    commands == [] ||
    var next := Execute(w, commands[0]).1;
    Balance(next, id, asset) >= Balance(w, id, asset) && NeverFalls(next, commands[1..], id, asset)
  }

  lemma {:induction false} NothingTakenIff(w: Wsv, commands: seq<Command>, id: string, asset: string)
    ensures TakenBy(w, commands, id, asset) == 0 <==> NoIssueWrapsTo(w, commands, id, asset)
    decreases commands
  {
    if commands != [] {
      NothingTakenIff(Execute(w, commands[0]).1, commands[1..], id, asset);
    }
  }

  lemma {:induction false} RunCredits(w: Wsv, creator: Account, commands: seq<Command>, id: string, asset: string)
    requires BalancesOk(w) && RunCommands(w, creator, commands).0 && creator.accountId != id
    ensures Balance(RunCommands(w, creator, commands).1, id, asset) ==
      Balance(w, id, asset) + CreditedBy(w, commands, id, asset) - TakenBy(w, commands, id, asset)
    ensures NeverFalls(w, commands, id, asset) <==> NoIssueWrapsTo(w, commands, id, asset)
    decreases commands
  {
    if commands != [] {
      BalancesStayOk(w, commands[0]);
      CommandCredits(w, creator, commands[0], id, asset);
      RunCredits(Execute(w, commands[0]).1, creator, commands[1..], id, asset);
    }
  }

  lemma {:induction false} CreditAppend(w: Wsv, first: seq<Command>, second: seq<Command>, id: string, asset: string)
    requires ExecuteAll(w, first).0
    ensures var middle, all := ExecuteAll(w, first).1, first + second;
      && CreditedBy(w, all, id, asset) == CreditedBy(w, first, id, asset) + CreditedBy(middle, second, id, asset)
      && TakenBy(w, all, id, asset) == TakenBy(w, first, id, asset) + TakenBy(middle, second, id, asset)
      && (NeverFalls(w, all, id, asset) <==> NeverFalls(w, first, id, asset) && NeverFalls(middle, second, id, asset))
    decreases first
  {
    if first == [] {
      assert first + second == second;
    } else {
      assert (first + second)[1..] == first[1..] + second;
      CreditAppend(Execute(w, first[0]).1, first[1..], second, id, asset);
    }
  }

  /** Over a run that keeps none of its transactions, an account's balance changes by
      what it is credited, minus 2^64 for each issue that wraps it, whoever administers. */
  lemma {:induction false} OthersCredit(w: Wsv, txs: seq<Transaction>, id: string, asset: string)
    requires AccountRows(w) && BalancesOk(w)
    requires forall tx :: tx in Filter(w, txs).0 ==> tx.creatorAccountId != id
    ensures var commands := CommandsOf(Filter(w, txs).0);
      && Balance(Filter(w, txs).1, id, asset) ==
           Balance(w, id, asset) + CreditedBy(w, commands, id, asset) - TakenBy(w, commands, id, asset)
      && (NeverFalls(w, commands, id, asset) <==> TakenBy(w, commands, id, asset) == 0)
  {
    if txs != [] {
      var front, last := txs[..|txs| - 1], txs[|txs| - 1];
      var (kept, before) := Filter(w, front);
      KeptFront(w, txs);
      FilterKeepsAccountRows(w, front);
      OthersCredit(w, front, id, asset);
      Conserved(w, front, asset);
      KeptCommands(w, txs);
      if CheckTransaction(before, last).0 {
        RunCredits(before, before.accounts[last.creatorAccountId], last.commands, id, asset);
        NothingTakenIff(before, last.commands, id, asset);
        CreditAppend(w, CommandsOf(kept), last.commands, id, asset);
      }
    }
  }

  /** Only the owner spends, exactly as long as no issue wraps: an account none of
      whose transactions is kept sees its balance fall at no command if and only if
      no issue to it wraps at its turn, and then ends with no less than it had. */
  lemma OnlyOwnerSpends(w: Wsv, txs: seq<Transaction>, id: string, asset: string)
    requires AccountRows(w) && BalancesOk(w)
    requires forall tx :: tx in Filter(w, txs).0 ==> tx.creatorAccountId != id
    ensures var commands := CommandsOf(Filter(w, txs).0);
      && (NeverFalls(w, commands, id, asset) <==> NoIssueWrapsTo(w, commands, id, asset))
      && (NoIssueWrapsTo(w, commands, id, asset) ==> Balance(Filter(w, txs).1, id, asset) >= Balance(w, id, asset))
  {
    OthersCredit(w, txs, id, asset);
    NothingTakenIff(w, CommandsOf(Filter(w, txs).0), id, asset);
  }

  lemma {:induction false} WrapsToIsWraps(w: Wsv, commands: seq<Command>, id: string, asset: string)
    requires NoIssueWraps(w, commands, asset)
    ensures NoIssueWrapsTo(w, commands, id, asset)
    decreases commands
  {
    if commands != [] {
      WrapsToIsWraps(Execute(w, commands[0]).1, commands[1..], id, asset);
    }
  }

  /** At a safe precision, therefore, only the owner spends. */
  lemma SafePrecisionKeepsBalance(w: Wsv, txs: seq<Transaction>, id: string, asset: string)
    requires AccountRows(w) && BalancesOk(w) && SafeAsset(Filter(w, txs).1, asset)
    requires forall tx :: tx in Filter(w, txs).0 ==> tx.creatorAccountId != id
    ensures NeverFalls(w, CommandsOf(Filter(w, txs).0), id, asset)
    ensures Balance(Filter(w, txs).1, id, asset) >= Balance(w, id, asset)
  {
    SafePrecisionConserves(w, txs, asset);
    WrapsToIsWraps(w, CommandsOf(Filter(w, txs).0), id, asset);
    OnlyOwnerSpends(w, txs, id, asset);
  }

  /** At precision 12 an issuer empties somebody else's wallet by adding one unit to it. */
  lemma IssueEmptiesWallet() returns (w: Wsv, tx: Transaction, id: string, asset: string)
    ensures AccountRows(w) && BalancesOk(w) && Filter(w, [tx]).0 == [tx] && tx.creatorAccountId != id
    ensures Balance(w, id, asset) > 0 && Balance(Filter(w, [tx]).1, id, asset) == 0
  {
    var issuer := Account("a@d", "d", NO_PERMISSIONS.(issueAssets := true), 1, "key");
    id, asset := "b@d", "coin#d";
    w := Wsv({"d"}, {"key"}, map["a@d" := issuer, id := Account(id, "d", NO_PERMISSIONS, 1, "key")],
             {("a@d", "key"), (id, "key")}, map[],
             map[asset := Asset(asset, "d", 12)], map[(id, asset) := 727_379_968]);
    var c := AddAssetQuantity(id, asset, Amount(1, 0));
    tx := Transaction([Signature("s", "key")], "a@d", [c]);
    LargeScales();
    assert Execute(w, c).0 && Balance(Execute(w, c).1, id, asset) == 0;
    assert [c][1..] == [] && RunCommands(w, issuer, [c]) == (true, Execute(w, c).1);
    assert [tx][..0] == [] && Filter(w, []) == ([], w);
  }

  // ---- without a right, no effect ----

  /** What a state allows to be created. */
  ghost predicate SameTables(w: Wsv, after: Wsv, creator: Permissions) {
    && (!creator.createDomains ==> after.domains == w.domains)
    && (!creator.createAssets ==> after.assets == w.assets)
    && (!creator.createAccounts ==> after.accounts.Keys == w.accounts.Keys && after.signatories == w.signatories)
    && (!creator.issueAssets && !creator.canTransfer ==> after.balances == w.balances)
  }

  lemma CommandNeedsRight(w: Wsv, creator: Account, c: Command)
    requires AccountRows(w) && Validate(w, creator, c) && Execute(w, c).0
    ensures SameTables(w, Execute(w, c).1, creator.permissions)
    ensures !creator.permissions.issueAssets ==> forall asset :: Issued(w, c, asset) == 0
  {}

  lemma {:induction false} RunNeedsRight(w: Wsv, creator: Account, commands: seq<Command>, asset: string)
    requires AccountRows(w) && RunCommands(w, creator, commands).0
    ensures SameTables(w, RunCommands(w, creator, commands).1, creator.permissions)
    ensures !creator.permissions.issueAssets ==> IssuedBy(w, commands, asset) == 0
    decreases commands
  {
    if commands != [] {
      KeepsAccountRows(w, commands[0]);
      CommandNeedsRight(w, creator, commands[0]);
      RunNeedsRight(Execute(w, commands[0]).1, creator, commands[1..], asset);
    }
  }

  /** No money from nothing: where nobody may issue assets or set permissions, no
      run of the validator increases the total of any asset. */
  lemma {:induction false} NobodyIssues(w: Wsv, txs: seq<Transaction>, asset: string)
    requires AccountRows(w) && BalancesOk(w)
    requires Nobody(w, SetsPermissions) && Nobody(w, Issues)
    ensures BalancesOk(Filter(w, txs).1)
    ensures Total(Filter(w, txs).1.balances, asset) <= Total(w.balances, asset)
  {
    if txs != [] {
      var front, last := txs[..|txs| - 1], txs[|txs| - 1];
      var before := Filter(w, front).1;
      NobodyIssues(w, front, asset);
      NoEscalation(w, front, Issues);
      if CheckTransaction(before, last).0 {
        var creator := before.accounts[last.creatorAccountId];
        RunNeedsRight(before, creator, last.commands, asset);
        RunFlow(before, creator, last.commands, asset);
      }
    }
  }

  /** The rights that create domains, assets and accounts. */
  predicate Creates(p: Permissions) {
    p.createDomains || p.createAssets || p.createAccounts
  }

  /** Where nobody may create anything or set permissions, no run adds a domain, an asset, an account or a key. */
  lemma {:induction false} NobodyCreates(w: Wsv, txs: seq<Transaction>)
    requires AccountRows(w) && Nobody(w, SetsPermissions) && Nobody(w, Creates)
    ensures var after := Filter(w, txs).1;
      && after.domains == w.domains && after.assets == w.assets
      && after.accounts.Keys == w.accounts.Keys && after.signatories == w.signatories
  {
    if txs != [] {
      var front, last := txs[..|txs| - 1], txs[|txs| - 1];
      NobodyCreates(w, front);
      NoEscalation(w, front, Creates);
      var before := Filter(w, front).1;
      if CheckTransaction(before, last).0 {
        RunNeedsRight(before, before.accounts[last.creatorAccountId], last.commands, "");
      }
    }
  }
}
