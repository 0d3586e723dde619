/** Supply of an asset: what validated transactions do to the sum of all its balances. */
module Conservation {
  import opened FixedPoint
  import opened WorldState
  import opened Commands
  import opened Validator

  type Balances = map<(string, string), nat>

  ghost function Share(key: (string, string), balance: nat, asset: string): nat {
    if key.1 == asset then balance else 0
  }

  /** The total of one asset over all accounts. */
  ghost function Total(m: Balances, asset: string): nat {
    if m == map[] then 0
    else
      var key :| key in m;
      Share(key, m[key], asset) + Total(m - {key}, asset)
  }

  lemma {:induction false} TotalWithout(m: Balances, key: (string, string), asset: string)
    requires key in m
    ensures Total(m, asset) == Share(key, m[key], asset) + Total(m - {key}, asset)
    decreases |m|
  {
    var first :| first in m && Total(m, asset) == Share(first, m[first], asset) + Total(m - {first}, asset);
    if first != key {
      TotalWithout(m - {first}, key, asset);
      TotalWithout(m - {key}, first, asset);
      assert m - {first} - {key} == m - {key} - {first};
    }
  }

  lemma TotalAfterWrite(m: Balances, key: (string, string), balance: nat, asset: string)
    ensures Total(m[key := balance], asset) ==
      Total(m, asset) - (if key in m then Share(key, m[key], asset) else 0) + Share(key, balance, asset)
  {
    TotalWithout(m[key := balance], key, asset);
    assert m[key := balance] - {key} == m - {key};
    if key in m {
      TotalWithout(m, key, asset);
    } else {
      assert m - {key} == m;
    }
  }

  /** Every stored balance fits the signed column. */
  ghost predicate BalancesOk(w: Wsv) {
    forall key :: key in w.balances ==> w.balances[key] < TWO_63
  }

  ghost predicate SafeAsset(w: Wsv, asset: string) {
    asset in w.assets ==> SafePrecision(w.assets[asset].precision)
  }

  function Joint(w: Wsv, asset: string, amount: Amount): nat {
    if asset in w.assets then JointAmount(amount, w.assets[asset].precision) else 0
  }

  /** What a command creates of an asset, and what it destroys. */
  function Issued(w: Wsv, c: Command, asset: string): nat {
    if c.AddAssetQuantity? && c.assetId == asset then Joint(w, asset, c.amount) else 0
  }

  function Burned(w: Wsv, c: Command, asset: string): nat {
    if c.TransferAsset? && c.assetId == asset && c.srcAccountId == c.destAccountId then Joint(w, asset, c.amount) else 0
  }

  /** An issue whose new balance wraps around 2^64. */
  predicate Wraps(w: Wsv, c: Command) {
    c.AddAssetQuantity? && Balance(w, c.accountId, c.assetId) + Joint(w, c.assetId, c.amount) >= TWO_64
  }

  /** What a wrapping issue takes away again. */
  function Lost(w: Wsv, c: Command, asset: string): nat {
    if Wraps(w, c) && c.assetId == asset then TWO_64 else 0
  }

  /** A validated transfer moves exactly its joint amount: neither the subtraction
      nor the addition wraps, and no other balance changes. */
  lemma TransferIsExact(w: Wsv, creator: Account, c: Command)
    requires BalancesOk(w) && c.TransferAsset? && Validate(w, creator, c) && Execute(w, c).0
    ensures var joint := Joint(w, c.assetId, c.amount);
      var src, dest := (c.srcAccountId, c.assetId), (c.destAccountId, c.assetId);
      && joint <= w.balances[src] && Balance(w, c.destAccountId, c.assetId) + joint < TWO_63
      && Execute(w, c).1 ==
           w.(balances := w.balances[dest := Balance(w, c.destAccountId, c.assetId) + joint]
                                    [src := w.balances[src] - joint])
  {
    var joint := Joint(w, c.assetId, c.amount);
    NoWrap(w.balances[(c.srcAccountId, c.assetId)] - joint);
    NoWrap(Balance(w, c.destAccountId, c.assetId) + joint);
  }

  /** What the source account pays is the true value of the amount exactly if that
      fits 64 bits and the scale did not overflow or was not used. */
  lemma TransferPaysValueIff(w: Wsv, creator: Account, c: Command)
    requires BalancesOk(w) && c.TransferAsset? && Validate(w, creator, c) && Execute(w, c).0
    ensures var p, src := w.assets[c.assetId].precision, (c.srcAccountId, c.assetId);
      var value := c.amount.intPart * Pow(10, p) + c.amount.fracPart;
      w.balances[src] - Execute(w, c).1.balances[src] == value <==> value < TWO_64 && (p <= 9 || c.amount.intPart == 0)
  {
    TransferIsExact(w, creator, c);
    JointIsValueIff(c.amount, w.assets[c.assetId].precision);
  }

  /** A validated transfer of 2^63 units that pays nothing. */
  lemma WrappedTransferExample() returns (w: Wsv, creator: Account, c: Command)
    ensures BalancesOk(w) && c.TransferAsset? && c.srcAccountId != c.destAccountId && c.amount.intPart == TWO_63
    ensures Validate(w, creator, c) && Execute(w, c).0
    ensures forall id, asset :: Balance(Execute(w, c).1, id, asset) == Balance(w, id, asset)
  {
    creator := Account("a@d", "d", NO_PERMISSIONS.(canTransfer := true), 1, "key");
    w := Wsv({"d"}, {"key"}, map["a@d" := creator, "b@d" := creator.(accountId := "b@d")],
             {("a@d", "key"), ("b@d", "key")}, map[],
             map["coin#d" := Asset("coin#d", "d", 1)], map[("a@d", "coin#d") := 5]);
    c := TransferAsset("a@d", "b@d", "coin#d", Amount(TWO_63, 0));
    assert JointAmount(Amount(TWO_63, 0), 1) == 0 by { SmallPowers(1); assert Pow(10, 1) == 10; }
    TransferIsExact(w, creator, c);
  }

  lemma SumWraps(balance: nat, joint: nat)
    requires balance < TWO_63 && joint < TWO_64
    ensures (balance + joint) % TWO_64 == balance + joint - if balance + joint >= TWO_64 then TWO_64 else 0
  {}

  /** An issue that succeeds, whatever the precision, adds exactly its joint amount
      if and only if the sum stays below 2^64, and changes no other balance. */
  lemma AddIsExact(w: Wsv, c: Command)
    requires BalancesOk(w) && c.AddAssetQuantity? && Execute(w, c).0
    ensures var sum := Balance(w, c.accountId, c.assetId) + Joint(w, c.assetId, c.amount);
      var key := (c.accountId, c.assetId);
      && Execute(w, c).1 == w.(balances := w.balances[key := sum - Lost(w, c, c.assetId)])
      && (Execute(w, c).1.balances[key] == sum <==> sum < TWO_64)
  {
    SumWraps(Balance(w, c.accountId, c.assetId), Joint(w, c.assetId, c.amount));
  }

  /** At a safe precision a validated issue never wraps. */
  lemma SafeIssue(w: Wsv, creator: Account, c: Command)
    requires BalancesOk(w) && c.AddAssetQuantity? && SafeAsset(w, c.assetId)
    requires Validate(w, creator, c) && Execute(w, c).0
    ensures !Wraps(w, c)
  {
    SafeJoint(c.amount, w.assets[c.assetId].precision);
  }

  lemma OthersKeepBalances(w: Wsv, c: Command)
    requires !c.TransferAsset? && !c.AddAssetQuantity?
    ensures Execute(w, c).1.balances == w.balances
  {}

  /** An issue whose scale overflowed still stores only balances that fit. */
  lemma BalancesStayOk(w: Wsv, c: Command)
    requires BalancesOk(w)
    ensures BalancesOk(Execute(w, c).1)
  {
    if !c.TransferAsset? && !c.AddAssetQuantity? {
      OthersKeepBalances(w, c);
    }
  }

  lemma TransferFlow(w: Wsv, creator: Account, c: Command, asset: string)
    requires BalancesOk(w) && c.TransferAsset? && Validate(w, creator, c) && Execute(w, c).0
    ensures Total(Execute(w, c).1.balances, asset) == Total(w.balances, asset) - Burned(w, c, asset)
  {
    TransferIsExact(w, creator, c);
    var joint := Joint(w, c.assetId, c.amount);
    var src, dest := (c.srcAccountId, c.assetId), (c.destAccountId, c.assetId);
    var received := Balance(w, c.destAccountId, c.assetId) + joint;
    TotalAfterWrite(w.balances, dest, received, asset);
    TotalAfterWrite(w.balances[dest := received], src, w.balances[src] - joint, asset);
  }

  lemma AddFlow(w: Wsv, c: Command, asset: string)
    requires BalancesOk(w) && c.AddAssetQuantity? && Execute(w, c).0
    ensures Total(Execute(w, c).1.balances, asset) == Total(w.balances, asset) + Issued(w, c, asset) - Lost(w, c, asset)
  {
    AddIsExact(w, c);
    var key := (c.accountId, c.assetId);
    TotalAfterWrite(w.balances, key, Execute(w, c).1.balances[key], asset);
  }

  /** The exact condition for a single issue: it raises the total by its joint
      amount unless it wraps the balance it is added to. */
  lemma AddFlowIff(w: Wsv, c: Command)
    requires BalancesOk(w) && c.AddAssetQuantity? && Execute(w, c).0
    ensures Total(Execute(w, c).1.balances, c.assetId) == Total(w.balances, c.assetId) + Joint(w, c.assetId, c.amount)
      <==> Balance(w, c.accountId, c.assetId) + Joint(w, c.assetId, c.amount) < TWO_64
  {
    AddFlow(w, c, c.assetId);
  }

  /** At precision 12 the scale is negative: issuing one unit destroys all there is. */
  lemma WrappedIssueExample() returns (w: Wsv, creator: Account, c: Command)
    ensures BalancesOk(w) && c.AddAssetQuantity? && c.amount == Amount(1, 0)
    ensures Validate(w, creator, c) && Execute(w, c).0
    ensures Total(w.balances, c.assetId) > 0 && Total(Execute(w, c).1.balances, c.assetId) == 0
  {
    creator := Account("a@d", "d", NO_PERMISSIONS.(issueAssets := true), 1, "key");
    w := Wsv({"d"}, {"key"}, map["a@d" := creator], {("a@d", "key")}, map[],
             map["coin#d" := Asset("coin#d", "d", 12)], map[("a@d", "coin#d") := 727_379_968]);
    c := AddAssetQuantity("a@d", "coin#d", Amount(1, 0));
    LargeScales();
    AddFlow(w, c, "coin#d");
    TotalWithout(w.balances, ("a@d", "coin#d"), "coin#d");
    assert w.balances - {("a@d", "coin#d")} == map[];
  }

  /** Any validated command changes an asset's total by what it issues, minus what
      a self-transfer burns, minus 2^64 where an issue wraps. */
  lemma CommandFlow(w: Wsv, creator: Account, c: Command, asset: string)
    requires BalancesOk(w) && Validate(w, creator, c) && Execute(w, c).0
    ensures Total(Execute(w, c).1.balances, asset) ==
      Total(w.balances, asset) + Issued(w, c, asset) - Burned(w, c, asset) - Lost(w, c, asset)
  {
    if c.TransferAsset? {
      TransferFlow(w, creator, c, asset);
    } else if c.AddAssetQuantity? {
      AddFlow(w, c, asset);
    } else {
      OthersKeepBalances(w, c);
    }
  }

  /** The exact condition for a single transfer: it conserves the asset unless it
      pays to its own source, where the source row, written last, loses the amount. */
  lemma TransferConservesIff(w: Wsv, creator: Account, c: Command)
    requires BalancesOk(w) && c.TransferAsset? && Validate(w, creator, c) && Execute(w, c).0
    ensures Total(Execute(w, c).1.balances, c.assetId) == Total(w.balances, c.assetId)
      <==> c.srcAccountId != c.destAccountId || Joint(w, c.assetId, c.amount) == 0
  {
    TransferFlow(w, creator, c, c.assetId);
  }

  /** A concrete ledger with one wallet, whose owner pays the whole balance to itself. */
  lemma SelfTransferExample() returns (w: Wsv, creator: Account, c: Command)
    ensures BalancesOk(w) && Validate(w, creator, c) && Execute(w, c).0
    ensures Total(Execute(w, c).1.balances, "coin#d") != Total(w.balances, "coin#d")
  {
    creator := Account("a@d", "d", NO_PERMISSIONS.(canTransfer := true), 1, "key");
    w := Wsv({"d"}, {"key"}, map["a@d" := creator], {("a@d", "key")}, map[],
             map["coin#d" := Asset("coin#d", "d", 1)], map[("a@d", "coin#d") := 5]);
    c := TransferAsset("a@d", "a@d", "coin#d", Amount(0, 5));
    assert JointAmount(Amount(0, 5), 1) == 5 by { SmallPowers(1); }
    TransferConservesIff(w, creator, c);
  }

  // ---- assets never change once created ----

  ghost predicate KeepsAssets(w: Wsv, after: Wsv) {
    forall a :: a in w.assets ==> a in after.assets && after.assets[a] == w.assets[a]
  }

  lemma ExecuteKeepsAssets(w: Wsv, c: Command)
    ensures KeepsAssets(w, Execute(w, c).1)
  {}

  lemma {:induction false} RunKeepsAssets(w: Wsv, creator: Account, commands: seq<Command>)
    ensures KeepsAssets(w, RunCommands(w, creator, commands).1)
    decreases commands
  {
    if commands != [] {
      ExecuteKeepsAssets(w, commands[0]);
      RunKeepsAssets(Execute(w, commands[0]).1, creator, commands[1..]);
    }
  }

  // ---- runs ----

  /** The amount issued, and the amount burned, by commands executed in order. */
  function IssuedBy(w: Wsv, commands: seq<Command>, asset: string): nat
    decreases commands
  {
    if commands == [] then 0
    else Issued(w, commands[0], asset) + IssuedBy(Execute(w, commands[0]).1, commands[1..], asset)
  }

  function BurnedBy(w: Wsv, commands: seq<Command>, asset: string): nat
    decreases commands
  {
    if commands == [] then 0
    else Burned(w, commands[0], asset) + BurnedBy(Execute(w, commands[0]).1, commands[1..], asset)
  }

  function LostBy(w: Wsv, commands: seq<Command>, asset: string): nat
    decreases commands
  {
    if commands == [] then 0
    else Lost(w, commands[0], asset) + LostBy(Execute(w, commands[0]).1, commands[1..], asset)
  }

  /** No issue of the asset wraps a balance at its turn. */
  predicate NoIssueWraps(w: Wsv, commands: seq<Command>, asset: string)
    decreases commands
  {
    commands == [] ||
    (!(Wraps(w, commands[0]) && commands[0].assetId == asset)
     && NoIssueWraps(Execute(w, commands[0]).1, commands[1..], asset))
  }

  lemma {:induction false} NothingLostIff(w: Wsv, commands: seq<Command>, asset: string)
    ensures LostBy(w, commands, asset) == 0 <==> NoIssueWraps(w, commands, asset)
    decreases commands
  {
    if commands != [] {
      NothingLostIff(Execute(w, commands[0]).1, commands[1..], asset);
    }
  }

  lemma {:induction false} RunFlow(w: Wsv, creator: Account, commands: seq<Command>, asset: string)
    requires BalancesOk(w) && RunCommands(w, creator, commands).0
    ensures var after := RunCommands(w, creator, commands).1;
      && BalancesOk(after)
      && Total(after.balances, asset) == Total(w.balances, asset)
           + IssuedBy(w, commands, asset) - BurnedBy(w, commands, asset) - LostBy(w, commands, asset)
    decreases commands
  {
    if commands != [] {
      var next := Execute(w, commands[0]).1;
      BalancesStayOk(w, commands[0]);
      CommandFlow(w, creator, commands[0], asset);
      RunFlow(next, creator, commands[1..], asset);
    }
  }

  lemma {:induction false} FlowAppend(w: Wsv, first: seq<Command>, second: seq<Command>, asset: string)
    requires ExecuteAll(w, first).0
    ensures var middle := ExecuteAll(w, first).1;
      && IssuedBy(w, first + second, asset) == IssuedBy(w, first, asset) + IssuedBy(middle, second, asset)
      && BurnedBy(w, first + second, asset) == BurnedBy(w, first, asset) + BurnedBy(middle, second, asset)
      && LostBy(w, first + second, asset) == LostBy(w, first, asset) + LostBy(middle, second, asset)
    decreases first
  {
    if first == [] {
      assert first + second == second;
    } else {
      assert (first + second)[1..] == first[1..] + second;
      FlowAppend(Execute(w, first[0]).1, first[1..], second, asset);
    }
  }

  /** Conservation: over every run of the validator, an asset's total changes by what
      the kept transactions issue, minus what their self-transfers burn, minus 2^64
      for each issue that wraps at its turn. */
  lemma {:induction false} Conserved(w: Wsv, txs: seq<Transaction>, asset: string)
    requires BalancesOk(w)
    ensures var (kept, after) := Filter(w, txs);
      var commands := CommandsOf(kept);
      && BalancesOk(after)
      && Total(after.balances, asset) == Total(w.balances, asset)
           + IssuedBy(w, commands, asset) - BurnedBy(w, commands, asset) - LostBy(w, commands, asset)
  {
    if txs != [] {
      var front, last := txs[..|txs| - 1], txs[|txs| - 1];
      var (kept, before) := Filter(w, front);
      Conserved(w, front, asset);
      KeptCommands(w, txs);
      if CheckTransaction(before, last).0 {
        RunFlow(before, before.accounts[last.creatorAccountId], last.commands, asset);
        FlowAppend(w, CommandsOf(kept), last.commands, asset);
      }
    }
  }

  /** So the total changes by issues and burns alone if and only if no issue wraps. */
  lemma ConservedIff(w: Wsv, txs: seq<Transaction>, asset: string)
    requires BalancesOk(w)
    ensures var (kept, after) := Filter(w, txs);
      var commands := CommandsOf(kept);
      Total(after.balances, asset) ==
        Total(w.balances, asset) + IssuedBy(w, commands, asset) - BurnedBy(w, commands, asset)
      <==> NoIssueWraps(w, commands, asset)
  {
    Conserved(w, txs, asset);
    NothingLostIff(w, CommandsOf(Filter(w, txs).0), asset);
  }

  predicate SelfTransfer(c: Command, asset: string) {
    c.TransferAsset? && c.assetId == asset && c.srcAccountId == c.destAccountId
  }

  lemma {:induction false} NothingBurned(w: Wsv, commands: seq<Command>, asset: string)
    requires forall c :: c in commands ==> !SelfTransfer(c, asset)
    ensures BurnedBy(w, commands, asset) == 0
    decreases commands
  {
    if commands != [] {
      assert !SelfTransfer(commands[0], asset);
      NothingBurned(Execute(w, commands[0]).1, commands[1..], asset);
    }
  }

  /** An asset's total grows by exactly what was issued if and only if nothing is
      burned and no issue wraps; without self-transfers nothing is burned. */
  lemma OnlyIssueChangesTotal(w: Wsv, txs: seq<Transaction>, asset: string)
    requires BalancesOk(w)
    ensures var commands := CommandsOf(Filter(w, txs).0);
      && (Total(Filter(w, txs).1.balances, asset) == Total(w.balances, asset) + IssuedBy(w, commands, asset)
          <==> BurnedBy(w, commands, asset) == 0 && NoIssueWraps(w, commands, asset))
      && ((forall c :: c in commands ==> !SelfTransfer(c, asset)) ==> BurnedBy(w, commands, asset) == 0)
  {
    var commands := CommandsOf(Filter(w, txs).0);
    Conserved(w, txs, asset);
    NothingLostIff(w, commands, asset);
    if forall c :: c in commands ==> !SelfTransfer(c, asset) {
      NothingBurned(w, commands, asset);
    }
  }

  // ---- precisions at which no issue wraps ----

  lemma {:induction false} RunLosesNothing(w: Wsv, creator: Account, commands: seq<Command>, asset: string)
    requires BalancesOk(w) && RunCommands(w, creator, commands).0
    requires SafeAsset(RunCommands(w, creator, commands).1, asset)
    ensures LostBy(w, commands, asset) == 0
    decreases commands
  {
    if commands != [] {
      RunKeepsAssets(w, creator, commands);
      BalancesStayOk(w, commands[0]);
      if commands[0].AddAssetQuantity? && commands[0].assetId == asset {
        SafeIssue(w, creator, commands[0]);
      }
      RunLosesNothing(Execute(w, commands[0]).1, creator, commands[1..], asset);
    }
  }

  /** Of an asset with a safe precision, no run of the validator contains a wrapping issue. */
  lemma {:induction false} SafePrecisionConserves(w: Wsv, txs: seq<Transaction>, asset: string)
    requires BalancesOk(w) && SafeAsset(Filter(w, txs).1, asset)
    ensures NoIssueWraps(w, CommandsOf(Filter(w, txs).0), asset)
  {
    if txs != [] {
      var front, last := txs[..|txs| - 1], txs[|txs| - 1];
      var (kept, before) := Filter(w, front);
      Conserved(w, front, asset);
      KeptCommands(w, txs);
      if CheckTransaction(before, last).0 {
        var creator := before.accounts[last.creatorAccountId];
        RunKeepsAssets(before, creator, last.commands);
        SafePrecisionConserves(w, front, asset);
        RunLosesNothing(before, creator, last.commands, asset);
        FlowAppend(w, CommandsOf(kept), last.commands, asset);
        NothingLostIff(w, CommandsOf(kept), asset);
        NothingLostIff(w, CommandsOf(kept) + last.commands, asset);
      } else {
        SafePrecisionConserves(w, front, asset);
      }
    }
  }

  // ---- precision 0 ----

  ghost predicate SameWallets(w: Wsv, after: Wsv, asset: string) {
    forall id :: ((id, asset) in after.balances <==> (id, asset) in w.balances)
                 && ((id, asset) in w.balances ==> after.balances[(id, asset)] == w.balances[(id, asset)])
  }

  /** A fraction has at least one digit, so no amount of an asset of precision 0 is
      ever added or moved: its wallets stay as they are whatever is executed. */
  lemma {:induction false} PrecisionZeroIsFixed(w: Wsv, commands: seq<Command>, asset: string)
    requires asset in w.assets && w.assets[asset].precision == 0
    ensures SameWallets(w, ExecuteAll(w, commands).1, asset)
    decreases commands
  {
    if commands != [] {
      var c, next := commands[0], Execute(w, commands[0]).1;
      ExecuteKeepsAssets(w, c);
      if !c.TransferAsset? && !c.AddAssetQuantity? { OthersKeepBalances(w, c); }
      PrecisionZeroIsFixed(next, commands[1..], asset);
    }
  }
}
