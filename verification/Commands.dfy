/** The eleven ledger commands: stateful validation
    (stateful_command_validation.cpp) and execution (command_execution.cpp). */
module Commands {
  import opened Wrappers
  import opened FixedPoint
  import opened WorldState

  datatype Command =
    | AddAssetQuantity(accountId: string, assetId: string, amount: Amount)
    | AddPeer(peerKey: string, address: string)
    | AddSignatory(accountId: string, pubkey: string)
    | AssignMasterKey(accountId: string, pubkey: string)
    | CreateAccount(accountName: string, domainId: string, pubkey: string)
    | CreateAsset(assetName: string, domainId: string, precision: nat)
    | CreateDomain(domainName: string)
    | RemoveSignatory(accountId: string, pubkey: string)
    | SetAccountPermissions(accountId: string, newPermissions: Permissions)
    | SetQuorum(accountId: string, newQuorum: nat)
    | TransferAsset(srcAccountId: string, destAccountId: string, assetId: string, amount: Amount)

  predicate IsAlnum(c: char) {
    '0' <= c <= '9' || 'A' <= c <= 'Z' || 'a' <= c <= 'z'
  }

  predicate ValidName(name: string, limit: nat) {
    0 < |name| < limit && forall c :: c in name ==> IsAlnum(c)
  }

  predicate Positive(a: Amount) {
    a.intPart > 0 || a.fracPart > 0
  }

  /** Command::validate for a command of `creator`, whose account was read when the transaction started. */
  predicate Validate(w: Wsv, creator: Account, c: Command) {
    match c
    case AddAssetQuantity(_, _, amount) =>
      Positive(amount) && amount.intPart < TWO_32 - 1 && creator.permissions.issueAssets
    case AddPeer(_, _) => true
    case AddSignatory(accountId, _) =>
      accountId == creator.accountId || creator.permissions.addSignatory
    case AssignMasterKey(accountId, pubkey) =>
      (creator.accountId == accountId || creator.permissions.addSignatory)
      && accountId in w.accounts && w.accounts[accountId].masterKey != pubkey
      && (accountId, pubkey) in w.accountSignatories
    case CreateAccount(accountName, _, _) =>
      creator.permissions.createAccounts && ValidName(accountName, 8)
    case CreateAsset(assetName, _, _) =>
      creator.permissions.createAssets && ValidName(assetName, 10)
    case CreateDomain(domainName) =>
      creator.permissions.createDomains && ValidName(domainName, 10)
    case RemoveSignatory(accountId, pubkey) =>
      (creator.accountId == accountId || creator.permissions.removeSignatory)
      && accountId in w.accounts && pubkey != w.accounts[accountId].masterKey
    case SetAccountPermissions(_, _) => creator.permissions.setPermissions
    case SetQuorum(accountId, newQuorum) =>
      0 < newQuorum < 10 && (creator.accountId == accountId || creator.permissions.setQuorum)
    case TransferAsset(src, dest, assetId, amount) =>
      creator.permissions.canTransfer && creator.accountId == src && Positive(amount)
      && assetId in w.assets && Digits(amount.fracPart) <= w.assets[assetId].precision
      && (src, assetId) in w.balances && dest in w.accounts
      && w.balances[(src, assetId)] >= JointAmount(amount, w.assets[assetId].precision)
  }

  /** One statement: whether it succeeded, and the tables after it. */
  function Attempt(w: Wsv, statement: Option<Wsv>): (bool, Wsv) {
    match statement
    case None => (false, w)
    case Some(after) => (true, after)
  }

  function Balance(w: Wsv, accountId: string, assetId: string): nat {
    if (accountId, assetId) in w.balances then w.balances[(accountId, assetId)] else 0
  }

  function ExecuteAdd(w: Wsv, accountId: string, assetId: string, amount: Amount): (bool, Wsv) {
    if assetId !in w.assets || Digits(amount.fracPart) > w.assets[assetId].precision || accountId !in w.accounts
    then (false, w)
    else
      var joint := JointAmount(amount, w.assets[assetId].precision);
      Attempt(w, UpsertAccountAsset(w, accountId, assetId, (Balance(w, accountId, assetId) + joint) % TWO_64))
  }

  function ExecuteCreateAccount(w: Wsv, accountName: string, domainId: string, pubkey: string): (bool, Wsv) {
    var account := Account(accountName + "@" + domainId, domainId, NO_PERMISSIONS, 1, pubkey);
    var (ok1, w1) := Attempt(w, InsertSignatory(w, pubkey));
    if !ok1 then (false, w1) else
    var (ok2, w2) := Attempt(w1, InsertAccount(w1, account));
    if !ok2 then (false, w2) else
    Attempt(w2, InsertAccountSignatory(w2, account.accountId, pubkey))
  }

  /** Both new balances are computed first; the destination row is written before the source row. */
  function ExecuteTransfer(w: Wsv, src: string, dest: string, assetId: string, amount: Amount): (bool, Wsv) {
    if (src, assetId) !in w.balances || assetId !in w.assets || Digits(amount.fracPart) > w.assets[assetId].precision
    then (false, w)
    else
      var joint := JointAmount(amount, w.assets[assetId].precision);
      var srcBalance := (w.balances[(src, assetId)] - joint) % TWO_64;
      var destBalance := (Balance(w, dest, assetId) + joint) % TWO_64;
      var (ok, w1) := Attempt(w, UpsertAccountAsset(w, dest, assetId, destBalance));
      if !ok then (false, w1) else Attempt(w1, UpsertAccountAsset(w1, src, assetId, srcBalance))
  }

  /** Command::execute: whether it succeeded, and the tables after it. A failure can leave earlier writes behind. */
  function Execute(w: Wsv, c: Command): (bool, Wsv) {
    match c
    case AddAssetQuantity(accountId, assetId, amount) => ExecuteAdd(w, accountId, assetId, amount)
    case AddPeer(peerKey, address) => Attempt(w, InsertPeer(w, peerKey, address))
    case AddSignatory(accountId, pubkey) => Attempt(w, InsertAccountSignatory(w, accountId, pubkey))
    case AssignMasterKey(accountId, pubkey) =>
      if accountId !in w.accounts then (false, w)
      else Attempt(w, UpdateAccount(w, w.accounts[accountId].(masterKey := pubkey)))
    case CreateAccount(accountName, domainId, pubkey) => ExecuteCreateAccount(w, accountName, domainId, pubkey)
    case CreateAsset(assetName, domainId, precision) =>
      Attempt(w, InsertAsset(w, Asset(assetName + "#" + domainId, domainId, precision)))
    case CreateDomain(domainName) => Attempt(w, InsertDomain(w, domainName))
    case RemoveSignatory(accountId, pubkey) => Attempt(w, DeleteAccountSignatory(w, accountId, pubkey))
    case SetAccountPermissions(accountId, newPermissions) =>
      if accountId !in w.accounts then (false, w)
      else Attempt(w, UpdateAccount(w, w.accounts[accountId].(permissions := newPermissions)))
    case SetQuorum(accountId, newQuorum) =>
      if accountId !in w.accounts then (false, w)
      else Attempt(w, UpdateAccount(w, w.accounts[accountId].(quorum := newQuorum)))
    case TransferAsset(src, dest, assetId, amount) => ExecuteTransfer(w, src, dest, assetId, amount)
  }
}
