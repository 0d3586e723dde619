/** The world state view: the tables of the ledger database (storage_impl.hpp)
    and the statements that write them (postgres_wsv_command.cpp). */
module WorldState {
  import opened Wrappers
  import opened FixedPoint

  datatype Permissions = Permissions(
    issueAssets: bool, createAssets: bool, createAccounts: bool, createDomains: bool, readAllAccounts: bool,
    addSignatory: bool, removeSignatory: bool, setPermissions: bool, setQuorum: bool, canTransfer: bool)

  const NO_PERMISSIONS := Permissions(false, false, false, false, false, false, false, false, false, false)

  datatype Account = Account(
    accountId: string, domainName: string, permissions: Permissions, quorum: nat, masterKey: string)

  datatype Asset = Asset(assetId: string, domainId: string, precision: nat)

  /** One field per table; `balances` is keyed by account and asset, `peers` maps keys to addresses. */
  datatype Wsv = Wsv(
    domains: set<string>,
    signatories: set<string>,
    accounts: map<string, Account>,
    accountSignatories: set<(string, string)>,
    peers: map<string, string>,
    assets: map<string, Asset>,
    balances: map<(string, string), nat>)

  // A statement yields the new tables, or None where the database raises an
  // error: a duplicate key, a missing reference, a value that does not fit.

  function InsertDomain(w: Wsv, id: string): Option<Wsv> {
    if id in w.domains || |id| > 164 then None else Some(w.(domains := w.domains + {id}))
  }

  function InsertSignatory(w: Wsv, key: string): Option<Wsv> {
    if key in w.signatories then None else Some(w.(signatories := w.signatories + {key}))
  }

  function InsertAccount(w: Wsv, a: Account): Option<Wsv> {
    if a.accountId in w.accounts || |a.accountId| > 197 || a.domainName !in w.domains
       || a.masterKey !in w.signatories || a.quorum >= TWO_31 then None
    else Some(w.(accounts := w.accounts[a.accountId := a]))
  }

  /** Changes the row of the account, if there is one; the domain is not written. */
  function UpdateAccount(w: Wsv, a: Account): Option<Wsv> {
    if a.accountId !in w.accounts then Some(w)
    else if a.masterKey !in w.signatories || a.quorum >= TWO_31 then None
    else
      var row := w.accounts[a.accountId].(masterKey := a.masterKey, quorum := a.quorum, permissions := a.permissions);
      Some(w.(accounts := w.accounts[a.accountId := row]))
  }

  function InsertAccountSignatory(w: Wsv, accountId: string, key: string): Option<Wsv> {
    if (accountId, key) in w.accountSignatories || accountId !in w.accounts || key !in w.signatories then None
    else Some(w.(accountSignatories := w.accountSignatories + {(accountId, key)}))
  }

  /** Deleting a row that does not exist is not an error. */
  function DeleteAccountSignatory(w: Wsv, accountId: string, key: string): Option<Wsv> {
    Some(w.(accountSignatories := w.accountSignatories - {(accountId, key)}))
  }

  function InsertPeer(w: Wsv, key: string, address: string): Option<Wsv> {
    if key in w.peers || address in w.peers.Values || |address| > 21 then None
    else Some(w.(peers := w.peers[key := address]))
  }

  function InsertAsset(w: Wsv, a: Asset): Option<Wsv> {
    if a.assetId in w.assets || |a.assetId| > 197 || a.domainId !in w.domains then None
    else Some(w.(assets := w.assets[a.assetId := a]))
  }

  /** The amount column is a signed 64-bit integer. */
  function UpsertAccountAsset(w: Wsv, accountId: string, assetId: string, balance: nat): Option<Wsv> {
    if accountId !in w.accounts || assetId !in w.assets || balance >= TWO_63 then None
    else Some(w.(balances := w.balances[(accountId, assetId) := balance]))
  }
}
