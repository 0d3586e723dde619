/** The world state behind a database transaction: statements that change the
    tables in place, and the commands executed through them. */
module Database {
  import opened Wrappers
  import opened FixedPoint
  import opened WorldState
  import opened Commands

  class Connection {
    var tables: Wsv

    constructor (tables: Wsv)
      ensures this.tables == tables
    {
      this.tables := tables;
    }

    /** Runs one statement; an error leaves the tables as they were and yields false. */
    method Run(statement: Option<Wsv>) returns (ok: bool)
      modifies this
      ensures (ok, tables) == Attempt(old(tables), statement)
    {
      if statement.Some? {
        tables := statement.value;
      }
      return statement.Some?;
    }

    method Add(accountId: string, assetId: string, amount: Amount) returns (ok: bool)
      modifies this
      ensures (ok, tables) == ExecuteAdd(old(tables), accountId, assetId, amount)
    {
      if assetId !in tables.assets {
        return false;
      }
      var precision := tables.assets[assetId].precision;
      if Digits(amount.fracPart) > precision {
        return false;
      }
      if accountId !in tables.accounts {
        return false;
      }
      var balance := GetJointAmount(amount, precision);
      if (accountId, assetId) in tables.balances {
        balance := (tables.balances[(accountId, assetId)] + balance) % TWO_64;
      }
      ok := Run(UpsertAccountAsset(tables, accountId, assetId, balance));
    }

    method OpenAccount(accountName: string, domainId: string, pubkey: string) returns (ok: bool)
      modifies this
      ensures (ok, tables) == ExecuteCreateAccount(old(tables), accountName, domainId, pubkey)
    {
      var account := Account(accountName + "@" + domainId, domainId, NO_PERMISSIONS, 1, pubkey);
      ok := Run(InsertSignatory(tables, pubkey));
      if ok {
        ok := Run(InsertAccount(tables, account));
      }
      if ok {
        ok := Run(InsertAccountSignatory(tables, account.accountId, pubkey));
      }
    }

    method Transfer(src: string, dest: string, assetId: string, amount: Amount) returns (ok: bool)
      modifies this
      ensures (ok, tables) == ExecuteTransfer(old(tables), src, dest, assetId, amount)
    {
      if (src, assetId) !in tables.balances {
        return false;
      }
      if assetId !in tables.assets {
        return false;
      }
      var precision := tables.assets[assetId].precision;
      if Digits(amount.fracPart) > precision {
        return false;
      }
      var joint := GetJointAmount(amount, precision);
      var srcBalance := (tables.balances[(src, assetId)] - joint) % TWO_64;
      var destBalance := joint;
      if (dest, assetId) in tables.balances {
        destBalance := (tables.balances[(dest, assetId)] + joint) % TWO_64;
      }
      ok := Run(UpsertAccountAsset(tables, dest, assetId, destBalance));
      if ok {
        ok := Run(UpsertAccountAsset(tables, src, assetId, srcBalance));
      }
    }

    method Execute(c: Command) returns (ok: bool)
      modifies this
      ensures (ok, tables) == Commands.Execute(old(tables), c)
    {
      match c {
        case AddAssetQuantity(accountId, assetId, amount) => ok := Add(accountId, assetId, amount);
        case AddPeer(peerKey, address) => ok := Run(InsertPeer(tables, peerKey, address));
        case AddSignatory(accountId, pubkey) => ok := Run(InsertAccountSignatory(tables, accountId, pubkey));
        case AssignMasterKey(accountId, pubkey) =>
          if accountId !in tables.accounts {
            return false;
          }
          ok := Run(UpdateAccount(tables, tables.accounts[accountId].(masterKey := pubkey)));
        case CreateAccount(accountName, domainId, pubkey) => ok := OpenAccount(accountName, domainId, pubkey);
        case CreateAsset(assetName, domainId, precision) =>
          ok := Run(InsertAsset(tables, Asset(assetName + "#" + domainId, domainId, precision)));
        case CreateDomain(domainName) => ok := Run(InsertDomain(tables, domainName));
        case RemoveSignatory(accountId, pubkey) => ok := Run(DeleteAccountSignatory(tables, accountId, pubkey));
        case SetAccountPermissions(accountId, newPermissions) =>
          if accountId !in tables.accounts {
            return false;
          }
          ok := Run(UpdateAccount(tables, tables.accounts[accountId].(permissions := newPermissions)));
        case SetQuorum(accountId, newQuorum) =>
          if accountId !in tables.accounts {
            return false;
          }
          ok := Run(UpdateAccount(tables, tables.accounts[accountId].(quorum := newQuorum)));
        case TransferAsset(src, dest, assetId, amount) => ok := Transfer(src, dest, assetId, amount);
      }
    }
  }
}
