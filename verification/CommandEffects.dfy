/** What each of the eleven commands does, row by row: when the validator lets a
    creator run it, when it succeeds, and the one row that is then new or changed. */
module CommandEffects {
  import opened FixedPoint
  import opened WorldState
  import opened Commands

  /** Accepted by the validator and executed. */
  predicate Runs(w: Wsv, creator: Account, c: Command) {
    Validate(w, creator, c) && Execute(w, c).0
  }

  /** Accounts are stored under their own id. */
  ghost predicate OwnIds(w: Wsv) {
    forall id :: id in w.accounts ==> w.accounts[id].accountId == id
  }

  /** The account row can be written again: its key exists and its quorum fits the column. */
  predicate Writable(w: Wsv, row: Account) {
    row.masterKey in w.signatories && row.quorum < TWO_31
  }

  const DIGITS := "0123456789"
  const UPPER := "ABCDEFGHIJKLMNOPQRSTUVWXYZ"
  const LOWER := "abcdefghijklmnopqrstuvwxyz"

  predicate Alphanumeric(name: string) {
    forall i :: 0 <= i < |name| ==> name[i] in DIGITS || name[i] in UPPER || name[i] in LOWER
  }

  lemma DigitAt(v: nat)
    requires v < 10
    ensures DIGITS[v] == '0' + v as char
  {}

  lemma UpperAt(v: nat)
    requires v < 26
    ensures UPPER[v] == 'A' + v as char
  {}

  lemma LowerAt(v: nat)
    requires v < 26
    ensures LOWER[v] == 'a' + v as char
  {}

  lemma DigitsAre(c: char)
    ensures c in DIGITS <==> '0' <= c <= '9'
  {
    forall v | 0 <= v < 10
      ensures DIGITS[v] == '0' + v as char
    {
      DigitAt(v);
    }
    if '0' <= c <= '9' {
      assert DIGITS[c as int - '0' as int] == c;
    }
  }

  lemma UpperAre(c: char)
    ensures c in UPPER <==> 'A' <= c <= 'Z'
  {
    forall v | 0 <= v < 26
      ensures UPPER[v] == 'A' + v as char
    {
      UpperAt(v);
    }
    if 'A' <= c <= 'Z' {
      assert UPPER[c as int - 'A' as int] == c;
    }
  }

  lemma LowerAre(c: char)
    ensures c in LOWER <==> 'a' <= c <= 'z'
  {
    forall v | 0 <= v < 26
      ensures LOWER[v] == 'a' + v as char
    {
      LowerAt(v);
    }
    if 'a' <= c <= 'z' {
      assert LOWER[c as int - 'a' as int] == c;
    }
  }

  lemma IsAlnumIs(c: char)
    ensures IsAlnum(c) <==> c in DIGITS || c in UPPER || c in LOWER
  {
    DigitsAre(c);
    UpperAre(c);
    LowerAre(c);
  }

  lemma ValidNameIs(name: string, limit: nat)
    ensures ValidName(name, limit) <==> 1 <= |name| <= limit - 1 && Alphanumeric(name)
  {
    forall i | 0 <= i < |name|
      ensures IsAlnum(name[i]) <==> name[i] in DIGITS || name[i] in UPPER || name[i] in LOWER
    {
      IsAlnumIs(name[i]);
    }
    assert (forall c :: c in name ==> IsAlnum(c)) <==> forall i :: 0 <= i < |name| ==> IsAlnum(name[i]);
  }

  /** AddPeer: anyone may add a peer whose key and address are new; no right is asked for. */
  lemma AddPeerEffect(w: Wsv, creator: Account, key: string, address: string)
    ensures var c := AddPeer(key, address);
      var fits := key !in w.peers && (forall k :: k in w.peers ==> w.peers[k] != address) && |address| <= 21;
      && (Runs(w, creator, c) <==> fits) && (Execute(w, c).0 <==> fits)
      && Execute(w, c).1 == if fits then w.(peers := w.peers[key := address]) else w
  {
    assert address in w.peers.Values <==> exists k :: k in w.peers && w.peers[k] == address;
  }

  /** AddSignatory: an existing key is added to an existing account that lacks it, by its owner or an administrator. */
  lemma AddSignatoryEffect(w: Wsv, creator: Account, id: string, key: string)
    ensures var c := AddSignatory(id, key);
      var fits := id in w.accounts && key in w.signatories && (id, key) !in w.accountSignatories;
      && (Execute(w, c).0 <==> fits)
      && (Runs(w, creator, c) <==> fits && (creator.accountId == id || creator.permissions.addSignatory))
      && Execute(w, c).1 == if fits then w.(accountSignatories := w.accountSignatories + {(id, key)}) else w
  {}

  /** RemoveSignatory: executed, it removes the pair, if there is one; validated, not the master key. */
  lemma RemoveSignatoryEffect(w: Wsv, creator: Account, id: string, key: string)
    ensures var c := RemoveSignatory(id, key);
      && Execute(w, c) == (true, w.(accountSignatories := w.accountSignatories - {(id, key)}))
      && (Runs(w, creator, c) <==>
            (creator.accountId == id || creator.permissions.removeSignatory)
            && id in w.accounts && w.accounts[id].masterKey != key)
  {}

  /** AssignMasterKey: executed, any known key; validated, another signatory of the account. */
  lemma AssignMasterKeyEffect(w: Wsv, creator: Account, id: string, key: string)
    requires OwnIds(w)
    ensures var c := AssignMasterKey(id, key);
      var fits := id in w.accounts && Writable(w, w.accounts[id].(masterKey := key));
      && (Execute(w, c).0 <==> fits)
      && (Runs(w, creator, c) <==>
            fits && (creator.accountId == id || creator.permissions.addSignatory)
            && (id, key) in w.accountSignatories && w.accounts[id].masterKey != key)
      && Execute(w, c).1 == if fits then w.(accounts := w.accounts[id := w.accounts[id].(masterKey := key)]) else w
  {}

  /** SetQuorum: executed, any quorum that fits the column; validated, 1 to 9. */
  lemma SetQuorumEffect(w: Wsv, creator: Account, id: string, quorum: nat)
    requires OwnIds(w)
    ensures var c := SetQuorum(id, quorum);
      var fits := id in w.accounts && Writable(w, w.accounts[id].(quorum := quorum));
      && (Execute(w, c).0 <==> fits)
      && (Runs(w, creator, c) <==>
            fits && 1 <= quorum <= 9 && (creator.accountId == id || creator.permissions.setQuorum))
      && Execute(w, c).1 == if fits then w.(accounts := w.accounts[id := w.accounts[id].(quorum := quorum)]) else w
  {}

  /** SetAccountPermissions: the account has exactly the new permissions, whoever it is, given by one who may. */
  lemma SetPermissionsEffect(w: Wsv, creator: Account, id: string, p: Permissions)
    requires OwnIds(w)
    ensures var c := SetAccountPermissions(id, p);
      var fits := id in w.accounts && Writable(w, w.accounts[id]);
      && (Execute(w, c).0 <==> fits)
      && (Runs(w, creator, c) <==> fits && creator.permissions.setPermissions)
      && Execute(w, c).1 == if fits then w.(accounts := w.accounts[id := w.accounts[id].(permissions := p)]) else w
  {}

  /** CreateDomain: a new name of at most 9 alphanumeric characters; the column takes up to 164. */
  lemma CreateDomainEffect(w: Wsv, creator: Account, name: string)
    ensures var c := CreateDomain(name);
      var fits := name !in w.domains && |name| <= 164;
      && (Execute(w, c).0 <==> fits)
      && (Runs(w, creator, c) <==>
            name !in w.domains && creator.permissions.createDomains && 1 <= |name| <= 9 && Alphanumeric(name))
      && Execute(w, c).1 == if fits then w.(domains := w.domains + {name}) else w
  {
    ValidNameIs(name, 10);
  }

  /** CreateAsset: a new id name#domain in an existing domain, with the given precision. */
  lemma CreateAssetEffect(w: Wsv, creator: Account, name: string, domain: string, precision: nat)
    ensures var c, id := CreateAsset(name, domain, precision), name + "#" + domain;
      var fits := id !in w.assets && |name| + 1 + |domain| <= 197 && domain in w.domains;
      && (Execute(w, c).0 <==> fits)
      && (Runs(w, creator, c) <==>
            fits && creator.permissions.createAssets && 1 <= |name| <= 9 && Alphanumeric(name))
      && Execute(w, c).1 == if fits then w.(assets := w.assets[id := Asset(id, domain, precision)]) else w
  {
    ValidNameIs(name, 10);
  }

  /** CreateAccount: a new key, a new id name@domain in an existing domain; the account has that key
      as master key and only signatory, quorum 1 and no right. A failure may leave the key behind. */
  lemma CreateAccountEffect(w: Wsv, creator: Account, name: string, domain: string, key: string)
    requires forall id, k :: (id, k) in w.accountSignatories ==> id in w.accounts
    ensures var c, id := CreateAccount(name, domain, key), name + "@" + domain;
      var opens := id !in w.accounts && |name| + 1 + |domain| <= 197 && domain in w.domains;
      var none := Permissions(false, false, false, false, false, false, false, false, false, false);
      var row := Account(id, domain, none, 1, key);
      && (Execute(w, c).0 <==> key !in w.signatories && opens)
      && (Runs(w, creator, c) <==>
            key !in w.signatories && opens && creator.permissions.createAccounts
            && 1 <= |name| <= 7 && Alphanumeric(name))
      && Execute(w, c).1 ==
           if key in w.signatories then w
           else if !opens then w.(signatories := w.signatories + {key})
           else w.(signatories := w.signatories + {key}, accounts := w.accounts[id := row],
                   accountSignatories := w.accountSignatories + {(id, key)})
  {
    ValidNameIs(name, 8);
  }

  /** An amount of this precision. */
  ghost predicate Fits(amount: Amount, precision: nat) {
    precision >= 1 && amount.fracPart < Pow(10, precision)
  }

  /** AddAssetQuantity: any issuer, any account; the wallet is opened or raised, modulo 2^64. */
  lemma AddEffect(w: Wsv, creator: Account, id: string, asset: string, amount: Amount)
    ensures var c := AddAssetQuantity(id, asset, amount);
      var sum := if asset in w.assets
        then (Balance(w, id, asset) + JointAmount(amount, w.assets[asset].precision)) % TWO_64 else 0;
      var fits := asset in w.assets && Fits(amount, w.assets[asset].precision) && id in w.accounts && sum < TWO_63;
      && (Execute(w, c).0 <==> fits)
      && (Runs(w, creator, c) <==>
            fits && creator.permissions.issueAssets && amount != Amount(0, 0) && amount.intPart <= 0xFFFF_FFFE)
      && Execute(w, c).1 == if fits then w.(balances := w.balances[(id, asset) := sum]) else w
  {
    if asset in w.assets { DigitsBound(amount.fracPart, w.assets[asset].precision); }
  }

  /** TransferAsset, executed: both sums modulo 2^64, the destination written first, so that a
      source that does not fit leaves the destination paid. */
  lemma TransferEffect(w: Wsv, src: string, dest: string, asset: string, amount: Amount)
    ensures var c := TransferAsset(src, dest, asset, amount);
      var starts := (src, asset) in w.balances && asset in w.assets && Fits(amount, w.assets[asset].precision);
      var joint := if asset in w.assets then JointAmount(amount, w.assets[asset].precision) else 0;
      var paid := (Balance(w, dest, asset) + joint) % TWO_64;
      var left := (Balance(w, src, asset) - joint) % TWO_64;
      var pays := starts && dest in w.accounts && paid < TWO_63;
      && (Execute(w, c).0 <==> pays && src in w.accounts && left < TWO_63)
      && Execute(w, c).1 ==
           if !pays then w
           else if src in w.accounts && left < TWO_63
           then w.(balances := w.balances[(dest, asset) := paid][(src, asset) := left])
           else w.(balances := w.balances[(dest, asset) := paid])
  {
    if asset in w.assets { DigitsBound(amount.fracPart, w.assets[asset].precision); }
  }

  /** TransferAsset, validated: the owner, with the right, of a wallet that holds the amount, to an
      account whose balance stays below 2^63. */
  lemma TransferRunsIff(w: Wsv, creator: Account, src: string, dest: string, asset: string, amount: Amount)
    requires forall key :: key in w.balances ==> w.balances[key] < TWO_63 && key.0 in w.accounts
    ensures Runs(w, creator, TransferAsset(src, dest, asset, amount)) <==>
      && creator.accountId == src && creator.permissions.canTransfer && amount != Amount(0, 0)
      && (src, asset) in w.balances && dest in w.accounts
      && asset in w.assets && Fits(amount, w.assets[asset].precision)
      && w.balances[(src, asset)] >= JointAmount(amount, w.assets[asset].precision)
      && Balance(w, dest, asset) + JointAmount(amount, w.assets[asset].precision) < TWO_63
  {
    TransferEffect(w, src, dest, asset, amount);
    if asset in w.assets {
      DigitsBound(amount.fracPart, w.assets[asset].precision);
      if (src, asset) in w.balances && w.balances[(src, asset)] >= JointAmount(amount, w.assets[asset].precision) {
        NoWrap(w.balances[(src, asset)] - JointAmount(amount, w.assets[asset].precision));
        NoWrap(Balance(w, dest, asset) + JointAmount(amount, w.assets[asset].precision));
      }
    }
  }
}
