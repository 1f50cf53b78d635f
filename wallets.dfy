/** The wallet operations of wallet_lib.rs: one Solana wallet row per user,
    created once and deleted by username.  `delete_tron_wallet`, which
    lib.rs imports from wallet_lib.rs but which that file does not define,
    is modelled on its Solana counterpart. */
module Wallets {
  import opened Outcomes
  import opened Tables
  import opened Schema
  import opened Store

  /** The number of Solana wallet rows of a user. */
  function SolanaCount(db: Db, uid: int): nat
    reads db
  {
    |Filter(db.solanaWallets, WalletOf(uid))|
  }

  /** The user's wallet, when the user has exactly one. */
  function GetUserSolanaWallet(db: Db, uid: int): (r: Outcome<Wallet>)
    reads db
    ensures r.Ok? <==> SolanaCount(db, uid) == 1
    ensures r.Ok? ==> r.value in db.solanaWallets && r.value.userId == uid
    ensures r.Ok? ==> forall w :: w in db.solanaWallets && w.userId == uid ==> w == r.value
    ensures !r.Ok? ==> r == Err(NotFound)
  {
    Exactly(Filter(db.solanaWallets, WalletOf(uid)))
  }

  /** A user who has no wallet and exists gets a fresh one; a user with
      exactly one is refused.  A user with two or more rows passes the first
      check, so the "one wallet per user" rule is kept only as an invariant:
      at most one row before means at most one row after. */
  method InitializeNewSolanaWallet(db: Db, info: WalletInfo) returns (r: Outcome<Wallet>)
    requires db.Valid()
    modifies db`solanaWallets, db`nextSolanaWalletId
    ensures db.Valid()
    ensures old(SolanaCount(db, info.userId)) == 1 ==> r == Err(AlreadyExists) && unchanged(db)
    ensures old(SolanaCount(db, info.userId)) != 1 && !old(db.IsValidUser(info.userId)) ==>
              r == Err(NotFound) && unchanged(db)
    ensures r.Ok? <==> old(SolanaCount(db, info.userId)) != 1 && old(db.IsValidUser(info.userId))
    ensures r.Ok? ==> r.value == Wallet(old(db.nextSolanaWalletId), info.userId, info.address)
    ensures r.Ok? ==> db.solanaWallets == old(db.solanaWallets) + [r.value]
                      && db.nextSolanaWalletId == old(db.nextSolanaWalletId) + 1
    ensures r.Ok? ==> SolanaCount(db, info.userId) == old(SolanaCount(db, info.userId)) + 1
    ensures r.Ok? && old(SolanaCount(db, info.userId)) == 0 ==> GetUserSolanaWallet(db, info.userId) == Ok(r.value)
    ensures old(SolanaCount(db, info.userId)) <= 1 ==> SolanaCount(db, info.userId) <= 1
  {
    if GetUserSolanaWallet(db, info.userId).Ok? {
      return Err(AlreadyExists);
    }
    if !db.IsValidUser(info.userId) {
      return Err(NotFound);
    }
    AppendWallet(db.solanaWallets, Wallet(db.nextSolanaWalletId, info.userId, info.address));
    var w := db.InsertSolanaWallet(info);
    r := Ok(w);
  }

  /** Appending a wallet row adds exactly that row to its user's wallets. */
  lemma AppendWallet(ws: seq<Wallet>, w: Wallet)
    ensures Filter(ws + [w], WalletOf(w.userId)) == Filter(ws, WalletOf(w.userId)) + [w]
    ensures WalletIdsBelow(ws, w.id) ==> WalletIdsBelow(ws + [w], w.id + 1)
  {
    FilterConcat(ws, [w], WalletOf(w.userId));
    assert Filter([w], WalletOf(w.userId)) == [w];
  }

  /** Resolves the username and deletes every Solana wallet row of that
      user; afterwards the user has none. */
  method DeleteSolanaWallet(db: Db, username: string) returns (r: Outcome<bool>)
    requires db.Valid()
    modifies db`solanaWallets
    ensures db.Valid()
    ensures r == Ok(true) || r == Err(NotFound)
    ensures r.Ok? <==> old(db.GetUserWithUsername(username)).Ok?
    ensures !r.Ok? ==> unchanged(db)
    ensures r.Ok? ==> var uid := old(db.GetUserWithUsername(username)).value.id;
      && db.solanaWallets == Filter(old(db.solanaWallets), NotWalletOf(uid))
      && SolanaCount(db, uid) == 0
      && GetUserSolanaWallet(db, uid) == Err(NotFound)
  {
    var found := db.GetUserWithUsername(username);
    if !found.Ok? {
      return Err(NotFound);
    }
    var uid := found.value.id;
    db.SetSolanaWallets(Filter(db.solanaWallets, NotWalletOf(uid)));
    r := Ok(true);
  }

  /** The Tron counterpart of DeleteSolanaWallet. */
  method DeleteTronWallet(db: Db, username: string) returns (r: Outcome<bool>)
    requires db.Valid()
    modifies db`tronWallets
    ensures db.Valid()
    ensures r == Ok(true) || r == Err(NotFound)
    ensures r.Ok? <==> old(db.GetUserWithUsername(username)).Ok?
    ensures !r.Ok? ==> unchanged(db)
    ensures r.Ok? ==> var uid := old(db.GetUserWithUsername(username)).value.id;
      && db.tronWallets == Filter(old(db.tronWallets), NotWalletOf(uid))
      && forall w :: w in db.tronWallets ==> w.userId != uid
  {
    var found := db.GetUserWithUsername(username);
    if !found.Ok? {
      return Err(NotFound);
    }
    db.SetTronWallets(Filter(db.tronWallets, NotWalletOf(found.value.id)));
    r := Ok(true);
  }
}
