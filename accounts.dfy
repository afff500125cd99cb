/** The `/accounts` routes: the public stock list, the admin create, update
    and delete, the buy flow with its background settlement, and the buyer's
    order poll. */
module Accounts {
  import opened Wrappers
  import opened Store
  import opened Http
  import Tables
  import Ton
  import Decimal
  import Auth

  /** A request body for create and update; `None` is an absent (or `null`) field. */
  datatype AccountFields = AccountFields(country: Option<string>, countryCode: Option<string>,
                                         flag: Option<string>, quantity: Option<int>,
                                         price: Option<real>)

  /** The reply to a successful buy. */
  datatype Purchase = Purchase(orderId: nat, txHash: string, status: Status)

  function AccountCreatedAt(row: (nat, Account)): int {
    row.1.createdAt
  }

  predicate InStock(row: (nat, Account)) {
    row.1.quantity > 0
  }

  /** GET `/`: the accounts with stock left, newest first. */
  function ListAccounts(db: Db): (r: seq<(nat, Account)>)
    reads db
    requires db.Valid()
    ensures forall row :: row in r ==> row.0 in db.accounts && db.accounts[row.0] == row.1 && row.1.quantity > 0
    ensures forall id :: id in db.accounts && db.accounts[id].quantity > 0 ==> (id, db.accounts[id]) in r
    ensures Tables.NewestFirst(r, AccountCreatedAt)
    ensures Tables.DistinctIds(r)
  {
    var rows := Tables.TableRows(db.accounts, db.nextAccountId);
    var inStock := Tables.Filter(rows, InStock);
    Tables.TableRowsDistinct(db.accounts, db.nextAccountId);
    Tables.FilterDistinctIds(rows, InStock);
    var r := Tables.SortNewestFirst(inStock, AccountCreatedAt);
    Tables.ReorderedDistinctIds(db.accounts, inStock, r);
    r
  }

  predicate CompleteForCreate(body: AccountFields) {
    Truthy(body.country) && Truthy(body.countryCode) && Truthy(body.flag) &&
    body.quantity.Some? && body.price.Some?
  }

  /** POST `/` (admin): 400 unless the three names are non-empty and both numbers are present. */
  method CreateAccount(db: Db, body: AccountFields, nowMs: int) returns (r: Response<(nat, Account)>)
    requires db.Valid()
    modifies db
    ensures db.Valid()
    ensures !CompleteForCreate(body) ==> r == Failure(400, "Missing required fields") && unchanged(db)
    ensures CompleteForCreate(body) ==>
      && r == Success(201, (old(db.nextAccountId),
                            Account(body.country.value, body.countryCode.value, body.flag.value,
                                    body.quantity.value, body.price.value, nowMs)))
      && db.accounts == old(db.accounts)[r.body.0 := r.body.1]
      && db.nextAccountId == old(db.nextAccountId) + 1
      && db.OnlyAccountsChanged()
  {
    if !CompleteForCreate(body) {
      return Failure(400, "Missing required fields");
    }
    var id := db.nextAccountId;
    var account := Account(body.country.value, body.countryCode.value, body.flag.value,
                           body.quantity.value, body.price.value, nowMs);
    db.accounts := db.accounts[id := account];
    db.nextAccountId := id + 1;
    return Success(201, (id, account));
  }

  /** The record after a partial update: each field present in the body
      replaces the stored one, every other field is kept. */
  function PatchAccount(a: Account, body: AccountFields): (r: Account)
    ensures r.country == body.country.GetOr(a.country)
    ensures r.countryCode == body.countryCode.GetOr(a.countryCode)
    ensures r.flag == body.flag.GetOr(a.flag)
    ensures r.quantity == body.quantity.GetOr(a.quantity)
    ensures r.price == body.price.GetOr(a.price)
    ensures r.createdAt == a.createdAt
  {
    a.(country := body.country.GetOr(a.country),
       countryCode := body.countryCode.GetOr(a.countryCode),
       flag := body.flag.GetOr(a.flag),
       quantity := body.quantity.GetOr(a.quantity),
       price := body.price.GetOr(a.price))
  }

  /** An empty body changes nothing, and applying the same body twice is applying it once. */
  lemma PatchAccountLaws(a: Account, body: AccountFields)
    ensures PatchAccount(a, AccountFields(None, None, None, None, None)) == a
    ensures PatchAccount(PatchAccount(a, body), body) == PatchAccount(a, body)
  {
  }

  /** PUT `/:id` (admin): 404 when there is no such account. */
  method UpdateAccount(db: Db, id: nat, body: AccountFields) returns (r: Response<Account>)
    requires db.Valid()
    modifies db
    ensures db.Valid()
    ensures id !in old(db.accounts) ==> r == Failure(404, "Account not found") && unchanged(db)
    ensures id in old(db.accounts) ==>
      && r == Success(200, PatchAccount(old(db.accounts)[id], body))
      && db.accounts == old(db.accounts)[id := r.body]
      && db.nextAccountId == old(db.nextAccountId)
      && db.OnlyAccountsChanged()
  {
    if id !in db.accounts {
      return Failure(404, "Account not found");
    }
    var updated := PatchAccount(db.accounts[id], body);
    db.accounts := db.accounts[id := updated];
    return Success(200, updated);
  }

  /** DELETE `/:id` (admin): 404 when there is no such account. */
  method DeleteAccount(db: Db, id: nat) returns (r: Response<bool>)
    requires db.Valid()
    modifies db
    ensures db.Valid()
    ensures id !in old(db.accounts) ==> r == Failure(404, "Account not found") && unchanged(db)
    ensures id in old(db.accounts) ==>
      && r == Success(200, true)
      && db.accounts == old(db.accounts) - {id}
      && db.nextAccountId == old(db.nextAccountId)
      && db.OnlyAccountsChanged()
  {
    if id !in db.accounts {
      return Failure(404, "Account not found");
    }
    db.accounts := db.accounts - {id};
    return Success(200, true);
  }

  /** Whether the account can be bought at request time. */
  predicate Available(accounts: map<nat, Account>, id: nat) {
    id in accounts && accounts[id].quantity >= 1
  }

  /** POST `/:id/buy`. The checks run in this order and each failure returns
      before anything is written: the body, the stock, then the identifier the
      broadcast returned against the orders table. `sendBocAndGetHash` never
      throws, so the 400 for a failed broadcast cannot occur. `broadcasted`
      records whether the blob was sent: only once the body and stock checks
      have passed. */
  method Buy(db: Db, id: nat, user: Auth.TelegramUser, walletAddress: Option<string>,
             boc: Option<string>, broadcast: Ton.BroadcastOutcome, nowMs: nat)
    returns (r: Response<Purchase>, ghost broadcasted: bool)
    requires db.Valid()
    modifies db
    ensures db.Valid()
    ensures broadcasted <==> Truthy(walletAddress) && Truthy(boc) && Available(old(db.accounts), id)
    ensures !(Truthy(walletAddress) && Truthy(boc)) ==>
      r == Failure(400, "walletAddress and boc required") && unchanged(db)
    ensures Truthy(walletAddress) && Truthy(boc) && !Available(old(db.accounts), id) ==>
      r == Failure(400, "Account not available") && unchanged(db)
    ensures var txHash := Ton.SendBocAndGetHash(boc.GetOr(""), broadcast, nowMs);
      Truthy(walletAddress) && Truthy(boc) && Available(old(db.accounts), id) && HasOrderTx(old(db.orders), txHash) ==>
        r == Failure(409, "Transaction already processed") && unchanged(db)
    ensures var txHash := Ton.SendBocAndGetHash(boc.GetOr(""), broadcast, nowMs);
      Truthy(walletAddress) && Truthy(boc) && Available(old(db.accounts), id) && !HasOrderTx(old(db.orders), txHash) ==>
      && r == Success(200, Purchase(old(db.nextOrderId), txHash, Pending))
      && db.orders == old(db.orders)[r.body.orderId :=
           Order(id, Decimal.IntToString(user.id), walletAddress.value, old(db.accounts)[id].price,
                 boc.value, r.body.txHash, Pending, nowMs)]
      && db.nextOrderId == old(db.nextOrderId) + 1
      && db.OnlyOrdersChanged()
    ensures r.Success? ==> GetOrder(db, r.body.orderId, user) == Success(200, db.orders[r.body.orderId])
  {
    broadcasted := false;
    if !Truthy(walletAddress) || !Truthy(boc) {
      return Failure(400, "walletAddress and boc required"), broadcasted;
    }
    if id !in db.accounts || db.accounts[id].quantity < 1 {
      return Failure(400, "Account not available"), broadcasted;
    }
    var account := db.accounts[id];
    var txHash := Ton.SendBocAndGetHash(boc.value, broadcast, nowMs);
    broadcasted := true;
    if HasOrderTx(db.orders, txHash) {
      return Failure(409, "Transaction already processed"), broadcasted;
    }
    var orderId := db.nextOrderId;
    var order := Order(id, Decimal.IntToString(user.id), walletAddress.value, account.price,
                       boc.value, txHash, Pending, nowMs);
    db.orders := db.orders[orderId := order];
    db.nextOrderId := orderId + 1;
    return Success(200, Purchase(orderId, txHash, Pending)), broadcasted;
  }

  /** The background task of a buy, run once on the PENDING order it created:
      verify the payment of the order's amount, then confirm the order and take
      one unit of stock in one transaction, or fail the order. When the account
      was deleted meanwhile the transaction aborts and the order stays PENDING. */
  method SettleOrder(db: Db, orderId: nat, polls: seq<Ton.Poll>, verifyStartMs: int)
    returns (verified: bool)
    requires db.Valid()
    requires orderId in db.orders && db.orders[orderId].status == Pending
    modifies db
    ensures db.Valid()
    ensures verified == Ton.Verdict(Ton.ExpectedNano(old(db.orders)[orderId].tonAmount), verifyStartMs, polls)
    ensures Settled(db, orderId, verified)
    ensures Terminal(db, orderId, verified)
  {
    var order := db.orders[orderId];
    ghost var attempts;
    verified, attempts := Ton.VerifyTonTransaction(order.txHash, order.tonAmount, verifyStartMs, polls);
    RecordVerdict(db, orderId, verified);
  }

  /** The store after the verdict on a pending order: confirmed with one unit
      of stock taken in one step, left as it was when the account is gone, or
      failed with the stock untouched. No other table changes. */
  twostate predicate Settled(db: Db, orderId: nat, verified: bool)
    reads db
    requires old(orderId in db.orders)
  {
    && db.nextOrderId == old(db.nextOrderId) && db.nextAccountId == old(db.nextAccountId)
    && db.UsernameTablesUnchanged() && db.admins == old(db.admins)
    && (verified && old(db.orders)[orderId].accountId in old(db.accounts) ==>
        && db.orders == old(db.orders)[orderId := old(db.orders)[orderId].(status := Confirmed)]
        && var aid := old(db.orders)[orderId].accountId;
           db.accounts == old(db.accounts)[aid := old(db.accounts)[aid].(quantity := old(db.accounts)[aid].quantity - 1)])
    && (verified && old(db.orders)[orderId].accountId !in old(db.accounts) ==>
        db.orders == old(db.orders) && db.accounts == old(db.accounts))
    && (!verified ==>
        db.orders == old(db.orders)[orderId := old(db.orders)[orderId].(status := Failed)] &&
        db.accounts == old(db.accounts))
  }

  /** The order has left PENDING for good: CONFIRMED when verified, FAILED
      otherwise; only an aborted confirmation (account gone) leaves it PENDING. */
  twostate predicate Terminal(db: Db, orderId: nat, verified: bool)
    reads db
    requires old(orderId in db.orders)
  {
    && orderId in db.orders
    && (verified && old(db.orders)[orderId].accountId in old(db.accounts) ==> db.orders[orderId].status == Confirmed)
    && (verified && old(db.orders)[orderId].accountId !in old(db.accounts) ==> db.orders[orderId].status == Pending)
    && (!verified ==> db.orders[orderId].status == Failed)
  }

  /** The `if (verified)` branch of the background task, on a PENDING order. */
  method RecordVerdict(db: Db, orderId: nat, verified: bool)
    requires db.Valid()
    requires orderId in db.orders && db.orders[orderId].status == Pending
    modifies db
    ensures db.Valid()
    ensures Settled(db, orderId, verified)
    ensures Terminal(db, orderId, verified)
  {
    var order := db.orders[orderId];
    if verified {
      if order.accountId in db.accounts {
        var account := db.accounts[order.accountId];
        db.orders := db.orders[orderId := order.(status := Confirmed)];
        db.accounts := db.accounts[order.accountId := account.(quantity := account.quantity - 1)];
      }
    } else {
      db.orders := db.orders[orderId := order.(status := Failed)];
    }
  }

  /** GET `/orders/:orderId`: the order, only to the user who placed it. */
  function GetOrder(db: Db, orderId: nat, user: Auth.TelegramUser): (r: Response<Order>)
    reads db
    ensures r.Success? <==> orderId in db.orders && db.orders[orderId].telegramId == Decimal.IntToString(user.id)
    ensures r.Success? ==> r == Success(200, db.orders[orderId])
    ensures r.Failure? ==> r == Failure(404, "Order not found")
  {
    if orderId in db.orders && db.orders[orderId].telegramId == Decimal.IntToString(user.id) then
      Success(200, db.orders[orderId])
    else
      Failure(404, "Order not found")
  }

  /** No two different users can both read the same order. */
  lemma OrderPollOwnerScoped(db: Db, orderId: nat, u1: Auth.TelegramUser, u2: Auth.TelegramUser)
    requires GetOrder(db, orderId, u1).Success? && GetOrder(db, orderId, u2).Success?
    ensures u1 == u2
  {
    Decimal.IntToStringInjective(u1.id, u2.id);
  }
}
