/** The persisted store the routes read and write: accounts for sale, orders
    for them, rentable usernames, rentals of them, and the admin list. Each
    table is a map from row id to record with an autoincrement counter; the
    database engine itself is not modelled. Prices and amounts are in TON, as
    exact reals; times are milliseconds since the epoch. */
module Store {
  import opened Wrappers

  datatype Status = Pending | Confirmed | Failed

  datatype Period = Day | Week | Month

  datatype Account = Account(country: string, countryCode: string, flag: string,
                             quantity: int, price: real, createdAt: int)

  datatype Order = Order(accountId: nat, telegramId: string, walletAddress: string,
                         tonAmount: real, boc: string, txHash: string, status: Status,
                         createdAt: int)

  datatype Username = Username(username: string, priceDay: real, priceWeek: real,
                               priceMonth: real, createdAt: int)

  datatype Rental = Rental(usernameId: nat, telegramId: string, walletAddress: string,
                           period: Period, tonAmount: real, boc: string, txHash: string,
                           status: Status, startsAt: Option<int>, expiresAt: Option<int>,
                           createdAt: int)

  /** JavaScript truthiness of an optional string field of a request body. */
  predicate Truthy(s: Option<string>) {
    s.Some? && s.value != ""
  }

  predicate KeysBelow<T>(m: map<nat, T>, n: nat) {
    forall id :: id in m ==> id < n
  }

  predicate HasOrderTx(orders: map<nat, Order>, txHash: string) {
    exists id :: id in orders && orders[id].txHash == txHash
  }

  predicate HasRentalTx(rentals: map<nat, Rental>, txHash: string) {
    exists id :: id in rentals && rentals[id].txHash == txHash
  }

  predicate HasUsername(usernames: map<nat, Username>, name: string) {
    exists id :: id in usernames && usernames[id].username == name
  }

  /** The unique constraints: `Order.txHash`, `Rental.txHash`, `Username.username`. */
  predicate OrderTxUnique(orders: map<nat, Order>) {
    forall a, b :: a in orders && b in orders && orders[a].txHash == orders[b].txHash ==> a == b
  }

  predicate RentalTxUnique(rentals: map<nat, Rental>) {
    forall a, b :: a in rentals && b in rentals && rentals[a].txHash == rentals[b].txHash ==> a == b
  }

  predicate UsernameUnique(usernames: map<nat, Username>) {
    forall a, b :: a in usernames && b in usernames && usernames[a].username == usernames[b].username ==> a == b
  }

  class Db {
    var accounts: map<nat, Account>
    var nextAccountId: nat
    var orders: map<nat, Order>
    var nextOrderId: nat
    var usernames: map<nat, Username>
    var nextUsernameId: nat
    var rentals: map<nat, Rental>
    var nextRentalId: nat
    var admins: set<string>

    /** Ids lie below their counters and the unique columns are unique. */
    ghost predicate Valid()
      reads this
    {
      && KeysBelow(accounts, nextAccountId)
      && KeysBelow(orders, nextOrderId)
      && KeysBelow(usernames, nextUsernameId)
      && KeysBelow(rentals, nextRentalId)
      && OrderTxUnique(orders)
      && RentalTxUnique(rentals)
      && UsernameUnique(usernames)
    }

    /** An empty database; autoincrement ids start at 1. */
    constructor ()
      ensures Valid()
      ensures accounts == map[] && orders == map[] && usernames == map[] && rentals == map[]
      ensures nextAccountId == 1 && nextOrderId == 1 && nextUsernameId == 1 && nextRentalId == 1
      ensures admins == {}
    {
      accounts, orders, usernames, rentals := map[], map[], map[], map[];
      nextAccountId, nextOrderId, nextUsernameId, nextRentalId := 1, 1, 1, 1;
      admins := {};
    }

    twostate predicate UsernameTablesUnchanged()
      reads this
    {
      && usernames == old(usernames) && nextUsernameId == old(nextUsernameId)
      && rentals == old(rentals) && nextRentalId == old(nextRentalId)
    }

    twostate predicate AccountTablesUnchanged()
      reads this
    {
      && accounts == old(accounts) && nextAccountId == old(nextAccountId)
      && orders == old(orders) && nextOrderId == old(nextOrderId)
    }

    /** Only the accounts table changed. */
    twostate predicate OnlyAccountsChanged()
      reads this
    {
      && orders == old(orders) && nextOrderId == old(nextOrderId)
      && nextAccountId >= old(nextAccountId)
      && UsernameTablesUnchanged() && admins == old(admins)
    }

    /** Only the orders table changed. */
    twostate predicate OnlyOrdersChanged()
      reads this
    {
      && accounts == old(accounts) && nextAccountId == old(nextAccountId)
      && UsernameTablesUnchanged() && admins == old(admins)
    }

    /** Only the usernames table changed. */
    twostate predicate OnlyUsernamesChanged()
      reads this
    {
      && rentals == old(rentals) && nextRentalId == old(nextRentalId)
      && nextUsernameId >= old(nextUsernameId)
      && AccountTablesUnchanged() && admins == old(admins)
    }

    /** Only the rentals table changed. */
    twostate predicate OnlyRentalsChanged()
      reads this
    {
      && usernames == old(usernames) && nextUsernameId == old(nextUsernameId)
      && AccountTablesUnchanged() && admins == old(admins)
    }
  }
}
