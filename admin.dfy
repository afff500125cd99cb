/** The `/admin` routes: the order and rental lists with their related
    records, the dashboard counters and revenue, and adding an admin. */
module Admin {
  import opened Wrappers
  import opened Store
  import opened Http
  import Tables
  import Decimal
  import Auth

  /** An order as the list shows it, with its account (`include: { account: true }`). */
  datatype OrderEntry = OrderEntry(id: nat, order: Order, account: Option<Account>)

  /** A rental as the list shows it, with its username listing. */
  datatype RentalEntry = RentalEntry(id: nat, rental: Rental, username: Option<Username>)

  /** The `/admin/stats` reply. */
  datatype Stats = Stats(ordersTotal: nat, ordersConfirmed: nat, rentalsTotal: nat,
                         rentalsConfirmed: nat, revenueTon: real)

  function Lookup<T>(m: map<nat, T>, id: nat): (r: Option<T>)
    ensures r.Some? <==> id in m
    ensures r.Some? ==> r.value == m[id]
  {
    if id in m then Some(m[id]) else None
  }

  function OrderCreatedAt(row: (nat, Order)): int {
    row.1.createdAt
  }

  function RentalCreatedAt(row: (nat, Rental)): int {
    row.1.createdAt
  }

  function OrderEntryCreatedAt(e: OrderEntry): int {
    e.order.createdAt
  }

  function RentalEntryCreatedAt(e: RentalEntry): int {
    e.rental.createdAt
  }

  function JoinOrders(accounts: map<nat, Account>, rows: seq<(nat, Order)>): (r: seq<OrderEntry>)
    ensures |r| == |rows|
    ensures forall i :: 0 <= i < |rows| ==>
      r[i] == OrderEntry(rows[i].0, rows[i].1, Lookup(accounts, rows[i].1.accountId))
  {
    seq(|rows|, i requires 0 <= i < |rows| => OrderEntry(rows[i].0, rows[i].1, Lookup(accounts, rows[i].1.accountId)))
  }

  /** An entry comes from a row, every row gives an entry, and the order is kept. */
  lemma JoinOrdersLaws(accounts: map<nat, Account>, rows: seq<(nat, Order)>)
    ensures forall e :: e in JoinOrders(accounts, rows) ==>
      (e.id, e.order) in rows && e.account == Lookup(accounts, e.order.accountId)
    ensures forall row :: row in rows ==>
      OrderEntry(row.0, row.1, Lookup(accounts, row.1.accountId)) in JoinOrders(accounts, rows)
    ensures Tables.NewestFirst(rows, OrderCreatedAt) ==> Tables.NewestFirst(JoinOrders(accounts, rows), OrderEntryCreatedAt)
  {
    var r := JoinOrders(accounts, rows);
    assert forall i :: 0 <= i < |r| ==> OrderEntryCreatedAt(r[i]) == OrderCreatedAt(rows[i]);
    forall row | row in rows
      ensures OrderEntry(row.0, row.1, Lookup(accounts, row.1.accountId)) in r
    {
      var k :| 0 <= k < |rows| && rows[k] == row;
      assert r[k] == OrderEntry(row.0, row.1, Lookup(accounts, row.1.accountId));
    }
  }

  function JoinRentals(usernames: map<nat, Username>, rows: seq<(nat, Rental)>): (r: seq<RentalEntry>)
    ensures |r| == |rows|
    ensures forall i :: 0 <= i < |rows| ==>
      r[i] == RentalEntry(rows[i].0, rows[i].1, Lookup(usernames, rows[i].1.usernameId))
  {
    seq(|rows|, i requires 0 <= i < |rows| => RentalEntry(rows[i].0, rows[i].1, Lookup(usernames, rows[i].1.usernameId)))
  }

  lemma JoinRentalsLaws(usernames: map<nat, Username>, rows: seq<(nat, Rental)>)
    ensures forall e :: e in JoinRentals(usernames, rows) ==>
      (e.id, e.rental) in rows && e.username == Lookup(usernames, e.rental.usernameId)
    ensures forall row :: row in rows ==>
      RentalEntry(row.0, row.1, Lookup(usernames, row.1.usernameId)) in JoinRentals(usernames, rows)
    ensures Tables.NewestFirst(rows, RentalCreatedAt) ==>
      Tables.NewestFirst(JoinRentals(usernames, rows), RentalEntryCreatedAt)
  {
    var r := JoinRentals(usernames, rows);
    assert forall i :: 0 <= i < |r| ==> RentalEntryCreatedAt(r[i]) == RentalCreatedAt(rows[i]);
    forall row | row in rows
      ensures RentalEntry(row.0, row.1, Lookup(usernames, row.1.usernameId)) in r
    {
      var k :| 0 <= k < |rows| && rows[k] == row;
      assert r[k] == RentalEntry(row.0, row.1, Lookup(usernames, row.1.usernameId));
    }
  }

  /** GET `/orders`: every order, newest first, each once, with its account. */
  function AdminOrders(db: Db): (r: seq<OrderEntry>)
    reads db
    requires db.Valid()
    ensures forall e :: e in r ==>
      e.id in db.orders && db.orders[e.id] == e.order && e.account == Lookup(db.accounts, e.order.accountId)
    ensures forall id :: id in db.orders ==>
      OrderEntry(id, db.orders[id], Lookup(db.accounts, db.orders[id].accountId)) in r
    ensures |r| == |db.orders|
    ensures Tables.NewestFirst(r, OrderEntryCreatedAt)
  {
    var table := Tables.TableRows(db.orders, db.nextOrderId);
    var rows := Tables.SortNewestFirst(table, OrderCreatedAt);
    JoinOrdersLaws(db.accounts, rows);
    Tables.TableRowsLength(db.orders, db.nextOrderId);
    assert |rows| == |table| by {
      assert |multiset(rows)| == |multiset(table)|;
    }
    JoinOrders(db.accounts, rows)
  }

  /** GET `/rentals`: every rental, newest first, each once, with its username listing. */
  function AdminRentals(db: Db): (r: seq<RentalEntry>)
    reads db
    requires db.Valid()
    ensures forall e :: e in r ==>
      e.id in db.rentals && db.rentals[e.id] == e.rental && e.username == Lookup(db.usernames, e.rental.usernameId)
    ensures forall id :: id in db.rentals ==>
      RentalEntry(id, db.rentals[id], Lookup(db.usernames, db.rentals[id].usernameId)) in r
    ensures |r| == |db.rentals|
    ensures Tables.NewestFirst(r, RentalEntryCreatedAt)
  {
    var table := Tables.TableRows(db.rentals, db.nextRentalId);
    var rows := Tables.SortNewestFirst(table, RentalCreatedAt);
    JoinRentalsLaws(db.usernames, rows);
    Tables.TableRowsLength(db.rentals, db.nextRentalId);
    assert |rows| == |table| by {
      assert |multiset(rows)| == |multiset(table)|;
    }
    JoinRentals(db.usernames, rows)
  }

  predicate OrderConfirmed(o: Order) {
    o.status == Confirmed
  }

  predicate RentalConfirmed(r: Rental) {
    r.status == Confirmed
  }

  function OrderAmount(o: Order): real {
    o.tonAmount
  }

  function RentalAmount(r: Rental): real {
    r.tonAmount
  }

  /** Revenue: the amounts of confirmed orders plus those of confirmed rentals. */
  function Revenue(orders: map<nat, Order>, nextOrderId: nat, rentals: map<nat, Rental>, nextRentalId: nat): real {
    Tables.SumWhere(orders, nextOrderId, OrderConfirmed, OrderAmount) +
    Tables.SumWhere(rentals, nextRentalId, RentalConfirmed, RentalAmount)
  }

  /** Counting confirmed rows counts the confirmed orders. */
  lemma ConfirmedOrdersCounted(orders: map<nat, Order>, n: nat)
    requires KeysBelow(orders, n)
    ensures Tables.CountRecords(Tables.TableRows(orders, n), OrderConfirmed) ==
      |set id | id in orders && orders[id].status == Confirmed|
  {
    Tables.CountRows(orders, n, OrderConfirmed);
    assert Tables.IdsWhere(orders, n, OrderConfirmed) == set id | id in orders && orders[id].status == Confirmed;
  }

  lemma ConfirmedRentalsCounted(rentals: map<nat, Rental>, n: nat)
    requires KeysBelow(rentals, n)
    ensures Tables.CountRecords(Tables.TableRows(rentals, n), RentalConfirmed) ==
      |set id | id in rentals && rentals[id].status == Confirmed|
  {
    Tables.CountRows(rentals, n, RentalConfirmed);
    assert Tables.IdsWhere(rentals, n, RentalConfirmed) == set id | id in rentals && rentals[id].status == Confirmed;
  }

  /** GET `/stats`: the four counters, each the size of the set it counts, and the revenue. */
  function GetStats(db: Db): (s: Stats)
    reads db
    requires db.Valid()
    ensures s.ordersTotal == |db.orders| && s.rentalsTotal == |db.rentals|
    ensures s.ordersConfirmed == |set id | id in db.orders && db.orders[id].status == Confirmed|
    ensures s.rentalsConfirmed == |set id | id in db.rentals && db.rentals[id].status == Confirmed|
    ensures s.ordersConfirmed <= s.ordersTotal && s.rentalsConfirmed <= s.rentalsTotal
    ensures s.revenueTon == Revenue(db.orders, db.nextOrderId, db.rentals, db.nextRentalId)
  {
    var orderRows := Tables.TableRows(db.orders, db.nextOrderId);
    var rentalRows := Tables.TableRows(db.rentals, db.nextRentalId);
    Tables.TableRowsLength(db.orders, db.nextOrderId);
    Tables.TableRowsLength(db.rentals, db.nextRentalId);
    ConfirmedOrdersCounted(db.orders, db.nextOrderId);
    ConfirmedRentalsCounted(db.rentals, db.nextRentalId);
    Stats(|orderRows|, Tables.CountRecords(orderRows, OrderConfirmed),
          |rentalRows|, Tables.CountRecords(rentalRows, RentalConfirmed),
          Revenue(db.orders, db.nextOrderId, db.rentals, db.nextRentalId))
  }

  /** Confirming a pending order adds exactly its amount to the revenue; failing it adds nothing. */
  lemma SettleOrderRevenue(orders: map<nat, Order>, nextOrderId: nat, rentals: map<nat, Rental>, nextRentalId: nat,
                           id: nat)
    requires id in orders && id < nextOrderId && orders[id].status == Pending
    ensures Revenue(orders[id := orders[id].(status := Confirmed)], nextOrderId, rentals, nextRentalId) ==
      Revenue(orders, nextOrderId, rentals, nextRentalId) + orders[id].tonAmount
    ensures Revenue(orders[id := orders[id].(status := Failed)], nextOrderId, rentals, nextRentalId) ==
      Revenue(orders, nextOrderId, rentals, nextRentalId)
  {
    Tables.SumWhereUpdate(orders, nextOrderId, OrderConfirmed, OrderAmount, id, orders[id].(status := Confirmed));
    Tables.SumWhereUpdate(orders, nextOrderId, OrderConfirmed, OrderAmount, id, orders[id].(status := Failed));
  }

  /** The same for a rental, whatever dates the confirmation sets. */
  lemma SettleRentalRevenue(orders: map<nat, Order>, nextOrderId: nat, rentals: map<nat, Rental>, nextRentalId: nat,
                            id: nat, startsAt: Option<int>, expiresAt: Option<int>)
    requires id in rentals && id < nextRentalId && rentals[id].status == Pending
    ensures Revenue(orders, nextOrderId,
                    rentals[id := rentals[id].(status := Confirmed, startsAt := startsAt, expiresAt := expiresAt)],
                    nextRentalId) ==
      Revenue(orders, nextOrderId, rentals, nextRentalId) + rentals[id].tonAmount
    ensures Revenue(orders, nextOrderId, rentals[id := rentals[id].(status := Failed)], nextRentalId) ==
      Revenue(orders, nextOrderId, rentals, nextRentalId)
  {
    var confirmed := rentals[id].(status := Confirmed, startsAt := startsAt, expiresAt := expiresAt);
    Tables.SumWhereUpdate(rentals, nextRentalId, RentalConfirmed, RentalAmount, id, confirmed);
    Tables.SumWhereUpdate(rentals, nextRentalId, RentalConfirmed, RentalAmount, id, rentals[id].(status := Failed));
  }

  /** A new pending order or rental does not change the revenue. */
  lemma PendingRecordsAddNothing(orders: map<nat, Order>, nextOrderId: nat, rentals: map<nat, Rental>,
                                 nextRentalId: nat, o: Order, r: Rental)
    requires KeysBelow(orders, nextOrderId) && KeysBelow(rentals, nextRentalId)
    requires o.status == Pending && r.status == Pending
    ensures Revenue(orders[nextOrderId := o], nextOrderId + 1, rentals, nextRentalId) ==
      Revenue(orders, nextOrderId, rentals, nextRentalId)
    ensures Revenue(orders, nextOrderId, rentals[nextRentalId := r], nextRentalId + 1) ==
      Revenue(orders, nextOrderId, rentals, nextRentalId)
  {
    Tables.SumWhereInsert(orders, nextOrderId, OrderConfirmed, OrderAmount, o);
    Tables.SumWhereInsert(rentals, nextRentalId, RentalConfirmed, RentalAmount, r);
  }

  /** With no negative price charged, revenue is not negative. */
  lemma RevenueNonnegative(orders: map<nat, Order>, nextOrderId: nat, rentals: map<nat, Rental>, nextRentalId: nat)
    requires forall id :: id in orders ==> orders[id].tonAmount >= 0.0
    requires forall id :: id in rentals ==> rentals[id].tonAmount >= 0.0
    ensures Revenue(orders, nextOrderId, rentals, nextRentalId) >= 0.0
  {
    Tables.SumWhereNonnegative(orders, nextOrderId, OrderConfirmed, OrderAmount);
    Tables.SumWhereNonnegative(rentals, nextRentalId, RentalConfirmed, RentalAmount);
  }

  /** A JSON value of the request body's `telegramId`. */
  datatype JsonValue = Missing | Null | Bool(b: bool) | Num(n: int) | Str(s: string)

  /** JavaScript truthiness. */
  predicate JsTruthy(v: JsonValue) {
    match v
    case Missing => false
    case Null => false
    case Bool(b) => b
    case Num(n) => n != 0
    case Str(s) => s != ""
  }

  /** `String(telegramId)` of a truthy value. */
  function AdminId(v: JsonValue): (id: string)
    requires JsTruthy(v)
    ensures v.Str? ==> id == v.s
    ensures v.Num? ==> id == Decimal.IntToString(v.n)
  {
    match v
    case Bool(_) => "true"
    case Num(n) => Decimal.IntToString(n)
    case Str(s) => s
  }

  /** A number and its decimal string name the same admin, and different numbers different admins. */
  lemma AdminIdLaws(n: int, m: int)
    requires n != 0 && m != 0
    ensures AdminId(Num(n)) == AdminId(Str(Decimal.IntToString(n)))
    ensures AdminId(Num(n)) == AdminId(Num(m)) <==> n == m
  {
    Decimal.IntToStringInjective(n, m);
  }

  /** POST `/admins`: 400 for a falsy id, 409 when the id is already an admin, else 201. */
  method AddAdmin(db: Db, telegramId: JsonValue) returns (r: Response<string>)
    requires db.Valid()
    modifies db
    ensures db.Valid()
    ensures !JsTruthy(telegramId) ==> r == Failure(400, "telegramId required") && unchanged(db)
    ensures JsTruthy(telegramId) && AdminId(telegramId) in old(db.admins) ==>
      r == Failure(409, "Admin already exists") && unchanged(db)
    ensures JsTruthy(telegramId) && AdminId(telegramId) !in old(db.admins) ==>
      && r == Success(201, AdminId(telegramId))
      && db.admins == old(db.admins) + {AdminId(telegramId)}
      && db.AccountTablesUnchanged() && db.UsernameTablesUnchanged()
  {
    if !JsTruthy(telegramId) {
      return Failure(400, "telegramId required");
    }
    var id := AdminId(telegramId);
    if id in db.admins {
      return Failure(409, "Admin already exists");
    }
    db.admins := db.admins + {id};
    return Success(201, id);
  }

  /** Once the numeric id of an authenticated user is added, that user passes the admin gate. */
  lemma AddedAdminPassesGate(admins: set<string>, header: Option<string>, env: Auth.Collaborators, nowMs: int)
    requires Auth.RequireInitData(header, env, nowMs).Authenticated?
    requires Auth.RequireInitData(header, env, nowMs).user.id != 0
    ensures Auth.RequireAdmin(admins + {AdminId(Num(Auth.RequireInitData(header, env, nowMs).user.id))},
                              header, env, nowMs).Authenticated?
  {
  }
}
