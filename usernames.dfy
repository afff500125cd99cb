/** The `/usernames` routes: the public list with derived occupancy, the
    admin create, update and delete, the rent flow with its background
    settlement, and the renter's rental poll. */
module Usernames {
  import opened Wrappers
  import opened Store
  import opened Http
  import Tables
  import Ton
  import Decimal
  import Auth

  /** A request body for create and update; `None` is an absent (or `null`) field. */
  datatype UsernameFields = UsernameFields(username: Option<string>, priceDay: Option<real>,
                                           priceWeek: Option<real>, priceMonth: Option<real>)

  /** The part of the occupying rental the list shows. */
  datatype CurrentRental = CurrentRental(period: Period, expiresAt: int)

  /** One entry of the public list. */
  datatype UsernameView = UsernameView(id: nat, listing: Username, occupied: bool,
                                       currentRental: Option<CurrentRental>)

  /** The reply to a successful rent request. */
  datatype RentalStarted = RentalStarted(rentalId: nat, txHash: string, status: Status)

  /** A rental that holds the username at time `nowMs`: confirmed and not yet expired. */
  predicate Active(r: Rental, usernameId: nat, nowMs: int) {
    r.usernameId == usernameId && r.status == Confirmed && r.expiresAt.Some? && r.expiresAt.value > nowMs
  }

  predicate Occupied(rentals: map<nat, Rental>, usernameId: nat, nowMs: int) {
    exists rid :: rid in rentals && Active(rentals[rid], usernameId, nowMs)
  }

  /** The first active rental in row order (`take: 1` without an ordering). */
  function FirstActive(rows: seq<(nat, Rental)>, usernameId: nat, nowMs: int): (r: Option<(nat, Rental)>)
    ensures r.Some? ==> r.value in rows && Active(r.value.1, usernameId, nowMs)
    ensures r.None? ==> forall row :: row in rows ==> !Active(row.1, usernameId, nowMs)
  {
    if rows == [] then None
    else if Active(rows[0].1, usernameId, nowMs) then Some(rows[0])
    else
      var rest := FirstActive(rows[1..], usernameId, nowMs);
      assert forall row :: row in rows ==> row == rows[0] || row in rows[1..];
      rest
  }

  /** `currentRental`: the period and expiry of an occupying rental, if any. */
  function CurrentRentalOf(rentals: map<nat, Rental>, nextRentalId: nat, usernameId: nat, nowMs: int)
    : (c: Option<CurrentRental>)
    requires KeysBelow(rentals, nextRentalId)
    ensures c.Some? <==> Occupied(rentals, usernameId, nowMs)
    ensures c.Some? ==> exists rid :: (rid in rentals && Active(rentals[rid], usernameId, nowMs) &&
      rentals[rid].period == c.value.period && rentals[rid].expiresAt == Some(c.value.expiresAt))
  {
    var rows := Tables.TableRows(rentals, nextRentalId);
    var first := FirstActive(rows, usernameId, nowMs);
    if first.Some? then
      Some(CurrentRental(first.value.1.period, first.value.1.expiresAt.value))
    else
      assert forall rid :: rid in rentals ==> (rid, rentals[rid]) in rows;
      None
  }

  function View(rentals: map<nat, Rental>, nextRentalId: nat, row: (nat, Username), nowMs: int): (v: UsernameView)
    requires KeysBelow(rentals, nextRentalId)
    ensures v.id == row.0 && v.listing == row.1
    ensures v.occupied == Occupied(rentals, row.0, nowMs)
    ensures v.currentRental.Some? == v.occupied
  {
    var current := CurrentRentalOf(rentals, nextRentalId, row.0, nowMs);
    UsernameView(row.0, row.1, current.Some?, current)
  }

  function UsernameCreatedAt(row: (nat, Username)): int {
    row.1.createdAt
  }

  function ViewCreatedAt(v: UsernameView): int {
    v.listing.createdAt
  }

  /** The list entries for rows of the usernames table, in the same order. */
  function Views(rentals: map<nat, Rental>, nextRentalId: nat, rows: seq<(nat, Username)>, nowMs: int)
    : (r: seq<UsernameView>)
    requires KeysBelow(rentals, nextRentalId)
    ensures |r| == |rows|
    ensures forall i :: 0 <= i < |rows| ==> r[i] == View(rentals, nextRentalId, rows[i], nowMs)
  {
    seq(|rows|, i requires 0 <= i < |rows| => View(rentals, nextRentalId, rows[i], nowMs))
  }

  /** Mapping rows to entries keeps the newest-first order. */
  lemma ViewsNewestFirst(rentals: map<nat, Rental>, nextRentalId: nat, rows: seq<(nat, Username)>, nowMs: int)
    requires KeysBelow(rentals, nextRentalId)
    requires Tables.NewestFirst(rows, UsernameCreatedAt)
    ensures Tables.NewestFirst(Views(rentals, nextRentalId, rows, nowMs), ViewCreatedAt)
  {
    var r := Views(rentals, nextRentalId, rows, nowMs);
    assert forall i :: 0 <= i < |r| ==> ViewCreatedAt(r[i]) == UsernameCreatedAt(rows[i]);
  }

  /** GET `/`: every username, newest first, each with `occupied` true exactly
      when a confirmed rental of it has not expired at `nowMs`. */
  function ListUsernames(db: Db, nowMs: int): (r: seq<UsernameView>)
    reads db
    requires db.Valid()
    ensures forall v :: v in r ==>
      && v.id in db.usernames && db.usernames[v.id] == v.listing
      && v.occupied == Occupied(db.rentals, v.id, nowMs)
      && v.currentRental.Some? == v.occupied
    ensures forall id :: id in db.usernames ==>
      View(db.rentals, db.nextRentalId, (id, db.usernames[id]), nowMs) in r
    ensures Tables.NewestFirst(r, ViewCreatedAt)
    ensures forall i, j :: 0 <= i < j < |r| ==> r[i].id != r[j].id
  {
    var table := Tables.TableRows(db.usernames, db.nextUsernameId);
    var rows := Tables.SortNewestFirst(table, UsernameCreatedAt);
    Tables.TableRowsDistinct(db.usernames, db.nextUsernameId);
    Tables.ReorderedDistinctIds(db.usernames, table, rows);
    var r := Views(db.rentals, db.nextRentalId, rows, nowMs);
    ViewsNewestFirst(db.rentals, db.nextRentalId, rows, nowMs);
    forall id | id in db.usernames
      ensures View(db.rentals, db.nextRentalId, (id, db.usernames[id]), nowMs) in r
    {
      var k :| 0 <= k < |rows| && rows[k] == (id, db.usernames[id]);
      assert r[k] == View(db.rentals, db.nextRentalId, (id, db.usernames[id]), nowMs);
    }
    r
  }

  /** `username.startsWith('@') ? username : '@' + username`. */
  function Normalize(name: string): (r: string)
    ensures |r| >= 1 && r[0] == '@'
    ensures r == name <==> |name| >= 1 && name[0] == '@'
    ensures r != name ==> r == "@" + name
  {
    if |name| >= 1 && name[0] == '@' then name else "@" + name
  }

  /** Normalising twice is normalising once, and `x` and `@x` name the same listing. */
  lemma NormalizeLaws(name: string)
    ensures Normalize(Normalize(name)) == Normalize(name)
    ensures Normalize("@" + name) == "@" + name
    ensures !(|name| >= 1 && name[0] == '@') ==> Normalize(name) == Normalize("@" + name)
  {
  }

  predicate CompleteForCreate(body: UsernameFields) {
    Truthy(body.username) && body.priceDay.Some? && body.priceWeek.Some? && body.priceMonth.Some?
  }

  /** POST `/` (admin): 400 on a missing field, 409 when the normalised name is taken. */
  method CreateUsername(db: Db, body: UsernameFields, nowMs: int) returns (r: Response<(nat, Username)>)
    requires db.Valid()
    modifies db
    ensures db.Valid()
    ensures !CompleteForCreate(body) ==> r == Failure(400, "Missing required fields") && unchanged(db)
    ensures CompleteForCreate(body) && HasUsername(old(db.usernames), Normalize(body.username.value)) ==>
      r == Failure(409, "Username already exists") && unchanged(db)
    ensures CompleteForCreate(body) && !HasUsername(old(db.usernames), Normalize(body.username.value)) ==>
      && r == Success(201, (old(db.nextUsernameId),
                            Username(Normalize(body.username.value), body.priceDay.value,
                                     body.priceWeek.value, body.priceMonth.value, nowMs)))
      && db.usernames == old(db.usernames)[r.body.0 := r.body.1]
      && db.nextUsernameId == old(db.nextUsernameId) + 1
      && db.OnlyUsernamesChanged()
  {
    if !CompleteForCreate(body) {
      return Failure(400, "Missing required fields");
    }
    var name := Normalize(body.username.value);
    if HasUsername(db.usernames, name) {
      return Failure(409, "Username already exists");
    }
    var id := db.nextUsernameId;
    var listing := Username(name, body.priceDay.value, body.priceWeek.value, body.priceMonth.value, nowMs);
    db.usernames := db.usernames[id := listing];
    db.nextUsernameId := id + 1;
    return Success(201, (id, listing));
  }

  /** The record after a partial update. The new name is stored as given, without `@` normalisation. */
  function PatchUsername(u: Username, body: UsernameFields): (r: Username)
    ensures r.username == body.username.GetOr(u.username)
    ensures r.priceDay == body.priceDay.GetOr(u.priceDay)
    ensures r.priceWeek == body.priceWeek.GetOr(u.priceWeek)
    ensures r.priceMonth == body.priceMonth.GetOr(u.priceMonth)
    ensures r.createdAt == u.createdAt
  {
    u.(username := body.username.GetOr(u.username),
       priceDay := body.priceDay.GetOr(u.priceDay),
       priceWeek := body.priceWeek.GetOr(u.priceWeek),
       priceMonth := body.priceMonth.GetOr(u.priceMonth))
  }

  predicate NameTakenByOther(usernames: map<nat, Username>, id: nat, name: string) {
    exists other :: other in usernames && other != id && usernames[other].username == name
  }

  /** PUT `/:id` (admin): 404 when there is no such listing, and also when the
      new name belongs to another listing (the unique violation lands in the
      same catch). */
  method UpdateUsername(db: Db, id: nat, body: UsernameFields) returns (r: Response<Username>)
    requires db.Valid()
    modifies db
    ensures db.Valid()
    ensures (id !in old(db.usernames) ||
             (body.username.Some? && NameTakenByOther(old(db.usernames), id, body.username.value))) ==>
      r == Failure(404, "Username not found") && unchanged(db)
    ensures id in old(db.usernames) &&
            !(body.username.Some? && NameTakenByOther(old(db.usernames), id, body.username.value)) ==>
      && r == Success(200, PatchUsername(old(db.usernames)[id], body))
      && db.usernames == old(db.usernames)[id := r.body]
      && db.nextUsernameId == old(db.nextUsernameId)
      && db.OnlyUsernamesChanged()
  {
    if id !in db.usernames {
      return Failure(404, "Username not found");
    }
    if body.username.Some? && NameTakenByOther(db.usernames, id, body.username.value) {
      return Failure(404, "Username not found");
    }
    var updated := PatchUsername(db.usernames[id], body);
    db.usernames := db.usernames[id := updated];
    return Success(200, updated);
  }

  /** DELETE `/:id` (admin): 404 when there is no such listing. */
  method DeleteUsername(db: Db, id: nat) returns (r: Response<bool>)
    requires db.Valid()
    modifies db
    ensures db.Valid()
    ensures id !in old(db.usernames) ==> r == Failure(404, "Username not found") && unchanged(db)
    ensures id in old(db.usernames) ==>
      && r == Success(200, true)
      && db.usernames == old(db.usernames) - {id}
      && db.nextUsernameId == old(db.nextUsernameId)
      && db.OnlyUsernamesChanged()
  {
    if id !in db.usernames {
      return Failure(404, "Username not found");
    }
    db.usernames := db.usernames - {id};
    return Success(200, true);
  }

  function PeriodName(p: Period): string {
    match p
    case Day => "DAY"
    case Week => "WEEK"
    case Month => "MONTH"
  }

  /** `['DAY', 'WEEK', 'MONTH'].includes(period)`, as a period. */
  function ParsePeriod(s: string): (p: Option<Period>)
    ensures p.Some? <==> s == "DAY" || s == "WEEK" || s == "MONTH"
    ensures p.Some? ==> PeriodName(p.value) == s
  {
    if s == "DAY" then Some(Day)
    else if s == "WEEK" then Some(Week)
    else if s == "MONTH" then Some(Month)
    else None
  }

  lemma PeriodNameRoundTrip(p: Period)
    ensures ParsePeriod(PeriodName(p)) == Some(p)
  {
  }

  /** The listing's price for a period (`priceMap[period]`). */
  function PriceFor(u: Username, p: Period): real {
    match p
    case Day => u.priceDay
    case Week => u.priceWeek
    case Month => u.priceMonth
  }

  /** How long a confirmed rental lasts, in milliseconds. */
  function PeriodMs(p: Period): nat {
    match p
    case Day => 86_400_000
    case Week => 604_800_000
    case Month => 2_592_000_000
  }

  /** One day, seven days, thirty days. */
  lemma PeriodLengths()
    ensures PeriodMs(Day) == 24 * 60 * 60 * 1000
    ensures PeriodMs(Week) == 7 * PeriodMs(Day)
    ensures PeriodMs(Month) == 30 * PeriodMs(Day)
  {
  }

  /** The confirmed branch of the settlement: status, `startsAt` and `expiresAt` set, nothing else. */
  function ConfirmRental(r: Rental, nowMs: int): (c: Rental)
    ensures c.status == Confirmed && c.startsAt == Some(nowMs) && c.expiresAt == Some(nowMs + PeriodMs(r.period))
    ensures c.(status := r.status, startsAt := r.startsAt, expiresAt := r.expiresAt) == r
    ensures forall t :: Active(c, r.usernameId, t) <==> t < nowMs + PeriodMs(r.period)
  {
    r.(status := Confirmed, startsAt := Some(nowMs), expiresAt := Some(nowMs + PeriodMs(r.period)))
  }

  /** A confirmed rental occupies its username from the confirmation until its expiry. */
  lemma ConfirmationOccupies(rentals: map<nat, Rental>, rid: nat, nowMs: int, t: int)
    requires rid in rentals
    requires nowMs <= t < nowMs + PeriodMs(rentals[rid].period)
    ensures Occupied(rentals[rid := ConfirmRental(rentals[rid], nowMs)], rentals[rid].usernameId, t)
  {
    var after := rentals[rid := ConfirmRental(rentals[rid], nowMs)];
    assert Active(after[rid], rentals[rid].usernameId, t);
  }

  predicate RentFieldsPresent(walletAddress: Option<string>, boc: Option<string>, period: Option<string>) {
    Truthy(walletAddress) && Truthy(boc) && Truthy(period)
  }

  /** POST `/:id/rent`. In order: the body (400), the period (400), the listing
      (404), occupancy (409, before any broadcast or record), then the
      identifier the broadcast returned against the rentals table only (409).
      `broadcasted` records whether the blob was sent: only once the first
      four checks have passed. */
  method Rent(db: Db, id: nat, user: Auth.TelegramUser, walletAddress: Option<string>,
              boc: Option<string>, period: Option<string>, broadcast: Ton.BroadcastOutcome, nowMs: nat)
    returns (r: Response<RentalStarted>, ghost broadcasted: bool)
    requires db.Valid()
    modifies db
    ensures db.Valid()
    ensures broadcasted <==>
      RentFieldsPresent(walletAddress, boc, period) && ParsePeriod(period.value).Some? &&
      id in old(db.usernames) && !Occupied(old(db.rentals), id, nowMs)
    ensures !RentFieldsPresent(walletAddress, boc, period) ==>
      r == Failure(400, "walletAddress, boc, and period required") && unchanged(db)
    ensures RentFieldsPresent(walletAddress, boc, period) && ParsePeriod(period.value).None? ==>
      r == Failure(400, "period must be DAY, WEEK, or MONTH") && unchanged(db)
    ensures (RentFieldsPresent(walletAddress, boc, period) && ParsePeriod(period.value).Some? &&
             id !in old(db.usernames)) ==>
      r == Failure(404, "Username not found") && unchanged(db)
    ensures (RentFieldsPresent(walletAddress, boc, period) && ParsePeriod(period.value).Some? &&
             id in old(db.usernames) && Occupied(old(db.rentals), id, nowMs)) ==>
      r == Failure(409, "Username is currently occupied") && unchanged(db)
    ensures var txHash := Ton.SendBocAndGetHash(boc.GetOr(""), broadcast, nowMs);
      RentFieldsPresent(walletAddress, boc, period) && ParsePeriod(period.value).Some? &&
      id in old(db.usernames) && !Occupied(old(db.rentals), id, nowMs) && HasRentalTx(old(db.rentals), txHash) ==>
        r == Failure(409, "Transaction already processed") && unchanged(db)
    ensures var txHash := Ton.SendBocAndGetHash(boc.GetOr(""), broadcast, nowMs);
      RentFieldsPresent(walletAddress, boc, period) && ParsePeriod(period.value).Some? &&
      id in old(db.usernames) && !Occupied(old(db.rentals), id, nowMs) && !HasRentalTx(old(db.rentals), txHash) ==>
      && r == Success(200, RentalStarted(old(db.nextRentalId), txHash, Pending))
      && db.rentals == old(db.rentals)[r.body.rentalId :=
           Rental(id, Decimal.IntToString(user.id), walletAddress.value, ParsePeriod(period.value).value,
                  PriceFor(old(db.usernames)[id], ParsePeriod(period.value).value),
                  boc.value, txHash, Pending, None, None, nowMs)]
      && db.nextRentalId == old(db.nextRentalId) + 1
      && db.OnlyRentalsChanged()
    ensures r.Success? ==> GetRental(db, r.body.rentalId, user) == Success(200, db.rentals[r.body.rentalId])
  {
    broadcasted := false;
    if !Truthy(walletAddress) || !Truthy(boc) || !Truthy(period) {
      return Failure(400, "walletAddress, boc, and period required"), broadcasted;
    }
    var p := ParsePeriod(period.value);
    if p.None? {
      return Failure(400, "period must be DAY, WEEK, or MONTH"), broadcasted;
    }
    if id !in db.usernames {
      return Failure(404, "Username not found"), broadcasted;
    }
    var listing := db.usernames[id];
    if Occupied(db.rentals, id, nowMs) {
      return Failure(409, "Username is currently occupied"), broadcasted;
    }
    var tonAmount := PriceFor(listing, p.value);
    var txHash := Ton.SendBocAndGetHash(boc.value, broadcast, nowMs);
    broadcasted := true;
    if HasRentalTx(db.rentals, txHash) {
      return Failure(409, "Transaction already processed"), broadcasted;
    }
    var rentalId := db.nextRentalId;
    var rental := Rental(id, Decimal.IntToString(user.id), walletAddress.value, p.value, tonAmount,
                         boc.value, txHash, Pending, None, None, nowMs);
    db.rentals := db.rentals[rentalId := rental];
    db.nextRentalId := rentalId + 1;
    return Success(200, RentalStarted(rentalId, txHash, Pending)), broadcasted;
  }

  /** The background task of a rent, run once on the PENDING rental it
      created: verify the payment of the rental's amount, then confirm it from
      `confirmMs` for its period, or fail it without setting either date. */
  method SettleRental(db: Db, rentalId: nat, polls: seq<Ton.Poll>, verifyStartMs: int, confirmMs: int)
    returns (verified: bool)
    requires db.Valid()
    requires rentalId in db.rentals && db.rentals[rentalId].status == Pending
    requires db.rentals[rentalId].startsAt == None && db.rentals[rentalId].expiresAt == None
    modifies db
    ensures db.Valid()
    ensures verified == Ton.Verdict(Ton.ExpectedNano(old(db.rentals)[rentalId].tonAmount), verifyStartMs, polls)
    ensures verified ==> db.rentals == old(db.rentals)[rentalId := ConfirmRental(old(db.rentals)[rentalId], confirmMs)]
    ensures !verified ==> db.rentals == old(db.rentals)[rentalId := old(db.rentals)[rentalId].(status := Failed)]
    ensures db.rentals[rentalId].status == (if verified then Confirmed else Failed)
    ensures !verified ==> db.rentals[rentalId].startsAt == None && db.rentals[rentalId].expiresAt == None
    ensures verified ==> forall t :: confirmMs <= t < confirmMs + PeriodMs(old(db.rentals)[rentalId].period) ==>
      Occupied(db.rentals, old(db.rentals)[rentalId].usernameId, t)
    ensures db.nextRentalId == old(db.nextRentalId) && db.OnlyRentalsChanged()
  {
    var rental := db.rentals[rentalId];
    ghost var attempts;
    verified, attempts := Ton.VerifyTonTransaction(rental.txHash, rental.tonAmount, verifyStartMs, polls);
    if verified {
      ghost var before := db.rentals;
      db.rentals := db.rentals[rentalId := ConfirmRental(rental, confirmMs)];
      forall t | confirmMs <= t < confirmMs + PeriodMs(rental.period)
        ensures Occupied(db.rentals, rental.usernameId, t)
      {
        ConfirmationOccupies(before, rentalId, confirmMs, t);
      }
    } else {
      db.rentals := db.rentals[rentalId := rental.(status := Failed)];
    }
  }

  /** GET `/rentals/:rentalId`: the rental, only to the user who placed it. */
  function GetRental(db: Db, rentalId: nat, user: Auth.TelegramUser): (r: Response<Rental>)
    reads db
    ensures r.Success? <==> rentalId in db.rentals && db.rentals[rentalId].telegramId == Decimal.IntToString(user.id)
    ensures r.Success? ==> r == Success(200, db.rentals[rentalId])
    ensures r.Failure? ==> r == Failure(404, "Rental not found")
  {
    if rentalId in db.rentals && db.rentals[rentalId].telegramId == Decimal.IntToString(user.id) then
      Success(200, db.rentals[rentalId])
    else
      Failure(404, "Rental not found")
  }

  /** No two different users can both read the same rental. */
  lemma RentalPollOwnerScoped(db: Db, rentalId: nat, u1: Auth.TelegramUser, u2: Auth.TelegramUser)
    requires GetRental(db, rentalId, u1).Success? && GetRental(db, rentalId, u2).Success?
    ensures u1 == u2
  {
    Decimal.IntToStringInjective(u1.id, u2.id);
  }
}
