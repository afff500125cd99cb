/** Telegram Mini App identity: validating the signed init data a client
    sends and the two middlewares built on it. HMAC-SHA256 keyed by the bot
    token, `decodeURIComponent` with `URLSearchParams`, and `JSON.parse` of the
    user field are collaborators passed in as functions. */
module Auth {
  import opened Wrappers
  import Decimal

  /** The decoded query parameters, in the order they appear. */
  type Params = seq<(string, string)>

  /** The caller's Telegram identity; only its numeric id is used by the routes. */
  datatype TelegramUser = TelegramUser(id: int)

  /** What `JSON.parse` makes of the `user` parameter: it throws, it yields a
      falsy value, or it yields a user object. */
  datatype UserField = Malformed | NotAUser | User(user: TelegramUser)

  /** `authDate` is `None` where `parseInt` yields NaN. */
  datatype InitData = InitData(queryId: Option<string>, user: Option<TelegramUser>,
                               authDate: Option<int>, hash: string)

  datatype Collaborators = Collaborators(
    decodePayload: string -> Option<Params>,   // decodeURIComponent + URLSearchParams; None when it throws
    mac: string -> string,                     // hex HMAC of a data-check-string under the bot's secret key
    decodeUser: string -> UserField)

  /** Oldest accepted `auth_date`, in seconds before the clock. */
  const MaxAgeSeconds: int := 3600

  /** `params.get(key)`: the value of the first parameter named `key`. */
  function Get(params: Params, key: string): Option<string> {
    if params == [] then None
    else if params[0].0 == key then Some(params[0].1)
    else Get(params[1..], key)
  }

  /** `get` finds a value exactly when some parameter has the key, and the
      value it finds is that of the first such parameter. */
  lemma {:induction false} GetFindsFirst(params: Params, key: string)
    ensures Get(params, key).Some? <==> exists i :: 0 <= i < |params| && params[i].0 == key
    ensures Get(params, key).Some? ==>
      exists i :: (0 <= i < |params| && params[i] == (key, Get(params, key).value) &&
        forall j :: 0 <= j < i ==> params[j].0 != key)
  {
    if params != [] && params[0].0 != key {
      GetFindsFirst(params[1..], key);
      assert forall i :: 1 <= i < |params| ==> params[i] == params[1..][i - 1];
      if Get(params, key).Some? {
        var i :| 0 <= i < |params[1..]| && params[1..][i] == (key, Get(params, key).value) &&
          forall j :: 0 <= j < i ==> params[1..][j].0 != key;
        assert params[i + 1] == (key, Get(params, key).value);
        assert forall j :: 0 <= j < i + 1 ==> params[j].0 != key by {
          forall j | 0 <= j < i + 1 ensures params[j].0 != key {
            if j > 0 { assert params[j] == params[1..][j - 1]; }
          }
        }
      }
    }
  }

  /** `params.delete(key)`: every parameter named `key` removed, the rest kept in order. */
  function Delete(params: Params, key: string): Params {
    if params == [] then []
    else (if params[0].0 == key then [] else [params[0]]) + Delete(params[1..], key)
  }

  /** What survives a `delete`: exactly the parameters with another key. */
  lemma {:induction false} DeleteKeepsOthers(params: Params, key: string)
    ensures forall e :: e in Delete(params, key) <==> e in params && e.0 != key
  {
    if params != [] {
      DeleteKeepsOthers(params[1..], key);
      assert params == [params[0]] + params[1..];
    }
  }

  lemma {:induction false} DeleteAppend(a: Params, b: Params, key: string)
    ensures Delete(a + b, key) == Delete(a, key) + Delete(b, key)
  {
    if a != [] {
      assert (a + b)[1..] == a[1..] + b;
      DeleteAppend(a[1..], b, key);
    } else {
      assert a + b == b;
    }
  }

  lemma {:induction false} GetAfterDelete(params: Params, deleted: string, key: string)
    requires key != deleted
    ensures Get(Delete(params, deleted), key) == Get(params, key)
  {
    if params != [] {
      GetAfterDelete(params[1..], deleted, key);
      var tail := Delete(params[1..], deleted);
      if params[0].0 != deleted {
        assert Delete(params, deleted) == [params[0]] + tail;
        assert ([params[0]] + tail)[1..] == tail;
      } else {
        assert Delete(params, deleted) == tail;
      }
    }
  }

  /** Code-unit order on strings, standing for `localeCompare`. */
  predicate KeyLe(a: string, b: string) {
    if a == [] then true
    else if b == [] then false
    else if a[0] != b[0] then a[0] < b[0]
    else KeyLe(a[1..], b[1..])
  }

  lemma {:induction false} KeyLeTotal(a: string, b: string)
    ensures KeyLe(a, b) || KeyLe(b, a)
  {
    if a != [] && b != [] && a[0] == b[0] {
      KeyLeTotal(a[1..], b[1..]);
    }
  }

  lemma {:induction false} KeyLeReflexive(a: string)
    ensures KeyLe(a, a)
  {
    if a != [] {
      KeyLeReflexive(a[1..]);
    }
  }

  /** The parameters named `key`, in their order. */
  function WithKey(params: Params, key: string): Params {
    if params == [] then []
    else (if params[0].0 == key then [params[0]] else []) + WithKey(params[1..], key)
  }

  predicate SortedByKey(params: Params) {
    forall i :: 0 <= i < |params| - 1 ==> KeyLe(params[i].0, params[i + 1].0)
  }

  function InsertByKey(e: (string, string), sorted: Params): (r: Params)
    requires SortedByKey(sorted)
    ensures SortedByKey(r)
    ensures multiset(r) == multiset(sorted) + multiset{e}
    ensures |r| == |sorted| + 1 && (r[0] == e || (|sorted| > 0 && r[0] == sorted[0]))
  {
    if sorted == [] || KeyLe(e.0, sorted[0].0) then [e] + sorted
    else
      KeyLeTotal(e.0, sorted[0].0);
      assert sorted == [sorted[0]] + sorted[1..];
      [sorted[0]] + InsertByKey(e, sorted[1..])
  }

  /** An inserted entry goes before every entry with the same key. */
  lemma {:induction false} InsertByKeyWithKey(e: (string, string), sorted: Params, k: string)
    requires SortedByKey(sorted)
    ensures WithKey(InsertByKey(e, sorted), k) == (if e.0 == k then [e] else []) + WithKey(sorted, k)
  {
    var r := InsertByKey(e, sorted);
    if sorted == [] || KeyLe(e.0, sorted[0].0) {
      assert r == [e] + sorted;
      WithKeyCons(e, sorted, k);
    } else {
      KeyLeReflexive(e.0);
      assert sorted[0].0 != e.0;
      var rest := InsertByKey(e, sorted[1..]);
      assert r == [sorted[0]] + rest;
      InsertByKeyWithKey(e, sorted[1..], k);
      WithKeyCons(sorted[0], rest, k);
      assert sorted == [sorted[0]] + sorted[1..];
      WithKeyCons(sorted[0], sorted[1..], k);
    }
  }

  lemma WithKeyCons(e: (string, string), rest: Params, k: string)
    ensures WithKey([e] + rest, k) == (if e.0 == k then [e] else []) + WithKey(rest, k)
  {
    assert ([e] + rest)[0] == e && ([e] + rest)[1..] == rest;
  }

  /** Sorting keeps the relative order of the entries that share a key. */
  lemma {:induction false} SortByKeyStable(params: Params, k: string)
    ensures WithKey(SortByKey(params), k) == WithKey(params, k)
  {
    if params != [] {
      SortByKeyStable(params[1..], k);
      InsertByKeyWithKey(params[0], SortByKey(params[1..]), k);
    }
  }

  /** `[...params.entries()].sort(([a], [b]) => a.localeCompare(b))`: a stable
      sort by key, so parameters with equal keys keep their order. */
  function SortByKey(params: Params): (r: Params)
    ensures SortedByKey(r)
    ensures multiset(r) == multiset(params)
  {
    if params == [] then []
    else
      assert params == [params[0]] + params[1..];
      InsertByKey(params[0], SortByKey(params[1..]))
  }

  function Render(e: (string, string)): string {
    e.0 + "=" + e.1
  }

  function JoinLines(lines: seq<string>): string {
    if lines == [] then ""
    else if |lines| == 1 then lines[0]
    else lines[0] + "\n" + JoinLines(lines[1..])
  }

  /** `k=v` for each of `rest`, sorted by key, joined with newlines. */
  function SignedString(rest: Params): string {
    var entries := SortByKey(rest);
    JoinLines(seq(|entries|, i requires 0 <= i < |entries| => Render(entries[i])))
  }

  /** The string the hash signs: every parameter but `hash`. */
  function DataCheckString(params: Params): string {
    SignedString(Delete(params, "hash"))
  }

  /** The entries that make up a data-check-string: every parameter not named
      `hash`, each once, sorted by key. */
  lemma CheckedEntries(params: Params)
    ensures var entries := SortByKey(Delete(params, "hash"));
      && SortedByKey(entries)
      && multiset(entries) == multiset(Delete(params, "hash"))
      && (forall i :: 0 <= i < |entries| ==> entries[i].0 != "hash" && entries[i] in params)
      && (forall i :: 0 <= i < |params| && params[i].0 != "hash" ==> params[i] in entries)
  {
    var d := Delete(params, "hash");
    var entries := SortByKey(d);
    DeleteKeepsOthers(params, "hash");
    forall i | 0 <= i < |entries| ensures entries[i].0 != "hash" && entries[i] in params {
      assert entries[i] in multiset(d);
    }
    forall i | 0 <= i < |params| && params[i].0 != "hash" ensures params[i] in entries {
      assert params[i] in d;
      assert params[i] in multiset(entries);
    }
  }

  /** Where the `hash` parameter stands (and its value) does not change what is signed. */
  lemma DataCheckStringIgnoresHash(before: Params, after: Params, h: string)
    ensures DataCheckString(before + [("hash", h)] + after) == DataCheckString(before + after)
  {
    DeleteAppend(before + [("hash", h)], after, "hash");
    DeleteAppend(before, [("hash", h)], "hash");
    DeleteAppend(before, after, "hash");
    assert Delete([("hash", h)], "hash") == [];
    assert Delete(before + [("hash", h)] + after, "hash") == Delete(before + after, "hash");
  }

  /** The characters `parseInt` skips before the number: JavaScript's white
      space (tab, vertical tab, form feed, space, no-break space, the byte
      order mark and the other space separators) and line terminators. */
  predicate IsSpace(c: char) {
    || c == '\t' || c == '\U{0B}' || c == '\U{0C}' || c == ' ' || c == '\U{A0}' || c == '\U{FEFF}'
    || c == '\U{1680}' || ('\U{2000}' <= c <= '\U{200A}') || c == '\U{202F}' || c == '\U{205F}'
    || c == '\U{3000}'
    || c == '\n' || c == '\r' || c == '\U{2028}' || c == '\U{2029}'
  }

  /** The longest prefix of `s` made of decimal digits. */
  function DigitPrefix(s: string): (d: string)
    ensures Decimal.AllDigits(d) && d <= s
    ensures |d| < |s| ==> !Decimal.IsDigit(s[|d|])
  {
    if s == [] || !Decimal.IsDigit(s[0]) then [] else [s[0]] + DigitPrefix(s[1..])
  }

  /** `parseInt(s, 10)`: leading white space, an optional sign, then as many
      digits as there are; `None` (NaN) when there is no digit. */
  function ParseInt(s: string): Option<int> {
    if s != [] && IsSpace(s[0]) then ParseInt(s[1..])
    else
      var negative := s != [] && s[0] == '-';
      var unsigned := if s != [] && (s[0] == '-' || s[0] == '+') then s[1..] else s;
      var digits := DigitPrefix(unsigned);
      if digits == [] then None
      else
        var magnitude: int := Decimal.ValueOf(digits);
        Some(if negative then -magnitude else magnitude)
  }

  lemma {:induction false} DigitPrefixOfDigits(s: string)
    requires Decimal.AllDigits(s)
    ensures DigitPrefix(s) == s
  {
    if s != [] {
      DigitPrefixOfDigits(s[1..]);
    }
  }

  /** `parseInt` reads back what `String(n)` writes. */
  lemma ParseIntRoundTrip(n: int)
    ensures ParseInt(Decimal.IntToString(n)) == Some(n)
  {
    var m := if n < 0 then -n else n;
    var digits := Decimal.NatToString(m);
    DigitPrefixOfDigits(digits);
    Decimal.NatToStringRoundTrip(m);
    if n < 0 {
      assert Decimal.IntToString(n)[1..] == digits;
    }
  }

  /** The `auth_date` parameter as the code reads it: `parseInt(get('auth_date') || '0', 10)`. */
  function AuthDate(params: Params): Option<int> {
    var raw := Get(params, "auth_date");
    ParseInt(if raw.Some? && raw.value != "" then raw.value else "0")
  }

  /** `Date.now() / 1000 - authDate > 3600`, multiplied out to whole milliseconds.
      A NaN date compares false, so it is never stale. */
  predicate Stale(authDate: Option<int>, nowMs: int) {
    authDate.Some? && nowMs - 1000 * authDate.value > 1000 * MaxAgeSeconds
  }

  function SuppliedHash(params: Params): Option<string> {
    var h := Get(params, "hash");
    if h.Some? && h.value != "" then h else None
  }

  function UserOf(params: Params, env: Collaborators): UserField {
    var raw := Get(params, "user");
    if raw.Some? && raw.value != "" then env.decodeUser(raw.value) else NotAUser
  }

  /** `parseInitData`. */
  function ParseInitData(params: Params, env: Collaborators, nowMs: int): (r: Option<InitData>)
    ensures r.Some? <==>
      SuppliedHash(params).Some? && env.mac(DataCheckString(params)) == SuppliedHash(params).value &&
      !Stale(AuthDate(params), nowMs) && !UserOf(params, env).Malformed?
    ensures r.Some? ==> r.value.hash == SuppliedHash(params).value && r.value.authDate == AuthDate(params)
    ensures r.Some? ==> (r.value.user.Some? <==> UserOf(params, env).User?)
    ensures r.Some? && r.value.user.Some? ==> UserOf(params, env) == User(r.value.user.value)
  {
    var hash := Get(params, "hash");
    if hash.None? || hash.value == "" then None
    else
      var rest := Delete(params, "hash");
      var computed := env.mac(DataCheckString(params));
      if computed != hash.value then None
      else
        var rawDate := Get(rest, "auth_date");
        GetAfterDelete(params, "hash", "auth_date");
        var authDate := ParseInt(if rawDate.Some? && rawDate.value != "" then rawDate.value else "0");
        if Stale(authDate, nowMs) then None
        else
          var userRaw := Get(rest, "user");
          GetAfterDelete(params, "hash", "user");
          var user := if userRaw.Some? && userRaw.value != "" then env.decodeUser(userRaw.value) else NotAUser;
          if user.Malformed? then None
          else
            var queryId := Get(rest, "query_id");
            Some(InitData(if queryId.Some? && queryId.value != "" then queryId else None,
                          if user.User? then Some(user.user) else None,
                          authDate, hash.value))
  }

  /** Without a `hash` parameter nothing validates. */
  lemma NoHashNoInitData(params: Params, env: Collaborators, nowMs: int)
    requires forall i :: 0 <= i < |params| ==> params[i].0 != "hash"
    ensures ParseInitData(params, env, nowMs) == None
  {
    GetFindsFirst(params, "hash");
  }

  /** A missing `auth_date` is read as 0, the epoch, which is stale for any
      clock later than an hour after it. */
  lemma MissingAuthDateIsStale(params: Params, env: Collaborators, nowMs: int)
    requires forall i :: 0 <= i < |params| ==> params[i].0 != "auth_date"
    requires nowMs > 1000 * MaxAgeSeconds
    ensures ParseInitData(params, env, nowMs) == None
  {
    GetFindsFirst(params, "auth_date");
    assert Decimal.AllDigits("0");
    DigitPrefixOfDigits("0");
    assert "0"[..0] == [];
    assert Decimal.ValueOf("0") == 0;
    assert ParseInt("0") == Some(0);
    assert AuthDate(params) == Some(0);
  }

  datatype Gate = Authenticated(user: TelegramUser) | Rejected(code: nat, error: string)

  /** `authHeader.startsWith('tma ') ? authHeader.slice(4) : (reject)`. */
  function TmaPayload(header: Option<string>): (r: Option<string>)
    ensures r.Some? <==> header.Some? && |header.value| >= 4 && header.value[..4] == "tma "
    ensures r.Some? ==> "tma " + r.value == header.value
  {
    if header.Some? && |header.value| >= 4 && header.value[..4] == "tma " then Some(header.value[4..])
    else None
  }

  /** `requireInitData`: 401 without a `tma ` header or without a valid init
      data carrying a user. A payload `decodeURIComponent` throws on is passed
      to the application's error handler, which answers 500. */
  function RequireInitData(header: Option<string>, env: Collaborators, nowMs: int): (g: Gate)
    ensures g.Authenticated? <==>
      TmaPayload(header).Some? && env.decodePayload(TmaPayload(header).value).Some? &&
      ParseInitData(env.decodePayload(TmaPayload(header).value).value, env, nowMs).Some? &&
      ParseInitData(env.decodePayload(TmaPayload(header).value).value, env, nowMs).value.user.Some?
    ensures g.Authenticated? ==>
      g.user == ParseInitData(env.decodePayload(TmaPayload(header).value).value, env, nowMs).value.user.value
    ensures g.Rejected? ==> g.code == 401 || (g.code == 500 && TmaPayload(header).Some?)
    ensures TmaPayload(header).None? ==> g == Rejected(401, "Missing Telegram auth")
    ensures TmaPayload(header).Some? && env.decodePayload(TmaPayload(header).value).None? ==>
      g == Rejected(500, "Internal server error")
  {
    var payload := TmaPayload(header);
    if payload.None? then Rejected(401, "Missing Telegram auth")
    else
      var params := env.decodePayload(payload.value);
      if params.None? then Rejected(500, "Internal server error")
      else
        var parsed := ParseInitData(params.value, env, nowMs);
        if parsed.None? || parsed.value.user.None? then Rejected(401, "Invalid Telegram initData")
        else Authenticated(parsed.value.user.value)
  }

  /** `requireAdmin`: `requireInitData`, then 403 unless `String(user.id)` is in the admin table. */
  function RequireAdmin(admins: set<string>, header: Option<string>, env: Collaborators, nowMs: int): (g: Gate)
    ensures g.Authenticated? <==>
      RequireInitData(header, env, nowMs).Authenticated? &&
      Decimal.IntToString(RequireInitData(header, env, nowMs).user.id) in admins
    ensures g.Authenticated? ==> g == RequireInitData(header, env, nowMs)
    ensures RequireInitData(header, env, nowMs).Rejected? ==> g == RequireInitData(header, env, nowMs)
  {
    var g := RequireInitData(header, env, nowMs);
    if g.Rejected? then g
    else if Decimal.IntToString(g.user.id) in admins then g
    else Rejected(403, "Forbidden: admin only")
  }
}
