/** The wallet button's balance line: the ledger balance in nano is shown as
    whole TON and two truncated decimals, and the shown text follows the
    connection and the balance request. */
module Wallet {
  import opened Wrappers
  import Decimal

  const NanoPerTon: nat := 1_000_000_000
  /** Nano in one hundredth of a TON. */
  const NanoPerCent: nat := 10_000_000

  /** `${ton}.${nano} TON` with `ton = b / 10^9` and `nano` the first two
      characters of `b % 10^9` zero-padded to nine digits. */
  function FormatBalance(b: nat): string {
    Decimal.NatToString(b / NanoPerTon) + "." +
    Decimal.PadStart(Decimal.NatToString(b % NanoPerTon), 9, '0')[..2] + " TON"
  }

  /** The number of whole hundredths a `W.DD TON` text shows, if it has that shape. */
  function ShownCents(s: string): Option<nat> {
    if |s| >= 8 && s[|s| - 4..] == " TON" && s[|s| - 7] == '.' &&
       Decimal.AllDigits(s[..|s| - 7]) && Decimal.AllDigits(s[|s| - 6..|s| - 4])
    then Some(100 * Decimal.ValueOf(s[..|s| - 7]) + Decimal.ValueOf(s[|s| - 6..|s| - 4]))
    else None
  }

  /** The whole part is the integer quotient, and the fraction is always
      exactly two digits: the hundredths of the remainder. */
  lemma FormatBalanceParts(b: nat)
    ensures FormatBalance(b) ==
      Decimal.NatToString(b / NanoPerTon) + "." + Decimal.FixedWidth((b % NanoPerTon) / NanoPerCent, 2) + " TON"
  {
    var r := b % NanoPerTon;
    Decimal.Pow10Values();
    Decimal.PadStartIsFixedWidth(r, 9);
    Decimal.FixedWidthPrefix(r, 2, 7);
  }

  /** The text shows `b` truncated to hundredths: never rounded up, and less
      than one hundredth below the balance. */
  lemma FormatBalanceTruncates(b: nat)
    ensures ShownCents(FormatBalance(b)) == Some(b / NanoPerCent)
    ensures NanoPerCent * (b / NanoPerCent) <= b < NanoPerCent * (b / NanoPerCent) + NanoPerCent
  {
    FormatBalanceParts(b);
    var q, r := b / NanoPerTon, b % NanoPerTon;
    var t, u := r / NanoPerCent, r % NanoPerCent;
    var w, f := Decimal.NatToString(q), Decimal.FixedWidth(t, 2);
    var s := w + "." + f + " TON";
    assert s[..|s| - 7] == w;
    assert s[|s| - 6..|s| - 4] == f;
    assert s[|s| - 4..] == " TON";
    assert s[|s| - 7] == '.';
    Decimal.NatToStringRoundTrip(q);
    Decimal.TwoDigitsValue(t);
    assert b == NanoPerCent * (100 * q + t) + u;
    Decimal.DivUnique(b, NanoPerCent, 100 * q + t, u);
  }

  /** Different balances within the same hundredth look the same; balances a
      hundredth or more apart never do. */
  lemma FormatBalanceDistinguishesCents(a: nat, b: nat)
    ensures FormatBalance(a) == FormatBalance(b) <==> a / NanoPerCent == b / NanoPerCent
  {
    FormatBalanceTruncates(a);
    FormatBalanceTruncates(b);
    if a / NanoPerCent == b / NanoPerCent {
      FormatBalanceParts(a);
      FormatBalanceParts(b);
      assert a / NanoPerTon == (a / NanoPerCent) / 100 && b / NanoPerTon == (b / NanoPerCent) / 100 by {
        DivNested(a);
        DivNested(b);
      }
      assert (a % NanoPerTon) / NanoPerCent == (a / NanoPerCent) % 100 by { DivNested(a); }
      assert (b % NanoPerTon) / NanoPerCent == (b / NanoPerCent) % 100 by { DivNested(b); }
    }
  }

  /** The whole and hundredths parts read off the count of hundredths. */
  lemma DivNested(b: nat)
    ensures b / NanoPerTon == (b / NanoPerCent) / 100
    ensures (b % NanoPerTon) / NanoPerCent == (b / NanoPerCent) % 100
  {
    var q, r := b / NanoPerTon, b % NanoPerTon;
    var t, u := r / NanoPerCent, r % NanoPerCent;
    assert b == NanoPerCent * (100 * q + t) + u;
    Decimal.DivUnique(b, NanoPerCent, 100 * q + t, u);
    var c := b / NanoPerCent;
    assert c == 100 * q + t;
    Decimal.DivUnique(c, 100, q, t);
  }

  /** What the balance request produced. */
  datatype BalanceReply =
    | FetchFailed                          // the request or the JSON decoding rejected
    | Reply(ok: bool, result: Option<nat>) // `result` is `None` when `BigInt(d.result)` throws

  predicate HasAddress(address: Option<string>) {
    address.Some? && address.value != ""
  }

  /** What happens to the button: the effect runs (on mount and whenever the
      connection changes) with the wallet's address, or the reply to an
      earlier request arrives. The two are separate: a request started by one
      run of the effect can resolve after later runs. */
  datatype WalletEvent =
    | EffectRan(connected: bool, address: Option<string>)
    | ReplyArrived(reply: BalanceReply)

  /** The `balance` state and the number of balance requests still awaiting a reply. */
  datatype ButtonState = ButtonState(balance: Option<string>, inFlight: nat)

  /** The `.then`/`.catch` chain applied to the shown balance: an `ok` reply
      shows its formatted balance, a not-`ok` one changes nothing, and a failed
      request or a `BigInt` that throws clears it. */
  function ApplyReply(reply: BalanceReply, current: Option<string>): (r: Option<string>)
    ensures r.Some? && r != current ==> reply.Reply? && reply.ok && reply.result.Some?
    ensures reply.Reply? && reply.ok && reply.result.Some? ==> r == Some(FormatBalance(reply.result.value))
    ensures reply.Reply? && !reply.ok ==> r == current
    ensures reply.FetchFailed? || (reply.ok && reply.result.None?) ==> r == None
  {
    match reply
    case FetchFailed => None
    case Reply(ok, result) =>
      if !ok then current
      else if result.None? then None
      else Some(FormatBalance(result.value))
  }

  /** The state after one event. The effect clears the balance when
      disconnected, starts a request when connected with an address, and
      otherwise does nothing; it never sets a value itself. A reply is applied
      whatever the connection is by then: the effect has no cleanup. */
  function NextBalance(s: ButtonState, e: WalletEvent): (t: ButtonState)
    ensures e.EffectRan? && !e.connected ==> t == s.(balance := None)
    ensures e.EffectRan? && e.connected ==>
      t.balance == s.balance && t.inFlight == s.inFlight + (if HasAddress(e.address) then 1 else 0)
    ensures e.ReplyArrived? && s.inFlight == 0 ==> t == s
    ensures e.ReplyArrived? && s.inFlight > 0 ==>
      t.inFlight == s.inFlight - 1 && t.balance == ApplyReply(e.reply, s.balance)
    ensures t.balance.Some? && t.balance != s.balance ==>
      e.ReplyArrived? && e.reply.Reply? && e.reply.ok && e.reply.result.Some? &&
      t.balance == Some(FormatBalance(e.reply.result.value))
  {
    match e
    case EffectRan(connected, address) =>
      if !connected then s.(balance := None)
      else if !HasAddress(address) then s
      else s.(inFlight := s.inFlight + 1)
    case ReplyArrived(reply) =>
      if s.inFlight == 0 then s
      else ButtonState(ApplyReply(reply, s.balance), s.inFlight - 1)
  }

  /** The state after a sequence of events, from the initial `null` with no request out. */
  function Run(events: seq<WalletEvent>): ButtonState {
    if |events| == 0 then ButtonState(None, 0)
    else NextBalance(Run(events[..|events| - 1]), events[|events| - 1])
  }

  /** A shown balance is always a formatted ledger balance: the state only
      ever holds `None` or a `FormatBalance` result. */
  lemma {:induction false} BalanceAlwaysFormatted(events: seq<WalletEvent>)
    ensures Run(events).balance.Some? ==> exists b: nat :: Run(events).balance.value == FormatBalance(b)
  {
    if |events| > 0 {
      var n := |events| - 1;
      BalanceAlwaysFormatted(events[..n]);
      var before := Run(events[..n]);
      var after := NextBalance(before, events[n]);
      if after.balance.Some? && after.balance != before.balance {
        assert after.balance.value == FormatBalance(events[n].reply.result.value);
      }
    }
  }

  /** The balance is null right after the effect runs while disconnected, but
      a request started before the disconnect still shows its balance when it
      resolves afterwards. */
  lemma LateReplyAfterDisconnect(address: string, b: nat)
    requires address != ""
    ensures Run([EffectRan(true, Some(address)), EffectRan(false, None)]).balance == None
    ensures Run([EffectRan(true, Some(address)), EffectRan(false, None), ReplyArrived(Reply(true, Some(b)))]).balance
      == Some(FormatBalance(b))
  {
    var e := [EffectRan(true, Some(address)), EffectRan(false, None), ReplyArrived(Reply(true, Some(b)))];
    assert e[..2] == [EffectRan(true, Some(address)), EffectRan(false, None)];
    assert e[..2][..1] == [EffectRan(true, Some(address))];
    assert e[..2][..1][..0] == [];
  }

  /** Replies are applied in arrival order, not request order: an older
      request that resolves last overwrites the newer balance. */
  lemma StaleReplyOverwrites(address: string, older: nat, newer: nat)
    requires address != ""
    ensures var e := [EffectRan(true, Some(address)), EffectRan(true, Some(address)),
                      ReplyArrived(Reply(true, Some(newer))), ReplyArrived(Reply(true, Some(older)))];
      Run(e).balance == Some(FormatBalance(older)) && Run(e).inFlight == 0
  {
    var e := [EffectRan(true, Some(address)), EffectRan(true, Some(address)),
              ReplyArrived(Reply(true, Some(newer))), ReplyArrived(Reply(true, Some(older)))];
    assert e[..3] == [EffectRan(true, Some(address)), EffectRan(true, Some(address)), ReplyArrived(Reply(true, Some(newer)))];
    assert e[..3][..2] == [EffectRan(true, Some(address)), EffectRan(true, Some(address))];
    assert e[..3][..2][..1] == [EffectRan(true, Some(address))];
    assert e[..3][..2][..1][..0] == [];
    assert Run(e[..3][..2][..1]) == ButtonState(None, 1);
    assert Run(e[..3][..2]) == ButtonState(None, 2);
    assert Run(e[..3]) == ButtonState(Some(FormatBalance(newer)), 1);
  }
}
