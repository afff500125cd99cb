/** The settlement side of the payment pipeline: the broadcast of a signed
    transaction blob and the polling verifier that decides whether a payment
    of the expected value reached the merchant wallet. The ledger API is not
    called: each attempt's response is an input. */
module Ton {
  import Decimal

  /** Polling attempts made before the verdict is "not verified". */
  const MaxAttempts: nat := 15
  /** Only transactions at most this many seconds older than the call can match. */
  const WindowSeconds: int := 120
  /** The tolerance is the expected value divided by this (2%). */
  const ToleranceDivisor: nat := 50

  /** What happened to the `sendBoc` request. */
  datatype BroadcastOutcome =
    | Accepted      // the response reported `ok`
    | Rejected      // the response arrived and did not report `ok`
    | Unreachable   // the request threw (network, timeout, HTTP error)

  /** The identifier `sendBocAndGetHash` hands back, given the clock in
      milliseconds when it returns. The outcome and the blob do not enter into
      it: every path returns `pending_` followed by the time, and nothing throws. */
  function SendBocAndGetHash(boc: string, outcome: BroadcastOutcome, nowMs: nat): (id: string)
    ensures |id| > 8 && id[..8] == "pending_" && Decimal.AllDigits(id[8..])
  {
    match outcome
    case Accepted => "pending_" + Decimal.NatToString(nowMs)
    case Rejected => "pending_" + Decimal.NatToString(nowMs)
    case Unreachable => "pending_" + Decimal.NatToString(nowMs)
  }

  /** Two broadcasts get the same identifier exactly when they return in the
      same millisecond, whatever their blobs and outcomes. */
  lemma FallbackIdDeterminedByClock(boc1: string, o1: BroadcastOutcome, t1: nat,
                                    boc2: string, o2: BroadcastOutcome, t2: nat)
    ensures SendBocAndGetHash(boc1, o1, t1) == SendBocAndGetHash(boc2, o2, t2) <==> t1 == t2
  {
    var a, b := SendBocAndGetHash(boc1, o1, t1), SendBocAndGetHash(boc2, o2, t2);
    assert a[8..] == Decimal.NatToString(t1);
    assert b[8..] == Decimal.NatToString(t2);
    Decimal.NatToStringInjective(t1, t2);
  }

  /** Nano per TON. */
  const NanoPerTon: int := 1_000_000_000

  /** `BigInt(Math.round(expectedValueTon * 1e9))`, on exact reals: the nearest
      integer, halves rounded up. */
  function ExpectedNano(expectedValueTon: real): (n: int)
    ensures n as real <= expectedValueTon * 1_000_000_000.0 + 0.5 < n as real + 1.0
  {
    (expectedValueTon * 1_000_000_000.0 + 0.5).Floor
  }

  /** A whole TON amount converts exactly, and the conversion never decreases. */
  lemma ExpectedNanoLaws(tons: int, x: real, y: real)
    ensures ExpectedNano(tons as real) == tons * NanoPerTon
    ensures x <= y ==> ExpectedNano(x) <= ExpectedNano(y)
  {
  }

  /** `expectedNano / 50n` on BigInt, which truncates toward zero. */
  function Tolerance(expectedNano: int): (t: int)
    ensures expectedNano >= 0 ==> 0 <= t && 50 * t <= expectedNano < 50 * t + 50
    ensures expectedNano < 0 ==> t <= 0 && 50 * t - 50 < expectedNano <= 50 * t
  {
    if expectedNano >= 0 then expectedNano / ToleranceDivisor
    else -((-expectedNano) / ToleranceDivisor)
  }

  /** At most 2% of the expected value, and nothing below 50 nano. */
  lemma ToleranceBounds(expectedNano: int)
    ensures 50 * Abs(Tolerance(expectedNano)) <= Abs(expectedNano)
    ensures Abs(expectedNano) < 50 ==> Tolerance(expectedNano) == 0
    ensures expectedNano >= 50 ==> Tolerance(expectedNano) >= 1
  {
  }

  function Abs(x: int): (r: nat)
    ensures r == x || r == -x
  {
    if x < 0 then -x else x
  }

  /** `Math.floor(Date.now() / 1000) - 120`: the oldest `utime` that can match. */
  function StartTime(nowMs: int): (s: int)
    ensures (s + WindowSeconds) * 1000 <= nowMs < (s + WindowSeconds + 1) * 1000
  {
    nowMs / 1000 - WindowSeconds
  }

  /** `tx.in_msg?.value`: absent (or empty), a decimal value, or a string BigInt rejects. */
  datatype InValue = NoValue | Value(nano: int) | Unparsable

  /** One entry of a `getTransactions` result. */
  datatype LedgerTx = LedgerTx(utime: int, inValue: InValue)

  /** The response to one `getTransactions` request. */
  datatype Poll =
    | Failed                          // the request threw
    | NotOk                           // the response did not report `ok`
    | Ok(result: seq<LedgerTx>)

  /** What the `.find` callback does with one transaction: accept it, reject
      it, or throw (BigInt of an unparsable value). */
  datatype TxCheck = Accept | Reject | Throw

  function NanoOf(v: InValue): int
    requires !v.Unparsable?
  {
    if v.Value? then v.nano else 0
  }

  function CheckTx(tx: LedgerTx, startTime: int, expectedNano: int, tolerance: int): TxCheck {
    if tx.utime < startTime then Reject
    else if tx.inValue.Unparsable? then Throw
    else
      var value := NanoOf(tx.inValue);
      var diff := if value > expectedNano then value - expectedNano else expectedNano - value;
      if diff <= tolerance then Accept else Reject
  }

  /** The match rule: inside the window, and within the tolerance on either side
      (a missing value counts as 0). A transaction outside the window is rejected
      before its value is looked at. */
  lemma CheckTxMeaning(tx: LedgerTx, startTime: int, expectedNano: int, tolerance: int)
    ensures CheckTx(tx, startTime, expectedNano, tolerance) == Accept <==>
      tx.utime >= startTime && !tx.inValue.Unparsable? &&
      expectedNano - tolerance <= NanoOf(tx.inValue) <= expectedNano + tolerance
    ensures CheckTx(tx, startTime, expectedNano, tolerance) == Throw <==>
      tx.utime >= startTime && tx.inValue.Unparsable?
  {
  }

  /** `result.find(...)`: the verdict of the first transaction the callback
      does not reject; `Reject` when it rejects them all. */
  function Scan(txs: seq<LedgerTx>, startTime: int, expectedNano: int, tolerance: int): (r: TxCheck)
    ensures r == Reject <==> forall i :: 0 <= i < |txs| ==> CheckTx(txs[i], startTime, expectedNano, tolerance) == Reject
    ensures r != Reject ==>
      exists i :: (0 <= i < |txs| && CheckTx(txs[i], startTime, expectedNano, tolerance) == r &&
        forall j :: 0 <= j < i ==> CheckTx(txs[j], startTime, expectedNano, tolerance) == Reject)
  {
    if txs == [] then Reject
    else
      var c := CheckTx(txs[0], startTime, expectedNano, tolerance);
      if c != Reject then c
      else
        var rest := Scan(txs[1..], startTime, expectedNano, tolerance);
        assert forall i :: 1 <= i < |txs| ==> txs[i] == txs[1..][i - 1];
        rest
  }

  /** Whether one attempt's response ends the loop with `verified: true`. */
  predicate AttemptMatches(p: Poll, startTime: int, expectedNano: int, tolerance: int) {
    p.Ok? && Scan(p.result, startTime, expectedNano, tolerance) == Accept
  }

  /** The response to attempt `i`; a response not supplied is a failed request. */
  function PollAt(polls: seq<Poll>, i: nat): Poll {
    if i < |polls| then polls[i] else Failed
  }

  function VerdictFrom(polls: seq<Poll>, i: nat, startTime: int, expectedNano: int, tolerance: int): bool
    decreases MaxAttempts - i
  {
    if i >= MaxAttempts then false
    else AttemptMatches(PollAt(polls, i), startTime, expectedNano, tolerance) ||
         VerdictFrom(polls, i + 1, startTime, expectedNano, tolerance)
  }

  /** The verdict for an expected value, the clock (ms) at the call, and the
      ledger's responses to the successive attempts. */
  function Verdict(expectedNano: int, nowMs: int, polls: seq<Poll>): bool {
    VerdictFrom(polls, 0, StartTime(nowMs), expectedNano, Tolerance(expectedNano))
  }

  lemma {:induction false} VerdictFromMeaning(polls: seq<Poll>, i: nat, startTime: int, expectedNano: int, tolerance: int)
    ensures VerdictFrom(polls, i, startTime, expectedNano, tolerance) <==>
      exists k :: i <= k < MaxAttempts && AttemptMatches(PollAt(polls, k), startTime, expectedNano, tolerance)
    decreases MaxAttempts - i
  {
    if i < MaxAttempts {
      VerdictFromMeaning(polls, i + 1, startTime, expectedNano, tolerance);
    }
  }

  /** Verified exactly when one of the first 15 attempts got an `ok` response
      whose first non-rejected transaction matches. A failed or not-ok attempt,
      or one whose scan threw, does not end the loop. */
  lemma VerdictMeaning(expectedNano: int, nowMs: int, polls: seq<Poll>)
    ensures Verdict(expectedNano, nowMs, polls) <==>
      exists k :: 0 <= k < MaxAttempts &&
        AttemptMatches(PollAt(polls, k), StartTime(nowMs), expectedNano, Tolerance(expectedNano))
  {
    VerdictFromMeaning(polls, 0, StartTime(nowMs), expectedNano, Tolerance(expectedNano));
  }

  /** Responses after the fifteenth are never looked at. */
  lemma LaterPollsIgnored(expectedNano: int, nowMs: int, polls: seq<Poll>, more: seq<Poll>)
    requires |polls| >= MaxAttempts
    ensures Verdict(expectedNano, nowMs, polls + more) == Verdict(expectedNano, nowMs, polls)
    ensures Verdict(expectedNano, nowMs, polls) == Verdict(expectedNano, nowMs, polls[..MaxAttempts])
  {
    var st, tol := StartTime(nowMs), Tolerance(expectedNano);
    forall k | 0 <= k < MaxAttempts
      ensures PollAt(polls + more, k) == PollAt(polls, k) == PollAt(polls[..MaxAttempts], k)
    {
    }
    VerdictMeaning(expectedNano, nowMs, polls + more);
    VerdictMeaning(expectedNano, nowMs, polls);
    VerdictMeaning(expectedNano, nowMs, polls[..MaxAttempts]);
  }

  /** A ledger that only ever shows transactions older than the window never verifies. */
  lemma StaleLedgerNeverVerifies(expectedNano: int, nowMs: int, polls: seq<Poll>)
    requires forall k, i :: 0 <= k < |polls| && polls[k].Ok? && 0 <= i < |polls[k].result| ==>
      polls[k].result[i].utime < StartTime(nowMs)
    ensures !Verdict(expectedNano, nowMs, polls)
  {
    var st, tol := StartTime(nowMs), Tolerance(expectedNano);
    forall k | 0 <= k < MaxAttempts
      ensures !AttemptMatches(PollAt(polls, k), st, expectedNano, tol)
    {
      var p := PollAt(polls, k);
      if p.Ok? {
        assert forall i :: 0 <= i < |p.result| ==> CheckTx(p.result[i], st, expectedNano, tol) == Reject;
      }
    }
    VerdictMeaning(expectedNano, nowMs, polls);
  }

  /** Expected 10 TON: 10.05 TON (0.5% off) inside the window verifies on the
      first attempt; 10.50 TON (5% off) never does. */
  lemma ToleranceExample(nowMs: nat)
    ensures Verdict(10_000_000_000, nowMs, [Ok([LedgerTx(nowMs / 1000, Value(10_050_000_000))])])
    ensures !Verdict(10_000_000_000, nowMs, [Ok([LedgerTx(nowMs / 1000, Value(10_500_000_000))])])
  {
    var st, e := StartTime(nowMs), 10_000_000_000;
    assert Tolerance(e) == 200_000_000;
    var good := [Ok([LedgerTx(nowMs / 1000, Value(10_050_000_000))])];
    assert AttemptMatches(PollAt(good, 0), st, e, Tolerance(e));
    VerdictMeaning(e, nowMs, good);
    var bad := [Ok([LedgerTx(nowMs / 1000, Value(10_500_000_000))])];
    forall k | 0 <= k < MaxAttempts
      ensures !AttemptMatches(PollAt(bad, k), st, e, Tolerance(e))
    {
    }
    VerdictMeaning(e, nowMs, bad);
  }

  /** `verifyTonTransaction`. The `txHash` argument is accepted and never read:
      the verdict is `Verdict` of the expected value, the clock and the ledger.
      `attempts` counts the `getTransactions` requests made. */
  method VerifyTonTransaction(txHash: string, expectedValueTon: real, nowMs: int, polls: seq<Poll>)
    returns (verified: bool, ghost attempts: nat)
    ensures verified == Verdict(ExpectedNano(expectedValueTon), nowMs, polls)
    ensures 1 <= attempts <= MaxAttempts
    ensures verified ==>
      AttemptMatches(PollAt(polls, attempts - 1), StartTime(nowMs),
                     ExpectedNano(expectedValueTon), Tolerance(ExpectedNano(expectedValueTon)))
    ensures forall k :: 0 <= k < attempts - 1 ==>
      !AttemptMatches(PollAt(polls, k), StartTime(nowMs),
                      ExpectedNano(expectedValueTon), Tolerance(ExpectedNano(expectedValueTon)))
    ensures !verified ==>
      (attempts == MaxAttempts &&
       !AttemptMatches(PollAt(polls, attempts - 1), StartTime(nowMs),
                       ExpectedNano(expectedValueTon), Tolerance(ExpectedNano(expectedValueTon))))
  {
    var expectedNano := ExpectedNano(expectedValueTon);
    var tolerance := Tolerance(expectedNano);
    var startTime := StartTime(nowMs);
    attempts := 0;
    for i := 0 to MaxAttempts
      invariant attempts == i
      invariant forall k :: 0 <= k < i ==> !AttemptMatches(PollAt(polls, k), startTime, expectedNano, tolerance)
      invariant VerdictFrom(polls, 0, startTime, expectedNano, tolerance) ==
                VerdictFrom(polls, i, startTime, expectedNano, tolerance)
    {
      var resp := PollAt(polls, i);
      attempts := i + 1;
      if resp.Failed? {
        continue;   // the error is logged and the loop goes on
      }
      if resp.NotOk? {
        continue;
      }
      var found := Scan(resp.result, startTime, expectedNano, tolerance);
      if found == Throw {
        continue;   // BigInt threw inside `find`; caught like a request error
      }
      if found == Accept {
        return true, attempts;
      }
    }
    return false, attempts;
  }
}
