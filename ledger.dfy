/**
 * The transfer logic of the accounts service stated on values: a store is
 * seen as the map from account id to balance. `TransferAsWritten` is what
 * the code does; `TransferChecked` is the same operation with the missing
 * destination rejected before the first write. The imperative service is
 * proved against `TransferAsWritten`.
 */
module Ledger {
  import opened Results
  import opened Exceptions

  /** Balance of every account in the store, by id. */
  type Balances = map<string, int>

  datatype Kind = Debit | Deposit

  /**
   * One call to the notification service: the account notified, whether
   * money left or reached it, the amount, and the account on the other side.
   */
  datatype Notification = Notification(accountId: string, kind: Kind, amount: int, counterpartId: string)

  /**
   * How a transfer ends: normally, with one of its four exceptions,
   * or with the NullPointerException of `synchronized (null)` when the
   * destination does not exist (after the source has been debited).
   */
  datatype TransferOutcome = Transferred | Rejected(error: TransferError) | NullDestination

  /** The outcome of a transfer, the balances after it and the notifications it sent. */
  datatype Effect = Effect(outcome: TransferOutcome, balances: Balances, notices: seq<Notification>)

  // ----- Money in the store -----

  /** The sum of all balances. */
  ghost function Total(b: Balances): int
    decreases |b|
  {
    if b == map[] then 0
    else
      var id :| id in b;
      assert (b - {id}).Keys == b.Keys - {id};
      b[id] + Total(b - {id})
  }

  /** The sum does not depend on which account is taken out first. */
  lemma {:induction false} TotalRemove(b: Balances, id: string)
    requires id in b
    ensures Total(b) == b[id] + Total(b - {id})
    decreases |b|
  {
    var first :| first in b && Total(b) == b[first] + Total(b - {first});
    if first != id {
      assert (b - {first}).Keys == b.Keys - {first};
      assert (b - {id}).Keys == b.Keys - {id};
      TotalRemove(b - {first}, id);
      TotalRemove(b - {id}, first);
      assert b - {first} - {id} == b - {id} - {first};
    }
  }

  /** Changing one balance changes the sum by exactly the difference. */
  lemma TotalUpdate(b: Balances, id: string, v: int)
    requires id in b
    ensures Total(b[id := v]) == Total(b) - b[id] + v
  {
    TotalRemove(b, id);
    TotalRemove(b[id := v], id);
    assert b[id := v] - {id} == b - {id};
  }

  ghost predicate NonNegative(b: Balances)
  {
    forall id :: id in b ==> b[id] >= 0
  }

  /**
   * `after` is `before` with `amount` moved from `from` to `to`: the same
   * accounts, the two endpoints changed by exactly the amount, all others equal.
   */
  ghost predicate Moved(before: Balances, after: Balances, from: string, to: string, amount: int)
  {
    && after.Keys == before.Keys
    && from in before && to in before
    && after[from] == before[from] - amount
    && after[to] == before[to] + amount
    && forall id :: id in before && id != from && id != to ==> after[id] == before[id]
  }

  /** Moving money between two distinct accounts conserves the store's total. */
  lemma MovedConserves(before: Balances, after: Balances, from: string, to: string, amount: int)
    requires from != to && Moved(before, after, from, to, amount)
    ensures Total(after) == Total(before)
  {
    var mid := before[from := before[from] - amount];
    TotalUpdate(before, from, before[from] - amount);
    TotalUpdate(mid, to, before[to] + amount);
    MovedIsUpdate(before, after, from, to, amount);
  }

  /** `Moved` pins the new balances down to the two updates. */
  lemma MovedIsUpdate(before: Balances, after: Balances, from: string, to: string, amount: int)
    requires Moved(before, after, from, to, amount)
    ensures after == before[from := before[from] - amount][to := after[to]]
  {
    var updated := before[from := before[from] - amount][to := after[to]];
    assert after.Keys == updated.Keys;
    forall id | id in after
      ensures after[id] == updated[id]
    {
    }
  }

  // ----- The transfer -----

  /**
   * The early-exit validation chain of `transfer`, in the code's order: the
   * source must exist, then differ from the destination, then the amount must
   * be positive, then the source must hold at least the amount. The first
   * failing check names the exception; the destination is not looked at.
   */
  function Validate(b: Balances, from: string, to: string, amount: int): (r: Option<TransferError>)
    ensures r == None <==> from in b && from != to && 0 < amount <= b[from]
    ensures from !in b ==> r == Some(NonexistentAccount(from))
    ensures from in b && from == to ==> r == Some(SameAccountTransfer)
    ensures from in b && from != to && amount <= 0 ==> r == Some(InvalidAmount)
    ensures from in b && from != to && 0 < amount && b[from] < amount ==> r == Some(InsufficientFunds(from, amount))
  {
    if from !in b then Some(NonexistentAccount(from))
    else if from == to then Some(SameAccountTransfer)
    else if amount <= 0 then Some(InvalidAmount)
    else if b[from] < amount then Some(InsufficientFunds(from, amount))
    else None
  }

  /** The two notifications of a completed transfer, in the order they are sent. */
  function TransferNotices(from: string, to: string, amount: int): seq<Notification>
  {
    [Notification(from, Debit, amount, to), Notification(to, Deposit, amount, from)]
  }

  /**
   * `transfer(from, to, amount)` as the code runs it: validation, then the
   * debit of the source, then the lookup of the destination, then the credit
   * and the two notifications. A missing destination is only discovered after
   * the debit.
   */
  function TransferAsWritten(b: Balances, from: string, to: string, amount: int): (e: Effect)
    ensures e.outcome.Rejected? <==> Validate(b, from, to, amount).Some?
    ensures e.outcome.Rejected? ==>
              Some(e.outcome.error) == Validate(b, from, to, amount) && e.balances == b && e.notices == []
    ensures e.outcome == Transferred <==> Validate(b, from, to, amount) == None && to in b
    ensures e.outcome == Transferred ==> e.notices == TransferNotices(from, to, amount)
    ensures e.outcome == NullDestination ==>
              to !in b && e.balances == b[from := b[from] - amount] && e.notices == []
  {
    match Validate(b, from, to, amount)
    case Some(err) => Effect(Rejected(err), b, [])
    case None =>
      var debited := b[from := b[from] - amount];
      if to !in b then Effect(NullDestination, debited, [])
      else Effect(Transferred, debited[to := debited[to] + amount], TransferNotices(from, to, amount))
  }

  /**
   * Proof helper for `AccountsService.Transfer`: when validation passes and
   * the destination exists, the code's transfer unfolds to the debit of the
   * source, then the credit of the destination, and both notices.
   */
  lemma CompletedTransferEffect(b: Balances, from: string, to: string, amount: int)
    requires Validate(b, from, to, amount) == None && to in b
    ensures var debited := b[from := b[from] - amount];
            TransferAsWritten(b, from, to, amount)
              == Effect(Transferred, debited[to := debited[to] + amount], TransferNotices(from, to, amount))
  {
  }

  /**
   * A completed transfer moves exactly `amount` from the source, which stays
   * non-negative, to the destination; every other account is unchanged and
   * the store's total is kept.
   */
  lemma CompletedTransferMoves(b: Balances, from: string, to: string, amount: int)
    requires TransferAsWritten(b, from, to, amount).outcome == Transferred
    ensures var after := TransferAsWritten(b, from, to, amount).balances;
            Moved(b, after, from, to, amount) && after[from] >= 0 && Total(after) == Total(b)
  {
    MovedConserves(b, TransferAsWritten(b, from, to, amount).balances, from, to, amount);
  }

  /** No transfer adds or removes an account, or drives a non-negative store negative. */
  lemma TransferKeepsAccounts(b: Balances, from: string, to: string, amount: int)
    ensures var after := TransferAsWritten(b, from, to, amount).balances;
            after.Keys == b.Keys && (NonNegative(b) ==> NonNegative(after))
  {
  }

  /**
   * The transfer with the destination checked before any write: a missing
   * destination is rejected with NonexistentAccount(to) and nothing changes.
   * On every other input it is the code's transfer.
   */
  function TransferChecked(b: Balances, from: string, to: string, amount: int): (e: Effect)
    ensures TransferAsWritten(b, from, to, amount).outcome != NullDestination ==>
              e == TransferAsWritten(b, from, to, amount)
    ensures e.outcome != NullDestination
    ensures e.outcome.Rejected? ==> e.balances == b && e.notices == []
    ensures Validate(b, from, to, amount) == None && to !in b ==> e.outcome == Rejected(NonexistentAccount(to))
  {
    var e := TransferAsWritten(b, from, to, amount);
    if e.outcome == NullDestination then Effect(Rejected(NonexistentAccount(to)), b, []) else e
  }

  /** Whatever its outcome, the checked transfer keeps the accounts, the total and non-negativity. */
  lemma CheckedConserves(b: Balances, from: string, to: string, amount: int)
    ensures var after := TransferChecked(b, from, to, amount).balances;
            after.Keys == b.Keys && Total(after) == Total(b) && (NonNegative(b) ==> NonNegative(after))
  {
    if TransferChecked(b, from, to, amount).outcome == Transferred {
      CompletedTransferMoves(b, from, to, amount);
      TransferKeepsAccounts(b, from, to, amount);
    }
  }

  /** With the destination present, the corrected transfer is the code's transfer. */
  lemma CheckedIsAsWritten(b: Balances, from: string, to: string, amount: int)
    requires to in b
    ensures TransferChecked(b, from, to, amount) == TransferAsWritten(b, from, to, amount)
  {
  }

  /**
   * The code's handling of a missing destination destroys money: the source
   * has lost `amount` and no account has gained it.
   */
  lemma NullDestinationLosesAmount(b: Balances, from: string, to: string, amount: int)
    requires TransferAsWritten(b, from, to, amount).outcome == NullDestination
    ensures amount > 0 && Total(TransferAsWritten(b, from, to, amount).balances) == Total(b) - amount
  {
    TotalUpdate(b, from, b[from] - amount);
  }

  /** A store holding only A with 1000; transferring 100 from A to the absent B leaves A with 900. */
  lemma MissingDestinationDebitsSource()
    ensures var e := TransferAsWritten(map["A" := 1000], "A", "B", 100);
            e.outcome == NullDestination && e.balances == map["A" := 900] && e.notices == []
  {
    var b := map["A" := 1000];
    assert Validate(b, "A", "B", 100) == None;
    assert "B" !in b;
  }

  /**
   * A completed transfer followed by the same amount in the opposite direction
   * completes too and restores every balance, as long as the destination's
   * balance was not negative to begin with.
   */
  lemma TransferThenReverseRestores(b: Balances, from: string, to: string, amount: int)
    requires TransferAsWritten(b, from, to, amount).outcome == Transferred
    requires b[to] >= 0
    ensures var there := TransferAsWritten(b, from, to, amount).balances;
            var back := TransferAsWritten(there, to, from, amount);
            back.outcome == Transferred && back.balances == b
  {
    CompletedTransferMoves(b, from, to, amount);
    var there := TransferAsWritten(b, from, to, amount).balances;
    assert Validate(there, to, from, amount) == None;
    var back := TransferAsWritten(there, to, from, amount).balances;
    assert back.Keys == b.Keys;
    assert forall id | id in b :: back[id] == b[id];
  }

  // ----- Runs of transfers -----

  datatype Request = Request(from: string, to: string, amount: int)

  datatype RunResult = RunResult(balances: Balances, outcomes: seq<TransferOutcome>, notices: seq<Notification>)

  /** Transfers performed one after another, each on the balances the previous one left. */
  function Run(b: Balances, requests: seq<Request>): (r: RunResult)
    ensures |r.outcomes| == |requests|
    ensures r.balances.Keys == b.Keys
    ensures Total(r.balances) == Total(b)
    ensures NonNegative(b) ==> NonNegative(r.balances)
    decreases |requests|
  {
    if requests == [] then RunResult(b, [], [])
    else
      var q := requests[0];
      var e := TransferChecked(b, q.from, q.to, q.amount);
      CheckedConserves(b, q.from, q.to, q.amount);
      var rest := Run(e.balances, requests[1..]);
      RunResult(rest.balances, [e.outcome] + rest.outcomes, e.notices + rest.notices)
  }

  /**
   * The code's transfers performed one after another. A missing destination
   * loses money (`NullDestinationLosesAmount`), so only the accounts and
   * non-negativity are kept on every run.
   */
  function RunAsWritten(b: Balances, requests: seq<Request>): (r: RunResult)
    ensures |r.outcomes| == |requests|
    ensures r.balances.Keys == b.Keys
    ensures NonNegative(b) ==> NonNegative(r.balances)
    decreases |requests|
  {
    if requests == [] then RunResult(b, [], [])
    else
      var q := requests[0];
      var e := TransferAsWritten(b, q.from, q.to, q.amount);
      TransferKeepsAccounts(b, q.from, q.to, q.amount);
      var rest := RunAsWritten(e.balances, requests[1..]);
      RunResult(rest.balances, [e.outcome] + rest.outcomes, e.notices + rest.notices)
  }

  /** Every request of the run names a destination that exists. */
  ghost predicate DestinationsPresent(b: Balances, requests: seq<Request>)
  {
    forall i :: 0 <= i < |requests| ==> requests[i].to in b
  }

  /**
   * When every destination exists, a run of the code's transfers is the run
   * of the corrected ones, so it keeps the store's total as well.
   */
  lemma {:induction false} RunsAgree(b: Balances, requests: seq<Request>)
    requires DestinationsPresent(b, requests)
    ensures RunAsWritten(b, requests) == Run(b, requests)
    ensures Total(RunAsWritten(b, requests).balances) == Total(b)
    decreases |requests|
  {
    if requests != [] {
      var q := requests[0];
      assert q.to in b;
      CheckedIsAsWritten(b, q.from, q.to, q.amount);
      var e := TransferAsWritten(b, q.from, q.to, q.amount);
      TransferKeepsAccounts(b, q.from, q.to, q.amount);
      assert DestinationsPresent(e.balances, requests[1..]) by {
        forall i | 0 <= i < |requests[1..]|
          ensures requests[1..][i].to in e.balances
        {
          assert requests[1..][i] == requests[i + 1];
        }
      }
      RunsAgree(e.balances, requests[1..]);
    }
  }

  /** How many times `q` occurs in `requests`. */
  function Count(requests: seq<Request>, q: Request): nat
  {
    if requests == [] then 0
    else (if requests[0] == q then 1 else 0) + Count(requests[1..], q)
  }

  /** The total amount that the occurrences of `q` in `requests` ask to move. */
  function Sent(requests: seq<Request>, q: Request): (n: int)
    ensures q.amount >= 0 ==> n >= 0
  {
    if requests == [] then 0
    else (if requests[0] == q then q.amount else 0) + Sent(requests[1..], q)
  }

  lemma {:induction false} SentIsCountTimesAmount(requests: seq<Request>, q: Request)
    ensures Sent(requests, q) == q.amount * Count(requests, q)
  {
    if requests != [] {
      SentIsCountTimesAmount(requests[1..], q);
    }
  }

  /** `b` with `n` moved from x to y (n may be negative). */
  function Shift(b: Balances, x: string, y: string, n: int): Balances
    requires x in b && y in b
  {
    b[x := b[x] - n][y := b[y] + n]
  }

  ghost predicate AllTransferred(outcomes: seq<TransferOutcome>)
  {
    forall i :: 0 <= i < |outcomes| ==> outcomes[i] == Transferred
  }

  /**
   * A run whose first request is an affordable transfer between x and y
   * completes that transfer, shifting its amount, and carries on from there.
   */
  lemma RunFirstBetween(b: Balances, x: string, y: string, requests: seq<Request>)
    requires requests != []
    requires x != y && x in b && y in b && requests[0].amount > 0
    requires (requests[0].from, requests[0].to) == (x, y) || (requests[0].from, requests[0].to) == (y, x)
    requires b[requests[0].from] >= requests[0].amount
    ensures var q := requests[0];
            var rest := Run(Shift(b, x, y, if q.from == x then q.amount else -q.amount), requests[1..]);
            Run(b, requests).balances == rest.balances && Run(b, requests).outcomes == [Transferred] + rest.outcomes
  {
    var q := requests[0];
    var e := TransferChecked(b, q.from, q.to, q.amount);
    assert e.outcome == Transferred;
    assert e.balances == Shift(b, x, y, if q.from == x then q.amount else -q.amount);
  }

  /**
   * Any interleaving of transfers of `amount` between x and y, in both
   * directions, all complete when each account starts with enough for all of
   * its outgoing transfers; the net flow from x to y is what x sends less
   * what y sends, and no other account changes.
   */
  lemma {:induction false} OpposingTransfers(b: Balances, x: string, y: string, amount: int, requests: seq<Request>)
    requires x != y && x in b && y in b && amount > 0
    requires forall i :: 0 <= i < |requests| ==> requests[i] == Request(x, y, amount) || requests[i] == Request(y, x, amount)
    requires b[x] >= Sent(requests, Request(x, y, amount))
    requires b[y] >= Sent(requests, Request(y, x, amount))
    ensures AllTransferred(Run(b, requests).outcomes)
    ensures Moved(b, Run(b, requests).balances, x, y, Sent(requests, Request(x, y, amount)) - Sent(requests, Request(y, x, amount)))
    decreases |requests|
  {
    var xy, yx := Request(x, y, amount), Request(y, x, amount);
    if requests != [] {
      var tail := requests[1..];
      var n := if requests[0] == xy then amount else -amount;
      var b' := Shift(b, x, y, n);
      FirstOfOpposing(b, x, y, amount, requests);
      OpposingTransfers(b', x, y, amount, tail);
      var m := Sent(tail, xy) - Sent(tail, yx);
      var r, rest := Run(b, requests), Run(b', tail);
      MovedTwice(b, b', rest.balances, x, y, n, m);
      assert AllTransferred(r.outcomes) by {
        forall i | 0 <= i < |requests|
          ensures r.outcomes[i] == Transferred
        {
          if i > 0 {
            assert r.outcomes[i] == rest.outcomes[i - 1];
          }
        }
      }
    }
  }

  /**
   * `OpposingTransfers` for the code's own transfers: both accounts exist, so
   * every transfer completes and the net flow is the same.
   */
  lemma OpposingTransfersAsWritten(b: Balances, x: string, y: string, amount: int, requests: seq<Request>)
    requires x != y && x in b && y in b && amount > 0
    requires forall i :: 0 <= i < |requests| ==> requests[i] == Request(x, y, amount) || requests[i] == Request(y, x, amount)
    requires b[x] >= Sent(requests, Request(x, y, amount))
    requires b[y] >= Sent(requests, Request(y, x, amount))
    ensures AllTransferred(RunAsWritten(b, requests).outcomes)
    ensures Moved(b, RunAsWritten(b, requests).balances, x, y,
                  Sent(requests, Request(x, y, amount)) - Sent(requests, Request(y, x, amount)))
  {
    OpposingTransfers(b, x, y, amount, requests);
    assert DestinationsPresent(b, requests);
    RunsAgree(b, requests);
  }

  lemma ShiftMoves(b: Balances, x: string, y: string, n: int)
    requires x != y && x in b && y in b
    ensures Moved(b, Shift(b, x, y, n), x, y, n)
  {
  }

  /** Two moves between the same pair of accounts add up. */
  lemma MovedTwice(b0: Balances, b1: Balances, b2: Balances, x: string, y: string, n: int, m: int)
    requires x != y && Moved(b0, b1, x, y, n) && Moved(b1, b2, x, y, m)
    ensures Moved(b0, b2, x, y, n + m)
  {
  }

  /**
   * The inductive step of OpposingTransfers: the first request completes, and
   * the rest of the run again satisfies the lemma's premises.
   */
  lemma FirstOfOpposing(b: Balances, x: string, y: string, amount: int, requests: seq<Request>)
    requires requests != []
    requires x != y && x in b && y in b && amount > 0
    requires forall i :: 0 <= i < |requests| ==> requests[i] == Request(x, y, amount) || requests[i] == Request(y, x, amount)
    requires b[x] >= Sent(requests, Request(x, y, amount))
    requires b[y] >= Sent(requests, Request(y, x, amount))
    ensures var xy, yx := Request(x, y, amount), Request(y, x, amount);
            var tail := requests[1..];
            var n := if requests[0] == xy then amount else -amount;
            var b' := Shift(b, x, y, n);
            && x in b' && y in b'
            && (forall i :: 0 <= i < |tail| ==> tail[i] == xy || tail[i] == yx)
            && b'[x] >= Sent(tail, xy) && b'[y] >= Sent(tail, yx)
            && Sent(requests, xy) - Sent(requests, yx) == n + (Sent(tail, xy) - Sent(tail, yx))
            && Moved(b, b', x, y, n)
            && Run(b, requests).balances == Run(b', tail).balances
            && Run(b, requests).outcomes == [Transferred] + Run(b', tail).outcomes
  {
    var xy, yx := Request(x, y, amount), Request(y, x, amount);
    var q, tail := requests[0], requests[1..];
    assert q == xy || q == yx;
    assert Sent(requests, xy) == (if q == xy then amount else 0) + Sent(tail, xy);
    assert Sent(requests, yx) == (if q == yx then amount else 0) + Sent(tail, yx);
    RunFirstBetween(b, x, y, requests);
    ShiftMoves(b, x, y, if q == xy then amount else -amount);
    forall i | 0 <= i < |tail|
      ensures tail[i] == xy || tail[i] == yx
    {
      assert tail[i] == requests[i + 1];
    }
  }

  /**
   * The sequential content of the service's deadlock test: two accounts at
   * 1000, five transfers of 10 each way in any order. Every transfer
   * completes and both balances end at 1000, with the code's transfer as
   * with the corrected one.
   */
  lemma FiveEachWayRestores(b: Balances, x: string, y: string, requests: seq<Request>)
    requires x != y && x in b && y in b && b[x] == 1000 && b[y] == 1000
    requires forall i :: 0 <= i < |requests| ==> requests[i] == Request(x, y, 10) || requests[i] == Request(y, x, 10)
    requires Count(requests, Request(x, y, 10)) == 5 && Count(requests, Request(y, x, 10)) == 5
    ensures AllTransferred(Run(b, requests).outcomes)
    ensures Run(b, requests).balances == b
    ensures AllTransferred(RunAsWritten(b, requests).outcomes) && RunAsWritten(b, requests).balances == b
  {
    SentIsCountTimesAmount(requests, Request(x, y, 10));
    SentIsCountTimesAmount(requests, Request(y, x, 10));
    OpposingTransfers(b, x, y, 10, requests);
    var after := Run(b, requests).balances;
    assert forall id | id in b :: after[id] == b[id];
    assert DestinationsPresent(b, requests);
    RunsAgree(b, requests);
  }
}
