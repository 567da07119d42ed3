/** What the trade protocol guarantees in every state of every run, with any number of trades
    interleaved and watchers reacting to any known id. */
module TradeTheorems {
  import opened TransactionTable
  import opened TradeProtocol
  import opened TradeInvariant
  import opened TradeKeeps
  import opened TradeEffects

  // ----- what was asked for -----

  /** The start step of a trade with this identity, request and price. */
  ghost predicate Asks(step: Step, k: TradeInfo, request: Request, price: nat)
  {
    step.Start? && step.key == k && step.request == request && price == if step.preferred then 25 else 50
  }

  /** Every record is there for a start step, with its identity, its request and its price. */
  lemma {:induction false} RecordAsAsked(steps: seq<Step>, states: seq<State>, i: nat, n: nat) returns (m: nat)
    requires Run(steps, states) && i < |states| && n < |states[i].table|
    ensures var r := states[i].table[n]; m < i && Asks(steps[m], r.key, r.request, r.tradingValue)
  {
    assert i > 0;
    if n < |states[i - 1].table| {
      m := RecordAsAsked(steps, states, i - 1, n);
      EveryStepForward(steps, states, i - 1);
      assert Forward(states[i - 1].table[n], states[i].table[n]);
    } else {
      m := i - 1;
      assert TakesStep(steps, states, m);
      NewRecordExactly(states[m], steps[m]);
    }
  }

  /** No two start steps of a run are for the same trade. */
  lemma OneStartPerTrade(steps: seq<Step>, states: seq<State>, m: nat, m': nat)
    requires Run(steps, states) && m < m' < |steps| && steps[m].Start? && steps[m'].Start?
    ensures steps[m].key.tradeID != steps[m'].key.tradeID
  {
    var n := |states[m].table|;
    assert TakesStep(steps, states, m) && TakesStep(steps, states, m');
    NewRecordExactly(states[m], steps[m]);
    NeverBack(steps, states, m + 1, m', n);
  }

  /** The escrow that was sent, its payer and amount included, is the one asked for. */
  lemma EscrowAsAsked(steps: seq<Step>, states: seq<State>, i: nat, t: nat) returns (m: nat)
    requires Run(steps, states) && i < |states|
    requires t < |states[i].log| && states[i].log[t].EscrowSubmitted?
    ensures var e := states[i].log[t]; m < i && Asks(steps[m], e.key, e.request, e.value)
  {
    var s := states[i];
    RunKeepsInv(steps, states, i);
    assert s.log[t] in s.log;
    assert HasRecord(s.table, s.log[t].key);
    var n :| 0 <= n < |s.table| && s.table[n].key == s.log[t].key;
    assert BackedBy(s.log, t, s.table, n);
    m := RecordAsAsked(steps, states, i, n);
  }

  // ----- money -----

  /** Confirmed deposits minus payouts sent is the price of the trades under transfer, so the
      escrow account is never overdrawn. */
  lemma EscrowConservation(steps: seq<Step>, states: seq<State>, i: nat)
    requires Run(steps, states) && i < |states|
    ensures Deposits(states[i].log) - Payouts(states[i].log) == Held(states[i].table)
    ensures Payouts(states[i].log) <= Deposits(states[i].log)
  {
    RunKeepsInv(steps, states, i);
  }

  lemma EarlierEntry(log: seq<Entry>, i: nat, e: Entry) returns (n: nat)
    requires i <= |log| && e in log[..i]
    ensures n < i && log[n] == e
  {
    n :| 0 <= n < i && log[..i][n] == e;
  }

  /** The places in a history that lead up to one payout, oldest first. */
  datatype Chain = Chain(request: Request, submitted: nat, deposited: nat, sent: nat, recorded: nat, seen: nat)

  /** A payout is preceded, in this order, by the submission and the confirmed deposit of the
      same trade and amount, the submission of that trade's asset transfer as requested, the
      recording of the transfer's id, and a block event with that id. It goes to the account
      that was requested. */
  ghost predicate LeadsTo(log: seq<Entry>, c: Chain, p: nat)
    requires p < |log| && log[p].PayoutSubmitted?
  {
    var k := log[p].key;
    && c.submitted < c.deposited < c.sent < c.recorded < c.seen < p
    && log[c.submitted] == EscrowSubmitted(k, c.request, log[p].value)
    && log[c.deposited].EscrowConfirmed? && log[c.deposited].key == k && log[c.deposited].value == log[p].value
    && log[c.sent] == TransferSubmitted(k, c.request.assetID, c.request.fabricAccountTo)
    && log[c.recorded].TransferRecorded? && log[c.recorded].key == k
    && log[c.seen].EventActed? && log[c.seen].key == k && log[c.seen].txId == log[c.recorded].txId
    && log[p].to == c.request.ethereumAccountTo
  }

  /** Delivery versus payment, in every state of every run: a payout has such a chain behind it,
      and what the chain calls requested is what the start step of the trade asked for, with the
      price of that step. */
  lemma DeliveryVersusPayment(steps: seq<Step>, states: seq<State>, i: nat, p: nat) returns (c: Chain, m: nat)
    requires Run(steps, states) && i < |states|
    requires p < |states[i].log| && states[i].log[p].PayoutSubmitted?
    ensures LeadsTo(states[i].log, c, p)
    ensures m < i && Asks(steps[m], states[i].log[p].key, c.request, states[i].log[p].value)
    ensures states[i].log[p].to == steps[m].request.ethereumAccountTo
  {
    RunKeepsInv(steps, states, i);
    c := ChainOf(states[i].log, p);
    m := EscrowAsAsked(steps, states, i, c.submitted);
  }

  /** The asset transfer is submitted only after that trade's escrow id was recorded, and with
      the asset and the receiver that its start step asked for. */
  lemma TransferAfterEscrow(steps: seq<Step>, states: seq<State>, i: nat, t: nat)
    returns (request: Request, submitted: nat, deposited: nat, m: nat)
    requires Run(steps, states) && i < |states|
    requires t < |states[i].log| && states[i].log[t].TransferSubmitted?
    ensures var log, k := states[i].log, states[i].log[t].key;
      && submitted < t && deposited < t
      && log[submitted].EscrowSubmitted? && log[submitted].key == k && log[submitted].request == request
      && log[deposited].EscrowConfirmed? && log[deposited].key == k && log[deposited].value == log[submitted].value
      && log[t].assetID == request.assetID && log[t].to == request.fabricAccountTo
      && m < i && Asks(steps[m], k, request, log[submitted].value)
  {
    RunKeepsInv(steps, states, i);
    var log, k := states[i].log, states[i].log[t].key;
    assert CausedAt(log, t);
    var q, x, v :| EscrowSubmitted(k, q, v) in log[..t] && EscrowConfirmed(k, x, v) in log[..t]
                && log[t].assetID == q.assetID && log[t].to == q.fabricAccountTo;
    request := q;
    submitted := EarlierEntry(log, t, EscrowSubmitted(k, q, v));
    deposited := EarlierEntry(log, t, EscrowConfirmed(k, x, v));
    m := EscrowAsAsked(steps, states, i, submitted);
  }

  lemma ChainOf(log: seq<Entry>, p: nat) returns (c: Chain)
    requires Causal(log) && NoRepeat(log) && p < |log| && log[p].PayoutSubmitted?
    ensures LeadsTo(log, c, p)
  {
    var k := log[p].key;
    assert CausedAt(log, p);
    var w, x :| EventActed(k, w, x) in log[..p];
    var seen := EarlierEntry(log, p, EventActed(k, w, x));
    assert CausedAt(log, seen);
    var recorded := EarlierEntry(log, seen, TransferRecorded(k, x));
    assert CausedAt(log, recorded);
    var a, to :| TransferSubmitted(k, a, to) in log[..recorded];
    var sent := EarlierEntry(log, recorded, TransferSubmitted(k, a, to));
    assert CausedAt(log, sent);
    var q, y, v :| EscrowSubmitted(k, q, v) in log[..sent] && EscrowConfirmed(k, y, v) in log[..sent]
                && a == q.assetID && to == q.fabricAccountTo;
    var deposited := EarlierEntry(log, sent, EscrowConfirmed(k, y, v));
    assert CausedAt(log, deposited);
    var q' :| EscrowSubmitted(k, q', v) in log[..deposited];
    var submitted := EarlierEntry(log, deposited, EscrowSubmitted(k, q', v));
    var n := EarlierEntry(log, sent, EscrowSubmitted(k, q, v));
    FirstOfKind(log, n, submitted);
    PayoutMatches(log, p, submitted);
    c := Chain(q', submitted, deposited, sent, recorded, seen);
  }

  lemma FirstOfKind(log: seq<Entry>, n: nat, m: nat)
    requires NoRepeat(log) && n < |log| && m < |log|
    requires log[n].key == log[m].key && Kind(log[n]) == Kind(log[m]) && !log[n].EventActed?
    ensures n == m
  {
    assert n < m ==> Differ(log, n, m);
    assert m < n ==> Differ(log, m, n);
  }

  lemma PayoutMatches(log: seq<Entry>, p: nat, submitted: nat)
    requires NoRepeat(log) && p < |log| && CausedAt(log, p) && log[p].PayoutSubmitted?
    requires submitted < |log| && log[submitted].EscrowSubmitted? && log[submitted].key == log[p].key
    ensures log[submitted].value == log[p].value && log[p].to == log[submitted].request.ethereumAccountTo
  {
    var k, v := log[p].key, log[p].value;
    var q, y :| EscrowSubmitted(k, q, v) in log[..p] && EscrowConfirmed(k, y, v) in log[..p]
             && log[p].to == q.ethereumAccountTo;
    var n := EarlierEntry(log, p, EscrowSubmitted(k, q, v));
    FirstOfKind(log, n, submitted);
  }

  /** At most once: no trade submits two escrows, two transfers or two payouts. */
  lemma AtMostOnce(steps: seq<Step>, states: seq<State>, i: nat, n: nat, m: nat)
    requires Run(steps, states) && i < |states| && n < m < |states[i].log|
    requires Kind(states[i].log[n]) == Kind(states[i].log[m]) && !states[i].log[n].EventActed?
    ensures states[i].log[n].key != states[i].log[m].key
  {
    RunKeepsInv(steps, states, i);
    assert Differ(states[i].log, n, m);
  }

  // ----- progress -----

  /** Every step of a run moves at most one record, forward by at most one status. */
  lemma EveryStepForward(steps: seq<Step>, states: seq<State>, i: nat)
    requires Run(steps, states) && i < |steps|
    ensures OneForward(states[i], states[i + 1])
  {
    RunKeepsInv(steps, states, i);
    assert TakesStep(steps, states, i);
    StepKeepsInv(states[i], steps[i]);
  }

  lemma {:induction false} LogGrows(steps: seq<Step>, states: seq<State>, i: nat, i': nat)
    requires Run(steps, states) && i <= i' < |states|
    ensures states[i].log <= states[i'].log
    decreases i'
  {
    if i < i' {
      LogGrows(steps, states, i, i' - 1);
      EveryStepForward(steps, states, i' - 1);
    }
  }

  /** Across any stretch of a run a record keeps its place, identity, request and price, never
      loses an id once recorded, and never goes back in status. */
  lemma {:induction false} NeverBack(steps: seq<Step>, states: seq<State>, i: nat, i': nat, n: nat)
    requires Run(steps, states) && i <= i' < |states| && n < |states[i].table|
    ensures n < |states[i'].table| && Onward(states[i].table[n], states[i'].table[n], i' - i)
    decreases i'
  {
    if i < i' {
      NeverBack(steps, states, i, i' - 1, n);
      EveryStepForward(steps, states, i' - 1);
      assert Forward(states[i' - 1].table[n], states[i'].table[n]);
    }
  }

  ghost predicate Onward(r: TransactionInfo, r': TransactionInfo, steps: nat)
  {
    && r'.key == r.key && r'.request == r.request && r'.tradingValue == r.tradingValue
    && r.status <= r'.status <= r.status + steps
    && (r.escrow.txID != "" ==> r'.escrow.txID == r.escrow.txID)
    && (r.transfer.txID != "" ==> r'.transfer.txID == r.transfer.txID)
    && (r.settlement.txID != "" ==> r'.settlement.txID == r.settlement.txID)
  }

  /** The filled info slots of every record are exactly the first `status` of escrow, transfer
      and settlement. */
  lemma ProgressSlots(steps: seq<Step>, states: seq<State>, i: nat, n: nat)
    requires Run(steps, states) && i < |states| && n < |states[i].table|
    ensures SlotsFollowStatus(states[i].table[n])
  {
    RunKeepsInv(steps, states, i);
    assert Tracked(states[i], n);
  }

  // ----- the reverse index -----

  ghost predicate Records(e: Entry, txId: string)
  {
    match e
    case EscrowConfirmed(_, x, _) => x == txId
    case TransferRecorded(_, x) => x == txId
    case PayoutConfirmed(_, x) => x == txId
    case _ => false
  }

  /** The last-match-wins scan answers exactly what the history says: it finds nothing for an id
      never recorded, and the record of the one trade an id was recorded for. */
  lemma ReverseIndex(steps: seq<Step>, states: seq<State>, i: nat, txId: string)
    requires Run(steps, states) && i < |states| && txId != ""
    ensures Lookup(states[i].table, txId).Some? <==>
            exists n :: 0 <= n < |states[i].log| && Records(states[i].log[n], txId)
    ensures forall n :: 0 <= n < |states[i].log| && Records(states[i].log[n], txId) ==>
            Lookup(states[i].table, txId).Some? && Lookup(states[i].table, txId).value.key == states[i].log[n].key
  {
    var s := states[i];
    RunKeepsInv(steps, states, i);
    LookupIsLastMatch(s.table, txId);
    if Lookup(s.table, txId).Some? {
      var j :| 0 <= j < |s.table| && Carries(s.table[j], txId);
      CarriedWasRecorded(s, j, txId);
    }
    forall n | 0 <= n < |s.log| && Records(s.log[n], txId)
      ensures Lookup(s.table, txId).Some? && Lookup(s.table, txId).value.key == s.log[n].key
    {
      RecordedIsCarried(s, n, txId);
    }
  }

  lemma CarriedWasRecorded(s: State, j: nat, txId: string)
    requires Inv(s) && j < |s.table| && txId != "" && Carries(s.table[j], txId)
    ensures exists n :: 0 <= n < |s.log| && Records(s.log[n], txId)
  {
    assert Tracked(s, j);
    var r := s.table[j];
    var e := if r.escrow.txID == txId then EscrowConfirmed(r.key, txId, r.tradingValue)
             else if r.transfer.txID == txId then TransferRecorded(r.key, txId)
             else PayoutConfirmed(r.key, txId);
    var n :| 0 <= n < |s.log| && s.log[n] == e;
    assert Records(s.log[n], txId);
  }

  lemma RecordedIsCarried(s: State, n: nat, txId: string)
    requires Inv(s) && n < |s.log| && txId != "" && Records(s.log[n], txId)
    ensures Lookup(s.table, txId).Some? && Lookup(s.table, txId).value.key == s.log[n].key
  {
    assert s.log[n] in s.log;
    assert HasRecord(s.table, s.log[n].key);
    var j :| 0 <= j < |s.table| && s.table[j].key == s.log[n].key;
    assert BackedBy(s.log, n, s.table, j);
    assert Carries(s.table[j], txId);
    LookupAt(s.table, j, txId);
  }
}
