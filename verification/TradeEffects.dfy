/** What each step does to each record, to the calls in flight and to the watchers, told from the
    step and the record alone. */
module TradeEffects {
  import opened Text
  import opened TransactionTable
  import opened TradeProtocol
  import opened TradeInvariant
  import opened TradeSteps
  import opened TradeKeeps

  // ----- the event a block is acted on for -----

  /** The event is in the block, the table knows it, and it knows none before it. */
  ghost predicate IsFirstKnown(table: seq<TransactionInfo>, events: seq<Event>, e: Event, i: nat)
  {
    && i < |events| && events[i] == e
    && (exists n :: 0 <= n < |table| && Carries(table[n], e.txId))
    && forall j, n :: 0 <= j < i && 0 <= n < |table| ==> !Carries(table[n], events[j].txId)
  }

  lemma {:induction false} FirstKnownExactly(table: seq<TransactionInfo>, events: seq<Event>, e: Event)
    ensures FirstKnown(table, events) == Some(e) <==> exists i :: IsFirstKnown(table, events, e, i)
  {
    if |events| > 0 {
      LookupIsLastMatch(table, events[0].txId);
      if Lookup(table, events[0].txId).Some? {
        KnownAtOnce(table, events, e);
      } else {
        FirstKnownExactly(table, events[1..], e);
        KnownLater(table, events, e);
      }
    }
  }

  lemma KnownAtOnce(table: seq<TransactionInfo>, events: seq<Event>, e: Event)
    requires |events| > 0 && exists n :: 0 <= n < |table| && Carries(table[n], events[0].txId)
    ensures e == events[0] <==> exists i :: IsFirstKnown(table, events, e, i)
  {
    if e == events[0] {
      assert IsFirstKnown(table, events, e, 0);
    }
  }

  lemma KnownLater(table: seq<TransactionInfo>, events: seq<Event>, e: Event)
    requires |events| > 0 && forall n :: 0 <= n < |table| ==> !Carries(table[n], events[0].txId)
    ensures (exists i :: IsFirstKnown(table, events[1..], e, i)) <==> exists i :: IsFirstKnown(table, events, e, i)
  {
    var rest := events[1..];
    if i: nat :| IsFirstKnown(table, rest, e, i) {
      assert forall j :: 1 <= j <= i ==> events[j] == rest[j - 1];
      assert IsFirstKnown(table, events, e, i + 1);
    }
    if i: nat :| IsFirstKnown(table, events, e, i) {
      assert i > 0;
      assert IsFirstKnown(table, rest, e, i - 1);
    }
  }

  // ----- the record -----

  /** A block whose first known event belongs to this trade. */
  predicate ActsOn(s: State, step: Step, k: TradeInfo)
  {
    && step.Block? && FirstKnown(s.table, step.events).Some?
    && Lookup(s.table, FirstKnown(s.table, step.events).value.txId).value.key == k
  }

  predicate EscrowFor(step: Step, k: TradeInfo)
  {
    step.EscrowReceipt? && step.key == k
  }

  predicate ReceiptFor(step: Step, k: TradeInfo)
  {
    step.SettlementReceipt? && step.key == k
  }

  /** The steps that bring a record one status further. */
  predicate Raises(s: State, step: Step, r: TransactionInfo)
  {
    || EscrowFor(step, r.key)
    || (ActsOn(s, step, r.key) && r.status < COMPLETED)
    || (ReceiptFor(step, r.key) && r.status == UNDER_SETTLEMENT)
  }

  /** The slots of a record after a step: a receipt fills the slot of its ledger, the transfer's
      answer gives its id, and an event gives its text to the slot the trade is waiting for. A
      receipt that comes after completion leaves the text that completed the trade. */
  ghost predicate SlotsAfter(s: State, step: Step, r: TransactionInfo, r': TransactionInfo)
  {
    && (if EscrowFor(step, r.key) then r'.escrow == Slot("ledger001", step.txId, step.txInfo)
        else r'.escrow == r.escrow)
    && (if step.TransferResult? && step.key == r.key
        then r'.transfer == Slot("ledger002", step.txId, r.transfer.txInfo)
        else if ActsOn(s, step, r.key) && r.status == UNDER_TRANSFER
        then r'.transfer == r.transfer.(txInfo := FirstKnown(s.table, step.events).value.txInfo)
        else r'.transfer == r.transfer)
    && (if ReceiptFor(step, r.key)
        then r'.settlement == Slot("ledger003", step.txId,
               if r.status == UNDER_SETTLEMENT then step.txInfo else r.settlement.txInfo)
        else if ActsOn(s, step, r.key) && r.status == UNDER_SETTLEMENT
        then r'.settlement == r.settlement.(txInfo := FirstKnown(s.table, step.events).value.txInfo)
        else r'.settlement == r.settlement)
  }

  ghost predicate Progress(s: State, step: Step, r: TransactionInfo, r': TransactionInfo)
  {
    && r'.key == r.key && r'.request == r.request && r'.tradingValue == r.tradingValue
    && r'.status == r.status + (if Raises(s, step, r) then 1 else 0)
    && SlotsAfter(s, step, r, r')
  }

  /** Where a record stands when a step is about it. */
  ghost predicate Timely(s: State, step: Step, r: TransactionInfo)
  {
    && (EscrowFor(step, r.key) ==> r.status == UNDER_ESCROW)
    && (step.TransferResult? && step.key == r.key ==> r.status == UNDER_TRANSFER && r.transfer.txID == "")
    && (ActsOn(s, step, r.key) ==>
          && UNDER_TRANSFER <= r.status <= COMPLETED
          && r.transfer.txID == FirstKnown(s.table, step.events).value.txId
          && Lookup(s.table, r.transfer.txID) == Some(r))
    && (ReceiptFor(step, r.key) ==> UNDER_SETTLEMENT <= r.status <= COMPLETED && r.settlement.txID == "")
  }

  /** A step that is not about this trade. */
  lemma NotConcerned(s: State, step: Step, r: TransactionInfo)
    requires step.Start? || step.LedgerFailure? || (!step.Block? && step.key != r.key)
             || (step.Block? && !ActsOn(s, step, r.key))
    ensures Progress(s, step, r, r) && Timely(s, step, r)
  {
  }

  lemma EscrowProgress(s: State, step: Step, j: nat)
    requires step.EscrowReceipt? && Located(s, j, step.key) && Tracked(s, j) && Enabled(s, step)
    requires forall v :: EscrowCall(step.key, v) in s.inFlight ==> v == s.table[j].tradingValue
    ensures Apply(s, step).table == s.table[j := Apply(s, step).table[j]]
    ensures Progress(s, step, s.table[j], Apply(s, step).table[j]) && Timely(s, step, s.table[j])
  {
    EscrowReceiptForm(s, step, j);
    EscrowedProgress(s, step, s.table[j]);
  }

  lemma EscrowedProgress(s: State, step: Step, r: TransactionInfo)
    requires EscrowFor(step, r.key) && r.status == UNDER_ESCROW
    ensures Progress(s, step, r, Escrowed(r, step.txId, step.txInfo))
  {
  }

  lemma TransferProgress(s: State, step: Step, j: nat)
    requires step.TransferResult? && Located(s, j, step.key) && Tracked(s, j) && Enabled(s, step)
    ensures Apply(s, step).table == s.table[j := Apply(s, step).table[j]]
    ensures Progress(s, step, s.table[j], Apply(s, step).table[j]) && Timely(s, step, s.table[j])
  {
    TransferResultForm(s, step, j);
  }

  lemma SettlementProgress(s: State, step: Step, j: nat)
    requires step.SettlementReceipt? && Located(s, j, step.key) && Tracked(s, j) && Enabled(s, step)
    ensures Apply(s, step).table == s.table[j := Apply(s, step).table[j]]
    ensures Progress(s, step, s.table[j], Apply(s, step).table[j]) && Timely(s, step, s.table[j])
  {
    SettlementReceiptForm(s, step, j);
    SettledProgress(s, step, s.table[j]);
  }

  lemma SettledProgress(s: State, step: Step, r: TransactionInfo)
    requires ReceiptFor(step, r.key) && UNDER_SETTLEMENT <= r.status <= COMPLETED
    ensures Progress(s, step, r, Settled(r, step.txId, step.txInfo))
  {
  }

  lemma BlockProgress(s: State, step: Step, j: nat, e: Event)
    requires step.Block? && j < |s.table| && Located(s, j, s.table[j].key) && Tracked(s, j)
    requires FirstKnown(s.table, step.events) == Some(e) && Lookup(s.table, e.txId) == Some(s.table[j])
    requires s.table[j].status >= UNDER_TRANSFER && s.table[j].transfer.txID == e.txId
    ensures Apply(s, step).table == s.table[j := Apply(s, step).table[j]]
    ensures Progress(s, step, s.table[j], Apply(s, step).table[j]) && Timely(s, step, s.table[j])
  {
    BlockForm(s, step, j, e);
    ActedProgress(s, step, s.table[j], e);
  }

  lemma ActedProgress(s: State, step: Step, r: TransactionInfo, e: Event)
    requires step.Block? && FirstKnown(s.table, step.events) == Some(e) && Lookup(s.table, e.txId) == Some(r)
    requires UNDER_TRANSFER <= r.status <= COMPLETED
    ensures Progress(s, step, r, Advanced(r, e.txInfo))
  {
  }

  /** The record that a step is about, if it is about one. */
  lemma ConcernedRecord(s: State, step: Step) returns (j: nat)
    requires Inv(s) && Enabled(s, step) && !step.Start? && !step.LedgerFailure?
    requires step.Block? ==> FirstKnown(s.table, step.events).Some?
    ensures j < |s.table| && Apply(s, step).table == s.table[j := Apply(s, step).table[j]]
    ensures Progress(s, step, s.table[j], Apply(s, step).table[j]) && Timely(s, step, s.table[j])
    ensures if step.Block? then ActsOn(s, step, s.table[j].key) else s.table[j].key == step.key
  {
    match step
    case EscrowReceipt(k, value, _, _) => j := CallHasRecord(s, EscrowCall(k, value)); EscrowProgress(s, step, j);
    case TransferResult(k, _) => j := CallHasRecord(s, TransferCall(k)); TransferProgress(s, step, j);
    case SettlementReceipt(k, _, _) => j := CallHasRecord(s, SettlementCall(k)); SettlementProgress(s, step, j);
    case Block(_, _) =>
      var i, e := KnownEvent(s, step);
      j := i;
      BlockProgress(s, step, j, e);
  }

  /** Every step changes every record exactly as told. */
  lemma {:induction false} RecordExactly(s: State, step: Step, n: nat)
    requires Inv(s) && Enabled(s, step) && n < |s.table|
    ensures n < |Apply(s, step).table| && Progress(s, step, s.table[n], Apply(s, step).table[n])
    ensures Timely(s, step, s.table[n])
  {
    if step.Start? || step.LedgerFailure? || (step.Block? && FirstKnown(s.table, step.events).None?) {
      if step.Start? { StartForm(s, step); }
      NotConcerned(s, step, s.table[n]);
    } else {
      var j := ConcernedRecord(s, step);
      if n != j {
        assert s.table[n].key != s.table[j].key;
        NotConcerned(s, step, s.table[n]);
      }
    }
  }

  /** A record as `startTransaction` makes it for this request. */
  ghost predicate MadeFor(r: TransactionInfo, step: Step)
  {
    && step.Start? && r.key == step.key && r.request == step.request
    && r.tradingValue == (if step.preferred then 25 else 50) && r.status == UNDER_ESCROW
    && r.escrow == r.transfer == r.settlement == Slot("", "", "")
  }

  /** A record that was not there before was made by a start step, for its request. */
  lemma NewRecordExactly(s: State, step: Step)
    requires Enabled(s, step)
    ensures |Apply(s, step).table| == |s.table| + (if step.Start? then 1 else 0)
    ensures step.Start? ==> MadeFor(Apply(s, step).table[|s.table|], step)
  {
    if step.Start? { StartForm(s, step); }
  }
}
