/** business-logic-asset-trade.ts as it runs: one object over the shared table, whose callbacks
    are the steps of the protocol. */
module AssetTrade {
  import opened Text
  import opened TransactionTable
  import opened TradeProtocol

  lemma NextFromEscrow(s: State, r: TransactionInfo, txInfo: string, txId: string)
    requires Lookup(s.table, txId) == Some(r) && r.status == UNDER_ESCROW
    ensures ExecuteNext(s, txInfo, txId) == State(
      Rewrite(Rewrite(s.table, r.key, Info(EscrowTx, txInfo)), r.key, Status(UNDER_TRANSFER)),
      s.inFlight + multiset{TransferCall(r.key)}, s.watchers + multiset{r.key},
      s.log + [TransferSubmitted(r.key, r.request.assetID, r.request.fabricAccountTo)])
  {
    var s' := ExecuteNext(s, txInfo, txId);
    assert SlotOf(r.status) == EscrowTx && r.status + 1 == UNDER_TRANSFER;
    assert s'.inFlight == s.inFlight + multiset{TransferCall(r.key)};
    assert s'.watchers == s.watchers + multiset{r.key};
  }

  lemma NextFromTransfer(s: State, r: TransactionInfo, txInfo: string, txId: string)
    requires Lookup(s.table, txId) == Some(r) && r.status == UNDER_TRANSFER
    ensures ExecuteNext(s, txInfo, txId) == State(
      Rewrite(Rewrite(s.table, r.key, Info(TransferTx, txInfo)), r.key, Status(UNDER_SETTLEMENT)),
      s.inFlight + multiset{SettlementCall(r.key)}, s.watchers,
      s.log + [PayoutSubmitted(r.key, r.request.ethereumAccountTo, r.tradingValue)])
  {
    assert s.watchers + multiset{} == s.watchers;
  }

  lemma NextFromSettlement(s: State, r: TransactionInfo, txInfo: string, txId: string)
    requires Lookup(s.table, txId) == Some(r) && r.status == UNDER_SETTLEMENT
    ensures ExecuteNext(s, txInfo, txId) == State(
      Rewrite(Rewrite(s.table, r.key, Info(SettlementTx, txInfo)), r.key, Status(COMPLETED)),
      s.inFlight, s.watchers, s.log)
  {
    assert s.inFlight + multiset{} == s.inFlight && s.watchers + multiset{} == s.watchers && s.log + [] == s.log;
  }

  lemma NextEvent(table: seq<TransactionInfo>, events: seq<Event>, i: nat)
    requires i < |events|
    ensures FirstKnown(table, events[i..]) ==
      if Lookup(table, events[i].txId).Some? then Some(events[i]) else FirstKnown(table, events[i + 1..])
  {
    assert events[i..][0] == events[i] && events[i..][1..] == events[i + 1..];
  }

  class BusinessLogicAssetTrade {
    const transactionInfoManagement: TransactionInfoManagement
    /** Promises not yet settled and block subscriptions not yet cancelled. */
    var inFlight: multiset<Call>
    var watchers: multiset<TradeInfo>
    ghost var log: seq<Entry>

    ghost function View(): (s: State)
      reads this, transactionInfoManagement
    {
      State(transactionInfoManagement.Table(), inFlight, watchers, log)
    }

    constructor ()
      ensures View() == INITIAL && fresh(transactionInfoManagement)
    {
      transactionInfoManagement := new TransactionInfoManagement();
      inFlight, watchers, log := multiset{}, multiset{}, [];
    }

    /** `startTransaction` from where pricing has resolved. */
    method Start(key: TradeInfo, request: Request, preferred: bool)
      modifies this, transactionInfoManagement
      ensures View() == Apply(old(View()), TradeProtocol.Start(key, request, preferred))
    {
      var transactionInfo := SetRequestInfo(BLANK, 0, key, request, 0);
      var tradingValue := if preferred then 25 else 50;
      transactionInfo := SetRequestInfo(transactionInfo, 1, key, request, tradingValue);
      transactionInfoManagement.AddTransactionInfo(transactionInfo);
      var _ := transactionInfoManagement.SetStatus(key, UNDER_ESCROW);
      FirstTransaction(key, request, tradingValue);
    }

    method FirstTransaction(key: TradeInfo, request: Request, tradingValue: nat)
      modifies this
      ensures inFlight == old(inFlight) + multiset{EscrowCall(key, tradingValue)} && watchers == old(watchers)
      ensures log == old(log) + [EscrowSubmitted(key, request, tradingValue)]
    {
      inFlight := inFlight + multiset{EscrowCall(key, tradingValue)};
      log := log + [EscrowSubmitted(key, request, tradingValue)];
    }

    method SecondTransaction(assetID: string, fabricAccountTo: string, key: TradeInfo)
      modifies this
      ensures inFlight == old(inFlight) + multiset{TransferCall(key)} && watchers == old(watchers) + multiset{key}
      ensures log == old(log) + [TransferSubmitted(key, assetID, fabricAccountTo)]
    {
      watchers := watchers + multiset{key};
      inFlight := inFlight + multiset{TransferCall(key)};
      log := log + [TransferSubmitted(key, assetID, fabricAccountTo)];
    }

    method ThirdTransaction(ethereumAccountTo: string, tradingValue: nat, key: TradeInfo)
      modifies this
      ensures inFlight == old(inFlight) + multiset{SettlementCall(key)} && watchers == old(watchers)
      ensures log == old(log) + [PayoutSubmitted(key, ethereumAccountTo, tradingValue)]
    {
      inFlight := inFlight + multiset{SettlementCall(key)};
      log := log + [PayoutSubmitted(key, ethereumAccountTo, tradingValue)];
    }

    /** A throw by the table search is caught here and nothing else happens. */
    method ExecuteNextTransaction(txInfo: string, txId: string)
      modifies this, transactionInfoManagement
      ensures View() == ExecuteNext(old(View()), txInfo, txId)
    {
      var found := transactionInfoManagement.GetTransactionInfoByTxId(txId);
      if found.Threw? || found.value.None? {
        return;
      }
      var r := found.value.value;
      if r.status == UNDER_ESCROW {
        NextFromEscrow(View(), r, txInfo, txId);
        FromEscrow(r, txInfo);
      } else if r.status == UNDER_TRANSFER {
        NextFromTransfer(View(), r, txInfo, txId);
        FromTransfer(r, txInfo);
      } else if r.status == UNDER_SETTLEMENT {
        NextFromSettlement(View(), r, txInfo, txId);
        FromSettlement(r, txInfo);
      }
    }

    // The three working branches of the dispatch.

    method FromEscrow(r: TransactionInfo, txInfo: string)
      modifies this, transactionInfoManagement
      ensures View() == State(
        Rewrite(Rewrite(old(View()).table, r.key, Info(EscrowTx, txInfo)), r.key, Status(UNDER_TRANSFER)),
        old(inFlight) + multiset{TransferCall(r.key)}, old(watchers) + multiset{r.key},
        old(log) + [TransferSubmitted(r.key, r.request.assetID, r.request.fabricAccountTo)])
    {
      var _ := transactionInfoManagement.SetTxInfo(r.key, EscrowTx, txInfo);
      var _ := transactionInfoManagement.SetStatus(r.key, UNDER_TRANSFER);
      SecondTransaction(r.request.assetID, r.request.fabricAccountTo, r.key);
    }

    method FromTransfer(r: TransactionInfo, txInfo: string)
      modifies this, transactionInfoManagement
      ensures View() == State(
        Rewrite(Rewrite(old(View()).table, r.key, Info(TransferTx, txInfo)), r.key, Status(UNDER_SETTLEMENT)),
        old(inFlight) + multiset{SettlementCall(r.key)}, old(watchers),
        old(log) + [PayoutSubmitted(r.key, r.request.ethereumAccountTo, r.tradingValue)])
    {
      var _ := transactionInfoManagement.SetTxInfo(r.key, TransferTx, txInfo);
      var _ := transactionInfoManagement.SetStatus(r.key, UNDER_SETTLEMENT);
      ThirdTransaction(r.request.ethereumAccountTo, r.tradingValue, r.key);
    }

    method FromSettlement(r: TransactionInfo, txInfo: string)
      modifies transactionInfoManagement
      ensures View() == State(
        Rewrite(Rewrite(old(View()).table, r.key, Info(SettlementTx, txInfo)), r.key, Status(COMPLETED)),
        old(inFlight), old(watchers), old(log))
    {
      var _ := transactionInfoManagement.SetTxInfo(r.key, SettlementTx, txInfo);
      var _ := transactionInfoManagement.SetStatus(r.key, COMPLETED);
    }

    /** The escrow promise resolves; its callback closes over the trade and the amount sent. */
    method EscrowReceipt(key: TradeInfo, value: nat, txId: string, txInfo: string)
      requires EscrowCall(key, value) in inFlight
      modifies this, transactionInfoManagement
      ensures View() == Apply(old(View()), TradeProtocol.EscrowReceipt(key, value, txId, txInfo))
    {
      inFlight := inFlight - multiset{EscrowCall(key, value)};
      log := log + [EscrowConfirmed(key, txId, value)];
      var _ := transactionInfoManagement.SetTransactionData(key, EscrowTx, "ledger001", txId);
      ExecuteNextTransaction(txInfo, txId);
    }

    /** The asset transfer's promise resolves with a usable transaction id. */
    method TransferResult(key: TradeInfo, txId: string)
      requires TransferCall(key) in inFlight
      modifies this, transactionInfoManagement
      ensures View() == Apply(old(View()), TradeProtocol.TransferResult(key, txId))
    {
      inFlight := inFlight - multiset{TransferCall(key)};
      log := log + [TransferRecorded(key, txId)];
      var _ := transactionInfoManagement.SetTransactionData(key, TransferTx, "ledger002", txId);
    }

    /** The payout's promise resolves. */
    method SettlementReceipt(key: TradeInfo, txId: string, txInfo: string)
      requires SettlementCall(key) in inFlight
      modifies this, transactionInfoManagement
      ensures View() == Apply(old(View()), TradeProtocol.SettlementReceipt(key, txId, txInfo))
    {
      inFlight := inFlight - multiset{SettlementCall(key)};
      log := log + [PayoutConfirmed(key, txId)];
      var _ := transactionInfoManagement.SetTransactionData(key, SettlementTx, "ledger003", txId);
      ExecuteNextTransaction(txInfo, txId);
    }

    /** A promise is rejected, or the transfer answers without a transaction id: only logged. */
    method LedgerFailure(call: Call)
      requires call in inFlight
      modifies this
      ensures View() == Apply(old(View()), TradeProtocol.LedgerFailure(call))
    {
      inFlight := inFlight - multiset{call};
    }

    method HasTxIDInTransactions(txId: string) returns (r: Outcome<bool>)
      ensures r == if transactionInfoManagement.file.Some?
                   then Returned(Lookup(transactionInfoManagement.Table(), txId).Some?) else Threw
    {
      var found := transactionInfoManagement.GetTransactionInfoByTxId(txId);
      if found.Threw? {
        return Threw;
      }
      return Returned(found.value.Some?);
    }

    method Act(watcher: TradeInfo, e: Event)
      requires Lookup(View().table, e.txId).Some?
      modifies this, transactionInfoManagement
      ensures View() == Acted(old(View()), watcher, e)
    {
      watchers := watchers - multiset{watcher};
      log := log + [EventActed(Lookup(View().table, e.txId).value.key, watcher, e.txId)];
      ExecuteNextTransaction(e.txInfo, e.txId);
    }

    /** A watcher's `next` callback. */
    method Block(watcher: TradeInfo, events: seq<Event>)
      requires watcher in watchers
      modifies this, transactionInfoManagement
      ensures View() == Apply(old(View()), TradeProtocol.Block(watcher, events))
    {
      OnEvents(watcher, events);
    }

    /** Unsubscribe and act on the first known event, then leave the loop. A search that throws
        is logged and the loop goes on. */
    method OnEvents(watcher: TradeInfo, events: seq<Event>)
      modifies this, transactionInfoManagement
      ensures View() == Delivered(old(View()), watcher, FirstKnown(old(View()).table, events))
    {
      ghost var table := View().table;
      for i := 0 to |events|
        invariant View() == old(View())
        invariant FirstKnown(table, events) == FirstKnown(table, events[i..])
      {
        var known := HasTxIDInTransactions(events[i].txId);
        NextEvent(table, events, i);
        if known.Returned? && known.value {
          Act(watcher, events[i]);
          return;
        }
      }
    }

    /** The callback that a step stands for. */
    method Take(step: Step)
      requires Awaited(inFlight, watchers, step)
      modifies this, transactionInfoManagement
      ensures View() == Apply(old(View()), step)
    {
      match step
      case Start(key, request, preferred) => Start(key, request, preferred);
      case EscrowReceipt(key, value, txId, txInfo) => EscrowReceipt(key, value, txId, txInfo);
      case TransferResult(key, txId) => TransferResult(key, txId);
      case Block(watcher, events) => Block(watcher, events);
      case SettlementReceipt(key, txId, txInfo) => SettlementReceipt(key, txId, txInfo);
      case LedgerFailure(call) => LedgerFailure(call);
    }
  }

  /** The call or the subscription that a callback belongs to exists. */
  predicate Awaited(inFlight: multiset<Call>, watchers: multiset<TradeInfo>, step: Step)
  {
    match step
    case Start(_, _, _) => true
    case EscrowReceipt(key, value, _, _) => EscrowCall(key, value) in inFlight
    case TransferResult(key, _) => TransferCall(key) in inFlight
    case Block(watcher, _) => watcher in watchers
    case SettlementReceipt(key, _, _) => SettlementCall(key) in inFlight
    case LedgerFailure(call) => call in inFlight
  }

  lemma NextOfRun(steps: seq<Step>, states: seq<State>, i: nat)
    requires Run(steps, states) && i < |steps|
    ensures Awaited(states[i].inFlight, states[i].watchers, steps[i])
    ensures states[i + 1] == Apply(states[i], steps[i])
  {
    assert TakesStep(steps, states, i);
  }

  /** Running the callbacks of a fresh object in the order of a run takes it through the states
      of that run, so what is proved of runs is proved of the object. */
  method Execute(steps: seq<Step>, ghost states: seq<State>) returns (b: BusinessLogicAssetTrade)
    requires Run(steps, states)
    ensures b.View() == states[|steps|]
  {
    b := new BusinessLogicAssetTrade();
    for i := 0 to |steps|
      invariant fresh(b) && fresh(b.transactionInfoManagement)
      invariant b.View() == states[i]
    {
      NextOfRun(steps, states, i);
      b.Take(steps[i]);
    }
  }
}
