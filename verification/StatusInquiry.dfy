/** business-logic-inquire-asset-trade-status.ts: what a status query answers. */
module StatusInquiry {
  import opened Text
  import opened TransactionTable
  import opened TradeProtocol
  import opened TradeInvariant
  import opened TradeKeeps
  import opened TradeUnsettled

  datatype TransactionStatus = TransactionStatus(state: string, ledger: string, txID: string, txInfo: string)

  datatype StatusData = StatusData(stateInfo: Option<nat>, transactionStatus: seq<TransactionStatus>)

  /** A stored info text is empty or the JSON text of a receipt or event; only the empty one
      does not parse. */
  predicate Parses(text: string)
  {
    text != ""
  }

  ghost predicate FirstOf(table: seq<TransactionInfo>, tradeID: string, i: nat)
  {
    && i < |table| && table[i].key.tradeID == tradeID
    && forall j :: 0 <= j < i ==> table[j].key.tradeID != tradeID
  }

  method GetAssetTradeOperationStatus(file: Option<seq<TransactionInfo>>, tradeID: string)
    returns (r: Outcome<StatusData>)
    ensures file.None? ==> r == Threw
    ensures file.Some? && (forall i :: 0 <= i < |file.value| ==> file.value[i].key.tradeID != tradeID) ==>
      r == Returned(StatusData(None, []))
    ensures forall i: nat :: file.Some? && FirstOf(file.value, tradeID, i) ==>
      var t := file.value[i];
      && (r.Returned? <==> t.escrow.txInfo != "" && t.transfer.txInfo != "" && t.settlement.txInfo != "")
      && (r.Returned? ==>
            && r.value.stateInfo == Some(t.status)
            && r.value.transactionStatus ==
               [TransactionStatus("escrow", t.escrow.ledger, t.escrow.txID, t.escrow.txInfo),
                TransactionStatus("transfer", t.transfer.ledger, t.transfer.txID, t.transfer.txInfo),
                TransactionStatus("settlement", t.settlement.ledger, t.settlement.txID, t.settlement.txInfo)])
  {
    if file.None? {
      return Threw;
    }
    var table := file.value;
    var stateInfo: Option<nat> := None;
    var statuses: seq<TransactionStatus> := [];
    var i := 0;
    while i < |table|
      invariant i <= |table| && stateInfo == None && statuses == []
      invariant forall j :: 0 <= j < i ==> table[j].key.tradeID != tradeID
    {
      var t := table[i];
      if t.key.tradeID == tradeID {
        assert forall n: nat :: FirstOf(table, tradeID, n) ==> n == i;
        stateInfo := Some(t.status);
        if !Parses(t.escrow.txInfo) {
          return Threw;
        }
        statuses := statuses +
          [TransactionStatus("escrow", t.escrow.ledger, t.escrow.txID, t.escrow.txInfo)];
        if !Parses(t.transfer.txInfo) {
          return Threw;
        }
        statuses := statuses +
          [TransactionStatus("transfer", t.transfer.ledger, t.transfer.txID, t.transfer.txInfo)];
        if !Parses(t.settlement.txInfo) {
          return Threw;
        }
        statuses := statuses +
          [TransactionStatus("settlement", t.settlement.ledger, t.settlement.txID, t.settlement.txInfo)];
        break;
      }
      i := i + 1;
    }
    return Returned(StatusData(stateInfo, statuses));
  }

  /** The query in any state of any run: it answers for a known trade exactly when the trade is
      Completed, with one entry per ledger transaction, and throws for every other known trade.
      The settlement entry has no id exactly if the trade was completed by a late replay and no
      settlement receipt has come since. */
  method InquireInRun(ghost steps: seq<Step>, ghost states: seq<State>, ghost i: nat,
                      table: seq<TransactionInfo>, ghost n: nat, tradeID: string)
    returns (r: Outcome<StatusData>)
    requires Run(steps, states) && i < |states| && states[i].table == table
    requires n < |table| && table[n].key.tradeID == tradeID
    ensures r.Returned? <==> table[n].status == COMPLETED
    ensures r.Returned? ==>
      && r.value.stateInfo == Some(COMPLETED)
      && r.value.transactionStatus ==
         [TransactionStatus("escrow", "ledger001", table[n].escrow.txID, table[n].escrow.txInfo),
          TransactionStatus("transfer", "ledger002", table[n].transfer.txID, table[n].transfer.txInfo),
          TransactionStatus("settlement", if table[n].settlement.txID == "" then "" else "ledger003",
                            table[n].settlement.txID, table[n].settlement.txInfo)]
      && table[n].escrow.txID != "" && table[n].transfer.txID != ""
      && (table[n].settlement.txID == "" <==>
          Replayed(steps, states, i, table[n].key) && !Received(steps, i, table[n].key))
  {
    r := GetAssetTradeOperationStatus(Some(table), tradeID);
    RunKeepsInv(steps, states, i);
    UnpaidExactly(steps, states, i, n);
    assert Tracked(states[i], n);
    assert FirstOf(table, tradeID, n);
  }
}
