/** transaction-info.ts and transaction-info-management.ts of the discounted asset trade: the
    persisted table of trade records, rewritten by scan-and-replace and searched by full scan. */
module TransactionTable {
  import opened Text

  const UNDER_ESCROW := 0
  const UNDER_TRANSFER := 1
  const UNDER_SETTLEMENT := 2
  const COMPLETED := 3

  /** A trade's identity; records are matched on both parts. */
  datatype TradeInfo = TradeInfo(businessLogicID: string, tradeID: string)

  datatype Request = Request(
    ethereumAccountFrom: string, ethereumAccountTo: string,
    fabricAccountFrom: string, fabricAccountTo: string, assetID: string)

  /** What a record keeps about one ledger transaction; empty strings mean "not yet". */
  datatype Slot = Slot(ledger: string, txID: string, txInfo: string)

  const EMPTY_SLOT := Slot("", "", "")

  datatype TransactionInfo = TransactionInfo(
    key: TradeInfo, request: Request, tradingValue: nat, status: nat,
    escrow: Slot, transfer: Slot, settlement: Slot)

  /** `setRequestInfo`: mode 0 also resets everything that is not request information. */
  function SetRequestInfo(r: TransactionInfo, mode: int, key: TradeInfo, request: Request, tradingValue: nat)
    : (r': TransactionInfo)
  {
    var s := r.(key := key, request := request, tradingValue := tradingValue);
    if mode == 0
    then s.(status := 0, escrow := EMPTY_SLOT, transfer := EMPTY_SLOT, settlement := EMPTY_SLOT)
    else s
  }

  // ----- one change, on one record and on the whole table -----

  /** The `target` of a change: "escrow", "transfer", "settlement", or a name that is ignored. */
  datatype Target = EscrowTx | TransferTx | SettlementTx | OtherTx(name: string)

  datatype Change =
    | Status(status: nat)
    | Data(target: Target, ledger: string, txID: string)
    | Info(target: Target, txInfo: string)

  function Amend(r: TransactionInfo, c: Change): (r': TransactionInfo)
    ensures r'.key == r.key && r'.request == r.request && r'.tradingValue == r.tradingValue
  {
    match c
    case Status(status) => r.(status := status)
    case Data(target, ledger, txID) =>
      if target == EscrowTx then r.(escrow := r.escrow.(ledger := ledger, txID := txID))
      else if target == TransferTx then r.(transfer := r.transfer.(ledger := ledger, txID := txID))
      else if target == SettlementTx then r.(settlement := r.settlement.(ledger := ledger, txID := txID))
      else r
    case Info(target, txInfo) =>
      if target == EscrowTx then r.(escrow := r.escrow.(txInfo := txInfo))
      else if target == TransferTx then r.(transfer := r.transfer.(txInfo := txInfo))
      else if target == SettlementTx then r.(settlement := r.settlement.(txInfo := txInfo))
      else r
  }

  function Rewrite(table: seq<TransactionInfo>, k: TradeInfo, c: Change): (t: seq<TransactionInfo>)
    ensures |t| == |table|
    ensures forall i :: 0 <= i < |table| ==>
      t[i] == if table[i].key == k then Amend(table[i], c) else table[i]
  {
    if |table| == 0 then []
    else
      var r := table[|table| - 1];
      Rewrite(table[..|table| - 1], k, c) + [if r.key == k then Amend(r, c) else r]
  }

  // ----- what a change is, field by field -----

  /** A slot with a new ledger and id keeps its text, one with a new text its ledger and id. */
  ghost predicate SlotChanged(slot: Slot, slot': Slot, c: Change)
  {
    match c
    case Status(_) => slot' == slot
    case Data(_, ledger, txID) => slot'.ledger == ledger && slot'.txID == txID && slot'.txInfo == slot.txInfo
    case Info(_, txInfo) => slot'.ledger == slot.ledger && slot'.txID == slot.txID && slot'.txInfo == txInfo
  }

  /** Only the named slot changes, or only the status. */
  ghost predicate Changed(r: TransactionInfo, r': TransactionInfo, c: Change)
  {
    && r'.key == r.key && r'.request == r.request && r'.tradingValue == r.tradingValue
    && r'.status == (if c.Status? then c.status else r.status)
    && (if !c.Status? && c.target == EscrowTx then SlotChanged(r.escrow, r'.escrow, c) else r'.escrow == r.escrow)
    && (if !c.Status? && c.target == TransferTx then SlotChanged(r.transfer, r'.transfer, c)
        else r'.transfer == r.transfer)
    && (if !c.Status? && c.target == SettlementTx then SlotChanged(r.settlement, r'.settlement, c)
        else r'.settlement == r.settlement)
  }

  lemma AmendsExactly(r: TransactionInfo, r': TransactionInfo, c: Change)
    ensures Changed(r, r', c) <==> r' == Amend(r, c)
  {
  }

  /** A rewritten table is the table with that change made to the records of the trade, in
      place, and every other record left alone. */
  lemma RewritesExactly(table: seq<TransactionInfo>, table': seq<TransactionInfo>, k: TradeInfo, c: Change)
    ensures table' == Rewrite(table, k, c) <==>
      && |table'| == |table|
      && forall i :: 0 <= i < |table| ==>
           if table[i].key == k then Changed(table[i], table'[i], c) else table'[i] == table[i]
  {
    if |table'| == |table| {
      forall i | 0 <= i < |table|
        ensures Changed(table[i], table'[i], c) <==> table'[i] == Amend(table[i], c)
      {
        AmendsExactly(table[i], table'[i], c);
      }
    }
  }

  // ----- lookup by transaction id -----

  predicate Carries(r: TransactionInfo, txId: string)
  {
    r.escrow.txID == txId || r.transfer.txID == txId || r.settlement.txID == txId
  }

  /** Full scan without early exit: the last matching record wins. */
  function Lookup(table: seq<TransactionInfo>, txId: string): (r: Option<TransactionInfo>)
  {
    if |table| == 0 then None
    else if Carries(table[|table| - 1], txId) then Some(table[|table| - 1])
    else Lookup(table[..|table| - 1], txId)
  }

  lemma {:induction false} FoundAt(table: seq<TransactionInfo>, txId: string) returns (i: nat)
    requires Lookup(table, txId).Some?
    ensures i < |table| && table[i] == Lookup(table, txId).value && Carries(table[i], txId)
    ensures forall j :: i < j < |table| ==> !Carries(table[j], txId)
  {
    var n := |table| - 1;
    if Carries(table[n], txId) {
      i := n;
    } else {
      i := FoundAt(table[..n], txId);
    }
  }

  lemma {:induction false} FoundNowhere(table: seq<TransactionInfo>, txId: string, i: nat)
    requires Lookup(table, txId).None? && i < |table|
    ensures !Carries(table[i], txId)
  {
    var n := |table| - 1;
    if i < n {
      FoundNowhere(table[..n], txId, i);
    }
  }

  lemma LookupIsLastMatch(table: seq<TransactionInfo>, txId: string)
    ensures Lookup(table, txId).None? <==> forall i :: 0 <= i < |table| ==> !Carries(table[i], txId)
    ensures Lookup(table, txId).Some? ==>
      exists i :: 0 <= i < |table| && table[i] == Lookup(table, txId).value && Carries(table[i], txId)
               && forall j :: i < j < |table| ==> !Carries(table[j], txId)
  {
    if Lookup(table, txId).Some? {
      var _ := FoundAt(table, txId);
    } else {
      forall i | 0 <= i < |table|
        ensures !Carries(table[i], txId)
      {
        FoundNowhere(table, txId, i);
      }
    }
  }

  /** No non-empty transaction id is carried by two records. */
  ghost predicate DistinctIds(table: seq<TransactionInfo>)
  {
    forall i, j, x {:trigger Carries(table[i], x), Carries(table[j], x)} ::
      0 <= i < |table| && 0 <= j < |table| && x != "" && Carries(table[i], x) && Carries(table[j], x) ==> i == j
  }

  lemma LookupAt(table: seq<TransactionInfo>, i: nat, txId: string)
    requires DistinctIds(table) && i < |table| && txId != "" && Carries(table[i], txId)
    ensures Lookup(table, txId) == Some(table[i])
  {
    LookupIsLastMatch(table, txId);
  }

  // ----- the table as a map -----

  ghost predicate DistinctKeys(table: seq<TransactionInfo>)
  {
    forall i, j :: 0 <= i < j < |table| ==> table[i].key != table[j].key
  }

  /** The abstract value of a table: one record per trade. */
  ghost function AsMap(table: seq<TransactionInfo>): (m: map<TradeInfo, TransactionInfo>)
  {
    if |table| == 0 then map[]
    else AsMap(table[..|table| - 1])[table[|table| - 1].key := table[|table| - 1]]
  }

  lemma {:induction false} AsMapHolds(table: seq<TransactionInfo>)
    requires DistinctKeys(table)
    ensures forall k :: k in AsMap(table) <==> exists i :: 0 <= i < |table| && table[i].key == k
    ensures forall i :: 0 <= i < |table| ==> table[i].key in AsMap(table) && AsMap(table)[table[i].key] == table[i]
  {
    if |table| > 0 {
      var n := |table| - 1;
      AsMapHolds(table[..n]);
      forall k | k in AsMap(table)
        ensures exists i :: 0 <= i < |table| && table[i].key == k
      {
        if k == table[n].key {
        } else {
          var i :| 0 <= i < n && table[..n][i].key == k;
          assert table[i].key == k;
        }
      }
      forall i | 0 <= i < |table|
        ensures table[i].key in AsMap(table) && AsMap(table)[table[i].key] == table[i]
      {
        if i < n { assert table[..n][i] == table[i]; }
      }
    }
  }

  ghost function UpdateAt(m: map<TradeInfo, TransactionInfo>, k: TradeInfo, c: Change)
    : (m': map<TradeInfo, TransactionInfo>)
  {
    if k in m then m[k := Amend(m[k], c)] else m
  }

  lemma UpdateLast(m: map<TradeInfo, TransactionInfo>, r: TransactionInfo, k: TradeInfo, c: Change)
    requires r.key !in m
    ensures UpdateAt(m[r.key := r], k, c) ==
            UpdateAt(m, k, c)[r.key := if r.key == k then Amend(r, c) else r]
  {
  }

  /** Scan-and-replace refines a single-key update of the map. */
  lemma {:induction false} RewriteRefinesUpdate(table: seq<TransactionInfo>, k: TradeInfo, c: Change)
    requires DistinctKeys(table)
    ensures AsMap(Rewrite(table, k, c)) == UpdateAt(AsMap(table), k, c)
  {
    if |table| > 0 {
      var n := |table| - 1;
      var r := table[n];
      RewriteRefinesUpdate(table[..n], k, c);
      AsMapHolds(table[..n]);
      UpdateLast(AsMap(table[..n]), r, k, c);
      var t := Rewrite(table, k, c);
      assert t[..n] == Rewrite(table[..n], k, c);
      assert AsMap(t) == AsMap(t[..n])[t[n].key := t[n]];
    }
  }

  lemma RewrittenTwice(table: seq<TransactionInfo>, k: TradeInfo, c: Change, k': TradeInfo, c': Change, i: nat)
    requires k != k' && i < |table|
    ensures Rewrite(Rewrite(table, k, c), k', c')[i] ==
      if table[i].key == k then Amend(table[i], c) else if table[i].key == k' then Amend(table[i], c') else table[i]
  {
    assert Rewrite(table, k, c)[i].key == table[i].key;
  }

  /** Changes to different trades commute. */
  lemma RewritesCommute(table: seq<TransactionInfo>, k: TradeInfo, c: Change, k': TradeInfo, c': Change)
    requires k != k'
    ensures Rewrite(Rewrite(table, k, c), k', c') == Rewrite(Rewrite(table, k', c'), k, c)
  {
    forall i | 0 <= i < |table|
      ensures Rewrite(Rewrite(table, k, c), k', c')[i] == Rewrite(Rewrite(table, k', c'), k, c)[i]
    {
      RewrittenTwice(table, k, c, k', c', i);
      RewrittenTwice(table, k', c', k, c, i);
    }
  }

  /** On a table with distinct keys, a rewrite is an update at one position. */
  lemma RewriteAt(table: seq<TransactionInfo>, i: nat, c: Change)
    requires DistinctKeys(table) && i < |table|
    ensures Rewrite(table, table[i].key, c) == table[i := Amend(table[i], c)]
  {
  }

  // ----- the management object -----

  class TransactionInfoManagement {
    /** The table file; None while it does not exist. */
    var file: Option<seq<TransactionInfo>>

    ghost function Table(): (t: seq<TransactionInfo>)
      reads this
    {
      if file.Some? then file.value else []
    }

    constructor ()
      ensures file == None
    {
      file := None;
    }

    method AddTransactionInfo(r: TransactionInfo)
      modifies this
      ensures file == Some(old(Table()) + [r])
    {
      if file.None? {
        file := Some([]);
      }
      file := Some(file.value + [r]);
    }

    /** Returns false where the source throws for want of the table file. */
    method SetStatus(k: TradeInfo, status: nat) returns (ok: bool)
      modifies this
      ensures ok == old(file.Some?) == file.Some?
      ensures Table() == Rewrite(old(Table()), k, Status(status))
    {
      if file.None? {
        return false;
      }
      var before, after := file.value, [];
      for i := 0 to |before|
        invariant after == Rewrite(before[..i], k, Status(status))
      {
        var r := before[i];
        if r.key.businessLogicID == k.businessLogicID && r.key.tradeID == k.tradeID {
          r := r.(status := status);
        }
        after := after + [r];
        assert before[..i + 1][..i] == before[..i];
      }
      assert before[..|before|] == before;
      file := Some(after);
      return true;
    }

    method SetTransactionData(k: TradeInfo, target: Target, ledger: string, txID: string) returns (ok: bool)
      modifies this
      ensures ok == old(file.Some?) == file.Some?
      ensures Table() == Rewrite(old(Table()), k, Data(target, ledger, txID))
    {
      if file.None? {
        return false;
      }
      var before, after := file.value, [];
      for i := 0 to |before|
        invariant after == Rewrite(before[..i], k, Data(target, ledger, txID))
      {
        var r := before[i];
        if r.key.businessLogicID == k.businessLogicID && r.key.tradeID == k.tradeID {
          if target == EscrowTx {
            r := r.(escrow := r.escrow.(ledger := ledger, txID := txID));
          } else if target == TransferTx {
            r := r.(transfer := r.transfer.(ledger := ledger, txID := txID));
          } else if target == SettlementTx {
            r := r.(settlement := r.settlement.(ledger := ledger, txID := txID));
          }
        }
        after := after + [r];
        assert before[..i + 1][..i] == before[..i];
      }
      assert before[..|before|] == before;
      file := Some(after);
      return true;
    }

    method SetTxInfo(k: TradeInfo, target: Target, txInfo: string) returns (ok: bool)
      modifies this
      ensures ok == old(file.Some?) == file.Some?
      ensures Table() == Rewrite(old(Table()), k, Info(target, txInfo))
    {
      if file.None? {
        return false;
      }
      var before, after := file.value, [];
      for i := 0 to |before|
        invariant after == Rewrite(before[..i], k, Info(target, txInfo))
      {
        var r := before[i];
        if r.key.businessLogicID == k.businessLogicID && r.key.tradeID == k.tradeID {
          if target == EscrowTx {
            r := r.(escrow := r.escrow.(txInfo := txInfo));
          } else if target == TransferTx {
            r := r.(transfer := r.transfer.(txInfo := txInfo));
          } else if target == SettlementTx {
            r := r.(settlement := r.settlement.(txInfo := txInfo));
          }
        }
        after := after + [r];
        assert before[..i + 1][..i] == before[..i];
      }
      assert before[..|before|] == before;
      file := Some(after);
      return true;
    }

    method GetTransactionInfoByTxId(txId: string) returns (r: Outcome<Option<TransactionInfo>>)
      ensures r == if file.Some? then Returned(Lookup(file.value, txId)) else Threw
    {
      if file.None? {
        return Threw;
      }
      var table, found := file.value, None;
      for i := 0 to |table|
        invariant found == Lookup(table[..i], txId)
      {
        if table[i].escrow.txID == txId || table[i].transfer.txID == txId || table[i].settlement.txID == txId {
          found := Some(table[i]);
        }
        assert table[..i + 1][..i] == table[..i];
      }
      assert table[..|table|] == table;
      return Returned(found);
    }
  }
}
