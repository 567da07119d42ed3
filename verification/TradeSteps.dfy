/** What each step of the trade protocol does to the state, as one change of one record. */
module TradeSteps {
  import opened Text
  import opened TransactionTable
  import opened TradeProtocol
  import opened TradeInvariant

  /** What acting on a record makes of it. */
  function Advanced(r: TransactionInfo, txInfo: string): (r': TransactionInfo)
  {
    if r.status >= COMPLETED then r
    else Amend(Amend(r, Info(SlotOf(r.status), txInfo)), Status(r.status + 1))
  }

  lemma RewriteTwiceAt(table: seq<TransactionInfo>, j: nat, c: Change, c': Change)
    requires DistinctKeys(table) && j < |table|
    ensures var k := table[j].key;
            Rewrite(Rewrite(table, k, c), k, c') == table[j := Amend(Amend(table[j], c), c')]
  {
  }

  /** `s'` is `s` with record `j` replaced by `r`, these calls and watchers, and more history. */
  ghost predicate Becomes(s: State, s': State, j: nat, r: TransactionInfo,
                          inFlight: multiset<Call>, watchers: multiset<TradeInfo>, more: seq<Entry>)
    requires j < |s.table|
  {
    && s'.table == s.table[j := r]
    && s'.inFlight == inFlight
    && s'.watchers == watchers
    && s'.log == s.log + more
  }

  /** `ExecuteNext` on an id that finds record `j`, as one in-place change. */
  lemma ExecuteNextAt(s: State, j: nat, txInfo: string, txId: string)
    requires DistinctKeys(s.table) && j < |s.table| && Lookup(s.table, txId) == Some(s.table[j])
    ensures var r := s.table[j];
            Becomes(s, ExecuteNext(s, txInfo, txId), j, Advanced(r, txInfo),
                    s.inFlight + CalledBy(r), s.watchers + WatchedBy(r), SentBy(r))
  {
    var r := s.table[j];
    if r.status < COMPLETED {
      RewriteTwiceAt(s.table, j, Info(SlotOf(r.status), txInfo), Status(r.status + 1));
    }
  }

  lemma IdsStayDistinct(table: seq<TransactionInfo>, j: nat, r: TransactionInfo, txId: string)
    requires DistinctIds(table) && Fresh(table, txId) && j < |table|
    requires forall x :: x != "" && x != txId && Carries(r, x) ==> Carries(table[j], x)
    ensures DistinctIds(table[j := r])
  {
    var t := table[j := r];
    forall i, i', x | 0 <= i < |t| && 0 <= i' < |t| && x != "" && Carries(t[i], x) && Carries(t[i'], x)
      ensures i == i'
    {
      if x != txId {
        assert Carries(table[i], x) && Carries(table[i'], x);
      }
    }
  }

  lemma SameIdsStayDistinct(table: seq<TransactionInfo>, j: nat, r: TransactionInfo)
    requires DistinctIds(table) && j < |table|
    requires forall x :: Carries(r, x) ==> Carries(table[j], x)
    ensures DistinctIds(table[j := r])
  {
    var t := table[j := r];
    forall i, i', x | 0 <= i < |t| && 0 <= i' < |t| && x != "" && Carries(t[i], x) && Carries(t[i'], x)
      ensures i == i'
    {
      assert Carries(table[i], x) && Carries(table[i'], x);
    }
  }

  lemma AdvancedIds(table: seq<TransactionInfo>, j: nat, txInfo: string)
    requires DistinctIds(table) && j < |table|
    ensures DistinctIds(table[j := Advanced(table[j], txInfo)])
  {
    SameIdsStayDistinct(table, j, Advanced(table[j], txInfo));
  }

  /** Recording a fresh id in record `j` makes it the one record found by that id. */
  lemma Recorded(table: seq<TransactionInfo>, j: nat, c: Change)
    requires DistinctKeys(table) && DistinctIds(table) && j < |table|
    requires c.Data? && !c.target.OtherTx? && Fresh(table, c.txID)
    ensures Rewrite(table, table[j].key, c) == table[j := Amend(table[j], c)]
    ensures DistinctKeys(table[j := Amend(table[j], c)])
    ensures DistinctIds(table[j := Amend(table[j], c)])
    ensures Lookup(table[j := Amend(table[j], c)], c.txID) == Some(Amend(table[j], c))
  {
    var r := Amend(table[j], c);
    RewriteAt(table, j, c);
    IdsStayDistinct(table, j, r, c.txID);
    LookupAt(table[j := r], j, c.txID);
  }

  lemma BecomesAfter(s: State, s1: State, s': State, j: nat, r': TransactionInfo,
                     inFlight: multiset<Call>, watchers: multiset<TradeInfo>, e: Entry, more: seq<Entry>)
    requires j < |s.table| == |s1.table| && s1.table == s.table[j := s1.table[j]] && s1.log == s.log + [e]
    requires Becomes(s1, s', j, r', inFlight, watchers, more)
    ensures Becomes(s, s', j, r', inFlight, watchers, [e] + more)
  {
  }

  /** Recording a fresh id in record `j` and then acting on it. */
  lemma RecordThenAct(s: State, s1: State, j: nat, c: Change, e: Entry, txInfo: string)
    requires DistinctKeys(s.table) && DistinctIds(s.table) && j < |s.table|
    requires c.Data? && !c.target.OtherTx? && Fresh(s.table, c.txID)
    requires s1.table == Rewrite(s.table, s.table[j].key, c) && s1.log == s.log + [e]
    ensures var r := Amend(s.table[j], c);
      && Becomes(s, ExecuteNext(s1, txInfo, c.txID), j, Advanced(r, txInfo),
                 s1.inFlight + CalledBy(r), s1.watchers + WatchedBy(r), [e] + SentBy(r))
      && DistinctIds(ExecuteNext(s1, txInfo, c.txID).table)
  {
    var r := Amend(s.table[j], c);
    Recorded(s.table, j, c);
    assert s1.table[j] == r;
    ExecuteNextAt(s1, j, txInfo, c.txID);
    AdvancedIds(s1.table, j, txInfo);
    BecomesAfter(s, s1, ExecuteNext(s1, txInfo, c.txID), j, Advanced(r, txInfo),
                 s1.inFlight + CalledBy(r), s1.watchers + WatchedBy(r), e, SentBy(r));
  }

  // ----- what each step does to its record -----

  /** The table part of the invariant that locating a record needs. */
  ghost predicate Located(s: State, j: nat, key: TradeInfo)
  {
    DistinctKeys(s.table) && DistinctIds(s.table) && j < |s.table| && s.table[j].key == key
  }

  lemma CallHasRecord(s: State, c: Call) returns (j: nat)
    requires Inv(s) && c in s.inFlight
    ensures j < |s.table| && Located(s, j, c.key) && Tracked(s, j)
    ensures forall v :: EscrowCall(c.key, v) in s.inFlight ==> v == s.table[j].tradingValue
  {
    assert HasRecord(s.table, c.key);
    j :| 0 <= j < |s.table| && s.table[j].key == c.key;
    assert Tracked(s, j);
    TradeIdsGiveKeys(s.table);
  }

  lemma EscrowReceiptForm(s: State, step: Step, j: nat)
    requires step.EscrowReceipt? && Located(s, j, step.key) && Fresh(s.table, step.txId)
    requires s.table[j].status == UNDER_ESCROW
    ensures var r := Amend(s.table[j], Data(EscrowTx, "ledger001", step.txId));
      Becomes(s, Apply(s, step), j, Advanced(r, step.txInfo),
              s.inFlight - multiset{EscrowCall(step.key, step.value)} + multiset{TransferCall(step.key)},
              s.watchers + multiset{step.key},
              [EscrowConfirmed(step.key, step.txId, step.value)] + SentBy(r))
    ensures DistinctIds(Apply(s, step).table)
  {
    var c, e := Data(EscrowTx, "ledger001", step.txId), EscrowConfirmed(step.key, step.txId, step.value);
    var s1 := s.(table := Rewrite(s.table, step.key, c),
                 inFlight := s.inFlight - multiset{EscrowCall(step.key, step.value)},
                 log := s.log + [e]);
    RecordThenAct(s, s1, j, c, e, step.txInfo);
  }

  lemma TransferResultForm(s: State, step: Step, j: nat)
    requires step.TransferResult? && Located(s, j, step.key) && Fresh(s.table, step.txId)
    ensures Becomes(s, Apply(s, step), j, Amend(s.table[j], Data(TransferTx, "ledger002", step.txId)),
                    s.inFlight - multiset{TransferCall(step.key)}, s.watchers,
                    [TransferRecorded(step.key, step.txId)])
    ensures DistinctIds(Apply(s, step).table)
  {
    Recorded(s.table, j, Data(TransferTx, "ledger002", step.txId));
  }

  lemma SettlementReceiptForm(s: State, step: Step, j: nat)
    requires step.SettlementReceipt? && Located(s, j, step.key) && Fresh(s.table, step.txId)
    requires s.table[j].status >= UNDER_SETTLEMENT
    ensures var r := Amend(s.table[j], Data(SettlementTx, "ledger003", step.txId));
      Becomes(s, Apply(s, step), j, Advanced(r, step.txInfo),
              s.inFlight - multiset{SettlementCall(step.key)}, s.watchers,
              [PayoutConfirmed(step.key, step.txId)])
    ensures DistinctIds(Apply(s, step).table)
  {
    var c, e := Data(SettlementTx, "ledger003", step.txId), PayoutConfirmed(step.key, step.txId);
    var s1 := s.(table := Rewrite(s.table, step.key, c),
                 inFlight := s.inFlight - multiset{SettlementCall(step.key)},
                 log := s.log + [e]);
    var r := Amend(s.table[j], c);
    assert SentBy(r) == [] && CalledBy(r) == multiset{} && WatchedBy(r) == multiset{};
    RecordThenAct(s, s1, j, c, e, step.txInfo);
    assert [e] + SentBy(r) == [e];
  }

  lemma BlockForm(s: State, step: Step, j: nat, e: Event)
    requires step.Block? && DistinctKeys(s.table) && DistinctIds(s.table) && j < |s.table|
    requires FirstKnown(s.table, step.events) == Some(e) && Lookup(s.table, e.txId) == Some(s.table[j])
    requires s.table[j].status >= UNDER_TRANSFER
    ensures var r := s.table[j];
      Becomes(s, Apply(s, step), j, Advanced(r, e.txInfo),
              s.inFlight + CalledBy(r), s.watchers - multiset{step.watcher},
              [EventActed(r.key, step.watcher, e.txId)] + SentBy(r))
    ensures DistinctIds(Apply(s, step).table)
  {
    var a := EventActed(s.table[j].key, step.watcher, e.txId);
    var s1 := s.(watchers := s.watchers - multiset{step.watcher}, log := s.log + [a]);
    var r := s.table[j];
    ExecuteNextAt(s1, j, e.txInfo, e.txId);
    AdvancedIds(s.table, j, e.txInfo);
    BecomesAfter(s, s1, Apply(s, step), j, Advanced(r, e.txInfo),
                 s1.inFlight + CalledBy(r), s1.watchers + WatchedBy(r), a, SentBy(r));
  }
}
