/** Every enabled step of the trade protocol keeps the invariant, and so does every run. */
module TradeKeeps {
  import opened Text
  import opened TransactionTable
  import opened TradeProtocol
  import opened TradeInvariant
  import opened TradeSteps

  lemma BecomesMoves(s: State, s': State, j: nat, r: TransactionInfo,
                     inFlight: multiset<Call>, watchers: multiset<TradeInfo>, more: seq<Entry>)
    requires j < |s.table| && Becomes(s, s', j, r, inFlight, watchers, more)
    requires forall c: Call :: c.key != s.table[j].key ==> inFlight[c] <= s.inFlight[c]
    requires forall w :: w != s.table[j].key ==> watchers[w] <= s.watchers[w]
    requires forall n :: 0 <= n < |more| ==> more[n].key == s.table[j].key
    requires forall n :: 0 <= n < |more| ==> Reached(more[n], r) && Tells(more[n], r)
    ensures Moves(s, s', j)
    ensures forall n :: |s.log| <= n < |s'.log| ==> Reached(s'.log[n], s'.table[j]) && Tells(s'.log[n], s'.table[j])
  {
    assert forall n :: |s.log| <= n < |s'.log| ==> s'.log[n] == more[n - |s.log|];
  }

  // ----- an escrow receipt -----

  function Escrowed(r: TransactionInfo, txId: string, txInfo: string): (r': TransactionInfo)
  {
    Advanced(Amend(r, Data(EscrowTx, "ledger001", txId)), txInfo)
  }

  lemma EscrowedRecord(r: TransactionInfo, txId: string, txInfo: string, escrows: nat,
                       log: seq<Entry>, more: seq<Entry>)
    requires r.status == UNDER_ESCROW && txId != "" && txInfo != "" && Linked(r, log)
    requires escrows > 0 && Phase(r, escrows, 0, 0, 0)
    requires more == [EscrowConfirmed(r.key, txId, r.tradingValue)] + SentBy(r)
    ensures var r' := Escrowed(r, txId, txInfo);
      && Forward(r, r') && Phase(r', escrows - 1, 1, 0, 1) && Linked(r', log + more)
      && forall n :: 0 <= n < |more| ==> more[n].key == r.key && Reached(more[n], r') && Tells(more[n], r')
  {
    assert more[0] in log + more && more[1] in log + more;
  }

  lemma EscrowReceiptAdvances(s: State, s': State, step: Step, j: nat, more: seq<Entry>)
    requires step.EscrowReceipt? && j < |s.table| && s.table[j].key == step.key && step.value == s.table[j].tradingValue
    requires s.table[j].status == UNDER_ESCROW && step.txId != "" && step.txInfo != ""
    requires Tracked(s, j) && EscrowCall(step.key, step.value) in s.inFlight
    requires forall v :: EscrowCall(step.key, v) in s.inFlight ==> v == step.value
    requires more == [EscrowConfirmed(step.key, step.txId, step.value)] + SentBy(s.table[j])
    requires Becomes(s, s', j, Escrowed(s.table[j], step.txId, step.txInfo),
                     s.inFlight - multiset{EscrowCall(step.key, step.value)} + multiset{TransferCall(step.key)},
                     s.watchers + multiset{step.key}, more)
    ensures Advances(s, s', j)
  {
    EscrowedRecord(s.table[j], step.txId, step.txInfo, s.inFlight[EscrowCall(step.key, step.value)], s.log, more);
    BecomesMoves(s, s', j, Escrowed(s.table[j], step.txId, step.txInfo), s'.inFlight, s'.watchers, more);
  }

  lemma EscrowReceiptMoves(s: State, s': State, step: Step, j: nat)
    requires step.EscrowReceipt? && s' == Apply(s, step) && Located(s, j, step.key)
    requires s.table[j].status == UNDER_ESCROW && step.value == s.table[j].tradingValue
    requires Fresh(s.table, step.txId) && step.txInfo != ""
    requires Tracked(s, j) && EscrowCall(step.key, step.value) in s.inFlight
    requires forall v :: EscrowCall(step.key, v) in s.inFlight ==> v == step.value
    ensures Advances(s, s', j) && DistinctIds(s'.table)
    ensures s'.table[j].status == UNDER_TRANSFER
    ensures s'.log == s.log + ([EscrowConfirmed(step.key, step.txId, step.value)] + SentBy(s.table[j]))
  {
    EscrowReceiptForm(s, step, j);
    EscrowReceiptAdvances(s, s', step, j, [EscrowConfirmed(step.key, step.txId, step.value)] + SentBy(s.table[j]));
  }

  lemma EscrowReceiptHistory(s: State, r: TransactionInfo, j: nat, e: Entry, e': Entry)
    requires Inv(s) && j < |s.table| && s.table[j] == r && r.status == UNDER_ESCROW
    requires e.EscrowConfirmed? && e.key == r.key && e.value == r.tradingValue && SentBy(r) == [e']
    ensures Sound(s, s.log + ([e] + SentBy(r)), r.tradingValue)
  {
    assert Tracked(s, j);
    NotYet(s, j, e);
    NotYet(s, j, e');
    AppendTwo(s.log, r, e, e');
    assert s.log + [e] + [e'] == s.log + ([e] + SentBy(r));
  }

  lemma AppendTwo(log: seq<Entry>, r: TransactionInfo, e: Entry, e': Entry)
    requires Causal(log) && NoRepeat(log) && EscrowSubmitted(r.key, r.request, r.tradingValue) in log
    requires e.EscrowConfirmed? && e.key == r.key && e.value == r.tradingValue
    requires e' == TransferSubmitted(r.key, r.request.assetID, r.request.fabricAccountTo)
    requires forall n :: 0 <= n < |log| && log[n].key == r.key ==> Kind(log[n]) != Kind(e) && Kind(log[n]) != Kind(e')
    ensures Causal(log + [e] + [e']) && NoRepeat(log + [e] + [e'])
    ensures Deposits(log + [e] + [e']) == Deposits(log) + r.tradingValue
    ensures Payouts(log + [e] + [e']) == Payouts(log)
  {
    Append(log, e);
    assert EscrowSubmitted(r.key, r.request, r.tradingValue) in log + [e] && e in log + [e];
    assert Prereq(log + [e], e');
    Append(log + [e], e');
  }

  lemma EscrowReceiptKeeps(s: State, step: Step)
    requires Inv(s) && step.EscrowReceipt? && Enabled(s, step)
    ensures Inv(Apply(s, step)) && OneForward(s, Apply(s, step))
  {
    var j := CallHasRecord(s, EscrowCall(step.key, step.value));
    var r := s.table[j];
    EscrowReceiptMoves(s, Apply(s, step), step, j);
    EscrowReceiptHistory(s, r, j, EscrowConfirmed(step.key, step.txId, step.value), SentBy(r)[0]);
    MoveKeepsInv(s, Apply(s, step), j);
  }

  // ----- a transfer result -----

  function Transferred(r: TransactionInfo, txId: string): (r': TransactionInfo)
  {
    Amend(r, Data(TransferTx, "ledger002", txId))
  }

  lemma TransferredRecord(r: TransactionInfo, txId: string, transfers: nat, watchers: nat, log: seq<Entry>, e: Entry)
    requires r.status == UNDER_TRANSFER && r.transfer.txID == "" && txId != "" && Linked(r, log)
    requires transfers > 0 && Phase(r, 0, transfers, 0, watchers)
    requires e == TransferRecorded(r.key, txId)
    ensures var r' := Transferred(r, txId);
      && Forward(r, r') && Phase(r', 0, transfers - 1, 0, watchers) && Linked(r', log + [e])
      && Reached(e, r') && Tells(e, r')
  {
    assert e in log + [e];
  }

  lemma TransferResultMoves(s: State, s': State, step: Step, j: nat)
    requires step.TransferResult? && s' == Apply(s, step) && Located(s, j, step.key)
    requires Fresh(s.table, step.txId) && Tracked(s, j) && TransferCall(step.key) in s.inFlight
    requires forall v :: EscrowCall(step.key, v) in s.inFlight ==> v == s.table[j].tradingValue
    ensures Advances(s, s', j) && DistinctIds(s'.table)
    ensures s.table[j].status == s'.table[j].status == UNDER_TRANSFER && s.table[j].transfer.txID == ""
    ensures s'.log == s.log + [TransferRecorded(step.key, step.txId)]
  {
    var e := TransferRecorded(step.key, step.txId);
    TransferResultForm(s, step, j);
    TransferredRecord(s.table[j], step.txId, s.inFlight[TransferCall(step.key)], s.watchers[step.key], s.log, e);
    BecomesMoves(s, s', j, Transferred(s.table[j], step.txId), s'.inFlight, s'.watchers, [e]);
  }

  lemma TransferResultHistory(s: State, step: Step, j: nat)
    requires Inv(s) && step.TransferResult? && j < |s.table| && s.table[j].key == step.key
    requires s.table[j].status == UNDER_TRANSFER && s.table[j].transfer.txID == ""
    ensures Sound(s, s.log + [TransferRecorded(step.key, step.txId)], 0)
  {
    var e := TransferRecorded(step.key, step.txId);
    NotYet(s, j, e);
    assert Tracked(s, j);
    Append(s.log, e);
  }

  lemma TransferResultKeeps(s: State, step: Step)
    requires Inv(s) && step.TransferResult? && Enabled(s, step)
    ensures Inv(Apply(s, step)) && OneForward(s, Apply(s, step))
  {
    var j := CallHasRecord(s, TransferCall(step.key));
    TransferResultMoves(s, Apply(s, step), step, j);
    TransferResultHistory(s, step, j);
    MoveKeepsInv(s, Apply(s, step), j);
  }

  // ----- a settlement receipt -----

  function Settled(r: TransactionInfo, txId: string, txInfo: string): (r': TransactionInfo)
  {
    Advanced(Amend(r, Data(SettlementTx, "ledger003", txId)), txInfo)
  }

  lemma SettledRecord(r: TransactionInfo, txId: string, txInfo: string, settlements: nat, watchers: nat,
                      log: seq<Entry>, e: Entry)
    requires r.status >= UNDER_SETTLEMENT && txId != "" && txInfo != "" && Linked(r, log)
    requires settlements > 0 && Phase(r, 0, 0, settlements, watchers)
    requires e == PayoutConfirmed(r.key, txId)
    ensures var r' := Settled(r, txId, txInfo);
      && Forward(r, r') && Phase(r', 0, 0, settlements - 1, watchers) && Linked(r', log + [e])
      && Reached(e, r') && Tells(e, r')
  {
    var w :| EventActed(r.key, w, r.transfer.txID) in log;
    assert EventActed(r.key, w, r.transfer.txID) in log + [e];
    assert e in log + [e];
  }

  lemma SettlementReceiptMoves(s: State, s': State, step: Step, j: nat)
    requires step.SettlementReceipt? && s' == Apply(s, step) && Located(s, j, step.key)
    requires Fresh(s.table, step.txId) && step.txInfo != ""
    requires Tracked(s, j) && SettlementCall(step.key) in s.inFlight
    requires forall v :: EscrowCall(step.key, v) in s.inFlight ==> v == s.table[j].tradingValue
    ensures Advances(s, s', j) && DistinctIds(s'.table)
    ensures s.table[j].status >= UNDER_SETTLEMENT && s.table[j].settlement.txID == ""
    ensures s'.table[j].status == COMPLETED && s'.table[j].settlement.txID == step.txId
    ensures s'.log == s.log + [PayoutConfirmed(step.key, step.txId)]
  {
    var e := PayoutConfirmed(step.key, step.txId);
    SettlementReceiptForm(s, step, j);
    SettledRecord(s.table[j], step.txId, step.txInfo, s.inFlight[SettlementCall(step.key)],
                  s.watchers[step.key], s.log, e);
    BecomesMoves(s, s', j, Settled(s.table[j], step.txId, step.txInfo), s'.inFlight, s'.watchers, [e]);
  }

  lemma SettlementReceiptHistory(s: State, step: Step, j: nat)
    requires Inv(s) && step.SettlementReceipt? && j < |s.table| && s.table[j].key == step.key
    requires s.table[j].status >= UNDER_SETTLEMENT && s.table[j].settlement.txID == ""
    ensures Sound(s, s.log + [PayoutConfirmed(step.key, step.txId)], 0)
  {
    var e := PayoutConfirmed(step.key, step.txId);
    NotYet(s, j, e);
    assert Tracked(s, j);
    Append(s.log, e);
  }

  lemma SettlementReceiptKeeps(s: State, step: Step)
    requires Inv(s) && step.SettlementReceipt? && Enabled(s, step)
    ensures Inv(Apply(s, step)) && OneForward(s, Apply(s, step))
  {
    var j := CallHasRecord(s, SettlementCall(step.key));
    SettlementReceiptMoves(s, Apply(s, step), step, j);
    SettlementReceiptHistory(s, step, j);
    MoveKeepsInv(s, Apply(s, step), j);
  }

  // ----- a block of Fabric events -----

  /** A block that is acted on found the transfer id of record `j`. */
  lemma KnownEvent(s: State, step: Step) returns (j: nat, e: Event)
    requires Inv(s) && step.Block? && Enabled(s, step) && FirstKnown(s.table, step.events).Some?
    ensures FirstKnown(s.table, step.events) == Some(e) && e.txId != "" && e.txInfo != ""
    ensures j < |s.table| && Lookup(s.table, e.txId) == Some(s.table[j])
    ensures s.table[j].transfer.txID == e.txId && s.table[j].status >= UNDER_TRANSFER
    ensures Located(s, j, s.table[j].key) && Tracked(s, j)
    ensures forall v :: EscrowCall(s.table[j].key, v) in s.inFlight ==> v == s.table[j].tradingValue
  {
    e := FirstKnown(s.table, step.events).value;
    assert NotEthereum(s.table, e.txId);
    LookupIsLastMatch(s.table, e.txId);
    j :| 0 <= j < |s.table| && s.table[j] == Lookup(s.table, e.txId).value && Carries(s.table[j], e.txId);
    assert Tracked(s, j);
    TradeIdsGiveKeys(s.table);
  }

  lemma ActedRecord(r: TransactionInfo, txInfo: string, settlements: nat, watchers: nat,
                    log: seq<Entry>, a: Entry)
    requires r.status >= UNDER_TRANSFER && r.transfer.txID != "" && txInfo != "" && Linked(r, log)
    requires Phase(r, 0, 0, settlements, watchers)
    requires a.EventActed? && a.key == r.key && a.txId == r.transfer.txID
    ensures var r' := Advanced(r, txInfo);
      && Forward(r, r')
      && Phase(r', 0, 0, settlements + (if r.status == UNDER_TRANSFER then 1 else 0), watchers)
      && Linked(r', log + ([a] + SentBy(r)))
  {
    var more := [a] + SentBy(r);
    assert more[0] in log + more;
    if r.status == UNDER_TRANSFER {
      assert more[1] in log + more;
    }
  }

  lemma ActedEntries(r: TransactionInfo, txInfo: string, a: Entry)
    requires UNDER_TRANSFER <= r.status <= COMPLETED && r.transfer.txID != ""
    requires a.EventActed? && a.key == r.key && a.txId == r.transfer.txID
    ensures forall n :: 0 <= n < |[a] + SentBy(r)| ==>
      var e := ([a] + SentBy(r))[n];
      e.key == r.key && Reached(e, Advanced(r, txInfo)) && Tells(e, Advanced(r, txInfo))
  {
  }

  lemma BlockAdvances(s: State, s': State, j: nat, a: Entry, txInfo: string, watchers: multiset<TradeInfo>)
    requires j < |s.table| && Tracked(s, j) && s.table[j].status >= UNDER_TRANSFER && txInfo != ""
    requires a.EventActed? && a.key == s.table[j].key && a.txId == s.table[j].transfer.txID != ""
    requires forall v :: EscrowCall(s.table[j].key, v) in s.inFlight ==> v == s.table[j].tradingValue
    requires watchers <= s.watchers
    requires Becomes(s, s', j, Advanced(s.table[j], txInfo), s.inFlight + CalledBy(s.table[j]), watchers,
                     [a] + SentBy(s.table[j]))
    ensures Advances(s, s', j)
  {
    var r := s.table[j];
    ActedRecord(r, txInfo, s.inFlight[SettlementCall(r.key)], s.watchers[r.key], s.log, a);
    ActedEntries(r, txInfo, a);
    BecomesMoves(s, s', j, Advanced(r, txInfo), s'.inFlight, s'.watchers, [a] + SentBy(r));
  }

  lemma BlockMoves(s: State, s': State, step: Step, j: nat, e: Event)
    requires step.Block? && s' == Apply(s, step) && j < |s.table| && Located(s, j, s.table[j].key) && Tracked(s, j)
    requires FirstKnown(s.table, step.events) == Some(e) && Lookup(s.table, e.txId) == Some(s.table[j])
    requires s.table[j].transfer.txID == e.txId && e.txId != "" && s.table[j].status >= UNDER_TRANSFER
    requires e.txInfo != ""
    requires forall v :: EscrowCall(s.table[j].key, v) in s.inFlight ==> v == s.table[j].tradingValue
    ensures Advances(s, s', j) && DistinctIds(s'.table)
    ensures s'.table[j] == Advanced(s.table[j], e.txInfo)
    ensures s'.log == s.log + ([EventActed(s.table[j].key, step.watcher, e.txId)] + SentBy(s.table[j]))
  {
    BlockForm(s, step, j, e);
    BlockAdvances(s, s', j, EventActed(s.table[j].key, step.watcher, e.txId), e.txInfo, s'.watchers);
  }

  lemma BlockHistory(s: State, r: TransactionInfo, j: nat, a: Entry)
    requires Inv(s) && j < |s.table| && s.table[j] == r && r.status >= UNDER_TRANSFER && r.transfer.txID != ""
    requires a.EventActed? && a.key == r.key && a.txId == r.transfer.txID
    ensures Sound(s, s.log + ([a] + SentBy(r)), 0 - Holding(r))
  {
    assert Tracked(s, j);
    Append(s.log, a);
    if r.status == UNDER_TRANSFER {
      var p := SentBy(r)[0];
      NotYet(s, j, p);
      StillInHistory(s.log, r, a, p);
      AppendPayout(s.log + [a], r, a, p);
      assert s.log + [a] + [p] == s.log + ([a] + SentBy(r));
    } else {
      assert s.log + [a] == s.log + ([a] + SentBy(r));
    }
  }

  lemma AppendPayout(log: seq<Entry>, r: TransactionInfo, a: Entry, p: Entry)
    requires Causal(log) && NoRepeat(log) && a.EventActed? && a.key == r.key && a in log
    requires EscrowSubmitted(r.key, r.request, r.tradingValue) in log
    requires EscrowConfirmed(r.key, r.escrow.txID, r.tradingValue) in log
    requires p == PayoutSubmitted(r.key, r.request.ethereumAccountTo, r.tradingValue)
    requires forall n :: 0 <= n < |log| && log[n].key == r.key ==> Kind(log[n]) != Kind(p)
    ensures Causal(log + [p]) && NoRepeat(log + [p])
    ensures Deposits(log + [p]) == Deposits(log)
    ensures Payouts(log + [p]) == Payouts(log) + r.tradingValue
  {
    PayoutIsDue(log, r, a, p);
    Append(log, p);
  }

  lemma StillInHistory(log: seq<Entry>, r: TransactionInfo, a: Entry, p: Entry)
    requires EscrowSubmitted(r.key, r.request, r.tradingValue) in log && a.EventActed? && p.PayoutSubmitted?
    requires EscrowConfirmed(r.key, r.escrow.txID, r.tradingValue) in log
    requires forall n :: 0 <= n < |log| && log[n].key == r.key ==> Kind(log[n]) != Kind(p)
    ensures var l := log + [a];
      && a in l && EscrowSubmitted(r.key, r.request, r.tradingValue) in l
      && EscrowConfirmed(r.key, r.escrow.txID, r.tradingValue) in l
      && forall n :: 0 <= n < |l| && l[n].key == r.key ==> Kind(l[n]) != Kind(p)
  {
  }

  lemma PayoutIsDue(log: seq<Entry>, r: TransactionInfo, a: Entry, p: Entry)
    requires EscrowSubmitted(r.key, r.request, r.tradingValue) in log
    requires EscrowConfirmed(r.key, r.escrow.txID, r.tradingValue) in log
    requires a.EventActed? && a.key == r.key && a in log
    requires p == PayoutSubmitted(r.key, r.request.ethereumAccountTo, r.tradingValue)
    ensures Prereq(log, p)
  {
    assert EventActed(r.key, a.watcher, a.txId) in log;
  }

  lemma BlockKeeps(s: State, step: Step)
    requires Inv(s) && step.Block? && Enabled(s, step)
    ensures Inv(Apply(s, step)) && OneForward(s, Apply(s, step))
  {
    if FirstKnown(s.table, step.events).Some? {
      var j, e := KnownEvent(s, step);
      BlockMoves(s, Apply(s, step), step, j, e);
      BlockHistory(s, s.table[j], j, EventActed(s.table[j].key, step.watcher, e.txId));
      MoveKeepsInv(s, Apply(s, step), j);
    } else {
      Unmoved(s, s);
    }
  }

  // ----- starting a trade, and a failing ledger -----

  lemma StartForm(s: State, step: Step)
    requires step.Start? && Enabled(s, step)
    ensures Apply(s, step).table == s.table + [NewRecord(step.key, step.request, step.preferred)]
  {
    var t := s.table + [NewRecord(step.key, step.request, step.preferred)];
    var t' := Rewrite(t, step.key, Status(UNDER_ESCROW));
    forall i | 0 <= i < |t|
      ensures t'[i] == t[i]
    {
      if i < |s.table| { assert t[i].key.tradeID != step.key.tradeID; }
    }
  }

  lemma StartRecords(s: State, step: Step, s': State, r: TransactionInfo)
    requires Inv(s) && step.Start? && Enabled(s, step) && s' == Apply(s, step)
    requires r == NewRecord(step.key, step.request, step.preferred) && s'.table == s.table + [r]
    ensures forall i {:trigger Tracked(s', i)} :: 0 <= i < |s'.table| ==> Tracked(s', i)
  {
    forall i | 0 <= i < |s'.table|
      ensures Tracked(s', i)
    {
      if i < |s.table| {
        assert Tracked(s, i);
        assert s.table[i].key.tradeID != step.key.tradeID;
        OtherTracked(s, s', s.table[i], step.key);
      } else {
        assert !HasRecord(s.table, r.key);
        assert EscrowCall(r.key, r.tradingValue) !in s.inFlight && TransferCall(r.key) !in s.inFlight
            && SettlementCall(r.key) !in s.inFlight && r.key !in s.watchers;
        assert s'.log[|s.log|] == EscrowSubmitted(r.key, r.request, r.tradingValue);
      }
    }
  }

  lemma OtherTracked(s: State, s': State, r: TransactionInfo, k: TradeInfo)
    requires InPhase(s, r) && Linked(r, s.log) && r.key != k
    requires forall c: Call :: c.key != k ==> s'.inFlight[c] <= s.inFlight[c]
    requires s'.watchers == s.watchers && s.log <= s'.log
    ensures InPhase(s', r) && Linked(r, s'.log)
  {
    assert forall e :: e in s.log ==> e in s'.log;
  }

  lemma MoreRecords(table: seq<TransactionInfo>, r: TransactionInfo)
    ensures forall k :: HasRecord(table + [r], k) <==> HasRecord(table, k) || k == r.key
  {
    var t := table + [r];
    assert t[|table|] == r;
    forall k | HasRecord(table, k)
      ensures HasRecord(t, k)
    {
      var i :| 0 <= i < |table| && table[i].key == k;
      assert t[i].key == k;
    }
  }

  lemma StartOwners(s: State, s': State, r: TransactionInfo)
    requires Owned(s) && Attributed(s.log, s.table) && Backed(s.log, s.table) && !HasRecord(s.table, r.key)
    requires s'.table == s.table + [r] && s'.watchers == s.watchers
    requires s'.inFlight == s.inFlight + multiset{EscrowCall(r.key, r.tradingValue)}
    requires s'.log == s.log + [EscrowSubmitted(r.key, r.request, r.tradingValue)]
    ensures Owned(s') && Attributed(s'.log, s'.table) && Backed(s'.log, s'.table)
  {
    MoreRecords(s.table, r);
    forall k, v, i | EscrowCall(k, v) in s'.inFlight && 0 <= i < |s'.table| && s'.table[i].key == k
      ensures v == s'.table[i].tradingValue
    {
      if k == r.key {
        assert EscrowCall(k, v) !in s.inFlight;
        assert i < |s.table| ==> HasRecord(s.table, k);
      } else {
        assert EscrowCall(k, v) in s.inFlight && i < |s.table| && s.table[i] == s'.table[i];
      }
    }
    forall n, i | 0 <= n < |s'.log| && 0 <= i < |s'.table|
      ensures BackedBy(s'.log, n, s'.table, i)
    {
      if n < |s.log| {
        assert s.log[n] in s.log;
        if i < |s.table| { assert BackedBy(s.log, n, s.table, i); }
      } else if i < |s.table| {
        assert s.table[i].key == r.key ==> HasRecord(s.table, r.key);
      }
    }
  }

  lemma StartHistory(s: State, e: Entry)
    requires Inv(s) && e.EscrowSubmitted? && !HasRecord(s.table, e.key)
    ensures Causal(s.log + [e]) && NoRepeat(s.log + [e])
    ensures Deposits(s.log + [e]) == Deposits(s.log) && Payouts(s.log + [e]) == Payouts(s.log)
  {
    forall n | 0 <= n < |s.log|
      ensures s.log[n].key != e.key
    {
      assert s.log[n] in s.log;
      assert HasRecord(s.table, s.log[n].key);
    }
    Append(s.log, e);
  }

  lemma StartTable(table: seq<TransactionInfo>, r: TransactionInfo)
    requires NewTradeIds(table) && DistinctIds(table) && forall x :: x != "" ==> !Carries(r, x)
    requires forall i :: 0 <= i < |table| ==> table[i].key.tradeID != r.key.tradeID
    ensures NewTradeIds(table + [r]) && DistinctIds(table + [r])
    ensures Held(table + [r]) == Held(table) + Holding(r)
    ensures !HasRecord(table, r.key)
  {
    NewIds(table, r);
    assert (table + [r])[..|table|] == table;
  }

  lemma StartKeeps(s: State, step: Step)
    requires Inv(s) && step.Start? && Enabled(s, step)
    ensures Inv(Apply(s, step)) && OneForward(s, Apply(s, step))
  {
    var s', r := Apply(s, step), NewRecord(step.key, step.request, step.preferred);
    StartForm(s, step);
    Unmoved(s, s');
    StartRecords(s, step, s', r);
    StartTable(s.table, r);
    StartOwners(s, s', r);
    StartHistory(s, EscrowSubmitted(step.key, step.request, r.tradingValue));
  }

  lemma NewIds(table: seq<TransactionInfo>, r: TransactionInfo)
    requires DistinctIds(table) && forall x :: x != "" ==> !Carries(r, x)
    ensures DistinctIds(table + [r])
  {
  }

  lemma FailureKeeps(s: State, step: Step)
    requires Inv(s) && step.LedgerFailure? && Enabled(s, step)
    ensures Inv(Apply(s, step)) && OneForward(s, Apply(s, step))
  {
    var s' := Apply(s, step);
    Unmoved(s, s');
    assert forall c :: s'.inFlight[c] <= s.inFlight[c];
    forall i | 0 <= i < |s'.table|
      ensures Tracked(s', i)
    {
      assert Tracked(s, i);
    }
    assert forall c :: c in s'.inFlight ==> c in s.inFlight;
  }

  /** Every step of the protocol keeps the invariant and moves at most one record, forward. */
  lemma {:induction false} StepKeepsInv(s: State, step: Step)
    requires Inv(s) && Enabled(s, step)
    ensures Inv(Apply(s, step)) && OneForward(s, Apply(s, step))
  {
    match step
    case Start(_, _, _) => StartKeeps(s, step);
    case EscrowReceipt(_, _, _, _) => EscrowReceiptKeeps(s, step);
    case TransferResult(_, _) => TransferResultKeeps(s, step);
    case Block(_, _) => BlockKeeps(s, step);
    case SettlementReceipt(_, _, _) => SettlementReceiptKeeps(s, step);
    case LedgerFailure(_) => FailureKeeps(s, step);
  }

  /** The invariant holds in every state of every run. */
  lemma {:induction false} RunKeepsInv(steps: seq<Step>, states: seq<State>, i: nat)
    requires Run(steps, states) && i < |states|
    ensures Inv(states[i])
  {
    if i > 0 {
      RunKeepsInv(steps, states, i - 1);
      assert TakesStep(steps, states, i - 1);
      StepKeepsInv(states[i - 1], steps[i - 1]);
    }
  }
}
