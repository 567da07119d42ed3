/** When a Completed record is a settled one. Acting twice on one Fabric event completes a
    trade whose settlement was never confirmed; these lemmas say exactly when that happens. */
module TradeHonesty {
  import opened Text
  import opened TransactionTable
  import opened TradeProtocol
  import opened TradeInvariant
  import opened TradeSteps
  import opened TradeKeeps
  import opened TradeTheorems

  /** Every Completed record has all three transaction ids. */
  ghost predicate Honest(s: State)
  {
    forall n :: 0 <= n < |s.table| && s.table[n].status == COMPLETED ==>
      s.table[n].escrow.txID != "" && s.table[n].transfer.txID != "" && s.table[n].settlement.txID != ""
  }

  /** A block whose first known event belongs to a trade already waiting for its settlement:
      what the watcher callback could test before it acts. */
  predicate LateReplay(s: State, step: Step)
  {
    && step.Block?
    && var e := FirstKnown(s.table, step.events);
       e.Some? && Lookup(s.table, e.value.txId).value.status == UNDER_SETTLEMENT
  }

  /** A record that moves forward leaves the state honest unless it completes unsettled. */
  lemma HonestMove(s: State, s': State, j: nat)
    requires Honest(s) && j < |s.table| && Advances(s, s', j)
    ensures Honest(s') <==> !(s'.table[j].status == COMPLETED && s'.table[j].settlement.txID == "")
  {
  }

  lemma HonestReceipt(s: State, step: Step)
    requires Inv(s) && Enabled(s, step) && Honest(s)
    requires step.EscrowReceipt? || step.TransferResult? || step.SettlementReceipt?
    ensures Honest(Apply(s, step))
  {
    var c := if step.EscrowReceipt? then EscrowCall(step.key, step.value)
             else if step.TransferResult? then TransferCall(step.key) else SettlementCall(step.key);
    var j := CallHasRecord(s, c);
    ReceiptOutcome(s, Apply(s, step), step, j);
    HonestMove(s, Apply(s, step), j);
  }

  lemma ReceiptOutcome(s: State, s': State, step: Step, j: nat)
    requires step.EscrowReceipt? || step.TransferResult? || step.SettlementReceipt?
    requires s' == Apply(s, step) && Enabled(s, step) && Located(s, j, step.key) && Tracked(s, j)
    requires forall v :: EscrowCall(step.key, v) in s.inFlight ==> v == s.table[j].tradingValue
    ensures Advances(s, s', j)
    ensures s'.table[j].status < COMPLETED || s'.table[j].settlement.txID != ""
  {
    match step
    case EscrowReceipt(_, _, _, _) => EscrowReceiptMoves(s, s', step, j);
    case TransferResult(_, _) => TransferResultMoves(s, s', step, j);
    case SettlementReceipt(_, _, _) => SettlementReceiptMoves(s, s', step, j);
  }

  lemma HonestStart(s: State, step: Step)
    requires Enabled(s, step) && Honest(s) && (step.Start? || step.LedgerFailure?)
    ensures Honest(Apply(s, step))
  {
    if step.Start? { StartForm(s, step); }
  }

  lemma HonestBlock(s: State, step: Step)
    requires Inv(s) && Enabled(s, step) && Honest(s) && step.Block?
    ensures Honest(Apply(s, step)) <==> !LateReplay(s, step)
  {
    if FirstKnown(s.table, step.events).Some? {
      var j, e := KnownEvent(s, step);
      BlockMoves(s, Apply(s, step), step, j, e);
      HonestMove(s, Apply(s, step), j);
      ActedUnsettled(s, j, e.txInfo);
    }
  }

  lemma ActedUnsettled(s: State, j: nat, txInfo: string)
    requires Honest(s) && j < |s.table| && Tracked(s, j)
    ensures var r' := Advanced(s.table[j], txInfo);
      (r'.status == COMPLETED && r'.settlement.txID == "") <==> s.table[j].status == UNDER_SETTLEMENT
  {
  }

  /** One step from an honest state: it stays honest exactly when the step is no late replay. */
  lemma {:induction false} HonestStep(s: State, step: Step)
    requires Inv(s) && Enabled(s, step) && Honest(s)
    ensures Honest(Apply(s, step)) <==> !LateReplay(s, step)
  {
    if step.Block? {
      HonestBlock(s, step);
    } else if step.Start? || step.LedgerFailure? {
      HonestStart(s, step);
    } else {
      HonestReceipt(s, step);
    }
  }

  ghost predicate HonestThroughout(states: seq<State>)
  {
    forall i :: 0 <= i < |states| ==> Honest(states[i])
  }

  ghost predicate NoLateReplay(steps: seq<Step>, states: seq<State>)
    requires |states| == |steps| + 1
  {
    forall i :: 0 <= i < |steps| ==> !LateReplay(states[i], steps[i])
  }

  lemma HonestNext(steps: seq<Step>, states: seq<State>, i: nat)
    requires Run(steps, states) && i < |steps| && Honest(states[i])
    ensures Honest(states[i + 1]) <==> !LateReplay(states[i], steps[i])
  {
    RunKeepsInv(steps, states, i);
    assert TakesStep(steps, states, i);
    HonestStep(states[i], steps[i]);
  }

  lemma {:induction false} HonestUpTo(steps: seq<Step>, states: seq<State>, i: nat)
    requires Run(steps, states) && i < |states| && NoLateReplay(steps, states)
    ensures Honest(states[i])
  {
    if i > 0 {
      HonestUpTo(steps, states, i - 1);
      HonestNext(steps, states, i - 1);
    }
  }

  /** A run is honest throughout if and only if no block in it is a late replay. */
  lemma CompletionIsHonestExactly(steps: seq<Step>, states: seq<State>)
    requires Run(steps, states)
    ensures HonestThroughout(states) <==> NoLateReplay(steps, states)
  {
    if NoLateReplay(steps, states) {
      forall i | 0 <= i < |states|
        ensures Honest(states[i])
      {
        HonestUpTo(steps, states, i);
      }
    }
    if HonestThroughout(states) {
      forall i | 0 <= i < |steps|
        ensures !LateReplay(states[i], steps[i])
      {
        assert Honest(states[i]) && Honest(states[i + 1]);
        HonestNext(steps, states, i);
      }
    }
  }

  /** Each Fabric id was acted on by at most one watcher. */
  ghost predicate ActedOnce(log: seq<Entry>)
  {
    forall n, m :: 0 <= n < m < |log| && log[n].EventActed? && log[m].EventActed? ==> log[n].txId != log[m].txId
  }

  lemma ActsTwice(log: seq<Entry>, more: seq<Entry>, k: TradeInfo, w: TradeInfo, w': TradeInfo, txId: string)
    requires EventActed(k, w, txId) in log && |more| > 0 && more[0] == EventActed(k, w', txId)
    ensures !ActedOnce(log + more)
  {
    var n :| 0 <= n < |log| && log[n] == EventActed(k, w, txId);
    var l := log + more;
    assert l[n] == log[n] && l[|log|] == more[0];
  }

  lemma ReplayActsTwice(s: State, step: Step)
    requires Inv(s) && Enabled(s, step) && LateReplay(s, step)
    ensures !ActedOnce(Apply(s, step).log)
  {
    var j, e := KnownEvent(s, step);
    var r := s.table[j];
    BlockMoves(s, Apply(s, step), step, j, e);
    var w :| EventActed(r.key, w, r.transfer.txID) in s.log;
    ActsTwice(s.log, [EventActed(r.key, step.watcher, e.txId)] + SentBy(r), r.key, w, step.watcher, e.txId);
  }

  /** In a run in which every Fabric id is acted on at most once, a Completed record always has
      its escrow, transfer and settlement ids recorded. */
  lemma ActedOnceIsHonest(steps: seq<Step>, states: seq<State>)
    requires Run(steps, states) && ActedOnce(states[|steps|].log)
    ensures HonestThroughout(states)
  {
    forall i | 0 <= i < |steps|
      ensures !LateReplay(states[i], steps[i])
    {
      if LateReplay(states[i], steps[i]) {
        ReplayInRun(steps, states, i);
        assert false;
      }
    }
    CompletionIsHonestExactly(steps, states);
  }

  lemma ReplayInRun(steps: seq<Step>, states: seq<State>, i: nat)
    requires Run(steps, states) && i < |steps| && LateReplay(states[i], steps[i])
    ensures !ActedOnce(states[|steps|].log)
  {
    RunKeepsInv(steps, states, i);
    assert TakesStep(steps, states, i);
    ReplayActsTwice(states[i], steps[i]);
    LogGrows(steps, states, i + 1, |steps|);
    StillTwice(states[i + 1].log, states[|steps|].log);
  }

  lemma StillTwice(log: seq<Entry>, log': seq<Entry>)
    requires log <= log' && !ActedOnce(log)
    ensures !ActedOnce(log')
  {
  }

  /** The failing family: whenever a trade's transfer id is recorded, an event with it that
      reaches two live watchers makes the second delivery a late replay, so the trade is
      Completed without a settlement. */
  lemma {:induction false} TwoWatchersMislead(s: State, j: nat, w: TradeInfo, w': TradeInfo, x: Event)
    requires Inv(s) && j < |s.table| && s.table[j].status == UNDER_TRANSFER
    requires x.txId == s.table[j].transfer.txID && x.txInfo != "" && NotEthereum(s.table, x.txId)
    requires w in s.watchers && w' in s.watchers && w != w'
    ensures Enabled(s, Block(w, [x])) && Enabled(Apply(s, Block(w, [x])), Block(w', [x]))
    ensures LateReplay(Apply(s, Block(w, [x])), Block(w', [x]))
    ensures !Honest(Apply(Apply(s, Block(w, [x])), Block(w', [x])))
  {
    var b := Block(w, [x]);
    DeliveredTo(s, j, w, x);
    StepKeepsInv(s, b);
    StillFabric(s.table, j, x);
    DeliveredTo(Apply(s, b), j, w', x);
    Unsettled(Apply(s, b), Apply(Apply(s, b), Block(w', [x])), j, x.txInfo);
  }

  /** One event, with the transfer id of record `j`, delivered to watcher `w`. */
  lemma DeliveredTo(s: State, j: nat, w: TradeInfo, x: Event)
    requires Inv(s) && j < |s.table| && s.table[j].status >= UNDER_TRANSFER
    requires x.txId == s.table[j].transfer.txID && x.txInfo != "" && NotEthereum(s.table, x.txId) && w in s.watchers
    ensures Enabled(s, Block(w, [x]))
    ensures LateReplay(s, Block(w, [x])) <==> s.table[j].status == UNDER_SETTLEMENT
    ensures Apply(s, Block(w, [x])).table == s.table[j := Advanced(s.table[j], x.txInfo)]
    ensures Apply(s, Block(w, [x])).watchers == s.watchers - multiset{w}
  {
    TradeIdsGiveKeys(s.table);
    DeliveredAt(s, j, w, x);
  }

  lemma DeliveredAt(s: State, j: nat, w: TradeInfo, x: Event)
    requires DistinctKeys(s.table) && DistinctIds(s.table) && j < |s.table| && s.table[j].status >= UNDER_TRANSFER
    requires x.txId == s.table[j].transfer.txID && x.txId != ""
    ensures FirstKnown(s.table, [x]) == Some(x) && Lookup(s.table, x.txId) == Some(s.table[j])
    ensures Apply(s, Block(w, [x])).table == s.table[j := Advanced(s.table[j], x.txInfo)]
    ensures Apply(s, Block(w, [x])).watchers == s.watchers - multiset{w}
  {
    LookupAt(s.table, j, x.txId);
    BlockForm(s, Block(w, [x]), j, x);
  }

  lemma StillFabric(table: seq<TransactionInfo>, j: nat, x: Event)
    requires j < |table| && table[j].status == UNDER_TRANSFER && NotEthereum(table, x.txId)
    ensures NotEthereum(table[j := Advanced(table[j], x.txInfo)], x.txId)
    ensures Advanced(table[j], x.txInfo).transfer.txID == table[j].transfer.txID
    ensures Advanced(table[j], x.txInfo).status == UNDER_SETTLEMENT
  {
  }

  lemma Unsettled(s: State, s': State, j: nat, txInfo: string)
    requires Inv(s) && j < |s.table| == |s'.table| && s.table[j].status == UNDER_SETTLEMENT
    requires s'.table[j] == Advanced(s.table[j], txInfo)
    ensures !Honest(s')
  {
    assert Tracked(s, j);
  }

  // ----- such a state is reached -----

  ghost predicate Reaches(s: State)
  {
    exists steps, states :: Run(steps, states) && states[|steps|] == s
  }

  lemma ReachesNext(s: State, step: Step)
    requires Reaches(s) && Enabled(s, step)
    ensures Reaches(Apply(s, step))
  {
    var steps, states :| Run(steps, states) && states[|steps|] == s;
    var steps', states' := steps + [step], states + [Apply(s, step)];
    forall i | 0 <= i < |steps'|
      ensures TakesStep(steps', states', i)
    {
      if i < |steps| {
        assert TakesStep(steps, states, i);
        assert steps'[i] == steps[i] && states'[i] == states[i] && states'[i + 1] == states[i + 1];
      }
    }
    assert Run(steps', states') && states'[|steps'|] == Apply(s, step);
  }

  lemma ReachesInv(s: State)
    requires Reaches(s)
    ensures Inv(s)
  {
    var steps, states :| Run(steps, states) && states[|steps|] == s;
    RunKeepsInv(steps, states, |steps|);
  }

  lemma ReachesTable(s: State)
    requires Reaches(s)
    ensures DistinctKeys(s.table) && DistinctIds(s.table)
  {
    ReachesInv(s);
    TradeIdsGiveKeys(s.table);
  }

  const A := TradeInfo("b", "1")
  const B := TradeInfo("b", "2")
  const ASK := Request("", "", "", "", "")

  lemma OneStarted() returns (s: State)
    ensures Reaches(s) && s.table == [NewRecord(A, ASK, true)] && EscrowCall(A, 25) in s.inFlight
  {
    var none: seq<Step> := [];
    assert Run(none, [INITIAL]) && [INITIAL][|none|] == INITIAL;
    var a := Start(A, ASK, true);
    StartForm(INITIAL, a);
    ReachesNext(INITIAL, a);
    s := Apply(INITIAL, a);
  }

  lemma TwoStarted() returns (s: State)
    ensures Reaches(s)
    ensures s.table == [NewRecord(A, ASK, true), NewRecord(B, ASK, false)]
    ensures EscrowCall(A, 25) in s.inFlight && EscrowCall(B, 50) in s.inFlight
  {
    s := OneStarted();
    var b := Start(B, ASK, false);
    assert A.tradeID[0] != B.tradeID[0];
    StartForm(s, b);
    ReachesNext(s, b);
    s := Apply(s, b);
  }

  lemma FirstEscrowed() returns (s: State)
    ensures Reaches(s)
    ensures s.table == [Escrowed(NewRecord(A, ASK, true), "x", "i"), NewRecord(B, ASK, false)]
    ensures TransferCall(A) in s.inFlight && EscrowCall(B, 50) in s.inFlight && A in s.watchers
  {
    s := TwoStarted();
    var step := EscrowReceipt(A, 25, "x", "i");
    ReachesTable(s);
    assert Fresh(s.table, "x");
    ReachesNext(s, step);
    EscrowReceiptForm(s, step, 0);
    s := Apply(s, step);
  }

  lemma BothEscrowed() returns (s: State)
    ensures Reaches(s)
    ensures s.table == [Escrowed(NewRecord(A, ASK, true), "x", "i"), Escrowed(NewRecord(B, ASK, false), "y", "i")]
    ensures TransferCall(A) in s.inFlight && A in s.watchers && B in s.watchers
  {
    s := FirstEscrowed();
    var step := EscrowReceipt(B, 50, "y", "i");
    ReachesTable(s);
    EscrowReceiptForm(s, step, 1);
    ReachesNext(s, step);
    s := Apply(s, step);
  }

  lemma FirstTransferred() returns (s: State)
    ensures Reaches(s)
    ensures s.table == [Transferred(Escrowed(NewRecord(A, ASK, true), "x", "i"), "f"),
                        Escrowed(NewRecord(B, ASK, false), "y", "i")]
    ensures A in s.watchers && B in s.watchers
  {
    s := BothEscrowed();
    var step := TransferResult(A, "f");
    ReachesTable(s);
    TransferResultForm(s, step, 0);
    ReachesNext(s, step);
    s := Apply(s, step);
  }

  /** The property fails of the code as it is: a reachable state has a Completed record without
      a settlement id. */
  lemma DishonestIsReachable() returns (s: State)
    ensures Reaches(s) && !Honest(s)
  {
    s := FirstTransferred();
    ReachesInv(s);
    var x := Event("f", "i");
    assert A.tradeID[0] != B.tradeID[0];
    TwoWatchersMislead(s, 0, A, B, x);
    ReachesNext(s, Block(A, [x]));
    s := Apply(s, Block(A, [x]));
    ReachesNext(s, Block(B, [x]));
    s := Apply(s, Block(B, [x]));
  }
}
