/** Trade by trade: when exactly a record is Completed without a settlement. */
module TradeUnsettled {
  import opened TransactionTable
  import opened TradeProtocol
  import opened TradeInvariant
  import opened TradeSteps
  import opened TradeKeeps
  import opened TradeEffects
  import opened TradeTheorems
  import opened TradeHonesty

  ghost predicate Unpaid(r: TransactionInfo)
  {
    r.status == COMPLETED && r.settlement.txID == ""
  }

  /** A late replay on this trade. */
  predicate ReplaysOn(s: State, step: Step, k: TradeInfo)
  {
    LateReplay(s, step) && ActsOn(s, step, k)
  }

  /** What a step means for a record's settlement: only its receipt brings the id, and only a
      late replay on it completes it without. */
  ghost predicate Accounts(s: State, step: Step, r: TransactionInfo, r': TransactionInfo)
  {
    && r'.key == r.key
    && (r'.settlement.txID != "" <==> r.settlement.txID != "" || ReceiptFor(step, r.key))
    && (Unpaid(r') ==> Unpaid(r) || ReplaysOn(s, step, r.key))
    && (ReplaysOn(s, step, r.key) || r.status == COMPLETED ==> r'.status == COMPLETED)
  }

  lemma StepAccounts(s: State, step: Step, n: nat)
    requires Inv(s) && Enabled(s, step) && n < |s.table|
    ensures n < |Apply(s, step).table| && Accounts(s, step, s.table[n], Apply(s, step).table[n])
  {
    RecordExactly(s, step, n);
    assert Tracked(s, n);
    RecordAccounts(s, step, s.table[n], Apply(s, step).table[n]);
  }

  lemma RecordAccounts(s: State, step: Step, r: TransactionInfo, r': TransactionInfo)
    requires Progress(s, step, r, r') && Timely(s, step, r) && r.status <= COMPLETED
    requires step.SettlementReceipt? ==> step.txId != ""
    ensures Accounts(s, step, r, r')
  {
  }

  // ----- over a run -----

  ghost predicate Replayed(steps: seq<Step>, states: seq<State>, i: nat, k: TradeInfo)
    requires i < |states| == |steps| + 1
  {
    exists m :: 0 <= m < i && ReplaysOn(states[m], steps[m], k)
  }

  ghost predicate Received(steps: seq<Step>, i: nat, k: TradeInfo)
    requires i <= |steps|
  {
    exists m :: 0 <= m < i && ReceiptFor(steps[m], k)
  }

  /** A step for a trade finds its record, which stays. */
  lemma OwnerStays(steps: seq<Step>, states: seq<State>, m: nat, i: nat, k: TradeInfo)
    requires Run(steps, states) && m < i < |states|
    requires ReplaysOn(states[m], steps[m], k) || ReceiptFor(steps[m], k)
    ensures exists n :: 0 <= n < |states[m].table| && n < |states[i].table| && states[i].table[n].key == k
  {
    RunKeepsInv(steps, states, m);
    assert TakesStep(steps, states, m);
    var s := states[m];
    var n: nat;
    if ReceiptFor(steps[m], k) {
      n := CallHasRecord(s, SettlementCall(k));
    } else {
      var j, _ := KnownEvent(s, steps[m]);
      n := j;
    }
    NeverBack(steps, states, m, i, n);
  }

  /** A record just added has had neither. */
  lemma NoneBefore(steps: seq<Step>, states: seq<State>, i: nat, n: nat)
    requires Run(steps, states) && 0 < i < |states| && |states[i - 1].table| <= n < |states[i].table|
    ensures !Replayed(steps, states, i, states[i].table[n].key) && !Received(steps, i, states[i].table[n].key)
  {
    var k := states[i].table[n].key;
    RunKeepsInv(steps, states, i);
    forall m | 0 <= m < i
      ensures !ReplaysOn(states[m], steps[m], k) && !ReceiptFor(steps[m], k)
    {
      if ReplaysOn(states[m], steps[m], k) || ReceiptFor(steps[m], k) {
        OwnerStays(steps, states, m, i, k);
        TablesGrow(steps, states, m, i - 1);
        assert false;
      }
    }
  }

  lemma {:induction false} TablesGrow(steps: seq<Step>, states: seq<State>, i: nat, i': nat)
    requires Run(steps, states) && i <= i' < |states|
    ensures |states[i].table| <= |states[i'].table|
    decreases i'
  {
    if i < i' {
      TablesGrow(steps, states, i, i' - 1);
      EveryStepForward(steps, states, i' - 1);
    }
  }

  lemma NewRecordCounts(steps: seq<Step>, states: seq<State>, i: nat, n: nat)
    requires Run(steps, states) && 0 < i < |states| && |states[i - 1].table| <= n < |states[i].table|
    ensures states[i].table[n].status == UNDER_ESCROW && states[i].table[n].settlement.txID == ""
  {
    assert TakesStep(steps, states, i - 1);
    NewRecordExactly(states[i - 1], steps[i - 1]);
  }

  ghost predicate SoFar(steps: seq<Step>, states: seq<State>, i: nat, r: TransactionInfo)
    requires i < |states| == |steps| + 1
  {
    && (r.settlement.txID != "" <==> Received(steps, i, r.key))
    && (Replayed(steps, states, i, r.key) ==> r.status == COMPLETED)
    && (Unpaid(r) ==> Replayed(steps, states, i, r.key))
  }

  lemma SoFarNext(steps: seq<Step>, states: seq<State>, i: nat, r: TransactionInfo, r': TransactionInfo)
    requires i < |steps| && |states| == |steps| + 1
    requires SoFar(steps, states, i, r) && Accounts(states[i], steps[i], r, r')
    ensures SoFar(steps, states, i + 1, r')
  {
    assert Received(steps, i + 1, r.key) <==> Received(steps, i, r.key) || ReceiptFor(steps[i], r.key);
    assert Replayed(steps, states, i + 1, r.key) <==>
           Replayed(steps, states, i, r.key) || ReplaysOn(states[i], steps[i], r.key);
  }

  lemma {:induction false} UnpaidSoFar(steps: seq<Step>, states: seq<State>, i: nat, n: nat)
    requires Run(steps, states) && i < |states| && n < |states[i].table|
    ensures SoFar(steps, states, i, states[i].table[n])
  {
    if i > 0 {
      if n < |states[i - 1].table| {
        UnpaidSoFar(steps, states, i - 1, n);
        RunAccounts(steps, states, i - 1, n);
        SoFarNext(steps, states, i - 1, states[i - 1].table[n], states[i].table[n]);
      } else {
        NoneBefore(steps, states, i, n);
        NewRecordCounts(steps, states, i, n);
      }
    }
  }

  lemma RunAccounts(steps: seq<Step>, states: seq<State>, i: nat, n: nat)
    requires Run(steps, states) && i < |steps| && n < |states[i].table|
    ensures n < |states[i + 1].table|
    ensures Accounts(states[i], steps[i], states[i].table[n], states[i + 1].table[n])
  {
    RunKeepsInv(steps, states, i);
    assert TakesStep(steps, states, i);
    StepAccounts(states[i], steps[i], n);
  }

  /** In every state of every run, a record is Completed without a settlement id if and only if
      some block before was a late replay on its trade and no settlement receipt for it has come. */
  lemma UnpaidExactly(steps: seq<Step>, states: seq<State>, i: nat, n: nat)
    requires Run(steps, states) && i < |states| && n < |states[i].table|
    ensures var r := states[i].table[n];
      (r.status == COMPLETED && r.settlement.txID == "") <==>
      Replayed(steps, states, i, r.key) && !Received(steps, i, r.key)
  {
    UnpaidSoFar(steps, states, i, n);
  }
}
