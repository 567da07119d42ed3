/** Where the stored receipts and events come from, in every run. */
module TradeTexts {
  import opened Text
  import opened TransactionTable
  import opened TradeProtocol
  import opened TradeInvariant
  import opened TradeKeeps
  import opened TradeEffects
  import opened TradeTheorems

  /** The text in the slot that is filled on leaving a status. */
  function TextAt(r: TransactionInfo, status: nat): (text: string)
  {
    if status == UNDER_ESCROW then r.escrow.txInfo
    else if status == UNDER_TRANSFER then r.transfer.txInfo
    else r.settlement.txInfo
  }

  /** Once a status is left, its text stays. */
  lemma TextStays(s: State, step: Step, r: TransactionInfo, r': TransactionInfo, status: nat)
    requires Progress(s, step, r, r') && Timely(s, step, r) && status < r.status <= COMPLETED
    ensures TextAt(r', status) == TextAt(r, status)
  {
  }

  lemma StepInRun(steps: seq<Step>, states: seq<State>, i: nat, n: nat)
    requires Run(steps, states) && i < |steps| && n < |states[i].table|
    ensures n < |states[i + 1].table|
    ensures Progress(states[i], steps[i], states[i].table[n], states[i + 1].table[n])
    ensures Timely(states[i], steps[i], states[i].table[n]) && states[i].table[n].status <= COMPLETED
  {
    RunKeepsInv(steps, states, i);
    assert TakesStep(steps, states, i) && Tracked(states[i], n);
    RecordExactly(states[i], steps[i], n);
  }

  /** Step `m` takes record `n` out of this status, and brings the text it has in state `i`. */
  ghost predicate LeavesAt(steps: seq<Step>, states: seq<State>, i: nat, n: nat, status: nat, m: nat)
    requires i < |states| == |steps| + 1 && n < |states[i].table|
  {
    && m < i && n < |states[m].table| && n < |states[m + 1].table|
    && states[m].table[n].status == status && states[m + 1].table[n].status == status + 1
    && TextAt(states[m + 1].table[n], status) == TextAt(states[i].table[n], status)
  }

  lemma {:induction false} LeftAt(steps: seq<Step>, states: seq<State>, i: nat, n: nat, status: nat) returns (m: nat)
    requires Run(steps, states) && i < |states| && n < |states[i].table| && status < states[i].table[n].status
    ensures LeavesAt(steps, states, i, n, status, m)
  {
    assert i > 0;
    if n >= |states[i - 1].table| {
      assert TakesStep(steps, states, i - 1);
      NewRecordExactly(states[i - 1], steps[i - 1]);
      assert false;
    } else {
      StepInRun(steps, states, i - 1, n);
      if status < states[i - 1].table[n].status {
        m := LeftAt(steps, states, i - 1, n, status);
        TextStays(states[i - 1], steps[i - 1], states[i - 1].table[n], states[i].table[n], status);
      } else {
        m := i - 1;
      }
    }
  }

  /** The text of an escrow is that of its receipt step, which also brought the id. */
  lemma EscrowText(steps: seq<Step>, states: seq<State>, i: nat, n: nat) returns (m: nat)
    requires Run(steps, states) && i < |states| && n < |states[i].table| && states[i].table[n].status > UNDER_ESCROW
    ensures var r := states[i].table[n];
      && m < i && EscrowFor(steps[m], r.key)
      && r.escrow == Slot("ledger001", steps[m].txId, steps[m].txInfo)
  {
    m := LeftAt(steps, states, i, n, UNDER_ESCROW);
    StepInRun(steps, states, m, n);
    NeverBack(steps, states, m + 1, i, n);
    RunKeepsInv(steps, states, i);
    assert Tracked(states[i], n);
    assert TakesStep(steps, states, m);
  }

  /** The block step `m` acts on trade `k` for this event, and no step before it did. */
  ghost predicate FirstActs(steps: seq<Step>, states: seq<State>, m: nat, k: TradeInfo, e: Event)
    requires m < |steps| && |states| == |steps| + 1
  {
    && ActsOn(states[m], steps[m], k) && FirstKnown(states[m].table, steps[m].events) == Some(e)
    && forall m' :: 0 <= m' < m ==> !ActsOn(states[m'], steps[m'], k)
  }

  /** Acting on a trade takes it out of its transfer... */
  lemma ActedNow(steps: seq<Step>, states: seq<State>, m: nat, k: TradeInfo) returns (j: nat)
    requires Run(steps, states) && m < |steps| && ActsOn(states[m], steps[m], k)
    ensures j < |states[m + 1].table|
    ensures states[m + 1].table[j].key == k && states[m + 1].table[j].status > UNDER_TRANSFER
  {
    RunKeepsInv(steps, states, m);
    assert TakesStep(steps, states, m);
    var i, _ := KnownEvent(states[m], steps[m]);
    j := i;
    StepInRun(steps, states, m, j);
  }

  /** ...for good. */
  lemma ActedIsPast(steps: seq<Step>, states: seq<State>, m: nat, i: nat, n: nat)
    requires Run(steps, states) && m < i < |states| && n < |states[i].table|
    requires ActsOn(states[m], steps[m], states[i].table[n].key)
    ensures states[i].table[n].status > UNDER_TRANSFER
  {
    var j := ActedNow(steps, states, m, states[i].table[n].key);
    NeverBack(steps, states, m + 1, i, j);
    RunKeepsInv(steps, states, i);
    SameRecord(states[i].table, j, n);
  }

  lemma SameRecord(table: seq<TransactionInfo>, j: nat, n: nat)
    requires NewTradeIds(table) && j < |table| && n < |table| && table[j].key == table[n].key
    ensures j == n
  {
  }

  /** The text of a transfer is that of the first block event acted on for the trade. */
  lemma TransferText(steps: seq<Step>, states: seq<State>, i: nat, n: nat) returns (m: nat)
    requires Run(steps, states) && i < |states| && n < |states[i].table| && states[i].table[n].status > UNDER_TRANSFER
    ensures var r := states[i].table[n];
      m < i && FirstActs(steps, states, m, r.key, Event(r.transfer.txID, r.transfer.txInfo))
  {
    m := LeftAt(steps, states, i, n, UNDER_TRANSFER);
    StepInRun(steps, states, m, n);
    NeverBack(steps, states, m + 1, i, n);
    RunKeepsInv(steps, states, m + 1);
    assert Tracked(states[m + 1], n);
    forall m' | 0 <= m' < m
      ensures !ActsOn(states[m'], steps[m'], states[i].table[n].key)
    {
      if ActsOn(states[m'], steps[m'], states[i].table[n].key) {
        ActedIsPast(steps, states, m', m, n);
        assert false;
      }
    }
  }

  /** The text of a settlement is that of the step that completed the trade: its settlement
      receipt, or a late replay of its event. */
  lemma SettlementText(steps: seq<Step>, states: seq<State>, i: nat, n: nat) returns (m: nat)
    requires Run(steps, states) && i < |states| && n < |states[i].table| && states[i].table[n].status == COMPLETED
    ensures var r := states[i].table[n];
      && m < i && n < |states[m].table| && states[m].table[n].status == UNDER_SETTLEMENT
      && if ReceiptFor(steps[m], r.key) then r.settlement == Slot("ledger003", steps[m].txId, steps[m].txInfo)
         else && ActsOn(states[m], steps[m], r.key)
              && FirstKnown(states[m].table, steps[m].events) == Some(Event(r.transfer.txID, r.settlement.txInfo))
  {
    m := LeftAt(steps, states, i, n, UNDER_SETTLEMENT);
    StepInRun(steps, states, m, n);
    NeverBack(steps, states, m + 1, i, n);
    RunKeepsInv(steps, states, i);
    assert Tracked(states[i], n);
    assert TakesStep(steps, states, m);
  }
}
