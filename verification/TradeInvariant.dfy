/** The inductive invariant of the trade protocol, and how moving one record forward keeps it. */
module TradeInvariant {
  import opened TransactionTable
  import opened TradeProtocol

  // ----- the record and its calls -----

  ghost predicate Named(slot: Slot, ledger: string)
  {
    slot.ledger == if slot.txID == "" then "" else ledger
  }

  /** The info slots are filled in order, one per status step. */
  ghost predicate SlotsFollowStatus(r: TransactionInfo)
  {
    && 0 <= r.status <= COMPLETED
    && (r.escrow.txInfo != "" <==> r.status >= 1)
    && (r.transfer.txInfo != "" <==> r.status >= 2)
    && (r.settlement.txInfo != "" <==> r.status >= 3)
  }

  /** Which ids a record has, and which calls and watchers it can have, at each status. The
      settlement id may come late for a Completed record, so nothing ties it to status 3. */
  ghost predicate Phase(r: TransactionInfo, escrows: nat, transfers: nat, settlements: nat, watchers: nat)
  {
    && SlotsFollowStatus(r)
    && Named(r.escrow, "ledger001") && Named(r.transfer, "ledger002") && Named(r.settlement, "ledger003")
    && (r.escrow.txID != "" <==> r.status >= 1)
    && (r.transfer.txID != "" ==> r.status >= 1)
    && (r.status >= 2 ==> r.transfer.txID != "")
    && (r.settlement.txID != "" ==> r.status == 3)
    && escrows <= (if r.status == 0 then 1 else 0)
    && transfers <= (if r.status == 1 && r.transfer.txID == "" then 1 else 0)
    && settlements <= (if r.status >= 2 && r.settlement.txID == "" then 1 else 0)
    && watchers <= (if r.status >= 1 then 1 else 0)
  }

  ghost predicate InPhase(s: State, r: TransactionInfo)
  {
    Phase(r, s.inFlight[EscrowCall(r.key, r.tradingValue)], s.inFlight[TransferCall(r.key)],
          s.inFlight[SettlementCall(r.key)], s.watchers[r.key])
  }

  ghost predicate NewTradeIds(table: seq<TransactionInfo>)
  {
    forall i, j :: 0 <= i < j < |table| ==> table[i].key.tradeID != table[j].key.tradeID
  }

  ghost predicate HasRecord(table: seq<TransactionInfo>, k: TradeInfo)
  {
    exists i :: 0 <= i < |table| && table[i].key == k
  }

  /** Every call and every watcher belongs to a recorded trade, an escrow call for its price. */
  ghost predicate Owned(s: State)
  {
    && (forall c :: c in s.inFlight ==> HasRecord(s.table, c.key))
    && (forall k, v, i :: EscrowCall(k, v) in s.inFlight && 0 <= i < |s.table| && s.table[i].key == k
                          ==> v == s.table[i].tradingValue)
    && (forall w :: w in s.watchers ==> HasRecord(s.table, w))
  }

  // ----- the record and the history -----

  function Kind(e: Entry): (n: nat)
  {
    match e
    case EscrowSubmitted(_, _, _) => 0
    case EscrowConfirmed(_, _, _) => 1
    case TransferSubmitted(_, _, _) => 2
    case TransferRecorded(_, _) => 3
    case EventActed(_, _, _) => 4
    case PayoutSubmitted(_, _, _) => 5
    case PayoutConfirmed(_, _) => 6
  }

  /** Has a record come as far as an entry of this kind says? */
  ghost predicate Reached(e: Entry, r: TransactionInfo)
  {
    match e
    case EscrowSubmitted(_, _, _) => true
    case EscrowConfirmed(_, _, _) => r.status >= 1
    case TransferSubmitted(_, _, _) => r.status >= 1
    case TransferRecorded(_, _) => r.transfer.txID != ""
    case EventActed(_, _, _) => r.status >= 2
    case PayoutSubmitted(_, _, _) => r.status >= 2
    case PayoutConfirmed(_, _) => r.settlement.txID != ""
  }

  ghost predicate Tells(e: Entry, r: TransactionInfo)
  {
    match e
    case EscrowSubmitted(_, q, v) => q == r.request && v == r.tradingValue
    case EscrowConfirmed(_, x, v) => x == r.escrow.txID && v == r.tradingValue
    case TransferSubmitted(_, a, to) => a == r.request.assetID && to == r.request.fabricAccountTo
    case TransferRecorded(_, x) => x == r.transfer.txID
    case EventActed(_, _, x) => x == r.transfer.txID
    case PayoutSubmitted(_, to, v) => to == r.request.ethereumAccountTo && v == r.tradingValue
    case PayoutConfirmed(_, x) => x == r.settlement.txID
  }

  /** The history tells the truth about the table: each entry's trade has a record that has
      come that far, with the ids, accounts and amounts of the entry. */
  ghost predicate Backed(log: seq<Entry>, table: seq<TransactionInfo>)
  {
    forall n, i {:trigger BackedBy(log, n, table, i)} ::
      0 <= n < |log| && 0 <= i < |table| ==> BackedBy(log, n, table, i)
  }

  ghost predicate BackedBy(log: seq<Entry>, n: nat, table: seq<TransactionInfo>, i: nat)
    requires n < |log| && i < |table|
  {
    log[n].key == table[i].key ==> Reached(log[n], table[i]) && Tells(log[n], table[i])
  }

  ghost predicate Attributed(log: seq<Entry>, table: seq<TransactionInfo>)
  {
    forall e :: e in log ==> HasRecord(table, e.key)
  }

  /** The table tells the truth about the history: how far a record has come was logged. */
  ghost predicate Linked(r: TransactionInfo, log: seq<Entry>)
  {
    && EscrowSubmitted(r.key, r.request, r.tradingValue) in log
    && (r.status >= 1 ==>
      && EscrowConfirmed(r.key, r.escrow.txID, r.tradingValue) in log
      && TransferSubmitted(r.key, r.request.assetID, r.request.fabricAccountTo) in log)
    && (r.transfer.txID != "" ==> TransferRecorded(r.key, r.transfer.txID) in log)
    && (r.status >= 2 ==>
      && (exists w :: EventActed(r.key, w, r.transfer.txID) in log)
      && PayoutSubmitted(r.key, r.request.ethereumAccountTo, r.tradingValue) in log)
    && (r.settlement.txID != "" ==> PayoutConfirmed(r.key, r.settlement.txID) in log)
  }

  /** What must have happened before an entry. */
  ghost predicate Prereq(before: seq<Entry>, e: Entry)
  {
    match e
    case EscrowSubmitted(_, _, _) => true
    case EscrowConfirmed(k, _, v) => exists q :: EscrowSubmitted(k, q, v) in before
    case TransferSubmitted(k, a, to) =>
      exists q, x, v :: EscrowSubmitted(k, q, v) in before && EscrowConfirmed(k, x, v) in before
                     && a == q.assetID && to == q.fabricAccountTo
    case TransferRecorded(k, _) => exists a, to :: TransferSubmitted(k, a, to) in before
    case EventActed(k, _, x) => TransferRecorded(k, x) in before
    case PayoutSubmitted(k, to, v) =>
      && (exists q, y :: EscrowSubmitted(k, q, v) in before && EscrowConfirmed(k, y, v) in before
                      && to == q.ethereumAccountTo)
      && (exists w, x :: EventActed(k, w, x) in before)
    case PayoutConfirmed(k, _) => exists to, v :: PayoutSubmitted(k, to, v) in before
  }

  ghost predicate Causal(log: seq<Entry>)
  {
    forall i {:trigger CausedAt(log, i)} :: 0 <= i < |log| ==> CausedAt(log, i)
  }

  ghost predicate CausedAt(log: seq<Entry>, i: nat)
    requires i < |log|
  {
    Prereq(log[..i], log[i])
  }

  /** Only acting on an event can happen twice for one trade. */
  ghost predicate NoRepeat(log: seq<Entry>)
  {
    forall i, j {:trigger Differ(log, i, j)} :: 0 <= i < j < |log| ==> Differ(log, i, j)
  }

  ghost predicate Differ(log: seq<Entry>, i: nat, j: nat)
    requires i < j < |log|
  {
    log[i].key == log[j].key && Kind(log[i]) == Kind(log[j]) ==> log[i].EventActed?
  }

  // ----- the money -----

  function Deposits(log: seq<Entry>): (sum: nat)
  {
    if |log| == 0 then 0
    else
      var e := log[|log| - 1];
      Deposits(log[..|log| - 1]) + if e.EscrowConfirmed? then e.value else 0
  }

  function Payouts(log: seq<Entry>): (sum: nat)
  {
    if |log| == 0 then 0
    else
      var e := log[|log| - 1];
      Payouts(log[..|log| - 1]) + if e.PayoutSubmitted? then e.value else 0
  }

  function Holding(r: TransactionInfo): (value: nat)
  {
    if r.status == UNDER_TRANSFER then r.tradingValue else 0
  }

  /** The sum of the prices of all records under transfer. */
  function Held(table: seq<TransactionInfo>): (sum: nat)
  {
    if |table| == 0 then 0 else Held(table[..|table| - 1]) + Holding(table[|table| - 1])
  }

  lemma {:induction false} HeldAt(table: seq<TransactionInfo>, j: nat, r: TransactionInfo)
    requires j < |table|
    ensures Held(table[j := r]) + Holding(table[j]) == Held(table) + Holding(r)
  {
    var n := |table| - 1;
    if j < n {
      HeldAt(table[..n], j, r);
      assert table[j := r][..n] == table[..n][j := r];
    } else {
      assert table[j := r][..n] == table[..n];
    }
  }

  // ----- the invariant -----

  ghost predicate Inv(s: State)
  {
    && NewTradeIds(s.table)
    && DistinctIds(s.table)
    && (forall i {:trigger Tracked(s, i)} :: 0 <= i < |s.table| ==> Tracked(s, i))
    && Owned(s)
    && Backed(s.log, s.table)
    && Attributed(s.log, s.table)
    && Causal(s.log)
    && NoRepeat(s.log)
    && Deposits(s.log) == Payouts(s.log) + Held(s.table)
  }

  ghost predicate Tracked(s: State, i: nat)
    requires i < |s.table|
  {
    InPhase(s, s.table[i]) && Linked(s.table[i], s.log)
  }

  /** Appending an entry that was prepared for and is the first of its kind for its trade. */
  lemma Append(log: seq<Entry>, e: Entry)
    requires Causal(log) && NoRepeat(log) && Prereq(log, e)
    requires forall n :: 0 <= n < |log| && log[n].key == e.key && Kind(log[n]) == Kind(e) ==> e.EventActed?
    ensures Causal(log + [e]) && NoRepeat(log + [e])
    ensures Deposits(log + [e]) == Deposits(log) + (if e.EscrowConfirmed? then e.value else 0)
    ensures Payouts(log + [e]) == Payouts(log) + (if e.PayoutSubmitted? then e.value else 0)
  {
    var l := log + [e];
    assert l[..|log|] == log;
    forall i | 0 <= i < |l|
      ensures CausedAt(l, i)
    {
      if i < |log| { assert CausedAt(log, i) && l[..i] == log[..i]; }
    }
    forall i, j | 0 <= i < j < |l|
      ensures Differ(l, i, j)
    {
      if j < |log| { assert Differ(log, i, j); }
    }
  }

  /** One record moves on; calls and watchers of other trades do not grow. */
  ghost predicate Moves(s: State, s': State, j: nat)
    requires j < |s.table|
  {
    && |s'.table| == |s.table|
    && (forall i :: 0 <= i < |s.table| && i != j ==> s'.table[i] == s.table[i])
    && (forall c: Call :: c.key != s.table[j].key ==> s'.inFlight[c] <= s.inFlight[c])
    && (forall w :: w != s.table[j].key ==> s'.watchers[w] <= s.watchers[w])
    && s.log <= s'.log
    && (forall n :: |s.log| <= n < |s'.log| ==> s'.log[n].key == s.table[j].key)
  }

  /** The record moved forward: fixed parts kept, ids once set kept, status not lowered. */
  ghost predicate Forward(r: TransactionInfo, r': TransactionInfo)
  {
    && r'.key == r.key && r'.request == r.request && r'.tradingValue == r.tradingValue
    && r.status <= r'.status <= r.status + 1
    && (r.escrow.txID != "" ==> r'.escrow.txID == r.escrow.txID)
    && (r.transfer.txID != "" ==> r'.transfer.txID == r.transfer.txID)
    && (r.settlement.txID != "" ==> r'.settlement.txID == r.settlement.txID)
  }

  lemma ForwardKeepsEntries(s: State, s': State, j: nat)
    requires Inv(s) && j < |s.table| && Moves(s, s', j)
    requires Forward(s.table[j], s'.table[j])
    requires forall n :: |s.log| <= n < |s'.log| ==> Reached(s'.log[n], s'.table[j]) && Tells(s'.log[n], s'.table[j])
    ensures Backed(s'.log, s'.table)
  {
    var r, r' := s.table[j], s'.table[j];
    forall n, i | 0 <= n < |s'.log| && 0 <= i < |s'.table|
      ensures BackedBy(s'.log, n, s'.table, i)
    {
      if n < |s.log| {
        assert s'.log[n] == s.log[n] && s.table[i].key == s'.table[i].key;
        assert BackedBy(s.log, n, s.table, i);
        assert Tracked(s, i);
      } else if i != j {
        assert s'.table[i].key != s.table[j].key;
      }
    }
  }

  lemma OtherStays(s: State, s': State, j: nat, r: TransactionInfo)
    requires j < |s.table| && Moves(s, s', j) && r.key != s.table[j].key
    requires InPhase(s, r) && Linked(r, s.log)
    ensures InPhase(s', r) && Linked(r, s'.log)
  {
    assert forall e :: e in s.log ==> e in s'.log;
  }

  lemma RecordsStay(s: State, s': State, j: nat)
    requires j < |s.table| && Moves(s, s', j) && s'.table[j].key == s.table[j].key
    ensures forall k :: HasRecord(s.table, k) ==> HasRecord(s'.table, k)
  {
    forall k | HasRecord(s.table, k)
      ensures HasRecord(s'.table, k)
    {
      var i :| 0 <= i < |s.table| && s.table[i].key == k;
      assert s'.table[i].key == k;
    }
  }

  lemma AttributedStays(s: State, s': State, j: nat)
    requires j < |s.table| && Moves(s, s', j) && s'.table[j].key == s.table[j].key
    requires Attributed(s.log, s.table)
    ensures Attributed(s'.log, s'.table)
  {
    RecordsStay(s, s', j);
    forall e | e in s'.log
      ensures HasRecord(s'.table, e.key)
    {
      var n :| 0 <= n < |s'.log| && s'.log[n] == e;
      if n < |s.log| {
        assert s.log[n] == e;
      } else {
        assert s'.table[j].key == e.key;
      }
    }
  }

  lemma OwnedStays(s: State, s': State, j: nat)
    requires j < |s.table| && Moves(s, s', j) && s'.table[j].key == s.table[j].key
    requires s'.table[j].tradingValue == s.table[j].tradingValue
    requires DistinctKeys(s.table) && Owned(s)
    requires forall v :: EscrowCall(s.table[j].key, v) in s'.inFlight ==> v == s.table[j].tradingValue
    ensures Owned(s')
  {
    RecordsStay(s, s', j);
    var kj := s.table[j].key;
    assert HasRecord(s'.table, kj) by { assert s'.table[j].key == kj; }
    forall c | c in s'.inFlight
      ensures HasRecord(s'.table, c.key)
    {
      if c.key != kj { assert c in s.inFlight; }
    }
    forall w | w in s'.watchers
      ensures HasRecord(s'.table, w)
    {
      if w != kj { assert w in s.watchers; }
    }
    forall k, v, i | EscrowCall(k, v) in s'.inFlight && 0 <= i < |s'.table| && s'.table[i].key == k
      ensures v == s'.table[i].tradingValue
    {
      if i != j {
        assert s'.table[i] == s.table[i];
        assert s.table[i].key != kj;
        assert EscrowCall(k, v) in s.inFlight;
      }
    }
  }

  lemma TradeIdsGiveKeys(table: seq<TransactionInfo>)
    requires NewTradeIds(table)
    ensures DistinctKeys(table)
  {
  }

  lemma TradeIdsStay(s: State, s': State, j: nat)
    requires j < |s.table| && Moves(s, s', j) && s'.table[j].key == s.table[j].key && NewTradeIds(s.table)
    ensures NewTradeIds(s'.table)
  {
    assert forall i :: 0 <= i < |s.table| ==> s'.table[i].key == s.table[i].key;
  }

  /** One record moves forward with its calls, watchers and history entries in step. */
  ghost predicate Advances(s: State, s': State, j: nat)
    requires j < |s.table|
  {
    && Moves(s, s', j)
    && Forward(s.table[j], s'.table[j])
    && (forall v :: EscrowCall(s.table[j].key, v) in s'.inFlight ==> v == s.table[j].tradingValue)
    && InPhase(s', s'.table[j]) && Linked(s'.table[j], s'.log)
    && (forall n :: |s.log| <= n < |s'.log| ==> Reached(s'.log[n], s'.table[j]) && Tells(s'.log[n], s'.table[j]))
  }

  ghost predicate ChangesOnly(s: State, s': State, j: int)
  {
    |s.table| <= |s'.table| && forall n :: 0 <= n < |s.table| && n != j ==> s'.table[n] == s.table[n]
  }

  /** One step: records keep their places, at most one of them changes, and it goes forward by
      at most one status; at most one record is added; history only grows. */
  ghost predicate OneForward(s: State, s': State)
  {
    && |s.table| <= |s'.table| <= |s.table| + 1
    && (forall n :: 0 <= n < |s.table| ==> Forward(s.table[n], s'.table[n]))
    && (exists j :: ChangesOnly(s, s', j))
    && s.log <= s'.log
  }

  lemma MovesForward(s: State, s': State, j: nat)
    requires j < |s.table| && Advances(s, s', j)
    ensures OneForward(s, s')
  {
    assert ChangesOnly(s, s', j);
  }

  lemma Unmoved(s: State, s': State)
    requires s.table <= s'.table && |s'.table| <= |s.table| + 1 && s.log <= s'.log
    ensures OneForward(s, s')
  {
    assert ChangesOnly(s, s', -1);
  }

  /** A history whose shape is sound and whose money matches a change of what is held. */
  ghost predicate Sound(s: State, log: seq<Entry>, change: int)
  {
    && Causal(log) && NoRepeat(log)
    && Deposits(log) - Payouts(log) == Deposits(s.log) - Payouts(s.log) + change
  }

  /** Moving one record forward keeps the invariant, given what is particular to the step. */
  lemma MoveKeepsInv(s: State, s': State, j: nat)
    requires Inv(s) && j < |s.table| && Advances(s, s', j)
    requires DistinctIds(s'.table)
    requires Sound(s, s'.log, Holding(s'.table[j]) - Holding(s.table[j]))
    ensures Inv(s') && OneForward(s, s')
  {
    MovesForward(s, s', j);
    TradeIdsGiveKeys(s.table);
    ForwardKeepsEntries(s, s', j);
    OwnedStays(s, s', j);
    AttributedStays(s, s', j);
    TradeIdsStay(s, s', j);
    HeldAt(s.table, j, s'.table[j]);
    assert s'.table == s.table[j := s'.table[j]];
    forall i | 0 <= i < |s'.table|
      ensures Tracked(s', i)
    {
      assert Tracked(s, i);
      if i != j { OtherStays(s, s', j, s.table[i]); }
    }
  }

  /** A history has no entry of a kind its trade has not reached. */
  lemma NotYet(s: State, j: nat, e: Entry)
    requires Inv(s) && j < |s.table| && s.table[j].key == e.key && !Reached(e, s.table[j])
    ensures forall n :: 0 <= n < |s.log| && s.log[n].key == e.key ==> Kind(s.log[n]) != Kind(e)
  {
    forall n | 0 <= n < |s.log| && s.log[n].key == e.key
      ensures Kind(s.log[n]) != Kind(e)
    {
      assert BackedBy(s.log, n, s.table, j);
    }
  }
}
