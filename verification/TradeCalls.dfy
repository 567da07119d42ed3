/** Calls and watchers are neither lost nor invented: in every run the history accounts for those
    that are open. */
module TradeCalls {
  import opened TransactionTable
  import opened TradeProtocol

  /** Does this entry send the call, and does this step end it? */
  predicate Sends(e: Entry, c: Call)
  {
    match e
    case EscrowSubmitted(k, _, v) => c == EscrowCall(k, v)
    case TransferSubmitted(k, _, _) => c == TransferCall(k)
    case PayoutSubmitted(k, _, _) => c == SettlementCall(k)
    case _ => false
  }

  predicate Ends(step: Step, c: Call)
  {
    match step
    case EscrowReceipt(k, v, _, _) => c == EscrowCall(k, v)
    case TransferResult(k, _) => c == TransferCall(k)
    case SettlementReceipt(k, _, _) => c == SettlementCall(k)
    case LedgerFailure(call) => c == call
    case _ => false
  }

  /** A watcher of trade `w` is set up with the transfer and taken down when it acts. */
  predicate Watches(e: Entry, w: TradeInfo)
  {
    e.TransferSubmitted? && e.key == w
  }

  predicate Unwatches(e: Entry, w: TradeInfo)
  {
    e.EventActed? && e.watcher == w
  }

  function Tally(log: seq<Entry>, p: Entry -> bool): (n: nat)
  {
    if |log| == 0 then 0 else Tally(log[..|log| - 1], p) + if p(log[|log| - 1]) then 1 else 0
  }

  lemma {:induction false} TallyConcat(a: seq<Entry>, b: seq<Entry>, p: Entry -> bool)
    ensures Tally(a + b, p) == Tally(a, p) + Tally(b, p)
  {
    if |b| == 0 {
      assert a + b == a;
    } else {
      TallyConcat(a, b[..|b| - 1], p);
      assert (a + b)[..|a + b| - 1] == a + b[..|b| - 1];
    }
  }

  function Sent(log: seq<Entry>, c: Call): (n: nat)
  {
    Tally(log, e => Sends(e, c))
  }

  function Ended(steps: seq<Step>, c: Call): (n: nat)
  {
    if |steps| == 0 then 0 else Ended(steps[..|steps| - 1], c) + if Ends(steps[|steps| - 1], c) then 1 else 0
  }

  function Opened(log: seq<Entry>, w: TradeInfo): (n: nat)
  {
    Tally(log, e => Watches(e, w))
  }

  function Closed(log: seq<Entry>, w: TradeInfo): (n: nat)
  {
    Tally(log, e => Unwatches(e, w))
  }

  /** What the dispatch sends and sets up is what it logs. */
  lemma SentByDispatch(r: TransactionInfo, c: Call, w: TradeInfo)
    ensures Sent(SentBy(r), c) == CalledBy(r)[c]
    ensures Opened(SentBy(r), w) == WatchedBy(r)[w] && Closed(SentBy(r), w) == 0
  {
    if r.status == UNDER_ESCROW || r.status == UNDER_TRANSFER {
      var e := SentBy(r)[0];
      TallyOne(e, e => Sends(e, c));
      TallyOne(e, e => Watches(e, w));
      TallyOne(e, e => Unwatches(e, w));
    }
  }

  lemma TallyOne(e: Entry, p: Entry -> bool)
    ensures Tally([e], p) == if p(e) then 1 else 0
  {
    assert [e][..0] == [];
  }

  /** The change of what is open, against the change of the history. */
  ghost predicate Balanced(s: State, s': State, c: Call, ended: nat, w: TradeInfo)
  {
    && s'.inFlight[c] + ended + Sent(s.log, c) == s.inFlight[c] + Sent(s'.log, c)
    && s'.watchers[w] + Closed(s'.log, w) + Opened(s.log, w) == s.watchers[w] + Closed(s.log, w) + Opened(s'.log, w)
  }

  lemma DispatchBalanced(s: State, txInfo: string, txId: string, c: Call, w: TradeInfo)
    ensures Balanced(s, ExecuteNext(s, txInfo, txId), c, 0, w)
  {
    var found := Lookup(s.table, txId);
    if found.Some? {
      var sent := SentBy(found.value);
      SentByDispatch(found.value, c, w);
      TallyConcat(s.log, sent, e => Sends(e, c));
      TallyConcat(s.log, sent, e => Watches(e, w));
      TallyConcat(s.log, sent, e => Unwatches(e, w));
    }
  }

  /** One more entry, with the calls and watchers that go with it. */
  lemma EntryBalanced(s: State, s': State, e: Entry, c: Call, ended: nat, w: TradeInfo)
    requires s'.log == s.log + [e]
    requires s'.inFlight[c] + ended == s.inFlight[c] + (if Sends(e, c) then 1 else 0)
    requires s'.watchers[w] + (if Unwatches(e, w) then 1 else 0) == s.watchers[w] + (if Watches(e, w) then 1 else 0)
    ensures Balanced(s, s', c, ended, w)
  {
    assert s'.log[..|s.log|] == s.log;
  }

  lemma Together(s: State, s1: State, s': State, c: Call, ended: nat, w: TradeInfo)
    requires Balanced(s, s1, c, ended, w) && Balanced(s1, s', c, 0, w)
    ensures Balanced(s, s', c, ended, w)
  {
  }

  lemma EscrowBalanced(s: State, step: Step, c: Call, w: TradeInfo)
    requires step.EscrowReceipt? && EscrowCall(step.key, step.value) in s.inFlight
    ensures Balanced(s, Apply(s, step), c, if Ends(step, c) then 1 else 0, w)
  {
    var e, ended := EscrowConfirmed(step.key, step.txId, step.value), if Ends(step, c) then 1 else 0;
    var s1 := s.(table := Rewrite(s.table, step.key, Data(EscrowTx, "ledger001", step.txId)),
                 inFlight := s.inFlight - multiset{EscrowCall(step.key, step.value)}, log := s.log + [e]);
    EntryBalanced(s, s1, e, c, ended, w);
    DispatchBalanced(s1, step.txInfo, step.txId, c, w);
    Together(s, s1, Apply(s, step), c, ended, w);
  }

  lemma SettlementBalanced(s: State, step: Step, c: Call, w: TradeInfo)
    requires step.SettlementReceipt? && SettlementCall(step.key) in s.inFlight
    ensures Balanced(s, Apply(s, step), c, if Ends(step, c) then 1 else 0, w)
  {
    var e, ended := PayoutConfirmed(step.key, step.txId), if Ends(step, c) then 1 else 0;
    var s1 := s.(table := Rewrite(s.table, step.key, Data(SettlementTx, "ledger003", step.txId)),
                 inFlight := s.inFlight - multiset{SettlementCall(step.key)}, log := s.log + [e]);
    EntryBalanced(s, s1, e, c, ended, w);
    DispatchBalanced(s1, step.txInfo, step.txId, c, w);
    Together(s, s1, Apply(s, step), c, ended, w);
  }

  lemma BlockBalanced(s: State, step: Step, c: Call, w: TradeInfo)
    requires step.Block? && step.watcher in s.watchers
    ensures Balanced(s, Apply(s, step), c, 0, w)
  {
    var known := FirstKnown(s.table, step.events);
    if known.Some? {
      var e := EventActed(Lookup(s.table, known.value.txId).value.key, step.watcher, known.value.txId);
      var s1 := s.(watchers := s.watchers - multiset{step.watcher}, log := s.log + [e]);
      EntryBalanced(s, s1, e, c, 0, w);
      DispatchBalanced(s1, known.value.txInfo, known.value.txId, c, w);
      Together(s, s1, Apply(s, step), c, 0, w);
    }
  }

  lemma StepBalanced(s: State, step: Step, c: Call, w: TradeInfo)
    requires Enabled(s, step)
    ensures Balanced(s, Apply(s, step), c, if Ends(step, c) then 1 else 0, w)
  {
    match step
    case Start(k, q, preferred) =>
      EntryBalanced(s, Apply(s, step), EscrowSubmitted(k, q, Price(preferred)), c, 0, w);
    case EscrowReceipt(_, _, _, _) => EscrowBalanced(s, step, c, w);
    case TransferResult(k, txId) =>
      EntryBalanced(s, Apply(s, step), TransferRecorded(k, txId), c, if Ends(step, c) then 1 else 0, w);
    case Block(_, _) => BlockBalanced(s, step, c, w);
    case SettlementReceipt(_, _, _) => SettlementBalanced(s, step, c, w);
    case LedgerFailure(_) =>
  }

  /** In every state of every run, the times a call was sent are the times it is in flight and
      the times it was answered or failed; and the watchers set up for a trade are those that
      are live and those that have acted. */
  lemma {:induction false} NothingLost(steps: seq<Step>, states: seq<State>, i: nat, c: Call, w: TradeInfo)
    requires Run(steps, states) && i < |states|
    ensures Sent(states[i].log, c) == states[i].inFlight[c] + Ended(steps[..i], c)
    ensures Opened(states[i].log, w) == states[i].watchers[w] + Closed(states[i].log, w)
  {
    if i > 0 {
      NothingLost(steps, states, i - 1, c, w);
      assert TakesStep(steps, states, i - 1);
      StepBalanced(states[i - 1], steps[i - 1], c, w);
      assert steps[..i][..i - 1] == steps[..i - 1];
    }
  }
}
