/** business-logic-asset-trade.ts as a transition system. One step is one synchronous stretch
    between awaits: a priced trade is started, a ledger answers a call that is in flight, or a
    block of Fabric events reaches one live watcher. Any number of trades interleave. */
module TradeProtocol {
  import opened Text
  import opened TransactionTable

  /** A ledger call whose answer is still awaited, with what its callback closes over. */
  datatype Call =
    | EscrowCall(key: TradeInfo, value: nat)
    | TransferCall(key: TradeInfo)
    | SettlementCall(key: TradeInfo)

  /** The history of what was sent to and seen on the ledgers. */
  datatype Entry =
    | EscrowSubmitted(key: TradeInfo, request: Request, value: nat)
    | EscrowConfirmed(key: TradeInfo, txId: string, value: nat)
    | TransferSubmitted(key: TradeInfo, assetID: string, to: string)
    | TransferRecorded(key: TradeInfo, txId: string)
    | EventActed(key: TradeInfo, watcher: TradeInfo, txId: string)
    | PayoutSubmitted(key: TradeInfo, to: string, value: nat)
    | PayoutConfirmed(key: TradeInfo, txId: string)

  datatype State = State(
    table: seq<TransactionInfo>,
    inFlight: multiset<Call>,
    watchers: multiset<TradeInfo>,
    log: seq<Entry>)

  /** A Fabric transaction in a block, with the text it is stored as. */
  datatype Event = Event(txId: string, txInfo: string)

  datatype Step =
    | Start(key: TradeInfo, request: Request, preferred: bool)
    | EscrowReceipt(key: TradeInfo, value: nat, txId: string, txInfo: string)
    | TransferResult(key: TradeInfo, txId: string)
    | Block(watcher: TradeInfo, events: seq<Event>)
    | SettlementReceipt(key: TradeInfo, txId: string, txInfo: string)
    | LedgerFailure(call: Call)

  const INITIAL := State([], multiset{}, multiset{}, [])

  function Price(preferred: bool): (value: nat)
  {
    if preferred then 25 else 50
  }

  const BLANK := TransactionInfo(
    TradeInfo("", ""), Request("", "", "", "", ""), 0, 0, EMPTY_SLOT, EMPTY_SLOT, EMPTY_SLOT)

  /** The record that `startTransaction` adds: initialised in mode 0 before pricing, when the
      request has no price yet, and refreshed in mode 1 after it. */
  function NewRecord(key: TradeInfo, request: Request, preferred: bool): (r: TransactionInfo)
  {
    SetRequestInfo(SetRequestInfo(BLANK, 0, key, request, 0), 1, key, request, Price(preferred))
  }

  // ----- `executeNextTransaction`: what acting on a record of each status does -----

  /** The slot that receives the information, by status. */
  function SlotOf(status: nat): (target: Target)
  {
    if status == UNDER_ESCROW then EscrowTx
    else if status == UNDER_TRANSFER then TransferTx
    else SettlementTx
  }

  /** Under escrow the asset transfer is sent, under transfer the payout. */
  function SentBy(r: TransactionInfo): (sent: seq<Entry>)
  {
    if r.status == UNDER_ESCROW then [TransferSubmitted(r.key, r.request.assetID, r.request.fabricAccountTo)]
    else if r.status == UNDER_TRANSFER then [PayoutSubmitted(r.key, r.request.ethereumAccountTo, r.tradingValue)]
    else []
  }

  function CalledBy(r: TransactionInfo): (calls: multiset<Call>)
  {
    if r.status == UNDER_ESCROW then multiset{TransferCall(r.key)}
    else if r.status == UNDER_TRANSFER then multiset{SettlementCall(r.key)}
    else multiset{}
  }

  /** The transfer is sent with a new block watcher in place. */
  function WatchedBy(r: TransactionInfo): (watchers: multiset<TradeInfo>)
  {
    if r.status == UNDER_ESCROW then multiset{r.key} else multiset{}
  }

  /** Find the record by id, then dispatch on its status alone; Completed is left alone. */
  function ExecuteNext(s: State, txInfo: string, txId: string): (s': State)
  {
    match Lookup(s.table, txId)
    case None => s
    case Some(r) =>
      if r.status >= COMPLETED then s
      else State(
        Rewrite(Rewrite(s.table, r.key, Info(SlotOf(r.status), txInfo)), r.key, Status(r.status + 1)),
        s.inFlight + CalledBy(r), s.watchers + WatchedBy(r), s.log + SentBy(r))
  }

  /** The first event of a block whose id the table knows. */
  function FirstKnown(table: seq<TransactionInfo>, events: seq<Event>): (e: Option<Event>)
    ensures e.Some? ==> e.value in events && Lookup(table, e.value.txId).Some?
  {
    if |events| == 0 then None
    else if Lookup(table, events[0].txId).Some? then Some(events[0])
    else FirstKnown(table, events[1..])
  }

  /** A watcher is cancelled and the event it found is acted on. */
  function Acted(s: State, w: TradeInfo, e: Event): (s': State)
    requires Lookup(s.table, e.txId).Some?
  {
    ExecuteNext(
      s.(watchers := s.watchers - multiset{w},
         log := s.log + [EventActed(Lookup(s.table, e.txId).value.key, w, e.txId)]),
      e.txInfo, e.txId)
  }

  function Delivered(s: State, w: TradeInfo, known: Option<Event>): (s': State)
    requires known.Some? ==> Lookup(s.table, known.value.txId).Some?
  {
    if known.Some? then Acted(s, w, known.value) else s
  }

  function Apply(s: State, step: Step): (s': State)
  {
    match step
    case Start(k, request, preferred) =>
      s.(table := Rewrite(s.table + [NewRecord(k, request, preferred)], k, Status(UNDER_ESCROW)),
         inFlight := s.inFlight + multiset{EscrowCall(k, Price(preferred))},
         log := s.log + [EscrowSubmitted(k, request, Price(preferred))])
    case EscrowReceipt(k, value, txId, txInfo) =>
      ExecuteNext(
        s.(table := Rewrite(s.table, k, Data(EscrowTx, "ledger001", txId)),
           inFlight := s.inFlight - multiset{EscrowCall(k, value)},
           log := s.log + [EscrowConfirmed(k, txId, value)]),
        txInfo, txId)
    case TransferResult(k, txId) =>
      s.(table := Rewrite(s.table, k, Data(TransferTx, "ledger002", txId)),
         inFlight := s.inFlight - multiset{TransferCall(k)},
         log := s.log + [TransferRecorded(k, txId)])
    case Block(w, events) => Delivered(s, w, FirstKnown(s.table, events))
    case SettlementReceipt(k, txId, txInfo) =>
      ExecuteNext(
        s.(table := Rewrite(s.table, k, Data(SettlementTx, "ledger003", txId)),
           inFlight := s.inFlight - multiset{SettlementCall(k)},
           log := s.log + [PayoutConfirmed(k, txId)]),
        txInfo, txId)
    case LedgerFailure(call) =>
      s.(inFlight := s.inFlight - multiset{call})
  }

  ghost predicate Fresh(table: seq<TransactionInfo>, txId: string)
  {
    txId != "" && forall i :: 0 <= i < |table| ==> !Carries(table[i], txId)
  }

  /** A Fabric transaction id is no Ethereum transaction hash. */
  ghost predicate NotEthereum(table: seq<TransactionInfo>, txId: string)
  {
    txId != "" && forall i :: 0 <= i < |table| ==> table[i].escrow.txID != txId && table[i].settlement.txID != txId
  }

  /** When a step can happen: trade ids are new, answers come to calls in flight with ids not
      seen before, blocks reach live watchers. A block may hold any Fabric ids, known or not. */
  ghost predicate Enabled(s: State, step: Step)
  {
    match step
    case Start(k, _, _) => forall i :: 0 <= i < |s.table| ==> s.table[i].key.tradeID != k.tradeID
    case EscrowReceipt(k, value, txId, txInfo) =>
      EscrowCall(k, value) in s.inFlight && Fresh(s.table, txId) && txInfo != ""
    case TransferResult(k, txId) => TransferCall(k) in s.inFlight && Fresh(s.table, txId)
    case Block(w, events) =>
      w in s.watchers && forall e :: e in events ==> NotEthereum(s.table, e.txId) && e.txInfo != ""
    case SettlementReceipt(k, txId, txInfo) =>
      SettlementCall(k) in s.inFlight && Fresh(s.table, txId) && txInfo != ""
    case LedgerFailure(call) => call in s.inFlight
  }

  /** A run: `states[0]` is initial and every step is enabled and taken. */
  ghost predicate Run(steps: seq<Step>, states: seq<State>)
  {
    && |states| == |steps| + 1
    && states[0] == INITIAL
    && forall i {:trigger TakesStep(steps, states, i)} :: 0 <= i < |steps| ==> TakesStep(steps, states, i)
  }

  ghost predicate TakesStep(steps: seq<Step>, states: seq<State>, i: nat)
    requires i < |steps| && |states| == |steps| + 1
  {
    Enabled(states[i], steps[i]) && states[i + 1] == Apply(states[i], steps[i])
  }
}
