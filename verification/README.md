# Verified models of the cross-ledger trade, policy language and specification tools

This project models, in Dafny, the parts of the blockchain integration framework where a
mistake would cost money or silently change meaning, and proves what they guarantee.

**The discounted asset trade** (`TransactionTable`, `TradeProtocol`, `TradeInvariant`,
`TradeSteps`, `TradeKeeps`, `TradeEffects`, `TradeTheorems`, `TradeTexts`, `TradeCalls`,
`TradeHonesty`, `TradeUnsettled`, `AssetTrade`, `StatusInquiry`).
Any number of trades run at once over Ethereum and Fabric. Each escrows its price, transfers a
Fabric asset, and pays the seller out of escrow. All state is one table of records, rewritten
by scanning it, and a Fabric block watcher reacts to any transaction id the table knows, not
only to its own trade's. `AssetTrade` is the business logic object with its callbacks;
`TradeProtocol` is the transition system that those callbacks are proved to implement, one
synchronous stretch between awaits per step. The theorems quantify over all runs. A step may
happen under these assumptions about the ledgers, written out in `TradeProtocol.Enabled`: trade
ids are new, transaction ids are non-empty and were not recorded before, the id of a Fabric
event is no recorded Ethereum hash, and stored receipts and events are non-empty texts. A
ledger call may fail at any time.

The money properties hold in every interleaving. "Completed means settled" does not: two
watchers that see the same event complete a trade without a settlement.
`TradeHonesty.DishonestIsReachable` exhibits it, `TradeHonesty.CompletionIsHonestExactly` gives
the exact condition on a run, and `TradeUnsettled.UnpaidExactly` the one on each trade.

**The nonce allocator** (`Nonce`). Section 6 of the Ethereum Yellow Paper wants each
transaction's nonce to equal the sender's current one, so both repeats and gaps matter. The
allocator treats a recorded nonce 0 as absent; the lemmas say exactly when that shows.

**The policy language** (`PolicyTokens`, `PolicyLexer`, `PolicyParser`, `PolicyRoundTrip`).
Longest-match lexing over the generated character tables and the precedence-climbing parser,
with both directions between text, tokens and trees. The generated whitespace set is the space
and the letter `t` (the grammar file has `t` where a tab was probably meant); the model follows
the code, and the text round trip is stated with its exact condition.

**The OpenAPI reference bumper** (`SpecBumper`, `SpecReport`, `SpecIdempotence`, `SpecTraversal`,
`SpecFile`, `SpecPrint`, `SpecOverwrite`, `SpecRerun`). The recursive rewrite of `$ref` URLs with its
path stack and report: what the bumped document is, undo and redo from the report, which lines the
printed report tells apart, and exactly when bumping a document, or the file it is written to, is
idempotent. Documents are those that a file can hold: no object has a key twice. Two families are
reported on every bump and never settle: URLs with an opaque path, which cannot be
set, and arrays in the place of the document or its `info`, which lose the version when written.
The URL class and the version test are parameters.

**The relay address parser** (`RelayAddress`), over the split and join functions of `Text`.

`dafny verify dfyconfig.toml` verifies everything.

## Model

| member | source | states |
|---|---|---|
| `TransactionTable.TransactionInfoManagement.AddTransactionInfo` | examples/cactus-example-discounted-asset-trade/transaction-info-management.ts:41-70 | the record goes to the end of the table, which is created if there is none |
| `TransactionTable.TransactionInfoManagement.SetStatus` | examples/cactus-example-discounted-asset-trade/transaction-info-management.ts:72-115 | the scan-and-replace loop computes the table rewrite for the trade's status, and throws exactly without a table file |
| `TransactionTable.TransactionInfoManagement.SetTransactionData` | examples/cactus-example-discounted-asset-trade/transaction-info-management.ts:117-175 | the same for the ledger and transaction id of one of the three targets |
| `TransactionTable.TransactionInfoManagement.SetTxInfo` | examples/cactus-example-discounted-asset-trade/transaction-info-management.ts:177-229 | the same for the stored receipt or event of one of the three targets |
| `TransactionTable.TransactionInfoManagement.GetTransactionInfoByTxId` | examples/cactus-example-discounted-asset-trade/transaction-info-management.ts:238-269 | the overwriting loop computes the last-match lookup, and throws exactly without a table file |
| `TransactionTable.RewritesExactly` | examples/cactus-example-discounted-asset-trade/transaction-info-management.ts:72-229 | a rewritten table differs only in the records of the trade, and there only in the status, or in the ledger and id, or in the text, of the one slot that was named |
| `TransactionTable.LookupIsLastMatch` | examples/cactus-example-discounted-asset-trade/transaction-info-management.ts:251-268 | a lookup finds nothing if and only if no record carries the id, and otherwise the last record that does |
| `TransactionTable.RewriteRefinesUpdate` | examples/cactus-example-discounted-asset-trade/transaction-info-management.ts:72-229 | on distinct trades, scan-and-replace is a single-key update of the map from trade to record |
| `TransactionTable.RewritesCommute` | examples/cactus-example-discounted-asset-trade/transaction-info-management.ts:72-229 | changes to different trades commute, on every table |
| `AssetTrade.BusinessLogicAssetTrade.Start` | examples/cactus-example-discounted-asset-trade/business-logic-asset-trade.ts:65-181 | a priced trade is recorded under escrow and its escrow sent: the protocol's start step |
| `AssetTrade.BusinessLogicAssetTrade.FirstTransaction` | examples/cactus-example-discounted-asset-trade/business-logic-asset-trade.ts:186-210 | one escrow of the price is sent and its answer awaited |
| `AssetTrade.BusinessLogicAssetTrade.EscrowReceipt` | examples/cactus-example-discounted-asset-trade/business-logic-asset-trade.ts:211-228 | the escrow callback is the protocol's escrow receipt step |
| `AssetTrade.BusinessLogicAssetTrade.SecondTransaction` | examples/cactus-example-discounted-asset-trade/business-logic-asset-trade.ts:234-283 | one block watcher is added and one asset transfer sent |
| `AssetTrade.BusinessLogicAssetTrade.Block` | examples/cactus-example-discounted-asset-trade/business-logic-asset-trade.ts:250-281 | the watcher callback is the protocol's block step |
| `AssetTrade.BusinessLogicAssetTrade.OnEvents` | examples/cactus-example-discounted-asset-trade/business-logic-asset-trade.ts:257-276 | the loop with break acts on the first known event of the block and on no other, whichever trade it belongs to |
| `AssetTrade.BusinessLogicAssetTrade.TransferResult` | examples/cactus-example-discounted-asset-trade/business-logic-asset-trade.ts:283-305 | the transfer id is recorded and nothing else happens |
| `AssetTrade.BusinessLogicAssetTrade.ThirdTransaction` | examples/cactus-example-discounted-asset-trade/business-logic-asset-trade.ts:307-326 | one payout is sent and its answer awaited |
| `AssetTrade.BusinessLogicAssetTrade.SettlementReceipt` | examples/cactus-example-discounted-asset-trade/business-logic-asset-trade.ts:327-343 | the settlement callback is the protocol's settlement receipt step |
| `AssetTrade.BusinessLogicAssetTrade.LedgerFailure` | examples/cactus-example-discounted-asset-trade/business-logic-asset-trade.ts:229-231 | a rejected call changes no record |
| `AssetTrade.BusinessLogicAssetTrade.ExecuteNextTransaction` | examples/cactus-example-discounted-asset-trade/business-logic-asset-trade.ts:365-457 | looks the record up by id, dispatches on its status alone, and swallows a throwing lookup |
| `AssetTrade.Execute` | examples/cactus-example-discounted-asset-trade/business-logic-asset-trade.ts:65-457 | the callbacks of a fresh object, made in the order of any run, take it through the states of that run, so the theorems about runs are about the object |
| `AssetTrade.BusinessLogicAssetTrade.HasTxIDInTransactions` | examples/cactus-example-discounted-asset-trade/business-logic-asset-trade.ts:480-486 | whether the table knows an id |
| `TradeKeeps.StepKeepsInv` | examples/cactus-example-discounted-asset-trade/business-logic-asset-trade.ts:65-457 | every step keeps the whole invariant (records, calls, watchers, history and money in agreement), changes at most one record and only forward by at most one status |
| `TradeKeeps.RunKeepsInv` | examples/cactus-example-discounted-asset-trade/business-logic-asset-trade.ts:65-457 | the invariant holds in every state of every run |
| `TradeEffects.FirstKnownExactly` | examples/cactus-example-discounted-asset-trade/business-logic-asset-trade.ts:257-276 | the event a block is acted on for is the first one whose id some record carries |
| `TradeEffects.RecordExactly` | examples/cactus-example-discounted-asset-trade/business-logic-asset-trade.ts:211-457 | every step changes every record exactly as told from the step and the record: when its status rises by one, and ledger, id and text of each slot |
| `TradeEffects.NewRecordExactly` | examples/cactus-example-discounted-asset-trade/business-logic-asset-trade.ts:65-181 | only a start step adds a record, with its identity, its request, 25 or 50 for the price, and nothing filled in |
| `TradeTheorems.RecordAsAsked` | examples/cactus-example-discounted-asset-trade/business-logic-asset-trade.ts:65-181 | in every run, each record has the identity, request and price of an earlier start step |
| `TradeTheorems.OneStartPerTrade` | examples/cactus-example-discounted-asset-trade/business-logic-asset-trade.ts:65-181 | no two start steps of a run are for the same trade |
| `TradeTheorems.EscrowAsAsked` | examples/cactus-example-discounted-asset-trade/business-logic-asset-trade.ts:65-210 | in every run, each escrow sent has the request and the price of the start step of its trade |
| `TradeTheorems.EscrowConservation` | examples/cactus-example-discounted-asset-trade/business-logic-asset-trade.ts:186-457 | in every run, confirmed deposits minus payouts sent is the sum of the prices of the records under transfer, so escrow is never overdrawn |
| `TradeTheorems.DeliveryVersusPayment` | examples/cactus-example-discounted-asset-trade/business-logic-asset-trade.ts:65-425 | in every run, a payout goes to the account that the start step of the trade asked for, in the amount of its price, and is preceded, in order, by that trade's own deposit of the same amount, its asset transfer as asked for, the recording of the transfer id and a block event with it |
| `TradeTheorems.TransferAfterEscrow` | examples/cactus-example-discounted-asset-trade/business-logic-asset-trade.ts:65-407 | in every run, an asset transfer follows the confirmed escrow of the same trade and moves the asset to the account that the start step of the trade asked for |
| `TradeTheorems.AtMostOnce` | examples/cactus-example-discounted-asset-trade/business-logic-asset-trade.ts:365-449 | in every run, a trade submits and confirms at most one escrow, one transfer and one payout |
| `TradeTheorems.EveryStepForward` | examples/cactus-example-discounted-asset-trade/business-logic-asset-trade.ts:365-449 | each step of a run moves at most one record, forward by at most one status, and only adds to the history |
| `TradeTheorems.NeverBack` | examples/cactus-example-discounted-asset-trade/business-logic-asset-trade.ts:365-449 | over any stretch of a run a record keeps its place, request, price and recorded ids, and its status never falls |
| `TradeTheorems.ProgressSlots` | examples/cactus-example-discounted-asset-trade/business-logic-asset-trade.ts:388-434 | in every run the filled info slots of a record are exactly the first `status` ones |
| `TradeTheorems.ReverseIndex` | examples/cactus-example-discounted-asset-trade/transaction-info-management.ts:238-269 | in every run the lookup by id finds exactly the ids the history recorded, each with the one trade it was recorded for |
| `TradeTexts.EscrowText` | examples/cactus-example-discounted-asset-trade/business-logic-asset-trade.ts:211-228 | in every run, the escrow slot of a record past its escrow is exactly what an escrow receipt for the trade brought |
| `TradeTexts.TransferText` | examples/cactus-example-discounted-asset-trade/business-logic-asset-trade.ts:257-276 | in every run, the transfer text of a record past its transfer is that of the first block event acted on for the trade |
| `TradeTexts.SettlementText` | examples/cactus-example-discounted-asset-trade/business-logic-asset-trade.ts:327-440 | in every run, the settlement text of a Completed record is that of the step that completed it: its settlement receipt, or an event acted on while it awaited one |
| `TradeCalls.NothingLost` | examples/cactus-example-discounted-asset-trade/business-logic-asset-trade.ts:186-347 | in every run, the times a call was sent are the times it is in flight plus the times it was answered or failed, and the watchers set up for a trade are those live plus those that have acted |
| `TradeHonesty.HonestStep` | examples/cactus-example-discounted-asset-trade/business-logic-asset-trade.ts:257-440 | a step from a state where Completed records have all ids keeps that if and only if it is not a block acting on a trade already awaiting its settlement |
| `TradeHonesty.CompletionIsHonestExactly` | examples/cactus-example-discounted-asset-trade/business-logic-asset-trade.ts:257-440 | a run has all ids on Completed records throughout if and only if it contains no such block |
| `TradeHonesty.ActedOnceIsHonest` | examples/cactus-example-discounted-asset-trade/business-logic-asset-trade.ts:257-440 | it does in every run in which each Fabric id is acted on at most once |
| `TradeHonesty.TwoWatchersMislead` | examples/cactus-example-discounted-asset-trade/business-logic-asset-trade.ts:257-440 | in every state with a recorded transfer id, its event reaching two live watchers leaves a Completed record without a settlement id |
| `TradeHonesty.DishonestIsReachable` | examples/cactus-example-discounted-asset-trade/business-logic-asset-trade.ts:257-440 | such a state is reached by a run of two trades |
| `TradeUnsettled.UnpaidExactly` | examples/cactus-example-discounted-asset-trade/business-logic-asset-trade.ts:257-440 | in every state of every run, a record is Completed without a settlement id if and only if a block before acted on its trade while it awaited its settlement and no settlement receipt for it has come |
| `StatusInquiry.GetAssetTradeOperationStatus` | examples/cactus-example-discounted-asset-trade/business-logic-inquire-asset-trade-status.ts:21-90 | for the first record with the trade id, its status and three entries with the name, ledger, id and text of each slot in order; the empty answer for an unknown id; and a throw without a file or with an empty text |
| `StatusInquiry.InquireInRun` | examples/cactus-example-discounted-asset-trade/business-logic-inquire-asset-trade-status.ts:40-86 | in every run a query for a known trade answers if and only if the trade is Completed, with the escrow on ledger001, the transfer on ledger002 and the settlement on ledger003, and throws otherwise; the settlement entry lacks ledger and id if and only if a block before acted on the trade while it awaited its settlement and no settlement receipt has come |
| `Nonce.NonceAllocator.GetNewNonce` | examples/cactus-example-discounted-asset-trade/transaction-ethereum.ts:62-84 | the issued nonce and the new map, other addresses untouched |
| `Nonce.Independence` | examples/cactus-example-discounted-asset-trade/transaction-ethereum.ts:66-83 | in every interleaving the nonces of an address are determined by the chain's answers for that address alone |
| `Nonce.IssuedSafely` | examples/cactus-example-discounted-asset-trade/transaction-ethereum.ts:66-83 | nonces of an address are never below the answer, never fall, and rise strictly from the first positive one |
| `Nonce.DistinctExactly` | examples/cactus-example-discounted-asset-trade/transaction-ethereum.ts:71-79 | nonces of an address are pairwise distinct if and only if its first two answers are not both 0 |
| `Nonce.LeastSchedule` | examples/cactus-example-discounted-asset-trade/transaction-ethereum.ts:66-83 | the nonces are pointwise below every strictly increasing sequence not below the answers, and are such a sequence themselves if and only if the first two answers are not both 0 |
| `Nonce.NoGapsExactly` | examples/cactus-example-discounted-asset-trade/transaction-ethereum.ts:66-83 | they fill an interval if and only if each answer is at most one ahead of the last nonce, and 1 after a nonce 0; and, from the answers alone, if and only if none is ahead of the first by more than the calls since, and a first 0 is followed by 1 |
| `Nonce.Issue` | examples/cactus-example-discounted-asset-trade/transaction-ethereum.ts:62-84 | a fresh allocator handling any sequence of answers issues to each address the nonces that these lemmas are about |
| `PolicyLexer.White` | weaver/common/policy-dsl/parser/PolicyLexer.js:25-26 | the whitespace table decodes to the space and the letter t |
| `PolicyLexer.IdRest` | weaver/common/policy-dsl/parser/PolicyLexer.js:27 | the table for the rest of an identifier decodes to digits, letters and the underscore |
| `PolicyLexer.MatchIsInLanguage` | weaver/common/policy-dsl/parser/PolicyLexer.js:73-112 | what a rule matches is in the rule's regular language |
| `PolicyLexer.MatchIsLongest` | weaver/common/policy-dsl/parser/PolicyLexer.js:73-112 | no longer prefix of the text is in that language |
| `PolicyLexer.WinnerIsLongestThenEarliest` | weaver/common/policy-dsl/parser/PolicyLexer.js:100-112 | the rule chosen has the longest match and is the earliest such rule |
| `PolicyLexer.LexExactly` | weaver/common/policy-dsl/parser/PolicyLexer.js:73-112 | the lexer returns these tokens if and only if the text is cut to its end into pieces, each the longest match of the earliest rule on what is left, and the tokens are the pieces that are no whitespace |
| `PolicyParser.PolicyParser.Root` | weaver/common/policy-dsl/parser/PolicyParser.js:116-137 | the parser object returns the tree of the whole input or rejects, with never more than three activations of `expression` |
| `PolicyParser.PolicyParser.Expression` | weaver/common/policy-dsl/parser/PolicyParser.js:139-250 | the loop with recursion computes the precedence climb, consumes input whenever it succeeds, and stays within any limit that leaves room for three, two or one more activations at precedence up to 3, 4 or 5 |
| `PolicyParser.PolicyParser.OneTurn` | weaver/common/policy-dsl/parser/PolicyParser.js:177-236 | one turn of that loop consumes the operator and its right operand, parsed at 5 after `&&` and 4 after `\|\|`, and the climb goes on from the new tree |
| `PolicyParser.PolicyParser.CountExpression` | weaver/common/policy-dsl/parser/PolicyParser.js:252-325 | exactly `count op int` and `int op count` with the four comparisons |
| `PolicyParser.CountsExactly` | weaver/common/policy-dsl/parser/PolicyParser.js:252-325 | `count` and a number joined by any token, in either order, are accepted for the four comparisons alone, each with its own tree |
| `PolicyParser.ParsesExactlyCanonicalTrees` | weaver/common/policy-dsl/parser/PolicyParser.js:116-325 | the parser returns a tree on a token sequence if and only if the tree is canonical and the tokens are its yield |
| `PolicyParser.AcceptsStratifiedGrammar` | weaver/common/policy-dsl/parser/PolicyParser.js:105-250 | it accepts exactly the groups of atoms joined by `&&` and then by `\|\|`, and returns exactly their left-associative tree with `&&` binding tighter |
| `PolicyParser.Unambiguous` | weaver/common/policy-dsl/parser/PolicyParser.js:139-325 | canonical trees with the same tokens are equal |
| `PolicyRoundTrip.TokensWeighNoSpaces` | weaver/common/policy-dsl/parser/PolicyLexer.js:25-112 | on every accepted text the token spellings together are at most as long as the text without its spaces |
| `PolicyRoundTrip.PrintedSurvives` | weaver/common/policy-dsl/parser/PolicyLexer.js:25-112 | printed tokens are lexed back if and only if no identifier is `count`, none after the first starts with t, and the first is not made of t alone |
| `PolicyRoundTrip.TextRoundTripExactly` | weaver/common/policy-dsl/parser/PolicyParser.js:116-325 | a canonical tree survives printing, lexing and parsing under exactly that condition |
| `PolicyRoundTrip.ReprintedExactly` | weaver/common/policy-dsl/parser/PolicyParser.js:116-325 | an accepted text, printed again from its tokens, reads as the same policy if and only if no name after the first token starts with t |
| `PolicyRoundTrip.ReprintLoses` | weaver/common/policy-dsl/parser/PolicyLexer.js:25-112 | `a&&` followed by a name that starts with t and is not made of t alone is accepted and does not survive that |
| `PolicyRoundTrip.TbIsTName` | weaver/common/policy-dsl/parser/PolicyLexer.js:25-112 | `tb` is such a name |
| `SpecTraversal.RefTraversal.SwapParts` | tools/bump-openapi-spec-dep-versions.ts:136-144 | the segments are swapped in place and the flag says whether any changed |
| `SpecTraversal.RefTraversal.BumpReference` | tools/bump-openapi-spec-dep-versions.ts:119-150 | local references stay, unparsable ones throw, outdated ones are rebuilt |
| `SpecTraversal.RefTraversal.TraversePojoRefs` | tools/bump-openapi-spec-dep-versions.ts:102-161 | the traversal returns the bumped document, extends the report by the replacements below the current path, and leaves the path stack as it was; it throws exactly when the specification does |
| `SpecTraversal.BumpOneFile` | tools/bump-openapi-spec-dep-versions.ts:163-198 | between reading and writing, the file routine fills in `info`, traverses and sets the version as the file specification does, and throws exactly when it does |
| `SpecBumper.UndoesBump` | tools/bump-openapi-spec-dep-versions.ts:102-161 | writing each reported old value back at its path restores the original document |
| `SpecBumper.BumpPaths` | tools/bump-openapi-spec-dep-versions.ts:112-157 | the reported paths are pairwise distinct |
| `SpecPrint.PrintedAlikeExactly` | tools/bump-openapi-spec-dep-versions.ts:151 | two paths are printed alike if and only if their keys, cut at dots, are the same, the root counting as one empty key |
| `SpecPrint.PrintedReportExactly` | tools/bump-openapi-spec-dep-versions.ts:112-157 | the printed paths of a report are pairwise distinct if and only if the reported paths still differ after cutting at dots, as they do when no key on them is empty or has a dot |
| `SpecPrint.ClashReported` | tools/bump-openapi-spec-dep-versions.ts:112-157 | for every library and version, a document with an outdated reference below the key `a.b` and one below `b` of `a` gets a report with two different paths that print alike |
| `SpecPrint.PrintedPathsCollide` | tools/bump-openapi-spec-dep-versions.ts:151 | one such document with the URL `https://h/1.0.0`, written out |
| `SpecPrint.FilePrintsExactly` | tools/bump-openapi-spec-dep-versions.ts:151-197 | the printed lines of a file's report, the version line included, are pairwise distinct if and only if the reported paths still differ after cutting at dots and, where the version was set, none of them is cut into `info` and `version` |
| `SpecPrint.VersionLineClashes` | tools/bump-openapi-spec-dep-versions.ts:187-197 | for every library and version, a document with an outdated reference in the place of `info.version` is reported twice as `.info.version`, though its keys are plain |
| `SpecReport.ReturnsExactly` | tools/bump-openapi-spec-dep-versions.ts:109-136 | the traversal throws if and only if the document is no object or has below it a `$ref` that is not null, false, 0 or empty and is neither a text starting with `#` nor a URL |
| `SpecReport.ReportsExactly` | tools/bump-openapi-spec-dep-versions.ts:112-157 | a replacement is reported if and only if the document has its old text as a `$ref` at its path and that text is outdated and becomes its new one |
| `SpecReport.InDocumentOrder` | tools/bump-openapi-spec-dep-versions.ts:112-157 | the replacements are reported in document order |
| `SpecReport.EveryReplacement` | tools/bump-openapi-spec-dep-versions.ts:119-157 | each replacement is of a parsable non-local URL, has at least one outdated version segment, and differs from the old URL only in such segments, which become the new version |
| `SpecReport.BumpsExactly` | tools/bump-openapi-spec-dep-versions.ts:102-161 | the bumped document is the only document that is the original with its outdated `$ref` texts replaced that way and everything else kept |
| `SpecReport.RedoesBump` | tools/bump-openapi-spec-dep-versions.ts:102-161 | writing each reported new value at its path in the original gives the bumped document |
| `SpecIdempotence.IdempotentExactly` | tools/bump-openapi-spec-dep-versions.ts:102-161 | a second traversal changes and reports nothing if and only if the first reported nothing, or each URL it replaced has a path that can be set and no slash-separated segment of the new version is a version other than it |
| `SpecIdempotence.StuckIsReported` | tools/bump-openapi-spec-dep-versions.ts:131-157 | a document with an outdated reference whose path is opaque, and which the library prints back as it is, is left as it is and reported by every traversal |
| `SpecIdempotence.FooIsStuck` | tools/bump-openapi-spec-dep-versions.ts:131-157 | `foo:1.0.0` is such a reference |
| `SpecIdempotence.NoSlashIsStable` | tools/bump-openapi-spec-dep-versions.ts:138-144 | a new version without a slash always meets that condition |
| `SpecOverwrite.BumpedWithVersion` | tools/bump-openapi-spec-dep-versions.ts:179-198 | a bumped document with its version set is clean if and only if every replacement outside `info.version` was final |
| `SpecRerun.FileIdempotentExactly` | tools/bump-openapi-spec-dep-versions.ts:168-217 | bumping the written file again reports nothing if and only if every replacement outside `info.version` was final and the version reached the file, which it does unless `info` is an array, or the document is one and the version is not `0.0.0`; a written object then has the new version in `info` |
| `SpecRerun.WrittenExactly` | tools/bump-openapi-spec-dep-versions.ts:200-217 | a file without replacements is left alone; otherwise it holds the bumped document with the version, or without it where the document or its `info` is an array |
| `SpecRerun.EmptyArrayReported` | tools/bump-openapi-spec-dep-versions.ts:175-217 | the file `[]` is left as it is and yet reported on every bump to a version other than `0.0.0` |
| `SpecFile.FillsIn` | tools/bump-openapi-spec-dep-versions.ts:175-177 | a document with an `info` that counts is kept as it is; otherwise one with the title and version 0.0.0 is put in its place or at the end, and every other entry is kept |
| `SpecFile.FileReturnsExactly` | tools/bump-openapi-spec-dep-versions.ts:168-198 | a file is rejected if and only if the traversal rejects its document or it has an `info` that counts and is no object |
| `SpecFile.UndoesFile` | tools/bump-openapi-spec-dep-versions.ts:168-198 | the report of a file, its version line included, leads from the bumped document back to the document as read, with `info` filled in and nothing else changed |
| `RelayAddress.ParsesExactlyWhatItPrints` | weaver/core/relay/src/relay_proto.rs:23-54 | parsing returns an address if and only if its fields are free of their separators, TLS is off with no certificate path, and the text is its printed form |
| `RelayAddress.RejectsExactly` | weaver/core/relay/src/relay_proto.rs:25-47 | an address error if and only if there are not two slashes; a location error if and only if there are and the first part has not one colon |

## Left out

- Liveness of trades: an event that arrives before its id is recorded is dropped and ledger errors are only logged, so only safety is stated.
- File input and output and the JSON text of the table: the table is a sequence of records that may not exist yet; of JSON only that the empty text does not parse (section 2 of RFC 8259).
- TransactionTable.SetRequestInfo: the record object is a value here, not updated in place; it is not shared before it is stored.
- TradeProtocol.Price: the credential proof that decides between the two prices is an input of the start step, and prices are numbers, not the decimal texts that the source converts.
- Connectors, signing, credential proofs, Fabric delegated signing, logging and web routes: calls into other systems.
- AssetTrade.BusinessLogicAssetTrade.Block: a block without the expected event list is ignored by the source and is the empty list here.
- `dummyTransaction`, `onEvent` and `getEventDataNum`: not used by the protocol.
- Nonce.NonceAllocator.GetNewNonce: nonces are unbounded; the source's numbers lose precision above 2^53.
- PolicyParser.PolicyParser.Root: error reporting and recovery, listeners and the generated prediction tables are replaced by rejection at the first mismatch.
- SpecTraversal.RefTraversal.TraversePojoRefs: returns the rewritten document instead of updating it in place; a document read from a file has no sharing, so aliasing is not at issue. What a throw leaves in the stack and the report is not stated.
- SpecIdempotence.Faithful: that the URL class reads back what it wrote for a replaced reference is a hypothesis of the idempotence lemmas; of the URL Standard only that an opaque path cannot be set is modelled, not normalisation and escaping.
- Globbing, git tags, pretty-printing and report files of the specification tools: input and output.
- `get_url` of the relay, the relay's databases and services, package and licence checks, and the front ends: look-ups, network calls and pages with no state or arithmetic of their own.
