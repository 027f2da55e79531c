# Verification of the indexer's reordering, merging and repartitioning

The indexer of every shard writes to the same Elasticsearch documents, in any order and sometimes more than once;
its tools read large indices back in pages and in parallel. These modules model the code that has to get this right
and prove what it guarantees over whole histories, pagings and runs. Code that changes things step by step is a
method or a class here, proved against a function of its inputs or of its old state; the properties are lemmas
about those functions.

| module | what it models |
|---|---|
| `ElasticIndex` | `index`, `update` with a script, and `scripted_upsert` as steps on a map from id to document; histories, their regrouping, and insert-only writes |
| `TransactionScripts`, `TransactionRouting`, `TransactionConvergence` | the merge scripts of transaction documents, which transaction gets which, and what any history of them leaves |
| `Refunds`, `NFTRefunds` | fee and gas refunds, alone and between the writes of a transaction |
| `ReplacingWrites` | status and fee records among the writes of all other transactions |
| `StatusRecords` | status records collected from a block's logs, their fold, and the script that applies them |
| `TokenRoles`, `TokenRequests` | role events, their grouping by role, the role and property scripts, and the order in which a block sends them |
| `AccountDocuments` | timestamped account writes and deletes |
| `ClustersChecker`, `ParallelCheckers` | the paged comparison of two clusters, and its split over time intervals |
| `BufferSlices` | greedy packing of bulk records |
| `ScResults` | smart contract results divided over miniblocks, transactions and the rest |
| `AlteredAccounts` | the in-place merge of altered accounts |
| `SearchOrder`, `TokenIds`, `Topics`, `ShardCoordinator` | the codes and identifiers |
| `Numbers`, `Decimal`, `Hex`, `Strings`, `Wrappers` | powers and bit masks, decimal and hex formatting, splitting and joining |

Seven properties the code has only under a condition are stated with that condition, as an if-and-only-if:

- Block search orders tell blocks apart exactly while there are at most 99 shards beside the metachain
  (`SearchOrder.OrdersAreDistinctExactly`); `SearchOrder.OrdersCollide` gives two blocks with the order 11015.
- The ids the balance checker rebuilds are the indexer's ids, for all nonces, exactly for tokens with one dash
  (`TokenIds.IdsAgreeExactly`, `TokenIds.EndpointRecoversTokenAndNonce`); `sov-TKN-abcdef` is a token for which they
  are not (`TokenIds.PrefixedTokensDisagree`).
- Parallel checkers report together what one checker would exactly when no interval sees one copy of a shared
  document without the other (`ParallelCheckers.ParallelEqualsOne`); equal timestamps suffice, and copies at times 3 and 7 of
  a range from 0 to 10 split in two do not agree (`ParallelCheckers.SeparatedCopies`). A document whose
  timestamp is the end of one interval and the start of the next is read by two checkers, so the union of the reports
  is a set and not a list.
- Refunds leave what was paid minus everything refunded exactly while they stay below what was paid
  (`Refunds.RefundConservation`); above it even their order matters (`Refunds.RefundOrderMattersAbove`), for two
  refunds exactly as `Refunds.TwoRefundsCommuteExactly` says.
- Refunds of an NFT or multi transfer survive exactly when none comes before a write of the transaction
  (`NFTRefunds.RefundsSurviveExactly`): a later write puts the fees it carries in their place, as in
  `NFTRefunds.RefundIsLost`.
- Of a transaction that is no NFT transfer and no simple transfer between shards, all records show exactly when no
  refund came before its last replacing write and no failure or flag came only before it
  (`ReplacingWrites.RecordsSurviveExactly`). For simple transfers, too, a failure recorded before the destination's write
  is lost (`ReplacingWrites.FailureLostExactly`, `ReplacingWrites.FailureIsLost`), and refunds start again from what was
  paid (`ReplacingWrites.TransferRefundsRestart`, `ReplacingWrites.RefundIsForgotten`).
- A block sends its role events before its property events. Roles always come out as if nothing was reordered; whole
  documents do exactly unless a token that is not stored yet has a property event first and a role event later, and that
  property event is its only one or sets a property that none sets again (`TokenRequests.SentExactly`). The reason is
  that a property event on a missing token inserts an empty document and drops the properties
  (`TokenRequests.PropertiesNeedADocument`).

Three smaller ones: folding two arbitrary status records agrees with sending both exactly under
`StatusRecords.FoldAgrees` (log processing only makes records for which it does); the order of the writes of a
regular account is irrelevant exactly when the writes with the latest timestamp agree
(`AccountDocuments.OrderIrrelevantExactly`, with two writes for which it is not in
`AccountDocuments.TiedWritesDisagree`); and converting a topic to snake case twice changes nothing exactly when each of
its characters stays put (`Topics.SnakeIsIdempotent`), as every character of an ASCII topic does and U+03D2 in
`Topics.CapitalWithoutLowerCase` does not.

## Model

| member | source | states |
|---|---|---|
| `ElasticIndex.DocumentsAreIndependent` | process/elasticproc/transactions/serialize.go:123-133 | A bulk acts on each document as that document's own entries do in order, however the entries of different ids interleave |
| `ElasticIndex.Regroup` | process/elasticproc/logsevents/serialize.go:308-315 | If entries of different keys commute, two histories with equal entries per key leave the same document |
| `ElasticIndex.InsertOnlyNeverOverrides` | process/elasticproc/operations/serialize.go:39-50 | Over every history of insert-only and replacing writes the last replacing write decides; an insert-only write decides only when it came first and nothing replaced it |
| `TransactionScripts.RunTransferOnSource` | process/elasticproc/transactions/serialize.go:197-204 | The source script of a simple ESDT transfer inserts the whole transaction or changes only gas and fees |
| `TransactionScripts.RunTransferOnDestination` | process/elasticproc/transactions/serialize.go:237-249 | The destination script replaces everything but gas and fees |
| `TransactionScripts.RunNFTTransfer` | process/elasticproc/transactions/serialize.go:255-274 | The script of an NFT or multi transfer replaces the document but keeps a status and flags already there |
| `TransactionScripts.RunStatus` | process/elasticproc/transactions/serialize.go:161-173 | The status script overwrites a status only with a nonempty one and only raises flags |
| `TransactionScripts.RunRefund` | process/elasticproc/transactions/serialize.go:57-85 | The refund script does nothing without document or amounts, subtracts from the initially paid fee the first time and from the fee left afterwards, and never goes to zero or below |
| `TransactionScripts.RunOverwriteFee` | process/elasticproc/transactions/serialize.go:87-95 | A record without refunded gas overwrites fee and gas of a stored document and never creates one |
| `TransactionRouting.FirstWrite` | process/elasticproc/transactions/serialize.go:189-193 | A first write of any kind stores every field of the transaction, and its flags when they are set |
| `TransactionRouting.FirstStatus` | process/elasticproc/transactions/serialize.go:147-151 | A status record alone leaves a document with its status and flags and nothing else |
| `TransactionRouting.SourceWrite` | process/elasticproc/transactions/serialize.go:195-215 | Over a stored document, a source shard's write changes gas and fees of an `ESDTTransfer` without function and nothing of any other transaction |
| `TransactionRouting.DestinationWrite` | process/elasticproc/transactions/serialize.go:226-233 | Another shard's write replaces everything, but gas and fees when it is the destination of such a transfer |
| `TransactionRouting.NFTRouting` | process/elasticproc/transactions/serialize.go:281-292 | With data `name@argument@...`, a transaction is an NFT transfer iff it stays in one shard, has three arguments or more and the name is `ESDTNFTTransfer` or `MultiESDTNFTTransfer` |
| `TransactionRouting.IntraShardWrite` | process/elasticproc/transactions/serialize.go:217-233 | Inside one shard, exactly those keep a status and flags already stored, and every other transaction replaces the document |
| `TransactionRouting.EarlyFailure` | process/elasticproc/transactions/serialize.go:217-233 | A failure recorded before the write shows for exactly those, and is lost for every other transaction of the shard |
| `TransactionRouting.StatusRecordWrite` | process/elasticproc/transactions/serialize.go:161-173 | A status record over a stored document, field by field |
| `TransactionRouting.NFTTransferHistory` | process/elasticproc/transactions/serialize.go:143-182 | Told from shards, data and records alone: an NFT transfer among status records ends as written, failed iff a record failed, with all flags |
| `TransactionRouting.NFTTransferRefunds` | process/elasticproc/transactions/serialize.go:51-113 | And among refunds conserves gas iff none came before a write, and then the fee too |
| `TransactionRouting.CrossShardHistory` | process/elasticproc/transactions/serialize.go:184-252 | Told from shards, operation and function alone: a transaction written by both shards ends as the destination's, with the source's gas and fees iff it is an `ESDTTransfer` without function |
| `TransactionRouting.PlainEvents` | process/elasticproc/transactions/serialize.go:281-302 | Which transactions, by their data, operation and function, make the histories of `ReplacingWrites` |
| `TransactionConvergence.NFTHistorySummary` | process/elasticproc/transactions/serialize.go:143-182 | Any history of NFT-transfer writes and log status records leaves the last write, failed iff some record failed (else with the first write's status), with both flags the OR over the whole history |
| `TransactionConvergence.NFTDocument` | process/elasticproc/transactions/serialize.go:254-292 | One transaction written at least once among any status records, in any order and repetition, ends as itself with status and flags accumulated |
| `TransactionConvergence.NFTConvergence` | process/elasticproc/transactions/serialize.go:217-224 | Two histories with the same transaction and the same set of status records end in the same document |
| `TransactionConvergence.TransferHistorySummary` | process/elasticproc/transactions/serialize.go:195-252 | Any history of cross-shard simple transfers, whatever versions are written, takes gas and fees from the last source write and the rest from the last destination write |
| `TransactionConvergence.SimpleTransferConvergence` | process/elasticproc/transactions/serialize.go:294-302 | With at least one write of each side every interleaving ends in the destination's transaction carrying the source's gas and fees |
| `TransactionConvergence.OtherTransferSummary` | process/elasticproc/transactions/serialize.go:212-233 | For every other cross-shard transaction the last destination write decides and no source write overrides it |
| `TransactionConvergence.ScResultSummary` | process/elasticproc/operations/serialize.go:28-51 | The same for smart contract results in the operations index: the source shard only fills a missing document |
| `TransactionConvergence.OperationsEntry` | process/elasticproc/operations/serialize.go:39-50 | The entry of a result out of the pool only fills a missing document iff the first block that lists it goes from the own shard to another |
| `Refunds.RefundedAfterAll` | process/elasticproc/transactions/serialize.go:51-85 | After any refunds of a document without refund flag: the paid amount is untouched, fee and gas are conserved while refunds stay below, and positive amounts stay positive |
| `Refunds.RefundConservation` | process/elasticproc/transactions/serialize.go:66-83 | The fee left is paid minus all refunded, and the gas left is used minus all refunded gas, each if and only if the refunds stay below |
| `Refunds.FeeNumConservation` | process/elasticproc/transactions/serialize.go:78-80 | The fee as a number is what it was minus all refunds iff they stay below it |
| `Refunds.RefundOrder` | process/elasticproc/transactions/serialize.go:52-55 | Below what was paid, every permutation of the refunds leaves the same fee and gas |
| `Refunds.RefundOrderMattersAbove` | process/elasticproc/transactions/serialize.go:75-77 | A concrete pair of refunds above what was paid whose order changes the fee |
| `Refunds.TwoRefundsCommuteExactly` | process/elasticproc/transactions/serialize.go:67-77 | Two positive refunds leave the same fee in both orders iff they are equal, stay below what was paid together, or one alone reaches it |
| `Refunds.RefundsWithoutFees` | process/elasticproc/transactions/serialize.go:58-65 | Refunds of a missing document, or of one without both amounts, change nothing |
| `Refunds.OnlyFeesChange` | process/elasticproc/transactions/serialize.go:51-113 | No run of refund and overwrite records creates a document or touches anything but fee, gas and the refund flag |
| `Refunds.OverwriteDecides` | process/elasticproc/transactions/serialize.go:86-96 | A record without refunded gas decides fee and gas whatever came before it |
| `NFTRefunds.MixedHistorySummary` | process/elasticproc/transactions/serialize.go:51-182 | Any history mixing NFT-transfer writes, log status records and fee records leaves the document of the history without fee records, with the fee records since the last write applied to it |
| `NFTRefunds.MixedDocument` | process/elasticproc/transactions/serialize.go:254-279 | For one transaction: itself with status and flags accumulated, and only the fee records since its last write |
| `NFTRefunds.RefundsSurviveExactly` | process/elasticproc/transactions/serialize.go:263 | All refunds of the transaction are conserved iff none of them came before one of its writes |
| `NFTRefunds.RefundIsLost` | process/elasticproc/transactions/serialize.go:263 | A refund of 5 gas and 3 of the fee between two writes leaves the transaction as written |
| `ReplacingWrites.ReplacingWriteStartsAfresh` | process/elasticproc/transactions/serialize.go:230-233 | In every history of any writes and records nothing before a replacing write shows |
| `ReplacingWrites.PlainHistorySummary` | process/elasticproc/transactions/serialize.go:51-234 | Any history of replacing and insert-only writes, log status records and fee records leaves its last replacing write with the records that follow it |
| `ReplacingWrites.FilledHistorySummary` | process/elasticproc/transactions/serialize.go:143-214 | Without a replacing write, it leaves what its first write or status record made, with the records that follow |
| `ReplacingWrites.RecordsSurviveExactly` | process/elasticproc/transactions/serialize.go:115-141 | All records of such a history show iff no refund came before the last replacing write and every failure and flag recorded before it is recorded after it or carried by it |
| `ReplacingWrites.StatusSummary` | process/elasticproc/transactions/serialize.go:143-252 | Simple transfers included: status and flags are those of the last write by the destination or only shard, with the status records that follow it |
| `ReplacingWrites.FailureLostExactly` | process/elasticproc/transactions/serialize.go:226-244 | A recorded failure does not show iff every failure was recorded before that write |
| `ReplacingWrites.FailureIsLost` | process/elasticproc/transactions/serialize.go:226-233 | A failure record before the destination's write is lost, behind it it shows |
| `ReplacingWrites.TransferRefundsRestart` | process/elasticproc/transactions/serialize.go:236-249 | Behind a destination write of a simple transfer the fee is what was paid minus the refunds since that write, whatever was refunded before |
| `ReplacingWrites.TransferRefundsContinue` | process/elasticproc/transactions/serialize.go:197-204 | Behind a source write it is that write's fee minus the refunds since, if the transaction had a refund before, and otherwise what was paid minus them |
| `ReplacingWrites.RefundIsForgotten` | process/elasticproc/transactions/serialize.go:241-247 | A concrete transfer whose first refund the fee forgets while the gas keeps it |
| `StatusRecords.TxHashStatusInfo.AddRecord` | process/elasticproc/logsevents/statusInfo.go:19-33 | Adding joins the record into the one stored for the hash, in place, and leaves all other records alone |
| `StatusRecords.FoldOfLogRecords` | process/elasticproc/logsevents/statusInfo.go:27-32 | The fold of log records fails iff some record failed and has each flag iff some record has it |
| `StatusRecords.FoldIgnoresOrder` | process/elasticproc/logsevents/statusInfo.go:20-33 | Records with the same members fold to the same record, whatever order and repetition |
| `StatusRecords.BatchingIsHomomorphic` | process/elasticproc/transactions/serialize.go:143-182 | Sending the fold once equals sending every record, for stored and missing documents |
| `StatusRecords.FoldAgreesExactly` | process/elasticproc/logsevents/statusInfo.go:27-29 | For two arbitrary records, exactly when the fold acts like both on every document |
| `StatusRecords.ProcessEventNoTx` | process/elasticproc/logsevents/informativeLogsProcessor.go:57-88 | Which record an event of a result without its transaction adds, and for which hash; none for write logs, unknown results and anonymous ones |
| `StatusRecords.ProcessEvent` | process/elasticproc/logsevents/informativeLogsProcessor.go:24-55 | An informative event changes its own transaction and no other, or adds a record; every other event changes nothing |
| `StatusRecords.ProcessEvents` | process/elasticproc/logsevents/informativeLogsProcessor.go:24-88 | After a block's events each transaction and each collected record is the fold of its own events in order |
| `StatusRecords.FlagsOfEvents` | process/elasticproc/logsevents/informativeLogsProcessor.go:36-49 | A transaction of the block has the error flag iff it had it or a `signalError` or `internalVMErrors` event came, and the completed flag iff it had it or a `completedTxEvent` came |
| `StatusRecords.StatusDecidedByLast` | process/elasticproc/logsevents/informativeLogsProcessor.go:41-49 | The last `writeLog` or error event makes the status `success` or `fail` |
| `StatusRecords.StatusUntouched` | process/elasticproc/logsevents/informativeLogsProcessor.go:36-49 | Without such an event the status is as it was |
| `StatusRecords.CollectedOfEvents` | process/elasticproc/logsevents/informativeLogsProcessor.go:57-88 | The record collected for a hash, told from identifiers, hashes and original hashes alone: there iff such an event came, failed iff an error did, completed iff a completion did |
| `StatusRecords.OnlyLogRecords` | process/elasticproc/logsevents/informativeLogsProcessor.go:70-83 | Every record log processing makes has an empty status or `fail`, and fails exactly when it has the error flag |
| `StatusRecords.BlockRecordActsLikeItsEvents` | process/elasticproc/transactions/serialize.go:144-149 | The one record a block sends for a hash acts like all its events one by one, and none is sent when there were none |
| `TokenRoles.RunSetRole` | process/elasticproc/logsevents/serialize.go:331-346 | The set script adds the address to its role unless it is there, creating map and list as needed |
| `TokenRoles.RunUnsetRole` | process/elasticproc/logsevents/serialize.go:359-368 | The unset script removes every occurrence of the address and a list that becomes empty |
| `TokenRoles.RolesAreSets` | process/elasticproc/logsevents/serialize.go:327-381 | After any history an address holds a role iff the last event about the two set it (or none came and it held it before); no list is empty or has duplicates |
| `TokenRoles.RolesCommute` | process/elasticproc/logsevents/serialize.go:335-366 | Events of different roles commute on every stored or missing document |
| `TokenRoles.RegroupingIsSound` | process/elasticproc/logsevents/serialize.go:302-315 | Any regrouping that keeps each role's events in order leaves exactly the same index |
| `TokenRequests.RunSetProperties` | process/elasticproc/logsevents/serialize.go:391-398 | The properties script sets every property given over those stored, creating the map if needed |
| `TokenRequests.PropertiesNeedADocument` | process/elasticproc/logsevents/serialize.go:399-404 | On a missing token a property event leaves an empty document; behind a role event it keeps its properties |
| `TokenRequests.DocumentAfter` | process/elasticproc/logsevents/serialize.go:327-407 | The document any history of a token's role and property events leaves: roles as without properties, properties as without roles but for the event that creates it |
| `TokenRequests.RoleDecidedByLast` | process/elasticproc/logsevents/serialize.go:327-381 | In an index, an address is listed under a role of a token iff the last event with that token, role and address set it |
| `TokenRequests.RoleUntouched` | process/elasticproc/logsevents/serialize.go:327-381 | Without one it is listed iff it was |
| `TokenRequests.AddressOrder` | process/elasticproc/logsevents/serialize.go:335-366 | A new address goes to the end of its list, and an unset one leaves the others in order |
| `TokenRequests.PropertyDecidedByLast` | process/elasticproc/logsevents/serialize.go:383-407 | A property of a stored token has the value of the last event of that token that sets it, or the one it had |
| `TokenRequests.RolesFirst` | process/elasticproc/logsevents/serialize.go:302-325 | Moving a token's roles before its properties always keeps its roles, and keeps the document iff the token is unaffected: stored, no property event first or no role event, or everything the first one set is set again |
| `TokenRequests.SentExactly` | process/elasticproc/logsevents/serialize.go:302-325 | A whole index comes out of roles regrouped and sent first as out of the original order iff every token is unaffected |
| `TokenRequests.TokenRolesAndProperties.AddRole` | process/elasticproc/tokeninfo/tokeninfo.go:32-46 | Grouping keeps every event added, per role and in order |
| `TokenRequests.TokenRolesAndProperties.AddProperties` | process/elasticproc/tokeninfo/tokeninfo.go:54-59 | Property events are kept in the order they were added |
| `TokenRequests.TokenRolesAndProperties.SerializeRolesData` | process/elasticproc/logsevents/serialize.go:302-325 | The requests sent, role by role in whatever order the map yields and then the properties, leave every index with the roles of the original order, and as the original order would iff nothing is lost |
| `AccountDocuments.RunWriteAccount` | process/elasticproc/accounts/serialize.go:132-142 | The write script inserts, or merges all fields present unless the stored timestamp is later |
| `AccountDocuments.RunDeleteAccount` | process/elasticproc/accounts/serialize.go:91-103 | The delete script removes a document unless its timestamp is later, and never creates one |
| `AccountDocuments.LastWriterWins` | process/elasticproc/accounts/serialize.go:73-152 | After any history of timestamped writes and deletes a living document shows balance, shard and timestamp of the latest-timestamp write since its creation, ties to the later |
| `AccountDocuments.TimestampNeverFalls` | process/elasticproc/accounts/serialize.go:135-141 | As long as a document lives its timestamp never falls |
| `AccountDocuments.OrderedUpdatesKeepBalances` | process/elasticproc/accounts/serialize.go:46-63 | Updates of a whole index in timestamp order leave exactly the map of latest nonzero balances |
| `AccountDocuments.TokenDocument` | process/elasticproc/accounts/serialize.go:120-124 | Over address, token and nonce: each pair of an address has its own document, which shows its last update, or none when that has balance `0` or none |
| `AccountDocuments.NoTokenDocument` | process/elasticproc/accounts/serialize.go:83-87 | A pair without an update has no document |
| `AccountDocuments.RegularDocument` | process/elasticproc/accounts/serialize.go:73-80 | A regular account has one document under its address, whatever its balance |
| `AccountDocuments.WrittenField` | process/elasticproc/accounts/serialize.go:132-142 | A write field by field: its own balance, shard and timestamp, the other fields it brings, and what the document had besides |
| `AccountDocuments.StaleUpdate` | process/elasticproc/accounts/serialize.go:95-98 | An update older than the document leaves it as it is |
| `AccountDocuments.UntimedWrite` | process/elasticproc/accounts/serialize.go:136 | A write without timestamp over a document with one leaves it as it is |
| `AccountDocuments.OrderIrrelevantExactly` | process/elasticproc/accounts/serialize.go:134-140 | The document of a regular account ends with the same balance, shard and timestamp for every order of its writes iff the writes with the latest timestamp agree |
| `AccountDocuments.TiedWritesDisagree` | process/elasticproc/accounts/serialize.go:135 | Two writes with one timestamp and different balances: each order ends with its later one |
| `AccountDocuments.RegularAccountsConverge` | process/elasticproc/accounts/serialize.go:30-44 | Both of two orders of the same agreeing writes exist and show the deciding write |
| `ClustersChecker.ConvertResponseInMap` | tools/clusters-checker/pkg/checkers/process_indices_no_timestamp.go:82-92 | A page becomes a map with the ids of its hits, each with the source of its last hit |
| `ClustersChecker.PageMapHits` | tools/clusters-checker/pkg/checkers/process_indices_no_timestamp.go:86-89 | A page's map has exactly the ids of its hits, each with the source of its last hit |
| `ClustersChecker.AnyPaging` | tools/clusters-checker/pkg/checkers/process_indices_with_timestamp.go:77-130 | Every paging without empty pages of hits with an id each is a stream the results are about |
| `ClustersChecker.ClusterChecker.AbsentOverHits` | tools/clusters-checker/pkg/checkers/process_indices_with_timestamp.go:136-141 | Over hits alone: reported absent are exactly the ids with a hit in one stream and none in the other |
| `ClustersChecker.ClusterChecker.ComparedOverHits` | tools/clusters-checker/pkg/checkers/process_indices_with_timestamp.go:144-157 | Two hits with one id are reported different, or not comparable, exactly as their two sources are |
| `ClustersChecker.ClusterChecker.CompareDocuments` | tools/clusters-checker/pkg/checkers/process_indices_with_timestamp.go:144-157 | One comparison of two documents, with one warning when they differ or cannot be compared, and none when only ids matter |
| `ClustersChecker.ClusterChecker.CompareResults` | tools/clusters-checker/pkg/checkers/process_indices_with_timestamp.go:132-163 | Comparing two pages keeps the invariant: everything read and not matched is buffered, everything matched was compared once |
| `ClustersChecker.ClusterChecker.CheckMaps` | tools/clusters-checker/pkg/checkers/process_indices_with_timestamp.go:165-208 | A periodic pass keeps the invariant; the final one makes the reports complete and empties both maps |
| `ClustersChecker.BuffersAreDifferences` | tools/clusters-checker/pkg/checkers/process_indices_with_timestamp.go:170-177 | Once no id is buffered on both sides, what is buffered is the set difference in both directions |
| `ClustersChecker.ClusterChecker.ContinueReading` | tools/clusters-checker/pkg/checkers/process_indices_with_timestamp.go:77-130 | Reading two streams of any lengths and pagings to their end ends with complete reports and empty maps |
| `ClustersChecker.ClusterChecker.CompareIndexWithTimestamp` | tools/clusters-checker/pkg/checkers/process_indices_with_timestamp.go:43-75 | The reports added are exactly those of plain set difference and document by document comparison, with multiplicity; each common document is compared once; both maps are empty again |
| `ClustersChecker.ClusterChecker.CompareIndicesWithTimestamp` | tools/clusters-checker/pkg/checkers/process_indices_with_timestamp.go:32-41 | All configured indices are reported on, each once for every time it is configured |
| `ParallelCheckers.ComputeIntervals` | tools/clusters-checker/pkg/checkers/factory.go:74-104 | Ordered intervals chained end to start from start to end, as many as asked for, equally wide but for the remainder the last takes; fails iff start is after end |
| `ParallelCheckers.CreateMultipleCheckers` | tools/clusters-checker/pkg/checkers/factory.go:52-72 | One chained interval for each parallel read, none for zero, an abort for a negative number |
| `ParallelCheckers.ChainIsOrdered` | tools/clusters-checker/pkg/checkers/factory.go:89-101 | Every interval of a chain lies in the whole range |
| `ParallelCheckers.ChainCovers` | tools/clusters-checker/pkg/checkers/factory.go:89-101 | Every time of the range lies in some interval |
| `ParallelCheckers.ParallelEqualsOne` | tools/clusters-checker/pkg/checkers/query.go:34-58 | The checkers together report what one over the whole range reports iff no interval sees one copy of a document without the other |
| `ParallelCheckers.SameTimestampsSuffice` | tools/clusters-checker/pkg/checkers/query.go:39-47 | In particular when the copies of every shared document have equal timestamps |
| `ParallelCheckers.SeparatedCopies` | tools/clusters-checker/pkg/checkers/factory.go:89-101 | Two copies in the two halves of a range: one checker compares them, two report both as absent |
| `ParallelCheckers.RunCheckers` | tools/clusters-checker/pkg/checkers/factory.go:59-69 | Running every checker reports, for the configured indices, exactly what some interval's set difference and comparison reports |
| `ParallelCheckers.ReportsOverDocuments` | tools/clusters-checker/pkg/checkers/query.go:39-47 | Document by document, what a checker reports of an interval, both ends included: absence by timestamps, difference by the two sources |
| `ParallelCheckers.ServesStored` | tools/clusters-checker/pkg/checkers/query.go:34-58 | A client whose hits are the documents stored in the interval serves it |
| `ParallelCheckers.CompareInParallel` | tools/clusters-checker/pkg/checkers/process_indices_with_timestamp.go:32-41 | From the pages of both clusters to the reports: checkers over a split of the range report plain set difference and comparison over the whole range, when no interval separates two copies and so when timestamps agree |
| `BufferSlices.BufferSlice.constructor` | data/buffer.go:16-26 | An empty buffer slice; threshold zero means the default |
| `BufferSlices.BufferSlice.PutData` | data/buffer.go:29-57 | The record goes byte for byte behind the last buffer, or into a new one if that holds something and would pass the threshold; the buffers are the greedy packing of all records and `idx` names the last one |
| `BufferSlices.TwoRecords` | data/buffer.go:64-70 | Two records in literal bytes: one buffer up to the threshold, the last newline not counted, and two above it |
| `BufferSlices.NoDataNoNewline` | data/buffer.go:42-44 | A record without data gets no newline |
| `BufferSlices.PackingIsLossless` | data/buffer.go:29-57 | No record is lost, repeated, reordered or divided |
| `BufferSlices.PackingIsBounded` | data/buffer.go:64-70 | Every buffer has at most threshold plus one bytes or is the bytes of one record |
| `BufferSlices.BufferSlice.BuffersHoldEverything` | data/buffer.go:60-62 | The buffers returned concatenate to all records' bytes in order and are bounded |
| `BufferSlices.GreedyStaysAhead` | data/buffer.go:36-40 | Against every feasible order-preserving split greedy has fewer buffers, or as many and no more records in the open one |
| `BufferSlices.PackingIsOptimal` | data/buffer.go:36-40 | No feasible order-preserving split uses fewer buffers, empty records included |
| `BufferSlices.PackingReachesTheMinimum` | data/buffer.go:64-70 | For records that are not empty the packing is itself such a split, so it attains the minimum |
| `ScResults.CopyScrMap` | process/elasticproc/transactions/smartContractResultsProcessor.go:199-205 | A new map with the same entries |
| `ScResults.ProcessSCRsFromMiniblock` | process/elasticproc/transactions/smartContractResultsProcessor.go:73-103 | One result for each entry the miniblock lists and the working map still holds, exactly those removed; nothing when the miniblock has no hash |
| `ScResults.ProcessSCRs` | process/elasticproc/transactions/smartContractResultsProcessor.go:43-71 | Exactly one result per pool entry, prepared from the first result block that holds it or for the own shard without miniblock; the pool is unchanged |
| `ScResults.ListedFields` | process/elasticproc/transactions/smartContractResultsProcessor.go:94-100 | A result has the sender and receiver shard of the first result block that lists it, and a miniblock hash that decodes to that block's |
| `ScResults.UnlistedFields` | process/elasticproc/transactions/smartContractResultsProcessor.go:63-68 | Without such a block, the own shard on both sides and no miniblock hash |
| `ScResults.PreparedResultsHaveOwners` | process/elasticproc/transactions/scrsDataToTransactions.go:28-31 | The original hash a result carries always decodes back, so no result is dropped |
| `ScResults.AttachSCRsToTransactions` | process/elasticproc/transactions/scrsDataToTransactions.go:25-43 | Each transaction gets its own results appended in order, the leftovers keep their order |
| `ScResults.MarkTransactionsWithSCRs` | process/elasticproc/transactions/scrsDataToTransactions.go:45-52 | Exactly the transactions with results are marked |
| `ScResults.PlacedOnce` | process/elasticproc/transactions/scrsDataToTransactions.go:33-39 | A result is placed as often as it occurs, all in its transaction or all among the leftovers, and nowhere else |
| `ScResults.ProcessPool` | process/elasticproc/transactions/transactionsProcessor.go:126-129 | From pool to documents: every entry becomes one result placed exactly once, and a transaction is marked iff some entry names it |
| `AlteredAccounts.AlteredAccountsMap.Add` | data/altered.go:35-85 | The list of the address becomes the merge of its old list and the record, in place; all other lists are unchanged and no record is shared |
| `AlteredAccounts.MergedIsWellFormed` | data/altered.go:44-84 | Only the first element can be a sender and stays one, a plain record is alone, no token appears twice |
| `AlteredAccounts.RunSummary` | data/altered.go:50-84 | After any run of records the list has one element per token in order of first appearance, or one plain one, each as first recorded but for the leading balance flag, and its first is sender iff a plain record or one about that first token was |
| `AlteredAccounts.RecordHasElement` | data/altered.go:72-84 | Every ESDT or NFT record has an element with its identifier and nonce |
| `AlteredAccounts.ElementsDiffer` | data/altered.go:72-76 | No two elements have the same identifier and nonce |
| `AlteredAccounts.ElementHasRecord` | data/altered.go:60-70 | Once a token was moved every element is about one some record moved |
| `AlteredAccounts.PlainElement` | data/altered.go:44-48 | Without such a record there is a single plain element |
| `AlteredAccounts.SenderIsFirst` | data/altered.go:55-82 | Only the first element can be a sender: for a plain record, or one with its own identifier and nonce |
| `AlteredAccounts.RunIsOwnRecords` | data/altered.go:35-42 | Over all runs of the map, the list of an address depends on its own records only |
| `AlteredAccounts.AddAll` | data/altered.go:28-33 | Fresh records added in any sequence give every address the list its run comes to, with the invariant kept throughout |
| `SearchOrder.ShardIdentifierIsInjective` | process/elasticproc/block/blockProcessor.go:393-400 | No two shard ids share an identifier, wrap-around and metachain included |
| `SearchOrder.OrderIsCode` | process/elasticproc/block/blockProcessor.go:379-391 | The order is (100 + identifier) * 10^digits(nonce) + nonce for identifiers below 100, and 0 exactly when the number does not fit 64 bits |
| `SearchOrder.OrderDigits` | process/elasticproc/block/blockProcessor.go:380-381 | In literal digits: 102 plus the shard, or 101 for the metachain, then the nonce |
| `SearchOrder.OrderIsMonotone` | process/elasticproc/block/blockProcessor.go:381-383 | Within a shard a later block has a larger order, also across digit-count changes |
| `SearchOrder.OrdersCollide` | process/elasticproc/block/blockProcessor.go:381 | Two blocks of shards 99 and 8 with the same order |
| `SearchOrder.OrdersAreDistinctExactly` | process/elasticproc/block/blockProcessor.go:379-400 | Orders that fit are distinct for distinct blocks iff there are at most 99 shards beside the metachain |
| `SearchOrder.OrderNamesBlock` | process/elasticproc/block/blockProcessor.go:379-400 | Of the metachain and the first 99 shards, an order other than 0 names one block |
| `TokenIds.TokenIdAgrees` | tools/accounts-balance-checker/pkg/check/repair.go:80-95 | For a token without nonce checker and indexer build the same id iff it has one dash |
| `TokenIds.NFTIdAgrees` | process/elasticproc/converters/tokenIdentifier.go:10-29 | With a nonce they do iff the token has some dash |
| `TokenIds.IdsAgreeExactly` | process/elasticproc/accounts/serialize.go:120-124 | They do for all nonces iff the token has exactly one dash |
| `TokenIds.EndpointRecoversTokenAndNonce` | tools/accounts-balance-checker/pkg/check/checker_balance_esdt_sc.go:72-86 | The endpoint computed from an identifier names its token and nonce iff the token has one dash |
| `TokenIds.EndpointOfAnything` | tools/accounts-balance-checker/pkg/check/checker_balance_esdt_sc.go:73-86 | Three parts are a token and the last 64 bits of a nonce, anything else a token |
| `TokenIds.AddressAlone` | tools/accounts-balance-checker/pkg/check/repair.go:81-86 | Without an identifier checker and indexer both go by the address |
| `TokenIds.AccountIdsTellAddresses` | process/elasticproc/accounts/serialize.go:120-124 | Nor do token documents of different addresses, which have no dash |
| `Hex.EncodedDigits` | process/elasticproc/converters/tokenIdentifier.go:16 | A byte is two lower-case digits, the high one first |
| `Hex.DecodeStops` | tools/accounts-balance-checker/pkg/check/checker_balance_esdt_sc.go:79 | Decoding stops at the first pair that is not hex, and keeps what came before |
| `TokenIds.PrefixedTokensDisagree` | tools/accounts-balance-checker/pkg/check/repair.go:89-92 | For `sov-TKN-abcdef` the checker builds another id and takes identifiers with a nonce for tokens |
| `TokenIds.AccountIdsAreDistinct` | process/elasticproc/accounts/serialize.go:83-87 | Token documents of one address never share an id |
| `Topics.CamelToSnake` | metrics/statusMetrics.go:103-118 | The loop builds the snake form of any topic, character by character, taking the last byte of a character for the character |
| `Topics.SnakeMeaning` | metrics/statusMetrics.go:106-115 | Every character comes out in lower case at its place plus the humps so far, a separator stands right before each hump, and nothing else is added |
| `Topics.SnakeOfASCII` | metrics/statusMetrics.go:106-115 | For ASCII topics in terms of `A` to `Z` and `a` to `z` alone |
| `Topics.ByteBefore` | metrics/statusMetrics.go:108 | Behind U+00F5 the byte 0xB5 decides about the separator |
| `Topics.FixedExactly` | metrics/statusMetrics.go:106-115 | A string is its own snake form iff no capital in it has another lower-case form or follows a lower-case letter |
| `Topics.SnakeIsIdempotent` | metrics/statusMetrics.go:103-118 | Converting twice changes nothing iff each character's lower-case form is no capital, or is its own lower case and does not come to follow a lower-case letter |
| `Topics.LowerCaseSuffices` | metrics/statusMetrics.go:107-111 | In particular whenever every capital has a lower-case form that is no capital |
| `Topics.ASCIIIsIdempotent` | metrics/statusMetrics.go:103-118 | For every ASCII topic it is, and no capital is left |
| `Topics.CapitalWithoutLowerCase` | metrics/statusMetrics.go:107-111 | A topic with a capital that is its own lower case changes again |
| `Topics.TopicRoundTrip` | core/request/requests.go:40-59 | Splitting the stored key gives the snake topic, underscores included, and the decimal shard |
| `Topics.NoShard` | core/request/requests.go:52-56 | A last part that is no number below 2^32 leaves the topic whole, with `#` |
| `Topics.NoSeparator` | core/request/requests.go:46-49 | So does a topic without an underscore |
| `Topics.KeysAreFaithful` | metrics/statusMetrics.go:38-44 | Two topics share a key only with equal snake topics and equal shards |
| `ShardCoordinator.CeilLog2` | tools/index-modifier/pkg/modifiers/utils/shard_coordinator.go:27 | The least exponent whose power of two reaches the number of shards |
| `ShardCoordinator.MasksTakeLowBits` | tools/index-modifier/pkg/modifiers/utils/shard_coordinator.go:65-68 | The masks take the low bits of the address number, one bit fewer when they name no shard |
| `ShardCoordinator.ShardOf` | tools/index-modifier/pkg/modifiers/utils/shard_coordinator.go:65-70 | Every number falls into a shard below the number of shards |
| `ShardCoordinator.ShardFormula` | tools/index-modifier/pkg/modifiers/utils/shard_coordinator.go:26-29 | With the least `n` for which `2^n` reaches the number of shards: the address modulo `2^n`, or modulo `2^(n-1)` where that names no shard |
| `ShardCoordinator.BytesReadAreLeast` | tools/index-modifier/pkg/modifiers/utils/shard_coordinator.go:39-55 | The bytes read are as many as it takes to count the shards, from the end of the address |
| `ShardCoordinator.ShardOfAddress` | tools/index-modifier/pkg/modifiers/utils/shard_coordinator.go:39-63 | The bytes read always suffice: the shard is that of the whole address as one number |
| `ShardCoordinator.MultiShardCoordinator.ComputeIdFromBytes` | tools/index-modifier/pkg/modifiers/utils/shard_coordinator.go:37-71 | The metachain, or the shard of the whole address, for any number of shards; the 32-bit accumulator never wraps |
| `ShardCoordinator.OnlyTrailingBytesMatter` | tools/index-modifier/pkg/modifiers/utils/shard_coordinator.go:39-55 | Addresses that agree in the bytes read fall into the same shard |
| `ShardCoordinator.EveryShardIsReached` | tools/index-modifier/pkg/modifiers/utils/shard_coordinator.go:60-70 | Every shard below the number of shards is reached, behind any prefix |

## Left out

- Bulk formatting, JSON marshalling and escaping, UUIDs, HTTP, logging and configuration; documents are datatypes, with fields absent where `omitempty` or `containsKey` matters.
- Fee amounts are integers, not decimal strings; an empty string counts as absent, as the scripts treat it. `feeNum` is a real number and nothing is proved about rounding; `balanceNum` and the other fields of an account travel in `extra`.
- Refunds of several results of one transaction in the same block: processSCRsWithoutTx keeps only the last, and that function is not part of this model; conservation is stated over the records sent.
- An account write with timestamp 0 leaves its timestamp out, and comparing with it aborts the script; the document is then kept. The properties are stated for positive timestamps.
- Order independence of account fields that `omitempty` drops, and of deletes out of timestamp order: the code provides neither.
- The clusters checker on read errors, and whether it terminates then; a stream has no empty page before its end and no id on two pages. The two reads of a round share no state, so they are made one after the other.
- The range query is named for ascending timestamps but sorts them in descending order; no property depends on the order of the pages.
- The order of warnings within an index, which is that of map iteration; the log is a multiset. Outcomes of `areEqualJSON` are a parameter.
- Overflow of `endTime - startTime` in 64 bits; every other intermediate value of `ComputeIntervals` is proved to lie between the two.
- `append` to the caller's data in `PutData` may write a newline into spare capacity of the caller's array; buffers are values here.
- One record object added twice to the altered accounts, or one transaction object under two hashes: every caller makes a new object.
- Miniblock hashing, the test for metachain contracts, address conversion and the data-field parser are parameters, or part of a payload copied without looking at it.
- What Go makes of a negative or infinite shift count, which the masks of fewer than two shards ask for: those masks are a parameter, and no result depends on it once there is a shard. Floating-point error of the logarithm.
- Topics that are not valid UTF-8. The character tables of package unicode are a parameter, known for ASCII only.
- The text of the property request, which closes one brace too many; it is taken for the request meant.
- `AddIndexingData`, token supply and NFT data updates, block header fields: these updates keep no invariant across functions.
