/**
 * The transaction documents several indexers write concurrently end the same way whatever the order
 * and repetition of their bulk entries.
 */
module TransactionConvergence {
  import opened Wrappers
  import opened ElasticIndex
  import opened TransactionScripts
  import opened Numbers
  import Hex
  import ScResults

  // ---------------------------------------------------------------- NFT transfers inside one shard

  predicate IsTxWrite(e: TxEvent) {
    e.TxWrite?
  }

  /** Writes of NFT or multi transfers, with their final status, and the status records logs produce. */
  predicate NFTEvent(e: TxEvent) {
    match e
    case TxWrite(tx, _) => IsNFTTransferOrMultiTransfer(tx) && tx.status != ""
    case StatusWrite(info) => info.status == "" || info.status == STATUS_FAIL
    case FeeWrite(_) => false
  }

  predicate NFTHistory(events: seq<TxEvent>) {
    forall e :: e in events ==> NFTEvent(e)
  }

  predicate FailureRecorded(events: seq<TxEvent>) {
    exists e :: e in events && e.StatusWrite? && e.info.status == STATUS_FAIL
  }

  predicate RaisesError(e: TxEvent) {
    (e.TxWrite? && e.tx.errorEvent) || (e.StatusWrite? && e.info.errorEvent)
  }

  predicate RaisesCompleted(e: TxEvent) {
    (e.TxWrite? && e.tx.completedEvent) || (e.StatusWrite? && e.info.completedEvent)
  }

  predicate ErrorRecorded(events: seq<TxEvent>) {
    exists e :: e in events && RaisesError(e)
  }

  predicate CompletionRecorded(events: seq<TxEvent>) {
    exists e :: e in events && RaisesCompleted(e)
  }

  /** What is known of a history: its last and first transaction write, and what was recorded. */
  datatype Recorded = Recorded(last: Option<Transaction>, first: Option<Transaction>, failed: bool, error: bool, completed: bool)

  function WriteOf(e: Option<TxEvent>): Option<Transaction> {
    if e.Some? && e.value.TxWrite? then Some(e.value.tx) else None
  }

  function RecordedBy(events: seq<TxEvent>): Recorded {
    Recorded(WriteOf(Last(events, IsTxWrite)), WriteOf(First(events, IsTxWrite)),
             FailureRecorded(events), ErrorRecorded(events), CompletionRecorded(events))
  }

  function Document(r: Recorded): TxDoc {
    var doc := Marshal(if r.last.Some? then r.last.value else StatusOnly(StatusInfo("", false, false)));
    doc.(
    status := if r.failed then STATUS_FAIL else if r.first.Some? then r.first.value.status else "",
    errorEvent := Flag(r.error),
    completedEvent := Flag(r.completed))
  }

  /** The document a history of NFT events leaves, read off the history as a whole. */
  function NFTSummary(events: seq<TxEvent>): Option<TxDoc> {
    if events == [] then None else Some(Document(RecordedBy(events)))
  }

  lemma ExistsInLast(events: seq<TxEvent>)
    requires events != []
    ensures var init, e := events[..|events| - 1], events[|events| - 1];
      && (FailureRecorded(events) <==> FailureRecorded(init) || (e.StatusWrite? && e.info.status == STATUS_FAIL))
      && (ErrorRecorded(events) <==> ErrorRecorded(init) || RaisesError(e))
      && (CompletionRecorded(events) <==> CompletionRecorded(init) || RaisesCompleted(e))
  {
    var init, e := events[..|events| - 1], events[|events| - 1];
    assert events == init + [e];
  }

  function NextRecorded(r: Recorded, e: TxEvent): Recorded {
    var tx := WriteOf(Some(e));
    Recorded(OrElse(tx, r.last), OrElse(r.first, tx),
             r.failed || (e.StatusWrite? && e.info.status == STATUS_FAIL), r.error || RaisesError(e), r.completed || RaisesCompleted(e))
  }

  lemma RecordedLast(events: seq<TxEvent>, e: TxEvent)
    ensures RecordedBy(events + [e]) == NextRecorded(RecordedBy(events), e)
  {
    var after := events + [e];
    assert after[..|events|] == events;
    ExistsInLast(after);
  }

  /** One more event on a stored document, and on a missing one. */
  lemma DocumentStep(r: Recorded, e: TxEvent)
    requires NFTEvent(e) && (r.last.Some? <==> r.first.Some?)
    requires r.first.Some? ==> r.first.value.status != ""
    ensures Apply(Some(Document(r)), EventAction(e)) == Some(Document(NextRecorded(r, e)))
    ensures r == Recorded(None, None, false, false, false) ==> Apply(None, EventAction(e)) == Some(Document(NextRecorded(r, e)))
  {
  }

  lemma {:induction false} RecordedWrites(events: seq<TxEvent>)
    requires NFTHistory(events)
    ensures var r := RecordedBy(events);
      && (r.last.Some? <==> r.first.Some?)
      && (r.first.Some? ==> r.first.value.status != "")
      && (events == [] ==> r == Recorded(None, None, false, false, false))
  {
  }

  /** One more event, on what the summary says is stored. */
  lemma NFTStep(events: seq<TxEvent>, e: TxEvent)
    requires NFTHistory(events) && NFTEvent(e)
    ensures Apply(NFTSummary(events), EventAction(e)) == NFTSummary(events + [e])
  {
    RecordedWrites(events);
    RecordedLast(events, e);
    DocumentStep(RecordedBy(events), e);
  }

  /** Every history, in every order and with every repetition, leaves exactly the summarised document. */
  lemma {:induction false} NFTHistorySummary(events: seq<TxEvent>)
    requires NFTHistory(events)
    ensures History(events) == NFTSummary(events)
  {
    if events != [] {
      var init, e := events[..|events| - 1], events[|events| - 1];
      assert events == init + [e];
      NFTHistorySummary(init);
      assert e in events;
      NFTStep(init, e);
      RunLast(None, EventAction, init, e);
    }
  }

  ghost predicate SameRecords(es: seq<TxEvent>, fs: seq<TxEvent>) {
    forall info :: StatusWrite(info) in es <==> StatusWrite(info) in fs
  }

  /** Some writes of `tx`, and no write of anything else. */
  ghost predicate WritesExactly(events: seq<TxEvent>, tx: Transaction) {
    && (exists e :: e in events && e.TxWrite?)
    && (forall e :: e in events && e.TxWrite? ==> e.tx == tx)
  }

  /**
   * One NFT transaction written any number of times among any status records ends as that
   * transaction, failed when some record failed and with both flags accumulated.
   */
  lemma NFTDocument(events: seq<TxEvent>, tx: Transaction)
    requires NFTHistory(events) && WritesExactly(events, tx)
    ensures History(events) == Some(Marshal(tx.(
      status := if FailureRecorded(events) then STATUS_FAIL else tx.status,
      errorEvent := ErrorRecorded(events),
      completedEvent := CompletionRecorded(events))))
  {
    NFTHistorySummary(events);
  }

  lemma SameMembers(es: seq<TxEvent>, fs: seq<TxEvent>, tx: Transaction)
    requires NFTHistory(es) && WritesExactly(es, tx) && WritesExactly(fs, tx) && SameRecords(es, fs)
    ensures FailureRecorded(es) ==> FailureRecorded(fs)
    ensures ErrorRecorded(es) ==> ErrorRecorded(fs)
    ensures CompletionRecorded(es) ==> CompletionRecorded(fs)
  {
    var w :| w in fs && w.TxWrite?;
    forall e | e in es
      ensures e.StatusWrite? ==> e in fs
    {
      if e.StatusWrite? {
        assert StatusWrite(e.info) in es;
      }
    }
    if ErrorRecorded(es) {
      var e :| e in es && RaisesError(e);
      assert e.TxWrite? ==> RaisesError(w);
    }
    if CompletionRecorded(es) {
      var e :| e in es && RaisesCompleted(e);
      assert e.TxWrite? ==> RaisesCompleted(w);
    }
  }

  /** Two indexers that see the same transaction and the same set of records agree on the document. */
  lemma NFTConvergence(es: seq<TxEvent>, fs: seq<TxEvent>, tx: Transaction)
    requires NFTHistory(es) && NFTHistory(fs)
    requires WritesExactly(es, tx) && WritesExactly(fs, tx)
    requires SameRecords(es, fs)
    ensures History(es) == History(fs)
  {
    NFTDocument(es, tx);
    NFTDocument(fs, tx);
    SameMembers(es, fs, tx);
    SameMembers(fs, es, tx);
  }

  // ---------------------------------------------------------------- transactions between two shards

  /** A write of a transaction from another shard than its receiver's, by one of the two shards. */
  predicate CrossShardEvent(e: TxEvent) {
    e.TxWrite? && IsCrossShard(e.tx) && (e.selfShard == e.tx.body.senderShard || e.selfShard == e.tx.body.receiverShard)
  }

  predicate CrossShardHistory(events: seq<TxEvent>) {
    forall e :: e in events ==> CrossShardEvent(e)
  }

  predicate OnSource(e: TxEvent) {
    e.TxWrite? && e.selfShard == e.tx.body.senderShard
  }

  predicate OnDestination(e: TxEvent) {
    e.TxWrite? && e.selfShard != e.tx.body.senderShard
  }

  predicate SimpleTransfers(events: seq<TxEvent>) {
    forall e :: e in events ==> e.TxWrite? && IsSimpleESDTTransfer(e.tx)
  }

  predicate OtherTransfers(events: seq<TxEvent>) {
    forall e :: e in events ==> e.TxWrite? && !IsSimpleESDTTransfer(e.tx)
  }

  function WithGas(doc: TxDoc, gas: TxDoc): TxDoc {
    doc.(gasUsed := gas.gasUsed, fee := gas.fee, feeNum := gas.feeNum)
  }

  /**
   * A simple ESDT transfer, whatever versions the two shards write: everything but gas and fee comes
   * from the last destination write (the first write while there is none), gas and fee from the last
   * source write (the first write while there is none).
   */
  function TransferSummary(events: seq<TxEvent>): Option<TxDoc>
    requires forall e :: e in events ==> e.TxWrite?
  {
    if events == [] then None
    else
      var first := Marshal(events[0].tx);
      var destination, source := Last(events, OnDestination), Last(events, OnSource);
      Some(WithGas(if destination.Some? then Marshal(destination.value.tx) else first,
                   if source.Some? then Marshal(source.value.tx) else first))
  }

  lemma {:induction false} TransferHistorySummary(events: seq<TxEvent>)
    requires CrossShardHistory(events) && SimpleTransfers(events)
    ensures History(events) == TransferSummary(events)
  {
    if events != [] {
      var init, e := events[..|events| - 1], events[|events| - 1];
      TransferHistorySummary(init);
      assert e in events;
    }
  }

  ghost predicate HasWrite(events: seq<TxEvent>, side: TxEvent -> bool) {
    exists e :: e in events && side(e)
  }

  ghost predicate WritesOnly(events: seq<TxEvent>, side: TxEvent -> bool, tx: Transaction) {
    HasWrite(events, side) && forall e :: e in events && e.TxWrite? && side(e) ==> e.tx == tx
  }

  /** Any interleaving of the two shards' writes ends in the destination's transaction with the source's gas. */
  lemma SimpleTransferConvergence(events: seq<TxEvent>, source: Transaction, destination: Transaction)
    requires CrossShardHistory(events) && SimpleTransfers(events)
    requires WritesOnly(events, OnSource, source) && WritesOnly(events, OnDestination, destination)
    ensures History(events) == Some(WithGas(Marshal(destination), Marshal(source)))
  {
    TransferHistorySummary(events);
  }

  /** For every other transaction the last destination write decides, and a source write never overrides. */
  lemma OtherTransferSummary(events: seq<TxEvent>)
    requires CrossShardHistory(events) && OtherTransfers(events)
    ensures History(events) ==
      match Last(events, OnDestination)
      case Some(e) => Some(Marshal(e.tx))
      case None => if events == [] then None else Some(Marshal(events[0].tx))
  {
    var doc := (e: TxEvent) => if e.TxWrite? then Marshal(e.tx) else Marshal(StatusOnly(StatusInfo("", false, false)));
    InsertOnlyNeverOverrides(EventAction, doc, OnDestination, events);
  }

  // ---------------------------------------------------------------- smart contract results as operations

  /** One indexer's entry for a smart contract result in the operations index. */
  function ScResultAction(scr: ScResults.ScResult, selfShard: nat): Action<ScResults.ScResult> {
    if scr.senderShard != scr.receiverShard && scr.senderShard == selfShard then
      Update(doc => Write(doc), scr)
    else Index(scr)
  }

  datatype ScrEvent = ScrEvent(scr: ScResults.ScResult, selfShard: nat)

  predicate IsReplacement(e: ScrEvent) {
    !(e.scr.senderShard != e.scr.receiverShard && e.scr.senderShard == e.selfShard)
  }

  /** The same for smart contract results: the source shard only ever fills a missing document. */
  lemma {:induction false} ScResultSummary(events: seq<ScrEvent>)
    ensures Run(None, (e: ScrEvent) => ScResultAction(e.scr, e.selfShard), events) ==
      match Last(events, IsReplacement)
      case Some(e) => Some(e.scr)
      case None => if events == [] then None else Some(events[0].scr)
  {
    InsertOnlyNeverOverrides((e: ScrEvent) => ScResultAction(e.scr, e.selfShard), (e: ScrEvent) => e.scr, IsReplacement, events);
  }

  /**
   * The operations entry of a result out of the pool: when the first block that lists it goes from the own
   * shard to another one it only fills a missing document, and in every other case it replaces it.
   */
  lemma OperationsEntry(
    miniBlocks: seq<ScResults.MiniBlock>, hasher: ScResults.MiniBlockHasher, selfShard: nat, pool: map<string, ScResults.ScrInfo>,
    results: seq<ScResults.ScResult>, r: ScResults.ScResult, hash: seq<byte>, p: nat, stored: Option<ScResults.ScResult>)
    requires ScResults.PreparedFor(results, pool, pool.Keys, miniBlocks, hasher, selfShard) && r in results
    requires r.hash == Hex.EncodeToString(hash) && p <= |miniBlocks|
    requires forall q :: 0 <= q < p ==> !ScResults.Lists(miniBlocks[q], hasher, hash)
    requires p < |miniBlocks| ==> ScResults.Lists(miniBlocks[p], hasher, hash)
    ensures Apply(stored, ScResultAction(r, selfShard)) ==
      if stored.Some? && p < |miniBlocks| && miniBlocks[p].senderShard == selfShard != miniBlocks[p].receiverShard
      then stored else Some(r)
  {
    if p < |miniBlocks| {
      ScResults.ListedFields(miniBlocks, hasher, selfShard, pool, results, r, hash, p);
    } else {
      ScResults.UnlistedFields(miniBlocks, hasher, selfShard, pool, results, r, hash);
    }
  }
}
