/**
 * Histories of transactions that are no NFT transfers, with status and fee records among their writes.
 * The write of an intra-shard transaction or of the destination shard replaces what the records left.
 */
module ReplacingWrites {
  import opened Wrappers
  import opened ElasticIndex
  import opened TransactionScripts
  import opened TransactionConvergence
  import opened StatusRecords
  import opened Refunds

  /** A write that puts the whole transaction in place of the document. */
  predicate Replaces(e: TxEvent) {
    e.TxWrite? && EventAction(e).Index?
  }

  /** A write that puts its own status and flags in place: these, and a simple transfer's on its destination. */
  predicate ReplacesStatus(e: TxEvent) {
    e.TxWrite? && !IsCrossShardOnSourceShard(e.tx, e.selfShard)
  }

  /** Any write but an NFT transfer's, a status record that logs produce, or a fee record. */
  predicate OtherEvent(e: TxEvent) {
    match e
    case TxWrite(tx, _) => !IsNFTTransferOrMultiTransfer(tx)
    case StatusWrite(info) => IsLogRecord(info)
    case FeeWrite(_) => true
  }

  predicate OtherHistory(events: seq<TxEvent>) {
    forall e :: e in events ==> OtherEvent(e)
  }

  /** No simple transfer between shards either: every write replaces the document or only fills a missing one. */
  predicate PlainHistory(events: seq<TxEvent>) {
    OtherHistory(events) && forall e :: e in events && e.TxWrite? ==> Replaces(e) || EventAction(e).Update?
  }

  predicate LastOf(events: seq<TxEvent>, p: nat, kind: TxEvent -> bool) {
    p < |events| && kind(events[p]) && forall j :: p < j < |events| ==> !kind(events[j])
  }

  /** Every history with such an event has a last one. */
  lemma {:induction false} FindLast(events: seq<TxEvent>, kind: TxEvent -> bool) returns (p: nat)
    requires exists e :: e in events && kind(e)
    ensures LastOf(events, p, kind)
  {
    p := |events| - 1;
    if !kind(events[p]) {
      var init := events[..p];
      var e :| e in events && kind(e);
      assert events == init + [events[p]] && e in init;
      p := FindLast(init, kind);
    }
  }

  // ---------------------------------------------------------------- a replacing write starts afresh

  lemma {:induction false} RunAppend(stored: Option<TxDoc>, before: seq<TxEvent>, after: seq<TxEvent>)
    ensures Run(stored, EventAction, before + after) == Run(Run(stored, EventAction, before), EventAction, after)
  {
    if after == [] {
      assert before + after == before;
    } else {
      var init, e := after[..|after| - 1], after[|after| - 1];
      assert before + after == (before + init) + [e] && after == init + [e];
      RunAppend(stored, before, init);
      RunLast(stored, EventAction, before + init, e);
      RunLast(Run(stored, EventAction, before), EventAction, init, e);
    }
  }

  lemma RunFrom(events: seq<TxEvent>, p: nat)
    requires p < |events|
    ensures History(events) ==
      Run(Apply(History(events[..p]), EventAction(events[p])), EventAction, events[p + 1..])
  {
    assert events == (events[..p] + [events[p]]) + events[p + 1..];
    RunAppend(None, events[..p] + [events[p]], events[p + 1..]);
    RunLast(None, EventAction, events[..p], events[p]);
  }

  /** In every history whatsoever, nothing before a replacing write shows. */
  lemma ReplacingWriteStartsAfresh(events: seq<TxEvent>, p: nat)
    requires p < |events| && Replaces(events[p])
    ensures History(events) == Run(Some(Marshal(events[p].tx)), EventAction, events[p + 1..])
  {
    RunFrom(events, p);
  }

  // ---------------------------------------------------------------- records on a stored document

  predicate ErrorReported(events: seq<TxEvent>) {
    exists e :: e in events && e.StatusWrite? && e.info.errorEvent
  }

  predicate CompletionReported(events: seq<TxEvent>) {
    exists e :: e in events && e.StatusWrite? && e.info.completedEvent
  }

  /** A document with the status records of `events` applied. */
  function Reported(doc: TxDoc, events: seq<TxEvent>): TxDoc {
    doc.(
    status := if FailureRecorded(events) then STATUS_FAIL else doc.status,
    errorEvent := if ErrorReported(events) then Some(true) else doc.errorEvent,
    completedEvent := if CompletionReported(events) then Some(true) else doc.completedEvent)
  }

  lemma ReportedLast(doc: TxDoc, events: seq<TxEvent>, e: TxEvent)
    requires OtherEvent(e)
    ensures Reported(doc, events + [e]) == if e.StatusWrite? then WithStatus(Reported(doc, events), e.info) else Reported(doc, events)
  {
    var after := events + [e];
    assert e in after;
    assert forall x :: x in after <==> x in events || x == e;
  }

  lemma ReportedNothing(doc: TxDoc)
    ensures Reported(doc, []) == doc
  {
  }

  lemma FeeRecordsLast(events: seq<TxEvent>, e: TxEvent)
    ensures FeeRecords(events + [e]) == if e.FeeWrite? then FeeRecords(events) + [e.feeData] else FeeRecords(events)
  {
    assert (events + [e])[..|events|] == events;
  }

  /** What fills a missing document, on a stored one: records act on it, and a write does nothing. */
  lemma {:induction false} RecordsOnStored(doc: TxDoc, later: seq<TxEvent>)
    requires PlainHistory(later) && forall e :: e in later ==> !Replaces(e)
    ensures Run(Some(doc), EventAction, later) == AfterRefunds(Reported(doc, later), FeeRecords(later))
  {
    if later == [] {
      ReportedNothing(doc);
    } else {
      var init, e := later[..|later| - 1], later[|later| - 1];
      assert later == init + [e] && e in later;
      RecordsOnStored(doc, init);
      RunLast(Some(doc), EventAction, init, e);
      ReportedLast(doc, init, e);
      FeeRecordsLast(init, e);
      match e
      case TxWrite(_, _) => OnlyFeesChange(Some(Reported(doc, init)), FeeRecords(init));
      case StatusWrite(info) => FeesIgnoreStatus(Reported(doc, init), info, FeeRecords(init));
      case FeeWrite(f) => RunLast(Some(Reported(doc, init)), FeeAction, FeeRecords(init), f);
    }
  }

  lemma NoneAfter(events: seq<TxEvent>, p: nat, kind: TxEvent -> bool)
    requires LastOf(events, p, kind)
    ensures forall e :: e in events[p + 1..] ==> !kind(e)
  {
  }

  /**
   * The document of every plain history with a replacing write: its last one, with the status and fee
   * records that follow it and nothing else.
   */
  lemma PlainHistorySummary(events: seq<TxEvent>, p: nat)
    requires PlainHistory(events) && LastOf(events, p, Replaces)
    ensures var later := events[p + 1..];
      History(events) == AfterRefunds(Reported(Marshal(events[p].tx), later), FeeRecords(later))
  {
    ReplacingWriteStartsAfresh(events, p);
    NoneAfter(events, p, Replaces);
    RecordsOnStored(Marshal(events[p].tx), events[p + 1..]);
  }

  /** The document the first write or status record of a history makes. */
  function Created(e: TxEvent): TxDoc
    requires !e.FeeWrite?
  {
    if e.TxWrite? then Marshal(e.tx) else Marshal(StatusOnly(e.info))
  }

  lemma {:induction false} FeesCreateNothing(events: seq<TxEvent>)
    requires forall e :: e in events ==> e.FeeWrite?
    ensures History(events) == None
  {
    if events != [] {
      assert events[|events| - 1] in events;
      FeesCreateNothing(events[..|events| - 1]);
    }
  }

  /** Without a replacing write: what came first, with the records that follow it. */
  lemma FilledHistorySummary(events: seq<TxEvent>, q: nat)
    requires PlainHistory(events) && forall e :: e in events ==> !Replaces(e)
    requires q < |events| && !events[q].FeeWrite? && forall i :: 0 <= i < q ==> events[i].FeeWrite?
    ensures var later := events[q + 1..];
      History(events) == AfterRefunds(Reported(Created(events[q]), later), FeeRecords(later))
  {
    assert events[q] in events;
    RunFrom(events, q);
    FeesCreateNothing(events[..q]);
    RecordsOnStored(Created(events[q]), events[q + 1..]);
  }

  // ---------------------------------------------------------------- which records survive

  lemma {:induction false} FeeRecordsAppend(a: seq<TxEvent>, b: seq<TxEvent>)
    ensures FeeRecords(a + b) == FeeRecords(a) + FeeRecords(b)
  {
    if b == [] {
      assert a + b == a;
    } else {
      var init, e := b[..|b| - 1], b[|b| - 1];
      assert a + b == (a + init) + [e] && b == init + [e];
      FeeRecordsAppend(a, init);
      FeeRecordsLast(a + init, e);
      FeeRecordsLast(init, e);
    }
  }

  lemma FeeRecordsAround(events: seq<TxEvent>, p: nat)
    requires p < |events| && events[p].TxWrite?
    ensures FeeRecords(events) == FeeRecords(events[..p]) + FeeRecords(events[p + 1..])
  {
    assert events == (events[..p] + [events[p]]) + events[p + 1..];
    FeeRecordsAppend(events[..p] + [events[p]], events[p + 1..]);
    FeeRecordsLast(events[..p], events[p]);
  }

  lemma ReportedAround(doc: TxDoc, events: seq<TxEvent>, p: nat)
    requires p < |events| && events[p].TxWrite?
    ensures Reported(doc, events) == Reported(doc, events[p + 1..]) <==>
      && (FailureRecorded(events[..p]) ==> FailureRecorded(events[p + 1..]) || doc.status == STATUS_FAIL)
      && (ErrorReported(events[..p]) ==> ErrorReported(events[p + 1..]) || doc.errorEvent == Some(true))
      && (CompletionReported(events[..p]) ==> CompletionReported(events[p + 1..]) || doc.completedEvent == Some(true))
  {
    assert events == (events[..p] + [events[p]]) + events[p + 1..];
    assert forall e :: e in events <==> e in events[..p] || e == events[p] || e in events[p + 1..];
  }

  /** The document all records of a history would leave on the transaction, wherever they stand. */
  function WithAllRecords(tx: Transaction, events: seq<TxEvent>): Option<TxDoc> {
    AfterRefunds(Reported(Marshal(tx), events), FeeRecords(events))
  }

  /** What the records before a replacing write said is said again after it, and no refund came before. */
  predicate NothingLost(events: seq<TxEvent>, p: nat)
    requires p < |events| && events[p].TxWrite?
  {
    var before, tx, later := events[..p], events[p].tx, events[p + 1..];
    && FeeRecords(before) == []
    && (FailureRecorded(before) ==> FailureRecorded(later) || tx.status == STATUS_FAIL)
    && (ErrorReported(before) ==> ErrorReported(later) || tx.errorEvent)
    && (CompletionReported(before) ==> CompletionReported(later) || tx.completedEvent)
  }

  /** Refunds in full of two documents that differ in status: equal documents had equal status and equal gas. */
  lemma RefundedGas(doc: TxDoc, refunds: seq<FeeData>)
    requires AreRefunds(refunds) && HasFees(doc) && doc.hadRefund != Some(true) && TotalGas(refunds) < doc.gasUsed
    ensures AfterRefunds(doc, refunds).Some?
    ensures var after := AfterRefunds(doc, refunds).value;
      && after.gasUsed == doc.gasUsed - TotalGas(refunds)
      && after.status == doc.status && after.errorEvent == doc.errorEvent && after.completedEvent == doc.completedEvent
  {
    RefundedAfterAll(doc, refunds);
    OnlyFeesChange(Some(doc), refunds);
  }

  lemma LostGas(events: seq<TxEvent>, p: nat)
    requires p < |events| && events[p].TxWrite? && AreRefunds(FeeRecords(events))
    ensures var before, later := FeeRecords(events[..p]), FeeRecords(events[p + 1..]);
      && AreRefunds(later) && TotalGas(later) <= TotalGas(FeeRecords(events))
      && (TotalGas(later) == TotalGas(FeeRecords(events)) <==> before == [])
      && (before == [] ==> later == FeeRecords(events))
  {
    var before, later := FeeRecords(events[..p]), FeeRecords(events[p + 1..]);
    FeeRecordsAround(events, p);
    assert forall f :: f in before || f in later ==> f in FeeRecords(events);
    TotalsAppend(before, later);
    EveryRefundCounts(before);
    assert before == [] ==> before + later == later;
  }

  /**
   * All records of a plain history show on its document exactly when no refund came before the last
   * replacing write, and no failure or flag came only before it.
   */
  lemma RecordsSurviveExactly(events: seq<TxEvent>, p: nat)
    requires PlainHistory(events) && LastOf(events, p, Replaces)
    requires AreRefunds(FeeRecords(events)) && HasFees(Marshal(events[p].tx)) && !events[p].tx.hadRefund
    requires TotalGas(FeeRecords(events)) < events[p].tx.gasUsed
    ensures History(events) == WithAllRecords(events[p].tx, events) <==> NothingLost(events, p)
  {
    var doc, later := Marshal(events[p].tx), events[p + 1..];
    PlainHistorySummary(events, p);
    LostGas(events, p);
    ReportedAround(doc, events, p);
    RefundedGas(Reported(doc, later), FeeRecords(later));
    RefundedGas(Reported(doc, events), FeeRecords(events));
  }

  // ---------------------------------------------------------------- status of simple transfers, too

  /** Status and flags of a document. */
  function StatusOf(doc: TxDoc): (string, Option<bool>, Option<bool>) {
    (doc.status, doc.errorEvent, doc.completedEvent)
  }

  lemma StatusStep(doc: TxDoc, e: TxEvent)
    requires OtherEvent(e) && !ReplacesStatus(e)
    ensures Apply(Some(doc), EventAction(e)).Some?
    ensures StatusOf(Apply(Some(doc), EventAction(e)).value) ==
      if e.StatusWrite? then StatusOf(WithStatus(doc, e.info)) else StatusOf(doc)
  {
  }

  lemma {:induction false} StatusOnStored(doc: TxDoc, later: seq<TxEvent>)
    requires OtherHistory(later) && forall e :: e in later ==> !ReplacesStatus(e)
    ensures Run(Some(doc), EventAction, later).Some?
    ensures StatusOf(Run(Some(doc), EventAction, later).value) == StatusOf(Reported(doc, later))
  {
    if later == [] {
      ReportedNothing(doc);
    } else {
      var init, e := later[..|later| - 1], later[|later| - 1];
      assert later == init + [e] && e in later;
      StatusOnStored(doc, init);
      RunLast(Some(doc), EventAction, init, e);
      ReportedLast(doc, init, e);
      StatusStep(Run(Some(doc), EventAction, init).value, e);
    }
  }

  lemma StatusReplaced(stored: Option<TxDoc>, e: TxEvent)
    requires OtherEvent(e) && ReplacesStatus(e)
    ensures var after := Apply(stored, EventAction(e)); after.Some? && StatusOf(after.value) == StatusOf(Marshal(e.tx))
  {
  }

  /**
   * In every history but an NFT transfer's, status and flags are those of the last write by the
   * destination or the only shard, with the status records that follow it.
   */
  lemma StatusSummary(events: seq<TxEvent>, p: nat)
    requires OtherHistory(events) && LastOf(events, p, ReplacesStatus)
    ensures History(events).Some?
    ensures StatusOf(History(events).value) == StatusOf(Reported(Marshal(events[p].tx), events[p + 1..]))
  {
    assert events[p] in events;
    RunFrom(events, p);
    StatusReplaced(History(events[..p]), events[p]);
    NoneAfter(events, p, ReplacesStatus);
    var stored := Apply(History(events[..p]), EventAction(events[p])).value;
    StatusOnStored(stored, events[p + 1..]);
  }

  /** A recorded failure does not show exactly when every failure was recorded before that write. */
  lemma FailureLostExactly(events: seq<TxEvent>, p: nat)
    requires OtherHistory(events) && LastOf(events, p, ReplacesStatus) && events[p].tx.status != STATUS_FAIL
    ensures History(events).Some?
    ensures FailureRecorded(events) && History(events).value.status != STATUS_FAIL <==>
      FailureRecorded(events[..p]) && !FailureRecorded(events[p + 1..])
  {
    StatusSummary(events, p);
    assert events == (events[..p] + [events[p]]) + events[p + 1..];
    assert forall e :: e in events <==> e in events[..p] || e == events[p] || e in events[p + 1..];
  }

  /** A failure recorded before the destination writes the transaction is lost; recorded after it, it shows. */
  lemma FailureIsLost(tx: Transaction, info: StatusInfo)
    requires IsCrossShard(tx) && tx.status == "pending" && info == StatusInfo(STATUS_FAIL, true, false)
    ensures var w := TxWrite(tx, tx.body.receiverShard);
      && History([StatusWrite(info), w]).Some? && History([StatusWrite(info), w]).value.status == "pending"
      && History([w, StatusWrite(info)]).Some? && History([w, StatusWrite(info)]).value.status == STATUS_FAIL
  {
    var w := TxWrite(tx, tx.body.receiverShard);
    RunTwo(None, EventAction, StatusWrite(info), w);
    RunTwo(None, EventAction, w, StatusWrite(info));
  }

  // ---------------------------------------------------------------- refunds of simple transfers

  predicate IsTransferWrite(e: TxEvent) {
    e.TxWrite? && IsCrossShard(e.tx) && IsSimpleESDTTransfer(e.tx)
  }

  /** The last write of a simple transfer, by its source or its destination shard. */
  predicate LastTransferWrite(events: seq<TxEvent>, p: nat, onSource: bool) {
    && LastOf(events, p, IsTxWrite) && IsTransferWrite(events[p])
    && events[p].selfShard == (if onSource then events[p].tx.body.senderShard else events[p].tx.body.receiverShard)
  }

  /** Refunds of a document that already had one are taken from the fee left. */
  lemma {:induction false} RefundedFurther(doc: TxDoc, refunds: seq<FeeData>)
    requires AreRefunds(refunds) && HasFees(doc) && doc.hadRefund == Some(true)
    requires TotalFee(refunds) < doc.fee.value
    ensures TotalFee(refunds) >= 0 && AfterRefunds(doc, refunds).Some?
    ensures var after := AfterRefunds(doc, refunds).value;
      && after.fee == Some(doc.fee.value - TotalFee(refunds))
      && after.hadRefund == Some(true) && after.initialPaidFee == doc.initialPaidFee
  {
    if refunds != [] {
      var init, f := refunds[..|refunds| - 1], refunds[|refunds| - 1];
      assert f in refunds;
      RefundedFurther(doc, init);
      RunLast(Some(doc), FeeAction, init, f);
      assert refunds == init + [f];
    } else {
      assert AfterRefunds(doc, refunds) == Some(doc);
    }
  }

  lemma LastWriteSummary(events: seq<TxEvent>, p: nat)
    requires OtherHistory(events) && LastOf(events, p, IsTxWrite)
    ensures var written, later := Apply(History(events[..p]), EventAction(events[p])), events[p + 1..];
      written.Some? && History(events) == AfterRefunds(Reported(written.value, later), FeeRecords(later))
  {
    RunFrom(events, p);
    NoneAfter(events, p, IsTxWrite);
    RecordsOnStored(Apply(History(events[..p]), EventAction(events[p])).value, events[p + 1..]);
  }

  /**
   * A destination write of a simple transfer keeps the fee but drops the refund flag: the refunds that
   * follow it are taken from what was paid again, and those before it no longer count.
   */
  lemma TransferRefundsRestart(events: seq<TxEvent>, p: nat)
    requires OtherHistory(events) && LastTransferWrite(events, p, false) && !events[p].tx.hadRefund
    requires var refunds := FeeRecords(events[p + 1..]);
      && AreRefunds(refunds) && refunds != [] && HasFees(Marshal(events[p].tx))
      && TotalFee(refunds) < events[p].tx.initialPaidFee.value
    requires History(events[..p]).Some? ==> History(events[..p]).value.fee.Some?
    ensures History(events).Some?
    ensures History(events).value.fee == Some(events[p].tx.initialPaidFee.value - TotalFee(FeeRecords(events[p + 1..])))
  {
    LastWriteSummary(events, p);
    var written, later := Apply(History(events[..p]), EventAction(events[p])).value, events[p + 1..];
    RefundedAfterAll(Reported(written, later), FeeRecords(later));
  }

  /**
   * A source write brings its own fee and keeps the flag: refunds that follow it are taken from that fee
   * if the transaction had a refund before, and from what was paid if it had none.
   */
  lemma TransferRefundsContinue(events: seq<TxEvent>, p: nat)
    requires OtherHistory(events) && LastTransferWrite(events, p, true) && History(events[..p]).Some?
    requires var stored, refunds, tx := History(events[..p]).value, FeeRecords(events[p + 1..]), events[p].tx;
      && AreRefunds(refunds) && refunds != [] && stored.initialPaidFee.Some? && tx.fee.Some?
      && TotalFee(refunds) < if stored.hadRefund == Some(true) then tx.fee.value else stored.initialPaidFee.value
    ensures History(events).Some?
    ensures var stored, tx := History(events[..p]).value, events[p].tx;
      var paid := if stored.hadRefund == Some(true) then tx.fee.value else stored.initialPaidFee.value;
      History(events).value.fee == Some(paid - TotalFee(FeeRecords(events[p + 1..])))
  {
    LastWriteSummary(events, p);
    var stored, later := History(events[..p]).value, events[p + 1..];
    var written := Apply(History(events[..p]), EventAction(events[p])).value;
    if stored.hadRefund == Some(true) {
      RefundedFurther(Reported(written, later), FeeRecords(later));
    } else {
      RefundedAfterAll(Reported(written, later), FeeRecords(later));
    }
  }

  /** Paid 10, refunds of 3 before and 2 after the destination's write: the fee left is 8 instead of 5. */
  lemma RefundIsForgotten(tx: Transaction, f: FeeData, g: FeeData)
    requires IsCrossShard(tx) && IsSimpleESDTTransfer(tx) && !tx.hadRefund
    requires tx.initialPaidFee == tx.fee == Some(10) && tx.gasUsed == 100
    requires f == FeeData(3, 0, 0.0, 30) && g == FeeData(2, 0, 0.0, 20)
    ensures var source, destination := TxWrite(tx, tx.body.senderShard), TxWrite(tx, tx.body.receiverShard);
      var doc := History([source, FeeWrite(f), destination, FeeWrite(g)]);
      doc.Some? && doc.value.fee == Some(8) && doc.value.gasUsed == 50
  {
    var source, destination := TxWrite(tx, tx.body.senderShard), TxWrite(tx, tx.body.receiverShard);
    RunTwo(None, EventAction, source, FeeWrite(f));
    var events := [source, FeeWrite(f)];
    RunTwo(History(events), EventAction, destination, FeeWrite(g));
    assert [source, FeeWrite(f), destination, FeeWrite(g)] == events + [destination, FeeWrite(g)];
    RunAppend(None, events, [destination, FeeWrite(g)]);
  }
}
