/**
 * Histories of one NFT or multi transfer in which fee records come between the transaction's writes
 * and its status records. A write replaces the fees with its own, so a refund must come after it.
 */
module NFTRefunds {
  import opened Wrappers
  import opened ElasticIndex
  import opened TransactionScripts
  import opened TransactionConvergence
  import opened Refunds

  predicate IsFeeWrite(e: TxEvent) {
    e.FeeWrite?
  }

  predicate MixedHistory(events: seq<TxEvent>) {
    forall e :: e in events ==> IsFeeWrite(e) || NFTEvent(e)
  }

  function WithoutFees(events: seq<TxEvent>): seq<TxEvent> {
    OfKey(events, IsFeeWrite, false)
  }

  /** The fee records since the transaction was last written, or since anything was stored at all. */
  function FeesSinceWrite(events: seq<TxEvent>): seq<FeeData> {
    if events == [] then []
    else
      var init := events[..|events| - 1];
      match events[|events| - 1]
      case TxWrite(_, _) => []
      case StatusWrite(_) => FeesSinceWrite(init)
      case FeeWrite(f) => if WithoutFees(init) == [] then [] else FeesSinceWrite(init) + [f]
  }

  // ---------------------------------------------------------------- the document

  /** A write reads nothing that fee records change. */
  lemma WriteIgnoresFees(doc: TxDoc, e: TxEvent, records: seq<FeeData>)
    requires NFTEvent(e) && e.TxWrite?
    ensures Apply(AfterRefunds(doc, records), EventAction(e)) == Apply(Some(doc), EventAction(e))
  {
    OnlyFeesChange(Some(doc), records);
  }

  lemma {:induction false} NothingToRefund(events: seq<TxEvent>)
    ensures WithoutFees(events) == [] ==> FeesSinceWrite(events) == []
  {
    if events != [] {
      NothingToRefund(events[..|events| - 1]);
    }
  }

  /** The document left, given the events without fee records and the fee records that count. */
  function WithRefunds(stored: Option<TxDoc>, records: seq<FeeData>): Option<TxDoc> {
    if stored.None? then None else AfterRefunds(stored.value, records)
  }

  lemma FeeStep(base: seq<TxEvent>, fees: seq<FeeData>, f: FeeData)
    ensures Apply(WithRefunds(NFTSummary(base), fees), FeeAction(f))
         == WithRefunds(NFTSummary(base), if base == [] then [] else fees + [f])
  {
    if base != [] {
      RunLast(NFTSummary(base), FeeAction, fees, f);
    }
  }

  lemma OtherStep(base: seq<TxEvent>, fees: seq<FeeData>, e: TxEvent)
    requires NFTHistory(base) && NFTEvent(e) && (base == [] ==> fees == [])
    ensures Apply(WithRefunds(NFTSummary(base), fees), EventAction(e))
         == WithRefunds(NFTSummary(base + [e]), if e.TxWrite? then [] else fees)
  {
    NFTStep(base, e);
    if base != [] {
      var doc := NFTSummary(base).value;
      if e.TxWrite? {
        WriteIgnoresFees(doc, e, fees);
      } else {
        FeesIgnoreStatus(doc, e.info, fees);
      }
    }
  }

  lemma MixedStep(events: seq<TxEvent>, e: TxEvent)
    requires MixedHistory(events) && (IsFeeWrite(e) || NFTEvent(e))
    ensures Apply(WithRefunds(NFTSummary(WithoutFees(events)), FeesSinceWrite(events)), EventAction(e))
         == WithRefunds(NFTSummary(WithoutFees(events + [e])), FeesSinceWrite(events + [e]))
  {
    var base, fees := WithoutFees(events), FeesSinceWrite(events);
    assert (events + [e])[..|events|] == events;
    OfKeyLast(events, e, IsFeeWrite, false);
    NothingToRefund(events);
    if e.FeeWrite? {
      assert WithoutFees(events + [e]) == base + [] == base;
      FeeStep(base, fees, e.feeData);
    } else {
      assert WithoutFees(events + [e]) == base + [e];
      OtherStep(base, fees, e);
    }
  }

  /**
   * Every history that mixes transaction writes, log records and fee records: the document is the one
   * of the history without fee records, with the fee records since the last write applied to it.
   */
  lemma {:induction false} MixedHistorySummary(events: seq<TxEvent>)
    requires MixedHistory(events)
    ensures History(events) == WithRefunds(NFTSummary(WithoutFees(events)), FeesSinceWrite(events))
  {
    if events != [] {
      var init, e := events[..|events| - 1], events[|events| - 1];
      assert events == init + [e];
      MixedHistorySummary(init);
      assert e in events;
      MixedStep(init, e);
      RunLast(None, EventAction, init, e);
    }
  }

  lemma SameRecorded(events: seq<TxEvent>, base: seq<TxEvent>)
    requires forall e :: e in base <==> e in events && !e.FeeWrite?
    ensures FailureRecorded(base) <==> FailureRecorded(events)
    ensures ErrorRecorded(base) <==> ErrorRecorded(events)
    ensures CompletionRecorded(base) <==> CompletionRecorded(events)
  {
  }

  /** In particular for the writes of one transaction. */
  lemma MixedDocument(events: seq<TxEvent>, tx: Transaction)
    requires MixedHistory(events) && WritesExactly(events, tx)
    ensures var written := tx.(
        status := if FailureRecorded(events) then STATUS_FAIL else tx.status,
        errorEvent := ErrorRecorded(events),
        completedEvent := CompletionRecorded(events));
      History(events) == AfterRefunds(Marshal(written), FeesSinceWrite(events))
  {
    var base := WithoutFees(events);
    assert forall e :: e in base <==> e in events && !e.FeeWrite?;
    MixedHistorySummary(events);
    SameRecorded(events, base);
    NFTHistorySummary(base);
    NFTDocument(base, tx);
  }

  // ---------------------------------------------------------------- which refunds survive

  /** The fee records a later write makes void, or that found nothing stored. */
  function LostRecords(events: seq<TxEvent>): seq<FeeData> {
    if events == [] then []
    else
      var init := events[..|events| - 1];
      match events[|events| - 1]
      case TxWrite(_, _) => FeeRecords(init)
      case StatusWrite(_) => LostRecords(init)
      case FeeWrite(f) => if WithoutFees(init) == [] then FeeRecords(init) + [f] else LostRecords(init)
  }

  lemma {:induction false} LostOrKept(events: seq<TxEvent>)
    ensures FeeRecords(events) == LostRecords(events) + FeesSinceWrite(events)
  {
    if events != [] {
      LostOrKept(events[..|events| - 1]);
    }
  }

  predicate RefundsFollowWrites(events: seq<TxEvent>) {
    forall i, j :: 0 <= i < j < |events| && events[i].FeeWrite? ==> !events[j].TxWrite?
  }

  lemma {:induction false} NothingLost(events: seq<TxEvent>)
    ensures LostRecords(events) == [] <==> RefundsFollowWrites(events) && (events == [] || !events[0].FeeWrite?)
  {
    if events != [] {
      var init, e := events[..|events| - 1], events[|events| - 1];
      assert events == init + [e];
      NothingLost(init);
      NoFeeRecords(init);
      if e.TxWrite? {
        assert forall i :: 0 <= i < |init| ==> init[i] in init;
        assert RefundsFollowWrites(events) ==> forall i :: 0 <= i < |init| ==> !events[i].FeeWrite?;
      } else {
        assert RefundsFollowWrites(events) <==> RefundsFollowWrites(init) by {
          assert forall i :: 0 <= i < |init| ==> events[i] == init[i];
        }
        if e.FeeWrite? && init != [] {
          assert WithoutFees(init) == [] ==> init[0] !in WithoutFees(init);
        }
      }
    }
  }

  lemma WriteComesFirst(events: seq<TxEvent>)
    requires RefundsFollowWrites(events) && exists e :: e in events && e.TxWrite?
    ensures events != [] && !events[0].FeeWrite?
  {
    var e :| e in events && e.TxWrite?;
    var j :| 0 <= j < |events| && events[j] == e;
  }

  lemma LostTotals(events: seq<TxEvent>)
    requires AreRefunds(FeeRecords(events)) && exists e :: e in events && e.TxWrite?
    ensures var refunds, kept := FeeRecords(events), FeesSinceWrite(events);
      && AreRefunds(kept) && TotalFee(kept) <= TotalFee(refunds) && TotalGas(kept) <= TotalGas(refunds)
      && (TotalGas(kept) == TotalGas(refunds) <==> RefundsFollowWrites(events))
      && (RefundsFollowWrites(events) ==> kept == refunds)
  {
    var lost, kept := LostRecords(events), FeesSinceWrite(events);
    LostOrKept(events);
    assert forall f :: f in lost || f in kept ==> f in FeeRecords(events);
    TotalsAppend(lost, kept);
    EveryRefundCounts(lost);
    NonNegativeFees(lost);
    NothingLost(events);
    if RefundsFollowWrites(events) {
      WriteComesFirst(events);
      assert lost + kept == kept;
    }
  }

  /**
   * The refunds of a transaction written among them are all conserved exactly when none of them came
   * before a write of the transaction: such a refund is lost.
   */
  lemma RefundsSurviveExactly(events: seq<TxEvent>, tx: Transaction)
    requires MixedHistory(events) && WritesExactly(events, tx)
    requires AreRefunds(FeeRecords(events)) && tx.initialPaidFee.Some? && tx.fee.Some? && !tx.hadRefund
    requires TotalFee(FeeRecords(events)) < tx.initialPaidFee.value && TotalGas(FeeRecords(events)) < tx.gasUsed
    ensures History(events).Some?
    ensures var doc, refunds := History(events).value, FeeRecords(events);
      && (doc.gasUsed == tx.gasUsed - TotalGas(refunds) <==> RefundsFollowWrites(events))
      && (RefundsFollowWrites(events) && refunds != [] ==> doc.fee == Some(tx.initialPaidFee.value - TotalFee(refunds)))
  {
    LostTotals(events);
    var written := tx.(
      status := if FailureRecorded(events) then STATUS_FAIL else tx.status,
      errorEvent := ErrorRecorded(events),
      completedEvent := CompletionRecorded(events));
    MixedDocument(events, tx);
    RefundedAfterAll(Marshal(written), FeesSinceWrite(events));
  }

  /** A refund between two writes of a transaction: gas and fee are back where they were. */
  lemma RefundIsLost(tx: Transaction, selfShard: nat, f: FeeData)
    requires IsNFTTransferOrMultiTransfer(tx) && tx.status != ""
    requires tx.initialPaidFee == Some(10) && tx.fee == Some(8) && tx.gasUsed == 100 && !tx.hadRefund
    requires f == FeeData(3, 0, 0.0, 5)
    ensures var w := TxWrite(tx, selfShard);
      && History([w, FeeWrite(f), w]) == Some(Marshal(tx))
      && History([w, FeeWrite(f)]).Some?
      && History([w, FeeWrite(f)]).value.gasUsed == 95 && History([w, FeeWrite(f)]).value.fee == Some(7)
  {
    var w := TxWrite(tx, selfShard);
    RunTwo(None, EventAction, w, FeeWrite(f));
    assert [w, FeeWrite(f), w] == [w, FeeWrite(f)] + [w];
    RunLast(None, EventAction, [w, FeeWrite(f)], w);
  }
}
