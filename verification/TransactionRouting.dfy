/**
 * Which bulk entry a transaction gets, from its shards, operation, function and data, and what the entry
 * leaves field by field.
 */
module TransactionRouting {
  import opened Wrappers
  import opened ElasticIndex
  import opened TransactionScripts
  import opened Strings
  import TransactionConvergence
  import ReplacingWrites
  import Refunds
  import NFTRefunds

  // ---------------------------------------------------------------- fields

  /** Whatever entry a transaction gets, it inserts the transaction where none is stored. */
  lemma Inserts(tx: Transaction, selfShard: nat)
    ensures Apply(None, TransactionAction(tx, selfShard)) == Some(Marshal(tx))
  {
  }

  lemma OneEvent(e: TxEvent)
    ensures History([e]) == Apply(None, EventAction(e))
  {
    assert [] + [e] == [e];
    RunLast(None, EventAction, [], e);
    assert Run(None, EventAction, []) == None;
  }

  /** The first write of a transaction stores its fields as they are, and its flags when they are set. */
  lemma FirstWrite(tx: Transaction, selfShard: nat)
    ensures History([TxWrite(tx, selfShard)]) == Some(TxDoc(
      TxBody(tx.body.senderShard, tx.body.receiverShard, tx.body.data, tx.body.operation, tx.body.calledFunction, tx.body.rest),
      tx.status, tx.gasUsed, tx.fee, tx.feeNum, tx.initialPaidFee,
      if tx.hadRefund then Some(true) else None,
      if tx.errorEvent then Some(true) else None,
      if tx.completedEvent then Some(true) else None))
  {
    OneEvent(TxWrite(tx, selfShard));
    Inserts(tx, selfShard);
  }

  /** A status record alone leaves a document with nothing but its status and flags. */
  lemma FirstStatus(info: StatusInfo)
    ensures History([StatusWrite(info)]) == Some(TxDoc(
      TxBody(0, 0, "", "", "", ""), info.status, 0, None, 0.0, None, None,
      if info.errorEvent then Some(true) else None,
      if info.completedEvent then Some(true) else None))
  {
    OneEvent(StatusWrite(info));
  }

  // ---------------------------------------------------------------- between two shards

  /** A write on the source shard, over a stored document: gas and fees of a simple transfer, and otherwise nothing. */
  lemma SourceWrite(doc: TxDoc, tx: Transaction)
    requires tx.body.senderShard != tx.body.receiverShard
    ensures Apply(Some(doc), TransactionAction(tx, tx.body.senderShard)) == Some(
      if tx.body.operation == "ESDTTransfer" && tx.body.calledFunction == ""
      then doc.(gasUsed := tx.gasUsed, fee := tx.fee, feeNum := tx.feeNum) else doc)
  {
  }

  /** A write by another shard than the source: everything, but gas and fees when it is the destination of a simple transfer. */
  lemma DestinationWrite(doc: TxDoc, tx: Transaction, selfShard: nat)
    requires tx.body.senderShard != tx.body.receiverShard && selfShard != tx.body.senderShard
    ensures History([TxWrite(tx, selfShard)]).Some?
    ensures var fresh_ := History([TxWrite(tx, selfShard)]).value;
      Apply(Some(doc), TransactionAction(tx, selfShard)) == Some(
        if tx.body.operation == "ESDTTransfer" && tx.body.calledFunction == "" && tx.body.receiverShard == selfShard
        then fresh_.(gasUsed := doc.gasUsed, fee := doc.fee, feeNum := doc.feeNum) else fresh_)
  {
    FirstWrite(tx, selfShard);
  }

  // ---------------------------------------------------------------- inside one shard

  /** Data that call an NFT or multi transfer with at least three arguments. */
  predicate CallsNFTTransfer(name: string, arguments: seq<string>) {
    |arguments| >= 3 && (name == "ESDTNFTTransfer" || name == "MultiESDTNFTTransfer")
  }

  lemma NFTRouting(tx: Transaction, name: string, arguments: seq<string>)
    requires '@' !in name && forall a :: a in arguments ==> '@' !in a
    requires tx.body.data == Join([name] + arguments, '@')
    ensures IsNFTTransferOrMultiTransfer(tx) <==>
      tx.body.senderShard == tx.body.receiverShard && CallsNFTTransfer(name, arguments)
  {
    var parts := [name] + arguments;
    assert forall p :: p in parts ==> '@' !in p;
    SplitJoin(parts, '@');
  }

  /**
   * A write inside one shard, over a stored document: an NFT or multi transfer keeps a status and flags
   * already there, and every other transaction replaces them.
   */
  lemma IntraShardWrite(doc: TxDoc, tx: Transaction, selfShard: nat, name: string, arguments: seq<string>)
    requires tx.body.senderShard == tx.body.receiverShard
    requires '@' !in name && forall a :: a in arguments ==> '@' !in a
    requires tx.body.data == Join([name] + arguments, '@')
    ensures History([TxWrite(tx, selfShard)]).Some?
    ensures var fresh_ := History([TxWrite(tx, selfShard)]).value;
      Apply(Some(doc), TransactionAction(tx, selfShard)) == Some(
        if CallsNFTTransfer(name, arguments)
        then fresh_.(
          status := if doc.status != "" then doc.status else tx.status,
          errorEvent := if doc.errorEvent.Some? then doc.errorEvent else fresh_.errorEvent,
          completedEvent := if doc.completedEvent.Some? then doc.completedEvent else fresh_.completedEvent)
        else fresh_)
  {
    FirstWrite(tx, selfShard);
    NFTRouting(tx, name, arguments);
  }

  /** All data can be taken apart like this. */
  lemma DataAreCalls(data: string)
    ensures var parts := Split(data, '@'); parts != [] && data == Join([parts[0]] + parts[1..], '@')
  {
    JoinSplit(data, '@');
    var parts := Split(data, '@');
    assert [parts[0]] + parts[1..] == parts;
  }

  /** A failure recorded before the write of an NFT transfer shows; before any other write of its shard it is lost. */
  lemma EarlyFailure(tx: Transaction, selfShard: nat, name: string, arguments: seq<string>)
    requires tx.body.senderShard == tx.body.receiverShard && tx.status == "success" && !tx.errorEvent
    requires '@' !in name && forall a :: a in arguments ==> '@' !in a
    requires tx.body.data == Join([name] + arguments, '@')
    ensures var after := History([StatusWrite(StatusInfo("fail", true, false)), TxWrite(tx, selfShard)]);
      && after.Some?
      && after.value.status == (if CallsNFTTransfer(name, arguments) then "fail" else "success")
      && after.value.errorEvent == (if CallsNFTTransfer(name, arguments) then Some(true) else None)
  {
    var failure := StatusWrite(StatusInfo("fail", true, false));
    RunTwo(None, EventAction, failure, TxWrite(tx, selfShard));
    FirstStatus(StatusInfo("fail", true, false));
    OneEvent(failure);
    FirstWrite(tx, selfShard);
    IntraShardWrite(History([failure]).value, tx, selfShard, name, arguments);
  }

  // ---------------------------------------------------------------- records

  /** A status record over a stored document overwrites the status when it has one, and only raises flags. */
  lemma StatusRecordWrite(doc: TxDoc, status: string, errorEvent: bool, completedEvent: bool)
    ensures Apply(Some(doc), StatusAction(StatusInfo(status, errorEvent, completedEvent))) == Some(doc.(
      status := if status == "" then doc.status else status,
      errorEvent := if errorEvent then Some(true) else doc.errorEvent,
      completedEvent := if completedEvent then Some(true) else doc.completedEvent))
  {
  }

  // ---------------------------------------------------------------- histories

  /** A status record with this status, and one that raises a flag. */
  predicate HasStatus(events: seq<TxEvent>, status: string) {
    exists e :: e in events && e.StatusWrite? && e.info.status == status
  }

  predicate ReportsError(events: seq<TxEvent>) {
    exists e :: e in events && e.StatusWrite? && e.info.errorEvent
  }

  predicate ReportsCompletion(events: seq<TxEvent>) {
    exists e :: e in events && e.StatusWrite? && e.info.completedEvent
  }

  /**
   * One NFT transfer, written at least once among status records without a status or with `fail`: in every
   * order it ends as written, failed if a record failed, and with the flags of all of them.
   */
  lemma NFTTransferHistory(events: seq<TxEvent>, tx: Transaction, name: string, arguments: seq<string>)
    requires tx.body.senderShard == tx.body.receiverShard && tx.status != ""
    requires '@' !in name && (forall a :: a in arguments ==> '@' !in a) && tx.body.data == Join([name] + arguments, '@')
    requires CallsNFTTransfer(name, arguments)
    requires exists e :: e in events && e.TxWrite?
    requires forall e :: e in events ==> !e.FeeWrite? && (e.TxWrite? ==> e.tx == tx)
    requires forall e :: e in events && e.StatusWrite? ==> e.info.status == "" || e.info.status == "fail"
    ensures History(events) == Some(TxDoc(
      tx.body, if HasStatus(events, "fail") then "fail" else tx.status, tx.gasUsed, tx.fee, tx.feeNum, tx.initialPaidFee,
      if tx.hadRefund then Some(true) else None,
      if tx.errorEvent || ReportsError(events) then Some(true) else None,
      if tx.completedEvent || ReportsCompletion(events) then Some(true) else None))
  {
    NFTRouting(tx, name, arguments);
    TransactionConvergence.NFTDocument(events, tx);
    var w :| w in events && w.TxWrite?;
    assert tx.errorEvent ==> TransactionConvergence.RaisesError(w);
    assert tx.completedEvent ==> TransactionConvergence.RaisesCompleted(w);
    assert TransactionConvergence.ErrorRecorded(events) <==> tx.errorEvent || ReportsError(events) by {
      if e :| e in events && e.StatusWrite? && e.info.errorEvent {
        assert TransactionConvergence.RaisesError(e);
      }
    }
    assert TransactionConvergence.CompletionRecorded(events) <==> tx.completedEvent || ReportsCompletion(events) by {
      if e :| e in events && e.StatusWrite? && e.info.completedEvent {
        assert TransactionConvergence.RaisesCompleted(e);
      }
    }
  }

  /**
   * The same among fee records, all of them refunds that stay below what the transaction paid and used: gas
   * is conserved over all of them exactly when none came before a write, and the fee then as well.
   */
  lemma NFTTransferRefunds(events: seq<TxEvent>, tx: Transaction, name: string, arguments: seq<string>)
    requires tx.body.senderShard == tx.body.receiverShard && tx.status != ""
    requires '@' !in name && (forall a :: a in arguments ==> '@' !in a) && tx.body.data == Join([name] + arguments, '@')
    requires CallsNFTTransfer(name, arguments)
    requires exists e :: e in events && e.TxWrite?
    requires forall e :: e in events && e.TxWrite? ==> e.tx == tx
    requires forall e :: e in events && e.StatusWrite? ==> e.info.status == "" || e.info.status == "fail"
    requires forall f :: f in Refunds.FeeRecords(events) ==> f.gasRefunded != 0 && f.fee >= 0
    requires tx.initialPaidFee.Some? && tx.fee.Some? && !tx.hadRefund
    requires Refunds.TotalFee(Refunds.FeeRecords(events)) < tx.initialPaidFee.value
    requires Refunds.TotalGas(Refunds.FeeRecords(events)) < tx.gasUsed
    ensures History(events).Some?
    ensures var doc, refunds := History(events).value, Refunds.FeeRecords(events);
      var inTime := forall i, j :: 0 <= i < j < |events| && events[i].FeeWrite? ==> !events[j].TxWrite?;
      && (doc.gasUsed == tx.gasUsed - Refunds.TotalGas(refunds) <==> inTime)
      && (inTime && refunds != [] ==> doc.fee == Some(tx.initialPaidFee.value - Refunds.TotalFee(refunds)))
  {
    NFTRouting(tx, name, arguments);
    NFTRefunds.RefundsSurviveExactly(events, tx);
  }

  /** A write of transaction `source` by its sender's shard, or of `destination` by its receiver's. */
  predicate OneOfBoth(e: TxEvent, source: Transaction, destination: Transaction) {
    e.TxWrite? && e.tx.body.senderShard != e.tx.body.receiverShard &&
    if e.selfShard == e.tx.body.senderShard then e.tx == source else e.selfShard == e.tx.body.receiverShard && e.tx == destination
  }

  predicate BothWrote(events: seq<TxEvent>) {
    && (exists e :: e in events && e.TxWrite? && e.selfShard == e.tx.body.senderShard)
    && (exists e :: e in events && e.TxWrite? && e.selfShard != e.tx.body.senderShard)
  }

  /** A transaction between two shards, written by both at least once: the destination's, with the source's gas and fees if it is a simple transfer. */
  lemma CrossShardHistory(events: seq<TxEvent>, source: Transaction, destination: Transaction)
    requires (forall e :: e in events ==> OneOfBoth(e, source, destination)) && BothWrote(events)
    requires var simple := (tx: Transaction) => tx.body.operation == "ESDTTransfer" && tx.body.calledFunction == "";
      simple(source) == simple(destination)
    ensures var doc := if source.body.operation == "ESDTTransfer" && source.body.calledFunction == ""
        then destination.(gasUsed := source.gasUsed, fee := source.fee, feeNum := source.feeNum) else destination;
      History(events) == Some(TxDoc(
        doc.body, doc.status, doc.gasUsed, doc.fee, doc.feeNum, doc.initialPaidFee,
        if doc.hadRefund then Some(true) else None,
        if doc.errorEvent then Some(true) else None,
        if doc.completedEvent then Some(true) else None))
  {
    assert forall e :: e in events ==> TransactionConvergence.CrossShardEvent(e);
    if source.body.operation == "ESDTTransfer" && source.body.calledFunction == "" {
      TransactionConvergence.SimpleTransferConvergence(events, source, destination);
    } else {
      TransactionConvergence.OtherTransferSummary(events);
    }
  }

  /** Transactions with neither the NFT script nor the one for simple transfers, among status and fee records. */
  lemma PlainEvents(events: seq<TxEvent>)
    requires forall e :: e in events && e.StatusWrite? ==> e.info.status == "" || e.info.status == "fail"
    requires forall e :: e in events && e.TxWrite? ==>
      if e.tx.body.senderShard == e.tx.body.receiverShard
      then !CallsNFTTransfer(Split(e.tx.body.data, '@')[0], Split(e.tx.body.data, '@')[1..])
      else e.tx.body.operation != "ESDTTransfer" || e.tx.body.calledFunction != ""
    ensures ReplacingWrites.PlainHistory(events)
  {
  }
}
