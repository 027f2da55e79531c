/**
 * Documents of the transactions and operations indices: which bulk entry a shard's indexer writes for
 * a transaction, a status record or a fee record, and the Painless scripts those entries carry. Each
 * script is a method on `ctx` proved equal to a function of the stored document.
 */
module TransactionScripts {
  import opened Wrappers
  import opened ElasticIndex
  import Strings

  const STATUS_FAIL := "fail"
  const STATUS_SUCCESS := "success"
  const ESDT_TRANSFER := "ESDTTransfer"
  const ESDT_NFT_TRANSFER := "ESDTNFTTransfer"
  const MULTI_ESDT_NFT_TRANSFER := "MultiESDTNFTTransfer"
  const MIN_NFT_ARGUMENTS := 4

  /** The fields no script assigns one by one. */
  datatype TxBody = TxBody(
    senderShard: nat, receiverShard: nat, data: string, operation: string, calledFunction: string, rest: string)

  datatype Transaction = Transaction(
    body: TxBody, status: string, gasUsed: nat, fee: Option<int>, feeNum: real,
    initialPaidFee: Option<int>, hadRefund: bool, errorEvent: bool, completedEvent: bool)

  /**
   * A stored document. None is an absent field; for the fee amounts it also stands for the empty
   * string, which the scripts treat like an absent one.
   */
  datatype TxDoc = TxDoc(
    body: TxBody, status: string, gasUsed: nat, fee: Option<int>, feeNum: real,
    initialPaidFee: Option<int>, hadRefund: Option<bool>, errorEvent: Option<bool>, completedEvent: Option<bool>)

  datatype StatusInfo = StatusInfo(status: string, errorEvent: bool, completedEvent: bool)

  datatype FeeData = FeeData(fee: int, gasUsed: nat, feeNum: real, gasRefunded: nat)

  /** `omitempty` on a boolean field. */
  function Flag(b: bool): Option<bool> {
    if b then Some(true) else None
  }

  function Marshal(tx: Transaction): TxDoc {
    TxDoc(tx.body, tx.status, tx.gasUsed, tx.fee, tx.feeNum, tx.initialPaidFee,
          Flag(tx.hadRefund), Flag(tx.errorEvent), Flag(tx.completedEvent))
  }

  /** The transaction a status record inserts when its transaction is not stored yet. */
  function StatusOnly(info: StatusInfo): Transaction {
    Transaction(TxBody(0, 0, "", "", "", ""), info.status, 0, None, 0.0, None, false,
                info.errorEvent, info.completedEvent)
  }

  // ---------------------------------------------------------------- routing

  predicate IsCrossShard(tx: Transaction) {
    tx.body.senderShard != tx.body.receiverShard
  }

  predicate IsCrossShardOnSourceShard(tx: Transaction, selfShard: nat) {
    IsCrossShard(tx) && tx.body.senderShard == selfShard
  }

  predicate IsSimpleESDTTransfer(tx: Transaction) {
    tx.body.operation == ESDT_TRANSFER && tx.body.calledFunction == ""
  }

  predicate IsNFTTransferOrMultiTransfer(tx: Transaction) {
    !IsCrossShard(tx) &&
    var split := Strings.Split(tx.body.data, '@');
    |split| >= MIN_NFT_ARGUMENTS && (split[0] == ESDT_NFT_TRANSFER || split[0] == MULTI_ESDT_NFT_TRANSFER)
  }

  predicate IsSimpleESDTTransferCrossShardOnDestination(tx: Transaction, selfShard: nat) {
    IsSimpleESDTTransfer(tx) && IsCrossShard(tx) && tx.body.receiverShard == selfShard
  }

  // ---------------------------------------------------------------- scripts

  function TransferOnSource(stored: Option<TxDoc>, tx: TxDoc): Outcome<TxDoc> {
    match stored
    case None => Write(tx)
    case Some(doc) => Write(doc.(gasUsed := tx.gasUsed, fee := tx.fee, feeNum := tx.feeNum))
  }

  method RunTransferOnSource(ctx: Context<TxDoc>, tx: TxDoc)
    requires ctx.Ready()
    modifies ctx
    ensures ctx.Outcome() == TransferOnSource(old(ctx.Stored()), tx)
  {
    if ctx.op == OpCreate {
      ctx.source := tx;
    } else {
      ctx.source := ctx.source.(gasUsed := tx.gasUsed);
      ctx.source := ctx.source.(fee := tx.fee);
      ctx.source := ctx.source.(feeNum := tx.feeNum);
    }
  }

  function TransferOnDestination(stored: Option<TxDoc>, tx: TxDoc): Outcome<TxDoc> {
    match stored
    case None => Write(tx)
    case Some(doc) => Write(tx.(gasUsed := doc.gasUsed, fee := doc.fee, feeNum := doc.feeNum))
  }

  method RunTransferOnDestination(ctx: Context<TxDoc>, tx: TxDoc)
    requires ctx.Ready()
    modifies ctx
    ensures ctx.Outcome() == TransferOnDestination(old(ctx.Stored()), tx)
  {
    if ctx.op == OpCreate {
      ctx.source := tx;
    } else {
      var gasUsed := ctx.source.gasUsed;
      var fee := ctx.source.fee;
      var feeNum := ctx.source.feeNum;
      ctx.source := tx;
      ctx.source := ctx.source.(gasUsed := gasUsed);
      ctx.source := ctx.source.(fee := fee);
      ctx.source := ctx.source.(feeNum := feeNum);
    }
  }

  function OrElse<T>(first: Option<T>, second: Option<T>): Option<T> {
    if first.Some? then first else second
  }

  function NFTTransfer(stored: Option<TxDoc>, tx: TxDoc): Outcome<TxDoc> {
    match stored
    case None => Write(tx)
    case Some(doc) => Write(tx.(
        status := if doc.status != "" then doc.status else tx.status,
        errorEvent := OrElse(doc.errorEvent, tx.errorEvent),
        completedEvent := OrElse(doc.completedEvent, tx.completedEvent)))
  }

  method RunNFTTransfer(ctx: Context<TxDoc>, tx: TxDoc)
    requires ctx.Ready()
    modifies ctx
    ensures ctx.Outcome() == NFTTransfer(old(ctx.Stored()), tx)
  {
    if ctx.op == OpCreate {
      ctx.source := tx;
    } else {
      var status := ctx.source.status;
      var errorEvent := ctx.source.errorEvent;
      var completedEvent := ctx.source.completedEvent;
      ctx.source := tx;
      if status != "" {
        ctx.source := ctx.source.(status := status);
      }
      if errorEvent.Some? {
        ctx.source := ctx.source.(errorEvent := errorEvent);
      }
      if completedEvent.Some? {
        ctx.source := ctx.source.(completedEvent := completedEvent);
      }
    }
  }

  function WithStatus(doc: TxDoc, info: StatusInfo): TxDoc {
    doc.(
    status := if info.status != "" then info.status else doc.status,
    completedEvent := if info.completedEvent then Some(true) else doc.completedEvent,
    errorEvent := if info.errorEvent then Some(true) else doc.errorEvent)
  }

  /** This script runs on stored documents only: a missing one is inserted from `upsert`. */
  method RunStatus(ctx: Context<TxDoc>, info: StatusInfo)
    requires ctx.op == OpIndex
    modifies ctx
    ensures ctx.Outcome() == Write(WithStatus(old(ctx.source), info))
  {
    if info.status != "" {
      ctx.source := ctx.source.(status := info.status);
    }
    if info.completedEvent {
      ctx.source := ctx.source.(completedEvent := Some(info.completedEvent));
    }
    if info.errorEvent {
      ctx.source := ctx.source.(errorEvent := Some(info.errorEvent));
    }
  }

  /** Whether the refund script finds both amounts it computes with. */
  predicate HasFees(doc: TxDoc) {
    doc.initialPaidFee.Some? && doc.fee.Some?
  }

  function Refund(stored: Option<TxDoc>, f: FeeData): Outcome<TxDoc> {
    match stored
    case None => Keep
    case Some(doc) =>
      if !HasFees(doc) then Write(doc)
      else
        var paid := if doc.hadRefund == Some(true) then doc.fee.value else doc.initialPaidFee.value;
        Write(doc.(
          hadRefund := Some(true),
          fee := if paid > f.fee then Some(paid - f.fee) else doc.fee,
          feeNum := if doc.feeNum > f.feeNum then doc.feeNum - f.feeNum else doc.feeNum,
          gasUsed := if doc.gasUsed > f.gasRefunded then doc.gasUsed - f.gasRefunded else doc.gasUsed))
  }

  method RunRefund(ctx: Context<TxDoc>, f: FeeData)
    requires ctx.Ready()
    modifies ctx
    ensures ctx.Outcome() == Refund(old(ctx.Stored()), f)
  {
    if ctx.op == OpCreate {
      ctx.op := OpNoop;
    } else {
      var ok1 := ctx.source.initialPaidFee.Some?;
      var ok2 := ctx.source.fee.Some?;
      if !ok1 || !ok2 {
        return;
      }
      var feeFromSource: int;
      if ctx.source.hadRefund.Some? && ctx.source.hadRefund.value {
        feeFromSource := ctx.source.fee.value;
      } else {
        feeFromSource := ctx.source.initialPaidFee.value;
        ctx.source := ctx.source.(hadRefund := Some(true));
      }
      if feeFromSource > f.fee {
        ctx.source := ctx.source.(fee := Some(feeFromSource - f.fee));
      }
      if ctx.source.feeNum > f.feeNum {
        ctx.source := ctx.source.(feeNum := ctx.source.feeNum - f.feeNum);
      }
      if ctx.source.gasUsed > f.gasRefunded {
        ctx.source := ctx.source.(gasUsed := ctx.source.gasUsed - f.gasRefunded);
      }
    }
  }

  function OverwriteFee(stored: Option<TxDoc>, f: FeeData): Outcome<TxDoc> {
    match stored
    case None => Keep
    case Some(doc) => Write(doc.(fee := Some(f.fee), feeNum := f.feeNum, gasUsed := f.gasUsed))
  }

  method RunOverwriteFee(ctx: Context<TxDoc>, f: FeeData)
    requires ctx.Ready()
    modifies ctx
    ensures ctx.Outcome() == OverwriteFee(old(ctx.Stored()), f)
  {
    if ctx.op == OpCreate {
      ctx.op := OpNoop;
    } else {
      ctx.source := ctx.source.(fee := Some(f.fee));
      ctx.source := ctx.source.(feeNum := f.feeNum);
      ctx.source := ctx.source.(gasUsed := f.gasUsed);
    }
  }

  // ---------------------------------------------------------------- bulk entries

  function TransactionAction(tx: Transaction, selfShard: nat): Action<TxDoc> {
    if IsCrossShardOnSourceShard(tx, selfShard) then
      if IsSimpleESDTTransfer(tx) then ScriptedUpsert(stored => TransferOnSource(stored, Marshal(tx)))
      else Update(doc => Write(doc), Marshal(tx))
    else if IsNFTTransferOrMultiTransfer(tx) then
      ScriptedUpsert(stored => NFTTransfer(stored, Marshal(tx)))
    else if IsSimpleESDTTransferCrossShardOnDestination(tx, selfShard) then
      ScriptedUpsert(stored => TransferOnDestination(stored, Marshal(tx)))
    else Index(Marshal(tx))
  }

  function StatusAction(info: StatusInfo): Action<TxDoc> {
    Update(doc => Write(WithStatus(doc, info)), Marshal(StatusOnly(info)))
  }

  function FeeAction(f: FeeData): Action<TxDoc> {
    if f.gasRefunded != 0 then ScriptedUpsert(stored => Refund(stored, f))
    else ScriptedUpsert(stored => OverwriteFee(stored, f))
  }

  /** Everything a shard's indexer may send for one transaction document. */
  datatype TxEvent =
    | TxWrite(tx: Transaction, selfShard: nat)
    | StatusWrite(info: StatusInfo)
    | FeeWrite(feeData: FeeData)

  function EventAction(e: TxEvent): Action<TxDoc> {
    match e
    case TxWrite(tx, selfShard) => TransactionAction(tx, selfShard)
    case StatusWrite(info) => StatusAction(info)
    case FeeWrite(f) => FeeAction(f)
  }

  /** The document of one transaction after a history of bulk entries, starting from nothing stored. */
  function History(events: seq<TxEvent>): Option<TxDoc> {
    Run(None, EventAction, events)
  }
}
