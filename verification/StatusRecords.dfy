/**
 * Status records collected from a block's logs: which records can exist, how records of one
 * transaction are folded, and why sending the fold is the same as sending the records.
 */
module StatusRecords {
  import opened Wrappers
  import opened ElasticIndex
  import opened TransactionScripts

  const WRITE_LOG := "writeLog"
  const SIGNAL_ERROR := "signalError"
  const COMPLETED_TX := "completedTxEvent"
  const INTERNAL_VM_ERRORS := "internalVMErrors"

  // ---------------------------------------------------------------- folding

  function Join(a: StatusInfo, b: StatusInfo): StatusInfo {
    StatusInfo(if a.status != STATUS_FAIL then b.status else a.status,
               a.errorEvent || b.errorEvent,
               a.completedEvent || b.completedEvent)
  }

  function Fold(records: seq<StatusInfo>): StatusInfo
    requires records != []
  {
    if |records| == 1 then records[0]
    else Join(Fold(records[..|records| - 1]), records[|records| - 1])
  }

  /** The statuses log processing can put into a record. */
  predicate IsLogRecord(r: StatusInfo) {
    r.status == "" || r.status == STATUS_FAIL
  }

  /** The fold of log records is their least upper bound: no order and no repetition shows in it. */
  lemma {:induction false} FoldOfLogRecords(records: seq<StatusInfo>)
    requires records != [] && forall r :: r in records ==> IsLogRecord(r)
    ensures IsLogRecord(Fold(records))
    ensures Fold(records).status == STATUS_FAIL <==> exists r :: r in records && r.status == STATUS_FAIL
    ensures Fold(records).errorEvent <==> exists r :: r in records && r.errorEvent
    ensures Fold(records).completedEvent <==> exists r :: r in records && r.completedEvent
  {
    if |records| > 1 {
      var init, r := records[..|records| - 1], records[|records| - 1];
      assert records == init + [r];
      FoldOfLogRecords(init);
      assert IsLogRecord(r);
    } else {
      assert records[0] in records;
    }
  }

  lemma FoldIgnoresOrder(records: seq<StatusInfo>, others: seq<StatusInfo>)
    requires records != [] && others != []
    requires forall r :: r in records ==> IsLogRecord(r)
    requires forall r :: r in records <==> r in others
    ensures Fold(records) == Fold(others)
  {
    FoldOfLogRecords(records);
    FoldOfLogRecords(others);
  }

  /** Sending the fold once is sending every record, for a stored and for a missing document alike. */
  lemma {:induction false} BatchingIsHomomorphic(stored: Option<TxDoc>, records: seq<StatusInfo>)
    requires records != [] && forall r :: r in records ==> IsLogRecord(r)
    ensures Run(stored, StatusAction, records) == Apply(stored, StatusAction(Fold(records)))
  {
    var init, r := records[..|records| - 1], records[|records| - 1];
    if |records| == 1 {
      assert init == [];
    } else {
      BatchingIsHomomorphic(stored, init);
      FoldOfLogRecords(init);
      assert r in records;
    }
  }

  /** For two arbitrary records, folding agrees with the script on every document exactly here. */
  predicate FoldAgrees(a: StatusInfo, b: StatusInfo) {
    if a.status == STATUS_FAIL then b.status == "" || b.status == STATUS_FAIL
    else a.status == "" || b.status != ""
  }

  lemma FoldActsLikeBoth(stored: Option<TxDoc>, a: StatusInfo, b: StatusInfo)
    requires FoldAgrees(a, b)
    ensures Run(stored, StatusAction, [a, b]) == Apply(stored, StatusAction(Join(a, b)))
  {
    RunTwo(stored, StatusAction, a, b);
  }

  lemma FoldDiffersOnMissing(a: StatusInfo, b: StatusInfo)
    requires !FoldAgrees(a, b)
    ensures Run(None, StatusAction, [a, b]) != Apply(None, StatusAction(Join(a, b)))
  {
    RunTwo(None, StatusAction, a, b);
    assert Apply(None, StatusAction(a)) == Some(Marshal(StatusOnly(a)));
    assert Apply(None, StatusAction(Join(a, b))) == Some(Marshal(StatusOnly(Join(a, b))));
    assert Apply(Some(Marshal(StatusOnly(a))), StatusAction(b)) == Some(WithStatus(Marshal(StatusOnly(a)), b));
  }

  lemma FoldAgreesExactly(a: StatusInfo, b: StatusInfo)
    ensures FoldAgrees(a, b) <==>
      forall stored: Option<TxDoc> :: Run(stored, StatusAction, [a, b]) == Apply(stored, StatusAction(Join(a, b)))
  {
    if FoldAgrees(a, b) {
      forall stored: Option<TxDoc>
        ensures Run(stored, StatusAction, [a, b]) == Apply(stored, StatusAction(Join(a, b)))
      {
        FoldActsLikeBoth(stored, a, b);
      }
    } else {
      FoldDiffersOnMissing(a, b);
    }
  }

  // ---------------------------------------------------------------- collecting

  /** A record as the collector keeps and updates it. */
  class StatusRecord {
    var status: string
    var errorEvent: bool
    var completedEvent: bool

    function View(): StatusInfo
      reads this
    {
      StatusInfo(status, errorEvent, completedEvent)
    }

    constructor ()
      ensures View() == StatusInfo("", false, false)
    {
      status, errorEvent, completedEvent := "", false, false;
    }
  }

  /** Joins a record into the one stored for the same transaction, in place. */
  method JoinInto(fromMap: StatusRecord, statusInfo: StatusRecord)
    requires fromMap != statusInfo
    modifies fromMap
    ensures fromMap.View() == Join(old(fromMap.View()), statusInfo.View())
  {
    if fromMap.status != STATUS_FAIL {
      fromMap.status := statusInfo.status;
    }
    fromMap.errorEvent := fromMap.errorEvent || statusInfo.errorEvent;
    fromMap.completedEvent := fromMap.completedEvent || statusInfo.completedEvent;
  }

  function Added(records: map<string, StatusInfo>, hash: string, r: StatusInfo): map<string, StatusInfo> {
    records[hash := if hash in records then Join(records[hash], r) else r]
  }

  class TxHashStatusInfo {
    var hashStatusInfo: map<string, StatusRecord>

    /** No two transactions share a record object. */
    ghost predicate Valid()
      reads this
    {
      forall h, k :: h in hashStatusInfo && k in hashStatusInfo && hashStatusInfo[h] == hashStatusInfo[k] ==> h == k
    }

    ghost function Contents(): map<string, StatusInfo>
      reads this, hashStatusInfo.Values
    {
      map h | h in hashStatusInfo :: hashStatusInfo[h].View()
    }

    constructor ()
      ensures Valid() && Contents() == map[] && hashStatusInfo == map[]
    {
      hashStatusInfo := map[];
    }

    method AddRecord(hash: string, statusInfo: StatusRecord)
      requires Valid() && statusInfo !in hashStatusInfo.Values
      modifies this, hashStatusInfo.Values
      ensures Valid() && hashStatusInfo.Values <= old(hashStatusInfo.Values) + {statusInfo}
      ensures Contents() == Added(old(Contents()), hash, old(statusInfo.View()))
    {
      if hash !in hashStatusInfo {
        hashStatusInfo := hashStatusInfo[hash := statusInfo];
        return;
      }
      JoinInto(hashStatusInfo[hash], statusInfo);
    }
  }

  // ---------------------------------------------------------------- log events

  /** An indexed transaction, as far as log events change it. */
  class LoggedTransaction {
    var info: StatusInfo
  }

  /** An event of the log of transaction or smart contract result `hash`. */
  datatype LogEvent = LogEvent(identifier: string, hash: string)

  predicate IsError(identifier: string) {
    identifier == SIGNAL_ERROR || identifier == INTERNAL_VM_ERRORS
  }

  predicate IsInformative(identifier: string) {
    identifier == WRITE_LOG || identifier == COMPLETED_TX || IsError(identifier)
  }

  function OnTransaction(tx: StatusInfo, identifier: string): StatusInfo {
    if identifier == COMPLETED_TX then tx.(completedEvent := true)
    else if identifier == WRITE_LOG then tx.(status := STATUS_SUCCESS)
    else if IsError(identifier) then tx.(status := STATUS_FAIL, errorEvent := true)
    else tx
  }

  /** The record an event of a smart contract result adds for its original transaction. */
  function RecordOf(identifier: string): Option<StatusInfo> {
    if identifier == COMPLETED_TX then Some(StatusInfo("", false, true))
    else if IsError(identifier) then Some(StatusInfo(STATUS_FAIL, true, false))
    else None
  }

  /** Events of a smart contract result whose transaction is not in the block, and not anonymous. */
  predicate AddsRecord(e: LogEvent, txs: set<string>, scrs: map<string, string>) {
    e.hash !in txs && e.hash in scrs && scrs[e.hash] != "" && RecordOf(e.identifier).Some?
  }

  /** Records the events add for transaction `hash`, in order; `scrs` gives each result's original hash. */
  function RecordsFor(events: seq<LogEvent>, txs: set<string>, scrs: map<string, string>, hash: string): seq<StatusInfo> {
    if events == [] then []
    else
      var e := events[|events| - 1];
      var r := RecordOf(e.identifier);
      RecordsFor(events[..|events| - 1], txs, scrs, hash) +
      if AddsRecord(e, txs, scrs) && scrs[e.hash] == hash then [r.value] else []
  }

  function TransactionAfter(tx: StatusInfo, events: seq<LogEvent>, hash: string): StatusInfo {
    if events == [] then tx
    else
      var before := TransactionAfter(tx, events[..|events| - 1], hash);
      var e := events[|events| - 1];
      if e.hash == hash then OnTransaction(before, e.identifier) else before
  }

  /** What the collector holds once the events are processed: one fold per transaction with a record. */
  ghost function Collected(events: seq<LogEvent>, txs: set<string>, scrs: map<string, string>): map<string, StatusInfo> {
    map h | h in scrs.Values && RecordsFor(events, txs, scrs, h) != [] :: Fold(RecordsFor(events, txs, scrs, h))
  }

  method ProcessEventNoTx(e: LogEvent, scrs: map<string, string>, collector: TxHashStatusInfo) returns (processed: bool)
    requires collector.Valid()
    modifies collector, collector.hashStatusInfo.Values
    ensures processed && collector.Valid()
    ensures fresh(collector.hashStatusInfo.Values - old(collector.hashStatusInfo.Values))
    ensures collector.Contents() ==
      if e.hash in scrs && scrs[e.hash] != "" && RecordOf(e.identifier).Some?
      then Added(old(collector.Contents()), scrs[e.hash], RecordOf(e.identifier).value)
      else old(collector.Contents())
  {
    processed := true;
    if e.hash !in scrs {
      return;
    }
    if scrs[e.hash] == "" {
      return;
    }
    var record := new StatusRecord();
    if e.identifier == COMPLETED_TX {
      record.completedEvent := true;
      collector.AddRecord(scrs[e.hash], record);
    } else if e.identifier == SIGNAL_ERROR || e.identifier == INTERNAL_VM_ERRORS {
      record.status := STATUS_FAIL;
      record.errorEvent := true;
      collector.AddRecord(scrs[e.hash], record);
    }
  }

  method ProcessEvent(e: LogEvent, txs: map<string, LoggedTransaction>, scrs: map<string, string>, collector: TxHashStatusInfo)
    returns (processed: bool)
    requires collector.Valid()
    modifies txs.Values, collector, collector.hashStatusInfo.Values
    ensures processed <==> e.identifier in ["writeLog", "signalError", "completedTxEvent", "internalVMErrors"]
    ensures collector.Valid()
    ensures fresh(collector.hashStatusInfo.Values - old(collector.hashStatusInfo.Values))
    ensures e.hash in txs ==> txs[e.hash].info == OnTransaction(old(txs[e.hash].info), e.identifier)
    ensures forall tx :: tx in txs.Values && (e.hash !in txs || tx != txs[e.hash]) ==> tx.info == old(tx.info)
    ensures collector.Contents() ==
      if AddsRecord(e, txs.Keys, scrs)
      then Added(old(collector.Contents()), scrs[e.hash], RecordOf(e.identifier).value)
      else old(collector.Contents())
  {
    if !IsInformative(e.identifier) {
      return false;
    }
    if e.hash !in txs {
      processed := ProcessEventNoTx(e, scrs, collector);
      return;
    }
    var tx := txs[e.hash];
    if e.identifier == COMPLETED_TX {
      tx.info := tx.info.(completedEvent := true);
    } else if e.identifier == WRITE_LOG {
      tx.info := tx.info.(status := STATUS_SUCCESS);
    } else {
      tx.info := tx.info.(status := STATUS_FAIL);
      tx.info := tx.info.(errorEvent := true);
    }
    return true;
  }

  lemma RecordsForStep(events: seq<LogEvent>, e: LogEvent, txs: set<string>, scrs: map<string, string>, h: string)
    ensures RecordsFor(events + [e], txs, scrs, h) == RecordsFor(events, txs, scrs, h) +
      if AddsRecord(e, txs, scrs) && scrs[e.hash] == h then [RecordOf(e.identifier).value] else []
  {
    assert (events + [e])[..|events|] == events;
  }

  lemma FoldStep(records: seq<StatusInfo>, r: StatusInfo)
    ensures Fold(records + [r]) == if records == [] then r else Join(Fold(records), r)
  {
    assert (records + [r])[..|records|] == records;
  }

  lemma {:induction false} RecordedHash(events: seq<LogEvent>, txs: set<string>, scrs: map<string, string>, hash: string)
    ensures RecordsFor(events, txs, scrs, hash) != [] ==> hash in scrs.Values
  {
    if events != [] {
      RecordedHash(events[..|events| - 1], txs, scrs, hash);
    }
  }

  lemma CollectedLookup(events: seq<LogEvent>, txs: set<string>, scrs: map<string, string>, h: string)
    ensures var records := RecordsFor(events, txs, scrs, h);
      Lookup(Collected(events, txs, scrs), h) == if records == [] then None else Some(Fold(records))
  {
    RecordedHash(events, txs, scrs, h);
  }

  lemma CollectedStep(events: seq<LogEvent>, e: LogEvent, txs: set<string>, scrs: map<string, string>)
    ensures Collected(events + [e], txs, scrs) ==
      if AddsRecord(e, txs, scrs)
      then Added(Collected(events, txs, scrs), scrs[e.hash], RecordOf(e.identifier).value)
      else Collected(events, txs, scrs)
  {
    var before, after := Collected(events, txs, scrs), Collected(events + [e], txs, scrs);
    var expected :=
      if AddsRecord(e, txs, scrs) then Added(before, scrs[e.hash], RecordOf(e.identifier).value) else before;
    forall h
      ensures Lookup(after, h) == Lookup(expected, h)
    {
      CollectedLookup(events, txs, scrs, h);
      CollectedLookup(events + [e], txs, scrs, h);
      RecordsForStep(events, e, txs, scrs, h);
      if AddsRecord(e, txs, scrs) && scrs[e.hash] == h {
        FoldStep(RecordsFor(events, txs, scrs, h), RecordOf(e.identifier).value);
      } else {
        assert RecordsFor(events + [e], txs, scrs, h) == RecordsFor(events, txs, scrs, h);
      }
    }
    SameLookups(after, expected);
  }

  /** A block's events: every transaction and every collected record is the fold of its own events. */
  method ProcessEvents(events: seq<LogEvent>, txs: map<string, LoggedTransaction>, scrs: map<string, string>)
    returns (collector: TxHashStatusInfo)
    requires forall h, k :: h in txs && k in txs && txs[h] == txs[k] ==> h == k
    modifies txs.Values
    ensures fresh(collector) && collector.Valid()
    ensures collector.Contents() == Collected(events, txs.Keys, scrs)
    ensures forall h :: h in txs ==> txs[h].info == TransactionAfter(old(txs[h].info), events, h)
  {
    collector := new TxHashStatusInfo();
    for i := 0 to |events|
      invariant fresh(collector) && fresh(collector.hashStatusInfo.Values) && collector.Valid()
      invariant collector.Contents() == Collected(events[..i], txs.Keys, scrs)
      invariant forall h :: h in txs ==> txs[h].info == TransactionAfter(old(txs[h].info), events[..i], h)
    {
      CollectedStep(events[..i], events[i], txs.Keys, scrs);
      assert events[..i] + [events[i]] == events[..i + 1];
      assert events[..i + 1][..i] == events[..i];
      var _ := ProcessEvent(events[i], txs, scrs, collector);
    }
    assert events[..|events|] == events;
  }

  lemma {:induction false} OnlyLogRecords(events: seq<LogEvent>, txs: set<string>, scrs: map<string, string>, hash: string)
    ensures forall r :: r in RecordsFor(events, txs, scrs, hash) ==>
      IsLogRecord(r) && (r.status == STATUS_FAIL <==> r.errorEvent)
  {
    if events != [] {
      OnlyLogRecords(events[..|events| - 1], txs, scrs, hash);
    }
  }

  /**
   * What a block sends for a transaction it does not hold: the one collected record acts on the
   * transaction's document, stored or missing, like all the records of the block one by one.
   */
  lemma BlockRecordActsLikeItsEvents(
    events: seq<LogEvent>, txs: set<string>, scrs: map<string, string>, hash: string, stored: Option<TxDoc>)
    ensures var records := RecordsFor(events, txs, scrs, hash);
      Run(stored, StatusAction, records) ==
      if hash in Collected(events, txs, scrs) then Apply(stored, StatusAction(Collected(events, txs, scrs)[hash])) else stored
    ensures hash in Collected(events, txs, scrs) ==>
      var r := Collected(events, txs, scrs)[hash]; IsLogRecord(r) && (r.status == STATUS_FAIL <==> r.errorEvent)
  {
    var records := RecordsFor(events, txs, scrs, hash);
    OnlyLogRecords(events, txs, scrs, hash);
    RecordedHash(events, txs, scrs, hash);
    if records != [] {
      BatchingIsHomomorphic(stored, records);
      FoldOfLogRecords(records);
    }
  }

  // ---------------------------------------------------------------- event by event

  /** A transaction's flags tell which events came, besides what it was before. */
  lemma {:induction false} FlagsOfEvents(tx: StatusInfo, events: seq<LogEvent>, hash: string)
    ensures TransactionAfter(tx, events, hash).errorEvent <==> tx.errorEvent || exists e ::
      e in events && e.hash == hash && (e.identifier == "signalError" || e.identifier == "internalVMErrors")
    ensures TransactionAfter(tx, events, hash).completedEvent <==> tx.completedEvent || exists e ::
      e in events && e.hash == hash && e.identifier == "completedTxEvent"
  {
    if events != [] {
      var init, e := events[..|events| - 1], events[|events| - 1];
      assert events == init + [e];
      FlagsOfEvents(tx, init, hash);
      assert e in events;
    }
  }

  predicate SetsStatus(e: LogEvent, hash: string) {
    e.hash == hash && e.identifier in ["writeLog", "signalError", "internalVMErrors"]
  }

  /** Its status is unchanged without an event that sets one. */
  lemma {:induction false} StatusUntouched(tx: StatusInfo, events: seq<LogEvent>, hash: string)
    requires forall e :: e in events ==> !SetsStatus(e, hash)
    ensures TransactionAfter(tx, events, hash).status == tx.status
  {
    if events != [] {
      assert events[|events| - 1] in events;
      StatusUntouched(tx, events[..|events| - 1], hash);
    }
  }

  /** And the last such event decides it. */
  lemma {:induction false} StatusDecidedByLast(tx: StatusInfo, events: seq<LogEvent>, hash: string, i: nat)
    requires i < |events| && SetsStatus(events[i], hash)
    requires forall j :: i < j < |events| ==> !SetsStatus(events[j], hash)
    ensures TransactionAfter(tx, events, hash).status == if events[i].identifier == "writeLog" then "success" else "fail"
  {
    if i < |events| - 1 {
      assert !SetsStatus(events[|events| - 1], hash);
      StatusDecidedByLast(tx, events[..|events| - 1], hash, i);
    }
  }

  /** An event of a result that belongs to transaction `hash`, while its own hash is no transaction of the block. */
  predicate BelongsTo(e: LogEvent, txs: set<string>, scrs: map<string, string>, hash: string) {
    e.hash !in txs && e.hash in scrs && scrs[e.hash] == hash && hash != ""
  }

  predicate FailsFor(e: LogEvent, txs: set<string>, scrs: map<string, string>, hash: string) {
    BelongsTo(e, txs, scrs, hash) && (e.identifier == "signalError" || e.identifier == "internalVMErrors")
  }

  predicate CompletesFor(e: LogEvent, txs: set<string>, scrs: map<string, string>, hash: string) {
    BelongsTo(e, txs, scrs, hash) && e.identifier == "completedTxEvent"
  }

  lemma EventRecord(e: LogEvent, txs: set<string>, scrs: map<string, string>, hash: string)
    ensures AddsRecord(e, txs, scrs) && scrs[e.hash] == hash <==> FailsFor(e, txs, scrs, hash) || CompletesFor(e, txs, scrs, hash)
    ensures FailsFor(e, txs, scrs, hash) ==> RecordOf(e.identifier) == Some(StatusInfo("fail", true, false))
    ensures CompletesFor(e, txs, scrs, hash) ==> RecordOf(e.identifier) == Some(StatusInfo("", false, true))
  {
  }

  lemma {:induction false} RecordsOfEvents(events: seq<LogEvent>, txs: set<string>, scrs: map<string, string>, hash: string)
    ensures var records := RecordsFor(events, txs, scrs, hash);
      && (forall r :: r in records ==> r == StatusInfo("fail", true, false) || r == StatusInfo("", false, true))
      && (StatusInfo("fail", true, false) in records <==> exists e :: e in events && FailsFor(e, txs, scrs, hash))
      && (StatusInfo("", false, true) in records <==> exists e :: e in events && CompletesFor(e, txs, scrs, hash))
  {
    if events != [] {
      var init, e := events[..|events| - 1], events[|events| - 1];
      assert events == init + [e] && e in events;
      RecordsOfEvents(init, txs, scrs, hash);
      RecordsForStep(init, e, txs, scrs, hash);
      EventRecord(e, txs, scrs, hash);
    }
  }

  /** The record a block sends for a transaction, told from its events alone. */
  lemma CollectedOfEvents(events: seq<LogEvent>, txs: set<string>, scrs: map<string, string>, hash: string)
    ensures var failed := exists e :: e in events && FailsFor(e, txs, scrs, hash);
      var completed := exists e :: e in events && CompletesFor(e, txs, scrs, hash);
      Lookup(Collected(events, txs, scrs), hash) ==
      if failed || completed then Some(StatusInfo(if failed then "fail" else "", failed, completed)) else None
  {
    CollectedLookup(events, txs, scrs, hash);
    RecordsOfEvents(events, txs, scrs, hash);
    var records := RecordsFor(events, txs, scrs, hash);
    if records != [] {
      FoldOfLogRecords(records);
      assert records[0] in records;
    }
  }
}
