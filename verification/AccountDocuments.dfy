/**
 * Documents of the accounts indices. Every write and delete carries a timestamp, and the scripts
 * ignore what is older than the stored document.
 */
module AccountDocuments {
  import opened Wrappers
  import opened Numbers
  import opened ElasticIndex
  import TokenIds

  datatype Value = Number(n: nat) | Text(s: string)

  /** A JSON object: the fields that are present. */
  type Document = map<string, Value>

  /** `extra` are the other fields, those that `omitempty` leaves in. */
  datatype Account = Account(
    address: string, tokenName: string, tokenNonce: uint64, balance: string, shardID: nat, timestamp: nat, extra: Document)

  /** The timestamp is left out when it is zero. */
  function Marshal(a: Account): Document {
    a.extra - {"timestamp"}
    + map["balance" := Text(a.balance), "shardID" := Number(a.shardID)]
    + (if a.timestamp == 0 then map[] else map["timestamp" := Number(a.timestamp)])
  }

  // ---------------------------------------------------------------- scripts

  /** Whether the document may be overwritten by what carries `other`; None when the comparison fails. */
  function NotNewer(doc: Document, other: Option<Value>): Option<bool> {
    if "timestamp" !in doc then Some(true)
    else
      match (doc["timestamp"], other)
      case (Number(stored), Some(Number(given))) => Some(stored <= given)
      case _ => None
  }

  function WriteAccount(stored: Option<Document>, account: Document): Outcome<Document> {
    match stored
    case None => Write(account)
    case Some(doc) =>
      match NotNewer(doc, Lookup(account, "timestamp"))
      case Some(true) => Write(doc + account)
      case Some(false) => Write(doc)
      case None => Keep
  }

  /** A comparison with a missing timestamp aborts the script and leaves the document as it is. */
  method RunWriteAccount(ctx: Context<Document>, account: Document)
    requires ctx.Ready()
    modifies ctx
    ensures ctx.Outcome() == WriteAccount(old(ctx.Stored()), account)
  {
    if ctx.op == OpCreate {
      ctx.source := account;
    } else {
      var notNewer := NotNewer(ctx.source, Lookup(account, "timestamp"));
      if notNewer.None? {
        ctx.op := OpNoop;
        return;
      }
      if notNewer.value {
        ghost var before := ctx.source;
        var pending := account.Keys;
        while pending != {}
          invariant pending <= account.Keys && ctx.op == OpIndex
          invariant ctx.source == before + (account - pending)
          decreases pending
        {
          var key :| key in pending;
          ctx.source := ctx.source[key := account[key]];
          pending := pending - {key};
        }
        assert account - pending == account;
      }
    }
  }

  function DeleteAccount(stored: Option<Document>, timestamp: nat): Outcome<Document> {
    match stored
    case None => Keep
    case Some(doc) =>
      match NotNewer(doc, Some(Number(timestamp)))
      case Some(true) => Remove
      case Some(false) => Write(doc)
      case None => Keep
  }

  method RunDeleteAccount(ctx: Context<Document>, timestamp: nat)
    requires ctx.Ready()
    modifies ctx
    ensures ctx.Outcome() == DeleteAccount(old(ctx.Stored()), timestamp)
  {
    if ctx.op == OpCreate {
      ctx.op := OpNoop;
    } else if "timestamp" in ctx.source {
      if ctx.source["timestamp"].Text? {
        ctx.op := OpNoop;
        return;
      }
      if ctx.source["timestamp"].n <= timestamp {
        ctx.op := OpDelete;
      }
    } else {
      ctx.op := OpDelete;
    }
  }

  predicate IsDelete(a: Account, isESDT: bool) {
    (a.balance == "0" || a.balance == "") && isESDT
  }

  function AccountAction(a: Account, isESDT: bool): Action<Document> {
    if IsDelete(a, isESDT) then ScriptedUpsert(stored => DeleteAccount(stored, a.timestamp))
    else ScriptedUpsert(stored => WriteAccount(stored, Marshal(a)))
  }

  function IdOf(a: Account, isESDT: bool): string {
    TokenIds.AccountId(a.address, isESDT, a.tokenName, a.tokenNonce)
  }

  // ---------------------------------------------------------------- last writer wins

  /** The document holds an account's balance, shard and timestamp. */
  predicate Shows(doc: Document, a: Account) {
    && Lookup(doc, "balance") == Some(Text(a.balance))
    && Lookup(doc, "shardID") == Some(Number(a.shardID))
    && Lookup(doc, "timestamp") == Some(Number(a.timestamp))
  }

  predicate Timestamped(events: seq<Account>) {
    forall e :: e in events ==> e.timestamp > 0
  }

  /** The write with the latest timestamp, the later one among equals. */
  function Winner(writes: seq<Account>): (w: Account)
    requires writes != []
    ensures w in writes && forall x :: x in writes ==> x.timestamp <= w.timestamp
  {
    var last := writes[|writes| - 1];
    if |writes| == 1 then last
    else
      assert writes == writes[..|writes| - 1] + [last];
      var earlier := Winner(writes[..|writes| - 1]);
      if earlier.timestamp <= last.timestamp then last else earlier
  }

  /** The writes since the document was last created: a delete starts afresh unless a write is newer. */
  function SinceCreation(events: seq<Account>, isESDT: bool): (writes: seq<Account>)
    ensures forall w :: w in writes ==> w in events && !IsDelete(w, isESDT)
  {
    if events == [] then []
    else
      var e := events[|events| - 1];
      var before := SinceCreation(events[..|events| - 1], isESDT);
      if !IsDelete(e, isESDT) then before + [e]
      else if before == [] || Winner(before).timestamp <= e.timestamp then []
      else before
  }

  function AccountHistory(events: seq<Account>, isESDT: bool): Option<Document> {
    Run(None, (e: Account) => AccountAction(e, isESDT), events)
  }

  /** One write or delete on a document that shows `w`. */
  lemma StepOnShown(doc: Document, w: Account, e: Account, isESDT: bool)
    requires Shows(doc, w) && e.timestamp > 0
    ensures var after := Apply(Some(doc), AccountAction(e, isESDT));
      if IsDelete(e, isESDT) then after == if w.timestamp <= e.timestamp then None else Some(doc)
      else after.Some? && Shows(after.value, if w.timestamp <= e.timestamp then e else w)
  {
  }

  lemma StepOnMissing(e: Account, isESDT: bool)
    requires e.timestamp > 0
    ensures var after := Apply(None, AccountAction(e, isESDT));
      if IsDelete(e, isESDT) then after == None else after.Some? && Shows(after.value, e)
  {
  }

  lemma HistoryLast(events: seq<Account>, e: Account, isESDT: bool)
    ensures AccountHistory(events + [e], isESDT) == Apply(AccountHistory(events, isESDT), AccountAction(e, isESDT))
    ensures var before := SinceCreation(events, isESDT);
      SinceCreation(events + [e], isESDT) ==
      if !IsDelete(e, isESDT) then before + [e]
      else if before == [] || Winner(before).timestamp <= e.timestamp then []
      else before
  {
    assert (events + [e])[..|events|] == events;
  }

  lemma WinnerLast(writes: seq<Account>, e: Account)
    ensures Winner(writes + [e]) == if writes == [] || Winner(writes).timestamp <= e.timestamp then e else Winner(writes)
  {
    assert (writes + [e])[..|writes|] == writes;
  }

  /**
   * While a document lives it shows the write with the latest timestamp since it was created, ties
   * going to the later write, whatever the order of the entries.
   */
  lemma {:induction false} LastWriterWins(events: seq<Account>, isESDT: bool)
    requires Timestamped(events)
    ensures var writes := SinceCreation(events, isESDT);
      match AccountHistory(events, isESDT)
      case None => writes == []
      case Some(doc) => writes != [] && Shows(doc, Winner(writes))
  {
    if events != [] {
      var init, e := events[..|events| - 1], events[|events| - 1];
      assert events == init + [e] && e in events;
      LastWriterWins(init, isESDT);
      HistoryLast(init, e, isESDT);
      var before := SinceCreation(init, isESDT);
      WinnerLast(before, e);
      match AccountHistory(init, isESDT)
      case None => StepOnMissing(e, isESDT);
      case Some(doc) => StepOnShown(doc, Winner(before), e, isESDT);
    }
  }

  /** As long as the document is not deleted, its timestamp never falls. */
  lemma TimestampNeverFalls(events: seq<Account>, e: Account, isESDT: bool)
    requires Timestamped(events + [e])
    ensures var before, after := AccountHistory(events, isESDT), AccountHistory(events + [e], isESDT);
      before.Some? && after.Some? ==>
        exists s, t :: Lookup(before.value, "timestamp") == Some(Number(s)) &&
                       Lookup(after.value, "timestamp") == Some(Number(t)) && s <= t
  {
    HistoryLast(events, e, isESDT);
    assert Timestamped(events) by {
      assert forall x :: x in events ==> x in events + [e];
    }
    assert e in events + [e];
    LastWriterWins(events, isESDT);
    if AccountHistory(events, isESDT).Some? {
      StepOnShown(AccountHistory(events, isESDT).value, Winner(SinceCreation(events, isESDT)), e, isESDT);
    }
  }

  // ---------------------------------------------------------------- in order: the map of balances

  predicate NonDecreasing(events: seq<Account>) {
    forall i, j :: 0 <= i <= j < |events| ==> events[i].timestamp <= events[j].timestamp
  }

  /** The balances after a sequence of updates: the latest of each id, zero token balances dropped. */
  function LatestBalances(events: seq<Account>, isESDT: bool): map<string, Account> {
    if events == [] then map[]
    else
      var e := events[|events| - 1];
      var before := LatestBalances(events[..|events| - 1], isESDT);
      if IsDelete(e, isESDT) then before - {IdOf(e, isESDT)} else before[IdOf(e, isESDT) := e]
  }

  function AccountIndex(events: seq<Account>, isESDT: bool): map<string, Document> {
    Bulk(map[], (e: Account) => IdOf(e, isESDT), (e: Account) => AccountAction(e, isESDT), events)
  }

  ghost predicate ShowsAll(index: map<string, Document>, balances: map<string, Account>) {
    index.Keys == balances.Keys && forall id :: id in balances ==> Shows(index[id], balances[id])
  }

  /** What the document of `e` shows decides whether the whole index still shows the balances. */
  lemma StoredShows(index: map<string, Document>, balances: map<string, Account>, id: string, doc: Option<Document>, e: Account, deleted: bool)
    requires ShowsAll(index, balances)
    requires if deleted then doc == None else doc.Some? && Shows(doc.value, e)
    ensures ShowsAll(Store(index, id, doc), if deleted then balances - {id} else balances[id := e])
  {
  }

  lemma OrderedStep(index: map<string, Document>, balances: map<string, Account>, e: Account, isESDT: bool)
    requires ShowsAll(index, balances) && e.timestamp > 0
    requires IdOf(e, isESDT) in balances ==> balances[IdOf(e, isESDT)].timestamp <= e.timestamp
    ensures var id := IdOf(e, isESDT);
      ShowsAll(Store(index, id, Apply(Lookup(index, id), AccountAction(e, isESDT))),
               if IsDelete(e, isESDT) then balances - {id} else balances[id := e])
  {
    var id := IdOf(e, isESDT);
    var doc := Apply(Lookup(index, id), AccountAction(e, isESDT));
    assert if IsDelete(e, isESDT) then doc == None else doc.Some? && Shows(doc.value, e) by {
      if id in index {
        StepOnShown(index[id], balances[id], e, isESDT);
      } else {
        StepOnMissing(e, isESDT);
      }
    }
    StoredShows(index, balances, id, doc, e, IsDelete(e, isESDT));
  }

  lemma {:induction false} BalancesComeFromUpdates(events: seq<Account>, isESDT: bool)
    ensures forall id :: id in LatestBalances(events, isESDT) ==> LatestBalances(events, isESDT)[id] in events
  {
    if events != [] {
      var init, e := events[..|events| - 1], events[|events| - 1];
      BalancesComeFromUpdates(init, isESDT);
      assert events == init + [e];
    }
  }

  /** Updates that come in the order of their timestamps leave exactly the latest nonzero balances. */
  lemma {:induction false} OrderedUpdatesKeepBalances(events: seq<Account>, isESDT: bool)
    requires Timestamped(events) && NonDecreasing(events)
    ensures ShowsAll(AccountIndex(events, isESDT), LatestBalances(events, isESDT))
  {
    if events != [] {
      var init, e := events[..|events| - 1], events[|events| - 1];
      OrderedUpdatesKeepBalances(init, isESDT);
      BalancesComeFromUpdates(init, isESDT);
      assert e in events;
      var id := IdOf(e, isESDT);
      if id in LatestBalances(init, isESDT) {
        var i :| 0 <= i < |init| && init[i] == LatestBalances(init, isESDT)[id];
        assert events[i].timestamp <= events[|events| - 1].timestamp;
      }
      OrderedStep(AccountIndex(init, isESDT), LatestBalances(init, isESDT), e, isESDT);
    }
  }

  // ---------------------------------------------------------------- in order: address, token and nonce

  lemma {:induction false} NoBalance(events: seq<Account>, isESDT: bool, id: string)
    requires forall e :: e in events ==> IdOf(e, isESDT) != id
    ensures id !in LatestBalances(events, isESDT)
  {
    if events != [] {
      assert events[|events| - 1] in events;
      NoBalance(events[..|events| - 1], isESDT, id);
    }
  }

  lemma {:induction false} LastBalance(events: seq<Account>, isESDT: bool, i: nat)
    requires i < |events| && forall j :: i < j < |events| ==> IdOf(events[j], isESDT) != IdOf(events[i], isESDT)
    ensures Lookup(LatestBalances(events, isESDT), IdOf(events[i], isESDT)) ==
      if IsDelete(events[i], isESDT) then None else Some(events[i])
  {
    if i < |events| - 1 {
      assert IdOf(events[|events| - 1], isESDT) != IdOf(events[i], isESDT);
      LastBalance(events[..|events| - 1], isESDT, i);
    }
  }

  /** The update is about this token and nonce of this address. */
  predicate IsAbout(a: Account, address: string, token: string, nonce: uint64) {
    a.address == address && a.tokenName == token && a.tokenNonce == nonce
  }

  /** Addresses are bech32, which has no dash. */
  lemma TokenIdIs(a: Account, address: string, token: string, nonce: uint64)
    requires '-' !in a.address && '-' !in address
    ensures IdOf(a, true) == address + "-" + token + "-" + TokenIds.EncodeNonceToHex(nonce) <==> IsAbout(a, address, token, nonce)
  {
    if IdOf(a, true) == address + "-" + token + "-" + TokenIds.EncodeNonceToHex(nonce) {
      TokenIds.AccountIdsTellAddresses(a.address, address, a.tokenName, token, a.tokenNonce, nonce);
    }
  }

  /**
   * Ordered updates of token balances, over address, token and nonce: the pair whose last update has a
   * balance has its own document, which shows that update, and one whose last update is zero has none.
   */
  lemma TokenDocument(events: seq<Account>, i: nat, address: string, token: string, nonce: uint64)
    requires forall e :: e in events ==> e.timestamp > 0 && '-' !in e.address
    requires forall m, n :: 0 <= m <= n < |events| ==> events[m].timestamp <= events[n].timestamp
    requires i < |events| && IsAbout(events[i], address, token, nonce)
    requires forall j :: i < j < |events| ==> !IsAbout(events[j], address, token, nonce)
    ensures var index, id := AccountIndex(events, true), address + "-" + token + "-" + TokenIds.EncodeNonceToHex(nonce);
      if events[i].balance == "0" || events[i].balance == "" then id !in index
      else id in index && Shows(index[id], events[i])
  {
    var id := address + "-" + token + "-" + TokenIds.EncodeNonceToHex(nonce);
    assert events[i] in events;
    forall j | i <= j < |events|
      ensures IdOf(events[j], true) == id <==> j == i
    {
      assert events[j] in events;
      TokenIdIs(events[j], address, token, nonce);
    }
    LastBalance(events, true, i);
    OrderedUpdatesKeepBalances(events, true);
  }

  /** And a pair without an update has no document. */
  lemma NoTokenDocument(events: seq<Account>, address: string, token: string, nonce: uint64)
    requires Timestamped(events) && NonDecreasing(events) && '-' !in address && forall e :: e in events ==> '-' !in e.address
    requires forall e :: e in events ==> !IsAbout(e, address, token, nonce)
    ensures address + "-" + token + "-" + TokenIds.EncodeNonceToHex(nonce) !in AccountIndex(events, true)
  {
    forall e | e in events
      ensures IdOf(e, true) != address + "-" + token + "-" + TokenIds.EncodeNonceToHex(nonce)
    {
      TokenIdIs(e, address, token, nonce);
    }
    NoBalance(events, true, address + "-" + token + "-" + TokenIds.EncodeNonceToHex(nonce));
    OrderedUpdatesKeepBalances(events, true);
  }

  /** Regular accounts have one document per address, whatever their balance. */
  lemma RegularDocument(events: seq<Account>, i: nat)
    requires Timestamped(events) && NonDecreasing(events)
    requires i < |events| && forall j :: i < j < |events| ==> events[j].address != events[i].address
    ensures var index := AccountIndex(events, false);
      events[i].address in index && Shows(index[events[i].address], events[i])
  {
    LastBalance(events, false, i);
    OrderedUpdatesKeepBalances(events, false);
  }

  lemma NoRegularDocument(events: seq<Account>, address: string)
    requires Timestamped(events) && NonDecreasing(events) && forall e :: e in events ==> e.address != address
    ensures address !in AccountIndex(events, false)
  {
    NoBalance(events, false, address);
    OrderedUpdatesKeepBalances(events, false);
  }

  /** A write, field by field: its own three, the others it brings, and what the document had besides. */
  lemma WrittenField(stored: Option<Document>, a: Account, isESDT: bool, name: string)
    requires a.timestamp > 0 && (isESDT ==> a.balance != "0" && a.balance != "")
    requires stored.Some? && "timestamp" in stored.value ==>
      stored.value["timestamp"].Number? && stored.value["timestamp"].n <= a.timestamp
    ensures var after := Apply(stored, AccountAction(a, isESDT));
      after.Some? && Lookup(after.value, name) ==
        if name == "balance" then Some(Text(a.balance))
        else if name == "shardID" then Some(Number(a.shardID))
        else if name == "timestamp" then Some(Number(a.timestamp))
        else if name in a.extra then Some(a.extra[name])
        else if stored.Some? then Lookup(stored.value, name) else None
  {
  }

  /** A write without a timestamp over a document that has one aborts, which leaves the document. */
  lemma UntimedWrite(doc: Document, a: Account)
    requires a.timestamp == 0 && "timestamp" in doc && "timestamp" !in a.extra
    ensures Apply(Some(doc), AccountAction(a, false)) == Some(doc)
  {
  }

  /** A write or delete older than the document leaves it as it is. */
  lemma StaleUpdate(doc: Document, a: Account, isESDT: bool)
    requires a.timestamp > 0 && "timestamp" in doc && doc["timestamp"].Number? && doc["timestamp"].n > a.timestamp
    ensures Apply(Some(doc), AccountAction(a, isESDT)) == Some(doc)
  {
  }

  // ---------------------------------------------------------------- out of order: regular accounts

  /** Regular accounts are never deleted, so all writes count. */
  lemma {:induction false} RegularAccountsKeepWrites(events: seq<Account>)
    ensures SinceCreation(events, false) == events
  {
    if events != [] {
      RegularAccountsKeepWrites(events[..|events| - 1]);
    }
  }

  predicate SameState(a: Account, b: Account) {
    a.balance == b.balance && a.shardID == b.shardID && a.timestamp == b.timestamp
  }

  /** Writes with the latest timestamp agree on balance and shard; distinct timestamps are a special case. */
  predicate TiesAgree(events: seq<Account>)
    requires events != []
  {
    forall e :: e in events && e.timestamp == Winner(events).timestamp ==> SameState(e, Winner(events))
  }

  predicate SameWrites(events: seq<Account>, others: seq<Account>) {
    multiset(events) == multiset(others)
  }

  lemma SameWinner(events: seq<Account>, others: seq<Account>)
    requires events != [] && SameWrites(events, others) && TiesAgree(events)
    ensures others != [] && SameState(Winner(others), Winner(events))
  {
    assert |others| == |multiset(others)| == |events|;
    assert Winner(events) in multiset(others) && Winner(others) in multiset(events);
    assert Winner(others) in events && Winner(events) in others;
  }

  lemma LatestAtEndWins(rest: seq<Account>, e: Account)
    requires forall x :: x in rest ==> x.timestamp <= e.timestamp
    ensures Winner(rest + [e]) == e
  {
    WinnerLast(rest, e);
  }

  /** Moving a write with the latest timestamp to the end makes it the winner. */
  lemma MovedToEnd(events: seq<Account>, i: nat) returns (others: seq<Account>)
    requires i < |events| && events[i].timestamp == Winner(events).timestamp
    ensures SameWrites(events, others) && others != [] && Winner(others) == events[i]
  {
    var before, e, after := events[..i], events[i], events[i + 1..];
    others := before + after + [e];
    assert events == before + [e] + after;
    LatestAtEndWins(before + after, e);
  }

  /** The document every order of the same writes leaves shows the winner of that order. */
  lemma RegularAccountShowsWinner(events: seq<Account>)
    requires events != [] && Timestamped(events)
    ensures AccountHistory(events, false).Some? && Shows(AccountHistory(events, false).value, Winner(events))
  {
    RegularAccountsKeepWrites(events);
    LastWriterWins(events, false);
  }

  predicate SameShown(d: Document, e: Document) {
    forall name | name in ["balance", "shardID", "timestamp"] :: Lookup(d, name) == Lookup(e, name)
  }

  lemma ShownStates(d: Document, a: Account, e: Document, b: Account)
    requires Shows(d, a) && Shows(e, b)
    ensures SameShown(d, e) <==> SameState(a, b)
  {
    var names := ["balance", "shardID", "timestamp"];
    assert names[0] in names && names[1] in names && names[2] in names;
  }

  /** The documents two histories of a regular account leave, compared in balance, shard and timestamp. */
  ghost predicate SameOutcome(events: seq<Account>, others: seq<Account>) {
    var d, e := AccountHistory(events, false), AccountHistory(others, false);
    d.Some? && e.Some? && SameShown(d.value, e.value)
  }

  lemma OutcomeIsWinner(events: seq<Account>, others: seq<Account>)
    requires events != [] && Timestamped(events) && SameWrites(events, others)
    ensures others != []
    ensures SameOutcome(events, others) <==> SameState(Winner(events), Winner(others))
  {
    assert |others| == |multiset(others)| == |events|;
    forall e | e in others
      ensures e in events
    {
      assert e in multiset(others);
    }
    RegularAccountShowsWinner(events);
    RegularAccountShowsWinner(others);
    ShownStates(AccountHistory(events, false).value, Winner(events), AccountHistory(others, false).value, Winner(others));
  }

  /**
   * The balance, shard and timestamp the document of a regular account ends with are the same for
   * every order of its writes exactly when the writes with the latest timestamp agree on them.
   */
  lemma OrderIrrelevantExactly(events: seq<Account>)
    requires events != [] && Timestamped(events)
    ensures TiesAgree(events) <==> forall others :: SameWrites(events, others) ==> SameOutcome(events, others)
  {
    if TiesAgree(events) {
      forall others | SameWrites(events, others)
        ensures SameOutcome(events, others)
      {
        SameWinner(events, others);
        OutcomeIsWinner(events, others);
      }
    } else {
      var e :| e in events && e.timestamp == Winner(events).timestamp && !SameState(e, Winner(events));
      var i :| 0 <= i < |events| && events[i] == e;
      var others := MovedToEnd(events, i);
      OutcomeIsWinner(events, others);
      assert SameWrites(events, others) && !SameOutcome(events, others);
    }
  }

  /** When they agree, both orders show the one write that decides. */
  lemma RegularAccountsConverge(events: seq<Account>, others: seq<Account>)
    requires events != [] && Timestamped(events) && SameWrites(events, others) && TiesAgree(events)
    ensures AccountHistory(events, false).Some? && AccountHistory(others, false).Some?
    ensures Shows(AccountHistory(events, false).value, Winner(events))
    ensures Shows(AccountHistory(others, false).value, Winner(events))
  {
    SameWinner(events, others);
    OutcomeIsWinner(events, others);
    RegularAccountShowsWinner(events);
  }

  /** Two writes with one timestamp and different balances: the later one decides, so their order shows. */
  lemma TiedWritesDisagree(a: Account, b: Account)
    requires a.timestamp == b.timestamp > 0 && a.balance == "1" && b.balance == "2"
    ensures AccountHistory([a, b], false).Some? && AccountHistory([b, a], false).Some?
    ensures Shows(AccountHistory([a, b], false).value, b) && Shows(AccountHistory([b, a], false).value, a)
    ensures SameWrites([a, b], [b, a]) && !SameOutcome([a, b], [b, a])
  {
    var ab, ba := [a] + [b], [b] + [a];
    assert ab == [a, b] && ba == [b, a];
    LatestAtEndWins([a], b);
    LatestAtEndWins([b], a);
    RegularAccountShowsWinner(ab);
    RegularAccountShowsWinner(ba);
    OutcomeIsWinner(ab, ba);
  }
}
