/**
 * The accounts a block altered: per address one record for the balance, merged in place with the
 * records of the tokens that moved.
 */
module AlteredAccounts {
  import opened Wrappers

  /** A snapshot of a record. */
  datatype Altered = Altered(
    balanceChange: bool, isSender: bool, isESDTOperation: bool, isNFTOperation: bool, isNFTCreate: bool,
    tokenIdentifier: string, nftNonce: nat, tokenType: string)

  predicate IsTokenOperation(a: Altered) {
    a.isESDTOperation || a.isNFTOperation
  }

  function TokenOf(a: Altered): (string, nat) {
    (a.tokenIdentifier, a.nftNonce)
  }

  // ---------------------------------------------------------------- merging one record

  /** The position of a token in a list, or the list's length. */
  function Position(list: seq<Altered>, token: (string, nat)): (p: nat)
    ensures p <= |list|
    ensures p < |list| ==> TokenOf(list[p]) == token
    ensures forall i :: 0 <= i < p ==> TokenOf(list[i]) != token
  {
    if list == [] then 0
    else if TokenOf(list[0]) == token then 0
    else 1 + Position(list[1..], token)
  }

  /** The list of an address with one more record: only the first element keeps track of the sender. */
  function Merged(list: seq<Altered>, a: Altered): seq<Altered> {
    if list == [] then [a]
    else
      var sender := list[0].(isSender := list[0].isSender || a.isSender);
      if !IsTokenOperation(a) then list[0 := sender]
      else if !IsTokenOperation(list[0]) then list[0 := a.(balanceChange := list[0].balanceChange, isSender := sender.isSender)]
      else
        var p := Position(list, TokenOf(a));
        if p == 0 then list[0 := sender]
        else if p < |list| then list
        else list + [a.(isSender := false)]
  }

  /**
   * Only the first element can be a sender, a record without a token is alone, and no token appears
   * twice.
   */
  predicate WellFormed(list: seq<Altered>) {
    && list != []
    && (forall i :: 0 < i < |list| ==> !list[i].isSender)
    && (|list| > 1 ==> forall i :: 0 <= i < |list| ==> IsTokenOperation(list[i]))
    && (forall i, j :: 0 <= i < j < |list| ==> TokenOf(list[i]) != TokenOf(list[j]))
  }

  lemma MergedIsWellFormed(list: seq<Altered>, a: Altered)
    requires list == [] || WellFormed(list)
    ensures WellFormed(Merged(list, a))
    ensures list != [] && list[0].isSender ==> Merged(list, a)[0].isSender
  {
  }

  /** Merging with a token found at position `i`: its flag stays clear unless it is the first. */
  lemma MergedAt(list: seq<Altered>, a: Altered, i: nat)
    requires WellFormed(list) && IsTokenOperation(a) && IsTokenOperation(list[0])
    requires i < |list| && TokenOf(list[i]) == TokenOf(a)
    ensures Merged(list, a) == list[i := list[i].(isSender := i == 0 && (list[0].isSender || a.isSender))]
  {
    assert Position(list, TokenOf(a)) == i;
  }

  predicate AbsentIn(views: seq<Altered>, n: nat, token: (string, nat))
    requires n <= |views|
  {
    forall k :: 0 <= k < n ==> TokenOf(views[k]) != token
  }

  lemma MergedNew(list: seq<Altered>, a: Altered)
    requires WellFormed(list) && IsTokenOperation(a) && IsTokenOperation(list[0])
    requires AbsentIn(list, |list|, TokenOf(a))
    ensures Merged(list, a) == list + [a.(isSender := false)]
  {
    assert Position(list, TokenOf(a)) == |list|;
  }

  // ---------------------------------------------------------------- whole runs

  /** The list of an address after all its records. */
  function ListAfter(records: seq<Altered>): seq<Altered> {
    if records == [] then [] else Merged(ListAfter(records[..|records| - 1]), records[|records| - 1])
  }

  /** The tokens of the token operations, each once, in the order of their first record. */
  function Tokens(records: seq<Altered>): seq<(string, nat)> {
    if records == [] then []
    else
      var before, last := Tokens(records[..|records| - 1]), records[|records| - 1];
      if IsTokenOperation(last) && TokenOf(last) !in before then before + [TokenOf(last)] else before
  }

  function TokensOf(list: seq<Altered>): (tokens: seq<(string, nat)>)
    ensures |tokens| == |list|
  {
    seq(|list|, i requires 0 <= i < |list| => TokenOf(list[i]))
  }

  /** The first token operation about a token. */
  function FirstOf(records: seq<Altered>, token: (string, nat)): (first: Option<Altered>)
    ensures first.Some? ==> first.value in records && IsTokenOperation(first.value) && TokenOf(first.value) == token
  {
    if records == [] then None
    else
      var before, last := FirstOf(records[..|records| - 1], token), records[|records| - 1];
      if before.Some? then before
      else if IsTokenOperation(last) && TokenOf(last) == token then Some(last)
      else None
  }

  lemma {:induction false} FirstOfTokens(records: seq<Altered>, token: (string, nat))
    ensures FirstOf(records, token).Some? <==> token in Tokens(records)
  {
    if records != [] {
      FirstOfTokens(records[..|records| - 1], token);
    }
  }

  /** An element is the first record about its token but for the sender flag, and the first element's balance flag. */
  predicate IsFirstRecord(element: Altered, leading: bool, records: seq<Altered>)
    requires records != []
  {
    var first := FirstOf(records, TokenOf(element));
    && (Tokens(records) != [] ==> first.Some?)
    && var r := if Tokens(records) == [] then records[0] else first.value;
       element == r.(isSender := element.isSender, balanceChange := if leading then records[0].balanceChange else r.balanceChange)
  }

  ghost predicate KeepsFirst(list: seq<Altered>, records: seq<Altered>)
    requires records != []
  {
    forall i :: 0 <= i < |list| ==> IsFirstRecord(list[i], i == 0, records)
  }

  /** A record that marks the address as sender: a plain one, or one about the address's first token. */
  predicate MarksSender(r: Altered, list: seq<Altered>)
    requires list != []
  {
    r.isSender && (!IsTokenOperation(r) || TokenOf(r) == TokenOf(list[0]))
  }

  /** One element for each token, or a single plain one. */
  ghost predicate NamesTokens(list: seq<Altered>, records: seq<Altered>) {
    if Tokens(records) == [] then |list| == 1 && !IsTokenOperation(list[0])
    else list != [] && IsTokenOperation(list[0]) && TokensOf(list) == Tokens(records)
  }

  ghost predicate MarkedBySome(list: seq<Altered>, records: seq<Altered>)
    requires list != []
  {
    list[0].isSender <==> exists r :: r in records && MarksSender(r, list)
  }

  /** What a run of records comes to. */
  ghost predicate Summarises(list: seq<Altered>, records: seq<Altered>)
    requires records != []
  {
    WellFormed(list) && NamesTokens(list, records) && KeepsFirst(list, records) && MarkedBySome(list, records)
  }

  lemma {:induction false} NoTokens(records: seq<Altered>)
    ensures Tokens(records) == [] <==> forall r :: r in records ==> !IsTokenOperation(r)
    ensures forall r :: r in records && IsTokenOperation(r) ==> TokenOf(r) in Tokens(records)
  {
    if records != [] {
      var init, last := records[..|records| - 1], records[|records| - 1];
      assert records == init + [last];
      NoTokens(init);
    }
  }

  lemma TokensLast(records: seq<Altered>, a: Altered)
    ensures Tokens(records + [a]) ==
      if IsTokenOperation(a) && TokenOf(a) !in Tokens(records) then Tokens(records) + [TokenOf(a)] else Tokens(records)
  {
    assert (records + [a])[..|records|] == records;
  }

  lemma TokensOfMerged(list: seq<Altered>, a: Altered)
    requires WellFormed(list)
    ensures IsTokenOperation(Merged(list, a)[0]) <==> IsTokenOperation(a) || IsTokenOperation(list[0])
    ensures TokensOf(Merged(list, a)) ==
      if !IsTokenOperation(a) then TokensOf(list)
      else if !IsTokenOperation(list[0]) then [TokenOf(a)]
      else if TokenOf(a) in TokensOf(list) then TokensOf(list)
      else TokensOf(list) + [TokenOf(a)]
  {
    if IsTokenOperation(a) && IsTokenOperation(list[0]) {
      if i :| 0 <= i < |list| && TokensOf(list)[i] == TokenOf(a) {
        MergedAt(list, a, i);
      } else {
        assert forall k :: 0 <= k < |list| ==> TokenOf(list[k]) == TokensOf(list)[k];
        MergedNew(list, a);
      }
    }
  }

  lemma TokensStep(list: seq<Altered>, records: seq<Altered>, a: Altered)
    requires WellFormed(list) && NamesTokens(list, records)
    ensures NamesTokens(Merged(list, a), records + [a])
  {
    TokensLast(records, a);
    TokensOfMerged(list, a);
    assert |TokensOf(Merged(list, a))| == |Merged(list, a)|;
  }

  lemma FirstOfLast(records: seq<Altered>, a: Altered, token: (string, nat))
    ensures FirstOf(records + [a], token) ==
      if FirstOf(records, token).None? && IsTokenOperation(a) && TokenOf(a) == token then Some(a) else FirstOf(records, token)
  {
    assert (records + [a])[..|records|] == records;
  }

  lemma StaysFirstRecord(element: Altered, leading: bool, records: seq<Altered>, a: Altered, isSender: bool)
    requires records != [] && IsFirstRecord(element, leading, records)
    requires IsTokenOperation(a) ==> Tokens(records) != []
    ensures IsFirstRecord(element.(isSender := isSender), leading, records + [a])
  {
    TokensLast(records, a);
    FirstOfLast(records, a, TokenOf(element));
  }

  lemma BecomesFirstRecord(element: Altered, leading: bool, records: seq<Altered>, a: Altered)
    requires records != [] && IsTokenOperation(a) && TokenOf(a) !in Tokens(records)
    requires element == a.(isSender := element.isSender,
                           balanceChange := if leading then records[0].balanceChange else a.balanceChange)
    ensures IsFirstRecord(element, leading, records + [a])
  {
    TokensLast(records, a);
    FirstOfTokens(records, TokenOf(a));
    FirstOfLast(records, a, TokenOf(a));
  }

  lemma OnlySenderChanges(list: seq<Altered>, a: Altered)
    requires WellFormed(list)
    requires IsTokenOperation(a) ==> IsTokenOperation(list[0]) && TokenOf(a) in TokensOf(list)
    ensures |Merged(list, a)| == |list|
    ensures forall i :: 0 <= i < |list| ==> Merged(list, a)[i] == list[i].(isSender := Merged(list, a)[i].isSender)
  {
    if IsTokenOperation(a) {
      var i :| 0 <= i < |list| && TokensOf(list)[i] == TokenOf(a);
      MergedAt(list, a, i);
    }
  }

  lemma FirstStepNew(list: seq<Altered>, records: seq<Altered>, a: Altered)
    requires records != [] && WellFormed(list) && NamesTokens(list, records) && KeepsFirst(list, records)
    requires IsTokenOperation(a) && TokenOf(a) !in Tokens(records)
    ensures KeepsFirst(Merged(list, a), records + [a])
  {
    var after := Merged(list, a);
    if IsTokenOperation(list[0]) {
      assert AbsentIn(list, |list|, TokenOf(a)) by {
        assert forall k :: 0 <= k < |list| ==> TokenOf(list[k]) == TokensOf(list)[k];
      }
      MergedNew(list, a);
      forall i | 0 <= i < |list|
        ensures IsFirstRecord(after[i], i == 0, records + [a])
      {
        StaysFirstRecord(list[i], i == 0, records, a, list[i].isSender);
      }
      BecomesFirstRecord(after[|list|], false, records, a);
    } else {
      BecomesFirstRecord(after[0], true, records, a);
    }
  }

  lemma FirstStep(list: seq<Altered>, records: seq<Altered>, a: Altered)
    requires records != [] && WellFormed(list) && NamesTokens(list, records) && KeepsFirst(list, records)
    ensures KeepsFirst(Merged(list, a), records + [a])
  {
    if IsTokenOperation(a) && TokenOf(a) !in Tokens(records) {
      FirstStepNew(list, records, a);
    } else {
      var after := Merged(list, a);
      OnlySenderChanges(list, a);
      forall i | 0 <= i < |list|
        ensures IsFirstRecord(after[i], i == 0, records + [a])
      {
        StaysFirstRecord(list[i], i == 0, records, a, after[i].isSender);
      }
    }
  }

  lemma SenderStep(list: seq<Altered>, records: seq<Altered>, a: Altered)
    requires WellFormed(list) && NamesTokens(list, records) && MarkedBySome(list, records)
    ensures MarkedBySome(Merged(list, a), records + [a])
  {
    var after := Merged(list, a);
    NoTokens(records);
    TokensOfMerged(list, a);
    assert IsTokenOperation(list[0]) ==> TokenOf(after[0]) == TokenOf(list[0]);
    assert after[0].isSender <==> list[0].isSender || MarksSender(a, after);
    if r :| r in records && MarksSender(r, list) {
      assert r in records + [a] && MarksSender(r, after);
    }
    assert a in records + [a];
    if r :| r in records + [a] && MarksSender(r, after) {
      assert r == a || (r in records && MarksSender(r, list));
    }
  }

  lemma SummaryStep(list: seq<Altered>, records: seq<Altered>, a: Altered)
    requires records != [] && Summarises(list, records)
    ensures Summarises(Merged(list, a), records + [a])
  {
    MergedIsWellFormed(list, a);
    TokensStep(list, records, a);
    FirstStep(list, records, a);
    SenderStep(list, records, a);
  }

  lemma ListAfterLast(records: seq<Altered>, a: Altered)
    ensures ListAfter(records + [a]) == Merged(ListAfter(records), a)
  {
    assert (records + [a])[..|records|] == records;
  }

  lemma OneRecordSummary(a: Altered)
    ensures Summarises([a], [a])
  {
    assert Tokens([]) == [];
    assert a in [a];
    assert TokensOf([a]) == [TokenOf(a)];
    assert Tokens([a]) == if IsTokenOperation(a) then [] + [TokenOf(a)] else [];
  }

  /**
   * After any run of records for an address, its list has one element for each token in order of
   * first appearance (or a single plain one), each as first recorded, and its first element is the
   * sender exactly when a plain record or a record about that first token was.
   */
  lemma {:induction false} RunSummary(records: seq<Altered>)
    requires records != []
    ensures Summarises(ListAfter(records), records)
  {
    var init, last := records[..|records| - 1], records[|records| - 1];
    ListAfterLast(init, last);
    assert records == init + [last];
    if init == [] {
      OneRecordSummary(last);
      assert records == [last];
    } else {
      RunSummary(init);
      SummaryStep(ListAfter(init), init, last);
    }
  }

  // ---------------------------------------------------------------- field by field

  /** A record about a token, of either kind. */
  predicate MovesToken(r: Altered) {
    r.isESDTOperation || r.isNFTOperation
  }

  predicate SameToken(r: Altered, e: Altered) {
    r.tokenIdentifier == e.tokenIdentifier && r.nftNonce == e.nftNonce
  }

  lemma {:induction false} TokensAreFields(records: seq<Altered>)
    ensures forall r :: r in records && MovesToken(r) ==> (r.tokenIdentifier, r.nftNonce) in Tokens(records)
    ensures forall t :: t in Tokens(records) ==> exists r :: r in records && MovesToken(r) && (r.tokenIdentifier, r.nftNonce) == t
  {
    if records != [] {
      var init, last := records[..|records| - 1], records[|records| - 1];
      assert records == init + [last];
      TokensAreFields(init);
    }
  }

  /** Each record about a token has an element with its identifier and nonce. */
  lemma RecordHasElement(records: seq<Altered>, r: Altered) returns (i: nat)
    requires r in records && MovesToken(r)
    ensures i < |ListAfter(records)| && SameToken(r, ListAfter(records)[i])
  {
    RunSummary(records);
    TokensAreFields(records);
    var token := (r.tokenIdentifier, r.nftNonce);
    assert token in Tokens(records);
    i :| 0 <= i < |Tokens(records)| && Tokens(records)[i] == token;
    assert TokensOf(ListAfter(records))[i] == token;
  }

  /** No two elements have the same identifier and nonce. */
  lemma ElementsDiffer(records: seq<Altered>, i: nat, j: nat)
    requires records != [] && i < j < |ListAfter(records)|
    ensures !SameToken(ListAfter(records)[i], ListAfter(records)[j])
  {
    RunSummary(records);
    assert TokenOf(ListAfter(records)[i]) != TokenOf(ListAfter(records)[j]);
  }

  /** Each element is about a token some record moved, if any record moved one. */
  lemma ElementHasRecord(records: seq<Altered>, i: nat) returns (r: Altered)
    requires i < |ListAfter(records)| && exists x :: x in records && MovesToken(x)
    ensures r in records && MovesToken(r) && SameToken(r, ListAfter(records)[i]) && MovesToken(ListAfter(records)[i])
  {
    RunSummary(records);
    TokensAreFields(records);
    assert IsFirstRecord(ListAfter(records)[i], i == 0, records);
    r := FirstOf(records, TokenOf(ListAfter(records)[i])).value;
  }

  /** Otherwise there is a single plain element. */
  lemma PlainElement(records: seq<Altered>)
    requires records != [] && forall r :: r in records ==> !MovesToken(r)
    ensures |ListAfter(records)| == 1 && !MovesToken(ListAfter(records)[0])
  {
    RunSummary(records);
    NoTokens(records);
  }

  /** Only the first element can be a sender: for a plain record, or one about that element's own token. */
  lemma SenderIsFirst(records: seq<Altered>)
    requires records != []
    ensures var list := ListAfter(records);
      && list != [] && (forall i :: 0 < i < |list| ==> !list[i].isSender)
      && (list[0].isSender <==> exists r :: r in records && r.isSender && (!MovesToken(r) || SameToken(r, list[0])))
  {
    RunSummary(records);
    var list := ListAfter(records);
    if r :| r in records && r.isSender && (!MovesToken(r) || SameToken(r, list[0])) {
      assert MarksSender(r, list);
    }
    if r :| r in records && MarksSender(r, list) {
      assert r.isSender && (!MovesToken(r) || SameToken(r, list[0]));
    }
  }

  // ---------------------------------------------------------------- records in place

  class AlteredAccount {
    var balanceChange: bool
    var isSender: bool
    var isESDTOperation: bool
    var isNFTOperation: bool
    var isNFTCreate: bool
    var tokenIdentifier: string
    var nftNonce: nat
    var tokenType: string

    function View(): Altered
      reads this
    {
      Altered(balanceChange, isSender, isESDTOperation, isNFTOperation, isNFTCreate, tokenIdentifier, nftNonce, tokenType)
    }
  }

  function Elements(list: seq<AlteredAccount>): (elements: set<AlteredAccount>)
    ensures forall i :: 0 <= i < |list| ==> list[i] in elements
  {
    set account | account in list
  }

  ghost function Views(list: seq<AlteredAccount>): (views: seq<Altered>)
    reads Elements(list)
    ensures |views| == |list|
  {
    seq(|list|, i requires 0 <= i < |list| reads Elements(list) => list[i].View())
  }

  ghost predicate AllDifferent(list: seq<AlteredAccount>) {
    forall i, j :: 0 <= i < j < |list| ==> list[i] != list[j]
  }

  lemma ViewsAppend(list: seq<AlteredAccount>, account: AlteredAccount)
    ensures Views(list + [account]) == Views(list) + [account.View()]
  {
  }

  /** A record without a token becomes the record of the token, and keeps its balance flag. */
  method Rewrite(elem: AlteredAccount, account: AlteredAccount, isSender: bool)
    requires elem != account
    modifies elem
    ensures elem.View() == account.View().(balanceChange := old(elem.balanceChange), isSender := isSender)
  {
    elem.tokenIdentifier := account.tokenIdentifier;
    elem.nftNonce := account.nftNonce;
    elem.isNFTOperation := account.isNFTOperation;
    elem.isESDTOperation := account.isESDTOperation;
    elem.isSender := isSender;
    elem.tokenType := account.tokenType;
    elem.isNFTCreate := account.isNFTCreate;
  }

  /** One turn of the loop of Add: `done` when the record was merged into element `i`. */
  method MergeElement(list: seq<AlteredAccount>, i: nat, account: AlteredAccount, senders: int)
    returns (done: bool, senderCount: int)
    requires account !in Elements(list) && AllDifferent(list) && WellFormed(Views(list)) && i < |list|
    requires IsTokenOperation(account.View()) && (i > 0 ==> IsTokenOperation(list[0].View()))
    requires senders == if account.isSender then i else if i > 0 && list[0].isSender then 1 else 0
    modifies Elements(list)
    ensures done ==> Views(list) == Merged(old(Views(list)), account.View())
    ensures !done ==> Views(list) == old(Views(list))
    ensures !done ==> IsTokenOperation(list[0].View()) && TokenOf(list[i].View()) != TokenOf(account.View())
    ensures !done ==> senderCount == if account.isSender then i + 1 else if list[0].isSender then 1 else 0
  {
    ghost var views := Views(list);
    var elem := list[i];
    assert elem.View() == views[i];
    senderCount := senders;
    var newElementIsTokenOperation := account.isESDTOperation || account.isNFTOperation;
    var oldElementIsTokenOperation := elem.isESDTOperation || elem.isNFTOperation;
    var isSender := elem.isSender || account.isSender;
    if isSender {
      senderCount := senderCount + 1;
    }
    if newElementIsTokenOperation && !oldElementIsTokenOperation {
      Rewrite(elem, account, isSender);
      assert Views(list) == views[i := elem.View()];
      return true, senderCount;
    }
    if elem.tokenIdentifier == account.tokenIdentifier && elem.nftNonce == account.nftNonce {
      MergedAt(views, account.View(), i);
      elem.isSender := (elem.isSender || account.isSender) && senderCount == 1;
      assert Views(list) == views[i := elem.View()];
      return true, senderCount;
    }
    return false, senderCount;
  }

  /** A record without a token only marks the sender. */
  method MarkSender(list: seq<AlteredAccount>, account: AlteredAccount)
    requires account !in Elements(list) && AllDifferent(list) && WellFormed(Views(list))
    requires !IsTokenOperation(account.View())
    modifies Elements(list)
    ensures Views(list) == Merged(old(Views(list)), account.View())
  {
    ghost var views := Views(list);
    list[0].isSender := list[0].isSender || account.isSender;
    assert Views(list) == views[0 := list[0].View()];
  }

  /** The loop of Add over the list of an address: merges a token record in place, unless it is missing. */
  method MergeFound(list: seq<AlteredAccount>, account: AlteredAccount) returns (missing: bool, senderCount: int)
    requires account !in Elements(list) && AllDifferent(list) && WellFormed(Views(list))
    requires IsTokenOperation(account.View())
    modifies Elements(list)
    ensures !missing ==> Views(list) == Merged(old(Views(list)), account.View())
    ensures missing ==> Views(list) == old(Views(list)) && AbsentIn(Views(list), |list|, TokenOf(account.View()))
    ensures missing ==> IsTokenOperation(Views(list)[0])
    ensures missing && account.isSender ==> senderCount > 0
  {
    ghost var views, added := Views(list), account.View();
    senderCount := 0;
    for i := 0 to |list|
      invariant senderCount == if added.isSender then i else if i > 0 && views[0].isSender then 1 else 0
      invariant i > 0 ==> IsTokenOperation(views[0])
      invariant AbsentIn(views, i, TokenOf(added))
      invariant Views(list) == views && account.View() == added
    {
      assert list[i].View() == views[i] && list[0].View() == views[0];
      var done;
      done, senderCount := MergeElement(list, i, account, senderCount);
      if done {
        return false, senderCount;
      }
    }
    return true, senderCount;
  }

  /** A token record that is missing has to be appended, with its sender flag cleared. */
  method MergeToken(list: seq<AlteredAccount>, account: AlteredAccount) returns (missing: bool)
    requires account !in Elements(list) && AllDifferent(list) && WellFormed(Views(list))
    requires IsTokenOperation(account.View())
    modifies Elements(list), account
    ensures !missing ==> Views(list) == Merged(old(Views(list)), old(account.View()))
    ensures missing ==> Views(list) == old(Views(list))
    ensures missing ==> Views(list) + [account.View()] == Merged(old(Views(list)), old(account.View()))
  {
    var senderCount;
    missing, senderCount := MergeFound(list, account);
    if missing {
      MergedNew(Views(list), account.View());
      if senderCount > 0 {
        account.isSender := false;
      }
    }
  }

  method MergeInto(list: seq<AlteredAccount>, account: AlteredAccount) returns (missing: bool)
    requires account !in Elements(list) && AllDifferent(list) && WellFormed(Views(list))
    modifies Elements(list), account
    ensures !missing ==> Views(list) == Merged(old(Views(list)), old(account.View()))
    ensures missing ==> Views(list) == old(Views(list))
    ensures missing ==> Views(list) + [account.View()] == Merged(old(Views(list)), old(account.View()))
  {
    var isTokenOperation := account.isESDTOperation || account.isNFTOperation;
    if !isTokenOperation {
      MarkSender(list, account);
      return false;
    }
    missing := MergeToken(list, account);
  }

  /** No record is in two places, and every list is well formed. */
  ghost predicate ValidLists(altered: map<string, seq<AlteredAccount>>, repr: set<AlteredAccount>)
    reads repr
  {
    && (forall k :: k in altered ==> Elements(altered[k]) <= repr && AllDifferent(altered[k]))
    && (forall k, l :: k in altered && l in altered && k != l ==> Elements(altered[k]) !! Elements(altered[l]))
    && (forall k :: k in altered ==> WellFormed(Views(altered[k])))
  }

  lemma ListGrows(altered: map<string, seq<AlteredAccount>>, repr: set<AlteredAccount>, key: string, account: AlteredAccount)
    requires ValidLists(altered, repr) && account !in repr
    requires WellFormed(Views((if key in altered then altered[key] else []) + [account]))
    ensures ValidLists(altered[key := (if key in altered then altered[key] else []) + [account]], repr + {account})
  {
    var list := (if key in altered then altered[key] else []) + [account];
    assert Elements(list) == (if key in altered then Elements(altered[key]) else {}) + {account};
    assert AllDifferent(list);
    assert forall k :: k in altered && k != key ==> Elements(altered[k]) !! Elements(list);
  }

  lemma ListStarts(altered: map<string, seq<AlteredAccount>>, repr: set<AlteredAccount>, key: string, account: AlteredAccount)
    requires ValidLists(altered, repr) && account !in repr && key !in altered
    ensures var empty := altered[key := []];
      empty[key := empty[key] + [account]] == altered[key := [account]]
    ensures ValidLists(altered[key := [account]], repr + {account})
  {
    assert [] + [account] == [account] && Views([account]) == [account.View()];
    ListGrows(altered, repr, key, account);
  }

  class AlteredAccountsMap {
    var altered: map<string, seq<AlteredAccount>>
    ghost var repr: set<AlteredAccount>

    ghost predicate Valid()
      reads this, repr
    {
      ValidLists(altered, repr)
    }

    /** The records of an address, none if it is not altered. */
    ghost function ListOf(key: string): seq<Altered>
      requires Valid()
      reads this, repr
    {
      if key in altered then Views(altered[key]) else []
    }

    constructor ()
      ensures Valid() && altered == map[] && repr == {}
    {
      altered, repr := map[], {};
    }

    /** The first record of an address. */
    method AddFirst(key: string, account: AlteredAccount)
      requires Valid() && account !in repr && key !in altered
      modifies this
      ensures Valid() && repr == old(repr) + {account} && altered == old(altered)[key := [account]]
    {
      ListStarts(altered, repr, key, account);
      altered := altered[key := []];
      altered := altered[key := altered[key] + [account]];
      repr := repr + {account};
    }

    /** A further record of an address, appended to its list. */
    method Append(key: string, account: AlteredAccount)
      requires Valid() && account !in repr && key in altered
      requires WellFormed(Views(altered[key]) + [account.View()])
      modifies this
      ensures Valid() && repr == old(repr) + {account}
      ensures altered == old(altered)[key := old(altered)[key] + [account]]
      ensures Views(altered[key]) == old(Views(altered[key])) + [account.View()]
      ensures forall k :: k in altered && k != key ==> Views(altered[k]) == old(Views(altered[k]))
    {
      ViewsAppend(altered[key], account);
      ListGrows(altered, repr, key, account);
      altered := altered[key := altered[key] + [account]];
      repr := repr + {account};
    }

    /** A further record of an address, unless it has to be appended. */
    method MergeExisting(key: string, account: AlteredAccount) returns (missing: bool)
      requires Valid() && account !in repr && key in altered
      modifies account, repr
      ensures Valid()
      ensures !missing ==> Views(altered[key]) == Merged(old(Views(altered[key])), old(account.View()))
      ensures missing ==> Views(altered[key]) + [account.View()] == Merged(old(Views(altered[key])), old(account.View()))
      ensures missing ==> WellFormed(Views(altered[key]) + [account.View()])
      ensures forall k :: k in altered && k != key ==> Views(altered[k]) == old(Views(altered[k]))
    {
      MergedIsWellFormed(Views(altered[key]), account.View());
      missing := MergeInto(altered[key], account);
    }

    /** A further record of an address. */
    method AddFurther(key: string, account: AlteredAccount)
      requires Valid() && account !in repr && key in altered
      modifies this, account, repr
      ensures Valid() && repr <= old(repr) + {account} && altered.Keys == old(altered.Keys)
      ensures Views(altered[key]) == Merged(old(Views(altered[key])), old(account.View()))
      ensures forall k :: k in altered && k != key ==> Views(altered[k]) == old(Views(altered[k]))
    {
      var missing := MergeExisting(key, account);
      if missing {
        Append(key, account);
      }
    }

    method Add(key: string, account: AlteredAccount)
      requires Valid() && account !in repr
      modifies this, account, repr
      ensures Valid() && repr <= old(repr) + {account} && altered.Keys == old(altered.Keys) + {key}
      ensures ListOf(key) == Merged(old(ListOf(key)), old(account.View()))
      ensures forall k :: k != key ==> ListOf(k) == old(ListOf(k))
    {
      if key !in altered {
        AddFirst(key, account);
        return;
      }
      AddFurther(key, account);
    }
  }

  // ---------------------------------------------------------------- every run of the map

  datatype Addition = Addition(key: string, account: Altered)

  /** The records the first `n` additions bring for an address. */
  function RecordsTo(additions: seq<Addition>, n: nat, key: string): seq<Altered>
    requires n <= |additions|
  {
    if n == 0 then []
    else
      RecordsTo(additions, n - 1, key) + if additions[n - 1].key == key then [additions[n - 1].account] else []
  }

  /** The list of an address after the first `n` additions. */
  function RunTo(additions: seq<Addition>, n: nat, key: string): seq<Altered>
    requires n <= |additions|
  {
    if n == 0 then []
    else
      var list := RunTo(additions, n - 1, key);
      if additions[n - 1].key == key then Merged(list, additions[n - 1].account) else list
  }

  /** Only an address's own records count. */
  lemma {:induction false} RunIsOwnRecords(additions: seq<Addition>, n: nat, key: string)
    requires n <= |additions|
    ensures RunTo(additions, n, key) == ListAfter(RecordsTo(additions, n, key))
  {
    if n > 0 {
      RunIsOwnRecords(additions, n - 1, key);
      var before := RecordsTo(additions, n - 1, key);
      if additions[n - 1].key == key {
        assert (before + [additions[n - 1].account])[..|before|] == before;
      } else {
        assert before + [] == before;
      }
    }
  }

  method NewAlteredAccount(a: Altered) returns (account: AlteredAccount)
    ensures fresh(account) && account.View() == a
  {
    account := new AlteredAccount;
    account.balanceChange, account.isSender, account.isESDTOperation := a.balanceChange, a.isSender, a.isESDTOperation;
    account.isNFTOperation, account.isNFTCreate := a.isNFTOperation, a.isNFTCreate;
    account.tokenIdentifier, account.nftNonce, account.tokenType := a.tokenIdentifier, a.nftNonce, a.tokenType;
  }

  method AddFresh(accounts: AlteredAccountsMap, a: Addition)
    requires accounts.Valid()
    modifies accounts, accounts.repr
    ensures accounts.Valid() && fresh(accounts.repr - old(accounts.repr))
    ensures accounts.ListOf(a.key) == Merged(old(accounts.ListOf(a.key)), a.account)
    ensures forall k :: k != a.key ==> accounts.ListOf(k) == old(accounts.ListOf(k))
  {
    var account := NewAlteredAccount(a.account);
    assert accounts.Valid() && forall k :: accounts.ListOf(k) == old(accounts.ListOf(k));
    accounts.Add(a.key, account);
  }

  lemma NextList(additions: seq<Addition>, i: nat, accounts: AlteredAccountsMap, key: string, before: seq<Altered>)
    requires accounts.Valid() && i < |additions| && before == RunTo(additions, i, key)
    requires accounts.ListOf(key) == if additions[i].key == key then Merged(before, additions[i].account) else before
    ensures accounts.ListOf(key) == RunTo(additions, i + 1, key)
  {
  }

  /** The map holds what the first `n` additions come to. */
  ghost predicate Holds(accounts: AlteredAccountsMap, additions: seq<Addition>, n: nat)
    requires n <= |additions| && accounts.Valid()
    reads accounts, accounts.repr
  {
    forall key :: accounts.ListOf(key) == RunTo(additions, n, key)
  }

  method AddNext(accounts: AlteredAccountsMap, additions: seq<Addition>, n: nat)
    requires n < |additions| && accounts.Valid() && Holds(accounts, additions, n)
    modifies accounts, accounts.repr
    ensures accounts.Valid() && fresh(accounts.repr - old(accounts.repr))
    ensures Holds(accounts, additions, n + 1)
  {
    AddFresh(accounts, additions[n]);
    forall key
      ensures accounts.ListOf(key) == RunTo(additions, n + 1, key)
    {
      NextList(additions, n, accounts, key, RunTo(additions, n, key));
    }
  }

  /** Fresh records added in any sequence, to the map and its records themselves. */
  method AddAll(additions: seq<Addition>) returns (accounts: AlteredAccountsMap)
    ensures fresh(accounts) && accounts.Valid() && Holds(accounts, additions, |additions|)
  {
    accounts := new AlteredAccountsMap();
    for i := 0 to |additions|
      invariant fresh(accounts) && fresh(accounts.repr) && accounts.Valid()
      invariant Holds(accounts, additions, i)
    {
      AddNext(accounts, additions, i);
    }
  }
}
