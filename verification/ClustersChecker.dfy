/**
 * Comparison of one index in two clusters. Both clusters are read page by page; documents that are
 * not found in the page read at the same time are buffered and matched later.
 */
module ClustersChecker {
  import opened Wrappers

  const CHECK_ACCUMULATE_INTERVAL := 10

  datatype Hit = Hit(id: string, source: string)

  /** A scroll id: the next page of an index, or none once the stream is done. */
  datatype ScrollId = NoScroll | At(index: string, page: nat)

  function PageMap(page: seq<Hit>): map<string, string> {
    if page == [] then map[]
    else PageMap(page[..|page| - 1])[page[|page| - 1].id := page[|page| - 1].source]
  }

  /** A page's map has exactly the ids of its hits, each with the source of its last hit. */
  lemma {:induction false} PageMapHits(page: seq<Hit>)
    ensures forall id :: id in PageMap(page) <==> exists i :: 0 <= i < |page| && page[i].id == id
    ensures forall i :: 0 <= i < |page| && (forall j :: i < j < |page| ==> page[j].id != page[i].id) ==>
      page[i].id in PageMap(page) && PageMap(page)[page[i].id] == page[i].source
  {
    if page != [] {
      var init, last := page[..|page| - 1], page[|page| - 1];
      PageMapHits(init);
      assert forall i :: 0 <= i < |init| ==> init[i] == page[i];
      forall id
        ensures id in PageMap(page) <==> exists i :: 0 <= i < |page| && page[i].id == id
      {
        if id in PageMap(init) {
          var i :| 0 <= i < |init| && init[i].id == id;
          assert page[i].id == id;
        }
        assert page[|page| - 1].id == last.id;
      }
    }
  }

  /** One cluster as the checker's query sees it: the pages of each index. */
  datatype Client = Client(pages: map<string, seq<seq<Hit>>>) {
    function Pages(index: string): seq<seq<Hit>> {
      if index in pages then pages[index] else []
    }

    /** An exhausted stream yields empty pages. */
    function Page(index: string, n: nat): seq<Hit> {
      if n < |Pages(index)| then Pages(index)[n] else []
    }

    /** A stream has no empty page before its end, and no document on two pages. */
    ghost predicate Streams(index: string) {
      && (forall n :: 0 <= n < |Pages(index)| ==> Pages(index)[n] != [])
      && (forall m, n :: 0 <= m < n < |Pages(index)| ==> PageMap(Pages(index)[m]).Keys !! PageMap(Pages(index)[n]).Keys)
    }

    /** The documents of the first `n` pages. */
    ghost function ReadTo(index: string, n: nat): map<string, string> {
      if n == 0 then map[] else ReadTo(index, n - 1) + PageMap(Page(index, n - 1))
    }

    ghost function Documents(index: string): map<string, string> {
      ReadTo(index, |Pages(index)|)
    }

    lemma {:induction false} ReadAll(index: string, n: nat)
      requires n >= |Pages(index)|
      ensures ReadTo(index, n) == Documents(index)
    {
      if n > |Pages(index)| {
        ReadAll(index, n - 1);
        assert ReadTo(index, n) == ReadTo(index, n - 1) + map[];
      }
    }

    lemma {:induction false} NewPage(index: string, n: nat, m: nat)
      requires Streams(index) && m <= n
      ensures PageMap(Page(index, n)).Keys !! ReadTo(index, m).Keys
    {
      if m > 0 {
        NewPage(index, n, m - 1);
      }
    }

    /** No two hits of a page share an id. */
    ghost predicate DistinctHits(index: string) {
      forall page: seq<Hit>, i, j :: page in Pages(index) && 0 <= i < j < |page| ==> page[i].id != page[j].id
    }

    lemma {:induction false} HitIsRead(index: string, n: nat, m: nat, id: string)
      requires Streams(index) && m < n <= |Pages(index)| && id in PageMap(Pages(index)[m])
      ensures id in ReadTo(index, n) && ReadTo(index, n)[id] == PageMap(Pages(index)[m])[id]
    {
      if m < n - 1 {
        HitIsRead(index, n - 1, m, id);
        assert PageMap(Pages(index)[m]).Keys !! PageMap(Pages(index)[n - 1]).Keys;
      }
    }

    lemma {:induction false} ReadIsHit(index: string, n: nat, id: string) returns (m: nat, i: nat)
      requires n <= |Pages(index)| && id in ReadTo(index, n)
      ensures m < n && i < |Pages(index)[m]| && Pages(index)[m][i].id == id
    {
      var page := Pages(index)[n - 1];
      PageMapHits(page);
      if id in PageMap(page) {
        m := n - 1;
        i :| 0 <= i < |page| && page[i].id == id;
      } else {
        m, i := ReadIsHit(index, n - 1, id);
      }
    }

    /** A stream's hit is among its documents, with its own source. */
    lemma HitIsDocument(index: string, page: seq<Hit>, hit: Hit)
      requires Streams(index) && DistinctHits(index) && page in Pages(index) && hit in page
      ensures hit.id in Documents(index) && Documents(index)[hit.id] == hit.source
    {
      var m :| 0 <= m < |Pages(index)| && Pages(index)[m] == page;
      var i :| 0 <= i < |page| && page[i] == hit;
      PageMapHits(page);
      assert page[i].id in PageMap(page) && PageMap(page)[page[i].id] == page[i].source;
      HitIsRead(index, |Pages(index)|, m, hit.id);
    }

    /** And each of its documents is a hit. */
    lemma DocumentIsHit(index: string, id: string) returns (page: seq<Hit>, hit: Hit)
      requires Streams(index) && DistinctHits(index) && id in Documents(index)
      ensures page in Pages(index) && hit in page && hit == Hit(id, Documents(index)[id])
    {
      var m, i := ReadIsHit(index, |Pages(index)|, id);
      page, hit := Pages(index)[m], Pages(index)[m][i];
      HitIsDocument(index, page, hit);
    }

    lemma DocumentsAreHits(index: string, id: string)
      requires Streams(index) && DistinctHits(index)
      ensures id in Documents(index) <==> exists page, hit :: page in Pages(index) && hit in page && hit.id == id
      ensures forall page, hit :: page in Pages(index) && hit in page && hit.id == id ==>
        id in Documents(index) && Documents(index)[id] == hit.source
    {
      if id in Documents(index) {
        var page, hit := DocumentIsHit(index, id);
      }
      forall page, hit | page in Pages(index) && hit in page && hit.id == id
        ensures id in Documents(index) && Documents(index)[id] == hit.source
      {
        HitIsDocument(index, page, hit);
      }
    }

    /** A search request: the scroll to go on with, whether there is nothing at all, and the first page. */
    function InitializeScroll(index: string): (ScrollId, bool, seq<Hit>) {
      (At(index, 1), Page(index, 0) == [], Page(index, 0))
    }

    function DoScrollRequest(scroll: ScrollId): (ScrollId, bool, seq<Hit>) {
      match scroll
      case NoScroll => (NoScroll, true, [])
      case At(index, n) => (At(index, n + 1), Page(index, n) == [], Page(index, n))
    }
  }

  method ConvertResponseInMap(page: seq<Hit>) returns (mapResponse: map<string, string>)
    ensures mapResponse == PageMap(page)
    ensures forall id :: id in mapResponse <==> exists i :: 0 <= i < |page| && page[i].id == id
    ensures forall i :: 0 <= i < |page| && (forall j :: i < j < |page| ==> page[j].id != page[i].id) ==>
      page[i].id in mapResponse && mapResponse[page[i].id] == page[i].source
  {
    mapResponse := map[];
    for i := 0 to |page|
      invariant mapResponse == PageMap(page[..i])
    {
      mapResponse := mapResponse[page[i].id := page[i].source];
      assert page[..i + 1][..i] == page[..i];
    }
    assert page[..|page|] == page;
    PageMapHits(page);
  }

  /** Any paging without an empty page, of hits that have an id each, will do. */
  lemma AnyPaging(client: Client, index: string)
    requires forall n :: 0 <= n < |client.Pages(index)| ==> client.Pages(index)[n] != []
    requires forall m, n, i, j |
      0 <= m < |client.Pages(index)| && 0 <= n < |client.Pages(index)| &&
      0 <= i < |client.Pages(index)[m]| && 0 <= j < |client.Pages(index)[n]| && (m != n || i != j) ::
      client.Pages(index)[m][i].id != client.Pages(index)[n][j].id
    ensures client.Streams(index) && client.DistinctHits(index)
  {
    var pages := client.Pages(index);
    forall m, n | 0 <= m < n < |pages|
      ensures PageMap(pages[m]).Keys !! PageMap(pages[n]).Keys
    {
      PageMapHits(pages[m]);
      PageMapHits(pages[n]);
    }
    forall page: seq<Hit>, i, j | page in pages && 0 <= i < j < |page|
      ensures page[i].id != page[j].id
    {
      var m :| 0 <= m < |pages| && pages[m] == page;
      assert pages[m][i].id != pages[m][j].id;
    }
  }

  datatype Report =
    | AbsentFromDestination(index: string, id: string)
    | AbsentFromSource(index: string, id: string)
    | Different(index: string, id: string)
    | NotComparable(index: string, id: string)

  /** What comparing two documents reports, given the outcome of `areEqualJSON`. */
  function Verdict(index: string, id: string, equal: Option<bool>): multiset<Report> {
    match equal
    case None => multiset{NotComparable(index, id)}
    case Some(false) => multiset{Different(index, id)}
    case Some(true) => multiset{}
  }

  // ---------------------------------------------------------------- what has to be reported

  /** What a full comparison of `source` with `destination` reports, by plain set difference. */
  ghost function Expected(
    r: Report, source: map<string, string>, destination: map<string, string>,
    onlyIDs: bool, areEqualJSON: (string, string) -> Option<bool>): nat
  {
    var both := r.id in source && r.id in destination;
    if (match r
        case AbsentFromDestination(_, id) => id in source && id !in destination
        case AbsentFromSource(_, id) => id in destination && id !in source
        case Different(_, id) => both && !onlyIDs && areEqualJSON(source[id], destination[id]) == Some(false)
        case NotComparable(_, id) => both && !onlyIDs && areEqualJSON(source[id], destination[id]) == None)
    then 1 else 0
  }

  // ---------------------------------------------------------------- the invariant

  /** The checker's fields. */
  datatype View = View(
    missingFromSource: map<string, string>, missingFromDestination: map<string, string>,
    log: multiset<Report>, compared: multiset<(string, string)>)

  /** An index under comparison: what was logged before it and what has been read and told so far. */
  datatype Progress = Progress(
    index: string, onlyIDs: bool, areEqualJSON: (string, string) -> Option<bool>,
    log: multiset<Report>, compared: multiset<(string, string)>,
    source: map<string, string>, destination: map<string, string>,
    toldAbsentFromDestination: set<string>, toldAbsentFromSource: set<string>)

  /** Read from both clusters and no longer buffered. */
  ghost predicate Settled(p: Progress, v: View, id: string) {
    id in p.source && id in p.destination && id !in v.missingFromSource
  }

  ghost function Due(p: Progress, v: View, r: Report): nat {
    if r.index == p.index &&
      (match r
       case AbsentFromDestination(_, id) => id in p.toldAbsentFromDestination
       case AbsentFromSource(_, id) => id in p.toldAbsentFromSource
       case Different(_, id) =>
         Settled(p, v, id) && !p.onlyIDs && p.areEqualJSON(p.source[id], p.destination[id]) == Some(false)
       case NotComparable(_, id) =>
         Settled(p, v, id) && !p.onlyIDs && p.areEqualJSON(p.source[id], p.destination[id]) == None)
    then 1 else 0
  }

  /** The maps hold what was read and not settled. */
  ghost predicate Buffered(p: Progress, v: View) {
    && (forall id :: id in v.missingFromSource ==> id in p.source && v.missingFromSource[id] == p.source[id])
    && (forall id :: id in v.missingFromDestination ==>
          id in p.destination && v.missingFromDestination[id] == p.destination[id])
    && (forall id :: id in p.source && id !in v.missingFromSource ==>
          id in p.destination && id !in v.missingFromDestination)
    && (forall id :: id in p.destination && id !in v.missingFromDestination ==>
          id in p.source && id !in v.missingFromSource)
  }

  ghost predicate Logged(p: Progress, v: View) {
    forall r :: v.log[r] == p.log[r] + Due(p, v, r)
  }

  function Once(b: bool): nat {
    if b then 1 else 0
  }

  /** Every settled document was compared exactly once. */
  ghost predicate ComparedOnce(p: Progress, v: View) {
    forall index, id :: v.compared[(index, id)] ==
      p.compared[(index, id)] + Once(index == p.index && Settled(p, v, id) && !p.onlyIDs)
  }

  ghost predicate Consistent(p: Progress, v: View) {
    Buffered(p, v) && Logged(p, v) && ComparedOnce(p, v)
  }

  ghost predicate Extends(m: map<string, string>, n: map<string, string>) {
    forall id :: id in m ==> id in n && n[id] == m[id]
  }

  lemma NothingReadYet(p: Progress, v: View)
    requires p.source == map[] && p.destination == map[] && p.toldAbsentFromDestination == p.toldAbsentFromSource == {}
    requires v == View(map[], map[], p.log, p.compared)
    ensures Consistent(p, v)
  {
  }

  /** Steps that settle nothing and tell nothing new leave the log as it is. */
  lemma SameLog(p: Progress, v: View, p': Progress, v': View)
    requires Logged(p, v) && ComparedOnce(p, v)
    requires p' == p.(source := p'.source, destination := p'.destination)
    requires Extends(p.source, p'.source) && Extends(p.destination, p'.destination)
    requires v'.log == v.log && v'.compared == v.compared
    requires forall id :: Settled(p', v', id) <==> Settled(p, v, id)
    ensures Logged(p', v') && ComparedOnce(p', v')
  {
    forall r
      ensures v'.log[r] == p'.log[r] + Due(p', v', r)
    {
      assert v.log[r] == p.log[r] + Due(p, v, r);
      assert Settled(p', v', r.id) <==> Settled(p, v, r.id);
    }
    forall index, id
      ensures v'.compared[(index, id)] ==
        p'.compared[(index, id)] + Once(index == p'.index && Settled(p', v', id) && !p'.onlyIDs)
    {
      assert Settled(p', v', id) <==> Settled(p, v, id);
    }
  }

  /** The log and the comparisons after comparing document `id`, which `onlyIDs` skips. */
  function Compared(v: View, onlyIDs: bool, index: string, id: string, equal: Option<bool>): View {
    if onlyIDs then v
    else v.(log := v.log + Verdict(index, id, equal), compared := v.compared + multiset{(index, id)})
  }

  /** Steps that settle one document add its verdict and one comparison. */
  lemma OneMoreSettled(p: Progress, v: View, p': Progress, v': View, id: string)
    requires Logged(p, v) && ComparedOnce(p, v)
    requires p' == p.(source := p'.source, destination := p'.destination)
    requires Extends(p.source, p'.source) && Extends(p.destination, p'.destination)
    requires !Settled(p, v, id) && Settled(p', v', id)
    requires forall k :: Settled(p', v', k) <==> Settled(p, v, k) || k == id
    requires var told := Compared(v, p.onlyIDs, p.index, id, p.areEqualJSON(p'.source[id], p'.destination[id]));
      v'.log == told.log && v'.compared == told.compared
    ensures Logged(p', v') && ComparedOnce(p', v')
  {
    var equal := p.areEqualJSON(p'.source[id], p'.destination[id]);
    forall r
      ensures v'.log[r] == p'.log[r] + Due(p', v', r)
    {
      assert v.log[r] == p.log[r] + Due(p, v, r);
      assert Settled(p', v', r.id) <==> Settled(p, v, r.id) || r.id == id;
      assert !p.onlyIDs ==> v'.log[r] == v.log[r] + Verdict(p.index, id, equal)[r];
    }
    forall index, k
      ensures v'.compared[(index, k)] ==
        p'.compared[(index, k)] + Once(index == p'.index && Settled(p', v', k) && !p'.onlyIDs)
    {
      assert Settled(p', v', k) <==> Settled(p, v, k) || k == id;
      assert v.compared[(index, k)] == p.compared[(index, k)] + Once(index == p.index && Settled(p, v, k) && !p.onlyIDs);
    }
  }

  lemma BufferSource(p: Progress, v: View, id: string, doc: string)
    requires Consistent(p, v) && id !in p.source
    ensures Consistent(p.(source := p.source[id := doc]), v.(missingFromSource := v.missingFromSource[id := doc]))
  {
    SameLog(p, v, p.(source := p.source[id := doc]), v.(missingFromSource := v.missingFromSource[id := doc]));
  }

  lemma BufferDestination(p: Progress, v: View, id: string, doc: string)
    requires Consistent(p, v) && id !in p.destination
    ensures Consistent(p.(destination := p.destination[id := doc]),
                       v.(missingFromDestination := v.missingFromDestination[id := doc]))
  {
    SameLog(p, v, p.(destination := p.destination[id := doc]), v.(missingFromDestination := v.missingFromDestination[id := doc]));
  }

  lemma SameMapsBuffered(p: Progress, v: View, p': Progress, id: string)
    requires Buffered(p, v) && id !in p.source && id !in p.destination
    requires id in p'.source && id in p'.destination
    requires p'.source == p.source[id := p'.source[id]] && p'.destination == p.destination[id := p'.destination[id]]
    ensures Buffered(p', v)
    ensures forall k :: Settled(p', v, k) <==> Settled(p, v, k) || k == id
    ensures Extends(p.source, p'.source) && Extends(p.destination, p'.destination)
  {
  }

  lemma SettleDirectly(p: Progress, v: View, id: string, a: string, b: string)
    requires Consistent(p, v) && id !in p.source && id !in p.destination
    ensures Consistent(p.(source := p.source[id := a], destination := p.destination[id := b]),
                       Compared(v, p.onlyIDs, p.index, id, p.areEqualJSON(a, b)))
  {
    var p' := p.(source := p.source[id := a], destination := p.destination[id := b]);
    var v' := Compared(v, p.onlyIDs, p.index, id, p.areEqualJSON(a, b));
    SameMapsBuffered(p, v, p', id);
    assert v'.missingFromSource == v.missingFromSource && v'.missingFromDestination == v.missingFromDestination;
    assert forall k :: Settled(p', v', k) <==> Settled(p', v, k);
    OneMoreSettled(p, v, p', v', id);
  }

  lemma SettleBuffered(p: Progress, v: View, id: string)
    requires Consistent(p, v) && id in v.missingFromSource && id in v.missingFromDestination
    ensures Consistent(p,
      Compared(v.(missingFromSource := v.missingFromSource - {id},
                  missingFromDestination := v.missingFromDestination - {id}),
               p.onlyIDs, p.index, id, p.areEqualJSON(v.missingFromSource[id], v.missingFromDestination[id])))
  {
    var v' := Compared(v.(missingFromSource := v.missingFromSource - {id},
                          missingFromDestination := v.missingFromDestination - {id}),
                       p.onlyIDs, p.index, id, p.areEqualJSON(v.missingFromSource[id], v.missingFromDestination[id]));
    OneMoreSettled(p, v, p, v', id);
  }

  lemma TellAbsentFromDestination(p: Progress, v: View, id: string)
    requires Consistent(p, v) && id !in p.toldAbsentFromDestination
    ensures Consistent(p.(toldAbsentFromDestination := p.toldAbsentFromDestination + {id}),
                       v.(log := v.log + multiset{AbsentFromDestination(p.index, id)}))
  {
    var p' := p.(toldAbsentFromDestination := p.toldAbsentFromDestination + {id});
    var v' := v.(log := v.log + multiset{AbsentFromDestination(p.index, id)});
    forall r
      ensures v'.log[r] == p'.log[r] + Due(p', v', r)
    {
      assert v.log[r] == p.log[r] + Due(p, v, r);
      assert Settled(p', v', r.id) <==> Settled(p, v, r.id);
    }
    assert forall id :: Settled(p', v', id) <==> Settled(p, v, id);
  }

  lemma TellAbsentFromSource(p: Progress, v: View, id: string)
    requires Consistent(p, v) && id !in p.toldAbsentFromSource
    ensures Consistent(p.(toldAbsentFromSource := p.toldAbsentFromSource + {id}),
                       v.(log := v.log + multiset{AbsentFromSource(p.index, id)}))
  {
    var p' := p.(toldAbsentFromSource := p.toldAbsentFromSource + {id});
    var v' := v.(log := v.log + multiset{AbsentFromSource(p.index, id)});
    forall r
      ensures v'.log[r] == p'.log[r] + Due(p', v', r)
    {
      assert v.log[r] == p.log[r] + Due(p, v, r);
      assert Settled(p', v', r.id) <==> Settled(p, v, r.id);
    }
    assert forall id :: Settled(p', v', id) <==> Settled(p, v, id);
  }

  /** Everything there is to report about the index has been reported, and nothing else. */
  ghost predicate Complete(p: Progress, log: multiset<Report>, compared: multiset<(string, string)>) {
    && (forall r :: log[r] == p.log[r] +
          if r.index == p.index then Expected(r, p.source, p.destination, p.onlyIDs, p.areEqualJSON) else 0)
    && (forall index, id :: compared[(index, id)] == p.compared[(index, id)] +
          Once(index == p.index && id in p.source && id in p.destination && !p.onlyIDs))
  }

  /** Once no id is buffered on both sides, what is buffered is the set difference in both directions. */
  lemma BuffersAreDifferences(p: Progress, v: View)
    requires Buffered(p, v) && v.missingFromSource.Keys !! v.missingFromDestination.Keys
    ensures forall id :: id in v.missingFromSource <==> id in p.source && id !in p.destination
    ensures forall id :: id in v.missingFromDestination <==> id in p.destination && id !in p.source
    ensures forall id :: Settled(p, v, id) <==> id in p.source && id in p.destination
  {
  }

  lemma AllTold(p: Progress, v: View)
    requires Consistent(p, v) && v.missingFromSource.Keys !! v.missingFromDestination.Keys
    requires p.toldAbsentFromDestination == v.missingFromSource.Keys
    requires p.toldAbsentFromSource == v.missingFromDestination.Keys
    ensures Complete(p, v.log, v.compared)
  {
    BuffersAreDifferences(p, v);
    forall r
      ensures v.log[r] == p.log[r] +
        if r.index == p.index then Expected(r, p.source, p.destination, p.onlyIDs, p.areEqualJSON) else 0
    {
      assert v.log[r] == p.log[r] + Due(p, v, r);
      assert Settled(p, v, r.id) <==> r.id in p.source && r.id in p.destination;
    }
  }

  lemma NothingToTell(p: Progress, v: View)
    requires Consistent(p, v) && p.source == map[] && p.destination == map[]
    requires p.toldAbsentFromDestination == p.toldAbsentFromSource == {}
    ensures v.missingFromSource == map[] && v.missingFromDestination == map[]
    ensures Complete(p, v.log, v.compared)
  {
    assert v.missingFromSource == map[] && v.missingFromDestination == map[];
    AllTold(p, v);
  }

  // ---------------------------------------------------------------- pages and streams

  function Times(indices: seq<string>, n: nat, index: string): nat
    requires n <= |indices|
  {
    if n == 0 then 0 else Times(indices, n - 1, index) + (if indices[n - 1] == index then 1 else 0)
  }

  /** Where a stream of which `n` pages were read, or which is done, goes on. */
  ghost predicate ReadsFrom(client: Client, scroll: ScrollId, done: bool, index: string, n: nat) {
    if done then n >= |client.Pages(index)| else scroll == At(index, n) && n <= |client.Pages(index)| + 1
  }

  function Only(m: map<string, string>, ids: set<string>): map<string, string> {
    map id | id in m && id in ids :: m[id]
  }

  /** Progress once the documents `done` of two pages are read. */
  ghost function WithRead(p: Progress, source: map<string, string>, destination: map<string, string>, done: set<string>): Progress {
    p.(source := p.source + Only(source, done), destination := p.destination + Only(destination, done))
  }

  lemma NothingRead(p: Progress, source: map<string, string>, destination: map<string, string>)
    ensures WithRead(p, source, destination, {}) == p
  {
    assert p.source + Only(source, {}) == p.source;
    assert p.destination + Only(destination, {}) == p.destination;
  }

  lemma EverythingRead(p: Progress, source: map<string, string>, destination: map<string, string>, done: set<string>)
    requires source.Keys <= done && destination.Keys <= done
    ensures WithRead(p, source, destination, done) ==
      p.(source := p.source + source, destination := p.destination + destination)
  {
    assert Only(source, done) == source;
    assert Only(destination, done) == destination;
  }

  lemma OnlyOneMore(m: map<string, string>, page: map<string, string>, done: set<string>, id: string)
    requires id !in done
    ensures m + Only(page, done + {id}) == if id in page then (m + Only(page, done))[id := page[id]] else m + Only(page, done)
    ensures page - done - {id} == page - (done + {id})
  {
    if id !in page {
      assert Only(page, done + {id}) == Only(page, done);
    }
  }

  lemma ReadOne(p: Progress, source: map<string, string>, destination: map<string, string>, done: set<string>, id: string)
    requires id !in done
    ensures var before, after := WithRead(p, source, destination, done), WithRead(p, source, destination, done + {id});
      after == before.(
        source := if id in source then before.source[id := source[id]] else before.source,
        destination := if id in destination - done then before.destination[id := destination[id]] else before.destination)
    ensures destination - done - {id} == destination - (done + {id})
  {
    OnlyOneMore(p.source, source, done, id);
    OnlyOneMore(p.destination, destination, done, id);
  }

  // ---------------------------------------------------------------- the checker

  class ClusterChecker {
    var missingFromSource: map<string, string>
    var missingFromDestination: map<string, string>
    const clientSource: Client
    const clientDestination: Client
    const indicesWithTimestamp: seq<string>
    const onlyIDs: bool
    const areEqualJSON: (string, string) -> Option<bool>
    var log: multiset<Report>  // the warnings given; their order is that of map iteration
    ghost var compared: multiset<(string, string)>  // every comparison of two documents, by index and id

    /** Between two indices both maps are empty. */
    ghost predicate Idle()
      reads this
    {
      missingFromSource == map[] && missingFromDestination == map[]
    }

    constructor (source: Client, destination: Client, indices: seq<string>, onlyIDs: bool,
                 areEqualJSON: (string, string) -> Option<bool>)
      ensures Idle() && log == multiset{} && compared == multiset{}
      ensures clientSource == source && clientDestination == destination && indicesWithTimestamp == indices
      ensures this.onlyIDs == onlyIDs && this.areEqualJSON == areEqualJSON
    {
      missingFromSource, missingFromDestination := map[], map[];
      clientSource, clientDestination, indicesWithTimestamp := source, destination, indices;
      this.onlyIDs, this.areEqualJSON := onlyIDs, areEqualJSON;
      log, compared := multiset{}, multiset{};
    }

    ghost function State(): View
      reads this
    {
      View(missingFromSource, missingFromDestination, log, compared)
    }

    /** `p` describes what this checker has done on its current index. */
    ghost predicate Tracks(p: Progress)
      reads this
    {
      && p.onlyIDs == onlyIDs && p.areEqualJSON == areEqualJSON
      && forall v :: v == State() ==> Consistent(p, v)
    }

    method CompareDocuments(index: string, id: string, rawDataSource: string, rawDataDestination: string)
      modifies this`log, this`compared
      ensures State() == Compared(old(State()), onlyIDs, index, id, areEqualJSON(rawDataSource, rawDataDestination))
    {
      if onlyIDs {
        return;
      }
      compared := compared + multiset{(index, id)};
      var equal := areEqualJSON(rawDataSource, rawDataDestination);
      if equal.None? {
        log := log + multiset{NotComparable(index, id)};
        return;
      }
      if !equal.value {
        log := log + multiset{Different(index, id)};
      }
    }

    /** One document of the source page; the rest of the destination page is returned. */
    method CompareHit(index: string, id: string, rawDataSource: string, mapDestination: map<string, string>, ghost p: Progress)
      returns (rest: map<string, string>)
      requires p.index == index && Tracks(p) && id !in p.source && (id in mapDestination ==> id !in p.destination)
      modifies this
      ensures rest == mapDestination - {id}
      ensures Tracks(p.(
        source := p.source[id := rawDataSource],
        destination := if id in mapDestination then p.destination[id := mapDestination[id]] else p.destination))
    {
      rest := mapDestination - {id};
      if id !in mapDestination {
        BufferSource(p, State(), id, rawDataSource);
        missingFromSource := missingFromSource[id := rawDataSource];
        assert State() == old(State()).(missingFromSource := old(missingFromSource)[id := rawDataSource]);
      } else {
        SettleDirectly(p, State(), id, rawDataSource, mapDestination[id]);
        CompareDocuments(index, id, rawDataSource, mapDestination[id]);
      }
    }

    /** A document of the destination page that the source page does not hold. */
    method BufferHit(id: string, rawData: string, ghost p: Progress)
      requires Tracks(p) && id !in p.destination
      modifies this
      ensures Tracks(p.(destination := p.destination[id := rawData]))
    {
      BufferDestination(p, State(), id, rawData);
      missingFromDestination := missingFromDestination[id := rawData];
      assert State() == old(State()).(missingFromDestination := old(missingFromDestination)[id := rawData]);
    }

    /** The first loop of CompareResults: the source page, against the destination page. */
    method CompareSourcePage(index: string, mapSource: map<string, string>, page: map<string, string>, ghost p: Progress)
      returns (rest: map<string, string>)
      requires p.index == index && Tracks(p)
      requires mapSource.Keys !! p.source.Keys && page.Keys !! p.destination.Keys
      modifies this
      ensures rest == page - mapSource.Keys
      ensures Tracks(WithRead(p, mapSource, page, mapSource.Keys))
    {
      rest := page;
      ghost var done: set<string> := {};
      NothingRead(p, mapSource, page);
      var pending := mapSource.Keys;
      while pending != {}
        invariant done !! pending && done + pending == mapSource.Keys
        invariant rest == page - done
        invariant Tracks(WithRead(p, mapSource, page, done))
        decreases pending
      {
        var id :| id in pending;
        ReadOne(p, mapSource, page, done, id);
        rest := CompareHit(index, id, mapSource[id], rest, WithRead(p, mapSource, page, done));
        done := done + {id};
        pending := pending - {id};
      }
      assert done == mapSource.Keys;
    }

    /** The second loop: what is left of the destination page. */
    method BufferDestinationPage(mapSource: map<string, string>, page: map<string, string>, rest: map<string, string>, ghost p: Progress)
      requires rest == page - mapSource.Keys && page.Keys !! p.destination.Keys
      requires Tracks(WithRead(p, mapSource, page, mapSource.Keys))
      modifies this
      ensures Tracks(p.(source := p.source + mapSource, destination := p.destination + page))
    {
      ghost var done := mapSource.Keys;
      var pending := rest.Keys;
      while pending != {}
        invariant pending <= rest.Keys && done !! pending
        invariant mapSource.Keys <= done && page.Keys <= done + pending
        invariant Tracks(WithRead(p, mapSource, page, done))
        decreases pending
      {
        var id :| id in pending;
        ReadOne(p, mapSource, page, done, id);
        BufferHit(id, rest[id], WithRead(p, mapSource, page, done));
        done := done + {id};
        pending := pending - {id};
      }
      EverythingRead(p, mapSource, page, done);
    }

    method CompareResults(index: string, respSource: seq<Hit>, respDestination: seq<Hit>, ghost p: Progress)
      requires p.index == index && Tracks(p)
      requires PageMap(respSource).Keys !! p.source.Keys && PageMap(respDestination).Keys !! p.destination.Keys
      modifies this
      ensures Tracks(p.(source := p.source + PageMap(respSource), destination := p.destination + PageMap(respDestination)))
    {
      var mapSource := ConvertResponseInMap(respSource);
      var mapDestination := ConvertResponseInMap(respDestination);
      var rest := CompareSourcePage(index, mapSource, mapDestination, p);
      BufferDestinationPage(mapSource, mapDestination, rest, p);
    }

    method ReportAbsentFromDestination(index: string, id: string, ghost p: Progress)
      requires p.index == index && Tracks(p) && id !in p.toldAbsentFromDestination
      modifies this`log
      ensures Tracks(p.(toldAbsentFromDestination := p.toldAbsentFromDestination + {id}))
    {
      TellAbsentFromDestination(p, State(), id);
      log := log + multiset{AbsentFromDestination(index, id)};
    }

    method SettleMatch(index: string, id: string, ghost p: Progress)
      requires p.index == index && Tracks(p) && id in missingFromSource && id in missingFromDestination
      modifies this
      ensures missingFromSource == old(missingFromSource) - {id}
      ensures missingFromDestination == old(missingFromDestination) - {id}
      ensures Tracks(p)
    {
      SettleBuffered(p, State(), id);
      var rawDataSource := missingFromSource[id];
      var rawDataDestination := missingFromDestination[id];
      missingFromSource := missingFromSource - {id};
      missingFromDestination := missingFromDestination - {id};
      CompareDocuments(index, id, rawDataSource, rawDataDestination);
    }

    /** The first loop of CheckMaps. */
    method MatchBuffers(index: string, finish: bool, ghost p: Progress)
      requires p.index == index && Tracks(p)
      requires p.toldAbsentFromDestination == p.toldAbsentFromSource == {}
      modifies this
      ensures missingFromSource.Keys !! missingFromDestination.Keys
      ensures Tracks(p.(toldAbsentFromDestination := if finish then missingFromSource.Keys else {}))
    {
      var pending := missingFromSource.Keys;
      ghost var q := p;
      assert p == p.(toldAbsentFromDestination := {});
      while pending != {}
        invariant pending <= missingFromSource.Keys
        invariant (missingFromSource.Keys - pending) !! missingFromDestination.Keys
        invariant q == p.(toldAbsentFromDestination := if finish then missingFromSource.Keys - pending else {})
        invariant Tracks(q)
        decreases pending
      {
        var id :| id in pending;
        ghost var before := missingFromSource.Keys;
        pending := pending - {id};
        if id in missingFromDestination {
          SettleMatch(index, id, q);
          assert missingFromSource.Keys - pending == before - (pending + {id});
        } else {
          assert missingFromSource.Keys - pending == before - (pending + {id}) + {id};
          if finish {
            ReportAbsentFromDestination(index, id, q);
            q := q.(toldAbsentFromDestination := q.toldAbsentFromDestination + {id});
          }
        }
      }
      assert missingFromSource.Keys - pending == missingFromSource.Keys;
    }

    /** The last loop of CheckMaps. */
    method ReportAbsentFromSource(index: string, ghost p: Progress)
      requires p.index == index && Tracks(p) && missingFromSource.Keys !! missingFromDestination.Keys
      requires p.toldAbsentFromDestination == missingFromSource.Keys && p.toldAbsentFromSource == {}
      modifies this`log
      ensures Complete(p.(toldAbsentFromDestination := {}), log, compared)
    {
      var pending := missingFromDestination.Keys;
      ghost var told: set<string> := {};
      assert p == p.(toldAbsentFromSource := told);
      while pending != {}
        invariant told !! pending && told + pending == missingFromDestination.Keys
        invariant Tracks(p.(toldAbsentFromSource := told))
        decreases pending
      {
        var id :| id in pending;
        pending := pending - {id};
        TellAbsentFromSource(p.(toldAbsentFromSource := told), State(), id);
        log := log + multiset{AbsentFromSource(index, id)};
        told := told + {id};
      }
      assert told == missingFromDestination.Keys;
      AllTold(p.(toldAbsentFromSource := told), State());
    }

    /** Matches what is buffered on both sides; at the end of an index also reports the rest. */
    method CheckMaps(index: string, finish: bool, ghost p: Progress)
      requires p.index == index && Tracks(p)
      requires p.toldAbsentFromDestination == p.toldAbsentFromSource == {}
      modifies this
      ensures !finish ==> Tracks(p)
      ensures finish ==> Idle() && Complete(p, log, compared)
    {
      MatchBuffers(index, finish, p);
      if finish {
        var told := missingFromSource.Keys;
        ReportAbsentFromSource(index, p.(toldAbsentFromDestination := told));
        missingFromDestination := map[];
        missingFromSource := map[];
      }
    }

    // -------------------------------------------------------------- reading

    /** Progress on `index` after so many pages of each cluster, from what was logged before. */
    ghost function ProgressAt(
      index: string, sourcePages: nat, destinationPages: nat, log: multiset<Report>, compared: multiset<(string, string)>): Progress
    {
      Progress(index, onlyIDs, areEqualJSON, log, compared,
               clientSource.ReadTo(index, sourcePages), clientDestination.ReadTo(index, destinationPages), {}, {})
    }

    lemma NextPages(p: Progress, m: nat, n: nat, responseS: seq<Hit>, responseD: seq<Hit>)
      requires clientSource.Streams(p.index) && clientDestination.Streams(p.index)
      requires p == ProgressAt(p.index, m, n, p.log, p.compared)
      requires responseS == clientSource.Page(p.index, m) && responseD == clientDestination.Page(p.index, n)
      ensures PageMap(responseS).Keys !! p.source.Keys && PageMap(responseD).Keys !! p.destination.Keys
      ensures p.(source := p.source + PageMap(responseS), destination := p.destination + PageMap(responseD))
           == ProgressAt(p.index, m + 1, n + 1, p.log, p.compared)
    {
      clientSource.NewPage(p.index, m, m);
      clientDestination.NewPage(p.index, n, n);
    }

    /** One read of a cluster, unless its stream is done. */
    method ReadPage(client: Client, scroll: ScrollId, done: bool, index: string, ghost n: nat)
      returns (nextScroll: ScrollId, nowDone: bool, response: seq<Hit>)
      requires client.Streams(index) && ReadsFrom(client, scroll, done, index, n)
      ensures response == client.Page(index, n) && ReadsFrom(client, nextScroll, nowDone, index, n + 1)
      ensures done ==> nowDone
      ensures !nowDone ==> n < |client.Pages(index)|
    {
      nextScroll, nowDone, response := NoScroll, done, [];
      if !done {
        var (s, d, r) := client.DoScrollRequest(scroll);
        nextScroll, nowDone, response := s, d, r;
      }
    }

    /** The search requests: `done` when neither cluster has anything. */
    method ReadFirstPages(index: string) returns (scrollIDSource: ScrollId, scrollIDDestination: ScrollId, done: bool)
      requires Idle() && clientSource.Streams(index) && clientDestination.Streams(index)
      modifies this
      ensures scrollIDSource == At(index, 1) && scrollIDDestination == At(index, 1)
      ensures done <==> clientSource.Pages(index) == [] && clientDestination.Pages(index) == []
      ensures Tracks(ProgressAt(index, 1, 1, old(log), old(compared)))
    {
      var (nextScrollIDSource, doneSource, rspSource) := clientSource.InitializeScroll(index);
      var (nextScrollIDDestination, doneDestination, rspDestination) := clientDestination.InitializeScroll(index);
      ghost var p := ProgressAt(index, 0, 0, log, compared);
      NothingReadYet(p, State());
      NextPages(p, 0, 0, rspSource, rspDestination);
      CompareResults(index, rspSource, rspDestination, p);
      return nextScrollIDSource, nextScrollIDDestination, doneSource && doneDestination;
    }

    method ContinueReading(index: string, scrollIDSource: ScrollId, scrollIDDestination: ScrollId, ghost start: Progress)
      requires clientSource.Streams(index) && clientDestination.Streams(index)
      requires scrollIDSource == At(index, 1) && scrollIDDestination == At(index, 1)
      requires start == ProgressAt(index, 1, 1, start.log, start.compared) && Tracks(start)
      modifies this
      ensures Idle()
      ensures Complete(start.(source := clientSource.Documents(index), destination := clientDestination.Documents(index)), log, compared)
    {
      var sourceID := scrollIDSource;
      var destinationID := scrollIDDestination;
      var doneSource, doneDestination := false, false;
      var count := 0;
      ghost var p := start;
      ghost var n := 1;
      while true
        invariant !(doneSource && doneDestination)
        invariant ReadsFrom(clientSource, sourceID, doneSource, index, n)
        invariant ReadsFrom(clientDestination, destinationID, doneDestination, index, n)
        invariant p == ProgressAt(index, n, n, start.log, start.compared) && Tracks(p)
        decreases |clientSource.Pages(index)| + |clientDestination.Pages(index)| + 2 - n
      {
        count := count + 1;
        var responseS, responseD;
        sourceID, doneSource, responseS := ReadPage(clientSource, sourceID, doneSource, index, n);
        destinationID, doneDestination, responseD := ReadPage(clientDestination, destinationID, doneDestination, index, n);
        NextPages(p, n, n, responseS, responseD);
        CompareResults(index, responseS, responseD, p);
        p := p.(source := p.source + PageMap(responseS), destination := p.destination + PageMap(responseD));
        n := n + 1;
        if count % CHECK_ACCUMULATE_INTERVAL == 0 {
          CheckMaps(index, false, p);
        }
        if doneSource && doneDestination {
          CheckMaps(index, true, p);
          clientSource.ReadAll(index, n);
          clientDestination.ReadAll(index, n);
          return;
        }
      }
    }

    ghost function ExpectedReport(r: Report): nat {
      Expected(r, clientSource.Documents(r.index), clientDestination.Documents(r.index), onlyIDs, areEqualJSON)
    }

    /**
     * The reports of absent documents, over nothing but the hits of both streams: an id with a hit in the
     * one and none in the other.
     */
    lemma AbsentOverHits(index: string, id: string)
      requires clientSource.Streams(index) && clientSource.DistinctHits(index)
      requires clientDestination.Streams(index) && clientDestination.DistinctHits(index)
      ensures var inSource := exists page, hit :: page in clientSource.Pages(index) && hit in page && hit.id == id;
        var inDestination := exists page, hit :: page in clientDestination.Pages(index) && hit in page && hit.id == id;
        && ExpectedReport(AbsentFromDestination(index, id)) == (if inSource && !inDestination then 1 else 0)
        && ExpectedReport(AbsentFromSource(index, id)) == (if inDestination && !inSource then 1 else 0)
    {
      clientSource.DocumentsAreHits(index, id);
      clientDestination.DocumentsAreHits(index, id);
    }

    /** And of two hits with one id: different, or not comparable, exactly as their two sources are. */
    lemma ComparedOverHits(index: string, hit: Hit, twin: Hit, page: seq<Hit>, other: seq<Hit>)
      requires clientSource.Streams(index) && clientSource.DistinctHits(index)
      requires clientDestination.Streams(index) && clientDestination.DistinctHits(index)
      requires page in clientSource.Pages(index) && hit in page
      requires other in clientDestination.Pages(index) && twin in other && hit.id == twin.id
      ensures var outcome := areEqualJSON(hit.source, twin.source);
        && ExpectedReport(Different(index, hit.id)) == (if !onlyIDs && outcome == Some(false) then 1 else 0)
        && ExpectedReport(NotComparable(index, hit.id)) == (if !onlyIDs && outcome == None then 1 else 0)
    {
      clientSource.HitIsDocument(index, page, hit);
      clientDestination.HitIsDocument(index, other, twin);
    }

    /** An id without a hit in both streams is never compared. */
    lemma NotComparedOverHits(index: string, id: string)
      requires clientSource.Streams(index) && clientSource.DistinctHits(index)
      requires clientDestination.Streams(index) && clientDestination.DistinctHits(index)
      requires (forall page, hit :: page in clientSource.Pages(index) && hit in page ==> hit.id != id) ||
               (forall page, hit :: page in clientDestination.Pages(index) && hit in page ==> hit.id != id)
      ensures ExpectedReport(Different(index, id)) == 0 && ExpectedReport(NotComparable(index, id)) == 0
    {
      clientSource.DocumentsAreHits(index, id);
      clientDestination.DocumentsAreHits(index, id);
    }

    /** All there is to tell about `index`, starting from a given log. */
    ghost function WholeIndex(index: string, log: multiset<Report>, compared: multiset<(string, string)>): Progress {
      Progress(index, onlyIDs, areEqualJSON, log, compared,
               clientSource.Documents(index), clientDestination.Documents(index), {}, {})
    }

    /**
     * Comparing one index adds exactly the reports plain set difference and a document by document
     * comparison give, compares every common document once unless only ids matter, and leaves both
     * maps empty.
     */
    method CompareIndexWithTimestamp(index: string)
      requires Idle() && clientSource.Streams(index) && clientDestination.Streams(index)
      modifies this
      ensures Idle()
      ensures Complete(WholeIndex(index, old(log), old(compared)), log, compared)
      ensures forall r :: log[r] == old(log)[r] + if r.index == index then ExpectedReport(r) else 0
      ensures forall id ::
        compared[(index, id)] == old(compared)[(index, id)] +
          if id in clientSource.Documents(index) && id in clientDestination.Documents(index) && !onlyIDs then 1 else 0
    {
      var nextScrollIDSource, nextScrollIDDestination, done := ReadFirstPages(index);
      ghost var p := ProgressAt(index, 1, 1, old(log), old(compared));
      if done {
        clientSource.ReadAll(index, 1);
        clientDestination.ReadAll(index, 1);
        NothingToTell(p, State());
        return;
      }
      ContinueReading(index, nextScrollIDSource, nextScrollIDDestination, p);
    }

    ghost function ConfiguredReports(r: Report, n: nat): nat
      requires n <= |indicesWithTimestamp|
    {
      if ExpectedReport(r) == 1 then Times(indicesWithTimestamp, n, r.index) else 0
    }

    /** Every configured index is compared, once for each time it is configured. */
    method CompareIndicesWithTimestamp()
      requires Idle()
      requires forall index :: index in indicesWithTimestamp ==> clientSource.Streams(index) && clientDestination.Streams(index)
      modifies this
      ensures Idle()
      ensures forall r :: log[r] == old(log)[r] + ConfiguredReports(r, |indicesWithTimestamp|)
    {
      for i := 0 to |indicesWithTimestamp|
        invariant Idle()
        invariant forall r :: log[r] == old(log)[r] + ConfiguredReports(r, i)
      {
        assert indicesWithTimestamp[i] in indicesWithTimestamp;
        CompareIndexWithTimestamp(indicesWithTimestamp[i]);
      }
    }
  }
}
