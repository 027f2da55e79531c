/** Greedy packing of bulk records into buffers that respect a size threshold. */
module BufferSlices {
  import opened Numbers

  const DEFAULT_MAX_BULK_SIZE := 4194304
  const NEWLINE: byte := 10

  datatype Record = Record(meta: seq<byte>, data: seq<byte>)

  /** Records divided over buffers, the buffer being filled and its length last. */
  datatype Groups = Empty | Snoc(rest: Groups, last: seq<Record>, len: nat)

  /** The data line is closed by a newline when there is one. */
  function Line(data: seq<byte>): seq<byte> {
    if data == [] then [] else data + [NEWLINE]
  }

  function Bytes(r: Record): seq<byte> {
    r.meta + Line(r.data)
  }

  /** The size the threshold test counts, which leaves the newline out. */
  function RawSize(r: Record): nat {
    |r.meta| + |r.data|
  }

  /** The bytes of the first `n` records. */
  function ContentTo(group: seq<Record>, n: nat): seq<byte>
    requires n <= |group|
  {
    if n == 0 then [] else ContentTo(group, n - 1) + Bytes(group[n - 1])
  }

  function Content(group: seq<Record>): seq<byte> {
    ContentTo(group, |group|)
  }

  function Flatten(groups: Groups): seq<Record> {
    match groups
    case Empty => []
    case Snoc(rest, last, _) => Flatten(rest) + last
  }

  function Size(groups: Groups): nat {
    match groups
    case Empty => 0
    case Snoc(rest, _, _) => Size(rest) + 1
  }

  predicate NeedsNew(threshold: int, len: nat, r: Record) {
    len + RawSize(r) > threshold && len != 0
  }

  function Put(threshold: int, groups: Groups, r: Record): Groups {
    if groups.Empty? || NeedsNew(threshold, groups.len, r) then Snoc(groups, [r], |Bytes(r)|)
    else Snoc(groups.rest, groups.last + [r], groups.len + |Bytes(r)|)
  }

  /** The records of each buffer after the first `n` calls of a sequence. */
  function PackTo(threshold: int, records: seq<Record>, n: nat): Groups
    requires n <= |records|
  {
    if n == 0 then Empty else Put(threshold, PackTo(threshold, records, n - 1), records[n - 1])
  }

  function Pack(threshold: int, records: seq<Record>): Groups {
    PackTo(threshold, records, |records|)
  }

  lemma {:induction false} PackToPrefix(threshold: int, records: seq<Record>, r: Record, n: nat)
    requires n <= |records|
    ensures PackTo(threshold, records + [r], n) == PackTo(threshold, records, n)
  {
    if n > 0 {
      PackToPrefix(threshold, records, r, n - 1);
    }
  }

  lemma PackLast(threshold: int, records: seq<Record>, r: Record)
    ensures Pack(threshold, records + [r]) == Put(threshold, Pack(threshold, records), r)
  {
    PackToPrefix(threshold, records, r, |records|);
  }

  // ---------------------------------------------------------------- lossless and bounded

  /** Only the first `n` records matter. */
  lemma {:induction false} ContentPrefix(a: seq<Record>, b: seq<Record>, n: nat)
    requires n <= |a|
    ensures ContentTo(a + b, n) == ContentTo(a, n)
  {
    if n > 0 {
      ContentPrefix(a, b, n - 1);
    }
  }

  lemma ContentLast(group: seq<Record>, r: Record)
    ensures Content(group + [r]) == Content(group) + Bytes(r)
  {
    ContentPrefix(group, [r], |group|);
  }

  lemma ContentOne(r: Record)
    ensures Content([r]) == Bytes(r)
  {
    assert ContentTo([r], 1) == [] + Bytes(r);
  }

  lemma Associative(x: seq<byte>, y: seq<byte>, z: seq<byte>)
    ensures x + y + z == x + (y + z)
  {
  }

  lemma ContentNext(group: seq<Record>, n: nat, r: Record)
    requires n < |group| && group[n] == r
    ensures ContentTo(group, n + 1) == ContentTo(group, n) + Bytes(r)
  {
  }

  lemma {:induction false} ContentAppendTo(a: seq<Record>, b: seq<Record>, n: nat)
    requires n <= |b|
    ensures ContentTo(a + b, |a| + n) == Content(a) + ContentTo(b, n)
  {
    if n == 0 {
      ContentPrefix(a, b, |a|);
    } else {
      ContentAppendTo(a, b, n - 1);
      ContentNext(a + b, |a| + n - 1, b[n - 1]);
      ContentNext(b, n - 1, b[n - 1]);
      Associative(Content(a), ContentTo(b, n - 1), Bytes(b[n - 1]));
    }
  }

  lemma ContentAppend(a: seq<Record>, b: seq<Record>)
    ensures Content(a + b) == Content(a) + Content(b)
  {
    ContentAppendTo(a, b, |b|);
  }

  /** The recorded length is the length of the buffer. */
  predicate Sized(groups: Groups) {
    groups.Snoc? ==> groups.len == |Content(groups.last)|
  }

  lemma PutSized(threshold: int, groups: Groups, r: Record)
    requires Sized(groups)
    ensures Sized(Put(threshold, groups, r))
  {
    ContentOne(r);
    if groups.Snoc? {
      ContentLast(groups.last, r);
    }
  }

  /** What every call keeps holds of every run. */
  lemma {:induction false} PackInvariant(threshold: int, records: seq<Record>, n: nat, p: (Groups, nat) -> bool)
    requires n <= |records|
    requires p(Empty, 0)
    requires forall groups, k: nat :: k < |records| && p(groups, k) ==> p(Put(threshold, groups, records[k]), k + 1)
    ensures p(PackTo(threshold, records, n), n)
  {
    if n > 0 {
      PackInvariant(threshold, records, n - 1, p);
    }
  }

  lemma PackingIsSized(threshold: int, records: seq<Record>, n: nat)
    requires n <= |records|
    ensures Sized(PackTo(threshold, records, n))
  {
    var p := (groups: Groups, k: nat) => Sized(groups);
    forall groups, k: nat | k < |records| && p(groups, k)
      ensures p(Put(threshold, groups, records[k]), k + 1)
    {
      PutSized(threshold, groups, records[k]);
    }
    PackInvariant(threshold, records, n, p);
  }

  lemma PutFlatten(threshold: int, groups: Groups, r: Record)
    ensures Flatten(Put(threshold, groups, r)) == Flatten(groups) + [r]
  {
    if groups.Snoc? {
      assert Flatten(groups.rest) + (groups.last + [r]) == Flatten(groups.rest) + groups.last + [r];
    }
  }

  /** No record is lost, repeated, reordered or divided between buffers. */
  lemma PackingIsLossless(threshold: int, records: seq<Record>)
    ensures Flatten(Pack(threshold, records)) == records
  {
    var p := (groups: Groups, k: nat) => k <= |records| && Flatten(groups) == records[..k];
    assert p(Empty, 0) by {
      assert Flatten(Empty) == [] == records[..0];
    }
    forall groups, k: nat | k < |records| && p(groups, k)
      ensures p(Put(threshold, groups, records[k]), k + 1)
    {
      PutFlatten(threshold, groups, records[k]);
    }
    PackInvariant(threshold, records, |records|, p);
  }

  function Contents(groups: Groups): (buffers: seq<seq<byte>>)
    ensures |buffers| == Size(groups)
  {
    match groups
    case Empty => []
    case Snoc(rest, last, _) => Contents(rest) + [Content(last)]
  }

  function Concat(buffers: seq<seq<byte>>): seq<byte> {
    if buffers == [] then [] else Concat(buffers[..|buffers| - 1]) + buffers[|buffers| - 1]
  }

  lemma {:induction false} ContentFlatten(groups: Groups)
    ensures Content(Flatten(groups)) == Concat(Contents(groups))
  {
    match groups
    case Empty =>
    case Snoc(rest, last, _) =>
      ContentFlatten(rest);
      ContentAppend(Flatten(rest), last);
      assert Contents(groups)[..|Contents(groups)| - 1] == Contents(rest);
  }

  /** A buffer is at most one newline over the threshold, unless one record alone is all its content. */
  ghost predicate Bounded(threshold: int, group: seq<Record>) {
    |Content(group)| <= threshold + 1 || exists r :: r in group && Content(group) == Bytes(r)
  }

  ghost predicate AllBounded(threshold: int, groups: Groups) {
    groups.Snoc? ==> Bounded(threshold, groups.last) && AllBounded(threshold, groups.rest)
  }

  lemma PutIsBounded(threshold: int, groups: Groups, r: Record)
    requires Sized(groups) && AllBounded(threshold, groups)
    ensures AllBounded(threshold, Put(threshold, groups, r))
  {
    ContentOne(r);
    assert r in [r];
    if groups.Snoc? {
      ContentLast(groups.last, r);
      assert (groups.last + [r])[|groups.last|] == r;
      assert Content(groups.last) == [] ==> Content(groups.last + [r]) == Bytes(r);
    }
  }

  lemma PackingIsBounded(threshold: int, records: seq<Record>)
    ensures AllBounded(threshold, Pack(threshold, records))
  {
    var p := (groups: Groups, k: nat) => Sized(groups) && AllBounded(threshold, groups);
    forall groups, k: nat | k < |records| && p(groups, k)
      ensures p(Put(threshold, groups, records[k]), k + 1)
    {
      PutSized(threshold, groups, records[k]);
      PutIsBounded(threshold, groups, records[k]);
    }
    PackInvariant(threshold, records, |records|, p);
  }

  // ---------------------------------------------------------------- optimal

  /** A buffer of one record, or one whose last record passes the code's own size test. */
  predicate Feasible(threshold: int, group: seq<Record>) {
    group != [] &&
    (|group| == 1 || |Content(group[..|group| - 1])| + RawSize(group[|group| - 1]) <= threshold)
  }

  predicate IsSplit(threshold: int, groups: Groups) {
    groups.Snoc? ==> Feasible(threshold, groups.last) && IsSplit(threshold, groups.rest)
  }

  lemma ShorterIsFeasible(threshold: int, group: seq<Record>, r: Record)
    requires group != [] && Feasible(threshold, group + [r])
    ensures Feasible(threshold, group)
    ensures |Content(group)| + RawSize(r) <= threshold
  {
    assert (group + [r])[..|group|] == group;
    if |group| > 1 {
      var init, last := group[..|group| - 1], group[|group| - 1];
      assert group == init + [last];
      ContentLast(init, last);
    }
  }

  /** Both sequences end the same way, so the shorter one's content is no longer. */
  lemma SuffixContent(a: seq<Record>, g: seq<Record>, b: seq<Record>, h: seq<Record>)
    requires a + g == b + h && |g| <= |h|
    ensures |Content(g)| <= |Content(h)|
  {
    var extra := h[..|h| - |g|];
    assert h == extra + g by {
      assert (a + g)[|a|..] == g;
      assert (b + h)[|b|..] == h;
      assert h[|h| - |g|..] == (b + h)[|b| + |h| - |g|..] == g;
    }
    ContentAppend(extra, g);
  }

  /** A split of `records + [r]` without `r`. */
  function WithoutLast(groups: Groups): Groups
    requires groups.Snoc? && groups.last != []
  {
    if |groups.last| == 1 then groups.rest else groups.(last := groups.last[..|groups.last| - 1])
  }

  lemma SplitWithoutLast(threshold: int, groups: Groups)
    requires groups.Snoc? && IsSplit(threshold, groups)
    ensures IsSplit(threshold, WithoutLast(groups))
    ensures Flatten(groups) == Flatten(WithoutLast(groups)) + [groups.last[|groups.last| - 1]]
  {
    var last := groups.last;
    assert last == last[..|last| - 1] + [last[|last| - 1]];
    if |last| > 1 {
      ShorterIsFeasible(threshold, last[..|last| - 1], last[|last| - 1]);
    }
  }

  /** A record that fits behind a longer open buffer fits behind greedy's. */
  lemma GreedyHasRoom(threshold: int, greedy: Groups, groups: Groups, r: Record)
    requires greedy.Snoc? && Sized(greedy) && groups.Snoc? && groups.last != []
    requires Flatten(greedy) == Flatten(groups) && |greedy.last| <= |groups.last|
    requires Feasible(threshold, groups.last + [r])
    ensures !NeedsNew(threshold, greedy.len, r)
  {
    SuffixContent(Flatten(greedy.rest), greedy.last, Flatten(groups.rest), groups.last);
    ShorterIsFeasible(threshold, groups.last, r);
  }

  /** Greedy is ahead: fewer buffers, or as many and no more records in the open one. */
  predicate Ahead(greedy: Groups, groups: Groups) {
    Size(greedy) < Size(groups) ||
    (Size(greedy) == Size(groups) && (groups.Snoc? ==> greedy.Snoc? && |greedy.last| <= |groups.last|))
  }

  lemma AheadStep(threshold: int, greedy: Groups, groups: Groups)
    requires Sized(greedy) && groups.Snoc? && groups.last != [] && Feasible(threshold, groups.last)
    requires Ahead(greedy, WithoutLast(groups)) && Flatten(greedy) == Flatten(WithoutLast(groups))
    ensures Ahead(Put(threshold, greedy, groups.last[|groups.last| - 1]), groups)
  {
    var last := groups.last;
    var rest, r := WithoutLast(groups), last[|last| - 1];
    if |last| > 1 && Size(greedy) == Size(groups) {
      assert last == rest.last + [r];
      GreedyHasRoom(threshold, greedy, rest, r);
    }
  }

  /** Greedy stays ahead of every split. */
  lemma {:induction false} GreedyStaysAhead(threshold: int, groups: Groups)
    requires IsSplit(threshold, groups)
    ensures Ahead(Pack(threshold, Flatten(groups)), groups)
    decreases |Flatten(groups)|
  {
    if groups.Snoc? {
      var rest := WithoutLast(groups);
      SplitWithoutLast(threshold, groups);
      GreedyStaysAhead(threshold, rest);
      PackingIsLossless(threshold, Flatten(rest));
      PackingIsSized(threshold, Flatten(rest), |Flatten(rest)|);
      AheadStep(threshold, Pack(threshold, Flatten(rest)), groups);
      PackLast(threshold, Flatten(rest), groups.last[|groups.last| - 1]);
    }
  }

  /** No order-preserving split into feasible buffers uses fewer buffers than the calls do. */
  lemma PackingIsOptimal(threshold: int, records: seq<Record>, groups: Groups)
    requires IsSplit(threshold, groups) && Flatten(groups) == records
    ensures Size(Pack(threshold, records)) <= Size(groups)
  {
    GreedyStaysAhead(threshold, groups);
  }

  predicate NoneEmpty(records: seq<Record>) {
    forall r :: r in records ==> RawSize(r) > 0
  }

  predicate SplitWhenNoneEmpty(threshold: int, groups: Groups) {
    && Sized(groups)
    && (groups.Snoc? ==> groups.last != [])
    && (NoneEmpty(Flatten(groups)) ==> IsSplit(threshold, groups))
  }

  lemma PutIsASplit(threshold: int, groups: Groups, r: Record)
    requires SplitWhenNoneEmpty(threshold, groups)
    ensures SplitWhenNoneEmpty(threshold, Put(threshold, groups, r))
  {
    PutSized(threshold, groups, r);
    PutFlatten(threshold, groups, r);
    if NoneEmpty(Flatten(groups) + [r]) && groups.Snoc? {
      var filled := groups.last[|groups.last| - 1];
      assert filled in Flatten(groups) && filled in Flatten(groups) + [r];
      assert forall f :: f in Flatten(groups) ==> f in Flatten(groups) + [r];
      assert |Content(groups.last)| >= |Bytes(filled)| >= RawSize(filled) > 0;
      assert (groups.last + [r])[..|groups.last|] == groups.last;
    }
  }

  /** And the calls themselves make such a split when no record is empty. */
  lemma PackingIsASplit(threshold: int, records: seq<Record>)
    requires NoneEmpty(records)
    ensures IsSplit(threshold, Pack(threshold, records))
  {
    var p := (groups: Groups, k: nat) => SplitWhenNoneEmpty(threshold, groups);
    forall groups, k: nat | k < |records| && p(groups, k)
      ensures p(Put(threshold, groups, records[k]), k + 1)
    {
      PutIsASplit(threshold, groups, records[k]);
    }
    PackInvariant(threshold, records, |records|, p);
    PackingIsLossless(threshold, records);
  }

  /** Together: for records that are not empty, the calls use the least number of buffers any split can. */
  lemma PackingReachesTheMinimum(threshold: int, records: seq<Record>)
    requires forall r :: r in records ==> |r.meta| + |r.data| > 0
    ensures var packed := Pack(threshold, records);
      && IsSplit(threshold, packed) && Flatten(packed) == records
      && forall groups :: IsSplit(threshold, groups) && Flatten(groups) == records ==> Size(packed) <= Size(groups)
  {
    PackingIsASplit(threshold, records);
    PackingIsLossless(threshold, records);
    forall groups | IsSplit(threshold, groups) && Flatten(groups) == records
      ensures Size(Pack(threshold, records)) <= Size(groups)
    {
      PackingIsOptimal(threshold, records, groups);
    }
  }

  // ---------------------------------------------------------------- the buffers themselves

  /**
   * The buffers with one more record, byte by byte: behind the last one, or in a new one when the last one
   * holds something and would pass the threshold.
   */
  function Placed(threshold: int, buffers: seq<seq<byte>>, meta: seq<byte>, data: seq<byte>): seq<seq<byte>> {
    var bytes := meta + if data == [] then [] else data + [10];
    var n := |buffers|;
    if n == 0 then [bytes]
    else if |buffers[n - 1]| != 0 && |buffers[n - 1]| + |meta| + |data| > threshold then buffers + [bytes]
    else buffers[n - 1 := buffers[n - 1] + bytes]
  }

  /** Greedy packing does just that. */
  lemma PutContents(threshold: int, groups: Groups, r: Record)
    requires Sized(groups)
    ensures Contents(Put(threshold, groups, r)) == Placed(threshold, Contents(groups), r.meta, r.data)
  {
    assert [] + Bytes(r) == Bytes(r);
    ContentOne(r);
    if groups.Snoc? {
      ContentLast(groups.last, r);
    }
  }

  lemma {:induction false} BuffersAreBounded(threshold: int, groups: Groups)
    requires AllBounded(threshold, groups)
    ensures var buffers := Contents(groups);
      forall i :: 0 <= i < |buffers| ==>
        |buffers[i]| <= threshold + 1 || exists r :: r in Flatten(groups) && buffers[i] == Bytes(r)
  {
    match groups
    case Empty =>
    case Snoc(rest, last, _) =>
      BuffersAreBounded(threshold, rest);
      var buffers := Contents(groups);
      forall i | 0 <= i < |buffers| && |buffers[i]| > threshold + 1
        ensures exists r :: r in Flatten(groups) && buffers[i] == Bytes(r)
      {
        if i < |buffers| - 1 {
          assert buffers[i] == Contents(rest)[i];
          var r :| r in Flatten(rest) && Contents(rest)[i] == Bytes(r);
          assert r in Flatten(groups);
        } else {
          var r :| r in last && Content(last) == Bytes(r);
          assert r in Flatten(groups);
        }
      }
  }

  class BufferSlice {
    var buffSlice: seq<seq<byte>>
    var bulkSizeThreshold: int
    var idx: nat
    ghost var records: seq<Record>  // every record put so far
    ghost var groups: Groups  // the records of each buffer

    ghost predicate Valid()
      reads this
    {
      && groups == Pack(bulkSizeThreshold, records) && Sized(groups)
      && buffSlice == Contents(groups)
      && idx == (if buffSlice == [] then 0 else |buffSlice| - 1)
    }

    constructor (threshold: int)
      ensures Valid() && records == []
      ensures bulkSizeThreshold == (if threshold == 0 then 4194304 else threshold) && buffSlice == [] && idx == 0
    {
      bulkSizeThreshold := if threshold == 0 then DEFAULT_MAX_BULK_SIZE else threshold;
      buffSlice, idx, records, groups := [], 0, [], Empty;
    }

    predicate ANewElementIsNeeded(meta: seq<byte>, data: seq<byte>)
      requires idx < |buffSlice|
      reads this
    {
      |buffSlice[idx]| + |meta| + |data| > bulkSizeThreshold && |buffSlice[idx]| != 0
    }

    /** The buffers after one more record: it goes to the last one, or to a new one if that is full. */
    method Write(meta: seq<byte>, data: seq<byte>)
      requires idx == (if buffSlice == [] then 0 else |buffSlice| - 1)
      modifies this`buffSlice, this`idx
      ensures idx == |buffSlice| - 1
      ensures buffSlice == Placed(bulkSizeThreshold, old(buffSlice), meta, data)
    {
      if |buffSlice| == 0 {
        buffSlice := buffSlice + [[]];
      }
      if ANewElementIsNeeded(meta, data) {
        buffSlice := buffSlice + [[]];
        idx := idx + 1;
      }
      var line := data;
      if |line| > 0 {
        line := line + [NEWLINE];
      }
      ghost var open := buffSlice[idx];
      buffSlice := buffSlice[idx := buffSlice[idx] + meta];
      buffSlice := buffSlice[idx := buffSlice[idx] + line];
      assert open + meta + line == open + (meta + line) && [] + (meta + line) == meta + line;
    }

    method PutData(meta: seq<byte>, data: seq<byte>)
      requires Valid()
      modifies this
      ensures Valid() && records == old(records) + [Record(meta, data)]
      ensures bulkSizeThreshold == old(bulkSizeThreshold) && idx == |buffSlice| - 1
      ensures buffSlice == Placed(bulkSizeThreshold, old(buffSlice), meta, data)
    {
      ghost var r := Record(meta, data);
      PutContents(bulkSizeThreshold, groups, r);
      PackLast(bulkSizeThreshold, records, r);
      PutSized(bulkSizeThreshold, groups, r);
      Write(meta, data);
      groups := Put(bulkSizeThreshold, groups, r);
      records := records + [r];
    }

    /** What the caller of `Buffers` gets: all bytes in order, cut only between records. */
    lemma BuffersHoldEverything()
      requires Valid()
      ensures Concat(buffSlice) == Content(records)
      ensures forall i :: 0 <= i < |buffSlice| ==>
        |buffSlice[i]| <= bulkSizeThreshold + 1 || exists r :: r in records && buffSlice[i] == Bytes(r)
    {
      PackingIsLossless(bulkSizeThreshold, records);
      ContentFlatten(groups);
      PackingIsBounded(bulkSizeThreshold, records);
      BuffersAreBounded(bulkSizeThreshold, groups);
    }
  }

  lemma OneRecord(threshold: int, m: seq<byte>, d: seq<byte>)
    requires d != []
    ensures Contents(Pack(threshold, [Record(m, d)])) == [m + (d + [10])] && Sized(Pack(threshold, [Record(m, d)]))
  {
    PackLast(threshold, [], Record(m, d));
    assert [] + [Record(m, d)] == [Record(m, d)];
    ContentOne(Record(m, d));
    PackingIsSized(threshold, [Record(m, d)], 1);
  }

  /** Two records in literal bytes: together up to the threshold, newline not counted, and apart above it. */
  lemma TwoRecords(threshold: int, m: seq<byte>, d: seq<byte>, n: seq<byte>, e: seq<byte>)
    requires d != [] && e != []
    ensures var together := |m| + |d| + 1 + |n| + |e| <= threshold;
      Contents(Pack(threshold, [Record(m, d), Record(n, e)])) ==
      if together then [m + (d + [10]) + (n + (e + [10]))] else [m + (d + [10]), n + (e + [10])]
  {
    var first, second := Record(m, d), Record(n, e);
    assert [first] + [second] == [first, second];
    PackLast(threshold, [first], second);
    OneRecord(threshold, m, d);
    PutContents(threshold, Pack(threshold, [first]), second);
  }

  /** A record without data has no newline. */
  lemma NoDataNoNewline(threshold: int, m: seq<byte>)
    ensures Contents(Pack(threshold, [Record(m, [])])) == [m]
  {
    PackLast(threshold, [], Record(m, []));
    assert [] + [Record(m, [])] == [Record(m, [])] && m + [] == m;
    ContentOne(Record(m, []));
  }
}
