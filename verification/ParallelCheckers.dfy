/** Splitting the time range of a comparison over several checkers. */
module ParallelCheckers {
  import opened Wrappers
  import opened ClustersChecker

  datatype Interval = Interval(start: int, stop: int)

  datatype Error = StartAfterEnd | NegativeCapacity

  // ---------------------------------------------------------------- the split

  /** Intervals from `start` to `stop`, in order, each beginning where the one before ends. */
  predicate Chained(intervals: seq<Interval>, start: int, stop: int) {
    && intervals != []
    && intervals[0].start == start && intervals[|intervals| - 1].stop == stop
    && (forall i :: 0 <= i < |intervals| ==> intervals[i].start <= intervals[i].stop)
    && (forall i :: 0 <= i < |intervals| - 1 ==> intervals[i].stop == intervals[i + 1].start)
  }

  function Width(interval: Interval): int {
    interval.stop - interval.start
  }

  /** All intervals have one width, but the last takes what the division left over. */
  predicate EvenlySplit(intervals: seq<Interval>)
    requires intervals != []
  {
    var last := intervals[|intervals| - 1];
    && (forall i, j :: 0 <= i < j < |intervals| - 1 ==> Width(intervals[i]) == Width(intervals[j]))
    && (forall i :: 0 <= i < |intervals| - 1 ==> Width(intervals[i]) <= Width(last) < Width(intervals[i]) + |intervals|)
  }

  lemma Distribute(idx: int, rest: int, step: int)
    ensures (idx + 1) * step == idx * step + step
    ensures (idx + 1 + rest) * step == idx * step + step + rest * step
  {
  }

  /** No step leaves the range, and the last one falls short of its end by less than the number of steps. */
  lemma StepsStayInside(difference: int, n: int, idx: int)
    requires difference >= 0 && 0 <= idx < n
    ensures var step := difference / n;
      && 0 <= step && (idx + 1) * step == idx * step + step && (idx + 1) * step <= difference
      && (idx == n - 1 ==> difference < (idx + 1) * step + n)
  {
    var step := difference / n;
    var remainder := difference % n;
    assert difference == n * step + remainder && 0 <= remainder < n;
    assert step >= 0;
    var rest := n - (idx + 1);
    assert rest * step >= 0;
    Distribute(idx, rest, step);
  }

  /** Intervals of one width, chained from `start` to `reached`. */
  predicate Steps(intervals: seq<Interval>, start: int, step: int, reached: int) {
    && (if intervals == [] then start == reached
        else intervals[0].start == start && intervals[|intervals| - 1].stop == reached)
    && (forall i :: 0 <= i < |intervals| ==> Width(intervals[i]) == step)
    && (forall i :: 0 <= i < |intervals| - 1 ==> intervals[i].stop == intervals[i + 1].start)
  }

  lemma NextStep(intervals: seq<Interval>, start: int, step: int, reached: int)
    requires Steps(intervals, start, step, reached)
    ensures Steps(intervals + [Interval(reached, reached + step)], start, step, reached + step)
  {
  }

  lemma LastStep(intervals: seq<Interval>, start: int, step: int, reached: int, stop: int)
    requires Steps(intervals, start, step, reached)
    requires 0 <= step <= stop - reached < step + |intervals| + 1
    ensures Chained(intervals + [Interval(reached, stop)], start, stop)
    ensures EvenlySplit(intervals + [Interval(reached, stop)])
  {
    var all := intervals + [Interval(reached, stop)];
    assert forall i :: 0 <= i < |intervals| ==> all[i] == intervals[i];
  }

  method ComputeIntervals(startTime: int, endTime: int, numIntervals: int) returns (r: Result<seq<Interval>, Error>)
    ensures r.Failure? <==> startTime > endTime
    ensures r.Failure? ==> r.error == StartAfterEnd
    ensures r.Success? ==> Chained(r.value, startTime, endTime)
    ensures r.Success? ==> |r.value| == if numIntervals < 2 then 1 else numIntervals
    ensures r.Success? ==> EvenlySplit(r.value)
  {
    if startTime > endTime {
      return Failure(StartAfterEnd);
    }
    if numIntervals < 2 {
      return Success([Interval(startTime, endTime)]);
    }
    var difference := endTime - startTime;
    var step := difference / numIntervals;
    var intervals: seq<Interval> := [];
    ghost var reached := startTime;
    for idx := 0 to numIntervals
      invariant reached == startTime + idx * step && |intervals| == idx
      invariant idx < numIntervals ==> Steps(intervals, startTime, step, reached)
      invariant idx == numIntervals ==> Chained(intervals, startTime, endTime) && EvenlySplit(intervals)
    {
      var start := startTime + idx * step;
      var stop := startTime + (idx + 1) * step;
      StepsStayInside(difference, numIntervals, idx);
      if idx == numIntervals - 1 {
        LastStep(intervals, startTime, step, reached, endTime);
        stop := endTime;
      } else {
        NextStep(intervals, startTime, step, reached);
      }
      reached := reached + step;
      intervals := intervals + [Interval(start, stop)];
    }
    return Success(intervals);
  }

  /** The interval of each checker: none at all when the configuration asks for none. */
  method CreateMultipleCheckers(blockchainStartTime: int, currentTimestamp: int, numParallelReads: int)
    returns (r: Result<seq<Interval>, Error>)
    ensures r.Failure? <==> blockchainStartTime > currentTimestamp || numParallelReads < 0
    ensures r.Success? ==> |r.value| == numParallelReads
    ensures r.Success? && numParallelReads > 0 ==> Chained(r.value, blockchainStartTime, currentTimestamp)
  {
    var intervals := ComputeIntervals(blockchainStartTime, currentTimestamp, numParallelReads);
    if intervals.Failure? {
      return intervals;
    }
    if numParallelReads < 0 {
      return Failure(NegativeCapacity);
    }
    var checkers := [];
    for idx := 0 to numParallelReads
      invariant checkers == intervals.value[..idx]
    {
      checkers := checkers + [intervals.value[idx]];
    }
    return Success(checkers);
  }

  lemma {:induction false} StartsAfter(intervals: seq<Interval>, start: int, stop: int, i: nat)
    requires Chained(intervals, start, stop) && i < |intervals|
    ensures start <= intervals[i].start
  {
    if i > 0 {
      StartsAfter(intervals, start, stop, i - 1);
      assert intervals[i - 1].stop == intervals[i - 1 + 1].start;
    }
  }

  lemma {:induction false} StopsBefore(intervals: seq<Interval>, start: int, stop: int, i: nat)
    requires Chained(intervals, start, stop) && i < |intervals|
    ensures intervals[i].stop <= stop
    decreases |intervals| - i
  {
    if i < |intervals| - 1 {
      StopsBefore(intervals, start, stop, i + 1);
    }
  }

  lemma ChainIsOrdered(intervals: seq<Interval>, start: int, stop: int, i: nat)
    requires Chained(intervals, start, stop) && i < |intervals|
    ensures start <= intervals[i].start
    ensures intervals[i].stop <= stop
  {
    StartsAfter(intervals, start, stop, i);
    StopsBefore(intervals, start, stop, i);
  }

  predicate Within(interval: Interval, t: int) {
    interval.start <= t <= interval.stop
  }

  /** No time in the range falls between two intervals. */
  lemma {:induction false} ChainCovers(intervals: seq<Interval>, start: int, stop: int, t: int, from: nat) returns (i: nat)
    requires Chained(intervals, start, stop) && from < |intervals| && intervals[from].start <= t <= stop
    ensures i < |intervals| && Within(intervals[i], t)
    decreases |intervals| - from
  {
    i := from;
    if t > intervals[from].stop {
      i := ChainCovers(intervals, start, stop, t, from + 1);
    }
  }

  // ---------------------------------------------------------------- what the checkers report together

  datatype Stored = Stored(timestamp: int, source: string)

  /** A cluster: the documents of each index. */
  type Cluster = map<string, map<string, Stored>>

  /** The checker's range query, both ends included. */
  function Query(cluster: Cluster, index: string, interval: Interval): map<string, string> {
    if index !in cluster then map[]
    else map id | id in cluster[index] && Within(interval, cluster[index][id].timestamp) :: cluster[index][id].source
  }

  /** What a checker restricted to an interval reports. */
  ghost predicate Reports(
    r: Report, source: Cluster, destination: Cluster, interval: Interval,
    onlyIDs: bool, areEqualJSON: (string, string) -> Option<bool>)
  {
    Expected(r, Query(source, r.index, interval), Query(destination, r.index, interval), onlyIDs, areEqualJSON) == 1
  }

  ghost predicate SomeReports(
    r: Report, source: Cluster, destination: Cluster, intervals: seq<Interval>,
    onlyIDs: bool, areEqualJSON: (string, string) -> Option<bool>)
  {
    exists i :: 0 <= i < |intervals| && Reports(r, source, destination, intervals[i], onlyIDs, areEqualJSON)
  }

  predicate InBoth(source: Cluster, destination: Cluster, index: string, id: string) {
    index in source && id in source[index] && index in destination && id in destination[index]
  }

  predicate BothWithin(source: Cluster, destination: Cluster, index: string, id: string, range: Interval)
    requires InBoth(source, destination, index, id)
  {
    Within(range, source[index][id].timestamp) && Within(range, destination[index][id].timestamp)
  }

  /** Every interval sees both copies of a document of the range, or neither. */
  ghost predicate NeverSeparated(source: Cluster, destination: Cluster, intervals: seq<Interval>, range: Interval) {
    forall index, id, i |
      InBoth(source, destination, index, id) && 0 <= i < |intervals| && BothWithin(source, destination, index, id, range) ::
      Within(intervals[i], source[index][id].timestamp) <==> Within(intervals[i], destination[index][id].timestamp)
  }

  lemma RangeReportIsFound(
    r: Report, source: Cluster, destination: Cluster, intervals: seq<Interval>, range: Interval,
    onlyIDs: bool, areEqualJSON: (string, string) -> Option<bool>)
    requires Chained(intervals, range.start, range.stop)
    requires NeverSeparated(source, destination, intervals, range)
    requires Reports(r, source, destination, range, onlyIDs, areEqualJSON)
    ensures SomeReports(r, source, destination, intervals, onlyIDs, areEqualJSON)
  {
    var cluster: Cluster := if r.AbsentFromSource? then destination else source;
    var i := ChainCovers(intervals, range.start, range.stop, cluster[r.index][r.id].timestamp, 0);
    ChainIsOrdered(intervals, range.start, range.stop, i);
    assert Reports(r, source, destination, intervals[i], onlyIDs, areEqualJSON);
  }

  lemma FoundReportIsTrue(
    r: Report, source: Cluster, destination: Cluster, intervals: seq<Interval>, range: Interval,
    onlyIDs: bool, areEqualJSON: (string, string) -> Option<bool>, i: nat)
    requires Chained(intervals, range.start, range.stop) && i < |intervals|
    requires NeverSeparated(source, destination, intervals, range)
    requires Reports(r, source, destination, intervals[i], onlyIDs, areEqualJSON)
    ensures Reports(r, source, destination, range, onlyIDs, areEqualJSON)
  {
    ChainIsOrdered(intervals, range.start, range.stop, i);
  }

  lemma ParallelReportsOnce(
    r: Report, source: Cluster, destination: Cluster, intervals: seq<Interval>, range: Interval,
    onlyIDs: bool, areEqualJSON: (string, string) -> Option<bool>)
    requires Chained(intervals, range.start, range.stop)
    requires NeverSeparated(source, destination, intervals, range)
    ensures SomeReports(r, source, destination, intervals, onlyIDs, areEqualJSON)
       <==> Reports(r, source, destination, range, onlyIDs, areEqualJSON)
  {
    if Reports(r, source, destination, range, onlyIDs, areEqualJSON) {
      RangeReportIsFound(r, source, destination, intervals, range, onlyIDs, areEqualJSON);
    } else if SomeReports(r, source, destination, intervals, onlyIDs, areEqualJSON) {
      var i :| 0 <= i < |intervals| && Reports(r, source, destination, intervals[i], onlyIDs, areEqualJSON);
      FoundReportIsTrue(r, source, destination, intervals, range, onlyIDs, areEqualJSON, i);
    }
  }

  /**
   * The checkers together report exactly what one checker over the whole range reports if and only
   * if no interval holds one copy of a document of the range without the other.
   */
  lemma ParallelEqualsOne(
    source: Cluster, destination: Cluster, intervals: seq<Interval>, range: Interval,
    onlyIDs: bool, areEqualJSON: (string, string) -> Option<bool>)
    requires Chained(intervals, range.start, range.stop)
    ensures NeverSeparated(source, destination, intervals, range) <==>
      forall r :: SomeReports(r, source, destination, intervals, onlyIDs, areEqualJSON)
             <==> Reports(r, source, destination, range, onlyIDs, areEqualJSON)
  {
    if NeverSeparated(source, destination, intervals, range) {
      forall r
        ensures SomeReports(r, source, destination, intervals, onlyIDs, areEqualJSON)
           <==> Reports(r, source, destination, range, onlyIDs, areEqualJSON)
      {
        ParallelReportsOnce(r, source, destination, intervals, range, onlyIDs, areEqualJSON);
      }
    } else {
      var index, id, i :| InBoth(source, destination, index, id) && 0 <= i < |intervals| &&
        BothWithin(source, destination, index, id, range) &&
        Within(intervals[i], source[index][id].timestamp) != Within(intervals[i], destination[index][id].timestamp);
      var r := if Within(intervals[i], source[index][id].timestamp) then AbsentFromDestination(index, id)
               else AbsentFromSource(index, id);
      assert Reports(r, source, destination, intervals[i], onlyIDs, areEqualJSON);
      assert !Reports(r, source, destination, range, onlyIDs, areEqualJSON);
    }
  }

  /** In particular when both clusters agree on the timestamps of the documents they share. */
  lemma SameTimestampsSuffice(source: Cluster, destination: Cluster, intervals: seq<Interval>, range: Interval)
    requires forall index, id :: InBoth(source, destination, index, id) ==>
      source[index][id].timestamp == destination[index][id].timestamp
    ensures NeverSeparated(source, destination, intervals, range)
  {
  }

  lemma Halves(intervals: seq<Interval>)
    requires |intervals| == 2 && Chained(intervals, 0, 10) && EvenlySplit(intervals)
    ensures intervals[0] == Interval(0, 5) && intervals[1] == Interval(5, 10)
  {
    assert intervals[0].stop == intervals[0 + 1].start;
    assert Width(intervals[0]) <= Width(intervals[1]) < Width(intervals[0]) + 2;
  }

  /** A cluster with one document. */
  function OneDocument(timestamp: int): Cluster {
    map["index" := map["doc" := Stored(timestamp, "{}")]]
  }

  /**
   * Times 0 to 10 split in two, and a document stored at time 3 in one cluster and at time 7 in the
   * other: one checker compares the copies, two report both as absent.
   */
  lemma SeparatedCopies(intervals: seq<Interval>, areEqualJSON: (string, string) -> Option<bool>)
    requires |intervals| == 2 && Chained(intervals, 0, 10) && EvenlySplit(intervals)
    ensures var source, destination, range := OneDocument(3), OneDocument(7), Interval(0, 10);
      forall r :: r in {AbsentFromDestination("index", "doc"), AbsentFromSource("index", "doc")} ==>
        && SomeReports(r, source, destination, intervals, true, areEqualJSON)
        && !Reports(r, source, destination, range, true, areEqualJSON)
  {
    Halves(intervals);
    assert Reports(AbsentFromDestination("index", "doc"), OneDocument(3), OneDocument(7), intervals[0], true, areEqualJSON);
    assert Reports(AbsentFromSource("index", "doc"), OneDocument(3), OneDocument(7), intervals[1], true, areEqualJSON);
  }

  // ---------------------------------------------------------------- running the checkers

  /** A client that serves, page by page, what a checker's range query finds. */
  ghost predicate Serves(client: Client, cluster: Cluster, indices: seq<string>, interval: Interval) {
    forall index :: index in indices ==>
      client.Streams(index) && client.Documents(index) == Query(cluster, index, interval)
  }

  /** A client serves an interval when its hits are the documents stored with a timestamp in it. */
  lemma ServesStored(client: Client, cluster: Cluster, indices: seq<string>, interval: Interval)
    requires forall index :: index in indices ==> index in cluster && client.Streams(index) && client.DistinctHits(index)
    requires forall index, page, hit | index in indices && page in client.Pages(index) && hit in page ::
      hit.id in cluster[index] && hit.source == cluster[index][hit.id].source &&
      interval.start <= cluster[index][hit.id].timestamp <= interval.stop
    requires forall index, id |
      index in indices && id in cluster[index] && interval.start <= cluster[index][id].timestamp <= interval.stop ::
      exists page, hit :: page in client.Pages(index) && hit in page && hit.id == id
    ensures Serves(client, cluster, indices, interval)
  {
    forall index | index in indices
      ensures client.Documents(index) == Query(cluster, index, interval)
    {
      forall id
        ensures id in client.Documents(index) <==> id in Query(cluster, index, interval)
        ensures id in client.Documents(index) ==> client.Documents(index)[id] == Query(cluster, index, interval)[id]
      {
        client.DocumentsAreHits(index, id);
      }
    }
  }

  lemma {:induction false} TimesPositive(indices: seq<string>, n: nat, index: string)
    requires n <= |indices|
    ensures Times(indices, n, index) > 0 <==> index in indices[..n]
  {
    if n > 0 {
      TimesPositive(indices, n - 1, index);
      assert indices[..n] == indices[..n - 1] + [indices[n - 1]];
    }
  }

  method RunChecker(
    sourceClient: Client, destinationClient: Client, indices: seq<string>, onlyIDs: bool,
    areEqualJSON: (string, string) -> Option<bool>,
    ghost source: Cluster, ghost destination: Cluster, ghost interval: Interval)
    returns (reports: set<Report>)
    requires Serves(sourceClient, source, indices, interval) && Serves(destinationClient, destination, indices, interval)
    ensures forall r :: r in reports <==>
      r.index in indices && Reports(r, source, destination, interval, onlyIDs, areEqualJSON)
  {
    var checker := new ClusterChecker(sourceClient, destinationClient, indices, onlyIDs, areEqualJSON);
    checker.CompareIndicesWithTimestamp();
    reports := set r | r in checker.log;
    assert indices[..|indices|] == indices;
    forall r
      ensures r in reports <==> r.index in indices && Reports(r, source, destination, interval, onlyIDs, areEqualJSON)
    {
      TimesPositive(indices, |indices|, r.index);
      assert checker.log[r] == checker.ConfiguredReports(r, |indices|);
    }
  }

  lemma OneMoreInterval(
    r: Report, source: Cluster, destination: Cluster, intervals: seq<Interval>, next: Interval,
    onlyIDs: bool, areEqualJSON: (string, string) -> Option<bool>)
    ensures SomeReports(r, source, destination, intervals + [next], onlyIDs, areEqualJSON) <==>
      SomeReports(r, source, destination, intervals, onlyIDs, areEqualJSON) ||
      Reports(r, source, destination, next, onlyIDs, areEqualJSON)
  {
    var more := intervals + [next];
    if SomeReports(r, source, destination, intervals, onlyIDs, areEqualJSON) {
      var i :| 0 <= i < |intervals| && Reports(r, source, destination, intervals[i], onlyIDs, areEqualJSON);
      assert Reports(r, source, destination, more[i], onlyIDs, areEqualJSON);
    }
    if Reports(r, source, destination, next, onlyIDs, areEqualJSON) {
      assert Reports(r, source, destination, more[|intervals|], onlyIDs, areEqualJSON);
    }
  }

  /** Runs every checker to its end; they share nothing, so any schedule gives these reports. */
  method RunCheckers(
    sources: seq<Client>, destinations: seq<Client>, indices: seq<string>, onlyIDs: bool,
    areEqualJSON: (string, string) -> Option<bool>,
    ghost source: Cluster, ghost destination: Cluster, ghost intervals: seq<Interval>)
    returns (reports: set<Report>)
    requires |sources| == |destinations| == |intervals|
    requires forall i :: 0 <= i < |intervals| ==>
      Serves(sources[i], source, indices, intervals[i]) && Serves(destinations[i], destination, indices, intervals[i])
    ensures forall r :: r in reports <==>
      r.index in indices && SomeReports(r, source, destination, intervals, onlyIDs, areEqualJSON)
  {
    reports := {};
    for i := 0 to |sources|
      invariant forall r :: r in reports <==>
        r.index in indices && SomeReports(r, source, destination, intervals[..i], onlyIDs, areEqualJSON)
    {
      var more := RunChecker(sources[i], destinations[i], indices, onlyIDs, areEqualJSON, source, destination, intervals[i]);
      assert intervals[..i + 1] == intervals[..i] + [intervals[i]];
      forall r
        ensures SomeReports(r, source, destination, intervals[..i + 1], onlyIDs, areEqualJSON) <==>
          SomeReports(r, source, destination, intervals[..i], onlyIDs, areEqualJSON) ||
          Reports(r, source, destination, intervals[i], onlyIDs, areEqualJSON)
      {
        OneMoreInterval(r, source, destination, intervals[..i], intervals[i], onlyIDs, areEqualJSON);
      }
      reports := reports + more;
    }
    assert intervals[..|intervals|] == intervals;
  }

  /** Document by document, what a checker restricted to an interval reports. */
  lemma ReportsOverDocuments(
    source: Cluster, destination: Cluster, interval: Interval,
    onlyIDs: bool, areEqualJSON: (string, string) -> Option<bool>, index: string, id: string)
    ensures var inSource := index in source && id in source[index] &&
        interval.start <= source[index][id].timestamp <= interval.stop;
      var inDestination := index in destination && id in destination[index] &&
        interval.start <= destination[index][id].timestamp <= interval.stop;
      var compared := inSource && inDestination && !onlyIDs;
      && (Reports(AbsentFromDestination(index, id), source, destination, interval, onlyIDs, areEqualJSON) <==> inSource && !inDestination)
      && (Reports(AbsentFromSource(index, id), source, destination, interval, onlyIDs, areEqualJSON) <==> inDestination && !inSource)
      && (Reports(Different(index, id), source, destination, interval, onlyIDs, areEqualJSON) <==>
            compared && areEqualJSON(source[index][id].source, destination[index][id].source) == Some(false))
      && (Reports(NotComparable(index, id), source, destination, interval, onlyIDs, areEqualJSON) <==>
            compared && areEqualJSON(source[index][id].source, destination[index][id].source) == None)
  {
  }

  /**
   * From the clusters to the reports: checkers over a split of the range report what plain set
   * difference and comparison report over the whole range, unless an interval separates two copies.
   */
  method CompareInParallel(
    sources: seq<Client>, destinations: seq<Client>, indices: seq<string>, onlyIDs: bool,
    areEqualJSON: (string, string) -> Option<bool>,
    ghost source: Cluster, ghost destination: Cluster, ghost intervals: seq<Interval>, ghost range: Interval)
    returns (reports: set<Report>)
    requires |sources| == |destinations| == |intervals| && Chained(intervals, range.start, range.stop)
    requires forall i :: 0 <= i < |intervals| ==>
      Serves(sources[i], source, indices, intervals[i]) && Serves(destinations[i], destination, indices, intervals[i])
    ensures NeverSeparated(source, destination, intervals, range) ==>
      forall r :: r in reports <==> r.index in indices && Reports(r, source, destination, range, onlyIDs, areEqualJSON)
    ensures (forall index, id :: InBoth(source, destination, index, id) ==>
        source[index][id].timestamp == destination[index][id].timestamp) ==>
      forall r :: r in reports <==> r.index in indices && Reports(r, source, destination, range, onlyIDs, areEqualJSON)
  {
    reports := RunCheckers(sources, destinations, indices, onlyIDs, areEqualJSON, source, destination, intervals);
    ParallelEqualsOne(source, destination, intervals, range, onlyIDs, areEqualJSON);
    if forall index, id :: InBoth(source, destination, index, id) ==>
      source[index][id].timestamp == destination[index][id].timestamp
    {
      SameTimestampsSuffice(source, destination, intervals, range);
    }
  }
}
