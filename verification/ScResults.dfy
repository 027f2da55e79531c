/**
 * Smart contract results of a block: every result of the pool is prepared once, with the shards of
 * the miniblock that holds it, and then goes to its transaction or to the results without one.
 */
module ScResults {
  import opened Wrappers
  import opened Numbers
  import opened Hex
  import opened ElasticIndex

  /** A result of the pool; `payload` is everything copied without looking at it. */
  datatype ScrInfo = ScrInfo(originalTxHash: seq<byte>, payload: string)

  datatype ScResult = ScResult(
    hash: string, mbHash: string, originalTxHash: string, senderShard: nat, receiverShard: nat, payload: string)

  datatype MiniBlock = MiniBlock(isScrBlock: bool, senderShard: nat, receiverShard: nat, txHashes: seq<seq<byte>>)

  /** `core.CalculateHash`, which can fail. */
  type MiniBlockHasher = MiniBlock -> Option<seq<byte>>

  /** A Go map of results, shared by reference. */
  class ScrMap {
    var scrs: map<string, ScrInfo>

    constructor (scrs: map<string, ScrInfo>)
      ensures this.scrs == scrs
    {
      this.scrs := scrs;
    }
  }

  method CopyScrMap(initial: ScrMap) returns (copy: ScrMap)
    ensures fresh(copy) && copy.scrs == initial.scrs
  {
    copy := new ScrMap(map[]);
    var pending := initial.scrs.Keys;
    while pending != {}
      invariant pending <= initial.scrs.Keys && copy.scrs == initial.scrs - pending
      decreases pending
    {
      var key :| key in pending;
      copy.scrs := copy.scrs[key := initial.scrs[key]];
      pending := pending - {key};
    }
  }

  function PrepareSmartContractResult(
    scrHashHex: string, mbHash: seq<byte>, info: ScrInfo, senderShard: nat, receiverShard: nat): ScResult
  {
    ScResult(scrHashHex, if |mbHash| > 0 then EncodeToString(mbHash) else "",
             EncodeToString(info.originalTxHash), senderShard, receiverShard, info.payload)
  }

  // ---------------------------------------------------------------- which miniblock a result belongs to

  predicate Holds(mb: MiniBlock, hasher: MiniBlockHasher, scrHashHex: string) {
    mb.isScrBlock && hasher(mb).Some? && exists h :: h in mb.txHashes && EncodeToString(h) == scrHashHex
  }

  /** The first of the miniblocks that is a result block, can be hashed and lists the result. */
  function FirstHolder(miniBlocks: seq<MiniBlock>, hasher: MiniBlockHasher, scrHashHex: string): (mb: Option<MiniBlock>)
    ensures mb.Some? ==> mb.value in miniBlocks && Holds(mb.value, hasher, scrHashHex)
    ensures mb.None? ==> forall m :: m in miniBlocks ==> !Holds(m, hasher, scrHashHex)
  {
    if miniBlocks == [] then None
    else
      var init, last := miniBlocks[..|miniBlocks| - 1], miniBlocks[|miniBlocks| - 1];
      var earlier := FirstHolder(init, hasher, scrHashHex);
      if earlier.Some? then earlier
      else if Holds(last, hasher, scrHashHex) then Some(last)
      else None
  }

  function Prepared(
    miniBlocks: seq<MiniBlock>, hasher: MiniBlockHasher, selfShard: nat, scrHashHex: string, info: ScrInfo): (r: ScResult)
    ensures r.hash == scrHashHex && r.originalTxHash == EncodeToString(info.originalTxHash) && r.payload == info.payload
  {
    var holder := FirstHolder(miniBlocks, hasher, scrHashHex);
    if holder.Some? then
      PrepareSmartContractResult(scrHashHex, hasher(holder.value).value, info, holder.value.senderShard, holder.value.receiverShard)
    else PrepareSmartContractResult(scrHashHex, [], info, selfShard, selfShard)
  }

  predicate Distinct(results: seq<ScResult>) {
    forall i, j :: 0 <= i < j < |results| ==> results[i].hash != results[j].hash
  }

  /** One result for each of `keys`, and nothing else. */
  ghost predicate OneForEach(results: seq<ScResult>, keys: set<string>) {
    && Distinct(results)
    && (forall r :: r in results ==> r.hash in keys)
    && (forall key :: key in keys ==> exists r :: r in results && r.hash == key)
  }

  lemma OneMore(results: seq<ScResult>, keys: set<string>, r: ScResult)
    requires OneForEach(results, keys) && r.hash !in keys
    ensures OneForEach(results + [r], keys + {r.hash})
  {
    forall key | key in keys + {r.hash}
      ensures exists q :: q in results + [r] && q.hash == key
    {
      if key in keys {
        var q :| q in results && q.hash == key;
        assert q in results + [r];
      } else {
        assert r in results + [r];
      }
    }
  }

  lemma ManyMore(results: seq<ScResult>, keys: set<string>, others: seq<ScResult>, otherKeys: set<string>)
    requires OneForEach(results, keys) && OneForEach(others, otherKeys) && keys !! otherKeys
    ensures OneForEach(results + others, keys + otherKeys)
  {
    var all := results + others;
    forall i, j | 0 <= i < j < |all|
      ensures all[i].hash != all[j].hash
    {
      if i < |results| <= j {
        assert all[i] in results && all[j] in others;
      }
    }
    forall key | key in keys + otherKeys
      ensures exists q :: q in all && q.hash == key
    {
      if key in keys {
        var q :| q in results && q.hash == key;
        assert q in all;
      } else {
        var q :| q in others && q.hash == key;
        assert q in all;
      }
    }
  }

  // ---------------------------------------------------------------- preparing

  function HexHashes(hashes: seq<seq<byte>>): set<string> {
    set h | h in hashes :: EncodeToString(h)
  }

  predicate PreparedIn(r: ScResult, pool: map<string, ScrInfo>, mb: MiniBlock, mbHash: seq<byte>) {
    r.hash in pool && r == PrepareSmartContractResult(r.hash, mbHash, pool[r.hash], mb.senderShard, mb.receiverShard)
  }

  /** One result for each hash the pool holds, prepared for the miniblock, and those hashes gone. */
  ghost predicate TakenFrom(
    results: seq<ScResult>, pool: map<string, ScrInfo>, left: map<string, ScrInfo>,
    hashes: seq<seq<byte>>, mb: MiniBlock, mbHash: seq<byte>)
  {
    && left == pool - HexHashes(hashes)
    && OneForEach(results, pool.Keys * HexHashes(hashes))
    && forall r :: r in results ==> PreparedIn(r, pool, mb, mbHash)
  }

  lemma HexHashesLast(hashes: seq<seq<byte>>, hash: seq<byte>)
    ensures HexHashes(hashes + [hash]) == HexHashes(hashes) + {EncodeToString(hash)}
  {
    assert forall h :: h in hashes + [hash] <==> h in hashes || h == hash;
  }

  lemma HashTaken(
    results: seq<ScResult>, pool: map<string, ScrInfo>, left: map<string, ScrInfo>,
    hashes: seq<seq<byte>>, hash: seq<byte>, mb: MiniBlock, mbHash: seq<byte>)
    requires TakenFrom(results, pool, left, hashes, mb, mbHash)
    ensures var key := EncodeToString(hash);
      if key in left
      then TakenFrom(results + [PrepareSmartContractResult(key, mbHash, left[key], mb.senderShard, mb.receiverShard)],
                     pool, left - {key}, hashes + [hash], mb, mbHash)
      else TakenFrom(results, pool, left, hashes + [hash], mb, mbHash)
  {
    var key := EncodeToString(hash);
    HexHashesLast(hashes, hash);
    if key in left {
      OneMore(results, pool.Keys * HexHashes(hashes),
              PrepareSmartContractResult(key, mbHash, left[key], mb.senderShard, mb.receiverShard));
      assert pool.Keys * (HexHashes(hashes) + {key}) == pool.Keys * HexHashes(hashes) + {key};
    } else {
      assert pool.Keys * (HexHashes(hashes) + {key}) == pool.Keys * HexHashes(hashes);
    }
  }

  lemma NoneTaken(pool: map<string, ScrInfo>, mb: MiniBlock, mbHash: seq<byte>)
    ensures TakenFrom([], pool, pool, [], mb, mbHash)
  {
    assert HexHashes([]) == {} && pool - {} == pool;
  }

  /** One turn of the loop over the hashes a miniblock lists. */
  method TakeHash(
    results: seq<ScResult>, hash: seq<byte>, mb: MiniBlock, mbHash: seq<byte>, scrs: ScrMap,
    ghost pool: map<string, ScrInfo>, ghost hashes: seq<seq<byte>>)
    returns (more: seq<ScResult>)
    requires TakenFrom(results, pool, scrs.scrs, hashes, mb, mbHash)
    modifies scrs
    ensures TakenFrom(more, pool, scrs.scrs, hashes + [hash], mb, mbHash)
  {
    HashTaken(results, pool, scrs.scrs, hashes, hash, mb, mbHash);
    more := results;
    var scrHashHex := EncodeToString(hash);
    if scrHashHex in scrs.scrs {
      more := more + [PrepareSmartContractResult(scrHashHex, mbHash, scrs.scrs[scrHashHex], mb.senderShard, mb.receiverShard)];
      scrs.scrs := scrs.scrs - {scrHashHex};
    }
  }

  method ProcessSCRsFromMiniblock(mb: MiniBlock, hasher: MiniBlockHasher, scrs: ScrMap) returns (results: seq<ScResult>)
    modifies scrs
    ensures hasher(mb).None? ==> results == [] && scrs.scrs == old(scrs.scrs)
    ensures hasher(mb).Some? ==> TakenFrom(results, old(scrs.scrs), scrs.scrs, mb.txHashes, mb, hasher(mb).value)
  {
    var mbHash := hasher(mb);
    if mbHash.None? {
      return [];
    }
    results := [];
    NoneTaken(scrs.scrs, mb, mbHash.value);
    ghost var hashes: seq<seq<byte>> := [];
    for i := 0 to |mb.txHashes|
      invariant hashes == mb.txHashes[..i]
      invariant TakenFrom(results, old(scrs.scrs), scrs.scrs, hashes, mb, mbHash.value)
    {
      results := TakeHash(results, mb.txHashes[i], mb, mbHash.value, scrs, old(scrs.scrs), hashes);
      hashes := hashes + [mb.txHashes[i]];
    }
    assert hashes == mb.txHashes;
  }

  /** One result for each of `keys`, prepared as the miniblocks demand. */
  ghost predicate PreparedFor(
    results: seq<ScResult>, pool: map<string, ScrInfo>, keys: set<string>,
    miniBlocks: seq<MiniBlock>, hasher: MiniBlockHasher, selfShard: nat)
  {
    && OneForEach(results, keys)
    && (forall r :: r in results ==> r.hash in pool && r == Prepared(miniBlocks, hasher, selfShard, r.hash, pool[r.hash]))
  }

  /** What is left of the pool is what none of the miniblocks holds. */
  ghost predicate Unheld(pool: map<string, ScrInfo>, working: map<string, ScrInfo>, miniBlocks: seq<MiniBlock>, hasher: MiniBlockHasher) {
    && working == pool - (pool.Keys - working.Keys)
    && (forall key :: key in pool ==> (key in working <==> FirstHolder(miniBlocks, hasher, key).None?))
  }

  /** The results already taken from the pool, prepared as the miniblocks seen so far demand. */
  ghost predicate Taken(
    results: seq<ScResult>, pool: map<string, ScrInfo>, working: map<string, ScrInfo>,
    miniBlocks: seq<MiniBlock>, hasher: MiniBlockHasher, selfShard: nat)
  {
    Unheld(pool, working, miniBlocks, hasher) &&
    PreparedFor(results, pool, pool.Keys - working.Keys, miniBlocks, hasher, selfShard)
  }

  lemma NextHolder(miniBlocks: seq<MiniBlock>, mb: MiniBlock, hasher: MiniBlockHasher, key: string)
    ensures Holds(mb, hasher, key) <==> mb.isScrBlock && hasher(mb).Some? && key in HexHashes(mb.txHashes)
    ensures FirstHolder(miniBlocks + [mb], hasher, key) ==
      var earlier := FirstHolder(miniBlocks, hasher, key);
      if earlier.Some? then earlier else if Holds(mb, hasher, key) then Some(mb) else None
  {
    assert (miniBlocks + [mb])[..|miniBlocks|] == miniBlocks;
  }

  lemma StillUnheld(
    pool: map<string, ScrInfo>, working: map<string, ScrInfo>, after: map<string, ScrInfo>,
    miniBlocks: seq<MiniBlock>, mb: MiniBlock, hasher: MiniBlockHasher)
    requires Unheld(pool, working, miniBlocks, hasher)
    requires after == if mb.isScrBlock && hasher(mb).Some? then working - HexHashes(mb.txHashes) else working
    ensures Unheld(pool, after, miniBlocks + [mb], hasher)
  {
    forall key | key in pool
      ensures key in after <==> FirstHolder(miniBlocks + [mb], hasher, key).None?
    {
      NextHolder(miniBlocks, mb, hasher, key);
    }
  }

  lemma PreparedByHolders(
    results: seq<ScResult>, pool: map<string, ScrInfo>, working: map<string, ScrInfo>, after: map<string, ScrInfo>,
    miniBlocks: seq<MiniBlock>, mb: MiniBlock, hasher: MiniBlockHasher, selfShard: nat, more: seq<ScResult>)
    requires Taken(results, pool, working, miniBlocks, hasher, selfShard)
    requires mb.isScrBlock && hasher(mb).Some? && TakenFrom(more, working, after, mb.txHashes, mb, hasher(mb).value)
    ensures forall r :: r in results + more ==>
      r.hash in pool && r == Prepared(miniBlocks + [mb], hasher, selfShard, r.hash, pool[r.hash])
  {
    forall r | r in results + more
      ensures r.hash in pool && r == Prepared(miniBlocks + [mb], hasher, selfShard, r.hash, pool[r.hash])
    {
      NextHolder(miniBlocks, mb, hasher, r.hash);
      if r in results {
        assert r.hash !in working;
      } else {
        assert PreparedIn(r, working, mb, hasher(mb).value);
      }
    }
  }

  lemma BothTaken(
    results: seq<ScResult>, pool: map<string, ScrInfo>, working: map<string, ScrInfo>, after: map<string, ScrInfo>,
    mb: MiniBlock, more: seq<ScResult>)
    requires working == pool - (pool.Keys - working.Keys) && after == working - HexHashes(mb.txHashes)
    requires OneForEach(results, pool.Keys - working.Keys) && OneForEach(more, working.Keys * HexHashes(mb.txHashes))
    ensures OneForEach(results + more, pool.Keys - after.Keys)
  {
    assert pool.Keys - after.Keys == pool.Keys - working.Keys + working.Keys * HexHashes(mb.txHashes);
    ManyMore(results, pool.Keys - working.Keys, more, working.Keys * HexHashes(mb.txHashes));
  }

  lemma MiniBlockTaken(
    results: seq<ScResult>, pool: map<string, ScrInfo>, working: map<string, ScrInfo>, after: map<string, ScrInfo>,
    miniBlocks: seq<MiniBlock>, mb: MiniBlock, hasher: MiniBlockHasher, selfShard: nat, more: seq<ScResult>)
    requires Taken(results, pool, working, miniBlocks, hasher, selfShard)
    requires mb.isScrBlock && hasher(mb).Some? && TakenFrom(more, working, after, mb.txHashes, mb, hasher(mb).value)
    ensures Taken(results + more, pool, after, miniBlocks + [mb], hasher, selfShard)
  {
    StillUnheld(pool, working, after, miniBlocks, mb, hasher);
    BothTaken(results, pool, working, after, mb, more);
    PreparedByHolders(results, pool, working, after, miniBlocks, mb, hasher, selfShard, more);
  }

  lemma MiniBlockSkipped(
    results: seq<ScResult>, pool: map<string, ScrInfo>, working: map<string, ScrInfo>,
    miniBlocks: seq<MiniBlock>, mb: MiniBlock, hasher: MiniBlockHasher, selfShard: nat)
    requires Taken(results, pool, working, miniBlocks, hasher, selfShard)
    requires !mb.isScrBlock || hasher(mb).None?
    ensures Taken(results, pool, working, miniBlocks + [mb], hasher, selfShard)
  {
    StillUnheld(pool, working, working, miniBlocks, mb, hasher);
    forall key
      ensures FirstHolder(miniBlocks + [mb], hasher, key) == FirstHolder(miniBlocks, hasher, key)
    {
      NextHolder(miniBlocks, mb, hasher, key);
    }
  }

  /** A result block, whether it can be hashed or not. */
  lemma BlockProcessed(
    results: seq<ScResult>, pool: map<string, ScrInfo>, working: map<string, ScrInfo>, after: map<string, ScrInfo>,
    miniBlocks: seq<MiniBlock>, mb: MiniBlock, hasher: MiniBlockHasher, selfShard: nat, more: seq<ScResult>)
    requires Taken(results, pool, working, miniBlocks, hasher, selfShard) && mb.isScrBlock
    requires if hasher(mb).None? then more == [] && after == working
             else TakenFrom(more, working, after, mb.txHashes, mb, hasher(mb).value)
    ensures Taken(results + more, pool, after, miniBlocks + [mb], hasher, selfShard)
  {
    if hasher(mb).None? {
      MiniBlockSkipped(results, pool, working, miniBlocks, mb, hasher, selfShard);
      assert results + [] == results;
    } else {
      MiniBlockTaken(results, pool, working, after, miniBlocks, mb, hasher, selfShard, more);
    }
  }

  lemma LeftOverTaken(
    results: seq<ScResult>, pool: map<string, ScrInfo>, working: map<string, ScrInfo>, keys: set<string>,
    miniBlocks: seq<MiniBlock>, hasher: MiniBlockHasher, selfShard: nat, key: string)
    requires Unheld(pool, working, miniBlocks, hasher) && key in working && key !in keys
    requires PreparedFor(results, pool, keys, miniBlocks, hasher, selfShard)
    ensures PreparedFor(results + [PrepareSmartContractResult(key, [], working[key], selfShard, selfShard)],
                        pool, keys + {key}, miniBlocks, hasher, selfShard)
  {
    assert key in pool && working[key] == pool[key];
    OneMore(results, keys, PrepareSmartContractResult(key, [], working[key], selfShard, selfShard));
  }

  /** The last loop of ProcessSCRs: what no miniblock holds, in whatever order the map yields it. */
  method PrepareLeftOver(
    results: seq<ScResult>, working: ScrMap, selfShard: nat,
    ghost pool: map<string, ScrInfo>, ghost miniBlocks: seq<MiniBlock>, ghost hasher: MiniBlockHasher)
    returns (all: seq<ScResult>)
    requires Taken(results, pool, working.scrs, miniBlocks, hasher, selfShard)
    ensures PreparedFor(all, pool, pool.Keys, miniBlocks, hasher, selfShard)
  {
    all := results;
    var pending := working.scrs.Keys;
    ghost var done := pool.Keys - pending;
    while pending != {}
      invariant pending <= working.scrs.Keys && pending !! done && pending + done == pool.Keys
      invariant PreparedFor(all, pool, done, miniBlocks, hasher, selfShard)
      decreases pending
    {
      var key :| key in pending;
      LeftOverTaken(all, pool, working.scrs, done, miniBlocks, hasher, selfShard, key);
      all := all + [PrepareSmartContractResult(key, [], working.scrs[key], selfShard, selfShard)];
      pending := pending - {key};
      done := done + {key};
    }
    assert done == pool.Keys;
  }

  lemma NothingTaken(pool: map<string, ScrInfo>, hasher: MiniBlockHasher, selfShard: nat)
    ensures Taken([], pool, pool, [], hasher, selfShard)
  {
    assert pool - (pool.Keys - pool.Keys) == pool;
  }

  /**
   * One result for every entry of the pool, whatever the miniblocks list, repeat or miss: prepared
   * from the first result block that holds it, or for the own shard without a miniblock. The pool
   * itself is not touched.
   */
  method ProcessSCRs(miniBlocks: seq<MiniBlock>, hasher: MiniBlockHasher, selfShard: nat, scrs: ScrMap)
    returns (results: seq<ScResult>)
    ensures PreparedFor(results, scrs.scrs, scrs.scrs.Keys, miniBlocks, hasher, selfShard)
    ensures scrs.scrs == old(scrs.scrs)
  {
    results := [];
    var working := CopyScrMap(scrs);
    NothingTaken(scrs.scrs, hasher, selfShard);
    for i := 0 to |miniBlocks|
      invariant fresh(working)
      invariant Taken(results, scrs.scrs, working.scrs, miniBlocks[..i], hasher, selfShard)
    {
      assert miniBlocks[..i + 1] == miniBlocks[..i] + [miniBlocks[i]];
      if miniBlocks[i].isScrBlock {
        ghost var before, taken := working.scrs, results;
        var more := ProcessSCRsFromMiniblock(miniBlocks[i], hasher, working);
        results := results + more;
        BlockProcessed(taken, scrs.scrs, before, working.scrs, miniBlocks[..i], miniBlocks[i], hasher, selfShard, more);
      } else {
        MiniBlockSkipped(results, scrs.scrs, working.scrs, miniBlocks[..i], miniBlocks[i], hasher, selfShard);
      }
    }
    assert miniBlocks[..|miniBlocks|] == miniBlocks;
    results := PrepareLeftOver(results, working, selfShard, scrs.scrs, miniBlocks, hasher);
  }

  // ---------------------------------------------------------------- field by field

  /** A block of results that can be hashed and lists the result with this hash. */
  ghost predicate Lists(mb: MiniBlock, hasher: MiniBlockHasher, hash: seq<byte>) {
    mb.isScrBlock && hasher(mb).Some? && hash in mb.txHashes
  }

  lemma NoLister(miniBlocks: seq<MiniBlock>, hasher: MiniBlockHasher, hash: seq<byte>)
    requires forall mb :: mb in miniBlocks ==> !Lists(mb, hasher, hash)
    ensures FirstHolder(miniBlocks, hasher, EncodeToString(hash)) == None
  {
    var holder := FirstHolder(miniBlocks, hasher, EncodeToString(hash));
    if holder.Some? {
      var h :| h in holder.value.txHashes && EncodeToString(h) == EncodeToString(hash);
      DecodeEncode(h);
      DecodeEncode(hash);
    }
  }

  lemma {:induction false} FirstLister(miniBlocks: seq<MiniBlock>, hasher: MiniBlockHasher, hash: seq<byte>, p: nat)
    requires p < |miniBlocks| && Lists(miniBlocks[p], hasher, hash)
    requires forall q :: 0 <= q < p ==> !Lists(miniBlocks[q], hasher, hash)
    ensures FirstHolder(miniBlocks, hasher, EncodeToString(hash)) == Some(miniBlocks[p])
  {
    var init, last := miniBlocks[..|miniBlocks| - 1], miniBlocks[|miniBlocks| - 1];
    if p < |init| {
      FirstLister(init, hasher, hash, p);
    } else {
      NoLister(init, hasher, hash);
    }
  }

  /** A listed result has the shards of the first block that lists it, and its miniblock hash decodes to that block's. */
  lemma ListedFields(
    miniBlocks: seq<MiniBlock>, hasher: MiniBlockHasher, selfShard: nat, pool: map<string, ScrInfo>,
    results: seq<ScResult>, r: ScResult, hash: seq<byte>, p: nat)
    requires PreparedFor(results, pool, pool.Keys, miniBlocks, hasher, selfShard) && r in results
    requires r.hash == EncodeToString(hash) && p < |miniBlocks| && Lists(miniBlocks[p], hasher, hash)
    requires forall q :: 0 <= q < p ==> !Lists(miniBlocks[q], hasher, hash)
    ensures r.senderShard == miniBlocks[p].senderShard && r.receiverShard == miniBlocks[p].receiverShard
    ensures DecodeString(r.mbHash) == Decoded(hasher(miniBlocks[p]).value, true)
    ensures r.hash in pool && r.payload == pool[r.hash].payload
    ensures DecodeString(r.originalTxHash) == Decoded(pool[r.hash].originalTxHash, true)
  {
    FirstLister(miniBlocks, hasher, hash, p);
    DecodeEncode(hasher(miniBlocks[p]).value);
    DecodeEncode(pool[r.hash].originalTxHash);
  }

  /** A result no block lists has the own shard on both sides and no miniblock hash. */
  lemma UnlistedFields(
    miniBlocks: seq<MiniBlock>, hasher: MiniBlockHasher, selfShard: nat, pool: map<string, ScrInfo>,
    results: seq<ScResult>, r: ScResult, hash: seq<byte>)
    requires PreparedFor(results, pool, pool.Keys, miniBlocks, hasher, selfShard) && r in results
    requires r.hash == EncodeToString(hash) && forall mb :: mb in miniBlocks ==> !Lists(mb, hasher, hash)
    ensures r.senderShard == r.receiverShard == selfShard && r.mbHash == ""
    ensures r.hash in pool && r.payload == pool[r.hash].payload
    ensures DecodeString(r.originalTxHash) == Decoded(pool[r.hash].originalTxHash, true)
  {
    NoLister(miniBlocks, hasher, hash);
    DecodeEncode(pool[r.hash].originalTxHash);
  }

  // ---------------------------------------------------------------- attaching

  class Transaction {
    var smartContractResults: seq<ScResult>
    var hasSCR: bool
  }

  /** The transaction a result names; None when its hash does not decode. */
  function OwnerOf(r: ScResult): Option<seq<byte>> {
    var decoded := DecodeString(r.originalTxHash);
    if decoded.ok then Some(decoded.bytes) else None
  }

  function ResultsOf(results: seq<ScResult>, txHash: seq<byte>): seq<ScResult> {
    OfKey(results, OwnerOf, Some(txHash))
  }

  /** The results, in order, of transactions that are not among `txs`. */
  function WithoutTx(results: seq<ScResult>, txs: set<seq<byte>>): seq<ScResult> {
    if results == [] then []
    else
      var last := results[|results| - 1];
      WithoutTx(results[..|results| - 1], txs) +
      if OwnerOf(last).Some? && OwnerOf(last).value !in txs then [last] else []
  }

  lemma AttachStep(results: seq<ScResult>, r: ScResult, txs: set<seq<byte>>, h: seq<byte>)
    ensures WithoutTx(results + [r], txs) ==
      WithoutTx(results, txs) + if OwnerOf(r).Some? && OwnerOf(r).value !in txs then [r] else []
    ensures ResultsOf(results + [r], h) == ResultsOf(results, h) + if OwnerOf(r) == Some(h) then [r] else []
  {
    assert (results + [r])[..|results|] == results;
    OfKeyLast(results, r, OwnerOf, Some(h));
  }

  /** Every transaction holds its results out of `scrs` behind those it had before, and its flag is as it was. */
  ghost predicate Attached(txs: map<seq<byte>, Transaction>, before: map<seq<byte>, (seq<ScResult>, bool)>, scrs: seq<ScResult>)
    requires before.Keys == txs.Keys
    reads txs.Values
  {
    forall h :: h in txs ==>
      txs[h].smartContractResults == before[h].0 + ResultsOf(scrs, h) && txs[h].hasSCR == before[h].1
  }

  /** One result: appended to its transaction, or reported as left over. */
  method AttachOne(txs: map<seq<byte>, Transaction>, scr: ScResult) returns (leftOver: bool)
    requires forall h, k :: h in txs && k in txs && txs[h] == txs[k] ==> h == k
    modifies txs.Values
    ensures leftOver <==> OwnerOf(scr).Some? && OwnerOf(scr).value !in txs
    ensures forall h :: h in txs ==>
      && txs[h].smartContractResults == old(txs[h].smartContractResults) + (if OwnerOf(scr) == Some(h) then [scr] else [])
      && txs[h].hasSCR == old(txs[h].hasSCR)
  {
    var decoded := DecodeString(scr.originalTxHash);
    if !decoded.ok {
      return false;
    }
    if decoded.bytes !in txs {
      return true;
    }
    var tx := txs[decoded.bytes];
    tx.smartContractResults := tx.smartContractResults + [scr];
    return false;
  }

  lemma OneMoreOf(before: seq<ScResult>, done: seq<ScResult>, scr: ScResult, txs: set<seq<byte>>, h: seq<byte>)
    ensures before + ResultsOf(done + [scr], h) == before + ResultsOf(done, h) + if OwnerOf(scr) == Some(h) then [scr] else []
  {
    AttachStep(done, scr, txs, h);
  }

  method AttachNext(
    txs: map<seq<byte>, Transaction>, scr: ScResult, ghost before: map<seq<byte>, (seq<ScResult>, bool)>, ghost done: seq<ScResult>)
    returns (leftOver: bool)
    requires forall h, k :: h in txs && k in txs && txs[h] == txs[k] ==> h == k
    requires before.Keys == txs.Keys && Attached(txs, before, done)
    modifies txs.Values
    ensures leftOver <==> OwnerOf(scr).Some? && OwnerOf(scr).value !in txs
    ensures Attached(txs, before, done + [scr])
  {
    leftOver := AttachOne(txs, scr);
    forall h | h in txs
      ensures txs[h].smartContractResults == before[h].0 + ResultsOf(done + [scr], h)
    {
      OneMoreOf(before[h].0, done, scr, txs.Keys, h);
    }
  }

  method AttachSCRsToTransactions(txs: map<seq<byte>, Transaction>, scrs: seq<ScResult>) returns (scrsWithoutTx: seq<ScResult>)
    requires forall h, k :: h in txs && k in txs && txs[h] == txs[k] ==> h == k
    modifies txs.Values
    ensures scrsWithoutTx == WithoutTx(scrs, txs.Keys)
    ensures forall h :: h in txs ==>
      && txs[h].smartContractResults == old(txs[h].smartContractResults) + ResultsOf(scrs, h)
      && txs[h].hasSCR == old(txs[h].hasSCR)
  {
    scrsWithoutTx := [];
    ghost var before := map h | h in txs :: (txs[h].smartContractResults, txs[h].hasSCR);
    for i := 0 to |scrs|
      invariant scrsWithoutTx == WithoutTx(scrs[..i], txs.Keys)
      invariant Attached(txs, before, scrs[..i])
    {
      var leftOver := AttachNext(txs, scrs[i], before, scrs[..i]);
      assert scrs[..i + 1] == scrs[..i] + [scrs[i]];
      AttachStep(scrs[..i], scrs[i], txs.Keys, []);
      if leftOver {
        scrsWithoutTx := scrsWithoutTx + [scrs[i]];
      }
    }
    assert scrs[..|scrs|] == scrs;
  }

  method MarkTransactionsWithSCRs(txs: map<seq<byte>, Transaction>)
    modifies txs.Values
    ensures forall tx :: tx in txs.Values ==>
      && tx.smartContractResults == old(tx.smartContractResults)
      && tx.hasSCR == (old(tx.hasSCR) || tx.smartContractResults != [])
  {
    var pending := txs.Keys;
    while pending != {}
      invariant pending <= txs.Keys
      invariant forall tx :: tx in txs.Values ==>
        && tx.smartContractResults == old(tx.smartContractResults)
        && (tx.hasSCR == old(tx.hasSCR) || (tx.hasSCR && tx.smartContractResults != []))
      invariant forall h :: h in txs && h !in pending ==> txs[h].hasSCR == (old(txs[h].hasSCR) || txs[h].smartContractResults != [])
      decreases pending
    {
      var h :| h in pending;
      pending := pending - {h};
      if |txs[h].smartContractResults| != 0 {
        txs[h].hasSCR := true;
      }
    }
  }

  // ---------------------------------------------------------------- conservation

  /** Where a prepared result of the pool ends: with its transaction, or among those without one. */
  lemma {:induction false} PlacedOnce(results: seq<ScResult>, txs: set<seq<byte>>, r: ScResult)
    requires OwnerOf(r).Some?
    ensures var owner := OwnerOf(r).value;
      if owner in txs then
        && multiset(ResultsOf(results, owner))[r] == multiset(results)[r]
        && r !in WithoutTx(results, txs)
      else
        multiset(WithoutTx(results, txs))[r] == multiset(results)[r]
    ensures forall h :: h != OwnerOf(r).value ==> r !in ResultsOf(results, h)
  {
    if results != [] {
      var init, last := results[..|results| - 1], results[|results| - 1];
      assert results == init + [last];
      PlacedOnce(init, txs, r);
    }
  }

  /** The hex form of a transaction hash always decodes, so attaching never drops a prepared result. */
  lemma PreparedResultsHaveOwners(
    miniBlocks: seq<MiniBlock>, hasher: MiniBlockHasher, selfShard: nat, scrHashHex: string, info: ScrInfo)
    ensures OwnerOf(Prepared(miniBlocks, hasher, selfShard, scrHashHex, info)) == Some(info.originalTxHash)
  {
    DecodeEncode(info.originalTxHash);
  }

  lemma DistinctCount(results: seq<ScResult>, r: ScResult)
    requires Distinct(results) && r in results
    ensures multiset(results)[r] == 1
  {
    var i :| 0 <= i < |results| && results[i] == r;
    assert results == results[..i] + [r] + results[i + 1..];
    assert r !in results[..i] && r !in results[i + 1..];
  }

  lemma EntryPlacedOnce(
    miniBlocks: seq<MiniBlock>, hasher: MiniBlockHasher, selfShard: nat, pool: map<string, ScrInfo>,
    results: seq<ScResult>, txs: set<seq<byte>>, key: string)
    requires PreparedFor(results, pool, pool.Keys, miniBlocks, hasher, selfShard) && key in pool
    ensures var r, owner := Prepared(miniBlocks, hasher, selfShard, key, pool[key]), pool[key].originalTxHash;
      && (owner in txs ==> multiset(ResultsOf(results, owner))[r] == 1 && r !in WithoutTx(results, txs))
      && (owner !in txs ==> multiset(WithoutTx(results, txs))[r] == 1)
      && forall h :: h != owner ==> r !in ResultsOf(results, h)
  {
    var r := Prepared(miniBlocks, hasher, selfShard, key, pool[key]);
    PreparedResultsHaveOwners(miniBlocks, hasher, selfShard, key, pool[key]);
    DistinctCount(results, r);
    PlacedOnce(results, txs, r);
  }

  lemma TransactionHasEntry(
    miniBlocks: seq<MiniBlock>, hasher: MiniBlockHasher, selfShard: nat, pool: map<string, ScrInfo>,
    results: seq<ScResult>, txHash: seq<byte>)
    requires PreparedFor(results, pool, pool.Keys, miniBlocks, hasher, selfShard)
    ensures ResultsOf(results, txHash) != [] <==> exists key :: key in pool && pool[key].originalTxHash == txHash
  {
    if ResultsOf(results, txHash) != [] {
      var r := ResultsOf(results, txHash)[0];
      assert r in ResultsOf(results, txHash);
      PreparedResultsHaveOwners(miniBlocks, hasher, selfShard, r.hash, pool[r.hash]);
      assert pool[r.hash].originalTxHash == txHash;
    }
    if key :| key in pool && pool[key].originalTxHash == txHash {
      EntryPlacedOnce(miniBlocks, hasher, selfShard, pool, results, {txHash}, key);
    }
  }

  /**
   * A block from its pool to its documents: every entry of the pool becomes exactly one result, in
   * the list of its own transaction when the block has it and among the rest otherwise.
   */
  method ProcessPool(
    miniBlocks: seq<MiniBlock>, hasher: MiniBlockHasher, selfShard: nat, scrs: ScrMap, txs: map<seq<byte>, Transaction>)
    returns (results: seq<ScResult>, scrsWithoutTx: seq<ScResult>)
    requires forall h, k :: h in txs && k in txs && txs[h] == txs[k] ==> h == k
    requires forall h :: h in txs ==> txs[h].smartContractResults == [] && !txs[h].hasSCR
    modifies txs.Values
    ensures scrs.scrs == old(scrs.scrs) && OneForEach(results, scrs.scrs.Keys)
    ensures forall key :: key in scrs.scrs ==>
      var r, owner := Prepared(miniBlocks, hasher, selfShard, key, scrs.scrs[key]), scrs.scrs[key].originalTxHash;
      && (owner in txs ==> multiset(txs[owner].smartContractResults)[r] == 1 && r !in scrsWithoutTx)
      && (owner !in txs ==> multiset(scrsWithoutTx)[r] == 1)
      && forall h :: h in txs && h != owner ==> r !in txs[h].smartContractResults
    ensures forall h :: h in txs ==> (txs[h].hasSCR <==> exists key :: key in scrs.scrs && scrs.scrs[key].originalTxHash == h)
  {
    results := ProcessSCRs(miniBlocks, hasher, selfShard, scrs);
    scrsWithoutTx := AttachSCRsToTransactions(txs, results);
    MarkTransactionsWithSCRs(txs);
    forall h | h in txs
      ensures txs[h].smartContractResults == ResultsOf(results, h)
    {
      assert [] + ResultsOf(results, h) == ResultsOf(results, h);
    }
    forall key | key in scrs.scrs {
      EntryPlacedOnce(miniBlocks, hasher, selfShard, scrs.scrs, results, txs.Keys, key);
    }
    forall h | h in txs {
      TransactionHasEntry(miniBlocks, hasher, selfShard, scrs.scrs, results, h);
    }
  }
}
