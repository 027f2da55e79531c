/**
 * What a bulk request does to an Elasticsearch index: `index` overwrites a document, `update` runs a
 * Painless script on a stored document or inserts `upsert`, and `scripted_upsert` runs the script on
 * an empty source with `ctx.op == 'create'` when nothing is stored.
 */
module ElasticIndex {
  import opened Wrappers

  datatype Op = OpCreate | OpIndex | OpNoop | OpDelete

  /** What a finished script asks for, read off `ctx`. */
  datatype Outcome<+D> = Write(doc: D) | Keep | Remove

  /** The `ctx` object of a Painless update script. */
  class Context<D> {
    var op: Op
    var source: D

    /** The state in which Elasticsearch hands `ctx` to a script. */
    predicate Ready()
      reads this
    {
      op == OpCreate || op == OpIndex
    }

    /** The document the script runs on; None while it runs for a missing document. */
    function Stored(): Option<D>
      reads this
    {
      if op == OpCreate then None else Some(source)
    }

    function Outcome(): Outcome<D>
      reads this
    {
      match op
      case OpNoop => Keep
      case OpDelete => Remove
      case _ => Write(source)
    }

    constructor (stored: Option<D>, empty: D)
      ensures Ready() && Stored() == stored
      ensures stored.None? ==> op == OpCreate && source == empty
    {
      match stored {
        case None => op, source := OpCreate, empty;
        case Some(doc) => op, source := OpIndex, doc;
      }
    }
  }

  datatype Action<!D> =
    | Index(doc: D)
    | Update(script: D -> Outcome<D>, upsert: D)
    | ScriptedUpsert(runScript: Option<D> -> Outcome<D>)

  function Settle<D>(stored: Option<D>, outcome: Outcome<D>): Option<D> {
    match outcome
    case Write(doc) => Some(doc)
    case Keep => stored
    case Remove => None
  }

  /** One bulk entry, on the document it addresses. */
  function Apply<D>(stored: Option<D>, action: Action<D>): Option<D> {
    match action
    case Index(doc) => Some(doc)
    case Update(script, upsert) => if stored.None? then Some(upsert) else Settle(stored, script(stored.value))
    case ScriptedUpsert(runScript) => Settle(stored, runScript(stored))
  }

  /** A history of entries for one document, in the order the cluster executes them. */
  function Run<D, E(!new)>(stored: Option<D>, action: E -> Action<D>, events: seq<E>): Option<D> {
    if events == [] then stored
    else Apply(Run(stored, action, events[..|events| - 1]), action(events[|events| - 1]))
  }

  lemma RunTwo<D, E(!new)>(stored: Option<D>, action: E -> Action<D>, e: E, f: E)
    ensures Run(stored, action, [e, f]) == Apply(Apply(stored, action(e)), action(f))
  {
    assert [e, f][..1] == [e] && [e][..0] == [];
    assert Run(stored, action, [e]) == Apply(stored, action(e));
  }

  function Lookup<D>(index: map<string, D>, id: string): Option<D> {
    if id in index then Some(index[id]) else None
  }

  lemma SameLookups<D>(m: map<string, D>, n: map<string, D>)
    requires forall id :: Lookup(m, id) == Lookup(n, id)
    ensures m == n
  {
    forall id
      ensures id in m <==> id in n
      ensures id in m ==> m[id] == n[id]
    {
      assert Lookup(m, id) == Lookup(n, id);
    }
  }

  function Store<D>(index: map<string, D>, id: string, doc: Option<D>): map<string, D> {
    if doc.Some? then index[id := doc.value] else index - {id}
  }

  /** A history of entries for a whole index. */
  function Bulk<D, E(!new)>(index: map<string, D>, id: E -> string, action: E -> Action<D>, events: seq<E>): map<string, D> {
    if events == [] then index
    else
      var e := events[|events| - 1];
      var before := Bulk(index, id, action, events[..|events| - 1]);
      Store(before, id(e), Apply(Lookup(before, id(e)), action(e)))
  }

  /** The events of one key, in order. */
  function OfKey<E(!new), K(==)>(events: seq<E>, key: E -> K, k: K): (selected: seq<E>)
    ensures forall e :: e in selected <==> e in events && key(e) == k
  {
    if events == [] then []
    else
      var e := events[|events| - 1];
      OfKey(events[..|events| - 1], key, k) + (if key(e) == k then [e] else [])
  }

  lemma OfKeyLast<E(!new), K>(events: seq<E>, e: E, key: E -> K, k: K)
    ensures OfKey(events + [e], key, k) == OfKey(events, key, k) + if key(e) == k then [e] else []
  {
    assert (events + [e])[..|events|] == events;
  }

  lemma {:induction false} OfKeyAppend<E(!new), K>(es: seq<E>, fs: seq<E>, key: E -> K, k: K)
    ensures OfKey(es + fs, key, k) == OfKey(es, key, k) + OfKey(fs, key, k)
  {
    if fs == [] {
      assert es + fs == es;
    } else {
      var init, f := fs[..|fs| - 1], fs[|fs| - 1];
      assert es + fs == (es + init) + [f] && fs == init + [f];
      OfKeyAppend(es, init, key, k);
      OfKeyLast(es + init, f, key, k);
    }
  }

  lemma {:induction false} OfKeyTwice<E(!new), K, L>(events: seq<E>, key: E -> K, k: K, other: E -> L, l: L)
    ensures OfKey(OfKey(events, key, k), other, l) == OfKey(OfKey(events, other, l), key, k)
  {
    if events != [] {
      var init, e := events[..|events| - 1], events[|events| - 1];
      OfKeyTwice(init, key, k, other, l);
      OfKeyLast(OfKey(init, key, k), e, other, l);
      OfKeyLast(OfKey(init, other, l), e, key, k);
      assert OfKey(events, key, k) == if key(e) == k then OfKey(init, key, k) + [e] else OfKey(init, key, k);
      assert OfKey(events, other, l) == if other(e) == l then OfKey(init, other, l) + [e] else OfKey(init, other, l);
    }
  }

  lemma RunLast<D, E(!new)>(stored: Option<D>, action: E -> Action<D>, events: seq<E>, e: E)
    ensures Run(stored, action, events + [e]) == Apply(Run(stored, action, events), action(e))
  {
    assert (events + [e])[..|events|] == events;
  }

  lemma BulkLast<D, E(!new)>(
    index: map<string, D>, id: E -> string, action: E -> Action<D>, events: seq<E>, e: E, k: string)
    ensures var before := Bulk(index, id, action, events);
      Lookup(Bulk(index, id, action, events + [e]), k) ==
      if id(e) == k then Apply(Lookup(before, k), action(e)) else Lookup(before, k)
  {
    assert (events + [e])[..|events|] == events;
  }

  /** Documents with different ids never influence each other, however a bulk interleaves them. */
  lemma {:induction false} DocumentsAreIndependent<D, E(!new)>(
    index: map<string, D>, id: E -> string, action: E -> Action<D>, events: seq<E>, k: string)
    ensures Lookup(Bulk(index, id, action, events), k) == Run(Lookup(index, k), action, OfKey(events, id, k))
  {
    if events != [] {
      var init, e := events[..|events| - 1], events[|events| - 1];
      DocumentsAreIndependent(index, id, action, init, k);
      assert events == init + [e];
      BulkLast(index, id, action, init, e, k);
      OfKeyLast(init, e, id, k);
      RunLast(Lookup(index, k), action, OfKey(init, id, k), e);
      assert OfKey(init, id, k) + [] == OfKey(init, id, k);
    }
  }

  ghost predicate Commute<D(!new), E(!new)>(action: E -> Action<D>, e: E, f: E) {
    forall stored: Option<D> ::
      Apply(Apply(stored, action(e)), action(f)) == Apply(Apply(stored, action(f)), action(e))
  }

  lemma {:induction false} MoveToEnd<D(!new), E(!new)>(
    stored: Option<D>, action: E -> Action<D>, before: seq<E>, e: E, after: seq<E>)
    requires forall f :: f in after ==> Commute(action, e, f)
    ensures Run(stored, action, before + [e] + after) == Apply(Run(stored, action, before + after), action(e))
  {
    if after == [] {
      assert before + [e] + after == before + [e] && before + after == before;
      RunLast(stored, action, before, e);
    } else {
      var init, f := after[..|after| - 1], after[|after| - 1];
      assert before + [e] + after == (before + [e] + init) + [f] && before + after == (before + init) + [f];
      MoveToEnd(stored, action, before, e, init);
      RunLast(stored, action, before + [e] + init, f);
      RunLast(stored, action, before + init, f);
      assert Commute(action, e, f);
    }
  }

  lemma {:induction false} LastOfKey<E(!new), K>(events: seq<E>, key: E -> K, k: K) returns (p: nat)
    requires OfKey(events, key, k) != []
    ensures p < |events| && key(events[p]) == k
    ensures forall i :: p < i < |events| ==> key(events[i]) != k
  {
    p := |events| - 1;
    if key(events[p]) != k {
      p := LastOfKey(events[..p], key, k);
    }
  }

  lemma {:induction false} AllOfKey<E(!new), K>(events: seq<E>, key: E -> K, k: K)
    requires forall e :: e in events ==> key(e) == k
    ensures OfKey(events, key, k) == events
  {
    if events != [] {
      var init, e := events[..|events| - 1], events[|events| - 1];
      assert events == init + [e];
      AllOfKey(init, key, k);
      OfKeyLast(init, e, key, k);
    }
  }

  lemma {:induction false} NoneOfKey<E(!new), K>(events: seq<E>, key: E -> K, k: K)
    requires forall e :: e in events ==> key(e) != k
    ensures OfKey(events, key, k) == []
  {
    if events != [] {
      assert events[|events| - 1] in events;
      NoneOfKey(events[..|events| - 1], key, k);
    }
  }

  lemma SomeOfKey<E(!new), K>(events: seq<E>, key: E -> K)
    requires events != []
    ensures exists k :: OfKey(events, key, k) != []
  {
    assert events[0] in OfKey(events, key, key(events[0]));
  }

  /** Dropping the last entry of one key from two histories keeps every key's entries equal. */
  lemma DropLastOfKey<E(!new), K>(init: seq<E>, e: E, before: seq<E>, f: E, after: seq<E>, key: E -> K, k: K)
    requires key(e) == key(f) && forall g :: g in after ==> key(g) != key(f)
    requires OfKey(init + [e], key, k) == OfKey(before + [f] + after, key, k)
    ensures OfKey(init, key, k) == OfKey(before + after, key, k)
    ensures k == key(e) ==> e == f
  {
    OfKeyLast(init, e, key, k);
    OfKeyAppend(before + [f], after, key, k);
    OfKeyLast(before, f, key, k);
    OfKeyAppend(before, after, key, k);
    if k == key(e) {
      NoneOfKey(after, key, k);
      var mine, others := OfKey(init, key, k), OfKey(before, key, k);
      assert mine + [e] == others + [f];
      assert (mine + [e])[|mine|] == e && (others + [f])[|others|] == f;
      assert (mine + [e])[..|mine|] == mine && (others + [f])[..|others|] == others;
    } else {
      assert OfKey(init, key, k) + [] == OfKey(init, key, k);
      assert OfKey(before, key, k) + [] == OfKey(before, key, k);
    }
  }

  /**
   * When entries of different keys commute, only the order within each key matters: two histories
   * with the same entries per key leave the same document.
   */
  lemma {:induction false} Regroup<D(!new), E(!new), K(!new)>(
    stored: Option<D>, action: E -> Action<D>, key: E -> K, es: seq<E>, fs: seq<E>)
    requires forall e, f :: key(e) != key(f) ==> Commute(action, e, f)
    requires forall k :: OfKey(es, key, k) == OfKey(fs, key, k)
    ensures Run(stored, action, es) == Run(stored, action, fs)
    decreases |es|
  {
    if es == [] {
      if fs != [] {
        SomeOfKey(fs, key);
        assert false;
      }
    } else {
      var init, e := es[..|es| - 1], es[|es| - 1];
      var p := LastOfKey(fs, key, key(e));
      var before, after := fs[..p], fs[p + 1..];
      assert fs == before + [fs[p]] + after && es == init + [e];
      forall k
        ensures OfKey(init, key, k) == OfKey(before + after, key, k)
      {
        DropLastOfKey(init, e, before, fs[p], after, key, k);
      }
      DropLastOfKey(init, e, before, fs[p], after, key, key(e));
      Regroup(stored, action, key, init, before + after);
      MoveToEnd(stored, action, before, e, after);
    }
  }

  function Last<E(!new)>(events: seq<E>, p: E -> bool): (e: Option<E>)
    ensures e.Some? ==> p(e.value) && e.value in events
    ensures e.None? ==> forall x :: x in events ==> !p(x)
  {
    if events == [] then None
    else
      var e := events[|events| - 1];
      if p(e) then Some(e) else Last(events[..|events| - 1], p)
  }

  function First<E(!new)>(events: seq<E>, p: E -> bool): (e: Option<E>)
    ensures e.Some? ==> p(e.value) && e.value in events
    ensures e.None? ==> forall x :: x in events ==> !p(x)
  {
    if events == [] then None
    else
      var first := First(events[..|events| - 1], p);
      if first.Some? then first
      else if p(events[|events| - 1]) then Some(events[|events| - 1])
      else None
  }

  /**
   * Replacing writes and insert-only writes of one document: the last replacing write decides the
   * document, and an insert-only write decides it only when it came first and none overwrote it.
   */
  lemma {:induction false} InsertOnlyNeverOverrides<D, E(!new)>(
    action: E -> Action<D>, doc: E -> D, overwrites: E -> bool, events: seq<E>)
    requires forall e :: e in events ==>
      if overwrites(e) then action(e).Index? && action(e).doc == doc(e)
      else action(e).Update? && action(e).upsert == doc(e) && forall d :: action(e).script(d) == Write(d)
    ensures Run(None, action, events) ==
      match Last(events, overwrites)
      case Some(e) => Some(doc(e))
      case None => if events == [] then None else Some(doc(events[0]))
  {
    if events != [] {
      InsertOnlyNeverOverrides(action, doc, overwrites, events[..|events| - 1]);
    }
  }
}
