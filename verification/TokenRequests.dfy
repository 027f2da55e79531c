/**
 * What a block sends to the token indices: its role events grouped by role, then its property events.
 * Roles come out as if nothing was reordered; properties do, but for a token that is not stored yet.
 */
module TokenRequests {
  import opened Wrappers
  import opened ElasticIndex
  import opened TokenRoles

  datatype PropertiesData = PropertiesData(token: string, properties: map<string, bool>)

  datatype TokenEvent = RoleChange(e: RoleEvent) | PropertiesChange(p: PropertiesData)

  function Subject(e: TokenEvent): string {
    match e
    case RoleChange(r) => TokenOf(r)
    case PropertiesChange(p) => p.token
  }

  // ---------------------------------------------------------------- the properties script

  function SetProperties(doc: TokenDoc, properties: map<string, bool>): TokenDoc {
    doc.(properties := Some((if doc.properties.Some? then doc.properties.value else map[]) + properties))
  }

  method RunSetProperties(ctx: Context<TokenDoc>, properties: map<string, bool>)
    requires ctx.op == OpIndex
    modifies ctx
    ensures ctx.Outcome() == Write(SetProperties(old(ctx.source), properties))
  {
    if ctx.source.properties.None? {
      ctx.source := ctx.source.(properties := Some(map[]));
    }
    ghost var before := ctx.source;
    var pending := properties.Keys;
    while pending != {}
      invariant pending <= properties.Keys && ctx.op == OpIndex
      invariant ctx.source.properties.Some? && ctx.source == before.(properties := ctx.source.properties)
      invariant ctx.source.properties.value == before.properties.value + (properties - pending)
      decreases pending
    {
      var key :| key in pending;
      ctx.source := ctx.source.(properties := Some(ctx.source.properties.value[key := properties[key]]));
      pending := pending - {key};
    }
    assert properties - pending == properties;
  }

  /** The script runs on stored documents only: a missing one is inserted empty, without the properties. */
  function TokenAction(e: TokenEvent): Action<TokenDoc> {
    match e
    case RoleChange(r) => RoleAction(r)
    case PropertiesChange(p) => Update(doc => Write(SetProperties(doc, p.properties)), EMPTY_DOC)
  }

  function TokenBulk(index: map<string, TokenDoc>, events: seq<TokenEvent>): map<string, TokenDoc> {
    Bulk(index, Subject, TokenAction, events)
  }

  // ---------------------------------------------------------------- roles and properties apart

  function RolesIn(events: seq<TokenEvent>): seq<RoleEvent> {
    if events == [] then []
    else
      var before, e := RolesIn(events[..|events| - 1]), events[|events| - 1];
      if e.RoleChange? then before + [e.e] else before
  }

  function PropertiesIn(events: seq<TokenEvent>): seq<PropertiesData> {
    if events == [] then []
    else
      var before, e := PropertiesIn(events[..|events| - 1]), events[|events| - 1];
      if e.PropertiesChange? then before + [e.p] else before
  }

  lemma InLast(events: seq<TokenEvent>, e: TokenEvent)
    ensures RolesIn(events + [e]) == if e.RoleChange? then RolesIn(events) + [e.e] else RolesIn(events)
    ensures PropertiesIn(events + [e]) == if e.PropertiesChange? then PropertiesIn(events) + [e.p] else PropertiesIn(events)
  {
    assert (events + [e])[..|events|] == events;
  }

  lemma {:induction false} InAppend(es: seq<TokenEvent>, fs: seq<TokenEvent>)
    ensures RolesIn(es + fs) == RolesIn(es) + RolesIn(fs)
    ensures PropertiesIn(es + fs) == PropertiesIn(es) + PropertiesIn(fs)
  {
    if fs == [] {
      assert es + fs == es;
    } else {
      var init, f := fs[..|fs| - 1], fs[|fs| - 1];
      assert es + fs == (es + init) + [f] && fs == init + [f];
      InAppend(es, init);
      InLast(es + init, f);
      InLast(init, f);
    }
  }

  function PropertiesToken(p: PropertiesData): string { p.token }

  /** Selecting a token and telling roles from properties can be done in either order. */
  lemma {:induction false} InOfKey(events: seq<TokenEvent>, token: string)
    ensures RolesIn(OfKey(events, Subject, token)) == OfKey(RolesIn(events), TokenOf, token)
    ensures PropertiesIn(OfKey(events, Subject, token)) == OfKey(PropertiesIn(events), PropertiesToken, token)
  {
    if events != [] {
      var init, e := events[..|events| - 1], events[|events| - 1];
      assert events == init + [e];
      InOfKey(init, token);
      InLast(init, e);
      OfKeyLast(init, e, Subject, token);
      var selected := OfKey(init, Subject, token);
      assert selected + [] == selected;
      InLast(selected, e);
      match e
      case RoleChange(r) => OfKeyLast(RolesIn(init), r, TokenOf, token);
      case PropertiesChange(p) => OfKeyLast(PropertiesIn(init), p, PropertiesToken, token);
    }
  }

  // ---------------------------------------------------------------- one document

  /** All properties set, later ones over earlier ones. */
  function Merged(ps: seq<PropertiesData>): map<string, bool> {
    if ps == [] then map[] else Merged(ps[..|ps| - 1]) + ps[|ps| - 1].properties
  }

  lemma MergedLast(ps: seq<PropertiesData>, p: PropertiesData)
    ensures Merged(ps + [p]) == Merged(ps) + p.properties
  {
    assert (ps + [p])[..|ps|] == ps;
  }

  lemma {:induction false} MergedFirst(ps: seq<PropertiesData>)
    requires ps != []
    ensures Merged(ps) == ps[0].properties + Merged(ps[1..])
  {
    var init, last := ps[..|ps| - 1], ps[|ps| - 1];
    if init == [] {
      assert ps[1..] == [];
    } else {
      MergedFirst(init);
      assert ps[1..] == init[1..] + [last];
      MergedLast(init[1..], last);
    }
  }

  function PropertiesAfter(before: Option<map<string, bool>>, ps: seq<PropertiesData>): Option<map<string, bool>> {
    if ps == [] then before else Some((if before.Some? then before.value else map[]) + Merged(ps))
  }

  lemma PropertiesAfterLast(before: Option<map<string, bool>>, ps: seq<PropertiesData>, p: PropertiesData)
    ensures PropertiesAfter(before, ps + [p]) ==
      var m := PropertiesAfter(before, ps); Some((if m.Some? then m.value else map[]) + p.properties)
  {
    MergedLast(ps, p);
    var m := if before.Some? then before.value else map[];
    assert m + (Merged(ps) + p.properties) == (m + Merged(ps)) + p.properties;
    assert Merged([]) + p.properties == p.properties;
  }

  function Stored(stored: Option<TokenDoc>): TokenDoc {
    if stored.Some? then stored.value else EMPTY_DOC
  }

  /** The property events that reach a document: not the one that creates it. */
  function Reaching(stored: Option<TokenDoc>, events: seq<TokenEvent>): seq<PropertiesData>
    requires events != []
  {
    var ps := PropertiesIn(events);
    if stored.None? && events[0].PropertiesChange? && ps != [] then ps[1..] else ps
  }

  lemma {:induction false} FirstProperties(events: seq<TokenEvent>)
    requires events != [] && events[0].PropertiesChange?
    ensures PropertiesIn(events) != []
  {
    if |events| > 1 {
      FirstProperties(events[..|events| - 1]);
    }
  }

  lemma ReachingLast(stored: Option<TokenDoc>, events: seq<TokenEvent>, e: TokenEvent)
    requires events != []
    ensures Reaching(stored, events + [e]) ==
      if e.PropertiesChange? then Reaching(stored, events) + [e.p] else Reaching(stored, events)
  {
    InLast(events, e);
    if events[0].PropertiesChange? {
      FirstProperties(events);
    }
  }

  /** What role events leave of a document, with other properties put in. */
  function WithProperties(doc: Option<TokenDoc>, properties: Option<map<string, bool>>): Option<TokenDoc> {
    if doc.None? then None else Some(doc.value.(properties := properties))
  }

  lemma RolesIgnoreProperties(doc: Option<TokenDoc>, properties: Option<map<string, bool>>, e: RoleEvent)
    requires doc.Some?
    ensures Apply(WithProperties(doc, properties), RoleAction(e)) == WithProperties(Apply(doc, RoleAction(e)), properties)
  {
  }

  lemma RoleCreates(e: RoleEvent)
    ensures Apply(None, RoleAction(e)) == Apply(Some(EMPTY_DOC), RoleAction(e))
  {
    assert [] + [e.roleData.address] == [e.roleData.address];
  }

  lemma {:induction false} RolesKeep(doc: TokenDoc, events: seq<RoleEvent>)
    ensures Run(Some(doc), RoleAction, events).Some?
    ensures Run(Some(doc), RoleAction, events).value.properties == doc.properties
  {
    if events != [] {
      RolesKeep(doc, events[..|events| - 1]);
    }
  }

  lemma OneEvent(stored: Option<TokenDoc>, e: TokenEvent)
    ensures Run(stored, TokenAction, [e]) ==
      WithProperties(Run(Some(Stored(stored)), RoleAction, RolesIn([e])),
                     PropertiesAfter(Stored(stored).properties, Reaching(stored, [e])))
  {
    InLast([], e);
    assert [] + [e] == [e];
    RunLast(stored, TokenAction, [], e);
    match e
    case RoleChange(r) =>
      assert RolesIn([e]) == [] + [r];
      RunLast(Some(Stored(stored)), RoleAction, [], r);
      RolesKeep(Stored(stored), [] + [r]);
      RoleCreates(r);
    case PropertiesChange(p) =>
      PropertiesAfterLast(Stored(stored).properties, [], p);
  }

  /** The document a token's events leave: roles and properties do not see each other, but for its creation. */
  lemma {:induction false} DocumentAfter(stored: Option<TokenDoc>, events: seq<TokenEvent>)
    requires events != []
    ensures Run(stored, TokenAction, events) ==
      WithProperties(Run(Some(Stored(stored)), RoleAction, RolesIn(events)),
                     PropertiesAfter(Stored(stored).properties, Reaching(stored, events)))
  {
    var init, e := events[..|events| - 1], events[|events| - 1];
    assert events == init + [e];
    if init == [] {
      OneEvent(stored, e);
    } else {
      DocumentAfter(stored, init);
      RunLast(stored, TokenAction, init, e);
      InLast(init, e);
      ReachingLast(stored, init, e);
      var before := PropertiesAfter(Stored(stored).properties, Reaching(stored, init));
      RolesKeep(Stored(stored), RolesIn(init));
      match e
      case RoleChange(r) =>
        RunLast(Some(Stored(stored)), RoleAction, RolesIn(init), r);
        RolesIgnoreProperties(Run(Some(Stored(stored)), RoleAction, RolesIn(init)), before, r);
      case PropertiesChange(p) =>
        PropertiesAfterLast(Stored(stored).properties, Reaching(stored, init), p);
    }
  }

  // ---------------------------------------------------------------- a token's events

  /** A role event about an address in a role of a token. */
  predicate IsRoleEvent(e: TokenEvent, token: string, role: string, address: string) {
    e.RoleChange? && e.e.role == role && e.e.roleData.token == token && e.e.roleData.address == address
  }

  /** Whether the token's document lists the address under the role. */
  predicate Lists(index: map<string, TokenDoc>, token: string, role: string, address: string) {
    token in index && index[token].roles.Some? && role in index[token].roles.value && address in index[token].roles.value[role]
  }

  lemma ListsStep(index: map<string, TokenDoc>, events: seq<TokenEvent>, e: TokenEvent, token: string, role: string, address: string)
    ensures Lists(TokenBulk(index, events + [e]), token, role, address) ==
      if IsRoleEvent(e, token, role, address) then e.e.roleData.set_ else Lists(TokenBulk(index, events), token, role, address)
  {
    BulkLast(index, Subject, TokenAction, events, e, token);
    var before := Lookup(TokenBulk(index, events), token);
    if e.RoleChange? && e.e.roleData.token == token {
      RoleStep(before, e.e, role, address);
    }
  }

  /** An index with every event of every token in its own order: the last event about an address in a role decides. */
  lemma {:induction false} RoleDecidedByLast(
    index: map<string, TokenDoc>, events: seq<TokenEvent>, token: string, role: string, address: string, i: nat)
    requires i < |events| && IsRoleEvent(events[i], token, role, address)
    requires forall j :: i < j < |events| ==> !IsRoleEvent(events[j], token, role, address)
    ensures Lists(TokenBulk(index, events), token, role, address) <==> events[i].e.roleData.set_
  {
    var init, e := events[..|events| - 1], events[|events| - 1];
    assert events == init + [e];
    ListsStep(index, init, e, token, role, address);
    if i < |init| {
      assert !IsRoleEvent(events[|init|], token, role, address);
      RoleDecidedByLast(index, init, token, role, address, i);
    }
  }

  /** Without one, it is as it was. */
  lemma {:induction false} RoleUntouched(index: map<string, TokenDoc>, events: seq<TokenEvent>, token: string, role: string, address: string)
    requires forall e :: e in events ==> !IsRoleEvent(e, token, role, address)
    ensures Lists(TokenBulk(index, events), token, role, address) <==> Lists(index, token, role, address)
  {
    if events != [] {
      var init, e := events[..|events| - 1], events[|events| - 1];
      assert events == init + [e] && e in events;
      ListsStep(index, init, e, token, role, address);
      RoleUntouched(index, init, token, role, address);
    }
  }

  lemma {:induction false} RemoveNone(addresses: seq<string>, address: string)
    requires address !in addresses
    ensures RemoveAll(addresses, address) == addresses
  {
    if addresses != [] {
      var init, last := addresses[..|addresses| - 1], addresses[|addresses| - 1];
      assert last in addresses && addresses == init + [last];
      RemoveNone(init, address);
    }
  }

  lemma {:induction false} RemoveAround(before: seq<string>, address: string, after: seq<string>)
    requires address !in before && address !in after
    ensures RemoveAll(before + [address] + after, address) == before + after
  {
    var all := before + [address] + after;
    if after == [] {
      RemoveNone(before, address);
      assert all[..|all| - 1] == before && all[|all| - 1] == address;
    } else {
      var init, last := after[..|after| - 1], after[|after| - 1];
      assert last in after;
      RemoveAround(before, address, init);
      assert all[..|all| - 1] == before + [address] + init && all[|all| - 1] == last;
      assert before + after == before + init + [last];
    }
  }

  /** A new address goes behind those a role has, and an unset one leaves the others as they stand. */
  lemma AddressOrder(doc: TokenDoc, role: string, before: seq<string>, address: string, after: seq<string>, rd: RoleData)
    requires doc.roles.Some? && role in doc.roles.value && rd.address == address
    requires address !in before && address !in after
    ensures rd.set_ && doc.roles.value[role] == before && before != [] ==>
      Apply(Some(doc), RoleAction(RoleEvent(role, rd))) == Some(doc.(roles := Some(doc.roles.value[role := before + [address]])))
    ensures !rd.set_ && doc.roles.value[role] == before + [address] + after && before + after != [] ==>
      Apply(Some(doc), RoleAction(RoleEvent(role, rd))) == Some(doc.(roles := Some(doc.roles.value[role := before + after])))
  {
    RemoveAround(before, address, after);
  }

  /** A property event about a token that sets the property. */
  predicate SetsProperty(e: TokenEvent, token: string, property: string) {
    e.PropertiesChange? && e.p.token == token && property in e.p.properties
  }

  /** The property of a token's document. */
  function PropertyOf(index: map<string, TokenDoc>, token: string, property: string): Option<bool> {
    if token in index && index[token].properties.Some? && property in index[token].properties.value
    then Some(index[token].properties.value[property]) else None
  }

  lemma PropertyStep(index: map<string, TokenDoc>, events: seq<TokenEvent>, e: TokenEvent, token: string, property: string)
    requires token in TokenBulk(index, events)
    ensures token in TokenBulk(index, events + [e])
    ensures PropertyOf(TokenBulk(index, events + [e]), token, property) ==
      if SetsProperty(e, token, property) then Some(e.p.properties[property]) else PropertyOf(TokenBulk(index, events), token, property)
  {
    BulkLast(index, Subject, TokenAction, events, e, token);
    if e.RoleChange? && e.e.roleData.token == token {
      RoleEffect(Lookup(TokenBulk(index, events), token), e.e, "");
    }
  }

  lemma {:induction false} StaysStored(index: map<string, TokenDoc>, events: seq<TokenEvent>, token: string)
    requires token in index
    ensures token in TokenBulk(index, events)
  {
    if events != [] {
      var init, e := events[..|events| - 1], events[|events| - 1];
      assert events == init + [e];
      StaysStored(index, init, token);
      PropertyStep(index, init, e, token, "");
    }
  }

  /** Of a stored token, the last event that sets a property decides it, and others leave it. */
  lemma {:induction false} PropertyDecidedByLast(
    index: map<string, TokenDoc>, events: seq<TokenEvent>, token: string, property: string, i: nat)
    requires token in index && i <= |events| && (i < |events| ==> SetsProperty(events[i], token, property))
    requires forall j :: 0 <= j < |events| && (i == |events| || j > i) ==> !SetsProperty(events[j], token, property)
    ensures token in TokenBulk(index, events)
    ensures PropertyOf(TokenBulk(index, events), token, property) ==
      if i < |events| then Some(events[i].p.properties[property]) else PropertyOf(index, token, property)
  {
    if events != [] {
      var init, e := events[..|events| - 1], events[|events| - 1];
      assert events == init + [e];
      if i < |init| {
        PropertyDecidedByLast(index, init, token, property, i);
      } else if i == |events| {
        PropertyDecidedByLast(index, init, token, property, |init|);
      } else {
        StaysStored(index, init, token);
      }
      PropertyStep(index, init, e, token, property);
    }
  }

  // ---------------------------------------------------------------- roles first

  /**
   * When sending roles first changes nothing for a token: it is stored, its first event is no property
   * event or it has no role event, or later property events set everything the first one set.
   */
  predicate Unaffected(stored: Option<TokenDoc>, events: seq<TokenEvent>) {
    || stored.Some? || events == [] || events[0].RoleChange? || RolesIn(events) == []
    || var ps := PropertiesIn(events);
       |ps| > 1 && ps[0].properties.Keys <= Merged(ps[1..]).Keys
  }

  lemma FirstMatters(ps: seq<PropertiesData>)
    requires ps != []
    ensures PropertiesAfter(None, ps) == PropertiesAfter(None, ps[1..]) <==>
      |ps| > 1 && ps[0].properties.Keys <= Merged(ps[1..]).Keys
  {
    MergedFirst(ps);
    var all, later := Merged(ps), Merged(ps[1..]);
    assert map[] + all == all && map[] + later == later;
    assert all == later ==> ps[0].properties.Keys <= later.Keys by {
      assert all.Keys == ps[0].properties.Keys + later.Keys;
    }
  }

  lemma {:induction false} OnlyProperties(events: seq<TokenEvent>)
    ensures RolesIn(events) == [] <==> forall e :: e in events ==> e.PropertiesChange?
  {
    if events != [] {
      var init, e := events[..|events| - 1], events[|events| - 1];
      assert events == init + [e] && e in events;
      OnlyProperties(init);
      InLast(init, e);
      if e.RoleChange? {
        assert RolesIn(events) != [];
      }
    }
  }

  /** The same events with the roles first leave the same document exactly for unaffected tokens. */
  lemma RolesFirst(stored: Option<TokenDoc>, events: seq<TokenEvent>, sent: seq<TokenEvent>)
    requires events != [] && sent != [] && PropertiesIn(sent) == PropertiesIn(events)
    requires RolesIn(events) == [] <==> RolesIn(sent) == []
    requires Run(Some(Stored(stored)), RoleAction, RolesIn(sent)) == Run(Some(Stored(stored)), RoleAction, RolesIn(events))
    requires sent[0].PropertiesChange? ==> RolesIn(sent) == []
    ensures Run(stored, TokenAction, sent) == Run(stored, TokenAction, events) <==> Unaffected(stored, events)
    ensures var s, e := Run(stored, TokenAction, sent), Run(stored, TokenAction, events);
      s.Some? && e.Some? && s.value.roles == e.value.roles && s.value.rest == e.value.rest
  {
    DocumentAfter(stored, events);
    DocumentAfter(stored, sent);
    RolesKeep(Stored(stored), RolesIn(events));
    if events[0].PropertiesChange? {
      FirstProperties(events);
      FirstMatters(PropertiesIn(events));
    }
    if RolesIn(events) == [] {
      OnlyProperties(events);
      OnlyProperties(sent);
    }
  }

  /** On a missing token a property event leaves nothing of itself, unless a role event comes first. */
  lemma PropertiesNeedADocument(p: PropertiesData, r: RoleEvent)
    ensures Run(None, TokenAction, [PropertiesChange(p)]) == Some(EMPTY_DOC)
    ensures var late, early := Run(None, TokenAction, [RoleChange(r), PropertiesChange(p)]), Run(None, TokenAction, [PropertiesChange(p), RoleChange(r)]);
      && late.Some? && late.value.properties == Some(p.properties)
      && early.Some? && early.value.properties == None
  {
    OneEvent(None, PropertiesChange(p));
    RunTwo(None, TokenAction, RoleChange(r), PropertiesChange(p));
    RunTwo(None, TokenAction, PropertiesChange(p), RoleChange(r));
    assert map[] + p.properties == p.properties;
    assert [PropertiesChange(p)] == [] + [PropertiesChange(p)];
    RunLast(None, TokenAction, [], PropertiesChange(p));
  }

  // ---------------------------------------------------------------- a whole block

  function Changes(events: seq<RoleEvent>): (changes: seq<TokenEvent>)
    ensures |changes| == |events|
  {
    seq(|events|, i requires 0 <= i < |events| => RoleChange(events[i]))
  }

  function Updates(ps: seq<PropertiesData>): (updates: seq<TokenEvent>)
    ensures |updates| == |ps|
  {
    seq(|ps|, i requires 0 <= i < |ps| => PropertiesChange(ps[i]))
  }

  lemma {:induction false} InChanges(events: seq<RoleEvent>)
    ensures RolesIn(Changes(events)) == events && PropertiesIn(Changes(events)) == []
  {
    if events != [] {
      var init, e := events[..|events| - 1], events[|events| - 1];
      InChanges(init);
      assert Changes(events) == Changes(init) + [RoleChange(e)];
      InLast(Changes(init), RoleChange(e));
    }
  }

  lemma {:induction false} InUpdates(ps: seq<PropertiesData>)
    ensures RolesIn(Updates(ps)) == [] && PropertiesIn(Updates(ps)) == ps
  {
    if ps != [] {
      var init, p := ps[..|ps| - 1], ps[|ps| - 1];
      InUpdates(init);
      assert Updates(ps) == Updates(init) + [PropertiesChange(p)];
      InLast(Updates(init), PropertiesChange(p));
    }
  }

  lemma InRequests(sent: seq<RoleEvent>, ps: seq<PropertiesData>)
    ensures RolesIn(Changes(sent) + Updates(ps)) == sent
    ensures PropertiesIn(Changes(sent) + Updates(ps)) == ps
  {
    InAppend(Changes(sent), Updates(ps));
    InChanges(sent);
    InUpdates(ps);
    assert sent + [] == sent && [] + ps == ps;
  }

  /** Equal groups hold the same events. */
  lemma SameMembers(events: seq<RoleEvent>, sent: seq<RoleEvent>, e: RoleEvent)
    requires forall role :: OfKey(events, RoleOf, role) == OfKey(sent, RoleOf, role)
    ensures e in events <==> e in sent
  {
    assert e in OfKey(events, RoleOf, e.role) <==> e in OfKey(sent, RoleOf, e.role);
  }

  lemma SameTokens(events: seq<RoleEvent>, sent: seq<RoleEvent>, token: string)
    requires forall role :: OfKey(events, RoleOf, role) == OfKey(sent, RoleOf, role)
    ensures OfKey(events, TokenOf, token) == [] <==> OfKey(sent, TokenOf, token) == []
  {
    var es, fs := OfKey(events, TokenOf, token), OfKey(sent, TokenOf, token);
    if es != [] {
      assert es[0] in es;
      SameMembers(events, sent, es[0]);
      assert es[0] in fs;
    }
    if fs != [] {
      assert fs[0] in fs;
      SameMembers(events, sent, fs[0]);
      assert fs[0] in es;
    }
  }

  /** A token's requests begin with its roles. */
  lemma RolesLead(sent: seq<RoleEvent>, ps: seq<PropertiesData>, token: string)
    ensures var requests := OfKey(Changes(sent) + Updates(ps), Subject, token);
      requests != [] && requests[0].PropertiesChange? ==> RolesIn(requests) == []
  {
    var changes, updates := OfKey(Changes(sent), Subject, token), OfKey(Updates(ps), Subject, token);
    OfKeyAppend(Changes(sent), Updates(ps), Subject, token);
    if changes == [] {
      assert changes + updates == updates;
      OnlyProperties(updates);
    } else {
      assert changes[0] in changes && changes[0] in Changes(sent);
    }
  }

  lemma NothingIn(events: seq<TokenEvent>)
    ensures events == [] <==> RolesIn(events) == [] && PropertiesIn(events) == []
  {
    if events != [] {
      InLast(events[..|events| - 1], events[|events| - 1]);
      assert events == events[..|events| - 1] + [events[|events| - 1]];
    }
  }

  ghost predicate NothingLost(index: map<string, TokenDoc>, events: seq<TokenEvent>) {
    forall token :: Unaffected(Lookup(index, token), OfKey(events, Subject, token))
  }

  /** Whether the index holds what the events in their own order would leave, for one token. */
  lemma TokenSent(index: map<string, TokenDoc>, events: seq<TokenEvent>, sent: seq<RoleEvent>, ps: seq<PropertiesData>, token: string)
    requires forall role :: OfKey(RolesIn(events), RoleOf, role) == OfKey(sent, RoleOf, role)
    requires ps == PropertiesIn(events)
    ensures var requests := Changes(sent) + Updates(ps);
      Lookup(TokenBulk(index, requests), token) == Lookup(TokenBulk(index, events), token) <==>
      Unaffected(Lookup(index, token), OfKey(events, Subject, token))
  {
    var requests := Changes(sent) + Updates(ps);
    DocumentsAreIndependent(index, Subject, TokenAction, events, token);
    DocumentsAreIndependent(index, Subject, TokenAction, requests, token);
    var es, fs := OfKey(events, Subject, token), OfKey(requests, Subject, token);
    InRequests(sent, ps);
    InOfKey(events, token);
    InOfKey(requests, token);
    SameTokens(RolesIn(events), sent, token);
    NothingIn(es);
    NothingIn(fs);
    if es != [] {
      RolesLead(sent, ps, token);
      SameRoles(Some(Stored(Lookup(index, token))), RolesIn(events), sent, token);
      RolesFirst(Lookup(index, token), es, fs);
    }
  }

  /** Sending the roles in any regrouping and then the properties is sending the events exactly when nothing is lost. */
  lemma SentExactly(index: map<string, TokenDoc>, events: seq<TokenEvent>, sent: seq<RoleEvent>, ps: seq<PropertiesData>)
    requires forall role :: OfKey(RolesIn(events), RoleOf, role) == OfKey(sent, RoleOf, role)
    requires ps == PropertiesIn(events)
    ensures TokenBulk(index, Changes(sent) + Updates(ps)) == TokenBulk(index, events) <==> NothingLost(index, events)
  {
    var requests := Changes(sent) + Updates(ps);
    forall token
      ensures Lookup(TokenBulk(index, requests), token) == Lookup(TokenBulk(index, events), token) <==>
        Unaffected(Lookup(index, token), OfKey(events, Subject, token))
    {
      TokenSent(index, events, sent, ps, token);
    }
    if NothingLost(index, events) {
      SameLookups(TokenBulk(index, requests), TokenBulk(index, events));
    }
  }

  // ---------------------------------------------------------------- collecting and sending

  /** One group, in the order its events were added. */
  method SendGroup(requests: seq<TokenEvent>, role: string, data: seq<RoleData>) returns (sent: seq<TokenEvent>)
    ensures sent == requests + Changes(Tagged(role, data))
  {
    sent := requests;
    for i := 0 to |data|
      invariant sent == requests + Changes(Tagged(role, data[..i]))
    {
      assert Changes(Tagged(role, data[..i + 1])) == Changes(Tagged(role, data[..i])) + [RoleChange(RoleEvent(role, data[i]))];
      sent := sent + [RoleChange(RoleEvent(role, data[i]))];
    }
    assert data[..|data|] == data;
  }

  /** The requests for the groups of `roles`, each in order. */
  ghost predicate GroupsSent(requests: seq<TokenEvent>, sent: seq<RoleEvent>, rolesData: map<string, seq<RoleData>>, roles: set<string>) {
    requests == Changes(sent) && Groups(sent, rolesData, roles)
  }

  lemma NextGroup(requests: seq<TokenEvent>, sent: seq<RoleEvent>, rolesData: map<string, seq<RoleData>>, roles: set<string>, role: string)
    requires GroupsSent(requests, sent, rolesData, roles) && role in rolesData && role !in roles
    ensures var group := Tagged(role, rolesData[role]);
      GroupsSent(requests + Changes(group), sent + group, rolesData, roles + {role})
  {
    GroupSent(sent, rolesData, roles, role);
  }

  /** The groups one after another, in whatever order the map yields its roles. */
  method SendGroups(rolesData: map<string, seq<RoleData>>) returns (requests: seq<TokenEvent>)
    ensures GroupsSent(requests, RolesIn(requests), rolesData, rolesData.Keys)
  {
    requests := [];
    ghost var sent: seq<RoleEvent> := [];
    var pending := rolesData.Keys;
    ghost var done: set<string> := {};
    while pending != {}
      invariant pending !! done && pending + done == rolesData.Keys
      invariant GroupsSent(requests, sent, rolesData, done)
      decreases pending
    {
      var role :| role in pending;
      NextGroup(requests, sent, rolesData, done, role);
      requests := SendGroup(requests, role, rolesData[role]);
      sent := sent + Tagged(role, rolesData[role]);
      pending := pending - {role};
      done := done + {role};
    }
    assert done == rolesData.Keys;
    InChanges(sent);
  }

  /** The property events, in the order they were added. */
  method SendProperties(requests: seq<TokenEvent>, ps: seq<PropertiesData>) returns (sent: seq<TokenEvent>)
    ensures sent == requests + Updates(ps)
  {
    sent := requests;
    for i := 0 to |ps|
      invariant sent == requests + Updates(ps[..i])
    {
      assert Updates(ps[..i + 1]) == Updates(ps[..i]) + [PropertiesChange(ps[i])];
      sent := sent + [PropertiesChange(ps[i])];
    }
    assert ps[..|ps|] == ps;
  }

  lemma RequestsAreExact(
    events: seq<TokenEvent>, rolesData: map<string, seq<RoleData>>, sent: seq<RoleEvent>, ps: seq<PropertiesData>)
    requires Groups(RolesIn(events), rolesData, rolesData.Keys) && Groups(sent, rolesData, rolesData.Keys)
    requires ps == PropertiesIn(events)
    ensures var requests := Changes(sent) + Updates(ps);
      && PropertiesIn(requests) == PropertiesIn(events)
      && (forall index :: RoleBulk(index, RolesIn(requests)) == RoleBulk(index, RolesIn(events)))
      && (forall index :: TokenBulk(index, requests) == TokenBulk(index, events) <==> NothingLost(index, events))
  {
    InRequests(sent, ps);
    forall index
      ensures RoleBulk(index, sent) == RoleBulk(index, RolesIn(events))
    {
      RegroupingIsSound(index, RolesIn(events), sent);
    }
    forall index
      ensures TokenBulk(index, Changes(sent) + Updates(ps)) == TokenBulk(index, events) <==> NothingLost(index, events)
    {
      SentExactly(index, events, sent, ps);
    }
  }

  class TokenRolesAndProperties {
    var rolesData: map<string, seq<RoleData>>
    var tokenProperties: seq<PropertiesData>
    ghost var events: seq<TokenEvent>  // every event added, in order

    ghost predicate Valid()
      reads this
    {
      Groups(RolesIn(events), rolesData, rolesData.Keys) && tokenProperties == PropertiesIn(events)
    }

    constructor ()
      ensures Valid() && events == []
    {
      rolesData, tokenProperties, events := map[], [], [];
    }

    method AddRole(token: string, address: string, role: string, set_: bool)
      requires Valid()
      modifies this
      ensures Valid() && events == old(events) + [RoleChange(RoleEvent(role, RoleData(token, address, set_)))]
    {
      var rData := RoleData(token, address, set_);
      EventAdded(RolesIn(events), rolesData, RoleEvent(role, rData));
      InLast(events, RoleChange(RoleEvent(role, rData)));
      events := events + [RoleChange(RoleEvent(role, rData))];
      if role in rolesData {
        rolesData := rolesData[role := rolesData[role] + [rData]];
        return;
      }
      assert [] + [rData] == [rData];
      rolesData := rolesData[role := [rData]];
    }

    method AddProperties(token: string, properties: map<string, bool>)
      requires Valid()
      modifies this
      ensures Valid() && events == old(events) + [PropertiesChange(PropertiesData(token, properties))]
    {
      InLast(events, PropertiesChange(PropertiesData(token, properties)));
      events := events + [PropertiesChange(PropertiesData(token, properties))];
      tokenProperties := tokenProperties + [PropertiesData(token, properties)];
    }

    /**
     * The requests of a block: all roles as in the original order, properties in their order, and every
     * index comes out as the events in their original order would leave it exactly when nothing is lost.
     */
    method SerializeRolesData() returns (requests: seq<TokenEvent>)
      requires Valid()
      ensures PropertiesIn(requests) == PropertiesIn(events)
      ensures forall index :: RoleBulk(index, RolesIn(requests)) == RoleBulk(index, RolesIn(events))
      ensures forall index :: TokenBulk(index, requests) == TokenBulk(index, events) <==> NothingLost(index, events)
    {
      requests := SendGroups(rolesData);
      ghost var sent := RolesIn(requests);
      requests := SendProperties(requests, tokenProperties);
      RequestsAreExact(events, rolesData, sent, tokenProperties);
    }
  }
}
