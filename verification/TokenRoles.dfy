/**
 * Role documents of the tokens and ESDTs indices. Role events are grouped by role before they are
 * sent; the groups may leave in any order, and the documents come out as if nothing was regrouped.
 */
module TokenRoles {
  import opened Wrappers
  import opened ElasticIndex

  datatype RoleData = RoleData(token: string, address: string, set_: bool)

  datatype RoleEvent = RoleEvent(role: string, roleData: RoleData)

  /** A token document: its roles and properties, absent or a map, and the other fields. */
  datatype TokenDoc = TokenDoc(roles: Option<map<string, seq<string>>>, properties: Option<map<string, bool>>, rest: string)

  const EMPTY_DOC := TokenDoc(None, None, "")

  function TokenOf(e: RoleEvent): string { e.roleData.token }

  function RoleOf(e: RoleEvent): string { e.role }

  // ---------------------------------------------------------------- scripts

  function RemoveAll(addresses: seq<string>, address: string): (rest: seq<string>)
    ensures forall a :: a in rest <==> a in addresses && a != address
  {
    if addresses == [] then []
    else
      var init, last := addresses[..|addresses| - 1], addresses[|addresses| - 1];
      RemoveAll(init, address) + (if last == address then [] else [last])
  }

  predicate NoDuplicates(addresses: seq<string>) {
    forall i, j :: 0 <= i < j < |addresses| ==> addresses[i] != addresses[j]
  }

  lemma {:induction false} RemoveAllKeepsDistinct(addresses: seq<string>, address: string)
    requires NoDuplicates(addresses)
    ensures NoDuplicates(RemoveAll(addresses, address))
  {
    if addresses != [] {
      var init := addresses[..|addresses| - 1];
      RemoveAllKeepsDistinct(init, address);
      assert addresses[|addresses| - 1] !in init;
    }
  }

  function RolesOf(doc: TokenDoc): map<string, seq<string>> {
    if doc.roles.Some? then doc.roles.value else map[]
  }

  function AddressesOf(doc: TokenDoc, role: string): seq<string> {
    var roles := RolesOf(doc);
    if role in roles then roles[role] else []
  }

  function SetRole(doc: TokenDoc, role: string, address: string): TokenDoc {
    var roles, addresses := RolesOf(doc), AddressesOf(doc, role);
    doc.(roles := Some(
      if role in roles && address in addresses then roles else roles[role := addresses + [address]]))
  }

  method RunSetRole(ctx: Context<TokenDoc>, role: string, address: string)
    requires ctx.op == OpIndex
    modifies ctx
    ensures ctx.Outcome() == Write(SetRole(old(ctx.source), role, address))
  {
    if ctx.source.roles.None? {
      ctx.source := ctx.source.(roles := Some(map[]));
    }
    var roles := ctx.source.roles.value;
    assert [] + [address] == [address];
    if role !in roles {
      ctx.source := ctx.source.(roles := Some(roles[role := [address]]));
    } else {
      for i := 0 to |roles[role]|
        invariant address !in roles[role][..i]
      {
        if roles[role][i] == address {
          return;
        }
      }
      ctx.source := ctx.source.(roles := Some(roles[role := roles[role] + [address]]));
    }
  }

  function UnsetRole(doc: TokenDoc, role: string, address: string): TokenDoc {
    if role !in RolesOf(doc) then doc
    else
      var left := RemoveAll(doc.roles.value[role], address);
      doc.(roles := Some(if left == [] then doc.roles.value - {role} else doc.roles.value[role := left]))
  }

  method RunUnsetRole(ctx: Context<TokenDoc>, role: string, address: string)
    requires ctx.op == OpIndex
    modifies ctx
    ensures ctx.Outcome() == Write(UnsetRole(old(ctx.source), role, address))
  {
    if ctx.source.roles.Some? {
      var roles := ctx.source.roles.value;
      if role in roles {
        var left := RemoveAll(roles[role], address);
        ctx.source := ctx.source.(roles := Some(roles[role := left]));
        if |left| == 0 {
          ctx.source := ctx.source.(roles := Some(ctx.source.roles.value - {role}));
        }
        assert left == [] ==> roles[role := left] - {role} == roles - {role};
      }
    }
  }

  function RoleAction(e: RoleEvent): Action<TokenDoc> {
    var rd := e.roleData;
    if rd.set_ then
      Update(doc => Write(SetRole(doc, e.role, rd.address)), TokenDoc(Some(map[e.role := [rd.address]]), None, ""))
    else
      Update(doc => Write(UnsetRole(doc, e.role, rd.address)), EMPTY_DOC)
  }

  function RoleBulk(index: map<string, TokenDoc>, events: seq<RoleEvent>): map<string, TokenDoc> {
    Bulk(index, TokenOf, RoleAction, events)
  }

  // ---------------------------------------------------------------- set semantics

  /** No role has an empty list, and no list has a duplicate. */
  ghost predicate WellFormed(doc: TokenDoc) {
    forall role :: role in RolesOf(doc) ==> AddressesOf(doc, role) != [] && NoDuplicates(AddressesOf(doc, role))
  }

  predicate HasRole(stored: Option<TokenDoc>, role: string, address: string) {
    stored.Some? && address in AddressesOf(stored.value, role)
  }

  lemma RolesStayWellFormed(stored: Option<TokenDoc>, e: RoleEvent)
    requires stored.Some? ==> WellFormed(stored.value)
    ensures var after := Apply(stored, RoleAction(e)); after.Some? && WellFormed(after.value)
  {
    if stored.Some? && e.role in RolesOf(stored.value) {
      RemoveAllKeepsDistinct(RolesOf(stored.value)[e.role], e.roleData.address);
    }
  }

  lemma RoleStep(stored: Option<TokenDoc>, e: RoleEvent, role: string, address: string)
    ensures HasRole(Apply(stored, RoleAction(e)), role, address) ==
      if e.role == role && e.roleData.address == address then e.roleData.set_ else HasRole(stored, role, address)
  {
  }

  /** Which address an event is about, and in which role. */
  function SubjectOf(e: RoleEvent): (string, string) {
    (e.role, e.roleData.address)
  }

  /**
   * After any history of a token's events, an address holds a role exactly when the last event about
   * the two set it, or when there was none and it already held it; lists stay free of duplicates.
   */
  lemma {:induction false} RolesAreSets(stored: Option<TokenDoc>, events: seq<RoleEvent>, role: string, address: string)
    requires stored.Some? ==> WellFormed(stored.value)
    ensures var after := Run(stored, RoleAction, events);
      && (after.Some? ==> WellFormed(after.value))
      && HasRole(after, role, address) ==
         var about := OfKey(events, SubjectOf, (role, address));
         if about == [] then HasRole(stored, role, address) else about[|about| - 1].roleData.set_
  {
    if events != [] {
      var init, e := events[..|events| - 1], events[|events| - 1];
      assert events == init + [e];
      RolesAreSets(stored, init, role, address);
      RunLast(stored, RoleAction, init, e);
      RolesStayWellFormed(Run(stored, RoleAction, init), e);
      RoleStep(Run(stored, RoleAction, init), e, role, address);
      OfKeyLast(init, e, SubjectOf, (role, address));
    }
  }

  // ---------------------------------------------------------------- regrouping

  function StoredRoles(stored: Option<TokenDoc>): map<string, seq<string>> {
    if stored.Some? then RolesOf(stored.value) else map[]
  }

  /** What event `e` makes of the address list of its own role. */
  function NextList(list: Option<seq<string>>, rd: RoleData): Option<seq<string>> {
    if rd.set_ then
      if list.Some? && rd.address in list.value then list
      else Some((if list.Some? then list.value else []) + [rd.address])
    else if list.None? || RemoveAll(list.value, rd.address) == [] then None
    else Some(RemoveAll(list.value, rd.address))
  }

  /** An event acts on its own role only, and always leaves a document. */
  lemma RoleEffect(stored: Option<TokenDoc>, e: RoleEvent, role: string)
    ensures var after := Apply(stored, RoleAction(e));
      && after.Some?
      && after.value.rest == (if stored.Some? then stored.value.rest else "")
      && after.value.properties == (if stored.Some? then stored.value.properties else None)
      && (after.value.roles.Some? <==> e.roleData.set_ || (stored.Some? && stored.value.roles.Some?))
      && Lookup(StoredRoles(after), role) ==
         if role == e.role then NextList(Lookup(StoredRoles(stored), role), e.roleData)
         else Lookup(StoredRoles(stored), role)
  {
    assert [] + [e.roleData.address] == [e.roleData.address];
  }

  lemma RolesCommuteOn(stored: Option<TokenDoc>, e: RoleEvent, f: RoleEvent)
    requires e.role != f.role
    ensures Apply(Apply(stored, RoleAction(e)), RoleAction(f)) == Apply(Apply(stored, RoleAction(f)), RoleAction(e))
  {
    var afterE, afterF := Apply(stored, RoleAction(e)), Apply(stored, RoleAction(f));
    var ef, fe := Apply(afterE, RoleAction(f)), Apply(afterF, RoleAction(e));
    forall role
      ensures Lookup(StoredRoles(ef), role) == Lookup(StoredRoles(fe), role)
    {
      RoleEffect(stored, e, role);
      RoleEffect(stored, f, role);
      RoleEffect(afterE, f, role);
      RoleEffect(afterF, e, role);
    }
    SameLookups(StoredRoles(ef), StoredRoles(fe));
    RoleEffect(stored, e, e.role);
    RoleEffect(stored, f, e.role);
    RoleEffect(afterE, f, e.role);
    RoleEffect(afterF, e, e.role);
  }

  lemma RolesCommute(e: RoleEvent, f: RoleEvent)
    requires e.role != f.role
    ensures Commute(RoleAction, e, f)
  {
    forall stored: Option<TokenDoc>
      ensures Apply(Apply(stored, RoleAction(e)), RoleAction(f)) == Apply(Apply(stored, RoleAction(f)), RoleAction(e))
    {
      RolesCommuteOn(stored, e, f);
    }
  }

  /** One token's document does not see how the events of different roles are interleaved. */
  lemma SameRoles(stored: Option<TokenDoc>, events: seq<RoleEvent>, regrouped: seq<RoleEvent>, token: string)
    requires forall role :: OfKey(events, RoleOf, role) == OfKey(regrouped, RoleOf, role)
    ensures Run(stored, RoleAction, OfKey(events, TokenOf, token)) == Run(stored, RoleAction, OfKey(regrouped, TokenOf, token))
  {
    forall e: RoleEvent, f: RoleEvent | RoleOf(e) != RoleOf(f)
      ensures Commute(RoleAction, e, f)
    {
      RolesCommute(e, f);
    }
    var es, fs := OfKey(events, TokenOf, token), OfKey(regrouped, TokenOf, token);
    forall role
      ensures OfKey(es, RoleOf, role) == OfKey(fs, RoleOf, role)
    {
      OfKeyTwice(events, TokenOf, token, RoleOf, role);
      OfKeyTwice(regrouped, TokenOf, token, RoleOf, role);
    }
    Regroup(stored, RoleAction, RoleOf, es, fs);
  }

  /** Any regrouping that keeps the events of each role in order leaves the same index. */
  lemma RegroupingIsSound(index: map<string, TokenDoc>, events: seq<RoleEvent>, regrouped: seq<RoleEvent>)
    requires forall role :: OfKey(events, RoleOf, role) == OfKey(regrouped, RoleOf, role)
    ensures RoleBulk(index, events) == RoleBulk(index, regrouped)
  {
    forall token
      ensures Lookup(RoleBulk(index, events), token) == Lookup(RoleBulk(index, regrouped), token)
    {
      DocumentsAreIndependent(index, TokenOf, RoleAction, events, token);
      DocumentsAreIndependent(index, TokenOf, RoleAction, regrouped, token);
      SameRoles(Lookup(index, token), events, regrouped, token);
    }
    SameLookups(RoleBulk(index, events), RoleBulk(index, regrouped));
  }

  // ---------------------------------------------------------------- groups

  function Tagged(role: string, data: seq<RoleData>): (events: seq<RoleEvent>)
    ensures |events| == |data|
  {
    seq(|data|, i requires 0 <= i < |data| => RoleEvent(role, data[i]))
  }

  lemma OfTagged(role: string, data: seq<RoleData>, r: string)
    ensures OfKey(Tagged(role, data), RoleOf, r) == if r == role then Tagged(role, data) else []
  {
    if r == role {
      AllOfKey(Tagged(role, data), RoleOf, r);
    } else {
      NoneOfKey(Tagged(role, data), RoleOf, r);
    }
  }

  /** Whether `events` hold exactly the groups of `roles`, each in order. */
  ghost predicate Groups(events: seq<RoleEvent>, rolesData: map<string, seq<RoleData>>, roles: set<string>) {
    forall role :: OfKey(events, RoleOf, role) ==
      Tagged(role, if role in rolesData && role in roles then rolesData[role] else [])
  }

  lemma GroupSent(events: seq<RoleEvent>, rolesData: map<string, seq<RoleData>>, roles: set<string>, role: string)
    requires Groups(events, rolesData, roles) && role in rolesData && role !in roles
    ensures Groups(events + Tagged(role, rolesData[role]), rolesData, roles + {role})
  {
    forall r
      ensures OfKey(events + Tagged(role, rolesData[role]), RoleOf, r) ==
        Tagged(r, if r in rolesData && r in roles + {role} then rolesData[r] else [])
    {
      OfKeyAppend(events, Tagged(role, rolesData[role]), RoleOf, r);
      OfTagged(role, rolesData[role], r);
      assert OfKey(events, RoleOf, r) + [] == OfKey(events, RoleOf, r);
    }
  }

  lemma EventAdded(events: seq<RoleEvent>, rolesData: map<string, seq<RoleData>>, e: RoleEvent)
    requires Groups(events, rolesData, rolesData.Keys)
    ensures var data := (if e.role in rolesData then rolesData[e.role] else []) + [e.roleData];
      Groups(events + [e], rolesData[e.role := data], rolesData.Keys + {e.role})
  {
    var before := if e.role in rolesData then rolesData[e.role] else [];
    var after := rolesData[e.role := before + [e.roleData]];
    forall r
      ensures OfKey(events + [e], RoleOf, r) == Tagged(r, if r in after then after[r] else [])
    {
      OfKeyLast(events, e, RoleOf, r);
      if r == e.role {
        assert Tagged(r, before + [e.roleData]) == Tagged(r, before) + [e];
      } else {
        assert OfKey(events, RoleOf, r) + [] == OfKey(events, RoleOf, r);
      }
    }
  }
}
