/** The merge itself: two accounts inside their critical section, the three
    survivor-wins move loops, the tombstone and the audit trail, against an Admin
    API in which any call may fail. */
module AccountMerge {
  import opened Wrappers
  import opened AdminOutcome
  import opened Matching
  import opened KeyedItems
  import Locks = KeyedLocks

  datatype Role = Role(roleId: string, name: string, clientId: Option<string>)
  datatype Group = Group(groupId: string, path: string, name: Option<string>)

  function LinkKey(l: Link): string { l.provider }
  function RoleKey(r: Role): (Option<string>, string) { (r.clientId, r.name) }
  function GroupKey(g: Group): string { g.groupId }

  function LinkName(l: Link): string { l.provider + ":" + l.subject }
  function RoleName(r: Role): string {
    (if r.clientId.Some? && r.clientId.value != "" then r.clientId.value else "realm") + ":" + r.name
  }
  function GroupName(g: Group): string { if g.path != "" then g.path else g.groupId }

  /** One account's list in a table that has no row for an empty account. */
  function Of<T>(table: map<string, seq<T>>, id: string): seq<T> {
    if id in table then table[id] else []
  }

  function First(outcomes: seq<Outcome>): Outcome { if outcomes == [] then Succeeds else outcomes[0] }
  function Rest(outcomes: seq<Outcome>): seq<Outcome> { if outcomes == [] then [] else outcomes[1..] }

  /** The Keycloak Admin API as tables.  `outcomes` says how the coming calls end;
      once it runs out every call succeeds. */
  class AdminApi {
    var users: map<string, Account>
    var links: map<string, seq<Link>>
    var roles: map<string, seq<Role>>
    var groups: map<string, seq<Group>>
    var mergedInto: map<string, string>
    var outcomes: seq<Outcome>

    constructor (users: map<string, Account>, links: map<string, seq<Link>>, roles: map<string, seq<Role>>,
                 groups: map<string, seq<Group>>, mergedInto: map<string, string>, outcomes: seq<Outcome>)
      ensures this.users == users && this.links == links && this.roles == roles && this.groups == groups
      ensures this.mergedInto == mergedInto && this.outcomes == outcomes
    {
      this.users, this.links, this.roles, this.groups := users, links, roles, groups;
      this.mergedInto, this.outcomes := mergedInto, outcomes;
    }

    /** Any request: how it ends is the next outcome. */
    method Request() returns (outcome: Outcome)
      modifies this`outcomes
      ensures outcome == First(old(outcomes)) && outcomes == Rest(old(outcomes))
    {
      outcome, outcomes := First(outcomes), Rest(outcomes);
    }

    method AddLink(id: string, link: Link) returns (ok: bool)
      modifies this`links, this`outcomes
      ensures ok == (First(old(outcomes)) == Succeeds) && outcomes == Rest(old(outcomes))
      ensures links == if First(old(outcomes)).Applied() then old(links)[id := Of(old(links), id) + [link]]
              else old(links)
    {
      var outcome := Request();
      if outcome.Applied() { links := links[id := Of(links, id) + [link]]; }
      ok := outcome == Succeeds;
    }

    method RemoveLink(id: string, provider: string) returns (ok: bool)
      modifies this`links, this`outcomes
      ensures ok == (First(old(outcomes)) == Succeeds) && outcomes == Rest(old(outcomes))
      ensures links == if First(old(outcomes)).Applied()
                       then old(links)[id := Without(LinkKey, {provider}, Of(old(links), id))] else old(links)
    {
      var outcome := Request();
      if outcome.Applied() { links := links[id := Without(LinkKey, {provider}, Of(links, id))]; }
      ok := outcome == Succeeds;
    }

    method AddRole(id: string, role: Role) returns (ok: bool)
      modifies this`roles, this`outcomes
      ensures ok == (First(old(outcomes)) == Succeeds) && outcomes == Rest(old(outcomes))
      ensures roles == if First(old(outcomes)).Applied() then old(roles)[id := Of(old(roles), id) + [role]]
              else old(roles)
    {
      var outcome := Request();
      if outcome.Applied() { roles := roles[id := Of(roles, id) + [role]]; }
      ok := outcome == Succeeds;
    }

    method RemoveRole(id: string, role: Role) returns (ok: bool)
      modifies this`roles, this`outcomes
      ensures ok == (First(old(outcomes)) == Succeeds) && outcomes == Rest(old(outcomes))
      ensures roles == if First(old(outcomes)).Applied()
                       then old(roles)[id := Without(RoleKey, {RoleKey(role)}, Of(old(roles), id))] else old(roles)
    {
      var outcome := Request();
      if outcome.Applied() { roles := roles[id := Without(RoleKey, {RoleKey(role)}, Of(roles, id))]; }
      ok := outcome == Succeeds;
    }

    method AddGroup(id: string, group: Group) returns (ok: bool)
      modifies this`groups, this`outcomes
      ensures ok == (First(old(outcomes)) == Succeeds) && outcomes == Rest(old(outcomes))
      ensures groups == if First(old(outcomes)).Applied() then old(groups)[id := Of(old(groups), id) + [group]]
              else old(groups)
    {
      var outcome := Request();
      if outcome.Applied() { groups := groups[id := Of(groups, id) + [group]]; }
      ok := outcome == Succeeds;
    }

    method RemoveGroup(id: string, group: Group) returns (ok: bool)
      modifies this`groups, this`outcomes
      ensures ok == (First(old(outcomes)) == Succeeds) && outcomes == Rest(old(outcomes))
      ensures groups == if First(old(outcomes)).Applied()
                        then old(groups)[id := Without(GroupKey, {group.groupId}, Of(old(groups), id))]
                            else old(groups)
    {
      var outcome := Request();
      if outcome.Applied() { groups := groups[id := Without(GroupKey, {group.groupId}, Of(groups, id))]; }
      ok := outcome == Succeeds;
    }

    method StampSurvivor(id: string, survivor: string) returns (ok: bool)
      modifies this`mergedInto, this`outcomes
      ensures ok == (First(old(outcomes)) == Succeeds) && outcomes == Rest(old(outcomes))
      ensures mergedInto == if First(old(outcomes)).Applied() then old(mergedInto)[id := survivor]
              else old(mergedInto)
    {
      var outcome := Request();
      if outcome.Applied() { mergedInto := mergedInto[id := survivor]; }
      ok := outcome == Succeeds;
    }

    method Deactivate(id: string) returns (ok: bool)
      modifies this`users, this`outcomes
      ensures ok == (First(old(outcomes)) == Succeeds) && outcomes == Rest(old(outcomes))
      ensures users == if First(old(outcomes)).Applied() && id in old(users)
                       then old(users)[id := old(users)[id].(active := false)] else old(users)
    {
      var outcome := Request();
      if outcome.Applied() && id in users { users := users[id := users[id].(active := false)]; }
      ok := outcome == Succeeds;
    }
  }

  // ---- Audit trail ----

  datatype Kind = FederatedIdentity | RoleMapping | GroupMembership

  datatype Conflict = Conflict(kind: Kind, identifier: string)

  datatype Detail =
    | MergeStarted(reason: Reason)
    | ItemMoved(kind: Kind, identifier: string)
    | ItemConflict(kind: Kind, identifier: string)
    | DuplicateTombstoned
    | MergeCompleted(links: seq<string>, roles: seq<string>, groups: seq<string>, conflicts: seq<Conflict>)

  datatype Event = Event(auditId: string, actor: string, survivor: string, duplicate: string, detail: Detail)

  datatype Request = Request(survivor: string, duplicate: string, explicit: bool, actor: string)

  function Note(request: Request, auditId: string, detail: Detail): Event {
    Event(auditId, request.actor, request.survivor, request.duplicate, detail)
  }

  /** The one event a move leaves for an item. */
  ghost function ItemNote<T, K>(request: Request, auditId: string, key: T -> K, name: T -> string, kind: Kind,
                                taken: set<K>, x: T): Event {
    Note(request, auditId, if key(x) in taken then ItemConflict(kind, name(x)) else ItemMoved(kind, name(x)))
  }

  /** One event per item, in order. */
  ghost function ItemEvents<T, K>(request: Request, auditId: string, key: T -> K, name: T -> string, kind: Kind,
                                  taken: set<K>, items: seq<T>): seq<Event> {
    if items == [] then []
    else ItemEvents(request, auditId, key, name, kind, taken, items[..|items| - 1])
         + [ItemNote(request, auditId, key, name, kind, taken, items[|items| - 1])]
  }

  /** The conflicts to report for a list of items, in order. */
  ghost function Tagged<T>(kind: Kind, name: T -> string, items: seq<T>): seq<Conflict> {
    if items == [] then [] else Tagged(kind, name, items[..|items| - 1]) + [Conflict(kind, name(items[|items| - 1]))]
  }

  // ---- What one move loop does, as a function ----

  /** What a move loop reads and writes. */
  datatype Move<T> = Move(table: map<string, seq<T>>, outcomes: seq<Outcome>, moved: seq<string>,
                          conflicts: seq<Conflict>, audit: seq<Event>, ok: bool)

  /** One request that rewrites one account's list; it fails if its outcome says so. */
  ghost function Write<T>(m: Move<T>, id: string, items: seq<T>): Move<T> {
    m.(table := if First(m.outcomes).Applied() then m.table[id := items] else m.table,
       outcomes := Rest(m.outcomes), ok := First(m.outcomes) == Succeeds)
  }

  ghost function Detach<T, K>(request: Request, key: T -> K, x: T, m: Move<T>): Move<T> {
    Write(m, request.duplicate, Without(key, {key(x)}, Of(m.table, request.duplicate)))
  }

  ghost function Attach<T>(request: Request, x: T, m: Move<T>): Move<T> {
    Write(m, request.survivor, Of(m.table, request.survivor) + [x])
  }

  ghost function MoveItem<T, K>(request: Request, auditId: string, key: T -> K, name: T -> string, kind: Kind,
                                taken: set<K>, x: T, m: Move<T>): Move<T> {
    if key(x) in taken then
      var r := Detach(request, key, x, m);
      if !r.ok then r
      else r.(conflicts := r.conflicts + [Conflict(kind, name(x))],
              audit := r.audit + [Note(request, auditId, ItemConflict(kind, name(x)))])
    else
      var a := Attach(request, x, m);
      if !a.ok then a
      else
        var r := Detach(request, key, x, a);
        if !r.ok then r
        else r.(moved := r.moved + [name(x)], audit := r.audit + [Note(request, auditId, ItemMoved(kind, name(x)))])
  }

  ghost function MoveItems<T, K>(request: Request, auditId: string, key: T -> K, name: T -> string, kind: Kind,
                                 taken: set<K>, items: seq<T>, m: Move<T>): Move<T>
    decreases |items|
  {
    if items == [] || !m.ok then m
    else MoveItems(request, auditId, key, name, kind, taken, items[1..],
                   MoveItem(request, auditId, key, name, kind, taken, items[0], m))
  }

  // ---- The whole merge, as a function ----

  /** Everything a merge may change. */
  datatype Realm = Realm(users: map<string, Account>, links: map<string, seq<Link>>, roles: map<string, seq<Role>>,
                         groups: map<string, seq<Group>>, mergedInto: map<string, string>,
                         outcomes: seq<Outcome>, audit: seq<Event>)

  datatype Result =
    | Completed(reason: Reason, links: seq<string>, roles: seq<string>, groups: seq<string>, conflicts: seq<Conflict>)
    | SameUser
    | BadUserId
    | UserNotFound
    | InactiveAccount
    | UnverifiedEmail
    | NoMatchingRule
    | ApiRaised

  /** A merge part-way: what is done so far and whether it can go on. */
  datatype Progress = Progress(realm: Realm, links: seq<string>, roles: seq<string>, groups: seq<string>,
                               conflicts: seq<Conflict>, ok: bool)

  /** A read request consumes one outcome and changes nothing. */
  function AfterRead(p: Progress): Progress {
    if !p.ok then p
    else p.(realm := p.realm.(outcomes := Rest(p.realm.outcomes)), ok := First(p.realm.outcomes) == Succeeds)
  }

  ghost function LinksStage(request: Request, auditId: string, p: Progress): Progress {
    if !p.ok then p
    else
      var r := p.realm;
      var m := MoveItems(request, auditId, LinkKey, LinkName, FederatedIdentity,
                         Keys(LinkKey, Of(r.links, request.survivor)),
                         Of(r.links, request.duplicate), Move(r.links, r.outcomes, [], p.conflicts, r.audit, true));
      p.(realm := r.(links := m.table, outcomes := m.outcomes, audit := m.audit), links := m.moved, conflicts :=
         m.conflicts, ok := m.ok)
  }

  ghost function RolesStage(request: Request, auditId: string, p0: Progress): Progress {
    var p := AfterRead(AfterRead(p0));
    if !p.ok then p
    else
      var r := p.realm;
      var m := MoveItems(request, auditId, RoleKey, RoleName, RoleMapping,
                         Keys(RoleKey, Of(r.roles, request.survivor)),
                         Of(r.roles, request.duplicate), Move(r.roles, r.outcomes, [], p.conflicts, r.audit, true));
      p.(realm := r.(roles := m.table, outcomes := m.outcomes, audit := m.audit), roles := m.moved, conflicts :=
         m.conflicts, ok := m.ok)
  }

  ghost function GroupsStage(request: Request, auditId: string, p0: Progress): Progress {
    var p := AfterRead(AfterRead(p0));
    if !p.ok then p
    else
      var r := p.realm;
      var m := MoveItems(request, auditId, GroupKey, GroupName, GroupMembership,
                         Keys(GroupKey, Of(r.groups, request.survivor)),
                         Of(r.groups, request.duplicate), Move(r.groups, r.outcomes, [], p.conflicts, r.audit, true));
      p.(realm := r.(groups := m.table, outcomes := m.outcomes, audit := m.audit), groups := m.moved, conflicts :=
         m.conflicts, ok := m.ok)
  }

  /** Stamp the pointer, then disable. */
  ghost function TombstoneStage(request: Request, auditId: string, p: Progress): Progress {
    if !p.ok then p
    else
      var r := p.realm;
      var stamp, disable := First(r.outcomes), First(Rest(r.outcomes));
      var r1 := r.(mergedInto :=
                   if stamp.Applied() then r.mergedInto[request.duplicate := request.survivor] else r.mergedInto,
                   outcomes := Rest(r.outcomes));
      if stamp != Succeeds then p.(realm := r1, ok := false)
      else
        var r2 := r1.(users := if disable.Applied() && request.duplicate in r.users
                               then r.users[request.duplicate := r.users[request.duplicate].(active := false)]
                                   else r.users,
                      outcomes := Rest(r1.outcomes));
        if disable != Succeeds then p.(realm := r2, ok := false)
        else p.(realm := r2.(audit := r2.audit + [Note(request, auditId, DuplicateTombstoned)]))
  }

  ghost function MoveAndTombstone(request: Request, auditId: string, reason: Reason, r: Realm): Progress {
    TombstoneStage(request, auditId,
      GroupsStage(request, auditId,
        RolesStage(request, auditId,
          LinksStage(request, auditId,
            Progress(r.(audit := r.audit + [Note(request, auditId, MergeStarted(reason))]), [], [], [], [], true)))))
  }

  /** Loads, checks and the matching policy: the realm is as before but for the
      reads consumed, and either a refusal or the reason to merge. */
  ghost function Admission(lower: string -> string, request: Request, r: Realm): (Realm, Result) {
    var p1 := AfterRead(Progress(r, [], [], [], [], true));
    if !p1.ok then (p1.realm, ApiRaised)
    else if request.survivor !in r.users then (p1.realm, UserNotFound)
    else
      var p2 := AfterRead(p1);
      if !p2.ok then (p2.realm, ApiRaised)
      else if request.duplicate !in r.users then (p2.realm, UserNotFound)
      else
        var p4 := AfterRead(AfterRead(p2));
        var s, d := r.users[request.survivor], r.users[request.duplicate];
        if !p4.ok then (p4.realm, ApiRaised)
        else if !s.active || !d.active then (p4.realm, InactiveAccount)
        else
          match Judge(lower, s, Of(r.links, request.survivor), d, Of(r.links, request.duplicate), request.explicit)
          case RefusedUnverifiedEmail => (p4.realm, UnverifiedEmail)
          case RefusedNoMatch => (p4.realm, NoMatchingRule)
          case Allowed(reason) => (p4.realm, Completed(reason, [], [], [], []))
  }

  ghost function Merge(lower: string -> string, request: Request, auditId: string, r: Realm): (Realm, Result) {
    if request.survivor == request.duplicate then (r, SameUser)
    else if Locks.NormaliseUserIds([request.survivor, request.duplicate]).BadIds? then (r, BadUserId)
    else
      var (r1, admitted) := Admission(lower, request, r);
      if !admitted.Completed? then (r1, admitted)
      else
        var p := MoveAndTombstone(request, auditId, admitted.reason, r1);
        if !p.ok then (p.realm, ApiRaised)
        else (p.realm.(audit :=
                       p.realm.audit + [Note(request, auditId, MergeCompleted(p.links, p.roles, p.groups,
                p.conflicts))]),
              Completed(admitted.reason, p.links, p.roles, p.groups, p.conflicts))
  }

  class UnificationService {
    const api: AdminApi
    var audit: seq<Event>

    ghost function View(): Realm
      reads this, api
    {
      Realm(api.users, api.links, api.roles, api.groups, api.mergedInto, api.outcomes, audit)
    }

    constructor (api: AdminApi)
      ensures this.api == api && audit == []
    {
      this.api, audit := api, [];
    }

    method Emit(request: Request, auditId: string, detail: Detail)
      modifies this`audit
      ensures audit == old(audit) + [Note(request, auditId, detail)]
    {
      audit := audit + [Note(request, auditId, detail)];
    }

    /** Move external identity links; a provider the survivor already uses is a
        conflict, and the duplicate loses its link either way. */
    method MoveFederatedIdentities(request: Request, survivorItems: seq<Link>, duplicateItems: seq<Link>,
                  auditId: string, conflicts0: seq<Conflict>)
      returns (ok: bool, moved: seq<string>, conflicts: seq<Conflict>)
      modifies this`audit, api`links, api`outcomes
      ensures Move(api.links, api.outcomes, moved, conflicts, audit, ok)
           == MoveItems(request, auditId, LinkKey, LinkName, FederatedIdentity, Keys(LinkKey, survivorItems),
                        duplicateItems,
                        Move(old(api.links), old(api.outcomes), [], conflicts0, old(audit), true))
    {
      var existing := set l | l in survivorItems :: (l.provider, l.subject);
      ok, moved, conflicts := true, [], conflicts0;
      for i := 0 to |duplicateItems|
        invariant ok
        invariant MoveItems(request, auditId, LinkKey, LinkName, FederatedIdentity, Keys(LinkKey, survivorItems),
                            duplicateItems[i..],
                            Move(api.links, api.outcomes, moved, conflicts, audit, true))
               == MoveItems(request, auditId, LinkKey, LinkName, FederatedIdentity, Keys(LinkKey, survivorItems),
                            duplicateItems,
                            Move(old(api.links), old(api.outcomes), [], conflicts0, old(audit), true))
      {
        var link := duplicateItems[i];
        assert duplicateItems[i..][1..] == duplicateItems[i + 1..];
        var providerTaken := exists l :: l in survivorItems && l.provider == link.provider;
        assert ((link.provider, link.subject) in existing || providerTaken) ==
               (LinkKey(link) in Keys(LinkKey, survivorItems));
        if (link.provider, link.subject) in existing || providerTaken {
          ok := api.RemoveLink(request.duplicate, link.provider);
          if !ok { return; }
          conflicts := conflicts + [Conflict(FederatedIdentity, LinkName(link))];
          Emit(request, auditId, ItemConflict(FederatedIdentity, LinkName(link)));
          continue;
        }
        ok := api.AddLink(request.survivor, link);
        if !ok { return; }
        ok := api.RemoveLink(request.duplicate, link.provider);
        if !ok { return; }
        moved := moved + [LinkName(link)];
        Emit(request, auditId, ItemMoved(FederatedIdentity, LinkName(link)));
      }
    }

    /** Move realm and client role mappings without overwriting the survivor's. */
    method MoveRoleMappings(request: Request, survivorItems: seq<Role>, duplicateItems: seq<Role>,
                  auditId: string, conflicts0: seq<Conflict>)
      returns (ok: bool, moved: seq<string>, conflicts: seq<Conflict>)
      modifies this`audit, api`roles, api`outcomes
      ensures Move(api.roles, api.outcomes, moved, conflicts, audit, ok)
           == MoveItems(request, auditId, RoleKey, RoleName, RoleMapping, Keys(RoleKey, survivorItems),
                        duplicateItems,
                        Move(old(api.roles), old(api.outcomes), [], conflicts0, old(audit), true))
    {
      var survivorRoles := set r | r in survivorItems :: (r.clientId, r.name);
      ok, moved, conflicts := true, [], conflicts0;
      for i := 0 to |duplicateItems|
        invariant ok
        invariant MoveItems(request, auditId, RoleKey, RoleName, RoleMapping, Keys(RoleKey, survivorItems),
                            duplicateItems[i..],
                            Move(api.roles, api.outcomes, moved, conflicts, audit, true))
               == MoveItems(request, auditId, RoleKey, RoleName, RoleMapping, Keys(RoleKey, survivorItems),
                            duplicateItems,
                            Move(old(api.roles), old(api.outcomes), [], conflicts0, old(audit), true))
      {
        var role := duplicateItems[i];
        assert duplicateItems[i..][1..] == duplicateItems[i + 1..];
        assert ((role.clientId, role.name) in survivorRoles) == (RoleKey(role) in Keys(RoleKey, survivorItems));
        if (role.clientId, role.name) in survivorRoles {
          ok := api.RemoveRole(request.duplicate, role);
          if !ok { return; }
          conflicts := conflicts + [Conflict(RoleMapping, RoleName(role))];
          Emit(request, auditId, ItemConflict(RoleMapping, RoleName(role)));
          continue;
        }
        ok := api.AddRole(request.survivor, role);
        if !ok { return; }
        ok := api.RemoveRole(request.duplicate, role);
        if !ok { return; }
        moved := moved + [RoleName(role)];
        Emit(request, auditId, ItemMoved(RoleMapping, RoleName(role)));
      }
    }

    /** Move group memberships without duplicating the survivor's. */
    method MoveGroupMemberships(request: Request, survivorItems: seq<Group>, duplicateItems: seq<Group>,
                  auditId: string, conflicts0: seq<Conflict>)
      returns (ok: bool, moved: seq<string>, conflicts: seq<Conflict>)
      modifies this`audit, api`groups, api`outcomes
      ensures Move(api.groups, api.outcomes, moved, conflicts, audit, ok)
           == MoveItems(request, auditId, GroupKey, GroupName, GroupMembership, Keys(GroupKey, survivorItems),
                        duplicateItems,
                        Move(old(api.groups), old(api.outcomes), [], conflicts0, old(audit), true))
    {
      var survivorGroups := set g | g in survivorItems :: g.groupId;
      ok, moved, conflicts := true, [], conflicts0;
      for i := 0 to |duplicateItems|
        invariant ok
        invariant MoveItems(request, auditId, GroupKey, GroupName, GroupMembership, Keys(GroupKey, survivorItems),
                            duplicateItems[i..],
                            Move(api.groups, api.outcomes, moved, conflicts, audit, true))
               == MoveItems(request, auditId, GroupKey, GroupName, GroupMembership, Keys(GroupKey, survivorItems),
                            duplicateItems,
                            Move(old(api.groups), old(api.outcomes), [], conflicts0, old(audit), true))
      {
        var group := duplicateItems[i];
        assert duplicateItems[i..][1..] == duplicateItems[i + 1..];
        assert (group.groupId in survivorGroups) == (GroupKey(group) in Keys(GroupKey, survivorItems));
        if group.groupId in survivorGroups {
          ok := api.RemoveGroup(request.duplicate, group);
          if !ok { return; }
          conflicts := conflicts + [Conflict(GroupMembership, GroupName(group))];
          Emit(request, auditId, ItemConflict(GroupMembership, GroupName(group)));
          continue;
        }
        ok := api.AddGroup(request.survivor, group);
        if !ok { return; }
        ok := api.RemoveGroup(request.duplicate, group);
        if !ok { return; }
        moved := moved + [GroupName(group)];
        Emit(request, auditId, ItemMoved(GroupMembership, GroupName(group)));
      }
    }

    /** One read request; its data are the tables as they stand. */
    method Read() returns (ok: bool)
      modifies api`outcomes
      ensures ok == (First(old(api.outcomes)) == Succeeds) && api.outcomes == Rest(old(api.outcomes))
    {
      var outcome := api.Request();
      ok := outcome == Succeeds;
    }

    method Tombstone(request: Request, auditId: string) returns (ok: bool)
      modifies this`audit, api`users, api`mergedInto, api`outcomes
      ensures forall l, r, g, c ::
              Progress(View(), l, r, g, c, ok) == TombstoneStage(request, auditId,
                                                                 Progress(old(View()), l, r, g, c, true))
    {
      ok := api.StampSurvivor(request.duplicate, request.survivor);
      if !ok { return; }
      ok := api.Deactivate(request.duplicate);
      if !ok { return; }
      Emit(request, auditId, DuplicateTombstoned);
    }

    /** Load both accounts and their links, and decide whether they may merge. */
    method Admit(lower: string -> string, request: Request) returns (admitted: Result)
      modifies api`outcomes
      ensures (View(), admitted) == Admission(lower, request, old(View()))
    {
      var ok := Read();
      if !ok { return ApiRaised; }
      if request.survivor !in api.users { return UserNotFound; }
      ok := Read();
      if !ok { return ApiRaised; }
      if request.duplicate !in api.users { return UserNotFound; }
      ok := Read();
      if !ok { return ApiRaised; }
      ok := Read();
      if !ok { return ApiRaised; }
      var s, d := api.users[request.survivor], api.users[request.duplicate];
      if !s.active || !d.active { return InactiveAccount; }
      match Judge(lower, s, Of(api.links, request.survivor), d, Of(api.links, request.duplicate), request.explicit) {
        case RefusedUnverifiedEmail => return UnverifiedEmail;
        case RefusedNoMatch => return NoMatchingRule;
        case Allowed(reason) => return Completed(reason, [], [], [], []);
      }
    }

    method MoveAll(request: Request, auditId: string, reason: Reason)
      returns (ok: bool, links: seq<string>, roles: seq<string>, groups: seq<string>, conflicts: seq<Conflict>)
      modifies this`audit, api
      ensures Progress(View(), links, roles, groups, conflicts, ok) ==
              MoveAndTombstone(request, auditId, reason, old(View()))
    {
      links, roles, groups, conflicts := [], [], [], [];
      Emit(request, auditId, MergeStarted(reason));
      ghost var p1 := LinksStage(request, auditId, Progress(View(), [], [], [], [], true));
      ok, links, conflicts :=
          MoveFederatedIdentities(request, Of(api.links, request.survivor), Of(api.links, request.duplicate), auditId,
                                  []);
      assert p1 == Progress(View(), links, roles, groups, conflicts, ok);
      if !ok { return; }
      ghost var p2 := RolesStage(request, auditId, p1);
      ok := Read();
      if !ok { return; }
      ok := Read();
      if !ok { return; }
      ok, roles, conflicts :=
          MoveRoleMappings(request, Of(api.roles, request.survivor), Of(api.roles, request.duplicate), auditId,
                           conflicts);
      assert p2 == Progress(View(), links, roles, groups, conflicts, ok);
      if !ok { return; }
      ghost var p3 := GroupsStage(request, auditId, p2);
      ok := Read();
      if !ok { return; }
      ok := Read();
      if !ok { return; }
      ok, groups, conflicts :=
          MoveGroupMemberships(request, Of(api.groups, request.survivor), Of(api.groups, request.duplicate), auditId,
                               conflicts);
      assert p3 == Progress(View(), links, roles, groups, conflicts, ok);
      if !ok { return; }
      ok := Tombstone(request, auditId);
    }

    /** Merge the duplicate into the survivor.  The caller of this body holds the
        user-operation locks of both ids. */
    method MergeAccounts(lower: string -> string, request: Request, auditId: string) returns (result: Result)
      modifies this`audit, api
      ensures (View(), result) == Merge(lower, request, auditId, old(View()))
    {
      if request.survivor == request.duplicate { return SameUser; }
      if Locks.NormaliseUserIds([request.survivor, request.duplicate]).BadIds? { return BadUserId; }
      var admitted := Admit(lower, request);
      if !admitted.Completed? { return admitted; }
      var ok, links, roles, groups, conflicts := MoveAll(request, auditId, admitted.reason);
      if !ok { return ApiRaised; }
      Emit(request, auditId, MergeCompleted(links, roles, groups, conflicts));
      return Completed(admitted.reason, links, roles, groups, conflicts);
    }
  }
}
