/** What a completed merge does, item by item and in the items' own fields: which
    links, roles and groups conflict, where each one ends up, and how each one is
    reported. */
module MergeFields {
  import opened Wrappers
  import opened Matching
  import opened KeyedItems
  import opened AccountMerge
  import opened MergeConservation

  // ---- Members of the derived lists ----

  lemma {:induction false} OnlyMembers<T, K>(key: T -> K, kept: set<K>, s: seq<T>, x: T)
    ensures x in Only(key, kept, s) <==> x in s && key(x) in kept
  {
    if s != [] {
      OnlyMembers(key, kept, s[..|s| - 1], x);
      assert s == s[..|s| - 1] + [s[|s| - 1]];
    }
  }

  lemma {:induction false} MappedMembers<T(!new), U>(f: T -> U, s: seq<T>, u: U)
    ensures u in Mapped(f, s) <==> exists x :: x in s && f(x) == u
  {
    if s != [] {
      var t, last := s[..|s| - 1], s[|s| - 1];
      MappedMembers(f, t, u);
      assert s == t + [last];
    }
  }

  lemma {:induction false} TaggedMembers<T(!new)>(kind: Kind, name: T -> string, s: seq<T>, c: Conflict)
    ensures c in Tagged(kind, name, s) <==> exists x :: x in s && Conflict(kind, name(x)) == c
  {
    if s != [] {
      var t, last := s[..|s| - 1], s[|s| - 1];
      TaggedMembers(kind, name, t, c);
      assert s == t + [last];
    }
  }

  // ---- One table ----

  /** Some item of the list is in the same place as `x`. */
  ghost predicate Taken<T(!new)>(same: (T, T) -> bool, s: seq<T>, x: T) {
    exists y :: y in s && same(y, x)
  }

  /** The table after a merge in terms of `same`: the duplicate's items that nothing
      of the survivor's is in the same place as are added, the others are not, and
      the duplicate has none. */
  ghost predicate Placed<T(!new)>(same: (T, T) -> bool, request: Request, before: map<string, seq<T>>,
                                  after: map<string, seq<T>>) {
    var s, d := Of(before, request.survivor), Of(before, request.duplicate);
    && (forall x :: x in Of(after, request.survivor) <==> x in s || (x in d && !Taken(same, s, x)))
    && Of(after, request.duplicate) == []
    && forall id :: id != request.survivor && id != request.duplicate ==> Of(after, id) == Of(before, id)
  }

  lemma TablePlaces<T(!new), K>(key: T -> K, same: (T, T) -> bool, request: Request, before: map<string, seq<T>>,
                                after: map<string, seq<T>>)
    requires (forall x, y :: key(x) == key(y) <==> same(x, y)) && TableMerged(request, key, before, after)
    ensures Placed(same, request, before, after)
  {
    var s, d := Of(before, request.survivor), Of(before, request.duplicate);
    forall x ensures x in Of(after, request.survivor) <==> x in s || (x in d && !Taken(same, s, x)) {
      WithoutMembers(key, Keys(key, s), d, x);
      TakenIsKeyed(key, same, s, x);
    }
  }

  lemma TakenIsKeyed<T(!new), K>(key: T -> K, same: (T, T) -> bool, s: seq<T>, x: T)
    requires forall x, y :: key(x) == key(y) <==> same(x, y)
    ensures key(x) in Keys(key, s) <==> Taken(same, s, x)
  {}

  /** How the items of one kind are reported: each moved one by its identifier, each
      conflicting one as a conflict, and nothing else. */
  ghost predicate ReportedAs<T(!new)>(same: (T, T) -> bool, name: T -> string, kind: Kind, s: seq<T>, d: seq<T>,
                                      moved: seq<string>, conflicts: seq<Conflict>) {
    && (forall id :: id in moved <==> exists x :: x in d && !Taken(same, s, x) && name(x) == id)
    && (forall id :: Conflict(kind, id) in conflicts <==> exists x :: x in d && Taken(same, s, x) && name(x) == id)
  }

  lemma TableReports<T(!new), K>(key: T -> K, same: (T, T) -> bool, name: T -> string, kind: Kind, s: seq<T>,
                                 d: seq<T>)
    requires forall x, y :: key(x) == key(y) <==> same(x, y)
    ensures ReportedAs(same, name, kind, s, d, Mapped(name, Without(key, Keys(key, s), d)),
                       Tagged(kind, name, Only(key, Keys(key, s), d)))
  {
    var keys := Keys(key, s);
    forall x ensures x in Without(key, keys, d) <==> x in d && !Taken(same, s, x)
             ensures x in Only(key, keys, d) <==> x in d && Taken(same, s, x)
    {
      WithoutMembers(key, keys, d, x);
      OnlyMembers(key, keys, d, x);
      TakenIsKeyed(key, same, s, x);
    }
    forall id ensures id in Mapped(name, Without(key, keys, d)) <==>
        exists x :: x in d && !Taken(same, s, x) && name(x) == id {
      MappedMembers(name, Without(key, keys, d), id);
    }
    forall id ensures Conflict(kind, id) in Tagged(kind, name, Only(key, keys, d)) <==>
                      exists x :: x in d && Taken(same, s, x) && name(x) == id
    {
      TaggedMembers(kind, name, Only(key, keys, d), Conflict(kind, id));
    }
  }

  /** The events of one kind: one per item, a conflict or a move. */
  ghost predicate NotedAs<T(!new)>(same: (T, T) -> bool, name: T -> string, kind: Kind, request: Request,
                                   auditId: string, s: seq<T>, d: seq<T>, events: seq<Event>) {
    && |events| == |d|
    && forall i :: 0 <= i < |d| ==> events[i] == Event(auditId, request.actor, request.survivor, request.duplicate,
         if Taken(same, s, d[i]) then ItemConflict(kind, name(d[i])) else ItemMoved(kind, name(d[i])))
  }

  lemma {:induction false} TableNotes<T(!new), K>(key: T -> K, same: (T, T) -> bool, name: T -> string, kind: Kind,
                                                  request: Request, auditId: string, s: seq<T>, d: seq<T>)
    requires forall x, y :: key(x) == key(y) <==> same(x, y)
    ensures NotedAs(same, name, kind, request, auditId, s, d,
                    ItemEvents(request, auditId, key, name, kind, Keys(key, s), d))
  {
    if d != [] {
      var init, last := d[..|d| - 1], d[|d| - 1];
      TableNotes(key, same, name, kind, request, auditId, s, init);
      TakenIsKeyed(key, same, s, last);
      var events := ItemEvents(request, auditId, key, name, kind, Keys(key, s), init);
      forall i | 0 <= i < |d| - 1
        ensures (events + [ItemNote(request, auditId, key, name, kind, Keys(key, s), last)])[i] ==
          Event(auditId, request.actor, request.survivor, request.duplicate,
                if Taken(same, s, d[i]) then ItemConflict(kind, name(d[i])) else ItemMoved(kind, name(d[i])))
      {
        assert init[i] == d[i];
      }
    }
  }

  // ---- The three kinds, by their fields ----

  predicate SameProvider(x: Link, y: Link) { x.provider == y.provider }
  predicate SameRole(x: Role, y: Role) { x.clientId == y.clientId && x.name == y.name }
  predicate SameGroup(x: Group, y: Group) { x.groupId == y.groupId }

  /** The scope of a role, as reports name it. */
  function Scope(r: Role): string {
    match r.clientId case None => "realm" case Some(c) => if c == "" then "realm" else c
  }

  ghost predicate ReportedInFields(request: Request, r: Realm, links: seq<string>, roles: seq<string>,
                                   groups: seq<string>, conflicts: seq<Conflict>) {
    && ReportedAs(SameProvider, (l: Link) => l.provider + ":" + l.subject, FederatedIdentity,
                  Of(r.links, request.survivor), Of(r.links, request.duplicate), links, conflicts)
    && ReportedAs(SameRole, (x: Role) => Scope(x) + ":" + x.name, RoleMapping,
                  Of(r.roles, request.survivor), Of(r.roles, request.duplicate), roles, conflicts)
    && ReportedAs(SameGroup, (g: Group) => if g.path == "" then g.groupId else g.path, GroupMembership,
                  Of(r.groups, request.survivor), Of(r.groups, request.duplicate), groups, conflicts)
  }

  lemma OtherKindsAreElsewhere<T(!new)>(kind: Kind, name: T -> string, s: seq<T>, other: Kind, id: string)
    requires kind != other
    ensures Conflict(other, id) !in Tagged(kind, name, s)
  {
    TaggedMembers(kind, name, s, Conflict(other, id));
  }

  lemma Renamed<T(!new)>(same: (T, T) -> bool, name: T -> string, other: T -> string, kind: Kind, s: seq<T>,
                         d: seq<T>,
                         moved: seq<string>, conflicts: seq<Conflict>, all: seq<Conflict>)
    requires (forall x :: name(x) == other(x)) && ReportedAs(same, name, kind, s, d, moved, conflicts)
    requires forall id :: Conflict(kind, id) in all <==> Conflict(kind, id) in conflicts
    ensures ReportedAs(same, other, kind, s, d, moved, all)
  {}

  lemma ReportsInFields(request: Request, r: Realm, links: seq<string>, roles: seq<string>, groups: seq<string>,
                        conflicts: seq<Conflict>)
    requires links == TableNames(request, LinkKey, LinkName, r.links)
    requires roles == TableNames(request, RoleKey, RoleName, r.roles)
    requires groups == TableNames(request, GroupKey, GroupName, r.groups)
    requires conflicts == TableConflicts(request, LinkKey, LinkName, FederatedIdentity, r.links)
                          + TableConflicts(request, RoleKey, RoleName, RoleMapping, r.roles)
                          + TableConflicts(request, GroupKey, GroupName, GroupMembership, r.groups)
    ensures ReportedInFields(request, r, links, roles, groups, conflicts)
  {
    var s, d := request.survivor, request.duplicate;
    var c1 := TableConflicts(request, LinkKey, LinkName, FederatedIdentity, r.links);
    var c2 := TableConflicts(request, RoleKey, RoleName, RoleMapping, r.roles);
    var c3 := TableConflicts(request, GroupKey, GroupName, GroupMembership, r.groups);
    var only1 := Only(LinkKey, Keys(LinkKey, Of(r.links, s)), Of(r.links, d));
    var only2 := Only(RoleKey, Keys(RoleKey, Of(r.roles, s)), Of(r.roles, d));
    var only3 := Only(GroupKey, Keys(GroupKey, Of(r.groups, s)), Of(r.groups, d));
    forall id ensures Conflict(FederatedIdentity, id) in conflicts <==> Conflict(FederatedIdentity, id) in c1
              ensures Conflict(RoleMapping, id) in conflicts <==> Conflict(RoleMapping, id) in c2
              ensures Conflict(GroupMembership, id) in conflicts <==> Conflict(GroupMembership, id) in c3
    {
      OtherKindsAreElsewhere(FederatedIdentity, LinkName, only1, RoleMapping, id);
      OtherKindsAreElsewhere(FederatedIdentity, LinkName, only1, GroupMembership, id);
      OtherKindsAreElsewhere(RoleMapping, RoleName, only2, FederatedIdentity, id);
      OtherKindsAreElsewhere(RoleMapping, RoleName, only2, GroupMembership, id);
      OtherKindsAreElsewhere(GroupMembership, GroupName, only3, FederatedIdentity, id);
      OtherKindsAreElsewhere(GroupMembership, GroupName, only3, RoleMapping, id);
    }
    TableReports(LinkKey, SameProvider, LinkName, FederatedIdentity, Of(r.links, s), Of(r.links, d));
    Renamed(SameProvider, LinkName, (l: Link) => l.provider + ":" + l.subject, FederatedIdentity,
            Of(r.links, s), Of(r.links, d), links, c1, conflicts);
    TableReports(RoleKey, SameRole, RoleName, RoleMapping, Of(r.roles, s), Of(r.roles, d));
    Renamed(SameRole, RoleName, (x: Role) => Scope(x) + ":" + x.name, RoleMapping,
            Of(r.roles, s), Of(r.roles, d), roles, c2, conflicts);
    TableReports(GroupKey, SameGroup, GroupName, GroupMembership, Of(r.groups, s), Of(r.groups, d));
    Renamed(SameGroup, GroupName, (g: Group) => if g.path == "" then g.groupId else g.path, GroupMembership,
            Of(r.groups, s), Of(r.groups, d), groups, c3, conflicts);
  }

  /** In fields alone: a completed merge adds to the survivor exactly the duplicate's
      links to providers it had none of, its roles of a client (or of the realm) and
      name it did not have, and the groups it was not in; the others are conflicts,
      and every item is reported as what it was. */
  lemma CompletedMergeInFields(lower: string -> string, request: Request, auditId: string, r: Realm)
    requires LowerOk(lower) && Merge(lower, request, auditId, r).1.Completed?
    ensures var (r', result) := Merge(lower, request, auditId, r);
            && Placed(SameProvider, request, r.links, r'.links) && Placed(SameRole, request, r.roles, r'.roles)
            && Placed(SameGroup, request, r.groups, r'.groups)
            && ReportedInFields(request, r, result.links, result.roles, result.groups, result.conflicts)
  {
    CompletedMerge(lower, request, auditId, r);
    var (r', result) := Merge(lower, request, auditId, r);
    TablePlaces(LinkKey, SameProvider, request, r.links, r'.links);
    TablePlaces(RoleKey, SameRole, request, r.roles, r'.roles);
    TablePlaces(GroupKey, SameGroup, request, r.groups, r'.groups);
    ReportsInFields(request, r, result.links, result.roles, result.groups, result.conflicts);
  }

  /** The trail of a completed merge, in fields: started, one event per link, role
      and group of the duplicate in order, tombstoned, completed. */
  lemma CompletedTrailInFields(lower: string -> string, request: Request, auditId: string, r: Realm)
      returns (links: seq<Event>, roles: seq<Event>, groups: seq<Event>)
    requires LowerOk(lower) && Merge(lower, request, auditId, r).1.Completed?
    ensures var s, d := request.survivor, request.duplicate;
            && NotedAs(SameProvider, LinkName, FederatedIdentity, request, auditId, Of(r.links, s), Of(r.links, d),
                       links)
            && NotedAs(SameRole, RoleName, RoleMapping, request, auditId, Of(r.roles, s), Of(r.roles, d), roles)
            && NotedAs(SameGroup, GroupName, GroupMembership, request, auditId, Of(r.groups, s), Of(r.groups, d),
                       groups)
    ensures var (r', result) := Merge(lower, request, auditId, r);
            r'.audit == r.audit + ([Note(request, auditId, MergeStarted(result.reason))] + links + roles + groups
                                   + [Note(request, auditId, DuplicateTombstoned)])
                        + [Note(request, auditId, MergeCompleted(result.links, result.roles, result.groups,
                                                                 result.conflicts))]
  {
    CompletedMerge(lower, request, auditId, r);
    var s, d := request.survivor, request.duplicate;
    links := TableEvents(request, auditId, LinkKey, LinkName, FederatedIdentity, r.links);
    roles := TableEvents(request, auditId, RoleKey, RoleName, RoleMapping, r.roles);
    groups := TableEvents(request, auditId, GroupKey, GroupName, GroupMembership, r.groups);
    TableNotes(LinkKey, SameProvider, LinkName, FederatedIdentity, request, auditId, Of(r.links, s), Of(r.links, d));
    TableNotes(RoleKey, SameRole, RoleName, RoleMapping, request, auditId, Of(r.roles, s), Of(r.roles, d));
    TableNotes(GroupKey, SameGroup, GroupName, GroupMembership, request, auditId, Of(r.groups, s), Of(r.groups, d));
  }

  /** Without failures each refusal has its one cause, in the order of the checks. */
  lemma RefusedExactlyWhen(lower: string -> string, request: Request, auditId: string, r: Realm)
    requires LowerOk(lower) && r.outcomes == []
    ensures var (r', result) := Merge(lower, request, auditId, r);
            var s, d := request.survivor, request.duplicate;
            var known := s in r.users && d in r.users;
            var named := s != d && s != "" && d != "";
            && (result.SameUser? <==> s == d)
            && (result.BadUserId? <==> s != d && (s == "" || d == ""))
            && (result.UserNotFound? <==> named && !known)
            && (result.InactiveAccount? <==> named && known && !(r.users[s].active && r.users[d].active))
            && (result.UnverifiedEmail? <==>
                 && named && known && r.users[s].active && r.users[d].active
                 && !ShareSubject(Of(r.links, s), Of(r.links, d)) && SameKnownEmail(lower, r.users[s], r.users[d])
                 && !(r.users[s].emailVerified && r.users[d].emailVerified))
            && (result.NoMatchingRule? <==>
                 && named && known && r.users[s].active && r.users[d].active && !request.explicit
                 && !ShareSubject(Of(r.links, s), Of(r.links, d)) && !SameKnownEmail(lower, r.users[s], r.users[d]))
            && !result.ApiRaised?
  {
    CompletesExactlyWhen(lower, request, auditId, r);
    QuietAdmission(lower, request, r);
    var (r1, admitted) := Admission(lower, request, r);
    if admitted.Completed? { QuietMove(request, auditId, admitted.reason, r1); }
    SharedSubjectFindsAny(Of(r.links, request.survivor), Of(r.links, request.duplicate));
  }
}
