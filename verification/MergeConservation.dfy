/** What a merge conserves: every link, role and group of both accounts, whether
    the merge completes or stops at a failing Admin API call. */
module MergeConservation {
  import opened AdminOutcome
  import opened Matching
  import opened KeyedItems
  import opened Splitting
  import opened AccountMerge
  import Locks = KeyedLocks

  /** No account but the two named ones has a different list. */
  ghost predicate OthersKept<T>(before: map<string, seq<T>>, after: map<string, seq<T>>, request: Request) {
    forall id :: id != request.survivor && id != request.duplicate ==> Of(after, id) == Of(before, id)
  }

  // ---- One loop ----

  /** The table after a move got as far as `added` and `detached`. */
  ghost predicate TableSoFar<T, K>(request: Request, key: T -> K, before: map<string, seq<T>>,
                                   after: map<string, seq<T>>, added: nat, detached: nat) {
    && OthersKept(before, after, request)
    && MovedSoFar(key, Of(before, request.survivor), Of(before, request.duplicate),
                  Of(after, request.survivor), Of(after, request.duplicate), added, detached)
  }

  ghost predicate TableStopped<T, K>(request: Request, key: T -> K, before: map<string, seq<T>>,
                                     after: map<string, seq<T>>) {
    exists added: nat, detached: nat :: TableSoFar(request, key, before, after, added, detached)
  }

  lemma StoppedAt<T, K>(request: Request, key: T -> K, before: map<string, seq<T>>, after: map<string, seq<T>>,
                        added: nat, detached: nat)
    requires TableSoFar(request, key, before, after, added, detached)
    ensures TableStopped(request, key, before, after)
  {
  }

  /** Writing one side of the pair leaves the other side and everyone else. */
  lemma WriteKeepsOthers<T>(request: Request, before: map<string, seq<T>>, table: map<string, seq<T>>, user: string,
                            items: seq<T>)
    requires request.survivor != request.duplicate && OthersKept(before, table, request)
    requires user == request.survivor || user == request.duplicate
    ensures OthersKept(before, table[user := items], request)
    ensures Of(table[user := items], request.survivor) == if user == request.survivor then items
            else Of(table, request.survivor)
    ensures Of(table[user := items], request.duplicate) == if user == request.duplicate then items
            else Of(table, request.duplicate)
  {
  }

  lemma TableAfterDetach<T, K>(request: Request, key: T -> K, before: map<string, seq<T>>, table: map<string, seq<T>>,
                               i: nat, x: T)
    requires request.survivor != request.duplicate
    requires i < |Of(before, request.duplicate)| && x == Of(before, request.duplicate)[i]
    requires TableSoFar(request, key, before, table, i + 1, i)
    ensures TableSoFar(request, key, before,
                       table[request.duplicate := Without(key, {key(x)}, Of(table, request.duplicate))], i + 1, i + 1)
  {
    WriteKeepsOthers(request, before, table, request.duplicate, Without(key, {key(x)}, Of(table, request.duplicate)));
    DetachNext(key, Of(before, request.survivor), Of(before, request.duplicate),
               Of(table, request.survivor), Of(table, request.duplicate), i);
  }

  lemma TableAfterAttach<T, K>(request: Request, key: T -> K, before: map<string, seq<T>>, table: map<string, seq<T>>,
                               i: nat, x: T)
    requires request.survivor != request.duplicate
    requires i < |Of(before, request.duplicate)| && x == Of(before, request.duplicate)[i]
    requires TableSoFar(request, key, before, table, i, i)
    requires key(x) !in Keys(key, Of(before, request.survivor))
    ensures TableSoFar(request, key, before, table[request.survivor := Of(table, request.survivor) + [x]], i + 1, i)
  {
    WriteKeepsOthers(request, before, table, request.survivor, Of(table, request.survivor) + [x]);
    AddNext(key, Of(before, request.survivor), Of(before, request.duplicate),
            Of(table, request.survivor), Of(table, request.duplicate), i);
  }

  lemma TableAtConflict<T, K>(request: Request, key: T -> K, before: map<string, seq<T>>, table: map<string, seq<T>>,
                              i: nat, x: T)
    requires i < |Of(before, request.duplicate)| && x == Of(before, request.duplicate)[i]
    requires TableSoFar(request, key, before, table, i, i)
    requires key(x) in Keys(key, Of(before, request.survivor))
    ensures TableSoFar(request, key, before, table, i + 1, i)
  {
    AddNext(key, Of(before, request.survivor), Of(before, request.duplicate),
            Of(table, request.survivor), Of(table, request.duplicate), i);
  }

  lemma DetachKeepsTable<T, K>(request: Request, key: T -> K, before: map<string, seq<T>>, i: nat, x: T, m: Move<T>)
    requires request.survivor != request.duplicate
    requires i < |Of(before, request.duplicate)| && x == Of(before, request.duplicate)[i]
    requires TableSoFar(request, key, before, m.table, i + 1, i)
    ensures TableStopped(request, key, before, Detach(request, key, x, m).table)
    ensures Detach(request, key, x, m).ok ==>
            TableSoFar(request, key, before, Detach(request, key, x, m).table, i + 1, i + 1)
  {
    TableAfterDetach(request, key, before, m.table, i, x);
    StoppedAt(request, key, before, m.table, i + 1, i);
    StoppedAt(request, key, before, m.table[request.duplicate :=
                                            Without(key, {key(x)}, Of(m.table, request.duplicate))], i + 1, i + 1);
  }

  lemma AttachKeepsTable<T, K>(request: Request, key: T -> K, before: map<string, seq<T>>, i: nat, x: T, m: Move<T>)
    requires request.survivor != request.duplicate
    requires i < |Of(before, request.duplicate)| && x == Of(before, request.duplicate)[i]
    requires TableSoFar(request, key, before, m.table, i, i)
    requires key(x) !in Keys(key, Of(before, request.survivor))
    ensures TableStopped(request, key, before, Attach(request, x, m).table)
    ensures Attach(request, x, m).ok ==> TableSoFar(request, key, before, Attach(request, x, m).table, i + 1, i)
  {
    TableAfterAttach(request, key, before, m.table, i, x);
    StoppedAt(request, key, before, m.table, i, i);
    StoppedAt(request, key, before, m.table[request.survivor := Of(m.table, request.survivor) + [x]], i + 1, i);
  }

  lemma MoveItemKeepsTable<T, K>(request: Request, auditId: string, key: T -> K, name: T -> string, kind: Kind,
                                 before: map<string, seq<T>>, i: nat, x: T, m: Move<T>)
    requires request.survivor != request.duplicate
    requires i < |Of(before, request.duplicate)| && x == Of(before, request.duplicate)[i]
    requires TableSoFar(request, key, before, m.table, i, i)
    ensures var r := MoveItem(request, auditId, key, name, kind, Keys(key, Of(before, request.survivor)), x, m);
            && TableStopped(request, key, before, r.table)
            && (r.ok ==> TableSoFar(request, key, before, r.table, i + 1, i + 1))
  {
    if key(x) in Keys(key, Of(before, request.survivor)) {
      TableAtConflict(request, key, before, m.table, i, x);
      DetachKeepsTable(request, key, before, i, x, m);
    } else {
      AttachKeepsTable(request, key, before, i, x, m);
      var a := Attach(request, x, m);
      if a.ok {
        DetachKeepsTable(request, key, before, i, x, a);
      }
    }
  }

  /** One item takes a state that is good so far to one that is good further on,
      or at least to one the loop may stop at. */
  ghost predicate ItemKeeps<T(!new), K>(request: Request, auditId: string, key: T -> K, name: T -> string, kind: Kind,
                                        taken: set<K>,
                                        items: seq<T>, j: nat, n: Move<T>,
                                        good: (nat, Move<T>) -> bool, stopped: Move<T> -> bool) {
    j < |items| && n.ok && good(j, n) ==>
      var r := MoveItem(request, auditId, key, name, kind, taken, items[j], n);
      stopped(r) && (r.ok ==> good(j + 1, r))
  }

  /** Induction over the loop, for any property of the state by position and
      any weaker one that holds wherever an item stops it. */
  lemma {:induction false} LoopKeeps<T(!new), K>(request: Request, auditId: string, key: T -> K, name: T -> string,
                                                 kind: Kind, taken: set<K>,
                                                 items: seq<T>, i: nat, m: Move<T>,
                                                 good: (nat, Move<T>) -> bool, stopped: Move<T> -> bool)
    requires i <= |items| && m.ok && good(i, m) && stopped(m)
    requires forall j: nat, n: Move<T> ::
             ItemKeeps(request, auditId, key, name, kind, taken, items, j, n, good, stopped)
    ensures var r := MoveItems(request, auditId, key, name, kind, taken, items[i..], m);
            stopped(r) && (r.ok ==> good(|items|, r))
    decreases |items| - i
  {
    if i < |items| {
      var n := MoveItem(request, auditId, key, name, kind, taken, items[i], m);
      assert ItemKeeps(request, auditId, key, name, kind, taken, items, i, m, good, stopped);
      assert items[i..][1..] == items[i + 1..];
      if n.ok {
        LoopKeeps(request, auditId, key, name, kind, taken, items, i + 1, n, good, stopped);
      } else {
        StoppedLoop(request, auditId, key, name, kind, taken, items[i + 1..], n);
      }
    }
  }

  lemma StoppedLoop<T, K>(request: Request, auditId: string, key: T -> K, name: T -> string, kind: Kind,
                          taken: set<K>, items: seq<T>, m: Move<T>)
    requires !m.ok
    ensures MoveItems(request, auditId, key, name, kind, taken, items, m) == m
  {
  }

  /** Wherever the loop stops, the table is a move that got part-way; if it ends
      normally, the move is complete. */
  lemma LoopConserves<T(!new), K>(request: Request, auditId: string, key: T -> K, name: T -> string, kind: Kind,
                                  before: map<string, seq<T>>, m: Move<T>)
    requires request.survivor != request.duplicate && m.ok && m.table == before
    ensures var d0 := Of(before, request.duplicate);
            var r := MoveItems(request, auditId, key, name, kind, Keys(key, Of(before, request.survivor)), d0, m);
            && TableStopped(request, key, before, r.table)
            && (r.ok ==> TableSoFar(request, key, before, r.table, |d0|, |d0|))
  {
    var d0, taken := Of(before, request.duplicate), Keys(key, Of(before, request.survivor));
    var good: (nat, Move<T>) -> bool := (j: nat, n: Move<T>) => TableSoFar(request, key, before, n.table, j, j);
    var stopped: Move<T> -> bool := (n: Move<T>) => TableStopped(request, key, before, n.table);
    UntouchedIsStopped(request, key, before);
    forall j: nat, n: Move<T> ensures ItemKeeps(request, auditId, key, name, kind, taken, d0, j, n, good, stopped) {
      if j < |d0| && n.ok && good(j, n) {
        MoveItemKeepsTable(request, auditId, key, name, kind, before, j, d0[j], n);
      }
    }
    LoopKeeps(request, auditId, key, name, kind, taken, d0, 0, m, good, stopped);
    assert d0[0..] == d0;
  }

  /** What one item adds to each list. */
  ghost function NewName<T, K>(key: T -> K, name: T -> string, taken: set<K>, x: T): seq<string> {
    if key(x) in taken then [] else [name(x)]
  }

  ghost function NewTag<T, K>(key: T -> K, name: T -> string, kind: Kind, taken: set<K>, x: T): seq<Conflict> {
    if key(x) in taken then [Conflict(kind, name(x))] else []
  }

  lemma MoveItemReports<T, K>(request: Request, auditId: string, key: T -> K, name: T -> string, kind: Kind,
                              taken: set<K>, x: T, m: Move<T>)
    ensures var r := MoveItem(request, auditId, key, name, kind, taken, x, m);
            && (!r.ok ==> r.audit == m.audit)
            && (r.ok ==>
                 && r.moved == m.moved + NewName(key, name, taken, x)
                 && r.conflicts == m.conflicts + NewTag(key, name, kind, taken, x)
                 && r.audit == m.audit + [ItemNote(request, auditId, key, name, kind, taken, x)])
  {
    assert m.moved + [] == m.moved && m.conflicts + [] == m.conflicts;
  }

  lemma NamesNext<T, K>(key: T -> K, name: T -> string, taken: set<K>, done: seq<T>, x: T)
    ensures Mapped(name, Without(key, taken, done + [x])) ==
            Mapped(name, Without(key, taken, done)) + NewName(key, name, taken, x)
  {
    Snoc(key, taken, name, done, x);
    Snoc(key, taken, name, Without(key, taken, done), x);
    assert Without(key, taken, done) + [] == Without(key, taken, done);
  }

  lemma TagSnoc<T>(kind: Kind, name: T -> string, items: seq<T>, x: T)
    ensures Tagged(kind, name, items + [x]) == Tagged(kind, name, items) + [Conflict(kind, name(x))]
  {
    assert (items + [x])[..|items|] == items;
  }

  lemma TagsNext<T, K>(key: T -> K, name: T -> string, kind: Kind, taken: set<K>, done: seq<T>, x: T)
    ensures Tagged(kind, name, Only(key, taken, done + [x]))
         == Tagged(kind, name, Only(key, taken, done)) + NewTag(key, name, kind, taken, x)
  {
    Snoc(key, taken, name, done, x);
    var only := Only(key, taken, done);
    if key(x) in taken {
      TagSnoc(kind, name, only, x);
    } else {
      assert Only(key, taken, done + [x]) == only;
    }
  }

  lemma EventsNext<T, K>(request: Request, auditId: string, key: T -> K, name: T -> string, kind: Kind, taken: set<K>,
                         done: seq<T>, x: T)
    ensures ItemEvents(request, auditId, key, name, kind, taken, done + [x])
         == ItemEvents(request, auditId, key, name, kind, taken, done) +
             [ItemNote(request, auditId, key, name, kind, taken, x)]
  {
    assert (done + [x])[..|done|] == done;
  }

  /** What a loop must have written down once it has handled `items`. */
  ghost predicate Reported<T, K>(request: Request, auditId: string, key: T -> K, name: T -> string, kind: Kind,
                                 taken: set<K>,
                                 items: seq<T>, m: Move<T>, conflicts0: seq<Conflict>, audit0: seq<Event>) {
    && m.moved == Mapped(name, Without(key, taken, items))
    && m.conflicts == conflicts0 + Tagged(kind, name, Only(key, taken, items))
    && m.audit == audit0 + ItemEvents(request, auditId, key, name, kind, taken, items)
  }

  lemma ReportNext<T, K>(request: Request, auditId: string, key: T -> K, name: T -> string, kind: Kind, taken: set<K>,
                         done: seq<T>, x: T, m: Move<T>, conflicts0: seq<Conflict>, audit0: seq<Event>)
    requires Reported(request, auditId, key, name, kind, taken, done, m, conflicts0, audit0)
    requires MoveItem(request, auditId, key, name, kind, taken, x, m).ok
    ensures Reported(request, auditId, key, name, kind, taken, done + [x],
                     MoveItem(request, auditId, key, name, kind, taken, x, m), conflicts0, audit0)
  {
    MoveItemReports(request, auditId, key, name, kind, taken, x, m);
    NamesNext(key, name, taken, done, x);
    TagsNext(key, name, kind, taken, done, x);
    EventsNext(request, auditId, key, name, kind, taken, done, x);
    Reassociate(conflicts0, Tagged(kind, name, Only(key, taken, done)), NewTag(key, name, kind, taken, x));
    Reassociate(audit0, ItemEvents(request, auditId, key, name, kind, taken, done),
                [ItemNote(request, auditId, key, name, kind, taken, x)]);
  }

  /** What the loop writes down: each item of the duplicate, in order, in exactly
      one of the two lists and in exactly one event. */
  lemma LoopReports<T(!new), K>(request: Request, auditId: string, key: T -> K, name: T -> string, kind: Kind,
                                taken: set<K>, items: seq<T>, m: Move<T>)
    requires m.ok && m.moved == []
    ensures var r := MoveItems(request, auditId, key, name, kind, taken, items, m);
            m.audit <= r.audit && (r.ok ==>
                                   Reported(request, auditId, key, name, kind, taken, items, r, m.conflicts, m.audit))
  {
    var good: (nat, Move<T>) -> bool :=
      (j: nat, n: Move<T>) =>
          j <= |items| && Reported(request, auditId, key, name, kind, taken, items[..j], n, m.conflicts, m.audit);
    var stopped: Move<T> -> bool := (n: Move<T>) => m.audit <= n.audit;
    forall j: nat, n: Move<T>
      ensures ItemKeeps(request, auditId, key, name, kind, taken, items, j, n, good, stopped) {
      if j < |items| && n.ok && good(j, n) {
        ItemReports(request, auditId, key, name, kind, taken, items, j, n, m.conflicts, m.audit);
      }
    }
    assert good(0, m);
    LoopKeeps(request, auditId, key, name, kind, taken, items, 0, m, good, stopped);
    assert items[0..] == items && items[..|items|] == items;
  }

  lemma ItemReports<T, K>(request: Request, auditId: string, key: T -> K, name: T -> string, kind: Kind,
                          taken: set<K>,
                          items: seq<T>, j: nat, n: Move<T>, conflicts0: seq<Conflict>, audit0: seq<Event>)
    requires j < |items| && Reported(request, auditId, key, name, kind, taken, items[..j], n, conflicts0, audit0)
    ensures var r := MoveItem(request, auditId, key, name, kind, taken, items[j], n);
            audit0 <= r.audit && (r.ok ==>
                                  Reported(request, auditId, key, name, kind, taken, items[..j + 1], r, conflicts0,
                                           audit0))
  {
    MoveItemReports(request, auditId, key, name, kind, taken, items[j], n);
    if MoveItem(request, auditId, key, name, kind, taken, items[j], n).ok {
      ReportNext(request, auditId, key, name, kind, taken, items[..j], items[j], n, conflicts0, audit0);
      assert items[..j] + [items[j]] == items[..j + 1];
    }
  }

  // ---- One kind of item, start to finish ----

  /** The survivor has all it had plus exactly the duplicate's non-conflicting
      items, the duplicate has none, and nobody else is touched. */
  ghost predicate TableMerged<T, K>(request: Request, key: T -> K, before: map<string, seq<T>>,
                                    after: map<string, seq<T>>) {
    && OthersKept(before, after, request)
    && Of(after, request.duplicate) == []
    && Of(after, request.survivor)
       == Of(before, request.survivor) + Without(key, Keys(key, Of(before, request.survivor)),
                                                 Of(before, request.duplicate))
  }

  /** The items a merge reports as conflicts, and the events it leaves for one kind. */
  ghost function TableConflicts<T, K>(request: Request, key: T -> K, name: T -> string, kind: Kind,
                                      table: map<string, seq<T>>): seq<Conflict> {
    Tagged(kind, name, Only(key, Keys(key, Of(table, request.survivor)), Of(table, request.duplicate)))
  }

  ghost function TableNames<T, K>(request: Request, key: T -> K, name: T -> string,
                                  table: map<string, seq<T>>): seq<string> {
    Mapped(name, Without(key, Keys(key, Of(table, request.survivor)), Of(table, request.duplicate)))
  }

  ghost function TableEvents<T, K>(request: Request, auditId: string, key: T -> K, name: T -> string, kind: Kind,
                                   table: map<string, seq<T>>): seq<Event> {
    ItemEvents(request, auditId, key, name, kind, Keys(key, Of(table, request.survivor)),
               Of(table, request.duplicate))
  }

  lemma LoopSpec<T(!new), K>(request: Request, auditId: string, key: T -> K, name: T -> string, kind: Kind,
                             table: map<string, seq<T>>, outcomes: seq<Outcome>, conflicts: seq<Conflict>,
                                 audit: seq<Event>)
    requires request.survivor != request.duplicate
    ensures var m := MoveItems(request, auditId, key, name, kind, Keys(key, Of(table, request.survivor)),
                               Of(table, request.duplicate), Move(table, outcomes, [], conflicts, audit, true));
            && TableStopped(request, key, table, m.table)
            && audit <= m.audit
            && (m.ok ==>
                 && TableMerged(request, key, table, m.table)
                 && m.moved == TableNames(request, key, name, table)
                 && m.conflicts == conflicts + TableConflicts(request, key, name, kind, table)
                 && m.audit == audit + TableEvents(request, auditId, key, name, kind, table))
  {
    var s0, d0 := Of(table, request.survivor), Of(table, request.duplicate);
    var m0 := Move(table, outcomes, [], conflicts, audit, true);
    var m := MoveItems(request, auditId, key, name, kind, Keys(key, s0), d0, m0);
    LoopConserves(request, auditId, key, name, kind, table, m0);
    LoopReports(request, auditId, key, name, kind, Keys(key, s0), d0, m0);
    if m.ok {
      MoveDone(key, s0, d0, Of(m.table, request.survivor), Of(m.table, request.duplicate));
    }
  }

  lemma UntouchedIsStopped<T, K>(request: Request, key: T -> K, table: map<string, seq<T>>)
    ensures TableSoFar(request, key, table, table, 0, 0) && TableStopped(request, key, table, table)
  {
    NotStarted(key, Of(table, request.survivor), Of(table, request.duplicate));
    assert TableSoFar(request, key, table, table, 0, 0);
  }

  // ---- The whole merge ----

  /** Wherever a merge ends: each kind of item is a move that got part-way, only
      the duplicate's record can have changed, and the trail only grew. */
  ghost predicate Conserved(request: Request, r: Realm, r': Realm) {
    && TableStopped(request, LinkKey, r.links, r'.links)
    && TableStopped(request, RoleKey, r.roles, r'.roles)
    && TableStopped(request, GroupKey, r.groups, r'.groups)
    && (r'.users == r.users || (request.duplicate in r.users &&
                                r'.users == r.users[request.duplicate :=
                                                    r.users[request.duplicate].(active := false)]))
    && (r'.mergedInto == r.mergedInto || r'.mergedInto == r.mergedInto[request.duplicate := request.survivor])
    && r.audit <= r'.audit
  }

  /** What one stage does to its own kind of item: a relation between the merge
      before and after it.  Nothing else of the realm changes. */
  ghost predicate StageOf<T, K>(request: Request, auditId: string, key: T -> K, name: T -> string, kind: Kind,
                                p: Progress, q: Progress,
                                before: map<string, seq<T>>, after: map<string, seq<T>>, names: seq<string>) {
    && TableStopped(request, key, before, after)
    && p.realm.audit <= q.realm.audit
    && q.realm.users == p.realm.users && q.realm.mergedInto == p.realm.mergedInto
    && (q.ok ==>
         && p.ok && TableMerged(request, key, before, after)
         && names == TableNames(request, key, name, before)
         && q.conflicts == p.conflicts + TableConflicts(request, key, name, kind, before)
         && q.realm.audit == p.realm.audit + TableEvents(request, auditId, key, name, kind, before))
  }

  lemma LinksStageSpec(request: Request, auditId: string, p: Progress, q: Progress)
    requires request.survivor != request.duplicate && q == LinksStage(request, auditId, p)
    ensures StageOf(request, auditId, LinkKey, LinkName, FederatedIdentity, p, q, p.realm.links, q.realm.links,
                    q.links)
    ensures q.realm.roles == p.realm.roles && q.realm.groups == p.realm.groups
  {
    UntouchedIsStopped(request, LinkKey, p.realm.links);
    LoopSpec(request, auditId, LinkKey, LinkName, FederatedIdentity, p.realm.links, p.realm.outcomes, p.conflicts,
             p.realm.audit);
  }

  lemma RolesStageSpec(request: Request, auditId: string, p: Progress, q: Progress)
    requires request.survivor != request.duplicate && q == RolesStage(request, auditId, p)
    ensures StageOf(request, auditId, RoleKey, RoleName, RoleMapping, p, q, p.realm.roles, q.realm.roles, q.roles)
    ensures q.realm.links == p.realm.links && q.realm.groups == p.realm.groups && q.links == p.links
  {
    var p2 := AfterRead(AfterRead(p));
    UntouchedIsStopped(request, RoleKey, p.realm.roles);
    LoopSpec(request, auditId, RoleKey, RoleName, RoleMapping, p.realm.roles, p2.realm.outcomes, p.conflicts,
             p.realm.audit);
  }

  lemma GroupsStageSpec(request: Request, auditId: string, p: Progress, q: Progress)
    requires request.survivor != request.duplicate && q == GroupsStage(request, auditId, p)
    ensures StageOf(request, auditId, GroupKey, GroupName, GroupMembership, p, q, p.realm.groups, q.realm.groups,
                    q.groups)
    ensures q.realm.links == p.realm.links && q.realm.roles == p.realm.roles && q.links == p.links &&
            q.roles == p.roles
  {
    var p2 := AfterRead(AfterRead(p));
    UntouchedIsStopped(request, GroupKey, p.realm.groups);
    LoopSpec(request, auditId, GroupKey, GroupName, GroupMembership, p.realm.groups, p2.realm.outcomes, p.conflicts,
             p.realm.audit);
  }

  /** What the tombstone stage does: pointer first, then the flag. */
  ghost predicate TombstoneOf(request: Request, auditId: string, p: Progress, q: Progress) {
    && q.realm.links == p.realm.links && q.realm.roles == p.realm.roles && q.realm.groups == p.realm.groups
    && q.links == p.links && q.roles == p.roles && q.groups == p.groups && q.conflicts == p.conflicts
    && p.realm.audit <= q.realm.audit
    && (q.realm.mergedInto == p.realm.mergedInto ||
        q.realm.mergedInto == p.realm.mergedInto[request.duplicate := request.survivor])
    && (q.realm.users == p.realm.users || (request.duplicate in p.realm.users
          && q.realm.users == p.realm.users[request.duplicate := p.realm.users[request.duplicate].(active := false)]))
    && (q.ok ==>
         && p.ok
         && q.realm.mergedInto == p.realm.mergedInto[request.duplicate := request.survivor]
         && (request.duplicate in q.realm.users ==> !q.realm.users[request.duplicate].active)
         && q.realm.audit == p.realm.audit + [Note(request, auditId, DuplicateTombstoned)])
  }

  lemma TombstoneStageSpec(request: Request, auditId: string, p: Progress, q: Progress)
    requires q == TombstoneStage(request, auditId, p)
    ensures TombstoneOf(request, auditId, p, q)
  {
  }

  /** The trail of a merge up to its tombstone: the start, one event per item of
      the duplicate, the tombstone. */
  ghost function Trail(request: Request, auditId: string, reason: Reason, r: Realm): seq<Event> {
    [Note(request, auditId, MergeStarted(reason))]
    + TableEvents(request, auditId, LinkKey, LinkName, FederatedIdentity, r.links)
    + TableEvents(request, auditId, RoleKey, RoleName, RoleMapping, r.roles)
    + TableEvents(request, auditId, GroupKey, GroupName, GroupMembership, r.groups)
    + [Note(request, auditId, DuplicateTombstoned)]
  }

  /** Everything a completed merge promises about the realm it leaves and the
      lists it reports. */
  ghost predicate FullyMerged(request: Request, r: Realm, r': Realm, links: seq<string>, roles: seq<string>,
                              groups: seq<string>, conflicts: seq<Conflict>) {
    && TableMerged(request, LinkKey, r.links, r'.links)
    && TableMerged(request, RoleKey, r.roles, r'.roles)
    && TableMerged(request, GroupKey, r.groups, r'.groups)
    && r'.mergedInto == r.mergedInto[request.duplicate := request.survivor]
    && (request.duplicate in r'.users ==> !r'.users[request.duplicate].active)
    && links == TableNames(request, LinkKey, LinkName, r.links)
    && roles == TableNames(request, RoleKey, RoleName, r.roles)
    && groups == TableNames(request, GroupKey, GroupName, r.groups)
    && conflicts == TableConflicts(request, LinkKey, LinkName, FederatedIdentity, r.links)
                  + TableConflicts(request, RoleKey, RoleName, RoleMapping, r.roles)
                  + TableConflicts(request, GroupKey, GroupName, GroupMembership, r.groups)
  }

  lemma RegroupTrail<T>(a: seq<T>, b: seq<T>, c: seq<T>, d: seq<T>, e: seq<T>, f: seq<T>)
    ensures a + b + c + d + e + f == a + (b + c + d + e + f)
  {
  }

  lemma StagesCompose(request: Request, auditId: string, reason: Reason, r: Realm, p0: Progress, p1: Progress,
                      p2: Progress, p3: Progress, p4: Progress)
    requires p0.realm == r.(audit := r.audit + [Note(request, auditId, MergeStarted(reason))]) && p0.conflicts == []
    requires StageOf(request, auditId, LinkKey, LinkName, FederatedIdentity, p0, p1, p0.realm.links, p1.realm.links,
                     p1.links)
    requires p1.realm.roles == p0.realm.roles && p1.realm.groups == p0.realm.groups
    requires StageOf(request, auditId, RoleKey, RoleName, RoleMapping, p1, p2, p1.realm.roles, p2.realm.roles,
                     p2.roles)
    requires p2.realm.links == p1.realm.links && p2.realm.groups == p1.realm.groups && p2.links == p1.links
    requires StageOf(request, auditId, GroupKey, GroupName, GroupMembership, p2, p3, p2.realm.groups, p3.realm.groups,
                     p3.groups)
    requires p3.realm.links == p2.realm.links && p3.realm.roles == p2.realm.roles && p3.links == p2.links &&
             p3.roles == p2.roles
    requires TombstoneOf(request, auditId, p3, p4)
    ensures Conserved(request, r, p4.realm)
    ensures p4.ok ==> FullyMerged(request, r, p4.realm, p4.links, p4.roles, p4.groups, p4.conflicts)
    ensures p4.ok ==> p4.realm.audit == r.audit + Trail(request, auditId, reason, r)
  {
    assert r.audit <= p0.realm.audit;
    RegroupTrail(r.audit, [Note(request, auditId, MergeStarted(reason))],
                 TableEvents(request, auditId, LinkKey, LinkName, FederatedIdentity, r.links),
                 TableEvents(request, auditId, RoleKey, RoleName, RoleMapping, r.roles),
                 TableEvents(request, auditId, GroupKey, GroupName, GroupMembership, r.groups),
                 [Note(request, auditId, DuplicateTombstoned)]);
    assert [] + TableConflicts(request, LinkKey, LinkName, FederatedIdentity, r.links)
        == TableConflicts(request, LinkKey, LinkName, FederatedIdentity, r.links);
  }

  lemma MoveAndTombstoneSpec(request: Request, auditId: string, reason: Reason, r: Realm, p4: Progress)
    requires request.survivor != request.duplicate && p4 == MoveAndTombstone(request, auditId, reason, r)
    ensures Conserved(request, r, p4.realm)
    ensures p4.ok ==> FullyMerged(request, r, p4.realm, p4.links, p4.roles, p4.groups, p4.conflicts)
    ensures p4.ok ==> p4.realm.audit == r.audit + Trail(request, auditId, reason, r)
  {
    var p0 := Progress(r.(audit := r.audit + [Note(request, auditId, MergeStarted(reason))]), [], [], [], [], true);
    var p1 := LinksStage(request, auditId, p0);
    var p2 := RolesStage(request, auditId, p1);
    var p3 := GroupsStage(request, auditId, p2);
    LinksStageSpec(request, auditId, p0, p1);
    RolesStageSpec(request, auditId, p1, p2);
    GroupsStageSpec(request, auditId, p2, p3);
    TombstoneStageSpec(request, auditId, p3, p4);
    StagesCompose(request, auditId, reason, r, p0, p1, p2, p3, p4);
  }

  lemma AdmissionReadsOnly(lower: string -> string, request: Request, r: Realm)
    ensures Admission(lower, request, r).0 == r.(outcomes := Admission(lower, request, r).0.outcomes)
    ensures Admission(lower, request, r).1.Completed? ==>
              && request.survivor in r.users && r.users[request.survivor].active
              && request.duplicate in r.users && r.users[request.duplicate].active
              && Judge(lower, r.users[request.survivor], Of(r.links, request.survivor), r.users[request.duplicate],
                       Of(r.links, request.duplicate), request.explicit) ==
                           Allowed(Admission(lower, request, r).1.reason)
  {
  }

  /** A merge that reports completion, in every realm and whatever calls failed
      along the way elsewhere: both accounts were active, the matching policy
      allowed it, all items moved or conflicted exactly once, and the trail holds
      one event per item between the start and the completion. */
  lemma CompletedMerge(lower: string -> string, request: Request, auditId: string, r: Realm)
    requires LowerOk(lower) && Merge(lower, request, auditId, r).1.Completed?
    ensures var (r', result) := Merge(lower, request, auditId, r);
            && FullyMerged(request, r, r', result.links, result.roles, result.groups, result.conflicts)
            && r'.audit == r.audit + Trail(request, auditId, result.reason, r)
                         + [Note(request, auditId, MergeCompleted(result.links, result.roles, result.groups,
                                                                  result.conflicts))]
    ensures request.survivor in r.users && r.users[request.survivor].active && request.duplicate in r.users &&
            r.users[request.duplicate].active
    ensures var s, d := r.users[request.survivor], r.users[request.duplicate];
            || ShareSubject(Of(r.links, request.survivor), Of(r.links, request.duplicate))
            || (SameKnownEmail(lower, s, d) && s.emailVerified && d.emailVerified)
            || (request.explicit && !SameKnownEmail(lower, s, d))
  {
    AdmissionReadsOnly(lower, request, r);
    var (r1, admitted) := Admission(lower, request, r);
    var p := MoveAndTombstone(request, auditId, admitted.reason, r1);
    MoveAndTombstoneSpec(request, auditId, admitted.reason, r1, p);
    AllowedExactlyWhen(lower, r.users[request.survivor], Of(r.links, request.survivor), r.users[request.duplicate],
                       Of(r.links, request.duplicate), request.explicit);
  }

  // ---- A merge that no failing call disturbs ----

  lemma QuietLoop<T(!new), K>(request: Request, auditId: string, key: T -> K, name: T -> string, kind: Kind,
                              taken: set<K>, items: seq<T>, m: Move<T>)
    requires m.ok && m.outcomes == []
    ensures var r := MoveItems(request, auditId, key, name, kind, taken, items, m); r.ok && r.outcomes == []
  {
    var good: (nat, Move<T>) -> bool := (j: nat, n: Move<T>) => n.outcomes == [];
    var stopped: Move<T> -> bool := (n: Move<T>) => n.ok && n.outcomes == [];
    forall j: nat, n: Move<T>
      ensures ItemKeeps(request, auditId, key, name, kind, taken, items, j, n, good, stopped) {}
    LoopKeeps(request, auditId, key, name, kind, taken, items, 0, m, good, stopped);
    assert items[0..] == items;
  }

  predicate Quiet(p: Progress) { p.ok && p.realm.outcomes == [] }

  lemma QuietStages(request: Request, auditId: string, p: Progress)
    requires Quiet(p)
    ensures Quiet(LinksStage(request, auditId, p)) && Quiet(RolesStage(request, auditId, p)) &&
            Quiet(GroupsStage(request, auditId, p))
    ensures Quiet(TombstoneStage(request, auditId, p))
  {
    var r := p.realm;
    QuietLoop(request, auditId, LinkKey, LinkName, FederatedIdentity, Keys(LinkKey, Of(r.links, request.survivor)),
              Of(r.links, request.duplicate), Move(r.links, [], [], p.conflicts, r.audit, true));
    QuietLoop(request, auditId, RoleKey, RoleName, RoleMapping, Keys(RoleKey, Of(r.roles, request.survivor)),
              Of(r.roles, request.duplicate), Move(r.roles, [], [], p.conflicts, r.audit, true));
    QuietLoop(request, auditId, GroupKey, GroupName, GroupMembership, Keys(GroupKey, Of(r.groups, request.survivor)),
              Of(r.groups, request.duplicate), Move(r.groups, [], [], p.conflicts, r.audit, true));
  }

  lemma QuietMove(request: Request, auditId: string, reason: Reason, r: Realm)
    requires r.outcomes == []
    ensures MoveAndTombstone(request, auditId, reason, r).ok
  {
    var p0 := Progress(r.(audit := r.audit + [Note(request, auditId, MergeStarted(reason))]), [], [], [], [], true);
    var p1 := LinksStage(request, auditId, p0);
    var p2 := RolesStage(request, auditId, p1);
    var p3 := GroupsStage(request, auditId, p2);
    QuietStages(request, auditId, p0);
    QuietStages(request, auditId, p1);
    QuietStages(request, auditId, p2);
    QuietStages(request, auditId, p3);
  }

  /** When no call fails, a merge completes exactly for two different, named,
      existing, active accounts that the matching policy lets merge. */
  lemma CompletesExactlyWhen(lower: string -> string, request: Request, auditId: string, r: Realm)
    requires LowerOk(lower) && r.outcomes == []
    ensures Merge(lower, request, auditId, r).1.Completed? <==>
              && request.survivor != request.duplicate && request.survivor != "" && request.duplicate != ""
              && request.survivor in r.users && r.users[request.survivor].active
              && request.duplicate in r.users && r.users[request.duplicate].active
              && (|| ShareSubject(Of(r.links, request.survivor), Of(r.links, request.duplicate))
                  || (SameKnownEmail(lower, r.users[request.survivor], r.users[request.duplicate])
                      && r.users[request.survivor].emailVerified && r.users[request.duplicate].emailVerified)
                  || (request.explicit && !SameKnownEmail(lower, r.users[request.survivor],
                                                          r.users[request.duplicate])))
  {
    var (r1, admitted) := Admission(lower, request, r);
    AdmissionReadsOnly(lower, request, r);
    QuietAdmission(lower, request, r);
    if admitted.Completed? {
      QuietMove(request, auditId, admitted.reason, r1);
    }
    if request.survivor in r.users && request.duplicate in r.users {
      AllowedExactlyWhen(lower, r.users[request.survivor], Of(r.links, request.survivor), r.users[request.duplicate],
                         Of(r.links, request.duplicate), request.explicit);
    }
  }

  lemma QuietAdmission(lower: string -> string, request: Request, r: Realm)
    requires r.outcomes == []
    ensures var (r1, admitted) := Admission(lower, request, r);
            && r1 == r
            && (admitted.Completed? <==>
                 && request.survivor in r.users && r.users[request.survivor].active
                 && request.duplicate in r.users && r.users[request.duplicate].active
                 && Judge(lower, r.users[request.survivor], Of(r.links, request.survivor), r.users[request.duplicate],
                          Of(r.links, request.duplicate), request.explicit).Allowed?)
  {}

  /** However a merge ends, including at a failing call: what it had not finished
      is still recoverable, and a refusal changes nothing at all. */
  lemma EveryMergeConserves(lower: string -> string, request: Request, auditId: string, r: Realm)
    ensures var (r', result) := Merge(lower, request, auditId, r);
            && Conserved(request, r, r')
            && (!result.Completed? && !result.ApiRaised? ==> r' == r.(outcomes := r'.outcomes))
  {
    UntouchedIsStopped(request, LinkKey, r.links);
    UntouchedIsStopped(request, RoleKey, r.roles);
    UntouchedIsStopped(request, GroupKey, r.groups);
    AdmissionReadsOnly(lower, request, r);
    var (r1, admitted) := Admission(lower, request, r);
    if request.survivor != request.duplicate &&
        !Locks.NormaliseUserIds([request.survivor, request.duplicate]).BadIds? && admitted.Completed? {
      var p := MoveAndTombstone(request, auditId, admitted.reason, r1);
      MoveAndTombstoneSpec(request, auditId, admitted.reason, r1, p);
    }
  }

  /** With one item per key on the duplicate, no item of either account is ever
      lost, at whatever call the merge stops. */
  lemma NoItemIsLost<T, K>(request: Request, key: T -> K, before: map<string, seq<T>>, after: map<string, seq<T>>,
                           x: T)
    requires TableStopped(request, key, before, after) && Unique(key, Of(before, request.duplicate))
    ensures x in Of(before, request.survivor) ==> x in Of(after, request.survivor)
    ensures x in Of(before, request.duplicate) ==>
              x in Of(after, request.survivor) || x in Of(after, request.duplicate) ||
                  key(x) in Keys(key, Of(before, request.survivor))
  {
    var added: nat, detached: nat :| TableSoFar(request, key, before, after, added, detached);
    assert Stopped(key, Of(before, request.survivor), Of(before, request.duplicate), Of(after, request.survivor),
                   Of(after, request.duplicate));
    if x in Of(before, request.duplicate) {
      NothingLost(key, Of(before, request.survivor), Of(before, request.duplicate), Of(after, request.survivor),
                  Of(after, request.duplicate), x);
    }
  }

  /** A completed move keeps one item per key, and splits the duplicate's items
      into moved and conflicting with none in both and none in neither. */
  lemma MergedTableIsSound<T, K>(request: Request, key: T -> K, before: map<string, seq<T>>,
                                 after: map<string, seq<T>>)
    requires TableMerged(request, key, before, after)
    requires Unique(key, Of(before, request.survivor)) && Unique(key, Of(before, request.duplicate))
    ensures Unique(key, Of(after, request.survivor))
    ensures var taken, items := Keys(key, Of(before, request.survivor)), Of(before, request.duplicate);
            multiset(Without(key, taken, items)) + multiset(Only(key, taken, items)) == multiset(items)
  {
    MoveKeepsUnique(key, Of(before, request.survivor), Of(before, request.duplicate));
    HalvesPartition(key, Keys(key, Of(before, request.survivor)), Of(before, request.duplicate));
  }
}
