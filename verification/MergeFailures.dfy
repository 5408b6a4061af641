/** What a merge does about a failing request: it goes on exactly as long as every
    request it has made succeeded. */
module MergeFailures {
  import opened AdminOutcome
  import opened AccountMerge
  import opened KeyedItems
  import opened Matching
  import opened MergeConservation
  import Locks = KeyedLocks

  /** The requests made are the outcomes used up: all successful, or, if the work
      stopped, all but the last one. */
  ghost predicate Took(before: seq<Outcome>, after: seq<Outcome>, ok: bool) {
    && |after| <= |before| && after == before[|before| - |after|..]
    && var n := |before| - |after|;
       && (forall i :: 0 <= i < n - 1 ==> before[i] == Succeeds)
       && (if ok then n > 0 ==> before[n - 1] == Succeeds else n > 0 && before[n - 1] != Succeeds)
  }

  lemma TookOne(before: seq<Outcome>)
    ensures Took(before, Rest(before), First(before) == Succeeds)
  {}

  lemma TookThen(before: seq<Outcome>, between: seq<Outcome>, after: seq<Outcome>, ok: bool)
    requires Took(before, between, true) && Took(between, after, ok)
    ensures Took(before, after, ok)
  {
    var m, n := |before| - |between|, |before| - |after|;
    assert after == before[n..];
    forall i | 0 <= i < n - 1 ensures before[i] == Succeeds {
      if i >= m { assert before[i] == between[i - m]; }
    }
    if n > m { assert before[n - 1] == between[n - 1 - m]; }
  }

  lemma ItemTook<T, K>(request: Request, auditId: string, key: T -> K, name: T -> string, kind: Kind, taken: set<K>,
                       x: T, m: Move<T>)
    requires m.ok
    ensures var r := MoveItem(request, auditId, key, name, kind, taken, x, m); Took(m.outcomes, r.outcomes, r.ok)
  {
    TookOne(m.outcomes);
    if key(x) !in taken {
      var a := Attach(request, x, m);
      if a.ok {
        TookOne(a.outcomes);
        TookThen(m.outcomes, a.outcomes, Rest(a.outcomes), First(a.outcomes) == Succeeds);
      }
    }
  }

  lemma LoopTook<T(!new), K>(request: Request, auditId: string, key: T -> K, name: T -> string,
                             kind: Kind, taken: set<K>, items: seq<T>, m: Move<T>)
    requires m.ok
    ensures var r := MoveItems(request, auditId, key, name, kind, taken, items, m); Took(m.outcomes, r.outcomes, r.ok)
  {
    var start := m.outcomes;
    var good: (nat, Move<T>) -> bool := (j: nat, n: Move<T>) => Took(start, n.outcomes, true);
    var stopped: Move<T> -> bool := (n: Move<T>) => Took(start, n.outcomes, n.ok);
    forall j: nat, n: Move<T>
      ensures ItemKeeps(request, auditId, key, name, kind, taken, items, j, n, good, stopped) {
      if j < |items| && n.ok && good(j, n) {
        var r := MoveItem(request, auditId, key, name, kind, taken, items[j], n);
        ItemTook(request, auditId, key, name, kind, taken, items[j], n);
        TookThen(start, n.outcomes, r.outcomes, r.ok);
      }
    }
    LoopKeeps(request, auditId, key, name, kind, taken, items, 0, m, good, stopped);
    assert items[0..] == items;
  }

  // ---- The stages ----

  /** The work so far, from these outcomes on. */
  ghost predicate SoFar(start: seq<Outcome>, p: Progress) { Took(start, p.realm.outcomes, p.ok) }

  lemma ReadTook(start: seq<Outcome>, p: Progress)
    requires SoFar(start, p)
    ensures SoFar(start, AfterRead(p))
  {
    if p.ok {
      TookOne(p.realm.outcomes);
      TookThen(start, p.realm.outcomes, Rest(p.realm.outcomes), First(p.realm.outcomes) == Succeeds);
    }
  }

  lemma LinksTook(request: Request, auditId: string, start: seq<Outcome>, p: Progress)
    requires SoFar(start, p)
    ensures SoFar(start, LinksStage(request, auditId, p))
  {
    if p.ok {
      var r, q := p.realm, LinksStage(request, auditId, p);
      LoopTook(request, auditId, LinkKey, LinkName, FederatedIdentity, Keys(LinkKey, Of(r.links, request.survivor)),
               Of(r.links, request.duplicate), Move(r.links, r.outcomes, [], p.conflicts, r.audit, true));
      TookThen(start, r.outcomes, q.realm.outcomes, q.ok);
    }
  }

  lemma RolesTook(request: Request, auditId: string, start: seq<Outcome>, p0: Progress)
    requires SoFar(start, p0)
    ensures SoFar(start, RolesStage(request, auditId, p0))
  {
    ReadTook(start, p0);
    ReadTook(start, AfterRead(p0));
    var p := AfterRead(AfterRead(p0));
    if p.ok {
      var r, q := p.realm, RolesStage(request, auditId, p0);
      LoopTook(request, auditId, RoleKey, RoleName, RoleMapping, Keys(RoleKey, Of(r.roles, request.survivor)),
               Of(r.roles, request.duplicate), Move(r.roles, r.outcomes, [], p.conflicts, r.audit, true));
      TookThen(start, r.outcomes, q.realm.outcomes, q.ok);
    }
  }

  lemma GroupsTook(request: Request, auditId: string, start: seq<Outcome>, p0: Progress)
    requires SoFar(start, p0)
    ensures SoFar(start, GroupsStage(request, auditId, p0))
  {
    ReadTook(start, p0);
    ReadTook(start, AfterRead(p0));
    var p := AfterRead(AfterRead(p0));
    if p.ok {
      var r, q := p.realm, GroupsStage(request, auditId, p0);
      LoopTook(request, auditId, GroupKey, GroupName, GroupMembership, Keys(GroupKey, Of(r.groups, request.survivor)),
               Of(r.groups, request.duplicate), Move(r.groups, r.outcomes, [], p.conflicts, r.audit, true));
      TookThen(start, r.outcomes, q.realm.outcomes, q.ok);
    }
  }

  lemma TombstoneTook(request: Request, auditId: string, start: seq<Outcome>, p: Progress)
    requires SoFar(start, p)
    ensures SoFar(start, TombstoneStage(request, auditId, p))
  {
    if p.ok {
      var outcomes := p.realm.outcomes;
      TookOne(outcomes);
      TookThen(start, outcomes, Rest(outcomes), First(outcomes) == Succeeds);
      if First(outcomes) == Succeeds {
        TookOne(Rest(outcomes));
        TookThen(start, Rest(outcomes), Rest(Rest(outcomes)), First(Rest(outcomes)) == Succeeds);
      }
    }
  }

  lemma MovingTook(request: Request, auditId: string, reason: Reason, start: seq<Outcome>, r: Realm)
    requires Took(start, r.outcomes, true)
    ensures SoFar(start, MoveAndTombstone(request, auditId, reason, r))
  {
    var p0 :=
      Progress(r.(audit := r.audit + [Note(request, auditId, MergeStarted(reason))]), [], [], [], [], true);
    var p1 := LinksStage(request, auditId, p0);
    var p2 := RolesStage(request, auditId, p1);
    LinksTook(request, auditId, start, p0);
    RolesTook(request, auditId, start, p1);
    GroupsTook(request, auditId, start, p2);
    TombstoneTook(request, auditId, start, GroupsStage(request, auditId, p2));
  }

  /** Admission stops at one of its four reads or makes them all. */
  lemma AdmissionReads(lower: string -> string, request: Request, r: Realm)
    ensures var (r', result) := Admission(lower, request, r);
            var p1 := AfterRead(Progress(r, [], [], [], [], true));
            exists p :: p in {p1, AfterRead(p1), AfterRead(AfterRead(AfterRead(p1)))}
                        && r' == p.realm && p.ok == (result != ApiRaised)
  {}

  lemma AdmissionTook(lower: string -> string, request: Request, r: Realm)
    ensures var (r', result) := Admission(lower, request, r); Took(r.outcomes, r'.outcomes, result != ApiRaised)
  {
    AdmissionReads(lower, request, r);
    var p0 := Progress(r, [], [], [], [], true);
    var p1 := AfterRead(p0);
    var p2 := AfterRead(p1);
    var p3 := AfterRead(p2);
    ReadTook(r.outcomes, p0);
    ReadTook(r.outcomes, p1);
    ReadTook(r.outcomes, p2);
    ReadTook(r.outcomes, p3);
  }

  /** Every merge, whatever its outcomes: it raises exactly when one of its requests
      failed, and that request was its last; everything before it succeeded. */
  lemma StopsAtTheFirstFailure(lower: string -> string, request: Request, auditId: string, r: Realm)
    ensures var (r', result) := Merge(lower, request, auditId, r); Took(r.outcomes, r'.outcomes, result != ApiRaised)
  {
    var (r', result) := Merge(lower, request, auditId, r);
    if request.survivor != request.duplicate
       && !Locks.NormaliseUserIds([request.survivor, request.duplicate]).BadIds? {
      var (r1, admitted) := Admission(lower, request, r);
      AdmissionTook(lower, request, r);
      if admitted.Completed? { MovingTook(request, auditId, admitted.reason, r.outcomes, r1); }
    }
  }
}
