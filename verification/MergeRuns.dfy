/** Runs of one call at a time: what the merge protocol can reach from a quiet
    state, and so exactly when a lineage can be bent into a cycle. */
module MergeRuns {
  import opened Wrappers
  import opened AdminOutcome
  import opened MergeProtocol
  import opened MergeLineage
  import Locks = KeyedLocks

  /** Some run leads from `s` to `s'`; if `whole`, one that strands no pointer. */
  ghost predicate CanReach(whole: bool, s: State, s': State) {
    exists actions :: Follows(whole, s, actions, s')
  }

  lemma Here(whole: bool, s: State)
    ensures CanReach(whole, s, s)
  {
    assert Follows(whole, s, [], s);
  }

  lemma StepThen(whole: bool, s: State, a: Action, s': State)
    requires Enabled(s, a) && (whole ==> KeepsTombstoneWhole(s, a)) && CanReach(whole, Step(s, a), s')
    ensures CanReach(whole, s, s')
  {
    var rest :| Follows(whole, Step(s, a), rest, s');
    assert ([a] + rest)[1..] == rest;
    assert Follows(whole, s, [a] + rest, s');
  }

  lemma {:induction false} FollowsThen(whole: bool, s: State, first: seq<Action>, m: State, s': State)
    requires Follows(whole, s, first, m) && CanReach(whole, m, s')
    ensures CanReach(whole, s, s')
    decreases |first|
  {
    if first != [] {
      FollowsThen(whole, Step(s, first[0]), first[1..], m, s');
      StepThen(whole, s, first[0], s');
    }
  }

  lemma Then(whole: bool, s: State, m: State, s': State)
    requires CanReach(whole, s, m) && CanReach(whole, m, s')
    ensures CanReach(whole, s, s')
  {
    var first :| Follows(whole, s, first, m);
    FollowsThen(whole, s, first, m, s');
  }

  lemma {:induction false} FollowsReaches(whole: bool, s: State, actions: seq<Action>, s': State)
    requires Follows(whole, s, actions, s')
    ensures Reaches(s, actions, s')
    decreases |actions|
  {
    if actions != [] { FollowsReaches(whole, Step(s, actions[0]), actions[1..], s'); }
  }

  // ---- A call with the system to itself ----

  /** No call is in progress. */
  ghost predicate Quiet(s: State) { Inv(s) && s.tasks == map[] }

  ghost predicate Alone(s: State, t: Thread, phase: Locks.Phase) {
    Inv(s) && s.locks.holds.Keys == {t} && s.locks.holds[t].phase == phase
  }

  ghost predicate Callable(c: Call) {
    "" !in Ids(c) && (c.Merge? ==> c.survivor != c.duplicate)
  }

  lemma StartAlone(s: State, t: Thread, c: Call)
    requires Quiet(s) && Callable(c)
    ensures Enabled(s, Start(t, c))
    ensures var s' := Step(s, Start(t, c));
            Alone(s', t, Locks.Resolving) && s'.users == s.users && s'.tasks == map[t := Task(c, Entering)]
  {
    assert s.locks.holds.Keys == s.tasks.Keys == {};
    StepKeepsInv(s, Start(t, c));
  }

  lemma ResolveAlone(s: State, t: Thread)
    requires Alone(s, t, Locks.Resolving)
    ensures Enabled(s, Lock(Locks.Resolve(t)))
    ensures var s' := Step(s, Lock(Locks.Resolve(t)));
            Alone(s', t, Locks.Acquiring) && s'.users == s.users && s'.tasks == s.tasks
  {
    StepKeepsInv(s, Lock(Locks.Resolve(t)));
  }

  /** With nobody else about, the next lock is free. */
  lemma NextLockIsFree(l: Locks.State, t: Thread)
    requires Locks.Inv(l) && l.holds.Keys == {t} && l.holds[t].phase == Locks.Acquiring
    ensures Locks.Enabled(l, Locks.Acquire(t))
  {
    var h := l.holds[t];
    assert Locks.HoldOk(l.mode, l.registry, h);
    Locks.LocksDistinct(l.registry, l.nextLock, h);
    forall k | k in l.owner ensures k in Locks.Taken(h) {
      assert l.owner[k] in l.holds;
    }
    assert h.locks[h.held] !in Locks.Taken(h);
  }

  lemma {:induction false} TakeLocks(whole: bool, s: State, t: Thread) returns (s': State)
    requires Alone(s, t, Locks.Acquiring)
    ensures CanReach(whole, s, s') && Alone(s', t, Locks.Inside) && s'.users == s.users && s'.tasks == s.tasks
    decreases |s.locks.holds[t].locks| - s.locks.holds[t].held
  {
    var a := Lock(Locks.Acquire(t));
    NextLockIsFree(s.locks, t);
    StepKeepsInv(s, a);
    var m := Step(s, a);
    if m.locks.holds[t].phase == Locks.Inside {
      s' := m;
      Here(whole, m);
    } else {
      s' := TakeLocks(whole, m, t);
    }
    StepThen(whole, s, a, s');
  }

  /** A quiet system lets a new call in, up to its critical section. */
  lemma EnterAlone(whole: bool, s: State, t: Thread, c: Call) returns (s': State)
    requires Quiet(s) && Callable(c)
    ensures CanReach(whole, s, s') && Alone(s', t, Locks.Inside)
    ensures s'.users == s.users && s'.tasks == map[t := Task(c, Entering)]
  {
    StartAlone(s, t, c);
    var s1 := Step(s, Start(t, c));
    ResolveAlone(s1, t);
    var s2 := Step(s1, Lock(Locks.Resolve(t)));
    s' := TakeLocks(whole, s2, t);
    StepThen(whole, s1, Lock(Locks.Resolve(t)), s');
    StepThen(whole, s, Start(t, c), s');
  }

  lemma {:induction false} DropLocks(whole: bool, s: State, t: Thread) returns (s': State)
    requires Alone(s, t, Locks.Releasing)
    ensures CanReach(whole, s, s') && Quiet(s') && s'.users == s.users
    decreases s.locks.holds[t].held
  {
    var a := Lock(Locks.Release(t));
    StepKeepsInv(s, a);
    var m := Step(s, a);
    if s.locks.holds[t].held == 0 {
      s' := m;
      assert s'.tasks.Keys == {};
      Here(whole, m);
    } else {
      s' := DropLocks(whole, m, t);
    }
    StepThen(whole, s, a, s');
  }

  /** A finished call gives its locks back and is gone. */
  lemma LeaveAlone(whole: bool, s: State, t: Thread) returns (s': State)
    requires Alone(s, t, Locks.Inside) && s.tasks[t].pc == Finished
    ensures CanReach(whole, s, s') && Quiet(s') && s'.users == s.users
  {
    var leave := Lock(Locks.Leave(t));
    StepKeepsInv(s, leave);
    s' := DropLocks(whole, Step(s, leave), t);
    StepThen(whole, s, leave, s');
  }

  /** The state in which the call of thread `t` has got to `pc`. */
  ghost function At(s: State, t: Thread, c: Call, pc: Pc): State { s.(tasks := s.tasks[t := Task(c, pc)]) }

  ghost predicate MayRequest(s: State, t: Thread, c: Call) {
    t in s.locks.holds && s.locks.holds[t].phase == Locks.Inside && t in s.tasks && s.tasks[t] == Task(c, Entering)
  }

  /** The first requests of a merge of two enabled accounts that the matching
      policy admits, up to its tombstone. */
  lemma MergeUpToStamp(whole: bool, s: State, t: Thread, c: Call, s': State)
    requires MayRequest(s, t, c) && c.Merge? && BothActive(s.users, c.survivor, c.duplicate)
    requires CanReach(whole, At(s, t, c, Stamping), s')
    ensures CanReach(whole, s, s')
  {
    var go, stop := Api(t, Succeeds, true), Api(t, Succeeds, false);
    var s1, s2 := At(s, t, c, LoadDuplicate(true)), At(s, t, c, Deciding(true, true));
    var s3, s4 := At(s, t, c, Moving), At(s, t, c, Stamping);
    assert Step(s3, stop) == s4;
    StepThen(whole, s3, stop, s');
    assert Step(s2, go) == s3;
    StepThen(whole, s2, go, s');
    assert Step(s1, go) == s2;
    StepThen(whole, s1, go, s');
    assert Step(s, go) == s1;
    StepThen(whole, s, go, s');
  }

  /** Its two tombstone requests, the last ending as `last`. */
  lemma MergeBody(whole: bool, s: State, t: Thread, c: Call, last: Outcome) returns (s': State)
    requires MayRequest(s, t, c) && c.Merge? && c.survivor != c.duplicate &&
             BothActive(s.users, c.survivor, c.duplicate)
    requires whole ==> last != FailsUnapplied
    ensures CanReach(whole, s, s')
    ensures s' == State(s.locks, s.users[c.duplicate := User(!last.Applied(), Some(c.survivor))],
                        s.tasks[t := Task(c, Finished)])
  {
    var s4 := At(s, t, c, Stamping);
    var s5 := At(s, t, c, Disabling).(users := s.users[c.duplicate := User(true, Some(c.survivor))]);
    s' := State(s.locks, s.users[c.duplicate := User(!last.Applied(), Some(c.survivor))],
                s.tasks[t := Task(c, Finished)]);
    Here(whole, s');
    assert Step(s5, Api(t, last, false)) == s';
    StepThen(whole, s5, Api(t, last, false), s');
    assert Step(s4, Api(t, Succeeds, false)) == s5;
    StepThen(whole, s4, Api(t, Succeeds, false), s');
    MergeUpToStamp(whole, s, t, c, s');
  }

  /** From any quiet state two enabled accounts that the matching policy admits
      can be merged, and the last call decides whether the stamped duplicate is
      left enabled. */
  lemma MergeAlone(whole: bool, s: State, survivor: string, duplicate: string, last: Outcome) returns (s': State)
    requires Quiet(s) && survivor != "" && duplicate != "" && survivor != duplicate &&
             BothActive(s.users, survivor, duplicate)
    requires whole ==> last != FailsUnapplied
    ensures CanReach(whole, s, s') && Quiet(s')
    ensures s'.users == s.users[duplicate := User(!last.Applied(), Some(survivor))]
  {
    var c := Merge(survivor, duplicate);
    var s1 := EnterAlone(whole, s, 0, c);
    var s2 := MergeBody(whole, s1, 0, c, last);
    KeepsInv(whole, s1, s2);
    s' := LeaveAlone(whole, s2, 0);
    Then(whole, s1, s2, s');
    Then(whole, s, s1, s');
  }

  lemma KeepsInv(whole: bool, s: State, s': State)
    requires Inv(s) && CanReach(whole, s, s')
    ensures Inv(s')
  {
    var actions :| Follows(whole, s, actions, s');
    FollowsReaches(whole, s, actions, s');
    RunKeepsInv(s, actions, s');
  }

  /** The requests of a SCIM PUT on an account without a tombstone. */
  lemma PutBody(whole: bool, s: State, t: Thread, c: Call) returns (s': State)
    requires MayRequest(s, t, c) && c.Put? && c.id in s.users && !Merged(s.users[c.id])
    ensures CanReach(whole, s, s')
    ensures s' == State(s.locks, s.users[c.id := User(c.active, None)], s.tasks[t := Task(c, Finished)])
  {
    var go := Api(t, Succeeds, true);
    var s1, s2 := At(s, t, c, CheckingTombstone), At(s, t, c, Replacing);
    var s3 := At(s, t, c, ReadingBack).(users := s.users[c.id := User(c.active, None)]);
    s' := State(s.locks, s.users[c.id := User(c.active, None)], s.tasks[t := Task(c, Finished)]);
    Here(whole, s');
    assert Step(s3, go) == s';
    StepThen(whole, s3, go, s');
    assert Step(s2, go) == s3;
    StepThen(whole, s2, go, s');
    assert Step(s1, go) == s2;
    StepThen(whole, s1, go, s');
    assert Step(s, go) == s1;
    StepThen(whole, s, go, s');
  }

  /** From any quiet state a SCIM PUT gives an account without a tombstone the
      enabled flag it asks for, and no pointer. */
  lemma PutAlone(whole: bool, s: State, id: string, active: bool) returns (s': State)
    requires Quiet(s) && id != "" && id in s.users && !Merged(s.users[id])
    ensures CanReach(whole, s, s') && Quiet(s') && s'.users == s.users[id := User(active, None)]
  {
    var c := Put(id, active);
    var s1 := EnterAlone(whole, s, 0, c);
    var s2 := PutBody(whole, s1, 0, c);
    KeepsInv(whole, s1, s2);
    s' := LeaveAlone(whole, s2, 0);
    Then(whole, s1, s2, s');
    Then(whole, s, s1, s');
  }

  /** The requests of a SCIM PATCH from its k-th operation on. */
  lemma {:induction false} PatchBody(whole: bool, s: State, t: Thread, c: Call, k: nat) returns (s': State)
    requires t in s.locks.holds && s.locks.holds[t].phase == Locks.Inside && t in s.tasks
    requires c.Patch? && k <= |c.deactivates| && s.tasks[t] == Task(c, Patching(k)) && c.id in s.users
    ensures CanReach(whole, s, s')
    ensures s' == State(s.locks, if true in c.deactivates[k..] then Disable(s.users, c.id) else s.users,
                        s.tasks[t := Task(c, Finished)])
    decreases |c.deactivates| - k
  {
    var a := Api(t, Succeeds, true);
    var m := Step(s, a);
    if k == |c.deactivates| {
      s' := m;
      Here(whole, m);
    } else {
      assert c.deactivates[k..] == [c.deactivates[k]] + c.deactivates[k + 1..];
      s' := PatchBody(whole, m, t, c, k + 1);
    }
    StepThen(whole, s, a, s');
  }

  /** From any quiet state a SCIM PATCH disables its account exactly when one of its
      operations asks for it, and changes nothing else. */
  lemma PatchAlone(whole: bool, s: State, id: string, deactivates: seq<bool>) returns (s': State)
    requires Quiet(s) && id != "" && id in s.users
    ensures CanReach(whole, s, s') && Quiet(s')
    ensures s'.users == if true in deactivates then s.users[id := s.users[id].(enabled := false)] else s.users
  {
    var c := Patch(id, deactivates);
    var s1 := EnterAlone(whole, s, 0, c);
    var a := Api(0, Succeeds, true);
    assert Step(s1, a) == At(s1, 0, c, Patching(0)) && deactivates[0..] == deactivates;
    var s2 := PatchBody(whole, At(s1, 0, c, Patching(0)), 0, c, 0);
    StepThen(whole, s1, a, s2);
    KeepsInv(whole, s1, s2);
    s' := LeaveAlone(whole, s2, 0);
    Then(whole, s1, s2, s');
    Then(whole, s, s1, s');
  }

  /** The requests of a SCIM DELETE. */
  lemma DeleteBody(whole: bool, s: State, t: Thread, c: Call) returns (s': State)
    requires MayRequest(s, t, c) && c.Delete? && c.id in s.users
    ensures CanReach(whole, s, s')
    ensures s' == State(s.locks, Disable(s.users, c.id), s.tasks[t := Task(c, Finished)])
  {
    var go := Api(t, Succeeds, true);
    var s1 := At(s, t, c, SoftDeleting);
    s' := State(s.locks, Disable(s.users, c.id), s.tasks[t := Task(c, Finished)]);
    Here(whole, s');
    assert Step(s1, go) == s';
    StepThen(whole, s1, go, s');
    assert Step(s, go) == s1;
    StepThen(whole, s, go, s');
  }

  /** From any quiet state a SCIM DELETE disables its account and changes nothing else. */
  lemma DeleteAlone(whole: bool, s: State, id: string) returns (s': State)
    requires Quiet(s) && id != "" && id in s.users
    ensures CanReach(whole, s, s') && Quiet(s')
    ensures s'.users == s.users[id := s.users[id].(enabled := false)]
  {
    var c := Delete(id);
    var s1 := EnterAlone(whole, s, 0, c);
    var s2 := DeleteBody(whole, s1, 0, c);
    KeepsInv(whole, s1, s2);
    s' := LeaveAlone(whole, s2, 0);
    Then(whole, s1, s2, s');
    Then(whole, s, s1, s');
  }

  // ---- Exactly when a cycle can be built ----

  /** If the disable call of one merge fails, its duplicate keeps its pointer and
      stays enabled; merging the other way round then closes a cycle, under
      either lock manager. */
  lemma HalfTombstoneAllowsCycle(mode: Locks.Mode, x: string, y: string)
    requires x != "" && y != "" && x != y
    ensures exists actions, s: State ::
              && Reaches(Init(mode, map[x := User(true, None), y := User(true, None)]), actions, s)
              && !Acyclic(Pointers(s.users))
  {
    var s := Init(mode, map[x := User(true, None), y := User(true, None)]);
    InitInv(mode, s.users);
    var s1 := MergeAlone(false, s, x, y, FailsUnapplied);
    var s2 := MergeAlone(false, s1, y, x, Succeeds);
    Then(false, s, s1, s2);
    var actions :| Follows(false, s, actions, s2);
    FollowsReaches(false, s, actions, s2);
    PointingAtEachOther(s2.users, x, y);
  }

  lemma PointingAtEachOther(users: map<string, User>, x: string, y: string)
    requires x in users && users[x].pointer == Some(y) && y in users && users[y].pointer == Some(x) && x != "" &&
             y != ""
    ensures !Acyclic(Pointers(users))
  {
    var p := Pointers(users);
    assert p[x] == y && p[y] == x;
    var cycle := [x, y, x];
    assert Lineage(p, cycle) && cycle[0] == cycle[2];
  }

  /** A realm between calls: pointers are acyclic and lead to accounts. */
  ghost predicate Settled(s: State) {
    && Quiet(s) && "" !in s.users && Acyclic(Pointers(s.users))
    && forall id :: id in Pointers(s.users) ==> Pointers(s.users)[id] in s.users
  }

  /** An account that could sign in although it has been merged away. */
  ghost predicate Stranded(s: State, id: string) {
    id in s.users && Merged(s.users[id]) && s.users[id].enabled
  }

  lemma {:induction false} LineageStaysInside(s: State, path: seq<string>)
    requires Settled(s) && Lineage(Pointers(s.users), path) && path[0] in s.users
    ensures path[|path| - 1] in s.users
  {
    if |path| > 1 {
      LineageStaysInside(s, path[..|path| - 1]);
      assert path[|path| - 1] == Pointers(s.users)[path[|path| - 2]];
    }
  }

  /** The account a stranded one leads to, enabled by a SCIM PUT if need be. */
  lemma EnabledRoot(s: State, x: string) returns (root: string, s': State)
    requires Settled(s) && Stranded(s, x)
    ensures CanReach(true, s, s') && Quiet(s') && Pointers(s'.users) == Pointers(s.users)
    ensures LeadsTo(Pointers(s'.users), x, root) && root != x && root != "" && BothActive(s'.users, x, root)
  {
    var p := Pointers(s.users);
    AcyclicIsForest(p);
    var rank: map<string, nat> :| Ranked(p, rank);
    ForestHasRoots(p, rank, x);
    var path :| Lineage(p, path) && path[0] == x && path[|path| - 1] !in p;
    LineageStaysInside(s, path);
    root := path[|path| - 1];
    if s.users[root].enabled {
      s' := s;
      Here(true, s);
    } else {
      s' := PutAlone(true, s, root, true);
    }
    assert Pointers(s'.users) == p;
  }

  lemma StrandedAllowsCycle(s: State, x: string)
    requires Settled(s) && Stranded(s, x)
    ensures exists s' :: CanReach(true, s, s') && !Acyclic(Pointers(s'.users))
  {
    var root, s1 := EnabledRoot(s, x);
    var s2 := MergeAlone(true, s1, x, root, Succeeds);
    Then(true, s, s1, s2);
    assert Pointers(s2.users) == Pointers(s1.users)[root := x];
    PointerCloses(Pointers(s1.users), root, x);
  }

  lemma NobodyStrandedStaysAcyclic(s: State, s': State)
    requires Settled(s) && (forall id :: !Stranded(s, id)) && CanReach(true, s, s')
    ensures Acyclic(Pointers(s'.users))
  {
    AcyclicIsForest(Pointers(s.users));
    forall id | id in s.users && Merged(s.users[id])
      ensures s.users[id].pointer.value in s.users && !s.users[id].enabled {
      assert id in Pointers(s.users) && !Stranded(s, id);
    }
    var actions :| Follows(true, s, actions, s');
    RunKeepsLineage(s, actions, s');
    ForestIsAcyclic(Pointers(s'.users));
  }

  /** From a settled realm, later calls that complete their tombstones can build a
      cycle exactly when some enabled account carries a pointer now. */
  lemma CycleNeedsExactlyAStrandedPointer(s: State)
    requires Settled(s)
    ensures (exists s' :: CanReach(true, s, s') && !Acyclic(Pointers(s'.users))) <==> (exists x :: Stranded(s, x))
  {
    if x :| Stranded(s, x) {
      StrandedAllowsCycle(s, x);
    } else {
      forall s' | CanReach(true, s, s') ensures Acyclic(Pointers(s'.users)) {
        NobodyStrandedStaysAcyclic(s, s');
      }
    }
  }
}
