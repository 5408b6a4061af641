/** Directory reconciliation as it is scheduled: a reconcile takes its snapshot of
    the stored registrations before it takes the convergence lock, and puts and
    deletes that hold the lock in between make the snapshot stale. */
module DirectorySnapshots {
  import opened Wrappers
  import opened AdminOutcome
  import opened DesiredText
  import opened DirectoryService

  type Thread = nat

  /** `snapshots` are those of the reconciles under way; `holder` is the reconcile
      that has the convergence lock. */
  datatype State = State(world: World, snapshots: map<Thread, set<Registration>>, holder: Option<Thread>)

  datatype Action =
    | Snap(t: Thread)
    | TakeLock(t: Thread)
    | Converging(t: Thread, r: Registration, call: Call)
    | Finish(t: Thread)
    | Doing(e: Event)   // a put or delete, from taking the lock to giving it back

  /** The registrations in the store. */
  function Registrations(w: World): set<Registration> {
    set name | name in w.desired && w.desired[name].Parsed? :: w.desired[name].r
  }

  ghost predicate Enabled(p: Profile, s: State, a: Action) {
    match a
    // one unreadable record fails the whole reconcile
    case Snap(t) => t !in s.snapshots && forall name :: name in s.world.desired ==> s.world.desired[name].Parsed?
    case TakeLock(t) => t in s.snapshots && s.holder.None?
    case Converging(t, r, call) =>
      s.holder == Some(t) && t in s.snapshots && r in s.snapshots[t] && Possible(p, s.world, Reconciling(r, call))
    case Finish(t) => s.holder == Some(t)
    case Doing(e) => !e.Reconciling? && s.holder.None? && Possible(p, s.world, e)
  }

  function Step(p: Profile, s: State, a: Action): State {
    match a
    case Snap(t) => s.(snapshots := s.snapshots[t := Registrations(s.world)])
    case TakeLock(t) => s.(holder := Some(t))
    case Converging(t, r, call) => s.(world := DirectoryService.Step(p, s.world, Reconciling(r, call)))
    case Finish(t) => s.(snapshots := s.snapshots - {t}, holder := None)
    case Doing(e) => s.(world := DirectoryService.Step(p, s.world, e))
  }

  /** Each record is stored under its own name. */
  predicate NamedRecords(w: World) {
    forall name :: name in w.desired && w.desired[name].Parsed? ==> w.desired[name].r.name == name
  }

  ghost predicate Run(p: Profile, ss: seq<State>, acts: seq<Action>) {
    && |ss| == |acts| + 1 && NamedRecords(ss[0].world)
    && forall i :: 0 <= i < |acts| ==> Enabled(p, ss[i], acts[i]) && ss[i + 1] == Step(p, ss[i], acts[i])
  }

  // ---- What is stored, and who wrote it ----

  function Record(w: World, name: string): Option<Stored> {
    if name in w.desired then Some(w.desired[name]) else None
  }

  /** What the step makes of this name's record, if it writes it: a put stores its
      registration, a delete that goes through leaves none. */
  function Writes(p: Profile, s: State, a: Action, name: string): Option<Option<Stored>> {
    if !a.Doing? || a.e.Name() != name then None
    else match a.e
      case Putting(r, _) => Some(Some(Parsed(r)))
      case Deleting(_, call, _) => if AfterDelete(p, s.world, name, call).1.Deleted? then Some(None) else None
      case Reconciling(_, _) => None
  }

  lemma ConvergeKeepsDesired(p: Profile, w: World, r: Registration, call: Call)
    ensures AfterConverge(p, w, r, call).world.desired == w.desired
  {}

  lemma RecordAfter(p: Profile, s: State, a: Action, name: string)
    requires Enabled(p, s, a)
    ensures Record(Step(p, s, a).world, name) ==
            if Writes(p, s, a, name).Some? then Writes(p, s, a, name).value else Record(s.world, name)
  {
    match a {
      case Converging(_, r, call) => ConvergeKeepsDesired(p, s.world, r, call);
      case Doing(e) =>
        if e.Putting? {
          ConvergeKeepsDesired(p, s.world.(desired := s.world.desired[e.r.name := Parsed(e.r)]), e.r, e.call);
        }
      case _ =>
    }
  }

  lemma {:induction false} RunKeepsNames(p: Profile, ss: seq<State>, acts: seq<Action>, n: nat)
    requires Run(p, ss, acts) && n < |ss|
    ensures NamedRecords(ss[n].world)
  {
    if n > 0 {
      RunKeepsNames(p, ss, acts, n - 1);
      forall name | name in ss[n].world.desired && ss[n].world.desired[name].Parsed?
        ensures ss[n].world.desired[name].r.name == name
      {
        RecordAfter(p, ss[n - 1], acts[n - 1], name);
      }
    }
  }

  /** What each step of a run writes to this name's record. */
  ghost function AllWrites(p: Profile, ss: seq<State>, acts: seq<Action>,
                           name: string): (ws: seq<Option<Option<Stored>>>)
    requires |ss| == |acts| + 1
    ensures |ws| == |acts| && forall n :: 0 <= n < |acts| ==> ws[n] == Writes(p, ss[n], acts[n], name)
  {
    seq(|acts|, n requires 0 <= n < |acts| => Writes(p, ss[n], acts[n], name))
  }

  /** The last write between two moments leaves something other than `was`. */
  ghost predicate ChangedBetween<X(!new)>(ws: seq<Option<X>>, i: nat, j: nat, was: X)
    requires j <= |ws|
  {
    exists m :: i <= m < j && ws[m].Some? && ws[m].value != was && forall n :: m < n < j ==> ws[n].None?
  }

  lemma {:induction false} LastWriteDecides<X(!new)>(xs: seq<X>, ws: seq<Option<X>>, i: nat, j: nat)
    requires |xs| == |ws| + 1 && i <= j <= |ws|
    requires forall n :: 0 <= n < |ws| ==> xs[n + 1] == if ws[n].Some? then ws[n].value else xs[n]
    ensures xs[j] != xs[i] <==> ChangedBetween(ws, i, j, xs[i])
  {
    if i < j {
      LastWriteDecides(xs, ws, i, j - 1);
      assert xs[j] == if ws[j - 1].Some? then ws[j - 1].value else xs[j - 1];
      if ws[j - 1].None? && ChangedBetween(ws, i, j - 1, xs[i]) {
        var m :| i <= m < j - 1 && ws[m].Some? && ws[m].value != xs[i] && forall n :: m < n < j - 1 ==> ws[n].None?;
        assert forall n :: m < n < j ==> ws[n].None?;
      }
    }
  }

  lemma RecordChangesExactly(p: Profile, ss: seq<State>, acts: seq<Action>, i: nat, j: nat, name: string)
    requires Run(p, ss, acts) && i <= j <= |acts|
    ensures Record(ss[j].world, name) != Record(ss[i].world, name) <==>
            ChangedBetween(AllWrites(p, ss, acts, name), i, j, Record(ss[i].world, name))
  {
    var xs := seq(|ss|, n requires 0 <= n < |ss| => Record(ss[n].world, name));
    forall n | 0 <= n < |acts|
      ensures xs[n + 1] == if Writes(p, ss[n], acts[n], name).Some? then Writes(p, ss[n], acts[n], name).value
              else xs[n]
    {
      RecordAfter(p, ss[n], acts[n], name);
    }
    LastWriteDecides(xs, AllWrites(p, ss, acts, name), i, j);
  }

  // ---- When a reconcile applies something stale ----

  /** The reconcile that took its snapshot at `i` converges at `j`. */
  ghost predicate SameReconcile(acts: seq<Action>, i: nat, j: nat) {
    && i < j < |acts| && acts[i].Snap? && acts[j].Converging? && acts[j].t == acts[i].t
    && forall n :: i < n < j ==> acts[n] != Finish(acts[i].t)
  }

  lemma {:induction false} SnapshotIsKept(p: Profile, ss: seq<State>, acts: seq<Action>, i: nat, j: nat, t: Thread)
    requires Run(p, ss, acts) && i < j <= |acts| && acts[i] == Snap(t)
    requires forall n :: i < n < j ==> acts[n] != Finish(t)
    ensures t in ss[j].snapshots && ss[j].snapshots[t] == Registrations(ss[i].world)
  {
    if j > i + 1 {
      SnapshotIsKept(p, ss, acts, i, j - 1, t);
      assert Enabled(p, ss[j - 1], acts[j - 1]) && acts[j - 1] != Finish(t);
    }
  }

  /** In every run: a reconcile applies something other than the stored record
      exactly when, between its snapshot and its converging, a put or delete of
      that name held the lock, and the last one to write the record left it
      different. */
  lemma {:induction false} StaleExactly(p: Profile, ss: seq<State>, acts: seq<Action>, i: nat, j: nat)
    requires Run(p, ss, acts) && SameReconcile(acts, i, j)
    ensures var r := acts[j].r;
            Record(ss[j].world, r.name) != Some(Parsed(r)) <==>
            ChangedBetween(AllWrites(p, ss, acts, r.name), i, j, Some(Parsed(r)))
  {
    var r := acts[j].r;
    SnapshotIsKept(p, ss, acts, i, j, acts[i].t);
    RunKeepsNames(p, ss, acts, i);
    assert Enabled(p, ss[j], acts[j]);
    assert r in Registrations(ss[i].world) && Record(ss[i].world, r.name) == Some(Parsed(r));
    RecordChangesExactly(p, ss, acts, i, j, r.name);
  }

  /** And no write can come while the reconcile has the lock. */
  lemma LockStopsWrites(p: Profile, s: State, a: Action)
    requires Enabled(p, s, a) && s.holder.Some?
    ensures forall name :: Writes(p, s, a, name).None?
  {}

  /** In every run a reconcile keeps the lock it took until it finishes, so no record
      is written by anybody in between. */
  lemma {:induction false} LockIsKept(p: Profile, ss: seq<State>, acts: seq<Action>, i: nat, j: nat, t: Thread)
    requires Run(p, ss, acts) && i < j <= |acts| && acts[i] == TakeLock(t)
    requires forall n :: i < n < j ==> acts[n] != Finish(t)
    ensures ss[j].holder == Some(t)
    ensures forall n, name :: i < n < j ==> Writes(p, ss[n], acts[n], name).None?
  {
    if j > i + 1 {
      LockIsKept(p, ss, acts, i, j - 1, t);
      assert Enabled(p, ss[j - 1], acts[j - 1]);
      LockStopsWrites(p, ss[j - 1], acts[j - 1]);
    }
  }

  /** A snapshot leaves no record out: one that cannot be read stops it. */
  lemma SnapshotIsWhole(p: Profile, s: State, t: Thread, name: string)
    requires Enabled(p, s, Snap(t)) && name in s.world.desired
    ensures exists r :: Record(s.world, name) == Some(Parsed(r)) && r in Step(p, s, Snap(t)).snapshots[t]
  {
    assert s.world.desired[name] == Parsed(s.world.desired[name].r);
  }

  /** A confirmed delete, and a converging on what it deleted. */
  lemma DeletedThenConverged(p: Profile, w: World, r: Registration, del: Call, again: Call)
    requires Sound(p, w.remote) && Valid(p, r) && Record(w, r.name) == Some(Parsed(r))
    requires del.listed && del.outcome == Succeeds && again.listed && again.outcome == Succeeds
    requires FreshId(AfterDelete(p, w, r.name, del).0.remote, again.newId)
    ensures AfterDelete(p, w, r.name, del).1 == Deleted
    ensures var w' := AfterConverge(p, AfterDelete(p, w, r.name, del).0, r, again).world;
            ReallyHolds(p, w', r) && r.name !in w'.desired
  {
    var k := ExactInSound(p, r.name, w.remote);
    DeleteLeaves(p, w, r.name, del, r.name);
    var w1 := AfterDelete(p, w, r.name, del).0;
    assert HoldingOf(p, w1, r.name).live == [] && r.name !in w1.desired;
    ConvergeLeaves(p, w1, r, again, r.name);
    ConvergeKeepsDesired(p, w1, r, again);
  }

  /** So a deleted component can come back: whatever is stored and live, a delete
      between snapshot and lock is confirmed, and the reconcile then creates the
      component again, with no record left that would delete it. */
  lemma {:induction false} DeletedComponentComesBack(p: Profile, w: World, r: Registration, t: Thread, del: Call,
                                                     again: Call)
      returns (ss: seq<State>, acts: seq<Action>)
    requires Sound(p, w.remote) && NamedRecords(w) && Valid(p, r) && Record(w, r.name) == Some(Parsed(r))
    requires forall name :: name in w.desired ==> w.desired[name].Parsed?
    requires del.listed && del.outcome == Succeeds && again.listed && again.outcome == Succeeds
    requires FreshId(AfterDelete(p, w, r.name, del).0.remote, again.newId)
    ensures acts == [Snap(t), Doing(Deleting(r.name, del, false)), TakeLock(t), Converging(t, r, again)]
    ensures Run(p, ss, acts) && ss[0] == State(w, map[], None)
    ensures AfterDelete(p, w, r.name, del).1 == Deleted
    ensures ReallyHolds(p, ss[4].world, r) && r.name !in ss[4].world.desired
  {
    acts := [Snap(t), Doing(Deleting(r.name, del, false)), TakeLock(t), Converging(t, r, again)];
    var s0, w1 := State(w, map[], None), AfterDelete(p, w, r.name, del).0;
    var snapshots := map[t := Registrations(w)];
    var s1, s2, s3 := State(w, snapshots, None), State(w1, snapshots, None), State(w1, snapshots, Some(t));
    var s4 := State(AfterConverge(p, w1, r, again).world, snapshots, Some(t));
    ss := [s0, s1, s2, s3, s4];
    DeletedThenConverged(p, w, r, del, again);
    assert r in Registrations(w);
  }
}
