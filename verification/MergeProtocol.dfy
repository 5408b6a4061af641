/** Account merges and SCIM PUT, PATCH and DELETE as one concurrent protocol over
    Keycloak user records.  Every Admin API call is one atomic step, any call may
    fail, and any number of threads interleave; the only coordination is the
    shared user-operation lock manager. */
module MergeProtocol {
  import opened Wrappers
  import opened AdminOutcome
  import Locks = KeyedLocks

  type Thread = Locks.Thread

  /** The part of a user record the protocol protects: the enabled flag and the
      `merged_into_user_id` attribute. */
  datatype User = User(enabled: bool, pointer: Option<string>)

  /** The tombstone attribute counts only when it is non-empty. */
  predicate Merged(u: User) { u.pointer.Some? && u.pointer.value != "" }

  /** A finished merge: disabled, with a survivor pointer. */
  predicate Tombstoned(u: User) { !u.enabled && Merged(u) }

  datatype Call =
    | Merge(survivor: string, duplicate: string)
    | Put(id: string, active: bool)
    | Patch(id: string, deactivates: seq<bool>)   // for each operation: does it set active to false?
    | Delete(id: string)

  function Ids(c: Call): seq<string> {
    match c
    case Merge(survivor, duplicate) => [survivor, duplicate]
    case _ => [c.id]
  }

  /** Where a call is between two Admin API calls, with the flags it has read. */
  datatype Pc =
    | Entering
    | LoadDuplicate(survivorActive: bool)
    | Deciding(survivorActive: bool, duplicateActive: bool)
    | Moving
    | Stamping
    | Disabling
    | CheckingTombstone
    | Replacing
    | ReadingBack
    | Patching(next: nat)
    | SoftDeleting
    | Finished

  datatype Task = Task(call: Call, pc: Pc)

  datatype State = State(locks: Locks.State, users: map<string, User>, tasks: map<Thread, Task>)

  function Init(mode: Locks.Mode, users: map<string, User>): State {
    State(Locks.Init(mode), users, map[])
  }

  /** One Admin API call's result as the environment chooses it.  `choice` settles
      what the model leaves open: whether the matching policy accepts the pair,
      whether another link, role or group is moved, and whether a replacement
      drops the attributes it does not name. */
  datatype Action =
    | Start(t: Thread, call: Call)
    | Lock(a: Locks.Action)
    | Api(t: Thread, outcome: Outcome, choice: bool)
    | Provision(id: string, enabled: bool)
    | Crash(ts: set<Thread>)   // the process of these calls stops

  predicate Enabled(s: State, a: Action) {
    match a
    case Start(t, call) =>
      && (call.Merge? ==> call.survivor != call.duplicate)
      && Locks.Enabled(s.locks, Locks.Begin(t, Ids(call)))
    case Lock(l) =>
      && !l.Begin? && !l.Crash? && Locks.Enabled(s.locks, l)
      && (l.Leave? ==> l.t in s.tasks && s.tasks[l.t].pc == Finished)
    case Api(t, _, _) =>
        t in s.tasks && t in s.locks.holds && s.locks.holds[t].phase == Locks.Inside && s.tasks[t].pc != Finished
    case Provision(id, _) => id !in s.users
    case Crash(_) => true
  }

  function Step(s: State, a: Action): State
    requires Enabled(s, a)
  {
    match a
    case Start(t, call) =>
      s.(locks := Locks.Step(s.locks, Locks.Begin(t, Ids(call))), tasks := s.tasks[t := Task(call, Entering)])
    case Lock(l) =>
      var locks := Locks.Step(s.locks, l);
      s.(locks := locks, tasks := if l.t in locks.holds then s.tasks else s.tasks - {l.t})
    case Api(t, outcome, choice) =>
      s.(users := UsersAfter(s.users, s.tasks[t], outcome, choice),
         tasks := s.tasks[t := s.tasks[t].(pc := PcAfter(s.users, s.tasks[t], outcome, choice))])
    case Provision(id, enabled) => s.(users := s.users[id := User(enabled, None)])
    case Crash(ts) => s.(locks := Locks.Step(s.locks, Locks.Crash(ts)), tasks := s.tasks - ts)
  }

  function Disable(users: map<string, User>, id: string): map<string, User> {
    if id in users then users[id := users[id].(enabled := false)] else users
  }

  /** The effect of the call's next Admin API request on the user records. */
  function UsersAfter(users: map<string, User>, task: Task, outcome: Outcome, choice: bool): map<string, User> {
    if !outcome.Applied() then users else
    match (task.call, task.pc)
    case (Merge(survivor, duplicate), Stamping) =>
      if duplicate in users then users[duplicate := users[duplicate].(pointer := Some(survivor))] else users
    case (Merge(survivor, duplicate), Disabling) => Disable(users, duplicate)
    case (Put(id, active), Replacing) =>
      // the replacement representation never carries the tombstone attribute
      if id in users then users[id := User(active, if choice then None else users[id].pointer)] else users
    case (Patch(id, deactivates), Patching(k)) =>
      if k < |deactivates| && deactivates[k] then Disable(users, id) else users
    case (Delete(id), SoftDeleting) => Disable(users, id)
    case _ => users
  }

  /** Where the call stands after that request; an exception ends it. */
  function PcAfter(users: map<string, User>, task: Task, outcome: Outcome, choice: bool): Pc {
    if outcome != Succeeds then Finished else
    match (task.call, task.pc)
    case (Merge(survivor, duplicate), Entering) =>
      if survivor in users then LoadDuplicate(users[survivor].enabled) else Finished
    case (Merge(survivor, duplicate), LoadDuplicate(survivorActive)) =>
      if duplicate in users then Deciding(survivorActive, users[duplicate].enabled) else Finished
    case (Merge(survivor, duplicate), Deciding(survivorActive, duplicateActive)) =>
      if survivorActive && duplicateActive && choice then Moving else Finished
    case (Merge(survivor, duplicate), Moving) => if choice then Moving else Stamping
    case (Merge(survivor, duplicate), Stamping) => Disabling
    case (Put(id, active), Entering) => if id in users then CheckingTombstone else Finished
    case (Put(id, active), CheckingTombstone) =>
      if id in users && !Merged(users[id]) then Replacing else Finished
    case (Put(id, active), Replacing) => ReadingBack
    case (Patch(id, deactivates), Entering) => if id in users then Patching(0) else Finished
    case (Patch(id, deactivates), Patching(k)) => if k < |deactivates| then Patching(k + 1) else Finished
    case (Delete(id), Entering) => if id in users then SoftDeleting else Finished
    case _ => Finished
  }

  // ---- Runs ----

  ghost predicate Reaches(s: State, actions: seq<Action>, s': State)
    decreases |actions|
  {
    if actions == [] then s == s'
    else Enabled(s, actions[0]) && Reaches(Step(s, actions[0]), actions[1..], s')
  }

  // ---- Invariant ----

  ghost predicate BothActive(users: map<string, User>, survivor: string, duplicate: string) {
    survivor in users && users[survivor].enabled && duplicate in users && users[duplicate].enabled
  }

  /** What a call between its check and its write may rely on. */
  ghost predicate PcOk(users: map<string, User>, task: Task) {
    match (task.call, task.pc)
    case (Merge(survivor, duplicate), LoadDuplicate(survivorActive)) =>
      survivor in users && users[survivor].enabled == survivorActive
    case (Merge(survivor, duplicate), Deciding(survivorActive, duplicateActive)) =>
      && survivor in users && users[survivor].enabled == survivorActive
      && duplicate in users && users[duplicate].enabled == duplicateActive
    case (Merge(survivor, duplicate), Disabling) =>
      && survivor in users && users[survivor].enabled
      && duplicate in users && users[duplicate] == User(true, Some(survivor))
    case (Merge(survivor, duplicate), Moving) => BothActive(users, survivor, duplicate)
    case (Merge(survivor, duplicate), Stamping) => BothActive(users, survivor, duplicate)
    case (Merge(_, _), _) => true
    case (_, Replacing) => task.call.id in users && !Merged(users[task.call.id])
    case _ => true
  }

  ghost predicate TaskOk(s: State, t: Thread)
    requires t in s.tasks && t in s.locks.holds
  {
    var task := s.tasks[t];
    && (forall x :: x in s.locks.holds[t].ids <==> x in Ids(task.call))
    && (task.call.Merge? ==> task.call.survivor != task.call.duplicate)
    && (task.pc != Entering && task.pc != Finished ==> s.locks.holds[t].phase == Locks.Inside)
    && PcOk(s.users, task)
  }

  /** Every call in progress has its `hold` and may rely on what it has read. */
  ghost predicate TasksOk(s: State) {
    && s.tasks.Keys == s.locks.holds.Keys
    && (forall t :: t in s.tasks ==> TaskOk(s, t))
  }

  ghost predicate Inv(s: State) {
    Locks.Inv(s.locks) && TasksOk(s)
  }

  /** A request changes at most one record, one its call holds the lock of. */
  lemma ApiFrame(users: map<string, User>, task: Task, outcome: Outcome, choice: bool, x: string)
    requires x !in Ids(task.call)
    ensures x in users <==> x in UsersAfter(users, task, outcome, choice)
    ensures x in users ==> UsersAfter(users, task, outcome, choice)[x] == users[x]
  {
  }

  lemma PcOkFrame(users: map<string, User>, users': map<string, User>, task: Task)
    requires PcOk(users, task)
    requires forall x :: x in Ids(task.call) && x in users ==> x in users' && users'[x] == users[x]
    ensures PcOk(users', task)
  {
    if task.call.Merge? {
      assert task.call.survivor in Ids(task.call) && task.call.duplicate in Ids(task.call);
    } else {
      assert task.call.id in Ids(task.call);
    }
  }

  /** A thread inside its critical section is alone on each of its user ids. */
  lemma Exclusive(s: State, t: Thread, u: Thread, x: string)
    requires Inv(s) && t in s.tasks && u in s.tasks
    requires s.locks.holds[t].phase == Locks.Inside && s.locks.holds[u].phase == Locks.Inside
    requires x in Ids(s.tasks[t].call) && x in Ids(s.tasks[u].call)
    ensures t == u
  {
    assert TaskOk(s, t) && TaskOk(s, u);
    Locks.MutualExclusion(s.locks, t, u, x);
  }

  lemma ApiKeepsInv(s: State, t: Thread, outcome: Outcome, choice: bool)
    requires Inv(s) && Enabled(s, Api(t, outcome, choice))
    ensures Inv(Step(s, Api(t, outcome, choice)))
  {
    var s' := Step(s, Api(t, outcome, choice));
    assert TasksOk(s') by {
      forall u | u in s'.tasks ensures TaskOk(s', u) {
        assert TaskOk(s, u);
        if u == t {
          OwnRequestOk(s.users, s.tasks[t], outcome, choice);
        } else {
          OthersUndisturbed(s, t, outcome, choice, u);
        }
      }
    }
  }

  /** A call's own request leaves it what its next position may rely on. */
  lemma OwnRequestOk(users: map<string, User>, task: Task, outcome: Outcome, choice: bool)
    requires PcOk(users, task) && (task.call.Merge? ==> task.call.survivor != task.call.duplicate)
    ensures PcOk(UsersAfter(users, task, outcome, choice), task.(pc := PcAfter(users, task, outcome, choice)))
  {
  }

  lemma OthersUndisturbed(s: State, t: Thread, outcome: Outcome, choice: bool, u: Thread)
    requires Inv(s) && Enabled(s, Api(t, outcome, choice)) && u in s.tasks && u != t
    ensures PcOk(UsersAfter(s.users, s.tasks[t], outcome, choice), s.tasks[u])
  {
    assert TaskOk(s, u);
    if s.locks.holds[u].phase == Locks.Inside {
      forall x | x in Ids(s.tasks[u].call) && x in s.users
        ensures x in UsersAfter(s.users, s.tasks[t], outcome, choice)
        ensures UsersAfter(s.users, s.tasks[t], outcome, choice)[x] == s.users[x]
      {
        if x in Ids(s.tasks[t].call) {
          Exclusive(s, t, u, x);
        } else {
          ApiFrame(s.users, s.tasks[t], outcome, choice, x);
        }
      }
      PcOkFrame(s.users, UsersAfter(s.users, s.tasks[t], outcome, choice), s.tasks[u]);
    }
  }

  lemma LockKeepsTasks(s: State, l: Locks.Action)
    requires TasksOk(s) && Enabled(s, Lock(l))
    ensures TasksOk(Step(s, Lock(l)))
  {
    Locks.StepMovesOneHold(s.locks, l);
    var s' := Step(s, Lock(l));
    forall u | u in s'.tasks ensures u in s'.locks.holds && TaskOk(s', u) {
      assert TaskOk(s, u);
    }
  }

  lemma StepKeepsInv(s: State, a: Action)
    requires Inv(s) && Enabled(s, a)
    ensures Inv(Step(s, a))
  {
    match a {
      case Start(t, call) =>
        Locks.StepKeepsInv(s.locks, Locks.Begin(t, Ids(call)));
        StartKeepsTasks(s, t, call);
      case Lock(l) =>
        Locks.StepKeepsInv(s.locks, l);
        LockKeepsTasks(s, l);
      case Api(t, outcome, choice) => ApiKeepsInv(s, t, outcome, choice);
      case Provision(id, enabled) => ProvisionKeepsTasks(s, id, enabled);
      case Crash(ts) =>
        Locks.CrashKeepsInv(s.locks, ts);
        CrashKeepsTasks(s, ts);
    }
  }

  lemma StartKeepsTasks(s: State, t: Thread, call: Call)
    requires TasksOk(s) && Enabled(s, Start(t, call))
    ensures TasksOk(Step(s, Start(t, call)))
  {
    var s' := Step(s, Start(t, call));
    forall u | u in s'.tasks ensures TaskOk(s', u) {
      assert u != t ==> TaskOk(s, u);
    }
  }

  lemma CrashKeepsTasks(s: State, ts: set<Thread>)
    requires TasksOk(s)
    ensures TasksOk(Step(s, Crash(ts)))
  {
    var s' := Step(s, Crash(ts));
    forall u | u in s'.tasks ensures u in s'.locks.holds && TaskOk(s', u) {
      assert TaskOk(s, u);
    }
  }

  lemma ProvisionKeepsTasks(s: State, id: string, enabled: bool)
    requires TasksOk(s) && Enabled(s, Provision(id, enabled))
    ensures TasksOk(Step(s, Provision(id, enabled)))
  {
    var s' := Step(s, Provision(id, enabled));
    forall u | u in s'.tasks ensures TaskOk(s', u) {
      assert TaskOk(s, u);
      PcOkFrame(s.users, s'.users, s.tasks[u]);
    }
  }

  lemma InitInv(mode: Locks.Mode, users: map<string, User>)
    ensures Inv(Init(mode, users))
  {
    Locks.InitInv(mode);
  }

  lemma {:induction false} RunKeepsInv(s: State, actions: seq<Action>, s': State)
    requires Inv(s) && Reaches(s, actions, s')
    ensures Inv(s')
    decreases |actions|
  {
    if actions != [] {
      StepKeepsInv(s, actions[0]);
      RunKeepsInv(Step(s, actions[0]), actions[1..], s');
    }
  }

  // ---- A finished merge is permanent ----

  lemma StepKeepsTombstone(s: State, a: Action, id: string)
    requires TasksOk(s) && Enabled(s, a)
    requires id in s.users && Tombstoned(s.users[id])
    ensures id in Step(s, a).users && Step(s, a).users[id] == s.users[id]
  {
    if a.Api? {
      assert TaskOk(s, a.t);
    }
  }

  /** In every interleaving, with any calls failing anywhere: from the moment a
      user is disabled with a survivor pointer, its record stays disabled with
      that same pointer in every later state. */
  lemma {:induction false} TombstonesArePermanent(
      mode: Locks.Mode, users: map<string, User>, before: seq<Action>, s: State,
      after: seq<Action>, s': State, id: string)
    requires Reaches(Init(mode, users), before, s) && Reaches(s, after, s')
    requires id in s.users && Tombstoned(s.users[id])
    ensures id in s'.users && Tombstoned(s'.users[id]) && s'.users[id].pointer == s.users[id].pointer
  {
    InitInv(mode, users);
    RunKeepsInv(Init(mode, users), before, s);
    TombstoneKept(s, after, s', id);
  }

  lemma {:induction false} TombstoneKept(s: State, actions: seq<Action>, s': State, id: string)
    requires Inv(s) && Reaches(s, actions, s')
    requires id in s.users && Tombstoned(s.users[id])
    ensures id in s'.users && s'.users[id] == s.users[id]
    decreases |actions|
  {
    if actions != [] {
      StepKeepsInv(s, actions[0]);
      StepKeepsTombstone(s, actions[0], id);
      TombstoneKept(Step(s, actions[0]), actions[1..], s', id);
    }
  }

  // ---- No deadlock ----

  /** A call that has taken its locks can always go on, so the whole protocol
      inherits deadlock freedom from the lock manager. */
  lemma SomeTaskCanStep(s: State)
    requires Inv(s) && s.tasks != map[]
    ensures exists a :: Enabled(s, a) && !a.Start? && !a.Provision? && !a.Crash? && (a.Lock? ==> !a.a.GiveUp?)
  {
    var t :| t in s.tasks;
    assert t in s.locks.holds;
    Locks.DeadlockFree(s.locks);
    var u :| u in s.locks.holds && Locks.CanStep(s.locks, u);
    HoldStepsOrRequests(s, u);
  }

  lemma HoldStepsOrRequests(s: State, u: Thread)
    requires s.tasks.Keys == s.locks.holds.Keys && u in s.tasks && Locks.CanStep(s.locks, u)
    ensures exists a :: Enabled(s, a) && !a.Start? && !a.Provision? && !a.Crash? && (a.Lock? ==> !a.a.GiveUp?)
  {
    var l: Locks.Action :| !l.Crash? && l.t == u && !l.Begin? && !l.GiveUp? && Locks.Enabled(s.locks, l);
    if l.Leave? && s.tasks[u].pc != Finished {
      assert Enabled(s, Api(u, Succeeds, false));
    } else {
      assert Enabled(s, Lock(l));
    }
  }
}
