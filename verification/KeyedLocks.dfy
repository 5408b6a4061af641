/** The user-operation lock manager as a transition system over any number of
    threads.  One `hold` call is: normalise the ids, look the lock objects up in
    the shared registry, acquire them one at a time, run the body, release them
    in reverse. */
module KeyedLocks {
  import opened Ordering

  type Thread = nat
  type LockObject = nat

  datatype IdResult = Ids(ordered: seq<string>) | BadIds

  /** Unique non-empty ids in acquisition order. */
  function NormaliseUserIds(ids: seq<string>): (r: IdResult)
    ensures r.BadIds? <==> ids == [] || "" in ids
    ensures r.Ids? ==> (forall x :: x in r.ordered <==> x in ids)
  {
    var ordered := SortedSet(ids);
    assert ids != [] ==> ids[0] in ordered;
    assert ordered != [] ==> ordered[0] in ids;
    if ordered == [] || "" in ordered then BadIds else Ids(ordered)
  }

  /** The acquisition order depends on the set of ids alone, not on how the
      caller listed them: it is the one strictly increasing list of them. */
  lemma NormaliseIsCanonical(ids: seq<string>, other: seq<string>)
    requires NormaliseUserIds(ids).Ids?
    ensures SortedBy(Before, NormaliseUserIds(ids).ordered)
    ensures SortedBy(Before, other) && SameElements(other, ids) ==> other == NormaliseUserIds(ids).ordered
    ensures SameElements(other, ids) ==> NormaliseUserIds(other) == NormaliseUserIds(ids)
  {
    SortedSetIsSorted(ids);
    SortedSetIsSorted(other);
    BeforeIsStrictOrder();
    var ordered := NormaliseUserIds(ids).ordered;
    if SameElements(other, ids) {
      SortedListIsUnique(Before, SortedSet(other), ordered);
      if SortedBy(Before, other) {
        SortedListIsUnique(Before, other, ordered);
      }
    }
  }

  /** `Keyed` is the in-memory manager; `Coarse` is the SQLite one, whose single
      write transaction serialises every mutation whatever its ids. */
  datatype Mode = Keyed | Coarse

  /** The one key of the coarse manager; never a user id, since those are non-empty. */
  const GLOBAL_KEY: string := ""

  function LockKeys(mode: Mode, ordered: seq<string>): (keys: seq<string>) {
    match mode
    case Keyed => ordered
    case Coarse => [GLOBAL_KEY]
  }

  datatype Phase = Resolving | Acquiring | Inside | Releasing

  /** One `hold` call in progress.  The first `held` of `locks` are acquired. */
  datatype Hold = Hold(ids: seq<string>, keys: seq<string>, locks: seq<LockObject>, held: nat, phase: Phase)

  datatype State = State(
    mode: Mode,
    registry: map<string, LockObject>,
    nextLock: LockObject,
    owner: map<LockObject, Thread>,
    holds: map<Thread, Hold>)

  function Init(mode: Mode): State {
    State(mode, map[], 0, map[], map[])
  }

  datatype Action =
    | Begin(t: Thread, ids: seq<string>)
    | Resolve(t: Thread)
    | Acquire(t: Thread)
    | GiveUp(t: Thread)
    | Leave(t: Thread)
    | Release(t: Thread)
    | Crash(ts: set<Thread>)   // the process of these threads stops

  /** `setdefault` for every key, under the registry guard. */
  function Register(registry: map<string, LockObject>, nextLock: LockObject,
                    keys: seq<string>): (map<string, LockObject>, LockObject)
    decreases |keys|
  {
    if keys == [] then (registry, nextLock)
    else if keys[0] in registry then Register(registry, nextLock, keys[1..])
    else Register(registry[keys[0] := nextLock], nextLock + 1, keys[1..])
  }

  predicate Enabled(s: State, a: Action) {
    match a
    case Begin(t, ids) => t !in s.holds && NormaliseUserIds(ids).Ids?
    case Resolve(t) => t in s.holds && s.holds[t].phase == Resolving
    case Acquire(t) =>
      && t in s.holds && s.holds[t].phase == Acquiring
      && s.holds[t].held < |s.holds[t].locks|
      && s.holds[t].locks[s.holds[t].held] !in s.owner
    // only the coarse manager has an acquisition timeout
    case GiveUp(t) => t in s.holds && s.holds[t].phase == Acquiring && s.mode == Coarse && s.holds[t].held == 0
    case Leave(t) => t in s.holds && s.holds[t].phase == Inside
    case Release(t) => t in s.holds && s.holds[t].phase == Releasing && s.holds[t].held <= |s.holds[t].locks|
    case Crash(_) => true
  }

  function Step(s: State, a: Action): (s': State)
    requires Enabled(s, a)
  {
    match a
    case Begin(t, ids) =>
      var ordered := NormaliseUserIds(ids).ordered;
      s.(holds := s.holds[t := Hold(ordered, LockKeys(s.mode, ordered), [], 0, Resolving)])
    case Resolve(t) =>
      var h := s.holds[t];
      var (registry, nextLock) := Register(s.registry, s.nextLock, h.keys);
      RegisterSpec(s.registry, s.nextLock, h.keys);
      s.(registry := registry, nextLock := nextLock,
         holds := s.holds[t := h.(locks := seq(|h.keys|, i requires 0 <= i < |h.keys| => registry[h.keys[i]]),
                                  held := 0, phase := Acquiring)])
    case Acquire(t) =>
      var h := s.holds[t];
      s.(owner := s.owner[h.locks[h.held] := t],
         holds := s.holds[t := h.(held := h.held + 1,
                                  phase := if h.held + 1 == |h.locks| then Inside else Acquiring)])
    case GiveUp(t) => s.(holds := s.holds - {t})
    case Leave(t) => s.(holds := s.holds[t := s.holds[t].(phase := Releasing)])
    case Release(t) =>
      var h := s.holds[t];
      if h.held == 0 then s.(holds := s.holds - {t})
      else s.(owner := s.owner - {h.locks[h.held - 1]}, holds := s.holds[t := h.(held := h.held - 1)])
    // a stopped process holds nothing, whatever its threads were doing
    case Crash(ts) => s.(owner := map l | l in s.owner && s.owner[l] !in ts :: s.owner[l], holds := s.holds - ts)
  }

  // ---- The registry hands every key one lock object, and never another ----

  ghost predicate RegistryOk(registry: map<string, LockObject>, nextLock: LockObject) {
    && (forall k :: k in registry ==> registry[k] < nextLock)
    && (forall j, k :: j in registry && k in registry && registry[j] == registry[k] ==> j == k)
  }

  lemma {:induction false} RegisterSpec(registry: map<string, LockObject>, nextLock: LockObject, keys: seq<string>)
    ensures var (registry', nextLock') := Register(registry, nextLock, keys);
            && (forall k :: k in keys ==> k in registry')
            && (forall k :: k in registry ==> k in registry' && registry'[k] == registry[k])
            && (RegistryOk(registry, nextLock) ==> RegistryOk(registry', nextLock'))
    decreases |keys|
  {
    if keys != [] {
      assert keys == [keys[0]] + keys[1..];
      if keys[0] in registry {
        RegisterSpec(registry, nextLock, keys[1..]);
      } else {
        RegisterSpec(registry[keys[0] := nextLock], nextLock + 1, keys[1..]);
      }
    }
  }

  // ---- Invariant ----

  ghost predicate HoldOk(mode: Mode, registry: map<string, LockObject>, h: Hold) {
    && h.keys != [] && SortedBy(Before, h.keys)
    && h.keys == LockKeys(mode, h.ids)
    && h.ids != [] && "" !in h.ids
    && (h.phase == Resolving ==> h.locks == [])
    && (h.phase != Resolving ==> Resolved(registry, h))
    && h.held <= |h.locks|
    && (h.phase == Inside ==> h.held == |h.locks|)
    && (h.phase == Acquiring ==> h.held < |h.locks|)
  }

  ghost predicate Resolved(registry: map<string, LockObject>, h: Hold) {
    && |h.locks| == |h.keys|
    && (forall i :: 0 <= i < |h.keys| ==> h.keys[i] in registry && h.locks[i] == registry[h.keys[i]])
  }

  /** The locks a call has acquired and not yet released. */
  ghost function Taken(h: Hold): seq<LockObject> {
    if h.held <= |h.locks| then h.locks[..h.held] else h.locks
  }

  /** The owner table is exactly what the threads have acquired. */
  ghost predicate OwnerOk(owner: map<LockObject, Thread>, holds: map<Thread, Hold>) {
    forall t, l :: t in holds && l in Taken(holds[t]) <==> l in owner && owner[l] == t
  }

  ghost predicate Inv(s: State) {
    && RegistryOk(s.registry, s.nextLock)
    && (forall t :: t in s.holds ==> HoldOk(s.mode, s.registry, s.holds[t]))
    && OwnerOk(s.owner, s.holds)
  }

  lemma InitInv(mode: Mode)
    ensures Inv(Init(mode))
  {
  }

  lemma LocksDistinct(registry: map<string, LockObject>, nextLock: LockObject, h: Hold)
    requires RegistryOk(registry, nextLock) && Resolved(registry, h) && SortedBy(Before, h.keys)
    ensures forall i, j :: 0 <= i < j < |h.locks| ==> h.locks[i] != h.locks[j]
  {
    forall i, j | 0 <= i < j < |h.locks| ensures h.locks[i] != h.locks[j] {
      BeforeIrreflexive(h.keys[i]);
      assert h.keys[i] != h.keys[j];
    }
  }

  /** A call that starts, ends or moves on without a change of locks. */
  lemma OwnerUnmoved(owner: map<LockObject, Thread>, holds: map<Thread, Hold>, holds': map<Thread, Hold>, t: Thread)
    requires OwnerOk(owner, holds)
    requires forall u :: u != t ==> (u in holds <==> u in holds') && (u in holds ==> holds'[u] == holds[u])
    requires (if t in holds then Taken(holds[t]) else []) == (if t in holds' then Taken(holds'[t]) else [])
    ensures OwnerOk(owner, holds')
  {
    forall u, l ensures (u in holds' && l in Taken(holds'[u])) <==> (l in owner && owner[l] == u) {
      assert (u in holds && l in Taken(holds[u])) <==> (l in owner && owner[l] == u);
    }
  }

  /** One lock more in both tables. */
  lemma OwnerTakes(owner: map<LockObject, Thread>, holds: map<Thread, Hold>, t: Thread, h': Hold, next: LockObject)
    requires OwnerOk(owner, holds) && t in holds && next !in owner && Taken(h') == Taken(holds[t]) + [next]
    ensures OwnerOk(owner[next := t], holds[t := h'])
  {
    var owner', holds' := owner[next := t], holds[t := h'];
    forall u, l ensures (u in holds' && l in Taken(holds'[u])) <==> (l in owner' && owner'[l] == u) {
      assert (u in holds && l in Taken(holds[u])) <==> (l in owner && owner[l] == u);
    }
  }

  /** One lock less in both tables. */
  lemma OwnerReleases(owner: map<LockObject, Thread>, holds: map<Thread, Hold>, t: Thread, h': Hold, last: LockObject)
    requires OwnerOk(owner, holds) && t in holds && last in Taken(holds[t])
    requires forall l :: l in Taken(h') <==> l in Taken(holds[t]) && l != last
    ensures OwnerOk(owner - {last}, holds[t := h'])
  {
    var owner', holds' := owner - {last}, holds[t := h'];
    forall u, l ensures (u in holds' && l in Taken(holds'[u])) <==> (l in owner' && owner'[l] == u) {
      assert (u in holds && l in Taken(holds[u])) <==> (l in owner && owner[l] == u);
      assert (t in holds && last in Taken(holds[t])) <==> (last in owner && owner[last] == t);
    }
  }

  /** The other calls are as they were; check only the one that moved. */
  lemma HoldsKept(mode: Mode, registry: map<string, LockObject>, holds: map<Thread, Hold>, holds': map<Thread, Hold>,
                  t: Thread)
    requires forall u :: u in holds ==> HoldOk(mode, registry, holds[u])
    requires forall u :: u in holds' && u != t ==> u in holds && holds'[u] == holds[u]
    requires t in holds' ==> HoldOk(mode, registry, holds'[t])
    ensures forall u :: u in holds' ==> HoldOk(mode, registry, holds'[u])
  {
  }

  /** Moving along the same locks keeps a resolved call well-formed. */
  lemma HoldAdvances(mode: Mode, registry: map<string, LockObject>, h: Hold, held: nat, phase: Phase)
    requires HoldOk(mode, registry, h) && h.phase != Resolving && phase != Resolving && held <= |h.locks|
    requires phase == Inside ==> held == |h.locks|
    requires phase == Acquiring ==> held < |h.locks|
    ensures HoldOk(mode, registry, h.(held := held, phase := phase))
  {
  }

  /** The lock released last is one the call no longer has. */
  lemma TakenShrinks(registry: map<string, LockObject>, nextLock: LockObject, h: Hold)
    requires RegistryOk(registry, nextLock) && Resolved(registry, h) && SortedBy(Before, h.keys) &&
             0 < h.held <= |h.locks|
    ensures forall l :: l in Taken(h.(held := h.held - 1)) <==> l in Taken(h) && l != h.locks[h.held - 1]
  {
    LocksDistinct(registry, nextLock, h);
    assert Taken(h) == Taken(h.(held := h.held - 1)) + [h.locks[h.held - 1]];
  }

  lemma StepKeepsInv(s: State, a: Action)
    requires Inv(s) && Enabled(s, a)
    ensures Inv(Step(s, a))
  {
    match a {
      case Begin(t, ids) => BeginKeepsInv(s, t, ids);
      case Resolve(t) => ResolveKeepsInv(s, t);
      case Acquire(t) => AcquireKeepsInv(s, t);
      case GiveUp(t) => GiveUpKeepsInv(s, t);
      case Leave(t) => LeaveKeepsInv(s, t);
      case Release(t) => ReleaseKeepsInv(s, t);
      case Crash(ts) => CrashKeepsInv(s, ts);
    }
  }

  lemma CrashKeepsInv(s: State, ts: set<Thread>)
    requires Inv(s)
    ensures Inv(Step(s, Crash(ts)))
  {
    CrashKeepsOwner(s.owner, s.holds, ts);
  }

  lemma CrashKeepsOwner(owner: map<LockObject, Thread>, holds: map<Thread, Hold>, ts: set<Thread>)
    requires OwnerOk(owner, holds)
    ensures OwnerOk(map l | l in owner && owner[l] !in ts :: owner[l], holds - ts)
  {
    var owner', holds' := map l | l in owner && owner[l] !in ts :: owner[l], holds - ts;
    forall u, l ensures (u in holds' && l in Taken(holds'[u])) <==> (l in owner' && owner'[l] == u) {
      assert (u in holds && l in Taken(holds[u])) <==> (l in owner && owner[l] == u);
    }
  }

  lemma GiveUpKeepsInv(s: State, t: Thread)
    requires Inv(s) && Enabled(s, GiveUp(t))
    ensures Inv(Step(s, GiveUp(t)))
  {
    assert Taken(s.holds[t]) == [];
    HoldsKept(s.mode, s.registry, s.holds, s.holds - {t}, t);
    OwnerUnmoved(s.owner, s.holds, s.holds - {t}, t);
  }

  lemma LeaveKeepsInv(s: State, t: Thread)
    requires Inv(s) && Enabled(s, Leave(t))
    ensures Inv(Step(s, Leave(t)))
  {
    var s' := Step(s, Leave(t));
    assert Taken(s'.holds[t]) == Taken(s.holds[t]);
    HoldAdvances(s.mode, s.registry, s.holds[t], s.holds[t].held, Releasing);
    HoldsKept(s.mode, s.registry, s.holds, s'.holds, t);
    OwnerUnmoved(s.owner, s.holds, s'.holds, t);
  }

  lemma BeginKeepsInv(s: State, t: Thread, ids: seq<string>)
    requires Inv(s) && Enabled(s, Begin(t, ids))
    ensures Inv(Step(s, Begin(t, ids)))
  {
    SortedSetIsSorted(ids);
    assert ids[0] in NormaliseUserIds(ids).ordered;
    OwnerUnmoved(s.owner, s.holds, Step(s, Begin(t, ids)).holds, t);
  }

  lemma ResolveKeepsInv(s: State, t: Thread)
    requires Inv(s) && Enabled(s, Resolve(t))
    ensures Inv(Step(s, Resolve(t)))
  {
    var s' := Step(s, Resolve(t));
    RegisterSpec(s.registry, s.nextLock, s.holds[t].keys);
    forall u | u in s'.holds ensures HoldOk(s'.mode, s'.registry, s'.holds[u]) {
      assert HoldOk(s.mode, s.registry, s.holds[u]);
    }
    OwnerUnmoved(s.owner, s.holds, s'.holds, t);
  }

  lemma AcquireKeepsInv(s: State, t: Thread)
    requires Inv(s) && Enabled(s, Acquire(t))
    ensures Inv(Step(s, Acquire(t)))
  {
    var s' := Step(s, Acquire(t));
    var h := s.holds[t];
    assert Taken(s'.holds[t]) == Taken(h) + [h.locks[h.held]];
    HoldAdvances(s.mode, s.registry, h, h.held + 1, s'.holds[t].phase);
    HoldsKept(s.mode, s.registry, s.holds, s'.holds, t);
    OwnerTakes(s.owner, s.holds, t, s'.holds[t], h.locks[h.held]);
  }

  lemma OneLockLess(s: State, t: Thread, h: Hold, s': State)
    requires Inv(s) && t in s.holds && h == s.holds[t] && h.phase == Releasing && 0 < h.held <= |h.locks|
    requires s' == s.(owner := s.owner - {h.locks[h.held - 1]}, holds := s.holds[t := h.(held := h.held - 1)])
    ensures Inv(s')
  {
    TakenShrinks(s.registry, s.nextLock, h);
    HoldAdvances(s.mode, s.registry, h, h.held - 1, Releasing);
    assert h.locks[h.held - 1] == Taken(h)[h.held - 1];
    OwnerReleases(s.owner, s.holds, t, h.(held := h.held - 1), h.locks[h.held - 1]);
    HoldsKept(s.mode, s.registry, s.holds, s'.holds, t);
  }

  lemma ReleaseKeepsInv(s: State, t: Thread)
    requires Inv(s) && Enabled(s, Release(t))
    ensures Inv(Step(s, Release(t)))
  {
    var s' := Step(s, Release(t));
    var h := s.holds[t];
    if h.held == 0 {
      assert Taken(h) == [];
      OwnerUnmoved(s.owner, s.holds, s'.holds, t);
      HoldsKept(s.mode, s.registry, s.holds, s'.holds, t);
    } else {
      OneLockLess(s, t, h, s');
    }
  }

  /** A step moves only its own thread's call, keeps that call's ids, and ends
      the critical section only by leaving it. */
  lemma StepMovesOneHold(s: State, a: Action)
    requires Enabled(s, a) && !a.Begin? && !a.Crash?
    ensures Step(s, a).holds.Keys == s.holds.Keys || Step(s, a).holds.Keys == s.holds.Keys - {a.t}
    ensures forall u :: u in Step(s, a).holds && u != a.t ==> Step(s, a).holds[u] == s.holds[u]
    ensures a.t in Step(s, a).holds ==> Step(s, a).holds[a.t].ids == s.holds[a.t].ids
    ensures s.holds[a.t].phase == Inside ==> a.Leave?
  {
  }

  // ---- Mutual exclusion ----

  /** A thread in its critical section owns the lock object of each of its keys. */
  lemma InsideOwnsKeys(s: State, t: Thread, k: string)
    requires Inv(s) && t in s.holds && s.holds[t].phase == Inside && k in s.holds[t].keys
    ensures k in s.registry && s.registry[k] in s.owner && s.owner[s.registry[k]] == t
  {
    var h := s.holds[t];
    var i :| 0 <= i < |h.keys| && h.keys[i] == k;
    assert h.locks[i] in Taken(h);
  }

  /** Threads inside their critical sections have no user id in common, and
      under the coarse manager only one thread is inside. */
  lemma MutualExclusion(s: State, t: Thread, u: Thread, x: string)
    requires Inv(s)
    requires t in s.holds && s.holds[t].phase == Inside
    requires u in s.holds && s.holds[u].phase == Inside
    requires s.mode == Coarse || (x in s.holds[t].ids && x in s.holds[u].ids)
    ensures t == u
  {
    var k := if s.mode == Coarse then GLOBAL_KEY else x;
    InsideOwnsKeys(s, t, k);
    InsideOwnsKeys(s, u, k);
  }

  // ---- Deadlock freedom ----

  ghost predicate CanStep(s: State, t: Thread) {
    exists a: Action :: !a.Crash? && a.t == t && !a.Begin? && !a.GiveUp? && Enabled(s, a)
  }

  /** The key a thread waits for. */
  ghost function Wanted(h: Hold): string
    requires h.held < |h.keys|
  {
    h.keys[h.held]
  }

  ghost predicate Blocked(s: State, t: Thread) {
    && t in s.holds && s.holds[t].phase == Acquiring
    && s.holds[t].held < |s.holds[t].locks| == |s.holds[t].keys|
    && s.holds[t].locks[s.holds[t].held] in s.owner
  }

  lemma CanStepUnlessBlocked(s: State, t: Thread)
    requires Inv(s) && t in s.holds && !Blocked(s, t)
    ensures CanStep(s, t)
  {
    match s.holds[t].phase {
      case Resolving => assert Enabled(s, Resolve(t)) && Resolve(t).t == t;
      case Acquiring => assert Enabled(s, Acquire(t)) && Acquire(t).t == t;
      case Inside => assert Enabled(s, Leave(t)) && Leave(t).t == t;
      case Releasing => assert Enabled(s, Release(t)) && Release(t).t == t;
    }
  }

  /** Whoever owns the lock a blocked thread wants, if itself blocked, wants a
      strictly later key: acquisition follows one global order. */
  lemma OwnerWantsLater(s: State, t: Thread)
    requires Inv(s) && Blocked(s, t)
    ensures var u := s.owner[s.holds[t].locks[s.holds[t].held]];
            && u in s.holds
            && (Blocked(s, u) ==> Before(Wanted(s.holds[t]), Wanted(s.holds[u])))
  {
    var l := s.holds[t].locks[s.holds[t].held];
    var u := s.owner[l];
    assert l in Taken(s.holds[u]);
    var i :| 0 <= i < s.holds[u].held && s.holds[u].locks[i] == l;
    assert s.holds[u].keys[i] == Wanted(s.holds[t]);
  }

  /** If every blocked member of a finite set waits for a member, and blocked
      members wait for ever later keys along the way, then following the waits
      runs out of the members still to visit unless it meets one not blocked. */
  lemma {:induction false} ChaseOwners(all: set<Thread>, blocked: Thread -> bool, owner: Thread -> Thread,
                                       wanted: Thread -> string,
                                       t: Thread, unvisited: set<Thread>)
    requires forall v :: v in all && blocked(v) ==>
             owner(v) in all && (blocked(owner(v)) ==> Before(wanted(v), wanted(owner(v))))
    requires t in unvisited && unvisited <= all
    requires forall v :: v in all && v !in unvisited ==> blocked(v) && (blocked(t) ==> Before(wanted(v), wanted(t)))
    ensures exists u :: u in all && !blocked(u)
    decreases unvisited
  {
    if blocked(t) {
      var u := owner(t);
      if blocked(u) {
        forall v | v in all && v !in unvisited - {t} ensures Before(wanted(v), wanted(u)) {
          if v != t { BeforeTransitive(wanted(v), wanted(t), wanted(u)); }
        }
        BeforeIrreflexive(wanted(u));
        ChaseOwners(all, blocked, owner, wanted, u, unvisited - {t});
      }
    }
  }

  /** In every state that keeps the invariant, if some `hold` call is unfinished
      then some unfinished call can take its own next step. */
  lemma DeadlockFree(s: State)
    requires Inv(s) && s.holds != map[]
    ensures exists t :: t in s.holds && CanStep(s, t)
  {
    var u := SomeoneIsFree(s);
    CanStepUnlessBlocked(s, u);
  }

  /** The thread a blocked call waits for, and the key it waits at. */
  ghost function WaitsFor(s: State, t: Thread): Thread {
    if Blocked(s, t) then s.owner[s.holds[t].locks[s.holds[t].held]] else t
  }

  ghost function WaitsAt(s: State, t: Thread): string { if Blocked(s, t) then Wanted(s.holds[t]) else "" }

  lemma WaitsForLater(s: State, v: Thread)
    requires Inv(s) && Blocked(s, v)
    ensures WaitsFor(s, v) in s.holds
    ensures Blocked(s, WaitsFor(s, v)) ==> Before(WaitsAt(s, v), WaitsAt(s, WaitsFor(s, v)))
  {
    OwnerWantsLater(s, v);
  }

  lemma SomeoneIsFree(s: State) returns (u: Thread)
    requires Inv(s) && s.holds != map[]
    ensures u in s.holds && !Blocked(s, u)
  {
    var t :| t in s.holds;
    forall v | v in s.holds.Keys && Blocked(s, v)
      ensures WaitsFor(s, v) in s.holds.Keys
      ensures Blocked(s, WaitsFor(s, v)) ==> Before(WaitsAt(s, v), WaitsAt(s, WaitsFor(s, v))) {
      WaitsForLater(s, v);
    }
    ChaseOwners(s.holds.Keys, (v: Thread) => Blocked(s, v), (v: Thread) => WaitsFor(s, v),
                (v: Thread) => WaitsAt(s, v), t, s.holds.Keys);
    u :| u in s.holds.Keys && !Blocked(s, u);
  }

  // ---- Whole runs ----

  ghost predicate IsRun(states: seq<State>, actions: seq<Action>) {
    && |states| == |actions| + 1
    && (exists mode :: states[0] == Init(mode))
    && (forall i :: 0 <= i < |actions| ==>
        Enabled(states[i], actions[i]) && states[i + 1] == Step(states[i], actions[i]))
  }

  lemma {:induction false} RunKeepsInv(states: seq<State>, actions: seq<Action>, k: nat)
    requires IsRun(states, actions) && k < |states|
    ensures Inv(states[k])
  {
    if k == 0 {
      var mode :| states[0] == Init(mode);
      InitInv(mode);
    } else {
      RunKeepsInv(states, actions, k - 1);
      StepKeepsInv(states[k - 1], actions[k - 1]);
    }
  }

  /** Over every run of any number of `hold` calls with any ids: mutual exclusion
      on ids, and never a deadlock. */
  lemma RunsAreSafe(states: seq<State>, actions: seq<Action>, k: nat)
    requires IsRun(states, actions) && k < |states|
    ensures forall t, u, x ::
              && t in states[k].holds && states[k].holds[t].phase == Inside && x in states[k].holds[t].ids
              && u in states[k].holds && states[k].holds[u].phase == Inside && x in states[k].holds[u].ids
              ==> t == u
    ensures states[k].holds != map[] ==> exists t :: t in states[k].holds && CanStep(states[k], t)
  {
    RunKeepsInv(states, actions, k);
    forall t, u, x | t in states[k].holds && states[k].holds[t].phase == Inside && x in states[k].holds[t].ids
                  && u in states[k].holds && states[k].holds[u].phase == Inside && x in states[k].holds[u].ids
      ensures t == u
    {
      MutualExclusion(states[k], t, u, x);
    }
    if states[k].holds != map[] {
      DeadlockFree(states[k]);
    }
  }

  // ---- The acquisition timeout ----

  /** A coarse call that times out leaves no trace but the shared lock's entry: it
      may give up as long as it has acquired nothing, and nobody's lock changes. */
  lemma TimeoutLeavesNoTrace(s: State, t: Thread, ids: seq<string>)
    requires Inv(s) && s.mode == Coarse && Enabled(s, Begin(t, ids))
    ensures var s1 := Step(s, Begin(t, ids));
            Enabled(s1, Resolve(t)) &&
            var s2 := Step(s1, Resolve(t));
            Enabled(s2, GiveUp(t)) &&
            var s3 := Step(s2, GiveUp(t));
            && s3.holds == s.holds && s3.owner == s.owner
            && s3.registry.Keys == s.registry.Keys + {GLOBAL_KEY}
            && forall k :: k in s.registry ==> s3.registry[k] == s.registry[k]
  {
    RegisterSpec(s.registry, s.nextLock, [GLOBAL_KEY]);
  }
}
