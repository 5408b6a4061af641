/** Concurrent put, delete and reconcile calls on relying-party desired state, in
    one process: the store, the apply receipts, the per-client locks and the live
    Keycloak clients, step by step.  Every remote call may fail, and the process
    may stop between any two steps.

    `reconcile_all` is a sequence of `Reconcile` calls on ids read earlier; since
    a `Reconcile` call may start at any time with any id, stale id lists are
    covered. */
module RelyingPartyProtocol {
  import opened Wrappers
  import opened AdminOutcome
  import opened RelyingParty
  import opened RelyingPartyService
  import Locks = KeyedLocks
  import Ordering

  type Thread = Locks.Thread

  /** The receipt digest and the reading of a listing; the protocol's
      safety depends on neither. */
  datatype Rules = Rules(digest: Registration -> string, eyes: Reading)

  /** A stored record parses to a valid registration, or fails closed. */
  datatype Stored = Parsed(r: Registration) | Unparseable

  datatype Call = Put(r: Registration) | Remove(id: string) | Reconcile(id: string)

  function ClientOf(c: Call): string {
    match c
    case Put(r) => r.clientId
    case _ => c.id
  }

  datatype Pc =
    | Entering
    | ReadingReceipt(r: Registration)
    | Observing(r: Registration, receiptMatches: bool)
    | Creating(r: Registration)
    | Updating(r: Registration, uuid: string)
    | Verifying(r: Registration, expected: Option<string>)
    | Recording(r: Registration)
    | ObservingForDelete(r: Registration)
    | DeletingLive(uuid: string)
    | DeletingStored
    | DeletingReceipt
    | Finished

  datatype Task = Task(call: Call, pc: Pc)

  /** `live` maps each live client's UUID to the registration last applied to it.
      When `faithful`, listings show exactly the live clients and nobody else
      writes them. */
  datatype State = State(
    faithful: bool,
    store: map<string, Stored>,
    receipts: map<string, string>,
    live: map<string, Registration>,
    locks: Locks.State,
    tasks: map<Thread, Task>)

  function Init(faithful: bool, store: map<string, Stored>, receipts: map<string, string>,
                live: map<string, Registration>): State {
    State(faithful, store, receipts, live, Locks.Init(Locks.Keyed), map[])
  }

  /** The environment's part of a step: what a listing returns, how a write ends,
      the UUID a create would get and whether the reply names it. */
  datatype Env = Env(listing: Listing, outcome: Outcome, uuid: string, named: bool)

  datatype Action =
    | Start(t: Thread, call: Call)
    | Lock(a: Locks.Action)
    | Advance(t: Thread, env: Env)
    | Drift(live: map<string, Registration>)
    | Crash

  /** `ids` are the live clients with this client id, each once, in the order the
      listing shows them; reading an identifier off gives it or refuses it. */
  ghost predicate ListsLive(eyes: Reading, live: map<string, Registration>, id: string, clients: seq<Object>,
                            ids: seq<string>) {
    var shown := eyes.exact(id, clients);
    && |ids| == |shown|
    && (forall i :: 0 <= i < |ids| ==>
        ids[i] in live && live[ids[i]].clientId == id &&
        (eyes.uuid(shown[i]).Some? ==> eyes.uuid(shown[i]).value == ids[i]))
    && (forall i, j :: 0 <= i < j < |ids| ==> ids[i] != ids[j])
    && (forall u :: u in live && live[u].clientId == id ==> u in ids)
  }

  ghost predicate FaithfulListing(eyes: Reading, live: map<string, Registration>, id: string, clients: seq<Object>) {
    exists ids :: ListsLive(eyes, live, id, clients, ids)
  }

  ghost predicate EnvOk(rules: Rules, s: State, task: Task, env: Env) {
    && (s.faithful && env.listing.Listed? &&
        (task.pc.Observing? || task.pc.Verifying? || task.pc.ObservingForDelete?) ==>
          FaithfulListing(rules.eyes, s.live, ClientOf(task.call), env.listing.clients))
    && (task.pc.Creating? ==> env.uuid !in s.live)
  }

  ghost predicate Enabled(rules: Rules, s: State, a: Action) {
    match a
    case Start(t, call) => Locks.Enabled(s.locks, Locks.Begin(t, [ClientOf(call)]))
    case Lock(l) =>
        !l.Begin? && !l.Crash? && Locks.Enabled(s.locks, l) &&
            (l.Leave? ==> l.t in s.tasks && s.tasks[l.t].pc == Finished)
    case Advance(t, env) =>
      && t in s.tasks && t in s.locks.holds && s.locks.holds[t].phase == Locks.Inside && s.tasks[t].pc != Finished
      && EnvOk(rules, s, s.tasks[t], env)
    case Drift(_) => !s.faithful
    case Crash => true
  }

  ghost function Step(rules: Rules, s: State, a: Action): State
    requires Enabled(rules, s, a)
  {
    match a
    case Start(t, call) =>
      s.(locks := Locks.Step(s.locks, Locks.Begin(t, [ClientOf(call)])), tasks := s.tasks[t := Task(call, Entering)])
    case Lock(l) =>
      var locks := Locks.Step(s.locks, l);
      s.(locks := locks, tasks := if l.t in locks.holds then s.tasks else s.tasks - {l.t})
    case Advance(t, env) =>
      var task := s.tasks[t];
      s.(store := StoreAfter(s.store, task), receipts := ReceiptsAfter(rules, s.receipts, task), live :=
         LiveAfter(s.live, task, env),
         tasks := s.tasks[t := task.(pc := PcAfter(rules, s.store, s.receipts, s.live, task, env))])
    case Drift(live) => s.(live := live)
    // locks and calls live in the process; store and clients do not
    case Crash => s.(locks := Locks.Init(s.locks.mode), tasks := map[])
  }

  function StoreAfter(store: map<string, Stored>, task: Task): map<string, Stored> {
    if task.call.Put? && task.pc.Entering? then store[task.call.r.clientId := Parsed(task.call.r)]
    else if task.pc.DeletingStored? then store - {ClientOf(task.call)}
    else store
  }

  function ReceiptsAfter(rules: Rules, receipts: map<string, string>, task: Task): map<string, string> {
    if task.pc.Recording? then receipts[task.pc.r.clientId := rules.digest(task.pc.r)]
    else if task.pc.DeletingReceipt? then receipts - {ClientOf(task.call)}
    else receipts
  }

  function LiveAfter(live: map<string, Registration>, task: Task, env: Env): map<string, Registration> {
    if !env.outcome.Applied() then live else
    match task.pc
    case Creating(r) => live[env.uuid := r]
    case Updating(r, uuid) => if uuid in live then live[uuid := r] else live
    case DeletingLive(uuid) => live - {uuid}
    case _ => live
  }

  /** The stored registration, if there is one and it is for this id. */
  function Lookup(store: map<string, Stored>, id: string): Option<Registration> {
    if id in store && store[id].Parsed? && store[id].r.clientId == id then Some(store[id].r) else None
  }

  /** What a delete does about its listing. */
  ghost function DeletePlan(eyes: Reading, id: string, listing: Listing): Pc {
    if listing.ListRaised? then Finished
    else
      var matches := eyes.exact(id, listing.clients);
      if |matches| > 1 then Finished
      else if matches == [] then DeletingStored
      else if eyes.uuid(matches[0]).None? then Finished
      else DeletingLive(eyes.uuid(matches[0]).value)
  }

  ghost function PcAfter(rules: Rules, store: map<string, Stored>, receipts: map<string, string>,
                         live: map<string, Registration>, task: Task, env: Env): Pc {
    match task.pc
    case Entering =>
      (match task.call
       case Put(r) => ReadingReceipt(r)
       case Remove(id) => if Lookup(store, id).Some? then ObservingForDelete(Lookup(store, id).value) else Finished
       case Reconcile(id) => if Lookup(store, id).Some? then ReadingReceipt(Lookup(store, id).value) else Finished)
    case ReadingReceipt(r) => Observing(r, ReceiptMatches(rules.digest, r, receipts))
    case Observing(r, receiptMatches) =>
      (match PlanFor(rules.eyes, r, receiptMatches, env.listing)
       case Stop(_) => Finished
       case Create => Creating(r)
       case Update(uuid) => Updating(r, uuid))
    case Creating(r) =>
        if env.outcome == Succeeds then Verifying(r, if env.named then Some(env.uuid) else None) else Finished
    case Updating(r, uuid) => if env.outcome == Succeeds && uuid in live then Verifying(r, Some(uuid)) else Finished
    case Verifying(r, expected) =>
      (match VerdictOn(rules.eyes, r, expected, env.listing)
       case Rejected(_) => Finished
       case Verified(_) => Recording(r))
    case Recording(_) => Finished
    case ObservingForDelete(r) => DeletePlan(rules.eyes, r.clientId, env.listing)
    case DeletingLive(_) => if env.outcome == Succeeds then DeletingStored else Finished
    case DeletingStored => DeletingReceipt
    case DeletingReceipt => Finished
    case Finished => Finished
  }

  ghost predicate Reaches(rules: Rules, s: State, actions: seq<Action>, s': State)
    decreases |actions|
  {
    if actions == [] then s == s'
    else Enabled(rules, s, actions[0]) && Reaches(rules, Step(rules, s, actions[0]), actions[1..], s')
  }

  // ---- Locking invariant ----

  ghost predicate TaskOk(s: State, t: Thread)
    requires t in s.tasks && t in s.locks.holds
  {
    && s.locks.holds[t].ids == [ClientOf(s.tasks[t].call)]
    && (s.tasks[t].pc != Entering && s.tasks[t].pc != Finished ==> s.locks.holds[t].phase == Locks.Inside)
  }

  ghost predicate TasksOk(s: State) {
    && s.locks.mode == Locks.Keyed && s.tasks.Keys == s.locks.holds.Keys
    && (forall t :: t in s.tasks ==> TaskOk(s, t))
  }

  ghost predicate LocksOk(s: State) { Locks.Inv(s.locks) && TasksOk(s) }

  /** Two calls between their first and last step never work on one client. */
  lemma Exclusive(s: State, t: Thread, u: Thread)
    requires LocksOk(s) && t in s.tasks && u in s.tasks
    requires s.locks.holds[t].phase == Locks.Inside && s.locks.holds[u].phase == Locks.Inside
    requires ClientOf(s.tasks[t].call) == ClientOf(s.tasks[u].call)
    ensures t == u
  {
    assert TaskOk(s, t) && TaskOk(s, u);
    Locks.MutualExclusion(s.locks, t, u, ClientOf(s.tasks[t].call));
  }

  lemma StartKeepsTasks(rules: Rules, s: State, t: Thread, call: Call)
    requires TasksOk(s) && Enabled(rules, s, Start(t, call))
    ensures TasksOk(Step(rules, s, Start(t, call)))
  {
    var s' := Step(rules, s, Start(t, call));
    NormaliseOne(ClientOf(call));
    forall u | u in s'.tasks ensures TaskOk(s', u) { assert u != t ==> TaskOk(s, u); }
  }

  lemma LockKeepsTasks(rules: Rules, s: State, l: Locks.Action)
    requires TasksOk(s) && Enabled(rules, s, Lock(l))
    ensures TasksOk(Step(rules, s, Lock(l)))
  {
    var s' := Step(rules, s, Lock(l));
    Locks.StepMovesOneHold(s.locks, l);
    forall u | u in s'.tasks ensures u in s'.locks.holds && TaskOk(s', u) { assert TaskOk(s, u); }
  }

  lemma AdvanceKeepsTasks(rules: Rules, s: State, t: Thread, env: Env)
    requires TasksOk(s) && Enabled(rules, s, Advance(t, env))
    ensures TasksOk(Step(rules, s, Advance(t, env)))
  {
    var s' := Step(rules, s, Advance(t, env));
    forall u | u in s'.tasks ensures TaskOk(s', u) { assert TaskOk(s, u); }
  }

  lemma StepKeepsLocks(rules: Rules, s: State, a: Action)
    requires LocksOk(s) && Enabled(rules, s, a)
    ensures LocksOk(Step(rules, s, a))
  {
    match a {
      case Start(t, call) =>
        Locks.StepKeepsInv(s.locks, Locks.Begin(t, [ClientOf(call)]));
        StartKeepsTasks(rules, s, t, call);
      case Lock(l) =>
        Locks.StepKeepsInv(s.locks, l);
        LockKeepsTasks(rules, s, l);
      case Advance(t, env) => AdvanceKeepsTasks(rules, s, t, env);
      case Drift(_) =>
        forall u | u in s.tasks ensures TaskOk(Step(rules, s, a), u) { assert TaskOk(s, u); }
      case Crash => Locks.InitInv(s.locks.mode);
    }
  }

  lemma NormaliseOne(id: string)
    requires id != ""
    ensures Locks.NormaliseUserIds([id]) == Locks.Ids([id])
  {
    assert [id][1..] == [] && Ordering.SortedSet([id][1..]) == [];
    assert Ordering.SortedSet([id]) == Ordering.Insert(id, []);
  }

  // ---- The registration in hand is the one in the store ----

  /** The registration a call is working with, while it may still send it. */
  function InHand(pc: Pc): Option<Registration> {
    if pc.ReadingReceipt? || pc.Observing? || pc.Creating? || pc.Updating? || pc.Verifying? || pc.Recording? ||
        pc.ObservingForDelete?
    then Some(pc.r) else None
  }

  ghost predicate Current(store: map<string, Stored>, task: Task) {
    && (InHand(task.pc).Some? ==> Lookup(store, ClientOf(task.call)) == InHand(task.pc))
    && (task.pc.DeletingLive? || task.pc.DeletingStored? ==> ClientOf(task.call) in store)
  }

  ghost predicate AllCurrent(s: State) { forall t :: t in s.tasks ==> Current(s.store, s.tasks[t]) }

  ghost predicate Inv(s: State) { LocksOk(s) && AllCurrent(s) }

  lemma OwnStepStaysCurrent(rules: Rules, store: map<string, Stored>, receipts: map<string, string>,
                            live: map<string, Registration>, task: Task, env: Env)
    requires Current(store, task)
    ensures Current(StoreAfter(store, task), task.(pc := PcAfter(rules, store, receipts, live, task, env)))
  {
  }

  /** A step writes the store only under its own client id. */
  lemma StoreKeptElsewhere(store: map<string, Stored>, task: Task, other: Task)
    requires ClientOf(other.call) != ClientOf(task.call) && Current(store, other)
    ensures Current(StoreAfter(store, task), other)
  {
  }

  lemma OtherClient(s: State, t: Thread, u: Thread)
    requires LocksOk(s) && t in s.tasks && u in s.tasks && t != u
    requires s.locks.holds[t].phase == Locks.Inside && s.locks.holds[u].phase == Locks.Inside
    ensures ClientOf(s.tasks[t].call) != ClientOf(s.tasks[u].call)
  {
    if ClientOf(s.tasks[t].call) == ClientOf(s.tasks[u].call) { Exclusive(s, t, u); }
  }

  /** A call that holds nothing yet, or has nothing left to do, relies on nothing. */
  lemma IdleOrElsewhere(s: State, t: Thread, u: Thread)
    requires LocksOk(s) && t in s.tasks && u in s.tasks && t != u && s.locks.holds[t].phase == Locks.Inside
    ensures s.tasks[u].pc == Entering || s.tasks[u].pc == Finished ||
            ClientOf(s.tasks[u].call) != ClientOf(s.tasks[t].call)
  {
    assert TaskOk(s, u);
    if s.locks.holds[u].phase == Locks.Inside { OtherClient(s, t, u); }
  }

  lemma AdvanceKeepsCurrent(rules: Rules, s: State, t: Thread, env: Env, u: Thread)
    requires Inv(s) && Enabled(rules, s, Advance(t, env)) && u in s.tasks
    ensures Current(Step(rules, s, Advance(t, env)).store, Step(rules, s, Advance(t, env)).tasks[u])
  {
    if u == t {
      OwnStepStaysCurrent(rules, s.store, s.receipts, s.live, s.tasks[t], env);
    } else {
      IdleOrElsewhere(s, t, u);
      if s.tasks[u].pc != Entering && s.tasks[u].pc != Finished {
        StoreKeptElsewhere(s.store, s.tasks[t], s.tasks[u]);
      }
    }
  }

  /** Other than a call's own steps, nothing writes the store or moves a call. */
  lemma OtherStepsKeepCurrent(rules: Rules, s: State, a: Action, u: Thread)
    requires Enabled(rules, s, a) && !a.Advance? && u in Step(rules, s, a).tasks
    ensures Step(rules, s, a).store == s.store && Step(rules, s, a).live == (if a.Drift? then a.live else s.live)
    ensures Step(rules, s, a).tasks[u].pc == Entering || (u in s.tasks && Step(rules, s, a).tasks[u] == s.tasks[u])
  {
  }

  lemma StepKeepsInv(rules: Rules, s: State, a: Action)
    requires Inv(s) && Enabled(rules, s, a)
    ensures Inv(Step(rules, s, a))
  {
    StepKeepsLocks(rules, s, a);
    StepKeepsCurrent(rules, s, a);
  }

  lemma StepKeepsCurrent(rules: Rules, s: State, a: Action)
    requires Inv(s) && Enabled(rules, s, a)
    ensures AllCurrent(Step(rules, s, a))
  {
    var s' := Step(rules, s, a);
    forall u | u in s'.tasks ensures Current(s'.store, s'.tasks[u]) {
      if a.Advance? {
        AdvanceKeepsCurrent(rules, s, a.t, a.env, u);
      } else {
        OtherStepsKeepCurrent(rules, s, a, u);
      }
    }
  }

  lemma {:induction false} RunKeepsInv(rules: Rules, s: State, actions: seq<Action>, s': State)
    requires Inv(s) && Reaches(rules, s, actions, s')
    ensures Inv(s')
    decreases |actions|
  {
    if actions != [] {
      StepKeepsInv(rules, s, actions[0]);
      RunKeepsInv(rules, Step(rules, s, actions[0]), actions[1..], s');
    }
  }

  /** The payload a step sends to the remote, if it sends one. */
  function Sends(s: State, a: Action): Option<Registration> {
    if a.Advance? && a.t in s.tasks && (s.tasks[a.t].pc.Creating? || s.tasks[a.t].pc.Updating?) then
        Some(s.tasks[a.t].pc.r) else None
  }

  /** In every interleaving, against any remote: a create or update carries
      exactly the registration stored for that client at the moment it is sent,
      so a stale value is never applied and a deleted record never recreated. */
  lemma NoStaleApply(rules: Rules, faithful: bool, store: map<string, Stored>, receipts: map<string, string>,
                     live: map<string, Registration>, actions: seq<Action>, s: State, a: Action)
    requires Reaches(rules, Init(faithful, store, receipts, live), actions, s) && Enabled(rules, s, a) &&
             Sends(s, a).Some?
    ensures var r := Sends(s, a).value; r.clientId in s.store && s.store[r.clientId] == Parsed(r)
  {
    Locks.InitInv(Locks.Keyed);
    RunKeepsInv(rules, Init(faithful, store, receipts, live), actions, s);
    assert Current(s.store, s.tasks[a.t]);
  }

  // ---- No orphans, no duplicates ----

  /** Every live client has a stored record, and no two share a client id. */
  ghost predicate NoOrphans(store: map<string, Stored>, live: map<string, Registration>) {
    && (forall u :: u in live ==> live[u].clientId in store)
    && (forall u, v :: u in live && v in live && live[u].clientId == live[v].clientId ==> u == v)
  }

  /** What a call that is about to write the remote knows of its client. */
  ghost predicate LiveKnown(live: map<string, Registration>, task: Task) {
    var id := ClientOf(task.call);
    match task.pc
    case Creating(_) => forall u :: u in live ==> live[u].clientId != id
    case Updating(_, uuid) => uuid in live && live[uuid].clientId == id
    case DeletingLive(uuid) => uuid in live && forall u :: u in live ==> (live[u].clientId == id <==> u == uuid)
    case DeletingStored => forall u :: u in live ==> live[u].clientId != id
    case _ => true
  }

  ghost predicate LiveInv(s: State) {
    && Inv(s) && NoOrphans(s.store, s.live)
    && (forall t :: t in s.tasks ==> LiveKnown(s.live, s.tasks[t]))
  }

  /** A faithful listing of at most one client tells all there is. */
  lemma ListingTellsAll(eyes: Reading, live: map<string, Registration>, id: string, clients: seq<Object>)
    requires FaithfulListing(eyes, live, id, clients)
    ensures eyes.exact(id, clients) == [] ==> forall u :: u in live ==> live[u].clientId != id
    ensures |eyes.exact(id, clients)| == 1 && eyes.uuid(eyes.exact(id, clients)[0]).Some? ==>
              var uuid := eyes.uuid(eyes.exact(id, clients)[0]).value;
              && uuid in live
              && (forall u :: u in live ==> (live[u].clientId == id <==> u == uuid))
  {
    var ids :| ListsLive(eyes, live, id, clients, ids);
  }

  /** A request that is not a listing leaves its call knowing what it needs. */
  lemma OwnWriteKnows(rules: Rules, store: map<string, Stored>, receipts: map<string, string>,
                      live: map<string, Registration>, task: Task, env: Env)
    requires Current(store, task) && LiveKnown(live, task)
    requires !task.pc.Observing? && !task.pc.ObservingForDelete?
    ensures LiveKnown(LiveAfter(live, task, env), task.(pc := PcAfter(rules, store, receipts, live, task, env)))
  {
  }

  lemma OwnListingKnows(rules: Rules, store: map<string, Stored>, receipts: map<string, string>,
                        live: map<string, Registration>, task: Task, env: Env)
    requires Current(store, task)
    requires task.pc.Observing? || task.pc.ObservingForDelete?
    requires env.listing.Listed? ==> FaithfulListing(rules.eyes, live, ClientOf(task.call), env.listing.clients)
    ensures LiveKnown(live, task.(pc := PcAfter(rules, store, receipts, live, task, env)))
  {
    match task.pc {
      case Observing(r, receiptMatches) => PlanKnows(rules.eyes, live, r, receiptMatches, env.listing);
      case ObservingForDelete(r) => DeletePlanKnows(rules.eyes, live, task.call, env.listing);
    }
  }

  lemma PlanKnows(eyes: Reading, live: map<string, Registration>, r: Registration, receiptMatches: bool,
                  listing: Listing)
    requires listing.Listed? ==> FaithfulListing(eyes, live, r.clientId, listing.clients)
    ensures var plan := PlanFor(eyes, r, receiptMatches, listing);
            && (plan.Create? ==> forall u :: u in live ==> live[u].clientId != r.clientId)
            && (plan.Update? ==> plan.uuid in live && live[plan.uuid].clientId == r.clientId)
  {
    if listing.Listed? { ListingTellsAll(eyes, live, r.clientId, listing.clients); }
  }

  lemma DeletePlanKnows(eyes: Reading, live: map<string, Registration>, call: Call, listing: Listing)
    requires listing.Listed? ==> FaithfulListing(eyes, live, ClientOf(call), listing.clients)
    ensures LiveKnown(live, Task(call, DeletePlan(eyes, ClientOf(call), listing)))
  {
    if listing.Listed? { ListingTellsAll(eyes, live, ClientOf(call), listing.clients); }
  }

  /** A step touches only live clients that carry its own client id. */
  lemma OtherClientsKept(store: map<string, Stored>, live: map<string, Registration>, task: Task, env: Env, u: string)
    requires Current(store, task) && LiveKnown(live, task) && (task.pc.Creating? ==> env.uuid !in live)
    ensures u in live && live[u].clientId != ClientOf(task.call) ==>
              u in LiveAfter(live, task, env) && LiveAfter(live, task, env)[u] == live[u]
    ensures u in LiveAfter(live, task, env) && LiveAfter(live, task, env)[u].clientId != ClientOf(task.call) ==>
              u in live && live[u] == LiveAfter(live, task, env)[u]
  {
  }

  lemma OtherStillKnows(store: map<string, Stored>, live: map<string, Registration>, task: Task, env: Env,
                        other: Task)
    requires Current(store, task) && LiveKnown(live, task) && (task.pc.Creating? ==> env.uuid !in live)
    requires LiveKnown(live, other) && ClientOf(other.call) != ClientOf(task.call)
    ensures LiveKnown(LiveAfter(live, task, env), other)
  {
    forall u ensures u in live && live[u].clientId == ClientOf(other.call) <==>
                     u in LiveAfter(live, task, env) && LiveAfter(live, task, env)[u].clientId ==
                         ClientOf(other.call) {
      OtherClientsKept(store, live, task, env, u);
    }
    if other.pc.DeletingLive? {
      OtherClientsKept(store, live, task, env, other.pc.uuid);
    }
  }

  lemma AdvanceKeepsNoOrphans(store: map<string, Stored>, live: map<string, Registration>, task: Task, env: Env)
    requires NoOrphans(store, live) && Current(store, task) && LiveKnown(live, task) &&
             (task.pc.Creating? ==> env.uuid !in live)
    ensures NoOrphans(StoreAfter(store, task), LiveAfter(live, task, env))
  {
  }

  lemma OwnAdvanceKnows(rules: Rules, store: map<string, Stored>, receipts: map<string, string>,
                        live: map<string, Registration>, task: Task, env: Env)
    requires Current(store, task) && LiveKnown(live, task)
    requires env.listing.Listed? && (task.pc.Observing? || task.pc.ObservingForDelete?) ==>
               FaithfulListing(rules.eyes, live, ClientOf(task.call), env.listing.clients)
    ensures LiveKnown(LiveAfter(live, task, env), task.(pc := PcAfter(rules, store, receipts, live, task, env)))
  {
    if task.pc.Observing? || task.pc.ObservingForDelete? {
      OwnListingKnows(rules, store, receipts, live, task, env);
    } else {
      OwnWriteKnows(rules, store, receipts, live, task, env);
    }
  }

  lemma AdvanceKeepsKnown(rules: Rules, s: State, t: Thread, env: Env, u: Thread)
    requires LiveInv(s) && s.faithful && Enabled(rules, s, Advance(t, env)) && u in s.tasks
    ensures LiveKnown(Step(rules, s, Advance(t, env)).live, Step(rules, s, Advance(t, env)).tasks[u])
  {
    var task := s.tasks[t];
    if u == t {
      OwnAdvanceKnows(rules, s.store, s.receipts, s.live, task, env);
    } else {
      IdleOrElsewhere(s, t, u);
      if s.tasks[u].pc != Entering && s.tasks[u].pc != Finished {
        OtherStillKnows(s.store, s.live, task, env, s.tasks[u]);
      }
    }
  }

  lemma StepKeepsLiveInv(rules: Rules, s: State, a: Action)
    requires LiveInv(s) && s.faithful && Enabled(rules, s, a)
    ensures LiveInv(Step(rules, s, a)) && Step(rules, s, a).faithful
  {
    StepKeepsInv(rules, s, a);
    var s' := Step(rules, s, a);
    if a.Advance? {
      AdvanceKeepsNoOrphans(s.store, s.live, s.tasks[a.t], a.env);
    }
    forall u | u in s'.tasks ensures LiveKnown(s'.live, s'.tasks[u]) {
      if a.Advance? {
        AdvanceKeepsKnown(rules, s, a.t, a.env, u);
      } else {
        OtherStepsKeepCurrent(rules, s, a, u);
      }
    }
  }

  lemma {:induction false} RunKeepsLiveInv(rules: Rules, s: State, actions: seq<Action>, s': State)
    requires LiveInv(s) && s.faithful && Reaches(rules, s, actions, s')
    ensures LiveInv(s')
    decreases |actions|
  {
    if actions != [] {
      StepKeepsLiveInv(rules, s, actions[0]);
      RunKeepsLiveInv(rules, Step(rules, s, actions[0]), actions[1..], s');
    }
  }

  /** Against a faithful remote, from a start without orphans or duplicates:
      after every step of every run, with calls failing before or after taking
      effect and the process stopping anywhere, every live client has a stored
      record and no client id is live twice. */
  lemma NeverAnOrphan(rules: Rules, store: map<string, Stored>, receipts: map<string, string>,
                      live: map<string, Registration>,
                      actions: seq<Action>, s: State)
    requires NoOrphans(store, live) && Reaches(rules, Init(true, store, receipts, live), actions, s)
    ensures NoOrphans(s.store, s.live)
  {
    Locks.InitInv(Locks.Keyed);
    RunKeepsLiveInv(rules, Init(true, store, receipts, live), actions, s);
  }
}
