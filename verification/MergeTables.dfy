/** The merge protocol with the accounts' links, roles and groups in its state:
    every move request is one step among those of all other calls, and what a merge
    conserves is conserved in every interleaving. */
module MergeTables {
  import opened Wrappers
  import opened AdminOutcome
  import opened Matching
  import opened KeyedItems
  import opened AccountMerge
  import Base = MergeProtocol
  import Locks = KeyedLocks

  type Thread = Base.Thread

  datatype Item = LinkItem(l: Link) | RoleItem(r: Role) | GroupItem(g: Group)
  datatype ItemKey = LinkAt(provider: string) | RoleAt(role: (Option<string>, string)) | GroupAt(id: string)

  function Key(x: Item): ItemKey {
    match x
    case LinkItem(l) => LinkAt(LinkKey(l))
    case RoleItem(r) => RoleAt(RoleKey(r))
    case GroupItem(g) => GroupAt(GroupKey(g))
  }

  /** Two items that one account can hold only one of: links to one provider, roles
      of one client (or the realm) and name, memberships of one group. */
  predicate SamePlace(x: Item, y: Item) {
    || (x.LinkItem? && y.LinkItem? && x.l.provider == y.l.provider)
    || (x.RoleItem? && y.RoleItem? && x.r.clientId == y.r.clientId && x.r.name == y.r.name)
    || (x.GroupItem? && y.GroupItem? && x.g.groupId == y.g.groupId)
  }

  lemma KeyIsPlace(x: Item, y: Item)
    ensures Key(x) == Key(y) <==> SamePlace(x, y)
  {}

  type Table = map<string, seq<Item>>

  /** The two lists of a merge in one table. */
  datatype Lists = Lists(survivor: seq<Item>, duplicate: seq<Item>)

  function ListsOf(table: Table, c: Base.Call): Lists
    requires c.Merge?
  {
    Lists(Of(table, c.survivor), Of(table, c.duplicate))
  }

  /** How far a merge has moved: the table it works on (links, roles, groups, or 3
      when done), what it has read of it, the item it is at, and whether that item
      is attached already. `entry` is what it found when it was admitted. */
  datatype Work = Work(entry: seq<Lists>, stage: nat, have: Option<seq<Item>>, todo: Option<seq<Item>>, next: nat,
                       attached: bool)

  datatype Request = ReadSurvivor | ReadDuplicate | Attach(x: Item) | Detach(x: Item) | NoRequest

  function NextRequest(w: Work): Request {
    if w.stage >= 3 then NoRequest
    else if w.have.None? then ReadSurvivor
    else if w.todo.None? then ReadDuplicate
    else if w.next >= |w.todo.value| then NoRequest
    else
      var x := w.todo.value[w.next];
      if w.attached || exists y :: y in w.have.value && Key(y) == Key(x) then Detach(x) else Attach(x)
  }

  /** On to the next table when this one is done. */
  function Settle(w: Work): Work {
    if w.todo.Some? && w.next == |w.todo.value| then Work(w.entry, w.stage + 1, None, None, 0, false) else w
  }

  function WorkAfter(w: Work, table: Table, c: Base.Call, q: Request): Work
    requires c.Merge?
  {
    match q
    case ReadSurvivor => w.(have := Some(Of(table, c.survivor)))
    case ReadDuplicate => Settle(w.(todo := Some(Of(table, c.duplicate))))
    case Attach(_) => w.(attached := true)
    case Detach(_) => Settle(w.(next := w.next + 1, attached := false))
    case NoRequest => w
  }

  function TableAfter(table: Table, c: Base.Call, q: Request): Table
    requires c.Merge?
  {
    match q
    case Attach(x) => table[c.survivor := Of(table, c.survivor) + [x]]
    case Detach(x) => table[c.duplicate := Without(Key, {Key(x)}, Of(table, c.duplicate))]
    case _ => table
  }

  /** The tables and the work after a request of a merge that moves. */
  function TablesAfter(tables: seq<Table>, c: Base.Call, w: Work, outcome: Outcome): seq<Table>
    requires c.Merge? && w.stage < |tables|
  {
    if outcome.Applied() then tables[w.stage := TableAfter(tables[w.stage], c, NextRequest(w))] else tables
  }

  function WorkThen(tables: seq<Table>, c: Base.Call, w: Work, outcome: Outcome): Work
    requires c.Merge? && w.stage < |tables|
  {
    if outcome == Succeeds then WorkAfter(w, tables[w.stage], c, NextRequest(w)) else w
  }

  // ---- The protocol ----

  datatype State = State(base: Base.State, tables: seq<Table>, work: map<Thread, Work>)

  function Init(mode: Locks.Mode, users: map<string, Base.User>, tables: seq<Table>): State {
    State(Base.Init(mode, users), tables, map[])
  }

  /** A merge is between its admission and its tombstone, and makes a request. */
  predicate Moves(s: State, a: Base.Action) {
    a.Api? && a.t in s.base.tasks && s.base.tasks[a.t].call.Merge? && s.base.tasks[a.t].pc == Base.Moving &&
        a.t in s.work
  }

  /** The request with which a merge is admitted. */
  predicate Admits(s: State, a: Base.Action) {
    && a.Api? && a.t in s.base.tasks && s.base.tasks[a.t].call.Merge? && s.base.tasks[a.t].pc.Deciding?
    && Base.PcAfter(s.base.users, s.base.tasks[a.t], a.outcome, a.choice) == Base.Moving
  }

  /** As in the protocol without tables, but whether another request follows is
      not free: it is what the lists say. */
  predicate Enabled(s: State, a: Base.Action) {
    && Base.Enabled(s.base, a)
    && (Moves(s, a) && s.work[a.t].stage < |s.tables| ==>
          a.choice == (WorkThen(s.tables, s.base.tasks[a.t].call, s.work[a.t], a.outcome).stage < 3))
  }

  function Started(tables: seq<Table>, c: Base.Call): Work
    requires c.Merge? && |tables| == 3
  {
    var entry := seq(3, i requires 0 <= i < 3 => ListsOf(tables[i], c));
    Settle(Work(entry, 0, Some(entry[0].survivor), Some(entry[0].duplicate), 0, false))
  }

  function Step(s: State, a: Base.Action): State
    requires Enabled(s, a) && |s.tables| == 3
  {
    var base := Base.Step(s.base, a);
    if Admits(s, a) then State(base, s.tables, s.work[a.t := Started(s.tables, s.base.tasks[a.t].call)])
    else if Moves(s, a) && s.work[a.t].stage < 3 then
      var w, c := s.work[a.t], s.base.tasks[a.t].call;
      State(base, TablesAfter(s.tables, c, w, a.outcome), s.work[a.t := WorkThen(s.tables, c, w, a.outcome)])
    else if a.Lock? && a.a.Leave? then State(base, s.tables, s.work - {a.a.t})
    else if a.Crash? then State(base, s.tables, s.work - a.ts)
    else State(base, s.tables, s.work)
  }

  ghost predicate Reaches(s: State, actions: seq<Base.Action>, s': State)
    requires |s.tables| == 3
    decreases |actions|
  {
    if actions == [] then s == s'
    else Enabled(s, actions[0]) && Reaches(Step(s, actions[0]), actions[1..], s')
  }

  /** Every run is a run of the protocol without tables, so whatever holds of those
      runs holds here. */
  lemma {:induction false} RunsProject(s: State, actions: seq<Base.Action>, s': State)
    requires |s.tables| == 3 && Reaches(s, actions, s')
    ensures Base.Reaches(s.base, actions, s'.base)
    decreases |actions|
  {
    if actions != [] { RunsProject(Step(s, actions[0]), actions[1..], s'); }
  }

  /** The same step of the protocol with another choice. */
  function Choosing(a: Base.Action, choice: bool): Base.Action { if a.Api? then a.(choice := choice) else a }

  /** Conversely the tables stop no step: each step the protocol can take can be
      taken here, with the choice the lists make if it is a move request. */
  lemma EveryStepHasTables(s: State, a: Base.Action)
    requires Base.Enabled(s.base, a)
    ensures !Moves(s, a) ==> Enabled(s, a)
    ensures exists choice :: Enabled(s, Choosing(a, choice))
  {
    if Moves(s, a) && s.work[a.t].stage < |s.tables| {
      assert Enabled(s, Choosing(a, WorkThen(s.tables, s.base.tasks[a.t].call, s.work[a.t], a.outcome).stage < 3));
    } else {
      assert Choosing(a, a.Api? && a.choice) == a;
    }
  }

  /** A step that carries calls in progress on: no new call, account or stop. */
  predicate CarriesOn(a: Base.Action) {
    !a.Start? && !a.Provision? && !a.Crash? && (a.Lock? ==> !a.a.GiveUp?)
  }

  /** So the protocol with tables never deadlocks either. */
  lemma SomeTaskCanStep(s: State)
    requires Base.Inv(s.base) && s.base.tasks != map[]
    ensures exists a :: Enabled(s, a) && CarriesOn(a)
  {
    Base.SomeTaskCanStep(s.base);
    var a :| Base.Enabled(s.base, a) && !a.Start? && !a.Provision? && !a.Crash? && (a.Lock? ==> !a.a.GiveUp?);
    EveryStepHasTables(s, a);
    var choice :| Enabled(s, Choosing(a, choice));
    assert CarriesOn(Choosing(a, choice));
  }

  // ---- One merge's own requests ----

  /** How many items of table `k` are attached and detached. */
  function Attached(w: Work, k: nat): nat
    requires |w.entry| == 3 && k < 3
  {
    if k < w.stage then |w.entry[k].duplicate| else if k == w.stage then w.next + (if w.attached then 1 else 0) else 0
  }

  function Detached(w: Work, k: nat): nat
    requires |w.entry| == 3 && k < 3
  {
    if k < w.stage then |w.entry[k].duplicate| else if k == w.stage then w.next else 0
  }

  ghost predicate MovedTo(e: Lists, now: Lists, added: nat, detached: nat) {
    MovedSoFar(Key, e.survivor, e.duplicate, now.survivor, now.duplicate, added, detached)
  }

  /** What the merge has read is what it found when it was admitted. */
  ghost predicate ReadOk(w: Work) {
    && |w.entry| == 3 && w.stage <= 3
    && (w.stage == 3 ==> w.have.None?) && (w.have.None? ==> w.todo.None?) &&
        (w.todo.None? ==> w.next == 0 && !w.attached)
    && (w.have.Some? ==> w.have.value == w.entry[w.stage].survivor)
    && (w.todo.Some? ==> w.todo.value == w.entry[w.stage].duplicate && w.next < |w.todo.value|)
    && (w.attached ==> Key(w.todo.value[w.next]) !in Keys(Key, w.have.value))
  }

  ghost predicate TablesOk(tables: seq<Table>, c: Base.Call, w: Work)
    requires c.Merge? && |tables| == 3 && |w.entry| == 3
  {
    forall k :: 0 <= k < 3 ==> MovedTo(w.entry[k], ListsOf(tables[k], c), Attached(w, k), Detached(w, k))
  }

  /** Each table is a move that got part-way. */
  ghost predicate TablesStopped(tables: seq<Table>, c: Base.Call, w: Work)
    requires c.Merge? && |tables| == 3 && |w.entry| == 3
  {
    forall k :: 0 <= k < 3 ==> StoppedLists(w.entry[k], ListsOf(tables[k], c))
  }

  ghost predicate StoppedLists(e: Lists, now: Lists) {
    Stopped(Key, e.survivor, e.duplicate, now.survivor, now.duplicate)
  }

  lemma PartWayIsStopped(e: Lists, now: Lists, added: nat, detached: nat)
    requires MovedTo(e, now, added, detached)
    ensures StoppedLists(e, now)
  {}

  lemma TablesOkIsStopped(tables: seq<Table>, c: Base.Call, w: Work)
    requires c.Merge? && |tables| == 3 && |w.entry| == 3 && TablesOk(tables, c, w)
    ensures TablesStopped(tables, c, w)
  {
    forall k | 0 <= k < 3 ensures StoppedLists(w.entry[k], ListsOf(tables[k], c)) {
      PartWayIsStopped(w.entry[k], ListsOf(tables[k], c), Attached(w, k), Detached(w, k));
    }
  }

  lemma StartedOk(tables: seq<Table>, c: Base.Call)
    requires c.Merge? && |tables| == 3
    ensures ReadOk(Started(tables, c)) && TablesOk(tables, c, Started(tables, c)) && Started(tables, c).stage < 3
  {
    var w := Started(tables, c);
    forall k | 0 <= k < 3 ensures MovedTo(w.entry[k], ListsOf(tables[k], c), Attached(w, k), Detached(w, k)) {
      NotStarted(Key, w.entry[k].survivor, w.entry[k].duplicate);
    }
  }

  /** Attaching the item the merge is at. */
  lemma AttachMoves(table: Table, c: Base.Call, e: Lists, i: nat)
    requires c.Merge? && c.survivor != c.duplicate && i < |e.duplicate| && MovedTo(e, ListsOf(table, c), i, i)
    requires Key(e.duplicate[i]) !in Keys(Key, e.survivor)
    ensures MovedTo(e, ListsOf(TableAfter(table, c, Attach(e.duplicate[i])), c), i + 1, i)
  {
    var now := ListsOf(table, c);
    AddNext(Key, e.survivor, e.duplicate, now.survivor, now.duplicate, i);
  }

  /** Detaching it, once it is attached. */
  lemma DetachMoves(table: Table, c: Base.Call, e: Lists, i: nat)
    requires c.Merge? && c.survivor != c.duplicate && i < |e.duplicate| && MovedTo(e, ListsOf(table, c), i + 1, i)
    ensures MovedTo(e, ListsOf(TableAfter(table, c, Detach(e.duplicate[i])), c), i + 1, i + 1)
  {
    var now := ListsOf(table, c);
    DetachNext(Key, e.survivor, e.duplicate, now.survivor, now.duplicate, i);
  }

  /** An item whose key the survivor had counts as attached. */
  lemma ConflictCounts(e: Lists, now: Lists, i: nat)
    requires i < |e.duplicate| && MovedTo(e, now, i, i) && Key(e.duplicate[i]) in Keys(Key, e.survivor)
    ensures MovedTo(e, now, i + 1, i)
  {
    AddNext(Key, e.survivor, e.duplicate, now.survivor, now.duplicate, i);
  }

  /** What a request leaves of the table it works on, whether or not its reply comes. */
  lemma RequestMoves(table: Table, c: Base.Call, w: Work)
    requires c.Merge? && c.survivor != c.duplicate && ReadOk(w) && w.stage < 3
    requires MovedTo(w.entry[w.stage], ListsOf(table, c), Attached(w, w.stage), Detached(w, w.stage))
    ensures var q := NextRequest(w); var now := ListsOf(TableAfter(table, c, q), c);
            match q
            case Attach(_) => MovedTo(w.entry[w.stage], now, w.next + 1, w.next)
            case Detach(_) => MovedTo(w.entry[w.stage], now, w.next + 1, w.next + 1)
            case NoRequest => false
            case _ => MovedTo(w.entry[w.stage], now, 0, 0)
  {
    var e := w.entry[w.stage];
    match NextRequest(w) {
      case Attach(x) => AttachMoves(table, c, e, w.next);
      case Detach(x) =>
        if !w.attached { ConflictCounts(e, ListsOf(table, c), w.next); }
        DetachMoves(table, c, e, w.next);
      case _ =>
    }
  }

  ghost predicate WorkOk(tables: seq<Table>, c: Base.Call, w: Work) {
    c.Merge? && |tables| == 3 && ReadOk(w) && TablesOk(tables, c, w)
  }

  lemma RequestKeepsRead(table: Table, c: Base.Call, w: Work)
    requires c.Merge? && ReadOk(w) && w.stage < 3
    requires MovedTo(w.entry[w.stage], ListsOf(table, c), Attached(w, w.stage), Detached(w, w.stage))
    ensures ReadOk(WorkAfter(w, table, c, NextRequest(w)))
  {
    var e := w.entry[w.stage];
    if w.next == 0 && !w.attached { UnmovedLists(e, ListsOf(table, c)); }
  }

  lemma UnmovedLists(e: Lists, now: Lists)
    requires MovedTo(e, now, 0, 0)
    ensures now == e
  {
    NotStarted(Key, e.survivor, e.duplicate);
  }

  lemma RequestSucceedsAt(tables: seq<Table>, c: Base.Call, w: Work, k: nat)
    requires WorkOk(tables, c, w) && c.survivor != c.duplicate && w.stage < 3 && k < 3
    requires ReadOk(WorkAfter(w, tables[w.stage], c, NextRequest(w)))
    ensures var q := NextRequest(w); var w' := WorkAfter(w, tables[w.stage], c, q);
            var table := if k == w.stage then TableAfter(tables[k], c, q) else tables[k];
            MovedTo(w'.entry[k], ListsOf(table, c), Attached(w', k), Detached(w', k))
  {
    var table := tables[w.stage];
    assert MovedTo(w.entry[w.stage], ListsOf(table, c), Attached(w, w.stage), Detached(w, w.stage));
    assert MovedTo(w.entry[k], ListsOf(tables[k], c), Attached(w, k), Detached(w, k));
    if w.todo.None? { UnmovedLists(w.entry[w.stage], ListsOf(table, c)); }
    RequestMoves(table, c, w);
    RequestCounts(w, table, c, k);
  }

  /** A successful request takes the merge to its next position. */
  lemma RequestSucceeds(tables: seq<Table>, c: Base.Call, w: Work)
    requires WorkOk(tables, c, w) && c.survivor != c.duplicate && w.stage < 3
    ensures var table, q := tables[w.stage], NextRequest(w);
            WorkOk(tables[w.stage := TableAfter(table, c, q)], c, WorkAfter(w, table, c, q))
  {
    var table, q := tables[w.stage], NextRequest(w);
    var tables', w' := tables[w.stage := TableAfter(table, c, q)], WorkAfter(w, table, c, q);
    RequestKeepsRead(table, c, w);
    forall k | 0 <= k < 3 ensures MovedTo(w'.entry[k], ListsOf(tables'[k], c), Attached(w', k), Detached(w', k)) {
      RequestSucceedsAt(tables, c, w, k);
    }
  }

  /** The counts move with the request, on its own table alone. */
  lemma RequestCounts(w: Work, table: Table, c: Base.Call, k: nat)
    requires c.Merge? && ReadOk(w) && w.stage < 3 && k < 3 && ReadOk(WorkAfter(w, table, c, NextRequest(w)))
    requires w.todo.None? && w.have.Some? ==> Of(table, c.duplicate) == w.entry[w.stage].duplicate
    ensures var q := NextRequest(w); var w' := WorkAfter(w, table, c, q);
            && w'.entry == w.entry
            && (k != w.stage ==> Attached(w', k) == Attached(w, k) && Detached(w', k) == Detached(w, k))
            && (k == w.stage && q.Attach? ==> Attached(w', k) == w.next + 1 && Detached(w', k) == w.next)
            && (k == w.stage && q.Detach? ==> Attached(w', k) == w.next + 1 && Detached(w', k) == w.next + 1)
            && (k == w.stage && (q.ReadSurvivor? || q.ReadDuplicate?) ==>
                Attached(w', k) == 0 && Detached(w', k) == 0)
  {}

  /** A request without a reply leaves a move that got part-way. */
  lemma RequestRaises(tables: seq<Table>, c: Base.Call, w: Work)
    requires WorkOk(tables, c, w) && c.survivor != c.duplicate && w.stage < 3
    ensures TablesStopped(tables, c, w)
    ensures TablesStopped(tables[w.stage := TableAfter(tables[w.stage], c, NextRequest(w))], c, w)
  {
    var tables' := tables[w.stage := TableAfter(tables[w.stage], c, NextRequest(w))];
    TablesOkIsStopped(tables, c, w);
    RequestMoves(tables[w.stage], c, w);
    forall k | 0 <= k < 3 ensures StoppedLists(w.entry[k], ListsOf(tables'[k], c)) {
      if k == w.stage {
        var added, detached := (if NextRequest(w).Attach? || NextRequest(w).Detach? then w.next + 1 else 0),
                               (if NextRequest(w).Detach? then w.next + 1 else if NextRequest(w).Attach? then w.next
                                else 0);
        PartWayIsStopped(w.entry[k], ListsOf(tables'[k], c), added, detached);
      }
    }
  }

  // ---- Every interleaving ----

  /** What is known of a merge in its critical section, by where it stands. */
  ghost predicate MergeOk(tables: seq<Table>, task: Base.Task, w: Work) {
    && task.call.Merge? && task.call.survivor != task.call.duplicate && |tables| == 3 && ReadOk(w)
    && match task.pc
       case Moving => w.stage < 3 && TablesOk(tables, task.call, w)
       case Stamping => w.stage == 3 && TablesOk(tables, task.call, w)
       case Disabling => w.stage == 3 && TablesOk(tables, task.call, w)
       case Finished => TablesStopped(tables, task.call, w)
       case _ => false
  }

  predicate NeedsWork(task: Base.Task) {
    task.call.Merge? && (task.pc.Moving? || task.pc.Stamping? || task.pc.Disabling?)
  }

  /** A merge with work under way is in its critical section. */
  ghost predicate AtWork(s: State, t: Thread) {
    && t in s.work && t in s.base.tasks && t in s.base.locks.holds && s.base.locks.holds[t].phase == Locks.Inside
    && MergeOk(s.tables, s.base.tasks[t], s.work[t])
  }

  ghost predicate WorkInv(s: State) {
    && |s.tables| == 3
    && (forall t :: t in s.work ==> AtWork(s, t))
    && (forall t :: t in s.base.tasks && NeedsWork(s.base.tasks[t]) ==> t in s.work)
  }

  ghost predicate Inv(s: State) { Base.Inv(s.base) && WorkInv(s) }

  /** The lists of a merge see only its own two accounts. */
  lemma MergeOkFrame(tables: seq<Table>, tables': seq<Table>, task: Base.Task, w: Work)
    requires MergeOk(tables, task, w) && |tables'| == 3
    requires forall k :: 0 <= k < 3 ==> ListsOf(tables'[k], task.call) == ListsOf(tables[k], task.call)
    ensures MergeOk(tables', task, w)
  {}

  /** A merge's request touches no list but those of its two accounts. */
  lemma RequestFrame(table: Table, c: Base.Call, q: Request, id: string)
    requires c.Merge? && id != c.survivor && id != c.duplicate
    ensures Of(TableAfter(table, c, q), id) == Of(table, id)
  {}

  lemma OwnRequest(users: map<string, Base.User>, tables: seq<Table>, task: Base.Task, w: Work, outcome: Outcome,
                   choice: bool)
    requires MergeOk(tables, task, w) && task.pc == Base.Moving
    requires outcome == Succeeds ==> choice == (WorkThen(tables, task.call, w, outcome).stage < 3)
    ensures MergeOk(TablesAfter(tables, task.call, w, outcome),
                    task.(pc := Base.PcAfter(users, task, outcome, choice)),
                    WorkThen(tables, task.call, w, outcome))
  {
    if outcome == Succeeds {
      RequestSucceeds(tables, task.call, w);
    } else {
      RequestRaises(tables, task.call, w);
    }
  }

  /** The tombstone requests leave the tables alone. */
  lemma OwnTombstone(users: map<string, Base.User>, tables: seq<Table>, task: Base.Task, w: Work, outcome: Outcome,
                     choice: bool)
    requires MergeOk(tables, task, w) && task.pc != Base.Moving
    ensures MergeOk(tables, task.(pc := Base.PcAfter(users, task, outcome, choice)), w)
  {
    if !task.pc.Finished? { TablesOkIsStopped(tables, task.call, w); }
  }

  /** The next request of `t`, on whatever table, leaves the lists of `u` alone. */
  ghost predicate Undisturbed(s: State, t: Thread, u: Thread, k: nat) {
    t in s.work && u in s.work && k < |s.tables| && t in s.base.tasks && u in s.base.tasks &&
    var c, d := s.base.tasks[t].call, s.base.tasks[u].call;
    c.Merge? && d.Merge? && ListsOf(TableAfter(s.tables[k], c, NextRequest(s.work[t])), d) == ListsOf(s.tables[k], d)
  }

  /** One call's request leaves every other merge's accounts alone. */
  lemma OthersMergesKept(s: State, t: Thread, u: Thread, k: nat)
    requires Inv(s) && t in s.work && u in s.work && t != u && k < 3 && s.work[t].stage < 3
    ensures Undisturbed(s, t, u, k)
  {
    var c, d := s.base.tasks[t].call, s.base.tasks[u].call;
    assert AtWork(s, t) && AtWork(s, u);
    forall x | x in Base.Ids(d) ensures x !in Base.Ids(c) {
      if x in Base.Ids(c) { Base.Exclusive(s.base, t, u, x); }
    }
    assert d.survivor in Base.Ids(d) && d.duplicate in Base.Ids(d) && c.survivor in Base.Ids(c) &&
           c.duplicate in Base.Ids(c);
    RequestFrame(s.tables[k], c, NextRequest(s.work[t]), d.survivor);
    RequestFrame(s.tables[k], c, NextRequest(s.work[t]), d.duplicate);
  }

  /** What a request leaves of its own merge. */
  lemma OwnApi(s: State, a: Base.Action)
    requires WorkInv(s) && Enabled(s, a) && a.Api? && a.t in s.work
    ensures AtWork(Step(s, a), a.t)
  {
    assert AtWork(s, a.t);
    if Moves(s, a) {
      OwnRequest(s.base.users, s.tables, s.base.tasks[a.t], s.work[a.t], a.outcome, a.choice);
    } else {
      OwnTombstone(s.base.users, s.tables, s.base.tasks[a.t], s.work[a.t], a.outcome, a.choice);
    }
  }

  /** What a request of another thread leaves of the state of `u`. */
  lemma OtherThreadKept(s: State, a: Base.Action, u: Thread)
    requires |s.tables| == 3 && Enabled(s, a) && a.Api? && u in s.work && u in s.base.tasks && u != a.t
    requires Moves(s, a) ==> s.work[a.t].stage < 3
    ensures var s' := Step(s, a);
            && u in s'.work && s'.work[u] == s.work[u] && u in s'.base.tasks && s'.base.tasks[u] == s.base.tasks[u]
            && s'.base.locks == s.base.locks
            && s'.tables == if Moves(s, a) then TablesAfter(s.tables, s.base.tasks[a.t].call, s.work[a.t], a.outcome)
                            else s.tables
  {}

  lemma OtherListsKept(tables: seq<Table>, c: Base.Call, w: Work, outcome: Outcome, d: Base.Call)
    requires |tables| == 3 && c.Merge? && d.Merge? && w.stage < 3
    requires ListsOf(TableAfter(tables[w.stage], c, NextRequest(w)), d) == ListsOf(tables[w.stage], d)
    ensures |TablesAfter(tables, c, w, outcome)| == 3
    ensures forall k :: 0 <= k < 3 ==> ListsOf(TablesAfter(tables, c, w, outcome)[k], d) == ListsOf(tables[k], d)
  {}

  /** What a request leaves of another merge. */
  lemma OtherApi(s: State, a: Base.Action, u: Thread)
    requires WorkInv(s) && Enabled(s, a) && a.Api? && u in s.work && u != a.t
    requires Moves(s, a) ==> Undisturbed(s, a.t, u, s.work[a.t].stage)
    ensures AtWork(Step(s, a), u)
  {
    assert AtWork(s, u);
    if Moves(s, a) {
      assert AtWork(s, a.t);
      OtherListsKept(s.tables, s.base.tasks[a.t].call, s.work[a.t], a.outcome, s.base.tasks[u].call);
    }
    OtherThreadKept(s, a, u);
    MergeOkFrame(s.tables, Step(s, a).tables, s.base.tasks[u], s.work[u]);
  }

  lemma AdmittedOk(s: State, a: Base.Action)
    requires WorkInv(s) && Enabled(s, a) && Admits(s, a) &&
             s.base.tasks[a.t].call.survivor != s.base.tasks[a.t].call.duplicate
    ensures AtWork(Step(s, a), a.t)
  {
    StartedOk(s.tables, s.base.tasks[a.t].call);
  }

  lemma ApiKeepsAtWork(s: State, a: Base.Action, u: Thread)
    requires Inv(s) && Enabled(s, a) && a.Api? && u in s.work
    ensures AtWork(Step(s, a), u)
  {
    if u == a.t {
      OwnApi(s, a);
    } else {
      if Moves(s, a) {
        assert AtWork(s, a.t);
        OthersMergesKept(s, a.t, u, s.work[a.t].stage);
      }
      OtherApi(s, a, u);
    }
  }

  lemma AdmissionKeepsInv(s: State, a: Base.Action)
    requires Inv(s) && Enabled(s, a) && Admits(s, a)
    ensures AtWork(Step(s, a), a.t)
  {
    assert Base.TaskOk(s.base, a.t);
    AdmittedOk(s, a);
  }

  /** Which merges have work after a request. */
  lemma WorkersAfter(s: State, a: Base.Action)
    requires WorkInv(s) && Enabled(s, a) && a.Api?
    ensures forall u :: u in Step(s, a).work ==> u in s.work || (u == a.t && Admits(s, a))
    ensures forall u :: u in Step(s, a).base.tasks && NeedsWork(Step(s, a).base.tasks[u]) ==> u in Step(s, a).work
    ensures |Step(s, a).tables| == 3
  {}

  lemma ApiKeepsWork(s: State, a: Base.Action)
    requires Inv(s) && Enabled(s, a) && a.Api?
    ensures WorkInv(Step(s, a))
  {
    WorkersAfter(s, a);
    forall u | u in Step(s, a).work ensures AtWork(Step(s, a), u) {
      if u in s.work { ApiKeepsAtWork(s, a, u); } else { AdmissionKeepsInv(s, a); }
    }
  }

  lemma LockKeepsWork(s: State, a: Base.Action)
    requires WorkInv(s) && Enabled(s, a) && a.Lock?
    ensures WorkInv(Step(s, a))
  {
    Locks.StepMovesOneHold(s.base.locks, a.a);
    var s' := Step(s, a);
    forall u | u in s'.work ensures AtWork(s', u) {
      assert AtWork(s, u);
    }
  }

  /** A stop takes its own threads away and nothing else. */
  lemma CrashLeaves(s: State, a: Base.Action)
    requires |s.tables| == 3 && Enabled(s, a) && a.Crash?
    ensures var s' := Step(s, a);
            && s'.tables == s.tables && s'.work == s.work - a.ts && s'.base.tasks == s.base.tasks - a.ts
            && s'.base.locks.holds == s.base.locks.holds - a.ts
  {}

  lemma CrashKeepsWork(s: State, s': State, ts: set<Thread>)
    requires WorkInv(s) && s'.tables == s.tables && s'.work == s.work - ts && s'.base.tasks == s.base.tasks - ts
    requires s'.base.locks.holds == s.base.locks.holds - ts
    ensures WorkInv(s')
  {
    forall u | u in s'.work ensures AtWork(s', u) {
      assert AtWork(s, u);
    }
  }

  lemma NewcomerKeepsWork(s: State, a: Base.Action)
    requires WorkInv(s) && Enabled(s, a) && (a.Start? || a.Provision?)
    ensures WorkInv(Step(s, a))
  {
    var s' := Step(s, a);
    forall u | u in s'.work ensures AtWork(s', u) {
      assert AtWork(s, u);
    }
  }

  lemma StepKeepsInv(s: State, a: Base.Action)
    requires Inv(s) && Enabled(s, a)
    ensures Inv(Step(s, a))
  {
    Base.StepKeepsInv(s.base, a);
    match a {
      case Api(_, _, _) => ApiKeepsWork(s, a);
      case Lock(_) => LockKeepsWork(s, a);
      case Crash(ts) =>
        CrashLeaves(s, a);
        CrashKeepsWork(s, Step(s, a), ts);
      case _ => NewcomerKeepsWork(s, a);
    }
  }

  lemma {:induction false} RunKeepsInv(s: State, actions: seq<Base.Action>, s': State)
    requires Inv(s) && Reaches(s, actions, s')
    ensures Inv(s')
    decreases |actions|
  {
    if actions != [] {
      StepKeepsInv(s, actions[0]);
      RunKeepsInv(Step(s, actions[0]), actions[1..], s');
    }
  }

  /** In every interleaving of any number of merges and SCIM calls, with any calls
      failing: from its admission until it leaves, each merge's three tables are
      survivor-wins moves of what it found that got part-way, and complete ones
      before it stamps its duplicate. */
  lemma InterleavedMergesConserve(mode: Locks.Mode, users: map<string, Base.User>, tables: seq<Table>,
                                  actions: seq<Base.Action>, s: State, t: Thread, k: nat)
    requires |tables| == 3 && Reaches(Init(mode, users, tables), actions, s) && t in s.work && k < 3
    ensures |s.tables| == 3 && t in s.base.tasks && s.base.tasks[t].call.Merge? && |s.work[t].entry| == 3
    ensures var e, now := s.work[t].entry[k], ListsOf(s.tables[k], s.base.tasks[t].call);
            && StoppedLists(e, now)
            && (s.base.tasks[t].pc.Stamping? || s.base.tasks[t].pc.Disabling? ==>
                 now == Lists(e.survivor + Without(Key, Keys(Key, e.survivor), e.duplicate), []))
  {
    Base.InitInv(mode, users);
    RunKeepsInv(Init(mode, users, tables), actions, s);
    var c, w := s.base.tasks[t].call, s.work[t];
    assert AtWork(s, t);
    if !s.base.tasks[t].pc.Finished? {
      TablesOkIsStopped(s.tables, c, w);
      var e, now := w.entry[k], ListsOf(s.tables[k], c);
      assert MovedTo(e, now, Attached(w, k), Detached(w, k));
      if w.stage == 3 { MoveDone(Key, e.survivor, e.duplicate, now.survivor, now.duplicate); }
    }
  }

  // ---- Where every item goes ----

  /** The account holds an item with this key. */
  ghost predicate Holds(table: Table, id: string, key: ItemKey) {
    id in table && key in Keys(Key, table[id])
  }

  /** A detach leaves its key with the survivor. */
  lemma DetachIsCovered(table: Table, c: Base.Call, w: Work, x: Item)
    requires c.Merge? && c.survivor != c.duplicate && ReadOk(w) && w.stage < 3 && NextRequest(w) == Detach(x)
    requires MovedTo(w.entry[w.stage], ListsOf(table, c), Attached(w, w.stage), Detached(w, w.stage))
    ensures Holds(table, c.survivor, Key(x))
  {
    var e, s := w.entry[w.stage], Of(table, c.survivor);
    if w.attached {
      assert e.duplicate[..w.next + 1][w.next] == x;
      WithoutMembers(Key, Keys(Key, e.survivor), e.duplicate[..w.next + 1], x);
      assert x in s;
    } else {
      var y :| y in w.have.value && Key(y) == Key(x);
      assert y in s;
    }
  }

  /** Which items an account has after a request. */
  lemma ItemsAfter(table: Table, c: Base.Call, q: Request, id: string, y: Item)
    requires c.Merge?
    ensures y in Of(TableAfter(table, c, q), id) <==>
              || (y in Of(table, id) && !(q.Detach? && id == c.duplicate && Key(y) == Key(q.x)))
              || (q.Attach? && id == c.survivor && y == q.x)
  {
    if q.Detach? && id == c.duplicate { WithoutMembers(Key, {Key(q.x)}, Of(table, id), y); }
  }

  lemma RequestKeepsHolder(table: Table, c: Base.Call, w: Work, id: string, key: ItemKey)
    requires c.Merge? && c.survivor != c.duplicate && ReadOk(w) && w.stage < 3
    requires MovedTo(w.entry[w.stage], ListsOf(table, c), Attached(w, w.stage), Detached(w, w.stage))
    requires Holds(table, id, key)
    ensures var table' := TableAfter(table, c, NextRequest(w));
            Holds(table', id, key) || (id == c.duplicate && Holds(table', c.survivor, key))
  {
    var q := NextRequest(w);
    var table' := TableAfter(table, c, q);
    var y :| y in table[id] && Key(y) == key;
    ItemsAfter(table, c, q, id, y);
    if y in Of(table', id) {
      assert Holds(table', id, key);
    } else {
      DetachIsCovered(table, c, w, q.x);
      assert table'[c.survivor] == table[c.survivor];
    }
  }

  /** The step is a request of a merge of `id` into `heir`. */
  predicate Hands(s: State, a: Base.Action, id: string, heir: string) {
    Moves(s, a) && s.base.tasks[a.t].call.duplicate == id && s.base.tasks[a.t].call.survivor == heir
  }

  /** Every step of every call: a key that `id` holds stays with `id`, or the step
      is a request of a merge of `id` and its survivor holds the key then. */
  lemma StepKeepsHolder(s: State, a: Base.Action, k: nat, id: string, key: ItemKey) returns (heir: string)
    requires WorkInv(s) && Enabled(s, a) && k < 3 && Holds(s.tables[k], id, key)
    ensures heir == id || Hands(s, a, id, heir)
    ensures Holds(Step(s, a).tables[k], heir, key)
  {
    heir := id;
    if Moves(s, a) {
      assert AtWork(s, a.t);
      var c := s.base.tasks[a.t].call;
      if k == s.work[a.t].stage {
        RequestKeepsHolder(s.tables[k], c, s.work[a.t], id, key);
        if !Holds(Step(s, a).tables[k], id, key) { heir := c.survivor; }
      }
    }
  }

  /** `heir` is reached from `id` along the merges of the run, in their order. */
  ghost predicate Inherits(s: State, actions: seq<Base.Action>, id: string, heir: string)
    requires |s.tables| == 3
    decreases |actions|
  {
    if actions == [] then heir == id
    else
      && Enabled(s, actions[0])
      && exists next :: (next == id || Hands(s, actions[0], id, next))
                        && Inherits(Step(s, actions[0]), actions[1..], next, heir)
  }

  lemma {:induction false} RunKeepsHolder(s: State, actions: seq<Base.Action>, s': State, k: nat, id: string,
                                          key: ItemKey)
      returns (heir: string)
    requires Inv(s) && Reaches(s, actions, s') && k < 3 && Holds(s.tables[k], id, key)
    ensures |s'.tables| == 3 && Inherits(s, actions, id, heir) && Holds(s'.tables[k], heir, key)
    decreases |actions|
  {
    if actions == [] {
      heir := id;
    } else {
      StepKeepsInv(s, actions[0]);
      var next := StepKeepsHolder(s, actions[0], k, id, key);
      heir := RunKeepsHolder(Step(s, actions[0]), actions[1..], s', k, next, key);
    }
  }

  /** Over whole runs with any failures and stops: whatever role, group or provider
      an account holds, it or an account it was merged into, directly or through
      further merges, holds in every later state. */
  lemma KeysFollowTheMerges(mode: Locks.Mode, users: map<string, Base.User>, tables: seq<Table>,
                            before: seq<Base.Action>, s: State, after: seq<Base.Action>, s': State,
                            k: nat, id: string, key: ItemKey)
    requires |tables| == 3 && Reaches(Init(mode, users, tables), before, s) && |s.tables| == 3 &&
             Reaches(s, after, s')
    requires k < 3 && Holds(s.tables[k], id, key)
    ensures |s'.tables| == 3 && exists heir :: Inherits(s, after, id, heir) && Holds(s'.tables[k], heir, key)
  {
    Base.InitInv(mode, users);
    RunKeepsInv(Init(mode, users, tables), before, s);
    var heir := RunKeepsHolder(s, after, s', k, id, key);
  }

  // ---- When an identity leaves the realm ----

  predicate IsIdentity(x: Item, provider: string, subject: string) {
    x.LinkItem? && x.l.provider == provider && x.l.subject == subject
  }

  /** The account is linked to this subject at this provider. */
  ghost predicate Linked(table: Table, id: string, provider: string, subject: string) {
    exists x :: x in Of(table, id) && IsIdentity(x, provider, subject)
  }

  /** An effective detach of this provider from an account that alone has the identity. */
  ghost predicate DropsIdentity(s: State, a: Base.Action, k: nat, provider: string, subject: string) {
    && Moves(s, a) && a.outcome.Applied() && s.work[a.t].stage == k && k < |s.tables|
    && NextRequest(s.work[a.t]).Detach? && Key(NextRequest(s.work[a.t]).x) == LinkAt(provider)
    && forall id :: Linked(s.tables[k], id, provider, subject) ==> id == s.base.tasks[a.t].call.duplicate
  }

  lemma LinkedAfter(table: Table, c: Base.Call, q: Request, id: string, provider: string, subject: string)
    requires c.Merge?
    ensures Linked(TableAfter(table, c, q), id, provider, subject) <==>
              || (Linked(table, id, provider, subject) &&
                  !(q.Detach? && id == c.duplicate && Key(q.x) == LinkAt(provider)))
              || (q.Attach? && id == c.survivor && IsIdentity(q.x, provider, subject))
  {
    var table' := TableAfter(table, c, q);
    if Linked(table', id, provider, subject) {
      var x :| x in Of(table', id) && IsIdentity(x, provider, subject);
      ItemsAfter(table, c, q, id, x);
    }
    if x :| x in Of(table, id) && IsIdentity(x, provider, subject) { ItemsAfter(table, c, q, id, x); }
    if q.Attach? { ItemsAfter(table, c, q, id, q.x); }
  }

  /** What a step leaves of one table. */
  lemma StepTable(s: State, a: Base.Action, k: nat)
    requires WorkInv(s) && Enabled(s, a) && k < 3
    ensures |Step(s, a).tables| == 3
    ensures Step(s, a).tables[k] ==
            if Moves(s, a) && a.outcome.Applied() && s.work[a.t].stage == k
            then TableAfter(s.tables[k], s.base.tasks[a.t].call, NextRequest(s.work[a.t])) else s.tables[k]
  {
    if Moves(s, a) { assert AtWork(s, a.t); }
  }

  /** An identity some account is linked to leaves the realm exactly when a merge
      detaches its provider from the only account that has it. */
  lemma IdentityLeavesExactly(s: State, a: Base.Action, k: nat, provider: string, subject: string)
    requires WorkInv(s) && Enabled(s, a) && k < 3 && (exists id :: Linked(s.tables[k], id, provider, subject))
    ensures (forall id :: !Linked(Step(s, a).tables[k], id, provider, subject)) <==>
            DropsIdentity(s, a, k, provider, subject)
  {
    StepTable(s, a, k);
    var id :| Linked(s.tables[k], id, provider, subject);
    if Moves(s, a) && a.outcome.Applied() && s.work[a.t].stage == k {
      var c, q := s.base.tasks[a.t].call, NextRequest(s.work[a.t]);
      forall u ensures Linked(Step(s, a).tables[k], u, provider, subject) <==>
          || (Linked(s.tables[k], u, provider, subject) &&
              !(q.Detach? && u == c.duplicate && Key(q.x) == LinkAt(provider)))
          || (q.Attach? && u == c.survivor && IsIdentity(q.x, provider, subject))
      {
        LinkedAfter(s.tables[k], c, q, u, provider, subject);
      }
    }
  }

  /** And then it was in conflict: the survivor is linked to another subject at
      that provider, which wins. */
  lemma DroppedIdentityWasInConflict(s: State, a: Base.Action, k: nat, provider: string,
                                     subject: string) returns (other: string)
    requires WorkInv(s) && Enabled(s, a) && k < 3 && DropsIdentity(s, a, k, provider, subject)
    ensures other != subject && Linked(Step(s, a).tables[k], s.base.tasks[a.t].call.survivor, provider, other)
  {
    assert AtWork(s, a.t);
    StepTable(s, a, k);
    var c, q := s.base.tasks[a.t].call, NextRequest(s.work[a.t]);
    DetachIsCovered(s.tables[k], c, s.work[a.t], q.x);
    var y :| y in s.tables[k][c.survivor] && Key(y) == LinkAt(provider);
    other := y.l.subject;
    assert IsIdentity(y, provider, other);
    assert Linked(s.tables[k], c.survivor, provider, other);
    LinkedAfter(s.tables[k], c, q, c.survivor, provider, other);
  }
}
