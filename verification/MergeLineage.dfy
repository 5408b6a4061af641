/** Survivor lineage over whole runs: the `merged_into_user_id` pointers form a
    forest as long as no merge dies between its two tombstone calls, and a merge
    that does die there is enough to build a cycle. */
module MergeLineage {
  import opened Wrappers
  import opened AdminOutcome
  import opened MergeProtocol
  import Locks = KeyedLocks

  /** Who was merged into whom. */
  ghost function Pointers(users: map<string, User>): map<string, string> {
    map id | id in users && Merged(users[id]) :: users[id].pointer.value
  }

  /** A list of accounts in which each was merged into the next. */
  ghost predicate Lineage(p: map<string, string>, path: seq<string>) {
    && path != []
    && (forall i :: 0 <= i < |path| - 1 ==> path[i] in p && path[i + 1] == p[path[i]])
  }

  ghost predicate Acyclic(p: map<string, string>) {
    forall path :: Lineage(p, path) && |path| > 1 ==> path[0] != path[|path| - 1]
  }

  /** Every account leads to one that was never merged away. */
  ghost predicate LeadsToRoot(p: map<string, string>, x: string) {
    exists path :: Lineage(p, path) && path[0] == x && path[|path| - 1] !in p
  }

  // ---- Ranks: the inductive form of "forest" ----

  ghost predicate Ranked(p: map<string, string>, rank: map<string, nat>) {
    && p.Keys <= rank.Keys
    && (forall x :: x in p && p[x] in p ==> rank[p[x]] < rank[x])
  }

  ghost predicate Forest(p: map<string, string>) {
    exists rank :: Ranked(p, rank)
  }

  /** Pointing a root at another root keeps a forest. */
  lemma GraftKeepsForest(p: map<string, string>, d: string, s: string)
    requires Forest(p) && d !in p && s !in p && s != d
    ensures Forest(p[d := s])
  {
    var rank: map<string, nat> :| Ranked(p, rank);
    var lifted: map<string, nat> := map x | x in rank.Keys + {d} :: if x == d then 0 else rank[x] + 1;
    assert Ranked(p[d := s], lifted);
  }

  lemma {:induction false} LineageDescends(p: map<string, string>, rank: map<string, nat>, path: seq<string>)
    requires Ranked(p, rank) && Lineage(p, path) && |path| > 1
    ensures path[0] in p
    ensures path[|path| - 1] in p ==> rank[path[|path| - 1]] < rank[path[0]]
  {
    if |path| > 2 {
      var init := path[..|path| - 1];
      assert Lineage(p, init);
      LineageDescends(p, rank, init);
    }
  }

  lemma ForestIsAcyclic(p: map<string, string>)
    requires Forest(p)
    ensures Acyclic(p)
  {
    var rank: map<string, nat> :| Ranked(p, rank);
    forall path | Lineage(p, path) && |path| > 1 ensures path[0] != path[|path| - 1] {
      LineageDescends(p, rank, path);
    }
  }

  lemma {:induction false} ForestHasRoots(p: map<string, string>, rank: map<string, nat>, x: string)
    requires Ranked(p, rank)
    ensures LeadsToRoot(p, x)
    decreases if x in p then rank[x] + 1 else 0
  {
    if x !in p {
      assert Lineage(p, [x]);
    } else {
      ForestHasRoots(p, rank, p[x]);
      var path :| Lineage(p, path) && path[0] == p[x] && path[|path| - 1] !in p;
      var longer := [x] + path;
      assert Lineage(p, longer);
      assert longer[0] == x && longer[|longer| - 1] !in p;
    }
  }

  /** In a finite acyclic lineage some merged account points at a root. */
  lemma {:induction false} LastMergedAccount(p: map<string, string>, path: seq<string>) returns (x: string)
    requires Acyclic(p) && Lineage(p, path) && (forall y :: y in path ==> y in p)
    ensures x in p && p[x] !in p
    decreases p.Keys - (set y | y in path)
  {
    var last := path[|path| - 1];
    assert last in path;
    if p[last] !in p {
      x := last;
    } else {
      var longer := path + [p[last]];
      assert Lineage(p, longer);
      forall i | 0 <= i < |path| ensures path[i] != p[last] {
        var loop := longer[i..];
        assert Lineage(p, loop);
        assert loop[0] == path[i] && loop[|loop| - 1] == p[last];
      }
      var seen, seen' := set y | y in path, set y | y in longer;
      assert p[last] in longer && p[last] in seen' && p[last] !in seen;
      x := LastMergedAccount(p, longer);
    }
  }

  lemma {:induction false} AcyclicIsForest(p: map<string, string>)
    requires Acyclic(p)
    ensures Forest(p)
    decreases |p|
  {
    if p == map[] {
      assert Ranked(p, map[]);
    } else {
      var start :| start in p;
      var d := LastMergedAccount(p, [start]);
      var rest := p - {d};
      forall path | Lineage(rest, path) && |path| > 1 ensures path[0] != path[|path| - 1] {
        assert Lineage(p, path);
      }
      assert p[d] != d by { assert d in p && p[d] !in p; }
      assert p.Keys == rest.Keys + {d};
      AcyclicIsForest(rest);
      GraftKeepsForest(rest, d, p[d]);
      assert rest[d := p[d]] == p;
    }
  }

  // ---- When a new pointer closes a cycle ----

  /** Following the pointers from `x` comes to `y`; every account leads to itself. */
  ghost predicate LeadsTo(p: map<string, string>, x: string, y: string) {
    exists path :: Lineage(p, path) && path[0] == x && path[|path| - 1] == y
  }

  /** A path to `d` can be cut at its first `d`, and then no pointer of `d` is used. */
  lemma {:induction false} CutAt(p: map<string, string>, path: seq<string>, d: string) returns (cut: seq<string>)
    requires Lineage(p, path) && path[|path| - 1] == d
    ensures cut <= path && cut != [] && cut[|cut| - 1] == d
    ensures forall i :: 0 <= i < |cut| - 1 ==> cut[i] != d
    decreases |path|
  {
    if i :| 0 <= i < |path| - 1 && path[i] == d {
      cut := CutAt(p, path[..i + 1], d);
    } else {
      cut := path;
    }
  }

  /** Pointers of `d` play no part before the first `d`. */
  lemma LineageElsewhere(p: map<string, string>, q: map<string, string>, d: string, path: seq<string>)
    requires Lineage(p, path) && forall i :: 0 <= i < |path| - 1 ==> path[i] != d
    requires forall x :: x != d ==> (x in p <==> x in q) && (x in p ==> q[x] == p[x])
    ensures Lineage(q, path)
  {}

  /** If `s` leads to `d`, the pointer from `d` to `s` closes a cycle. */
  lemma PointerCloses(p: map<string, string>, d: string, s: string)
    requires LeadsTo(p, s, d)
    ensures !Acyclic(p[d := s])
  {
    var path :| Lineage(p, path) && path[0] == s && path[|path| - 1] == d;
    var cut := CutAt(p, path, d);
    assert Lineage(p, cut) && cut[0] == s;
    LineageElsewhere(p, p[d := s], d, cut);
    var loop := cut + [s];
    assert Lineage(p[d := s], loop) && loop[0] == loop[|loop| - 1];
  }

  /** A cycle through the new pointer comes round from `s` to `d`. */
  lemma CycleComesRound(p: map<string, string>, d: string, s: string, cycle: seq<string>, i: nat)
    requires Lineage(p[d := s], cycle) && |cycle| > 1 && cycle[0] == cycle[|cycle| - 1] && i < |cycle| - 1 &&
             cycle[i] == d
    ensures LeadsTo(p, s, d)
  {
    var q := p[d := s];
    var round := cycle[i + 1..] + cycle[1..i + 1];
    assert round[0] == s && round[|round| - 1] == d;
    forall j | 0 <= j < |round| - 1 ensures round[j] in q && round[j + 1] == q[round[j]] {
      var k := if j < |cycle| - (i + 1) then i + 1 + j else j - (|cycle| - (i + 1)) + 1;
      assert round[j] == cycle[k];
      if j == |cycle| - (i + 1) - 1 { assert round[j] == cycle[0] && round[j + 1] == cycle[1]; }
    }
    var cut := CutAt(q, round, d);
    assert Lineage(q, cut) && cut[0] == s;
    LineageElsewhere(q, p, d, cut);
  }

  /** Pointing any account at any other keeps an acyclic lineage acyclic exactly
      when the other does not already lead back to it. */
  lemma PointerKeepsAcyclicExactly(p: map<string, string>, d: string, s: string)
    requires Acyclic(p)
    ensures Acyclic(p[d := s]) <==> !LeadsTo(p, s, d)
  {
    if LeadsTo(p, s, d) {
      PointerCloses(p, d, s);
    } else {
      forall path | Lineage(p[d := s], path) && |path| > 1 && path[0] == path[|path| - 1] ensures false {
        if i :| 0 <= i < |path| - 1 && path[i] == d {
          CycleComesRound(p, d, s, path, i);
        } else {
          LineageElsewhere(p[d := s], p, d, path);
        }
      }
    }
  }

  // ---- Runs in which both tombstone calls of every merge take effect or neither does ----

  /** The step does not leave a pointer on an account it fails to disable. */
  predicate KeepsTombstoneWhole(s: State, a: Action) {
    && (a.Api? && a.t in s.tasks && s.tasks[a.t].call.Merge? ==>
          && (s.tasks[a.t].pc == Stamping ==> a.outcome != FailsApplied)
          && (s.tasks[a.t].pc == Disabling ==> a.outcome != FailsUnapplied))
    && (a.Crash? ==> forall t :: t in a.ts && t in s.tasks && s.tasks[t].call.Merge? ==> s.tasks[t].pc != Disabling)
  }

  /** A run; if `whole`, one in which no step strands a pointer. */
  ghost predicate Follows(whole: bool, s: State, actions: seq<Action>, s': State)
    decreases |actions|
  {
    if actions == [] then s == s'
    else
      && Enabled(s, actions[0]) && (whole ==> KeepsTombstoneWhole(s, actions[0]))
      && Follows(whole, Step(s, actions[0]), actions[1..], s')
  }

  /** `id` is the duplicate of a merge that has stamped it and not yet disabled it. */
  ghost predicate BeingDisabled(s: State, id: string) {
    exists t :: t in s.tasks && s.tasks[t].pc == Disabling && s.tasks[t].call.Merge? &&
        s.tasks[t].call.duplicate == id
  }

  ghost predicate LineageOk(s: State) {
    && (forall id :: id in s.users && Merged(s.users[id]) ==>
          && s.users[id].pointer.value in s.users
          && (s.users[id].enabled ==> BeingDisabled(s, id)))
    && Forest(Pointers(s.users))
  }

  /** What a realm must look like at the start: merged accounts are disabled and
      lead somewhere, without cycles.  A realm with no merges yet qualifies. */
  ghost predicate GoodStart(users: map<string, User>) {
    && (forall id :: id in users && Merged(users[id]) ==> !users[id].enabled && users[id].pointer.value in users)
    && Acyclic(Pointers(users))
  }

  /** A merge that holds an account is the only one that can be disabling it. */
  lemma NobodyElseDisables(s: State, t: Thread, id: string)
    requires Inv(s) && t in s.tasks && id in Ids(s.tasks[t].call) && s.tasks[t].pc == Stamping
    ensures !BeingDisabled(s, id)
  {
    forall u | u in s.tasks && s.tasks[u].pc == Disabling && s.tasks[u].call.Merge? && s.tasks[u].call.duplicate == id
      ensures false {
      assert TaskOk(s, t) && TaskOk(s, u);
      assert id in Ids(s.tasks[u].call);
      Exclusive(s, t, u, id);
    }
  }

  /** While a merge is between its checks and its stamp, neither account has a pointer. */
  lemma StampedPairIsUnmerged(s: State, t: Thread, id: string)
    requires Inv(s) && LineageOk(s) && t in s.tasks
    requires s.tasks[t].call.Merge? && s.tasks[t].pc == Stamping && id in Ids(s.tasks[t].call)
    ensures id in s.users && !Merged(s.users[id])
  {
    assert TaskOk(s, t);
    assert id in s.users && s.users[id].enabled;
    NobodyElseDisables(s, t, id);
  }

  lemma StampKeepsLineage(s: State, a: Action)
    requires Inv(s) && LineageOk(s) && Enabled(s, a) && KeepsTombstoneWhole(s, a)
    requires a.Api? && s.tasks[a.t].call.Merge? && s.tasks[a.t].pc == Stamping && a.outcome == Succeeds
    ensures LineageOk(Step(s, a))
  {
    var s' := Step(s, a);
    var c := s.tasks[a.t].call;
    assert TaskOk(s, a.t);
    StampedPairIsUnmerged(s, a.t, c.survivor);
    StampedPairIsUnmerged(s, a.t, c.duplicate);
    assert c.survivor in s.locks.holds[a.t].ids;
    assert c.survivor != "";
    GraftKeepsForest(Pointers(s.users), c.duplicate, c.survivor);
    StampsOnePointer(s.users, c.survivor, c.duplicate);
    assert s'.tasks[a.t].pc == Disabling && s'.tasks[a.t].call == c;
    forall id | id in s'.users && Merged(s'.users[id]) && s'.users[id].enabled ensures BeingDisabled(s', id) {
      if id != c.duplicate {
        StillBeingDisabled(s, a, id);
      }
    }
  }

  lemma StampsOnePointer(users: map<string, User>, survivor: string, duplicate: string)
    requires duplicate in users && survivor != ""
    ensures Pointers(users[duplicate := users[duplicate].(pointer := Some(survivor))]) ==
            Pointers(users)[duplicate := survivor]
  {
  }

  /** Only the merge's own next request ends its window between stamp and disable. */
  lemma StillBeingDisabled(s: State, a: Action, id: string)
    requires TasksOk(s) && Enabled(s, a) && BeingDisabled(s, id)
    requires a.Api? ==>
             !(s.tasks[a.t].pc == Disabling && s.tasks[a.t].call.Merge? && s.tasks[a.t].call.duplicate == id)
    requires a.Crash? ==> KeepsTombstoneWhole(s, a)
    ensures BeingDisabled(Step(s, a), id)
  {
    var u :| u in s.tasks && s.tasks[u].pc == Disabling && s.tasks[u].call.Merge? && s.tasks[u].call.duplicate == id;
    assert TaskOk(s, u);
    if a.Lock? {
      Locks.StepMovesOneHold(s.locks, a.a);
    }
    var s' := Step(s, a);
    assert u in s'.tasks && s'.tasks[u] == s.tasks[u];
  }

  predicate EnabledIn(users: map<string, User>, id: string) { id in users && users[id].enabled }

  /** Every other step leaves the pointers alone. */
  lemma OtherStepsKeepPointers(s: State, a: Action)
    requires TasksOk(s) && Enabled(s, a)
    requires a.Api? && s.tasks[a.t].call.Merge? && s.tasks[a.t].pc == Stamping ==> a.outcome == FailsUnapplied
    ensures Pointers(Step(s, a).users) == Pointers(s.users)
    ensures forall id :: id in s.users ==> id in Step(s, a).users
    ensures forall id :: id in s.users && Merged(s.users[id]) && EnabledIn(Step(s, a).users, id) ==>
              s.users[id].enabled
  {
    if a.Api? {
      assert TaskOk(s, a.t);
    }
  }

  lemma StepKeepsLineage(s: State, a: Action)
    requires Inv(s) && LineageOk(s) && Enabled(s, a) && KeepsTombstoneWhole(s, a)
    ensures LineageOk(Step(s, a))
  {
    var s' := Step(s, a);
    if a.Api? && s.tasks[a.t].call.Merge? && s.tasks[a.t].pc == Stamping && a.outcome == Succeeds {
      StampKeepsLineage(s, a);
    } else {
      OtherStepsKeepPointers(s, a);
      forall id | id in s'.users && Merged(s'.users[id])
        ensures s'.users[id].pointer.value in s'.users
        ensures s'.users[id].enabled ==> BeingDisabled(s', id)
      {
        assert id in Pointers(s'.users);
        assert id in s.users && Merged(s.users[id]) && s'.users[id].pointer == s.users[id].pointer;
        if s'.users[id].enabled {
          StillBeingDisabled(s, a, id);
        }
      }
    }
  }

  /** The step writes a pointer: the stamp of a merge takes effect. */
  predicate Stamps(s: State, a: Action) {
    a.Api? && a.t in s.tasks && s.tasks[a.t].call.Merge? && s.tasks[a.t].pc == Stamping && a.outcome.Applied()
  }

  /** Of all steps of all calls, from any state the protocol can be in, only an
      effective stamp can close a cycle, and it does exactly when its survivor
      already leads to its duplicate -- which its caller could look up. */
  lemma StepKeepsAcyclicExactly(s: State, a: Action)
    requires Inv(s) && Enabled(s, a) && Acyclic(Pointers(s.users))
    ensures Acyclic(Pointers(Step(s, a).users)) <==>
            !(Stamps(s, a) && LeadsTo(Pointers(s.users), s.tasks[a.t].call.survivor, s.tasks[a.t].call.duplicate))
  {
    if Stamps(s, a) {
      var c := s.tasks[a.t].call;
      StampIsNamed(s, a.t);
      StampsOnePointer(s.users, c.survivor, c.duplicate);
      PointerKeepsAcyclicExactly(Pointers(s.users), c.duplicate, c.survivor);
    } else {
      OtherStepsKeepPointers(s, a);
    }
  }

  lemma StampIsNamed(s: State, t: Thread)
    requires Inv(s) && t in s.tasks && s.tasks[t].call.Merge? && s.tasks[t].pc == Stamping
    ensures s.tasks[t].call.survivor != "" && s.tasks[t].call.duplicate in s.users
  {
    assert TaskOk(s, t);
    assert s.tasks[t].call.survivor in s.locks.holds[t].ids;
  }

  lemma {:induction false} RunKeepsLineage(s: State, actions: seq<Action>, s': State)
    requires Inv(s) && LineageOk(s) && Follows(true, s, actions, s')
    ensures LineageOk(s')
    decreases |actions|
  {
    if actions != [] {
      StepKeepsInv(s, actions[0]);
      StepKeepsLineage(s, actions[0]);
      RunKeepsLineage(Step(s, actions[0]), actions[1..], s');
    }
  }

  /** In every run in which no merge dies between its tombstone calls: the
      pointers are acyclic, each names an existing account, and following them
      from any account ends at one never merged away. */
  lemma {:induction false} LineageIsAForest(mode: Locks.Mode, users: map<string, User>, actions: seq<Action>,
                                            s: State)
    requires GoodStart(users) && Follows(true, Init(mode, users), actions, s)
    ensures Acyclic(Pointers(s.users))
    ensures forall x :: LeadsToRoot(Pointers(s.users), x)
    ensures forall id :: id in Pointers(s.users) ==> Pointers(s.users)[id] in s.users && Pointers(s.users)[id] != ""
  {
    InitInv(mode, users);
    AcyclicIsForest(Pointers(users));
    RunKeepsLineage(Init(mode, users), actions, s);
    ForestIsAcyclic(Pointers(s.users));
    var rank: map<string, nat> :| Ranked(Pointers(s.users), rank);
    forall x ensures LeadsToRoot(Pointers(s.users), x) {
      ForestHasRoots(Pointers(s.users), rank, x);
    }
  }
}
