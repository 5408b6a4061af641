/** The walk over a realm's authentication flows: a depth-first search whose
    calls share one set of seen aliases, against plain reachability. */
module RealmFlows {
  import opened Wrappers

  /** None stands for an absent or empty member: both are falsy. */
  datatype Execution = Execution(authenticator: Option<string>, flowAlias: Option<string>)

  datatype Flow = Flow(alias: Option<string>, executions: seq<Execution>)

  type Realm = seq<Flow>

  /** The executions of the first flow with this alias. */
  function Executions(realm: Realm, alias: string): seq<Execution> {
    if realm == [] then []
    else if realm[0].alias == Some(alias) then realm[0].executions
    else Executions(realm[1..], alias)
  }

  // ---- The walk, with the seen set passed along ----

  /** Every alias a subflow can name: what bounds the recursion. */
  function Names(realm: Realm): set<string> {
    set f, e | f in realm && e in f.executions && e.flowAlias.Some? :: e.flowAlias.value
  }

  /** `names` holds every alias a call can be made with. */
  ghost predicate Closed(realm: Realm, names: set<string>) {
    forall alias, e :: e in Executions(realm, alias) && e.flowAlias.Some? ==> e.flowAlias.value in names
  }

  lemma {:induction false} NamedSubflow(realm: Realm, alias: string, e: Execution)
    requires e in Executions(realm, alias) && e.flowAlias.Some?
    ensures e.flowAlias.value in Names(realm)
  {
    if realm[0].alias == Some(alias) {
      assert realm[0] in realm;
    } else {
      NamedSubflow(realm[1..], alias, e);
    }
  }

  lemma NamesAreClosed(realm: Realm, alias: string)
    ensures Closed(realm, Names(realm) + {alias})
  {
    forall a, e | e in Executions(realm, a) && e.flowAlias.Some? ensures e.flowAlias.value in Names(realm) {
      NamedSubflow(realm, a, e);
    }
  }

  lemma {:induction false} Smaller(a: set<string>, b: set<string>)
    requires a <= b
    ensures |a| <= |b|
  {
    if x :| x in a { Smaller(a - {x}, b - {x}); }
  }

  /** How many aliases are left to see. */
  ghost function Left(names: set<string>, seen: set<string>): nat { |names - seen| }

  lemma LeftShrinks(names: set<string>, seen: set<string>, alias: string)
    requires alias in names && alias !in seen
    ensures Left(names, seen + {alias}) < Left(names, seen)
  {
    assert names - (seen + {alias}) == (names - seen) - {alias};
  }

  lemma LeftNeverGrows(names: set<string>, seen: set<string>, after: set<string>)
    requires seen <= after
    ensures Left(names, after) <= Left(names, seen)
  {
    Smaller(names - after, names - seen);
  }

  datatype Trip = Trip(seen: set<string>, found: set<string>)

  ghost function Visit(realm: Realm, names: set<string>, seen: set<string>, alias: string): (r: Trip)
    requires Closed(realm, names) && alias in names
    ensures seen <= r.seen
    decreases Left(names, seen), 0
  {
    if alias in seen then Trip(seen, {})
    else
      LeftShrinks(names, seen, alias);
      VisitAll(realm, names, alias, Executions(realm, alias), seen + {alias})
  }

  /** One execution: into its subflow, if it has one. */
  ghost function VisitOne(realm: Realm, names: set<string>, alias: string, e: Execution, seen: set<string>): (r: Trip)
    requires Closed(realm, names) && e in Executions(realm, alias)
    ensures seen <= r.seen
    decreases Left(names, seen), 1
  {
    match e.flowAlias
    case None => Trip(seen, {})
    case Some(sub) => Visit(realm, names, seen, sub)
  }

  ghost function VisitAll(realm: Realm, names: set<string>, alias: string, es: seq<Execution>,
                          seen: set<string>): (r: Trip)
    requires Closed(realm, names) && forall e :: e in es ==> e in Executions(realm, alias)
    ensures seen <= r.seen
    decreases Left(names, seen), |es| + 1
  {
    if es == [] then Trip(seen, {})
    else
      var t := VisitOne(realm, names, alias, es[0], seen);
      LeftNeverGrows(names, seen, t.seen);
      var rest := VisitAll(realm, names, alias, es[1..], t.seen);
      Trip(rest.seen, Added(es[0], t.found) + rest.found)
  }

  /** The authenticators of one execution and of what lies behind it. */
  function Added(e: Execution, more: set<string>): set<string> {
    (if e.authenticator.Some? then {e.authenticator.value} else {}) + more
  }

  // ---- What the walk is for ----

  /** The flow an alias names: the first one that has it. */
  predicate FlowAt(realm: Realm, alias: string, i: int) {
    0 <= i < |realm| && realm[i].alias == Some(alias) && forall j :: 0 <= j < i ==> realm[j].alias != Some(alias)
  }

  /** Some execution of the flow `from` names the subflow `to`. */
  ghost predicate Subflow(realm: Realm, from: string, to: string) {
    exists i, k ::
        FlowAt(realm, from, i) && 0 <= k < |realm[i].executions| && realm[i].executions[k].flowAlias == Some(to)
  }

  /** Some execution of the flow names the authenticator. */
  ghost predicate Uses(realm: Realm, alias: string, authenticator: string) {
    exists i, k :: FlowAt(realm, alias, i) && 0 <= k < |realm[i].executions|
                   && realm[i].executions[k].authenticator == Some(authenticator)
  }

  lemma {:induction false} ExecutionsOfFlow(realm: Realm, alias: string)
    ensures forall i :: FlowAt(realm, alias, i) ==> Executions(realm, alias) == realm[i].executions
    ensures Executions(realm, alias) != [] ==> exists i :: FlowAt(realm, alias, i)
  {
    if realm != [] {
      var tail := realm[1..];
      ExecutionsOfFlow(tail, alias);
      if realm[0].alias == Some(alias) {
        assert FlowAt(realm, alias, 0);
      } else {
        forall i | FlowAt(realm, alias, i) ensures Executions(realm, alias) == realm[i].executions {
          assert FlowAt(tail, alias, i - 1) by {
            assert tail[i - 1] == realm[i];
            forall j | 0 <= j < i - 1 ensures tail[j].alias != Some(alias) { assert tail[j] == realm[j + 1]; }
          }
        }
        if i :| FlowAt(tail, alias, i) {
          forall j | 0 <= j < i + 1 ensures realm[j].alias != Some(alias) {
            if j > 0 { assert realm[j] == tail[j - 1]; }
          }
          assert FlowAt(realm, alias, i + 1);
        }
      }
    }
  }

  /** In terms of the executions the walk reads. */
  lemma ReadsTheFlow(realm: Realm, alias: string, x: string)
    ensures Subflow(realm, alias, x) <==> exists e :: e in Executions(realm, alias) && e.flowAlias == Some(x)
    ensures Uses(realm, alias, x) <==> exists e :: e in Executions(realm, alias) && e.authenticator == Some(x)
  {
    ExecutionsOfFlow(realm, alias);
    var es := Executions(realm, alias);
    if es != [] {
      var i :| FlowAt(realm, alias, i);
      if e :| e in es && e.flowAlias == Some(x) {
        var k :| 0 <= k < |es| && es[k] == e;
        assert realm[i].executions[k].flowAlias == Some(x);
      }
      if e :| e in es && e.authenticator == Some(x) {
        var k :| 0 <= k < |es| && es[k] == e;
        assert realm[i].executions[k].authenticator == Some(x);
      }
    }
    if i, k :| FlowAt(realm, alias, i) && 0 <= k < |realm[i].executions|
               && realm[i].executions[k].flowAlias == Some(x) {
      assert realm[i].executions[k] in es;
    }
    if i, k :| FlowAt(realm, alias, i) && 0 <= k < |realm[i].executions|
               && realm[i].executions[k].authenticator == Some(x) {
      assert realm[i].executions[k] in es;
    }
  }

  /** A chain of subflows none of which is in `avoid`. */
  ghost predicate Path(realm: Realm, avoid: set<string>, p: seq<string>) {
    && p != []
    && (forall i :: 0 <= i < |p| ==> p[i] !in avoid)
    && (forall i :: 0 <= i < |p| - 1 ==> Subflow(realm, p[i], p[i + 1]))
  }

  ghost predicate Reaches(realm: Realm, avoid: set<string>, from: string, to: string) {
    exists p :: Path(realm, avoid, p) && p[0] == from && p[|p| - 1] == to
  }

  // ---- What one call leaves behind ----

  /** The aliases `seen` gained: all reachable around what was seen before, and
      with no way out except into what was seen before. */
  ghost predicate Explored(realm: Realm, before: set<string>, alias: string, after: set<string>) {
    && before <= after && alias in after
    && (forall n :: n in after && n !in before ==> Reaches(realm, before, alias, n))
    && (forall n, m :: n in after && n !in before && Subflow(realm, n, m) ==> m in after)
  }

  lemma {:induction false} PathStaysInside(realm: Realm, before: set<string>, alias: string, after: set<string>,
                                           p: seq<string>)
    requires Explored(realm, before, alias, after)
    requires Path(realm, before, p) && p[0] == alias
    ensures p[|p| - 1] in after
    decreases |p|
  {
    if |p| > 1 {
      var q := p[..|p| - 1];
      PathStaysInside(realm, before, alias, after, q);
      assert Subflow(realm, p[|p| - 2], p[|p| - 2 + 1]);
    }
  }

  /** So the gain is exactly what can be reached around it. */
  lemma ExploredIsReachable(realm: Realm, before: set<string>, alias: string, after: set<string>, n: string)
    requires Explored(realm, before, alias, after)
    ensures n in after && n !in before <==> Reaches(realm, before, alias, n)
  {
    if Reaches(realm, before, alias, n) {
      var p :| Path(realm, before, p) && p[0] == alias && p[|p| - 1] == n;
      PathStaysInside(realm, before, alias, after, p);
    }
  }

  lemma ReachesSelf(realm: Realm, avoid: set<string>, alias: string)
    requires alias !in avoid
    ensures Reaches(realm, avoid, alias, alias)
  {
    assert Path(realm, avoid, [alias]);
  }

  lemma ReachesThrough(realm: Realm, avoid: set<string>, more: set<string>, alias: string, sub: string, n: string)
    requires alias !in avoid && avoid <= more && Subflow(realm, alias, sub) && Reaches(realm, more, sub, n)
    ensures Reaches(realm, avoid, alias, n)
  {
    var p :| Path(realm, more, p) && p[0] == sub && p[|p| - 1] == n;
    var q := [alias] + p;
    forall i | 0 <= i < |q| - 1 ensures Subflow(realm, q[i], q[i + 1]) {
      if i > 0 { assert q[i] == p[i - 1] && q[i + 1] == p[i - 1 + 1]; }
    }
    assert Path(realm, avoid, q);
  }

  /** The seen set while the executions of `alias` are being gone through:
      closed apart from the subflows still ahead. */
  ghost predicate Exploring(realm: Realm, before: set<string>, alias: string, done: seq<Execution>,
                            seen: set<string>) {
    && alias !in before && before <= seen && alias in seen
    && (forall n :: n in seen && n !in before ==> Reaches(realm, before, alias, n))
    && (forall n, m :: n in seen && n !in before && n != alias && Subflow(realm, n, m) ==> m in seen)
    && (forall e :: e in done && e.flowAlias.Some? ==> e.flowAlias.value in seen)
  }

  lemma ExploringStarts(realm: Realm, before: set<string>, alias: string)
    requires alias !in before
    ensures Exploring(realm, before, alias, [], before + {alias})
  {
    ReachesSelf(realm, before, alias);
  }

  /** Going into a subflow, or passing it by because it was seen. */
  lemma ExploringGoesOn(realm: Realm, before: set<string>, alias: string, done: seq<Execution>, e: Execution,
                        seen: set<string>, after: set<string>)
    requires Exploring(realm, before, alias, done, seen) && e in Executions(realm, alias)
    requires if e.flowAlias.None? || e.flowAlias.value in seen then after == seen
             else Explored(realm, seen, e.flowAlias.value, after)
    ensures Exploring(realm, before, alias, done + [e], after)
  {
    if e.flowAlias.Some? {
      ReadsTheFlow(realm, alias, e.flowAlias.value);
      forall n | n in after && n !in before ensures Reaches(realm, before, alias, n) {
        if n !in seen { ReachesThrough(realm, before, seen, alias, e.flowAlias.value, n); }
      }
    }
  }

  lemma {:induction false} VisitExplores(realm: Realm, names: set<string>, seen: set<string>, alias: string)
    requires Closed(realm, names) && alias in names && alias !in seen
    ensures Explored(realm, seen, alias, Visit(realm, names, seen, alias).seen)
    decreases Left(names, seen), 0
  {
    var es := Executions(realm, alias);
    LeftShrinks(names, seen, alias);
    ExploringStarts(realm, seen, alias);
    VisitAllExplores(realm, names, seen, alias, [], es, seen + {alias});
    assert [] + es == es;
    forall m | Subflow(realm, alias, m)
      ensures m in Visit(realm, names, seen, alias).seen { ReadsTheFlow(realm, alias, m); }
  }

  lemma {:induction false} VisitOneExplores(realm: Realm, names: set<string>, before: set<string>, alias: string,
                                            done: seq<Execution>, e: Execution, seen: set<string>)
    requires Closed(realm, names) && e in Executions(realm, alias)
    requires Exploring(realm, before, alias, done, seen)
    ensures Exploring(realm, before, alias, done + [e], VisitOne(realm, names, alias, e, seen).seen)
    decreases Left(names, seen), 1
  {
    if e.flowAlias.Some? && e.flowAlias.value !in seen {
      VisitExplores(realm, names, seen, e.flowAlias.value);
    } else if e.flowAlias.Some? {
      assert Visit(realm, names, seen, e.flowAlias.value) == Trip(seen, {});
    }
    ExploringGoesOn(realm, before, alias, done, e, seen, VisitOne(realm, names, alias, e, seen).seen);
  }

  lemma {:induction false} VisitAllExplores(realm: Realm, names: set<string>, before: set<string>, alias: string,
                                            done: seq<Execution>, es: seq<Execution>, seen: set<string>)
    requires Closed(realm, names) && forall e :: e in es ==> e in Executions(realm, alias)
    requires Exploring(realm, before, alias, done, seen)
    ensures Exploring(realm, before, alias, done + es, VisitAll(realm, names, alias, es, seen).seen)
    decreases Left(names, seen), |es| + 1
  {
    if es == [] {
      assert done + es == done;
    } else {
      var e, after := es[0], VisitOne(realm, names, alias, es[0], seen).seen;
      VisitOneExplores(realm, names, before, alias, done, e, seen);
      LeftNeverGrows(names, seen, after);
      VisitAllExplores(realm, names, before, alias, done + [e], es[1..], after);
      assert done + [e] + es[1..] == done + es;
    }
  }

  /** The authenticators of the executions `es` and of the flows `after` gained
      over `before`. */
  ghost predicate Gathered(realm: Realm, es: seq<Execution>, before: set<string>, after: set<string>,
                           found: set<string>) {
    forall a :: a in found <==>
      || (exists e :: e in es && e.authenticator == Some(a))
      || (exists n :: n in after && n !in before && Uses(realm, n, a))
  }

  lemma GatheredTogether(realm: Realm, es: seq<Execution>, before: set<string>, mid: set<string>, after: set<string>,
                         more: set<string>, rest: set<string>)
    requires es != [] && before <= mid <= after
    requires Gathered(realm, [], before, mid, more) && Gathered(realm, es[1..], mid, after, rest)
    ensures Gathered(realm, es, before, after, Added(es[0], more) + rest)
  {
    assert es == [es[0]] + es[1..];
    forall a ensures a in Added(es[0], more) + rest <==>
        || (exists e :: e in es && e.authenticator == Some(a))
        || (exists n :: n in after && n !in before && Uses(realm, n, a))
    {
      if es[0].authenticator == Some(a) { assert es[0] in es; }
      if e :| e in es[1..] && e.authenticator == Some(a) { assert e in es; }
    }
  }

  lemma {:induction false} VisitGathers(realm: Realm, names: set<string>, seen: set<string>, alias: string)
    requires Closed(realm, names) && alias in names
    ensures var trip := Visit(realm, names, seen, alias); Gathered(realm, [], seen, trip.seen, trip.found)
    decreases Left(names, seen), 0
  {
    if alias !in seen {
      LeftShrinks(names, seen, alias);
      VisitAllGathers(realm, names, alias, Executions(realm, alias), seen + {alias});
      var trip := Visit(realm, names, seen, alias);
      GatheredOwn(realm, seen, alias, trip.seen, trip.found);
    }
  }

  lemma GatheredOwn(realm: Realm, seen: set<string>, alias: string, after: set<string>, found: set<string>)
    requires alias !in seen && seen + {alias} <= after
    requires Gathered(realm, Executions(realm, alias), seen + {alias}, after, found)
    ensures Gathered(realm, [], seen, after, found)
  {
    forall a ensures a in found <==> exists n :: n in after && n !in seen && Uses(realm, n, a) {
      ReadsTheFlow(realm, alias, a);
      if a in found && !(exists n :: n in after && n !in seen + {alias} && Uses(realm, n, a)) {
        assert Uses(realm, alias, a);
      }
    }
  }

  lemma {:induction false} VisitAllGathers(realm: Realm, names: set<string>, alias: string, es: seq<Execution>,
                                           seen: set<string>)
    requires Closed(realm, names) && forall e :: e in es ==> e in Executions(realm, alias)
    ensures var trip := VisitAll(realm, names, alias, es, seen); Gathered(realm, es, seen, trip.seen, trip.found)
    decreases Left(names, seen), |es| + 1
  {
    if es != [] {
      var e, t := es[0], VisitOne(realm, names, alias, es[0], seen);
      if e.flowAlias.Some? {
        VisitGathers(realm, names, seen, e.flowAlias.value);
      }
      LeftNeverGrows(names, seen, t.seen);
      VisitAllGathers(realm, names, alias, es[1..], t.seen);
      var rest := VisitAll(realm, names, alias, es[1..], t.seen);
      GatheredTogether(realm, es, seen, t.seen, rest.seen, t.found, rest.found);
    }
  }

  // ---- The walk ----

  /** Where the loop ends from its i-th execution on. */
  ghost function Rest(realm: Realm, names: set<string>, alias: string, es: seq<Execution>, i: nat,
                      seen: set<string>, found: set<string>): Trip
    requires Closed(realm, names) && es == Executions(realm, alias) && i <= |es|
  {
    var rest := VisitAll(realm, names, alias, es[i..], seen);
    Trip(rest.seen, found + rest.found)
  }

  /** One round of the loop's bookkeeping. */
  function Noted(e: Execution, found: set<string>, more: set<string>): set<string> {
    var own := if e.authenticator.Some? then found + {e.authenticator.value} else found;
    if e.flowAlias.Some? then own + more else own
  }

  lemma RestStep(realm: Realm, names: set<string>, alias: string, es: seq<Execution>, i: nat, seen: set<string>,
                 found: set<string>)
    requires Closed(realm, names) && es == Executions(realm, alias) && i < |es|
    ensures var t := VisitOne(realm, names, alias, es[i], seen);
            Rest(realm, names, alias, es, i, seen, found) ==
            Rest(realm, names, alias, es, i + 1, t.seen, Noted(es[i], found, t.found))
  {
    var t := VisitOne(realm, names, alias, es[i], seen);
    assert es[i..][1..] == es[i + 1..];
    var rest := VisitAll(realm, names, alias, es[i + 1..], t.seen);
    assert found + (Added(es[i], t.found) + rest.found) == Noted(es[i], found, t.found) + rest.found;
  }

  class Walk {
    var seen: set<string>

    constructor ()
      ensures seen == {}
    {
      seen := {};
    }

    method Collect(realm: Realm, ghost names: set<string>, alias: string) returns (found: set<string>)
      requires Closed(realm, names) && alias in names
      modifies this
      ensures Trip(seen, found) == Visit(realm, names, old(seen), alias)
      decreases Left(names, seen)
    {
      if alias in seen { return {}; }
      LeftShrinks(names, seen, alias);
      seen := seen + {alias};
      found := {};
      var es := Executions(realm, alias);
      ghost var start, whole := seen, VisitAll(realm, names, alias, es, seen);
      var i := 0;
      while i < |es|
        invariant 0 <= i <= |es| && start <= seen
        invariant Rest(realm, names, alias, es, i, seen, found) == whole
      {
        var e := es[i];
        RestStep(realm, names, alias, es, i, seen, found);
        LeftNeverGrows(names, start, seen);
        if e.authenticator.Some? {
          found := found + {e.authenticator.value};
        }
        if e.flowAlias.Some? {
          var more := Collect(realm, names, e.flowAlias.value);
          found := found + more;
        }
        i := i + 1;
      }
    }
  }

  lemma NoWayFromSeen(realm: Realm, seen: set<string>, alias: string, n: string)
    requires alias in seen
    ensures !Reaches(realm, seen, alias, n)
  {}

  /** An inner call finds exactly what is not behind flows already seen. */
  lemma VisitIsReachability(realm: Realm, names: set<string>, seen: set<string>, alias: string)
    requires Closed(realm, names) && alias in names
    ensures forall n :: n in Visit(realm, names, seen, alias).seen <==> n in seen || Reaches(realm, seen, alias, n)
    ensures forall a :: a in Visit(realm, names, seen, alias).found <==>
            exists n :: Reaches(realm, seen, alias, n) && Uses(realm, n, a)
  {
    var trip := Visit(realm, names, seen, alias);
    VisitGathers(realm, names, seen, alias);
    if alias !in seen { VisitExplores(realm, names, seen, alias); }
    forall n ensures n in trip.seen && n !in seen <==> Reaches(realm, seen, alias, n) {
      if alias in seen {
        NoWayFromSeen(realm, seen, alias, n);
      } else {
        ExploredIsReachable(realm, seen, alias, trip.seen, n);
      }
    }
  }

  /** From a fresh set: exactly the authenticators on reachable flows. */
  method AllAuthenticators(realm: Realm, alias: string) returns (found: set<string>)
    ensures forall a :: a in found <==> exists n :: Reaches(realm, {}, alias, n) && Uses(realm, n, a)
  {
    ghost var names := Names(realm) + {alias};
    NamesAreClosed(realm, alias);
    var walk := new Walk();
    found := walk.Collect(realm, names, alias);
    VisitIsReachability(realm, names, {}, alias);
  }
}
