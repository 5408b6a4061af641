/** Retrying a merge that a failing Admin API call interrupted: what it finds, when
    it completes, and that it ends where an undisturbed merge would have. */
module MergeRetry {
  import opened Matching
  import opened KeyedItems
  import opened AccountMerge
  import opened MergeConservation
  import opened Splitting
  import opened Wrappers
  import opened AdminOutcome

  // ---- Lists ----

  lemma {:induction false} WithoutSum<T, K>(key: T -> K, gone: set<K>, s: seq<T>, t: seq<T>)
    ensures Without(key, gone, s + t) == Without(key, gone, s) + Without(key, gone, t)
  {
    if t == [] {
      assert s + t == s;
    } else {
      var u, x := t[..|t| - 1], t[|t| - 1];
      assert s + t == (s + u) + [x];
      WithoutSum(key, gone, s, u);
      Snoc<T, K, T>(key, gone, y => y, s + u, x);
      Reassociate(Without(key, gone, s), Without(key, gone, u), [x]);
    }
  }

  /** Only the keys of the list itself matter. */
  lemma {:induction false} WithoutSame<T, K>(key: T -> K, gone: set<K>, other: set<K>, s: seq<T>)
    requires forall x :: x in s ==> (key(x) in gone <==> key(x) in other)
    ensures Without(key, gone, s) == Without(key, other, s)
  {
    if s != [] {
      assert s[|s| - 1] in s;
      WithoutSame(key, gone, other, s[..|s| - 1]);
    }
  }

  lemma WithoutEvery<T(!new), K>(key: T -> K, gone: set<K>, s: seq<T>)
    requires forall x :: x in s ==> key(x) in gone
    ensures Without(key, gone, s) == []
  {
    forall x | x in s ensures key(x) in gone <==> key(x) in Keys(key, s) {}
    WithoutSame(key, gone, Keys(key, s), s);
    WithoutAllKeys(key, s);
  }

  lemma WithoutNone<T, K>(key: T -> K, gone: set<K>, s: seq<T>)
    requires forall x :: x in s ==> key(x) !in gone
    ensures Without(key, gone, s) == s
  {
    WithoutSame(key, gone, {}, s);
    WithoutNothing(key, s);
  }

  lemma PrefixKeys<T, K>(key: T -> K, s: seq<T>, n: nat)
    requires Unique(key, s) && n <= |s|
    ensures forall x :: x in s[n..] ==> key(x) !in Keys(key, s[..n])
  {
    forall x | x in s[n..] ensures key(x) !in Keys(key, s[..n]) {
      var j :| 0 <= j < |s[n..]| && s[n..][j] == x;
      forall y | y in s[..n] ensures key(y) != key(x) {
        var i :| 0 <= i < n && s[i] == y;
        assert s[n + j] == x;
      }
    }
  }

  lemma WithoutFront<T(!new), K>(key: T -> K, front: seq<T>, back: seq<T>)
    requires forall x :: x in back ==> key(x) !in Keys(key, front)
    ensures Without(key, Keys(key, front), front + back) == back
  {
    WithoutAllKeys(key, front);
    WithoutNone(key, Keys(key, front), back);
    WithoutSum(key, Keys(key, front), front, back);
  }

  /** The items of the first list are all gone, those of the second as in `other`. */
  lemma WithoutPieces<T(!new), K>(key: T -> K, gone: set<K>, other: set<K>, first: seq<T>, second: seq<T>)
    requires forall x :: x in first ==> key(x) in gone
    requires forall x :: x in second ==> (key(x) in gone <==> key(x) in other)
    ensures Without(key, gone, first + second) == Without(key, other, second)
  {
    WithoutEvery(key, gone, first);
    WithoutSame(key, gone, other, second);
    WithoutSum(key, gone, first, second);
  }

  /** With one item per key, what is left on the duplicate is the rest of its list. */
  lemma LeftOnDuplicate<T(!new), K>(key: T -> K, d0: seq<T>, detached: nat)
    requires Unique(key, d0) && detached <= |d0|
    ensures Without(key, Keys(key, d0[..detached]), d0) == d0[detached..]
  {
    PrefixKeys(key, d0, detached);
    WithoutFront(key, d0[..detached], d0[detached..]);
    assert d0 == d0[..detached] + d0[detached..];
  }

  /** Which keys the survivor has after a move that got part-way. */
  lemma SurvivorKeys<T, K>(key: T -> K, s0: seq<T>, d0: seq<T>, added: nat, k: K)
    requires added <= |d0|
    ensures k in Keys(key, s0 + Without(key, Keys(key, s0), d0[..added])) <==>
            k in Keys(key, s0) || k in Keys(key, d0[..added])
  {
    var moved := Without(key, Keys(key, s0), d0[..added]);
    if k in Keys(key, s0) {
      var x :| x in s0 && key(x) == k;
      assert x in s0 + moved;
    } else if k in Keys(key, d0[..added]) {
      var x :| x in d0[..added] && key(x) == k;
      WithoutMembers(key, Keys(key, s0), d0[..added], x);
      assert x in s0 + moved;
    }
    if k in Keys(key, s0 + moved) {
      var x :| x in s0 + moved && key(x) == k;
      if x in moved { WithoutMembers(key, Keys(key, s0), d0[..added], x); }
    }
  }

  /** What the retry finds still to move: nothing that was already attached. */
  lemma StillToMove<T(!new), K>(key: T -> K, s0: seq<T>, d0: seq<T>, have: set<K>, added: nat, detached: nat)
    requires Unique(key, d0) && detached <= added <= |d0|
    requires have == Keys(key, s0 + Without(key, Keys(key, s0), d0[..added]))
    ensures Without(key, have, d0[detached..]) == Without(key, Keys(key, s0), d0[added..])
  {
    forall x | x in d0[detached..added] ensures key(x) in have { AttachedIsHad(key, s0, d0, added, detached, x); }
    PrefixKeys(key, d0, added);
    forall x | x in d0[added..] ensures key(x) in have <==> key(x) in Keys(key, s0) {
      SurvivorKeys(key, s0, d0, added, key(x));
    }
    WithoutPieces(key, have, Keys(key, s0), d0[detached..added], d0[added..]);
    assert d0[detached..] == d0[detached..added] + d0[added..];
  }

  lemma AttachedIsHad<T, K>(key: T -> K, s0: seq<T>, d0: seq<T>, added: nat, detached: nat, x: T)
    requires detached <= added <= |d0| && x in d0[detached..added]
    ensures key(x) in Keys(key, s0 + Without(key, Keys(key, s0), d0[..added]))
  {
    var i :| detached <= i < added && d0[i] == x;
    assert d0[..added][i] == x;
    SurvivorKeys(key, s0, d0, added, key(x));
  }

  lemma WithoutCut<T, K>(key: T -> K, gone: set<K>, s: seq<T>, n: nat)
    requires n <= |s|
    ensures Without(key, gone, s) == Without(key, gone, s[..n]) + Without(key, gone, s[n..])
  {
    WithoutSum(key, gone, s[..n], s[n..]);
    assert s == s[..n] + s[n..];
  }

  /** A move resumed from wherever it stopped ends where one that never stopped does. */
  lemma ResumedMove<T(!new), K>(key: T -> K, s0: seq<T>, d0: seq<T>, s: seq<T>, d: seq<T>, added: nat, detached: nat)
    requires Unique(key, d0) && MovedSoFar(key, s0, d0, s, d, added, detached)
    ensures s + Without(key, Keys(key, s), d) == s0 + Without(key, Keys(key, s0), d0)
  {
    var k0 := Keys(key, s0);
    LeftOnDuplicate(key, d0, detached);
    StillToMove(key, s0, d0, Keys(key, s), added, detached);
    WithoutCut(key, k0, d0, added);
    Reassociate(s0, Without(key, k0, d0[..added]), Without(key, k0, d0[added..]));
  }

  lemma ResumedTable<T(!new), K>(request: Request, key: T -> K, before: map<string, seq<T>>, mid: map<string, seq<T>>,
                                 after: map<string, seq<T>>)
    requires Unique(key, Of(before, request.duplicate))
    requires TableStopped(request, key, before, mid) && TableMerged(request, key, mid, after)
    ensures TableMerged(request, key, before, after)
  {
    var added: nat, detached: nat :| TableSoFar(request, key, before, mid, added, detached);
    ResumedMove(key, Of(before, request.survivor), Of(before, request.duplicate),
                Of(mid, request.survivor), Of(mid, request.duplicate), added, detached);
  }

  // ---- Is there still a shared subject? ----

  /** The duplicate still has a link the survivor had, or one the interrupted
      merge had attached and not yet detached. */
  ghost predicate StillShared(s0: seq<Link>, d0: seq<Link>, added: nat, detached: nat) {
    exists j :: detached <= j < |d0| && (ShareSubject(s0, [d0[j]]) ||
                                         (j < added && LinkKey(d0[j]) !in Keys(LinkKey, s0)))
  }

  /** Where the survivor's links come from. */
  lemma SurvivorLinks(s0: seq<Link>, d0: seq<Link>, added: nat, x: Link)
    requires added <= |d0|
    ensures x in s0 + Without(LinkKey, Keys(LinkKey, s0), d0[..added]) <==>
            x in s0 || exists i :: 0 <= i < added && d0[i] == x && LinkKey(x) !in Keys(LinkKey, s0)
  {
    WithoutMembers(LinkKey, Keys(LinkKey, s0), d0[..added], x);
    if i :| 0 <= i < added && d0[i] == x { assert d0[..added][i] == x; }
  }

  /** Sharing with one link left on the duplicate. */
  lemma SharedWithOne(s0: seq<Link>, d0: seq<Link>, added: nat, j: nat)
    requires Unique(LinkKey, d0) && added <= |d0| && j < |d0|
    ensures ShareSubject(s0 + Without(LinkKey, Keys(LinkKey, s0), d0[..added]), [d0[j]]) <==>
            ShareSubject(s0, [d0[j]]) || (j < added && LinkKey(d0[j]) !in Keys(LinkKey, s0))
  {
    var s, y := s0 + Without(LinkKey, Keys(LinkKey, s0), d0[..added]), d0[j];
    assert y in [y];
    SurvivorLinks(s0, d0, added, y);
    if ShareSubject(s, [y]) {
      var x, z :| x in s && z in [y] && x.provider == z.provider && x.subject == z.subject;
      SurvivorLinks(s0, d0, added, x);
      if x !in s0 {
        var i :| 0 <= i < added && d0[i] == x;
        assert LinkKey(d0[i]) == LinkKey(d0[j]);
      }
    }
    if ShareSubject(s0, [y]) {
      var x, z :| x in s0 && z in [y] && x.provider == z.provider && x.subject == z.subject;
      assert x in s;
    }
  }

  lemma ShareOneOf(s: seq<Link>, d: seq<Link>)
    ensures ShareSubject(s, d) <==> exists j :: 0 <= j < |d| && ShareSubject(s, [d[j]])
  {
    if ShareSubject(s, d) {
      var x, y :| x in s && y in d && x.provider == y.provider && x.subject == y.subject;
      var j :| 0 <= j < |d| && d[j] == y;
      assert y in [d[j]];
    }
    if j :| 0 <= j < |d| && ShareSubject(s, [d[j]]) {
      var x, y :| x in s && y in [d[j]] && x.provider == y.provider && x.subject == y.subject;
      assert y in d;
    }
  }

  lemma SharedAfterStop(s0: seq<Link>, d0: seq<Link>, s: seq<Link>, d: seq<Link>, added: nat, detached: nat)
    requires Unique(LinkKey, d0) && MovedSoFar(LinkKey, s0, d0, s, d, added, detached)
    ensures ShareSubject(s, d) <==> StillShared(s0, d0, added, detached)
  {
    LeftOnDuplicate(LinkKey, d0, detached);
    ShareOneOf(s, d);
    forall j | detached <= j < |d0|
      ensures ShareSubject(s, [d0[j]]) <==>
              ShareSubject(s0, [d0[j]]) || (j < added && LinkKey(d0[j]) !in Keys(LinkKey, s0))
    {
      SharedWithOne(s0, d0, added, j);
    }
    forall j | 0 <= j < |d| ensures d[j] == d0[detached + j] {}
    forall j | detached <= j < |d0| ensures d0[j] == d[j - detached] {}
  }

  // ---- The retry ----

  /** The policy's grounds other than a shared subject; a merge never changes them. */
  ghost predicate OtherGrounds(lower: string -> string, request: Request, s: Account, d: Account) {
    || (SameKnownEmail(lower, s, d) && s.emailVerified && d.emailVerified)
    || (request.explicit && !SameKnownEmail(lower, s, d))
  }

  predicate ActiveIn(r: Realm, id: string) { id in r.users && r.users[id].active }

  ghost predicate OneItemPerKey(request: Request, r: Realm) {
    && Unique(LinkKey, Of(r.links, request.duplicate)) && Unique(RoleKey, Of(r.roles, request.duplicate))
    && Unique(GroupKey, Of(r.groups, request.duplicate))
  }

  /** The realm an interrupted merge leaves, with no further call failing. */
  ghost function Interrupted(lower: string -> string, request: Request, auditId: string, r: Realm): Realm {
    Merge(lower, request, auditId, r).0.(outcomes := [])
  }

  /** Of a merge that an API failure interrupted, with its links moved as far as
      `added` and `detached`: an undisturbed retry completes exactly when both
      accounts exist and are still active, and the policy has other grounds or a
      shared subject is left. */
  lemma {:induction false} RetryCompletesExactlyWhen(lower: string -> string, request: Request, auditId: string,
                                                     again: string, r: Realm,
                                                     added: nat, detached: nat)
    requires LowerOk(lower) && OneItemPerKey(request, r) && Merge(lower, request, auditId, r).1.ApiRaised?
    requires TableSoFar(request, LinkKey, r.links, Interrupted(lower, request, auditId, r).links, added, detached)
    ensures var r1 := Interrupted(lower, request, auditId, r);
            Merge(lower, request, again, r1).1.Completed? <==>
              && ActiveIn(r, request.survivor) && ActiveIn(r1, request.duplicate) && request.duplicate in r.users
              && (|| OtherGrounds(lower, request, r.users[request.survivor], r.users[request.duplicate])
                  || StillShared(Of(r.links, request.survivor), Of(r.links, request.duplicate), added, detached))
  {
    var r1 := Interrupted(lower, request, auditId, r);
    EveryMergeConserves(lower, request, auditId, r);
    CompletesExactlyWhen(lower, request, again, r1);
    SharedAfterStop(Of(r.links, request.survivor), Of(r.links, request.duplicate),
                    Of(r1.links, request.survivor), Of(r1.links, request.duplicate), added, detached);
  }

  /** And it leaves the tables, the pointer and the disabled duplicate that an
      undisturbed merge would have left. */
  lemma {:induction false} RetryEndsAsUndisturbed(lower: string -> string, request: Request, auditId: string,
                                                  again: string, r: Realm)
    requires LowerOk(lower) && OneItemPerKey(request, r) && Merge(lower, request, auditId, r).1.ApiRaised?
    requires Merge(lower, request, again, Interrupted(lower, request, auditId, r)).1.Completed?
    ensures var r2 := Merge(lower, request, again, Interrupted(lower, request, auditId, r)).0;
            && TableMerged(request, LinkKey, r.links, r2.links) && TableMerged(request, RoleKey, r.roles, r2.roles)
            && TableMerged(request, GroupKey, r.groups, r2.groups)
            && r2.mergedInto == r.mergedInto[request.duplicate := request.survivor]
            && request.duplicate in r2.users && !ActiveIn(r2, request.duplicate)
  {
    var r1 := Interrupted(lower, request, auditId, r);
    EveryMergeConserves(lower, request, auditId, r);
    assert Conserved(request, r, r1);
    CompletedMerge(lower, request, again, r1);
    EveryMergeConserves(lower, request, again, r1);
    var (r2, result) := Merge(lower, request, again, r1);
    ResumedRealm(request, r, r1, r2, result.links, result.roles, result.groups, result.conflicts);
  }

  lemma ResumedRealm(request: Request, r: Realm, r1: Realm, r2: Realm, links: seq<string>, roles: seq<string>,
                     groups: seq<string>, conflicts: seq<Conflict>)
    requires OneItemPerKey(request, r) && Conserved(request, r, r1) && Conserved(request, r1, r2)
    requires FullyMerged(request, r1, r2, links, roles, groups, conflicts) && request.duplicate in r1.users
    ensures TableMerged(request, LinkKey, r.links, r2.links) && TableMerged(request, RoleKey, r.roles, r2.roles)
    ensures TableMerged(request, GroupKey, r.groups, r2.groups)
    ensures r2.mergedInto == r.mergedInto[request.duplicate := request.survivor]
    ensures request.duplicate in r2.users && !ActiveIn(r2, request.duplicate)
  {
    ResumedTable(request, LinkKey, r.links, r1.links, r2.links);
    ResumedTable(request, RoleKey, r.roles, r1.roles, r2.roles);
    ResumedTable(request, GroupKey, r.groups, r1.groups, r2.groups);
  }

  // ---- A retry that is refused ----

  /** Two active accounts without emails that share just one link. */
  function OneSharedLink(survivor: string, duplicate: string, l: Link, outcomes: seq<Outcome>): Realm {
    var account := Account(None, false, true);
    Realm(map[survivor := account, duplicate := account], map[survivor := [l], duplicate := [l]], map[], map[], map[],
          outcomes, [])
  }

  /** The four reads succeed, and the detach of the shared link takes effect
      without a reply. */
  function LostDetach(): seq<Outcome> { [Succeeds, Succeeds, Succeeds, Succeeds, FailsApplied] }

  lemma SharedLinkAdmits(lower: string -> string, request: Request, l: Link, outcomes: seq<Outcome>)
    requires LowerOk(lower) && request.survivor != request.duplicate
    requires outcomes == [] || outcomes == LostDetach()
    ensures var r := OneSharedLink(request.survivor, request.duplicate, l, outcomes);
            Admission(lower, request, r) ==
            (r.(outcomes := if outcomes == [] then [] else [FailsApplied]),
             Completed(ExactIdpSubject, [], [], [], []))
  {
    var r := OneSharedLink(request.survivor, request.duplicate, l, outcomes);
    assert l in [l];
    SharedSubjectFindsAny([l], [l]);
    if outcomes != [] {
      assert outcomes[1..] == [Succeeds, Succeeds, Succeeds, FailsApplied];
      assert outcomes[1..][1..] == [Succeeds, Succeeds, FailsApplied];
      assert outcomes[1..][1..][1..] == [Succeeds, FailsApplied];
      assert outcomes[1..][1..][1..][1..] == [FailsApplied];
    }
  }

  /** The one item is a conflict, so the first request detaches it. */
  lemma LostDetachStops(request: Request, auditId: string, l: Link, m: Move<Link>)
    requires request.survivor != request.duplicate && m.ok && m.outcomes == [FailsApplied]
    requires Of(m.table, request.duplicate) == [l] && Of(m.table, request.survivor) == [l]
    ensures var r := MoveItems(request, auditId, LinkKey, LinkName, FederatedIdentity, Keys(LinkKey, [l]), [l], m);
            !r.ok && Of(r.table, request.duplicate) == [] && Of(r.table, request.survivor) == [l]
  {
    assert l in [l] && LinkKey(l) in Keys(LinkKey, [l]);
    assert [l][..0] == [] && Without(LinkKey, {LinkKey(l)}, [l]) == [];
    var n := MoveItem(request, auditId, LinkKey, LinkName, FederatedIdentity, Keys(LinkKey, [l]), l, m);
    StoppedLoop(request, auditId, LinkKey, LinkName, FederatedIdentity, Keys(LinkKey, [l]), [l][1..], n);
  }

  lemma FailedLinksEndTheMerge(request: Request, auditId: string, reason: Reason, r: Realm)
    requires var m := MoveItems(request, auditId, LinkKey, LinkName, FederatedIdentity,
                                Keys(LinkKey, Of(r.links, request.survivor)), Of(r.links, request.duplicate),
                                Move(r.links, r.outcomes, [], [], r.audit +
                                     [Note(request, auditId, MergeStarted(reason))], true));
             !m.ok && Of(m.table, request.duplicate) == []
    ensures var p := MoveAndTombstone(request, auditId, reason, r);
            !p.ok && Of(p.realm.links, request.duplicate) == []
  {}

  /** For any two accounts and any link: the merge that only the shared link admits
      completes undisturbed, but once its first detach has lost its reply, every
      retry is refused. */
  lemma {:induction false} RetryCanBeRefused(lower: string -> string, request: Request, auditId: string,
                                             again: string, l: Link)
    requires LowerOk(lower) && request.survivor != request.duplicate && request.survivor != "" &&
             request.duplicate != ""
    requires !request.explicit
    ensures var r := OneSharedLink(request.survivor, request.duplicate, l, LostDetach());
            && Merge(lower, request, auditId, r.(outcomes := [])).1.Completed?
            && Merge(lower, request, auditId, r).1.ApiRaised?
            && !Merge(lower, request, again, Interrupted(lower, request, auditId, r)).1.Completed?
  {
    var r := OneSharedLink(request.survivor, request.duplicate, l, LostDetach());
    assert l in [l] && ShareSubject([l], [l]);
    CompletesExactlyWhen(lower, request, auditId, r.(outcomes := []));
    SharedLinkAdmits(lower, request, l, LostDetach());
    var r1 := r.(outcomes := [FailsApplied]);
    LostDetachStops(request, auditId, l,
                    Move(r1.links, [FailsApplied], [], [], [Note(request, auditId, MergeStarted(ExactIdpSubject))],
                         true));
    assert r1.audit + [Note(request, auditId, MergeStarted(ExactIdpSubject))] ==
           [Note(request, auditId, MergeStarted(ExactIdpSubject))];
    FailedLinksEndTheMerge(request, auditId, ExactIdpSubject, r1);
    EveryMergeConserves(lower, request, auditId, r);
    CompletesExactlyWhen(lower, request, again, Interrupted(lower, request, auditId, r));
  }
}
