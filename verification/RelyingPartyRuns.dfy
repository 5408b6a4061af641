/** One relying-party call from its first step to its last, as the protocol runs it
    inside its critical section, against the service's sequential meaning. */
module RelyingPartyRuns {
  import opened Wrappers
  import opened AdminOutcome
  import opened RelyingParty
  import opened RelyingPartyService
  import P = RelyingPartyProtocol

  /** What one call reads and writes: the stores, the live clients and its position. */
  datatype Desk = Desk(store: map<string, P.Stored>, receipts: map<string, string>, live: map<string, Registration>,
                       task: P.Task)

  ghost function Next(rules: P.Rules, d: Desk, env: P.Env): Desk {
    Desk(P.StoreAfter(d.store, d.task), P.ReceiptsAfter(rules, d.receipts, d.task), P.LiveAfter(d.live, d.task, env),
         d.task.(pc := P.PcAfter(rules, d.store, d.receipts, d.live, d.task, env)))
  }

  ghost function All(rules: P.Rules, d: Desk, envs: seq<P.Env>): Desk
    decreases |envs|
  {
    if envs == [] then d else All(rules, Next(rules, d, envs[0]), envs[1..])
  }

  lemma FirstTwo(rules: P.Rules, d: Desk, envs: seq<P.Env>)
    requires |envs| >= 2
    ensures All(rules, d, envs) == All(rules, Next(rules, Next(rules, d, envs[0]), envs[1]), envs[2..])
  {
    assert envs[1..][1..] == envs[2..];
  }

  /** A step of the protocol is a step of its call. */
  lemma StepIsNext(rules: P.Rules, s: P.State, t: P.Thread, env: P.Env)
    requires P.Enabled(rules, s, P.Advance(t, env))
    ensures var s' := P.Step(rules, s, P.Advance(t, env));
            Desk(s'.store, s'.receipts, s'.live, s'.tasks[t]) ==
            Next(rules, Desk(s.store, s.receipts, s.live, s.tasks[t]), env)
  {}

  // ---- Converging ----

  /** The remote these answers come from, asked for a listing, a mutation and a
      listing again. */
  ghost function OracleOf(live: map<string, Registration>, plan: Plan, first: Listing, write: P.Env,
                          second: Listing): Oracle {
    Oracle(n => if n == 0 then first else second,
           _ => if write.outcome == Succeeds then Created(if write.named then Some(write.uuid) else None)
                else CreateRaised,
           _ => write.outcome == Succeeds && plan.Update? && plan.uuid in live)
  }

  /** The live clients after the mutation a log records, if it took effect. */
  ghost function LiveAs(live: map<string, Registration>, log: seq<Event>, write: P.Env): map<string, Registration> {
    if |log| < 2 || !write.outcome.Applied() then live
    else match log[1]
      case CreateSent(payload, _) => live[write.uuid := payload]
      case UpdateSent(uuid, payload, _) => if uuid in live then live[uuid := payload] else live
      case _ => live
  }

  lemma {:induction false} FinishedStays(rules: P.Rules, d: Desk, envs: seq<P.Env>)
    requires d.task.pc == P.Finished
    ensures All(rules, d, envs) == d
    decreases |envs|
  {
    if envs != [] { FinishedStays(rules, Next(rules, d, envs[0]), envs[1..]); }
  }

  lemma FromVerifying(rules: P.Rules, d: Desk, r: Registration, expected: Option<string>, o: Oracle, w: World,
                      envs: seq<P.Env>)
    requires |envs| == 2 && d.task.pc == P.Verifying(r, expected)
    requires o.lists(w.clock) == envs[0].listing && w.receipts == d.receipts
    ensures All(rules, d, envs) ==
            Desk(d.store, AfterVerify(rules.eyes, o, rules.digest, r, expected, w).0.receipts, d.live,
                 d.task.(pc := P.Finished))
  {
    FirstTwo(rules, d, envs);
  }

  lemma VerifyKeepsLog(eyes: Reading, o: Oracle, digest: Registration -> string, r: Registration,
                       expected: Option<string>, w: World)
    requires |w.log| == 2
    ensures var log := AfterVerify(eyes, o, digest, r, expected, w).0.log; |log| > 2 && log[1] == w.log[1]
  {}

  /** From the mutation on. */
  lemma FromWriting(rules: P.Rules, d: Desk, r: Registration, plan: Plan, o: Oracle, first: Listing, envs: seq<P.Env>)
    requires |envs| == 3 && !plan.Stop? && o == OracleOf(d.live, plan, first, envs[0], envs[1].listing)
    requires plan == PlanFor(rules.eyes, r, ReceiptMatches(rules.digest, r, d.receipts), first)
    requires d.task.pc == if plan.Create? then P.Creating(r) else P.Updating(r, plan.uuid)
    ensures var w := AfterConverge(rules.eyes, o, rules.digest, r, World(0, d.receipts, [])).0;
            All(rules, d, envs) ==
            Desk(d.store, w.receipts, LiveAs(d.live, w.log, envs[0]), d.task.(pc := P.Finished))
  {
    var d1 := Next(rules, d, envs[0]);
    var sent := if plan.Create? then CreateSent(r, o.creates(1)) else UpdateSent(plan.uuid, r, o.updates(1));
    var w2 := World(2, d.receipts, [Listing(first), sent]);
    assert Happened(Happened(World(0, d.receipts, []), Listing(first)), sent) == w2;
    if d1.task.pc == P.Finished {
      FinishedStays(rules, d1, envs[1..]);
    } else {
      var expected := d1.task.pc.expected;
      FromVerifying(rules, d1, r, expected, o, w2, envs[1..]);
      VerifyKeepsLog(rules.eyes, o, rules.digest, r, expected, w2);
    }
  }

  lemma FromObserving(rules: P.Rules, d: Desk, r: Registration, envs: seq<P.Env>)
    requires |envs| == 4 && d.task.pc == P.Observing(r, ReceiptMatches(rules.digest, r, d.receipts))
    ensures var plan := PlanFor(rules.eyes, r, ReceiptMatches(rules.digest, r, d.receipts), envs[0].listing);
            var o := OracleOf(d.live, plan, envs[0].listing, envs[1], envs[2].listing);
            var w := AfterConverge(rules.eyes, o, rules.digest, r, World(0, d.receipts, [])).0;
            All(rules, d, envs) ==
            Desk(d.store, w.receipts, LiveAs(d.live, w.log, envs[1]), d.task.(pc := P.Finished))
  {
    var plan := PlanFor(rules.eyes, r, ReceiptMatches(rules.digest, r, d.receipts), envs[0].listing);
    var o := OracleOf(d.live, plan, envs[0].listing, envs[1], envs[2].listing);
    var d1 := Next(rules, d, envs[0]);
    if plan.Stop? {
      FinishedStays(rules, d1, envs[1..]);
    } else {
      FromWriting(rules, d1, r, plan, o, envs[0].listing, envs[1..]);
    }
  }

  /** A put or a reconcile run through on its own does to receipts and clients what
      one convergence of the service does, whatever the remote answers; a put has
      stored its registration first, and a reconcile leaves the store alone. */
  lemma ConvergeAlone(rules: P.Rules, d: Desk, r: Registration, envs: seq<P.Env>)
    requires |envs| == 6 && d.task.pc == P.Entering
    requires d.task.call == P.Put(r) || (d.task.call.Reconcile? && P.Lookup(d.store, d.task.call.id) == Some(r))
    ensures var plan := PlanFor(rules.eyes, r, ReceiptMatches(rules.digest, r, d.receipts), envs[2].listing);
            var o := OracleOf(d.live, plan, envs[2].listing, envs[3], envs[4].listing);
            var w := AfterConverge(rules.eyes, o, rules.digest, r, World(0, d.receipts, [])).0;
            All(rules, d, envs) ==
            Desk(if d.task.call.Put? then d.store[r.clientId := P.Parsed(r)] else d.store, w.receipts,
                 LiveAs(d.live, w.log, envs[3]), d.task.(pc := P.Finished))
  {
    FirstTwo(rules, d, envs);
    FromObserving(rules, Next(rules, Next(rules, d, envs[0]), envs[1]), r, envs[2..]);
  }

  // ---- Removing ----

  /** The identifier of the only client listed under this id, if there is one. */
  ghost function OnlyListed(eyes: Reading, id: string, listing: Listing): Option<string> {
    if listing.Listed? && |eyes.exact(id, listing.clients)| == 1 then eyes.uuid(eyes.exact(id, listing.clients)[0])
    else None
  }

  /** Dropping the record, then the receipt. */
  lemma FromDropping(rules: P.Rules, d: Desk, envs: seq<P.Env>)
    requires |envs| >= 2 && d.task.pc == P.DeletingStored
    ensures var id := P.ClientOf(d.task.call);
            All(rules, d, envs) == Desk(d.store - {id}, d.receipts - {id}, d.live, d.task.(pc := P.Finished))
  {
    FirstTwo(rules, d, envs);
    FinishedStays(rules, Next(rules, Next(rules, d, envs[0]), envs[1]), envs[2..]);
  }

  lemma FromDeleting(rules: P.Rules, d: Desk, uuid: string, envs: seq<P.Env>)
    requires |envs| == 3 && d.task.pc == P.DeletingLive(uuid)
    ensures var id, goes := P.ClientOf(d.task.call), envs[0].outcome == Succeeds;
            All(rules, d, envs) ==
            Desk(if goes then d.store - {id} else d.store, if goes then d.receipts - {id} else d.receipts,
                 if envs[0].outcome.Applied() then d.live - {uuid} else d.live, d.task.(pc := P.Finished))
  {
    var d1 := Next(rules, d, envs[0]);
    if envs[0].outcome == Succeeds {
      FromDropping(rules, d1, envs[1..]);
    } else {
      FinishedStays(rules, d1, envs[1..]);
    }
  }

  /** A removal run through on its own: record and receipt go exactly when no client
      is listed, or the only one was deleted and the delete confirmed; and that
      client goes if its delete took effect.  Without a readable record, nothing
      does. */
  lemma RemoveAlone(rules: P.Rules, d: Desk, id: string, envs: seq<P.Env>)
    requires |envs| == 5 && d.task == P.Task(P.Remove(id), P.Entering)
    ensures var known, listing := P.Lookup(d.store, id).Some?, envs[1].listing;
            var only := OnlyListed(rules.eyes, id, listing);
            var none := listing.Listed? && rules.eyes.exact(id, listing.clients) == [];
            var goes := known && (none || (only.Some? && envs[2].outcome == Succeeds));
            All(rules, d, envs) ==
            Desk(if goes then d.store - {id} else d.store, if goes then d.receipts - {id} else d.receipts,
                 if known && only.Some? && envs[2].outcome.Applied() then d.live - {only.value} else d.live,
                 d.task.(pc := P.Finished))
  {
    FirstTwo(rules, d, envs);
    var d1 := Next(rules, d, envs[0]);
    var d2 := Next(rules, d1, envs[1]);
    if d2.task.pc.DeletingStored? {
      FromDropping(rules, d2, envs[2..]);
    } else if d2.task.pc.DeletingLive? {
      FromDeleting(rules, d2, d2.task.pc.uuid, envs[2..]);
    } else {
      FinishedStays(rules, d2, envs[2..]);
    }
  }
}
