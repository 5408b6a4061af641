/** One reconciliation call against a remote that may answer anything: what the
    service decides from each listing, what it sends, and when it may say that a
    client is in sync. */
module RelyingPartyService {
  import opened Wrappers
  import opened Text
  import opened RelyingParty
  import MapperOrder

  // ---- Decisions, shared by every path ----

  datatype ConvergenceState = InSync | Drifted | Absent | Ambiguous | Unavailable | ApplyFailed

  datatype ErrorCode =
    | NoError | KeycloakUnavailable | DuplicateClients | ClientCreateFailed | ClientUpdateFailed
    | PostApplyObservationFailed | DuplicateClientsAfterApply | ClientMissingAfterApply
    | ClientIdentityChangedAfterApply | ClientStateMismatchAfterApply

  datatype Status = Status(state: ConvergenceState, uuid: Option<string>, receiptMatches: bool, error: ErrorCode)

  /** A call ends with a status, or with an HTTP 500 when a live client has no
      usable identifier. */
  datatype Reply = Reported(status: Status) | BadIdentifier

  /** What the remote answers to a listing. */
  datatype Listing = Listed(clients: seq<Object>) | ListRaised

  /** The listed clients that carry exactly this client id. */
  function Exact(clientId: string, clients: seq<Object>): seq<Object> {
    if clients == [] then []
    else if Get(clients[0], "clientId") == JStr(clientId) then [clients[0]] + Exact(clientId, clients[1..])
    else Exact(clientId, clients[1..])
  }

  predicate SafeSegment(s: string) {
    && 0 < |s| <= 255 && s != "." && s != ".."
    && forall i :: 0 <= i < |s| ==> s[i] !in {'/', '\\', '%', '?', '#'} && !IsControl(s[i])
  }

  /** The live UUID, unless it is missing or unsafe in a path. */
  function ClientUuid(client: Object): Option<string> {
    var id := Get(client, "id");
    if id.JStr? && SafeSegment(id.s) then Some(id.s) else None
  }

  /** How the service reads a listing: which clients are exact, what identifies
      one, and whether it matches a registration. */
  datatype Reading = Reading(exact: (string, seq<Object>) -> seq<Object>, uuid: Object -> Option<string>,
                             matches: (Registration, Object) -> bool)

  /** The reading the service uses. */
  ghost function Observable(fieldsOk: FieldCheck): Reading {
    Reading((id, clients) => Exact(id, clients), client => ClientUuid(client), (r, client) =>
            ObservableMatches(fieldsOk, r, client))
  }

  datatype Plan = Stop(reply: Reply) | Create | Update(uuid: string)

  /** What to do about the first listing. */
  ghost function PlanFor(eyes: Reading, r: Registration, receiptMatches: bool, listing: Listing): Plan {
    if listing.ListRaised? then Stop(Reported(Status(Unavailable, None, receiptMatches, KeycloakUnavailable)))
    else
      var matches := eyes.exact(r.clientId, listing.clients);
      if |matches| > 1 then Stop(Reported(Status(Ambiguous, None, receiptMatches, DuplicateClients)))
      else if matches == [] then Create
      else
        var uuid := eyes.uuid(matches[0]);
        if uuid.None? then Stop(BadIdentifier)
        else if eyes.matches(r, matches[0]) && receiptMatches then Stop(Reported(Status(InSync, uuid, true, NoError)))
        else Update(uuid.value)
  }

  datatype Verdict = Rejected(reply: Reply) | Verified(uuid: string)

  /** What to make of the listing after a mutation. */
  ghost function VerdictOn(eyes: Reading, r: Registration, expected: Option<string>, listing: Listing): Verdict {
    if listing.ListRaised? then Rejected(Reported(Status(ApplyFailed, None, false, PostApplyObservationFailed)))
    else
      var matches := eyes.exact(r.clientId, listing.clients);
      if |matches| > 1 then Rejected(Reported(Status(Ambiguous, None, false, DuplicateClientsAfterApply)))
      else if matches == [] then Rejected(Reported(Status(ApplyFailed, None, false, ClientMissingAfterApply)))
      else
        var uuid := eyes.uuid(matches[0]);
        if uuid.None? then Rejected(BadIdentifier)
        else if expected.Some? && uuid != expected then
            Rejected(Reported(Status(ApplyFailed, uuid, false, ClientIdentityChangedAfterApply)))
        else if !eyes.matches(r, matches[0]) then
            Rejected(Reported(Status(ApplyFailed, uuid, false, ClientStateMismatchAfterApply)))
        else Verified(uuid.value)
  }

  // ---- One call as a function of an arbitrary remote ----

  datatype CreateReply = Created(uuid: Option<string>) | CreateRaised

  /** An adversary: its answers may depend on nothing but when they are asked for. */
  datatype Oracle = Oracle(lists: nat -> Listing, creates: nat -> CreateReply, updates: nat -> bool)

  /** What a call does, with the answer it got. */
  datatype Event =
    | Listing(listing: Listing)
    | CreateSent(payload: Registration, reply: CreateReply)
    | UpdateSent(uuid: string, payload: Registration, ok: bool)
    | ReceiptWritten(digest: string)

  datatype World = World(clock: nat, receipts: map<string, string>, log: seq<Event>)

  function Happened(w: World, e: Event): World { w.(clock := w.clock + 1, log := w.log + [e]) }

  ghost predicate ReceiptMatches(digest: Registration -> string, r: Registration, receipts: map<string, string>) {
    r.clientId in receipts && receipts[r.clientId] == digest(r)
  }

  ghost function AfterVerify(eyes: Reading, o: Oracle, digest: Registration -> string, r: Registration,
                             expected: Option<string>, w: World): (World, Reply) {
    var listing := o.lists(w.clock);
    var w1 := Happened(w, Listing(listing));
    match VerdictOn(eyes, r, expected, listing)
    case Rejected(reply) => (w1, reply)
    case Verified(uuid) =>
      (World(w1.clock, w1.receipts[r.clientId := digest(r)], w1.log + [ReceiptWritten(digest(r))]),
       Reported(Status(InSync, Some(uuid), true, NoError)))
  }

  ghost function AfterConverge(eyes: Reading, o: Oracle, digest: Registration -> string, r: Registration,
                               w: World): (World, Reply) {
    var receiptMatches := ReceiptMatches(digest, r, w.receipts);
    var listing := o.lists(w.clock);
    var w1 := Happened(w, Listing(listing));
    match PlanFor(eyes, r, receiptMatches, listing)
    case Stop(reply) => (w1, reply)
    case Create =>
      var created := o.creates(w1.clock);
      var w2 := Happened(w1, CreateSent(r, created));
      if created.CreateRaised? then (w2, Reported(Status(ApplyFailed, None, false, ClientCreateFailed)))
      else AfterVerify(eyes, o, digest, r, created.uuid, w2)
    case Update(uuid) =>
      var updated := o.updates(w1.clock);
      var w2 := Happened(w1, UpdateSent(uuid, r, updated));
      if !updated then (w2, Reported(Status(ApplyFailed, Some(uuid), false, ClientUpdateFailed)))
      else AfterVerify(eyes, o, digest, r, Some(uuid), w2)
  }

  ghost function AfterStatus(eyes: Reading, o: Oracle, digest: Registration -> string, r: Registration,
                             w: World): (World, Reply) {
    var receiptMatches := ReceiptMatches(digest, r, w.receipts);
    var listing := o.lists(w.clock);
    var w1 := Happened(w, Listing(listing));
    if listing.ListRaised? then (w1, Reported(Status(Unavailable, None, receiptMatches, KeycloakUnavailable)))
    else
      var matches := eyes.exact(r.clientId, listing.clients);
      if matches == [] then (w1, Reported(Status(Absent, None, receiptMatches, NoError)))
      else if |matches| > 1 then (w1, Reported(Status(Ambiguous, None, receiptMatches, DuplicateClients)))
      else
        var uuid := eyes.uuid(matches[0]);
        if uuid.None? then (w1, BadIdentifier)
        else (w1, Reported(Status(if eyes.matches(r, matches[0]) && receiptMatches then InSync
                                  else Drifted, uuid, receiptMatches, NoError)))
  }

  /** The service object: its receipts, and the remote it talks to. */
  class Service {
    const oracle: Oracle
    const digest: Registration -> string
    const fieldsOk: FieldCheck
    var clock: nat
    var receipts: map<string, string>
    ghost var log: seq<Event>

    constructor (oracle: Oracle, digest: Registration -> string, fieldsOk: FieldCheck, receipts: map<string, string>)
      ensures this.oracle == oracle && this.digest == digest && this.fieldsOk == fieldsOk &&
              View() == World(0, receipts, [])
    {
      this.oracle, this.digest, this.fieldsOk := oracle, digest, fieldsOk;
      this.clock, this.receipts, this.log := 0, receipts, [];
    }

    ghost function View(): World
      reads this
    {
      World(clock, receipts, log)
    }

    method ListClients() returns (listing: Listing)
      modifies this`clock, this`log
      ensures listing == oracle.lists(old(clock)) && View() == Happened(old(View()), Event.Listing(listing))
    {
      listing := oracle.lists(clock);
      clock, log := clock + 1, log + [Event.Listing(listing)];
    }

    /** Observe one live client without changing anything. */
    method StatusFor(r: Registration) returns (reply: Reply)
      modifies this`clock, this`log
      ensures (View(), reply) == AfterStatus(Observable(fieldsOk), oracle, digest, r, old(View()))
    {
      var receiptMatches := r.clientId in receipts && receipts[r.clientId] == digest(r);
      var listing := ListClients();
      if listing.ListRaised? { return Reported(Status(Unavailable, None, receiptMatches, KeycloakUnavailable)); }
      var matches := Exact(r.clientId, listing.clients);
      if matches == [] { return Reported(Status(Absent, None, receiptMatches, NoError)); }
      if |matches| > 1 { return Reported(Status(Ambiguous, None, receiptMatches, DuplicateClients)); }
      var observable := ObservableClientMatches(fieldsOk, r, matches[0]);
      var uuid := ClientUuid(matches[0]);
      if uuid.None? { return BadIdentifier; }
      return Reported(Status(if observable && receiptMatches then InSync
                             else Drifted, uuid, receiptMatches, NoError));
    }

    /** Re-observe a mutation before recording its receipt. */
    method VerifyMutation(r: Registration, expected: Option<string>) returns (reply: Reply)
      modifies this
      ensures (View(), reply) == AfterVerify(Observable(fieldsOk), oracle, digest, r, expected, old(View()))
    {
      var listing := ListClients();
      if listing.ListRaised? { return Reported(Status(ApplyFailed, None, false, PostApplyObservationFailed)); }
      var matches := Exact(r.clientId, listing.clients);
      if |matches| > 1 { return Reported(Status(Ambiguous, None, false, DuplicateClientsAfterApply)); }
      if matches == [] { return Reported(Status(ApplyFailed, None, false, ClientMissingAfterApply)); }
      var uuid := ClientUuid(matches[0]);
      if uuid.None? { return BadIdentifier; }
      if expected.Some? && uuid != expected { return Reported(Status(ApplyFailed, uuid, false,
                                                                     ClientIdentityChangedAfterApply)); }
      var ok := ObservableClientMatches(fieldsOk, r, matches[0]);
      if !ok { return Reported(Status(ApplyFailed, uuid, false, ClientStateMismatchAfterApply)); }
      receipts, log := receipts[r.clientId := digest(r)], log + [ReceiptWritten(digest(r))];
      return Reported(Status(InSync, uuid, true, NoError));
    }

    /** Create or update one exact client and verify its observable state. */
    method Converge(r: Registration) returns (reply: Reply)
      modifies this
      ensures (View(), reply) == AfterConverge(Observable(fieldsOk), oracle, digest, r, old(View()))
    {
      var receiptMatches := r.clientId in receipts && receipts[r.clientId] == digest(r);
      var listing := ListClients();
      ghost var plan := PlanFor(Observable(fieldsOk), r, receiptMatches, listing);
      if listing.ListRaised? { return Reported(Status(Unavailable, None, receiptMatches, KeycloakUnavailable)); }
      var matches := Exact(r.clientId, listing.clients);
      if |matches| > 1 { return Reported(Status(Ambiguous, None, receiptMatches, DuplicateClients)); }
      if matches == [] {
        assert plan == Create;
        var created := oracle.creates(clock);
        clock, log := clock + 1, log + [CreateSent(r, created)];
        if created.CreateRaised? { return Reported(Status(ApplyFailed, None, false, ClientCreateFailed)); }
        reply := VerifyMutation(r, created.uuid);
        return;
      }
      var uuid := ClientUuid(matches[0]);
      if uuid.None? { return BadIdentifier; }
      var ok := ObservableClientMatches(fieldsOk, r, matches[0]);
      if ok && receiptMatches { return Reported(Status(InSync, uuid, true, NoError)); }
      assert plan == Update(uuid.value);
      var updated := oracle.updates(clock);
      clock, log := clock + 1, log + [UpdateSent(uuid.value, r, updated)];
      if !updated { return Reported(Status(ApplyFailed, uuid, false, ClientUpdateFailed)); }
      reply := VerifyMutation(r, uuid);
    }
  }

  // ---- Soundness against every remote ----

  /** The listing shows exactly one exact client, and it matches. */
  ghost predicate ShowsMatch(eyes: Reading, r: Registration, e: Event) {
    && e.Listing? && e.listing.Listed?
    && |eyes.exact(r.clientId, e.listing.clients)| == 1
    && eyes.matches(r, eyes.exact(r.clientId, e.listing.clients)[0])
  }

  /** Every event has the observation that justifies it right before it: a
      receipt follows a matching listing, a create a listing without the client,
      an update a listing with exactly that one client. */
  ghost predicate Justified(eyes: Reading, r: Registration, events: seq<Event>) {
    events == [] || (Justified(eyes, r, events[..|events| - 1]) &&
                     JustifiedAfter(eyes, r, events[..|events| - 1], events[|events| - 1]))
  }

  ghost predicate JustifiedAfter(eyes: Reading, r: Registration, before: seq<Event>, e: Event) {
    match e
    case Listing(_) => true
    case ReceiptWritten(_) => before != [] && ShowsMatch(eyes, r, before[|before| - 1])
    case CreateSent(payload, _) => payload == r && before != [] && ShowsExactly(eyes, r, before[|before| - 1], [])
    case UpdateSent(uuid, payload, _) =>
        payload == r && before != [] && ShowsExactly(eyes, r, before[|before| - 1], [uuid])
  }

  /** The listing has as many exact clients as `uuids`, with those identifiers. */
  ghost predicate ShowsExactly(eyes: Reading, r: Registration, e: Event, uuids: seq<string>) {
    && e.Listing? && e.listing.Listed?
    && |eyes.exact(r.clientId, e.listing.clients)| == |uuids|
    && forall i :: 0 <= i < |uuids| ==> eyes.uuid(eyes.exact(r.clientId, e.listing.clients)[i]) == Some(uuids[i])
  }

  /** The call's last listing shows a match. */
  ghost predicate EndsInMatch(eyes: Reading, r: Registration, events: seq<Event>) {
    exists i :: 0 <= i < |events| && ShowsMatch(eyes, r, events[i]) && forall j :: i < j < |events| ==>
        !events[j].Listing?
  }

  /** What a call may have done: `events` is all it sent and wrote. */
  ghost predicate SoundCall(eyes: Reading, digest: Registration -> string, r: Registration, w: World, w': World,
                            reply: Reply, events: seq<Event>) {
    && w'.log == w.log + events
    && Justified(eyes, r, events)
    && (reply.Reported? && reply.status.state == InSync ==>
        EndsInMatch(eyes, r, events) && ReceiptMatches(digest, r, w'.receipts))
    && (forall id :: id != r.clientId ==>
        (id in w'.receipts <==> id in w.receipts) && (id in w.receipts ==> w'.receipts[id] == w.receipts[id]))
    && ((forall e :: e in events ==> !e.ReceiptWritten?) ==> w'.receipts == w.receipts)
  }

  ghost predicate Sound(eyes: Reading, digest: Registration -> string, r: Registration, w: World, w': World,
                        reply: Reply) {
    exists events :: SoundCall(eyes, digest, r, w, w', reply, events)
  }

  /** Whatever the remote lists, loses or refuses: `InSync` is reported only when
      the call's last listing had exactly one exact client, it matched, and the
      receipt is this registration's digest; receipts and mutations are justified
      by the listing just before them. */
  lemma ConvergeIsSound(eyes: Reading, o: Oracle, digest: Registration -> string, r: Registration, w: World)
    ensures Sound(eyes, digest, r, w, AfterConverge(eyes, o, digest, r, w).0, AfterConverge(eyes, o, digest, r, w).1)
  {
    var (w', reply) := AfterConverge(eyes, o, digest, r, w);
    var first := Listing(o.lists(w.clock));
    var w1 := Happened(w, first);
    JustifiedNext(eyes, r, [], first);
    assert [] + [first] == [first];
    match PlanFor(eyes, r, ReceiptMatches(digest, r, w.receipts), first.listing) {
      case Stop(_) => ListingIsSound(eyes, digest, r, w, first, reply);
      case Create =>
        MutationIsSound(eyes, o, digest, r, w, first, CreateSent(r, o.creates(w1.clock)),
                        o.creates(w1.clock).Created?,
                        if o.creates(w1.clock).Created? then o.creates(w1.clock).uuid else None);
      case Update(uuid) =>
        MutationIsSound(eyes, o, digest, r, w, first, UpdateSent(uuid, r, o.updates(w1.clock)), o.updates(w1.clock),
                        Some(uuid));
    }
  }

  /** A call that only lists. */
  lemma ListingIsSound(eyes: Reading, digest: Registration -> string, r: Registration, w: World, first: Event,
                       reply: Reply)
    requires first.Listing?
    requires reply.Reported? && reply.status.state == InSync ==>
             ShowsMatch(eyes, r, first) && ReceiptMatches(digest, r, w.receipts)
    ensures Sound(eyes, digest, r, w, Happened(w, first), reply)
  {
    JustifiedNext(eyes, r, [], first);
    assert [] + [first] == [first];
    assert reply.Reported? && reply.status.state == InSync ==> ShowsMatch(eyes, r, [first][0]);
    assert SoundCall(eyes, digest, r, w, Happened(w, first), reply, [first]);
  }

  lemma JustifiedNext(eyes: Reading, r: Registration, events: seq<Event>, e: Event)
    requires Justified(eyes, r, events) && JustifiedAfter(eyes, r, events, e)
    ensures Justified(eyes, r, events + [e])
  {
    assert (events + [e])[..|events|] == events;
  }

  lemma MutationIsSound(eyes: Reading, o: Oracle, digest: Registration -> string, r: Registration, w: World,
                        first: Event, sent: Event, ok: bool, expected: Option<string>)
    requires Justified(eyes, r, [first]) && JustifiedAfter(eyes, r, [first], sent) && first.Listing? &&
             (sent.CreateSent? || sent.UpdateSent?)
    ensures !ok ==> forall status: Status :: status.state != InSync ==>
            Sound(eyes, digest, r, w, Happened(Happened(w, first), sent), Reported(status))
    ensures ok ==>
            Sound(eyes, digest, r, w, AfterVerify(eyes, o, digest, r, expected, Happened(Happened(w, first), sent)).0,
                         AfterVerify(eyes, o, digest, r, expected, Happened(Happened(w, first), sent)).1)
  {
    var w2 := Happened(Happened(w, first), sent);
    assert w2.log == w.log + [first, sent];
    JustifiedNext(eyes, r, [first], sent);
    assert [first] + [sent] == [first, sent];
    forall status: Status | status.state != InSync ensures Sound(eyes, digest, r, w, w2, Reported(status)) {
      assert SoundCall(eyes, digest, r, w, w2, Reported(status), [first, sent]);
    }
    VerificationIsSound(eyes, o, digest, r, w, w2, first, sent, expected);
  }

  lemma VerificationIsSound(eyes: Reading, o: Oracle, digest: Registration -> string, r: Registration, w: World,
                            w2: World, first: Event, sent: Event, expected: Option<string>)
    requires Justified(eyes, r, [first, sent]) && first.Listing? && (sent.CreateSent? || sent.UpdateSent?)
    requires w2 == Happened(Happened(w, first), sent)
    ensures Sound(eyes, digest, r, w, AfterVerify(eyes, o, digest, r, expected, w2).0,
                  AfterVerify(eyes, o, digest, r, expected, w2).1)
  {
    var second := Listing(o.lists(w2.clock));
    var (w3, reply) := AfterVerify(eyes, o, digest, r, expected, w2);
    JustifiedNext(eyes, r, [first, sent], second);
    assert [first, sent] + [second] == [first, sent, second];
    match VerdictOn(eyes, r, expected, second.listing) {
      case Rejected(_) =>
        assert w3.log == w.log + [first, sent, second];
        assert SoundCall(eyes, digest, r, w, w3, reply, [first, sent, second]);
      case Verified(_) =>
        var events := [first, sent, second, ReceiptWritten(digest(r))];
        assert w3.log == w.log + events;
        JustifiedNext(eyes, r, [first, sent, second], events[3]);
        assert [first, sent, second] + [events[3]] == events;
        assert ShowsMatch(eyes, r, events[2]) && events[3] in events;
        assert SoundCall(eyes, digest, r, w, w3, reply, events);
    }
  }

  /** A status request sends nothing and is sound in the same sense. */
  lemma StatusIsSound(eyes: Reading, o: Oracle, digest: Registration -> string, r: Registration, w: World)
    ensures Sound(eyes, digest, r, w, AfterStatus(eyes, o, digest, r, w).0, AfterStatus(eyes, o, digest, r, w).1)
    ensures AfterStatus(eyes, o, digest, r, w).0.receipts == w.receipts
  {
    var (w', reply) := AfterStatus(eyes, o, digest, r, w);
    var first := Listing(o.lists(w.clock));
    ListingIsSound(eyes, digest, r, w, first, reply);
  }

  // ---- What each reply says about the call's log ----

  /** The uuid a mutation was for, if it is known: the updated client's, or the one
      the reply to a create named. */
  function ClientOf(e: Event): Option<string> {
    match e
    case UpdateSent(uuid, _, _) => Some(uuid)
    case CreateSent(_, reply) => if reply.Created? then reply.uuid else None
    case _ => None
  }

  /** The mutation raised. */
  predicate Raised(e: Event) { (e.UpdateSent? && !e.ok) || (e.CreateSent? && e.reply.CreateRaised?) }

  predicate IsState(reply: Reply, state: ConvergenceState) { reply.Reported? && reply.status.state == state }

  ghost predicate ShowsSeveral(eyes: Reading, r: Registration, e: Event) {
    e.Listing? && e.listing.Listed? && |eyes.exact(r.clientId, e.listing.clients)| > 1
  }

  /** One exact client, without a usable identifier. */
  ghost predicate ShowsNameless(eyes: Reading, r: Registration, e: Event) {
    && e.Listing? && e.listing.Listed? && |eyes.exact(r.clientId, e.listing.clients)| == 1
    && eyes.uuid(eyes.exact(r.clientId, e.listing.clients)[0]).None?
  }

  /** One exact client, this one, and it matches. */
  ghost predicate ShowsMatchAs(eyes: Reading, r: Registration, e: Event, uuid: string) {
    ShowsMatch(eyes, r, e) && eyes.uuid(eyes.exact(r.clientId, e.listing.clients)[0]) == Some(uuid)
  }

  /** The shape of a convergence call: it lists, may mutate, then lists again, and
      may write the receipt; and its reply says which of these happened. */
  ghost predicate LogSays(eyes: Reading, r: Registration, receiptMatches: bool, reply: Reply, events: seq<Event>) {
    && events != [] && events[0].Listing?
    && (match |events|
        case 1 =>
          var e := events[0];
          && (IsState(reply, Unavailable) <==> e.listing.ListRaised?)
          && (IsState(reply, Ambiguous) <==> ShowsSeveral(eyes, r, e))
          && (reply.BadIdentifier? <==> ShowsNameless(eyes, r, e))
          && (IsState(reply, InSync) <==> receiptMatches && exists u :: ShowsMatchAs(eyes, r, e, u))
          && !IsState(reply, ApplyFailed)
        case 2 => ClientSent(events[1]) && Raised(events[1]) && IsState(reply, ApplyFailed)
        case 3 =>
          var e := events[2];
          && ClientSent(events[1]) && !Raised(events[1]) && e.Listing?
          && (IsState(reply, Ambiguous) <==> ShowsSeveral(eyes, r, e))
          && (reply.BadIdentifier? <==> ShowsNameless(eyes, r, e))
          && (IsState(reply, ApplyFailed) <==> !ShowsSeveral(eyes, r, e) && !ShowsNameless(eyes, r, e))
          && !exists u ::
              ShowsMatchAs(eyes, r, e, u) && (ClientOf(events[1]).Some? ==> ClientOf(events[1]) == Some(u))
        case 4 =>
          && ClientSent(events[1]) && !Raised(events[1]) && events[3].ReceiptWritten? && IsState(reply, InSync)
          && exists u ::
              ShowsMatchAs(eyes, r, events[2], u) && (ClientOf(events[1]).Some? ==> ClientOf(events[1]) == Some(u))
        case _ => false)
  }

  predicate ClientSent(e: Event) { e.CreateSent? || e.UpdateSent? }

  /** How many exact clients a listing shows; the identifier of the only one. */
  ghost predicate ShowsNone(eyes: Reading, r: Registration, e: Event) {
    e.Listing? && e.listing.Listed? && eyes.exact(r.clientId, e.listing.clients) == []
  }

  ghost predicate ShowsOneAs(eyes: Reading, r: Registration, e: Event, uuid: string) {
    && e.Listing? && e.listing.Listed? && |eyes.exact(r.clientId, e.listing.clients)| == 1
    && eyes.uuid(eyes.exact(r.clientId, e.listing.clients)[0]) == Some(uuid)
  }

  /** The mutation is the one the first listing asks for, with `r` as its payload. */
  ghost predicate MutationFits(eyes: Reading, r: Registration, first: Event, sent: Event) {
    match sent
    case CreateSent(payload, _) => payload == r && ShowsNone(eyes, r, first)
    case UpdateSent(uuid, payload, _) => payload == r && ShowsOneAs(eyes, r, first, uuid)
    case _ => false
  }

  /** The error the last event calls for. */
  ghost function CauseOf(eyes: Reading, r: Registration, events: seq<Event>): ErrorCode
    requires events != []
  {
    var e := events[|events| - 1];
    match e
    case CreateSent(_, _) => ClientCreateFailed
    case UpdateSent(_, _, _) => ClientUpdateFailed
    case ReceiptWritten(_) => NoError
    case Listing(listing) =>
      if |events| == 1 then
        if listing.ListRaised? then KeycloakUnavailable
        else if ShowsSeveral(eyes, r, e) then DuplicateClients else NoError
      else if listing.ListRaised? then PostApplyObservationFailed
      else if ShowsSeveral(eyes, r, e) then DuplicateClientsAfterApply
      else if ShowsNone(eyes, r, e) then ClientMissingAfterApply
      else if exists u :: ShowsOneAs(eyes, r, e, u) && ClientOf(events[|events| - 2]) !in {None, Some(u)} then
          ClientIdentityChangedAfterApply
      else ClientStateMismatchAfterApply
  }

  /** What the call sent and why it ended, from its log. */
  ghost predicate LogExplains(eyes: Reading, r: Registration, receiptMatches: bool, reply: Reply,
                              events: seq<Event>) {
    && events != []
    && (|events| > 1 ==> MutationFits(eyes, r, events[0], events[1]))
    && (reply.Reported? ==>
          && reply.status.error == CauseOf(eyes, r, events)
          && (reply.status.receiptMatches <==> |events| == 4 || (|events| == 1 && receiptMatches)))
  }

  /** Every error code names what happened in the call's own log, and the mutation is
      a create of `r` where no client was listed or an update of the one listed. */
  lemma ConvergeExplainsItself(eyes: Reading, o: Oracle, digest: Registration -> string, r: Registration, w: World)
    ensures var (w', reply) := AfterConverge(eyes, o, digest, r, w);
            exists events :: w'.log == w.log + events
                             && LogExplains(eyes, r, ReceiptMatches(digest, r, w.receipts), reply, events)
  {
    var (w', reply) := AfterConverge(eyes, o, digest, r, w);
    var receiptMatches := ReceiptMatches(digest, r, w.receipts);
    var first := Listing(o.lists(w.clock));
    match PlanFor(eyes, r, receiptMatches, first.listing) {
      case Stop(_) => assert LogExplains(eyes, r, receiptMatches, reply, [first]);
      case Create =>
        MutationExplains(eyes, o, digest, r, w, receiptMatches, first, CreateSent(r, o.creates(w.clock + 1)), w',
                         reply);
      case Update(uuid) =>
        MutationExplains(eyes, o, digest, r, w, receiptMatches, first, UpdateSent(uuid, r, o.updates(w.clock + 1)),
                         w',
                         reply);
    }
  }

  lemma VerdictExplains(eyes: Reading, r: Registration, receiptMatches: bool, first: Event, sent: Event,
                        second: Event)
    requires MutationFits(eyes, r, first, sent) && second.Listing?
    requires VerdictOn(eyes, r, ClientOf(sent), second.listing).Rejected?
    ensures LogExplains(eyes, r, receiptMatches, VerdictOn(eyes, r, ClientOf(sent), second.listing).reply,
                        [first, sent, second])
  {
    if second.listing.Listed? && |eyes.exact(r.clientId, second.listing.clients)| == 1 {
      var uuid := eyes.uuid(eyes.exact(r.clientId, second.listing.clients)[0]);
      if uuid.Some? { assert ShowsOneAs(eyes, r, second, uuid.value); }
    }
  }

  lemma MutationExplains(eyes: Reading, o: Oracle, digest: Registration -> string, r: Registration, w: World,
                         receiptMatches: bool, first: Event, sent: Event, w': World, reply: Reply)
    requires MutationFits(eyes, r, first, sent)
    requires var w2 := Happened(Happened(w, first), sent);
             if Raised(sent)
             then w' == w2 && reply.Reported? && !reply.status.receiptMatches
                  && reply.status.error == (if sent.CreateSent? then ClientCreateFailed else ClientUpdateFailed)
             else (w', reply) == AfterVerify(eyes, o, digest, r, ClientOf(sent), w2)
    ensures exists events :: w'.log == w.log + events && LogExplains(eyes, r, receiptMatches, reply, events)
  {
    var w2 := Happened(Happened(w, first), sent);
    assert w2.log == w.log + [first, sent];
    if Raised(sent) {
      assert LogExplains(eyes, r, receiptMatches, reply, [first, sent]);
    } else {
      var second := Listing(o.lists(w2.clock));
      if VerdictOn(eyes, r, ClientOf(sent), second.listing).Verified? {
        var events := [first, sent, second, ReceiptWritten(digest(r))];
        assert w'.log == w.log + events && LogExplains(eyes, r, receiptMatches, reply, events);
      } else {
        VerdictExplains(eyes, r, receiptMatches, first, sent, second);
        assert w'.log == w.log + [first, sent, second];
      }
    }
  }

  /** A status names the state its one listing shows. */
  lemma StatusExactly(eyes: Reading, o: Oracle, digest: Registration -> string, r: Registration, w: World)
    ensures var reply, e, receipt := AfterStatus(eyes, o, digest, r, w).1, Listing(o.lists(w.clock)),
                                     ReceiptMatches(digest, r, w.receipts);
            && (IsState(reply, Unavailable) <==> e.listing.ListRaised?)
            && (IsState(reply, Absent) <==> ShowsNone(eyes, r, e))
            && (IsState(reply, Ambiguous) <==> ShowsSeveral(eyes, r, e))
            && (reply.BadIdentifier? <==> ShowsNameless(eyes, r, e))
            && (IsState(reply, InSync) <==> receipt && exists u :: ShowsMatchAs(eyes, r, e, u))
            && (IsState(reply, Drifted) <==>
                exists u :: ShowsOneAs(eyes, r, e, u) && !(receipt && ShowsMatchAs(eyes, r, e, u)))
            && (reply.Reported? ==>
                reply.status.error == CauseOf(eyes, r, [e]) && reply.status.receiptMatches == receipt)
  {
    var e := Listing(o.lists(w.clock));
    if e.listing.Listed? && |eyes.exact(r.clientId, e.listing.clients)| == 1 {
      var client := eyes.exact(r.clientId, e.listing.clients)[0];
      if eyes.uuid(client).Some? {
        assert ShowsOneAs(eyes, r, e, eyes.uuid(client).value);
        if eyes.matches(r, client) { assert ShowsMatchAs(eyes, r, e, eyes.uuid(client).value); }
      }
    }
  }

  /** An identifier is read off a live client exactly when it is text that stays one
      segment of a request path. */
  lemma UuidExactly(client: Object, uuid: string)
    ensures ClientUuid(client) == Some(uuid) <==>
            && "id" in client && client["id"] == JStr(uuid)
            && 0 < |uuid| <= 255 && uuid != "." && uuid != ".."
            && (forall i :: 0 <= i < |uuid| ==> !IsControl(uuid[i]))
            && '/' !in uuid && '\\' !in uuid && '%' !in uuid && '?' !in uuid && '#' !in uuid
  {}

  /** Against every remote, from the call's own log: the reply is `UNAVAILABLE`,
      `AMBIGUOUS`, `APPLY_FAILED` or `IN_SYNC` exactly as its listings and mutations
      went; and after a mutation the receipt is written, and `IN_SYNC` said, exactly
      when the next listing shows one matching client and it is the one mutated. */
  lemma ConvergeTellsItsLog(eyes: Reading, o: Oracle, digest: Registration -> string, r: Registration, w: World)
    ensures var (w', reply) := AfterConverge(eyes, o, digest, r, w);
            exists events :: w'.log == w.log + events
                             && LogSays(eyes, r, ReceiptMatches(digest, r, w.receipts), reply, events)
  {
    var (w', reply) := AfterConverge(eyes, o, digest, r, w);
    var receiptMatches := ReceiptMatches(digest, r, w.receipts);
    var first := Listing(o.lists(w.clock));
    match PlanFor(eyes, r, receiptMatches, first.listing) {
      case Stop(_) =>
        StopSays(eyes, r, receiptMatches, first);
        assert LogSays(eyes, r, receiptMatches, reply, [first]);
      case Create =>
        MutationSays(eyes, o, digest, r, w, receiptMatches, first, CreateSent(r, o.creates(w.clock + 1)), w', reply);
      case Update(uuid) =>
        MutationSays(eyes, o, digest, r, w, receiptMatches, first, UpdateSent(uuid, r, o.updates(w.clock + 1)), w',
                     reply);
    }
  }

  lemma StopSays(eyes: Reading, r: Registration, receiptMatches: bool, first: Event)
    requires first.Listing? && PlanFor(eyes, r, receiptMatches, first.listing).Stop?
    ensures LogSays(eyes, r, receiptMatches, PlanFor(eyes, r, receiptMatches, first.listing).reply, [first])
  {
    if first.listing.Listed? && |eyes.exact(r.clientId, first.listing.clients)| == 1 {
      var client := eyes.exact(r.clientId, first.listing.clients)[0];
      if eyes.uuid(client).Some? && eyes.matches(r, client) {
        assert ShowsMatchAs(eyes, r, first, eyes.uuid(client).value);
      }
    }
  }

  lemma VerdictSays(eyes: Reading, r: Registration, expected: Option<string>, second: Event)
    requires second.Listing?
    ensures var v := VerdictOn(eyes, r, expected, second.listing);
            && (v.Verified? <==>
                exists u :: ShowsMatchAs(eyes, r, second, u) && (expected.Some? ==> expected == Some(u)))
            && (v.Rejected? ==>
                 && (IsState(v.reply, Ambiguous) <==> ShowsSeveral(eyes, r, second))
                 && (v.reply.BadIdentifier? <==> ShowsNameless(eyes, r, second))
                 && (IsState(v.reply, ApplyFailed) <==>
                     !ShowsSeveral(eyes, r, second) && !ShowsNameless(eyes, r, second)))
  {
    if second.listing.Listed? && |eyes.exact(r.clientId, second.listing.clients)| == 1 {
      var client := eyes.exact(r.clientId, second.listing.clients)[0];
      if eyes.uuid(client).Some? && eyes.matches(r, client) {
        assert ShowsMatchAs(eyes, r, second, eyes.uuid(client).value);
      }
    }
  }

  lemma MutationSays(eyes: Reading, o: Oracle, digest: Registration -> string, r: Registration, w: World,
                     receiptMatches: bool, first: Event, sent: Event, w': World, reply: Reply)
    requires first.Listing? && ClientSent(sent)
    requires var w2 := Happened(Happened(w, first), sent);
             if Raised(sent) then w' == w2 && IsState(reply, ApplyFailed)
             else (w', reply) == AfterVerify(eyes, o, digest, r, ClientOf(sent), w2)
    ensures exists events :: w'.log == w.log + events && LogSays(eyes, r, receiptMatches, reply, events)
  {
    var w2 := Happened(Happened(w, first), sent);
    assert w2.log == w.log + [first, sent];
    if Raised(sent) {
      assert LogSays(eyes, r, receiptMatches, reply, [first, sent]);
    } else {
      var second := Listing(o.lists(w2.clock));
      VerdictSays(eyes, r, ClientOf(sent), second);
      if VerdictOn(eyes, r, ClientOf(sent), second.listing).Verified? {
        var events := [first, sent, second, ReceiptWritten(digest(r))];
        assert w'.log == w.log + events && LogSays(eyes, r, receiptMatches, reply, events);
      } else {
        var events := [first, sent, second];
        assert w'.log == w.log + events && LogSays(eyes, r, receiptMatches, reply, events);
      }
    }
  }

  // ---- The exact clients of a listing, by position ----

  predicate IsExact(clientId: string, client: Object) { Get(client, "clientId") == JStr(clientId) }

  /** A listing has no exact client, one, or several, as its positions say; and the
      one is the client at that position. */
  lemma {:induction false} ExactByPosition(clientId: string, clients: seq<Object>)
    ensures Exact(clientId, clients) == [] <==> forall i :: 0 <= i < |clients| ==> !IsExact(clientId, clients[i])
    ensures |Exact(clientId, clients)| > 1 <==>
            exists i, j :: 0 <= i < j < |clients| && IsExact(clientId, clients[i]) && IsExact(clientId, clients[j])
    ensures forall i :: 0 <= i < |clients| && IsExact(clientId, clients[i]) && |Exact(clientId, clients)| == 1 ==>
            Exact(clientId, clients) == [clients[i]]
  {
    if clients != [] {
      var tail := clients[1..];
      ExactByPosition(clientId, tail);
      forall i | 0 <= i < |tail| ensures tail[i] == clients[i + 1] {}
      if i, j :| 0 <= i < j < |tail| && IsExact(clientId, tail[i]) && IsExact(clientId, tail[j]) {
        assert IsExact(clientId, clients[i + 1]) && IsExact(clientId, clients[j + 1]);
      }
      if i :| 0 <= i < |tail| && IsExact(clientId, tail[i]) { assert IsExact(clientId, clients[i + 1]); }
      if i, j :| 0 <= i < j < |clients| && IsExact(clientId, clients[i]) && IsExact(clientId, clients[j]) {
        assert tail[j - 1] == clients[j];
        if i > 0 { assert tail[i - 1] == clients[i]; }
      }
      forall i | 0 <= i < |clients| && IsExact(clientId, clients[i]) && |Exact(clientId, clients)| == 1
        ensures Exact(clientId, clients) == [clients[i]]
      {
        if i > 0 { assert tail[i - 1] == clients[i]; }
      }
    }
  }

  /** After an `InSync`, a further call whose listing again shows one matching
      client, with a usable identifier, sends and writes nothing. */
  lemma ConvergeIsIdempotent(eyes: Reading, o: Oracle, digest: Registration -> string, r: Registration, w: World)
    requires var reply := AfterConverge(eyes, o, digest, r, w).1; reply.Reported? && reply.status.state == InSync
    ensures var w1 := AfterConverge(eyes, o, digest, r, w).0;
            var again := Listing(o.lists(w1.clock));
            ShowsMatch(eyes, r, again) && eyes.uuid(eyes.exact(r.clientId, again.listing.clients)[0]).Some? ==>
              && AfterConverge(eyes, o, digest, r, w1).0 == Happened(w1, again)
              && AfterConverge(eyes, o, digest, r, w1).1.Reported?
              && AfterConverge(eyes, o, digest, r, w1).1.status.state == InSync
  {}

  // ---- Convergence with a remote that keeps what it is given ----

  /** The listing gives `r` back under `uuid`: the same fields, and the mappers in
      any order and with generated ids. */
  ghost predicate Echoes(r: Registration, uuid: string, listing: Listing) {
    && listing.Listed? && |Exact(r.clientId, listing.clients)| == 1
    && var client := Exact(r.clientId, listing.clients)[0];
       && ClientUuid(client) == Some(uuid) && FieldsMatch(r.fields, client)
       && MapperOrder.Permutes(KeyverseCodec(r.clientId, true), ObservedMappers(client), r.mappers)
  }

  lemma EchoIsAMatch(fieldsOk: FieldCheck, r: Registration, uuid: string, listing: Listing)
    requires ValidRegistration(fieldsOk, r) && Echoes(r, uuid, listing)
    ensures ShowsMatch(Observable(fieldsOk), r, Event.Listing(listing))
    ensures Observable(fieldsOk).uuid(Observable(fieldsOk).exact(r.clientId, listing.clients)[0]) == Some(uuid)
  {
    MatchingIsUpToMapperOrder(fieldsOk, r, Exact(r.clientId, listing.clients)[0]);
  }

  /** From here on the remote is undisturbed: at most the one exact client `uuid`
      now, mutations that succeed, and afterwards listings that echo `r`. */
  ghost predicate Undisturbed(eyes: Reading, o: Oracle, r: Registration, uuid: string, now: nat) {
    && o.lists(now).Listed?
    && (var matches := eyes.exact(r.clientId, o.lists(now).clients);
        |matches| == 0 || (|matches| == 1 && eyes.uuid(matches[0]) == Some(uuid)))
    && (o.creates(now + 1) == Created(None) || o.creates(now + 1) == Created(Some(uuid))) && o.updates(now + 1)
    && forall t :: t > now ==> Shown(eyes, r, uuid, o.lists(t))
  }

  ghost predicate Shown(eyes: Reading, r: Registration, uuid: string, listing: Listing) {
    ShowsMatch(eyes, r, Event.Listing(listing)) && eyes.uuid(eyes.exact(r.clientId, listing.clients)[0]) == Some(uuid)
  }

  lemma ConvergeSettles(eyes: Reading, o: Oracle, digest: Registration -> string, r: Registration, w: World,
                        uuid: string)
    requires Undisturbed(eyes, o, r, uuid, w.clock)
    ensures var (w1, reply) := AfterConverge(eyes, o, digest, r, w);
            && reply == Reported(Status(InSync, Some(uuid), true, NoError))
            && ReceiptMatches(digest, r, w1.receipts) && w1.clock > w.clock
  {
    assert Shown(eyes, r, uuid, o.lists(w.clock + 2));
  }

  /** With a remote that keeps what it is given, however it orders the mappers and
      numbers them, one call reaches `IN_SYNC` and the next only lists. */
  lemma EchoedConvergeSettles(fieldsOk: FieldCheck, o: Oracle, digest: Registration -> string, r: Registration,
                              w: World, uuid: string)
    requires ValidRegistration(fieldsOk, r) && o.lists(w.clock).Listed?
    requires var matches := Exact(r.clientId, o.lists(w.clock).clients);
             |matches| == 0 || (|matches| == 1 && ClientUuid(matches[0]) == Some(uuid))
    requires o.creates(w.clock + 1) == Created(None) || o.creates(w.clock + 1) == Created(Some(uuid))
    requires o.updates(w.clock + 1) && forall t :: t > w.clock ==> Echoes(r, uuid, o.lists(t))
    ensures var eyes := Observable(fieldsOk);
            var (w1, reply) := AfterConverge(eyes, o, digest, r, w);
            var (w2, again) := AfterConverge(eyes, o, digest, r, w1);
            && reply == Reported(Status(InSync, Some(uuid), true, NoError)) && ReceiptMatches(digest, r, w1.receipts)
            && again == reply && w2 == Happened(w1, Event.Listing(o.lists(w1.clock)))
  {
    var eyes := Observable(fieldsOk);
    forall t | t > w.clock ensures Shown(eyes, r, uuid, o.lists(t)) { EchoIsAMatch(fieldsOk, r, uuid, o.lists(t)); }
    ConvergeSettles(eyes, o, digest, r, w, uuid);
    var w1 := AfterConverge(eyes, o, digest, r, w).0;
    SettledOnlyLists(eyes, o, digest, r, w1, uuid);
  }

  lemma SettledOnlyLists(eyes: Reading, o: Oracle, digest: Registration -> string, r: Registration, w: World,
                         uuid: string)
    requires ReceiptMatches(digest, r, w.receipts) && Shown(eyes, r, uuid, o.lists(w.clock))
    ensures AfterConverge(eyes, o, digest, r, w) ==
            (Happened(w, Event.Listing(o.lists(w.clock))), Reported(Status(InSync, Some(uuid), true, NoError)))
  {}
}
