/** Directory reconciliation against a faithful remote that hides secrets: the
    receipt of the last apply stands in for what cannot be observed. */
module DirectoryService {
  import opened Wrappers
  import opened AdminOutcome
  import opened DesiredText

  /** The profile's constants and the receipt digest. */
  datatype Profile = Profile(providerId: string, providerType: string, secret: string -> bool,
                             digest: Registration -> string)

  /** The closed profile of the service, over some hash of the desired text. */
  function LdapProfile(hash: string -> string): Profile {
    Profile("ldap", "org.keycloak.storage.UserStorageProvider",
            k => k == "bindCredential" || k == "bindDn", r => hash(Serialize(r)))
  }

  /** A component of the remote realm under its identifier. */
  datatype Live = Live(id: string, component: Registration)

  /** What a listing shows of a component's configuration; None when it is
      missing or not an object. */
  type Shown = Option<map<string, seq<string>>>

  /** How the remote behaves during one call. */
  datatype Call = Call(listed: bool, show: Config -> Shown, outcome: Outcome, newId: string)

  /** A stored record parses to a valid registration, or fails closed. */
  datatype Stored = Parsed(r: Registration) | Unparseable

  datatype World = World(desired: map<string, Stored>, receipts: map<string, string>, remote: seq<Live>)

  datatype ConvergenceState = InSync | Drifted | Absent | Ambiguous | Unavailable | ApplyFailed
  datatype ErrorCode = NoError | KeycloakUnavailable | DuplicateComponents | CreateFailed | UpdateFailed
  datatype Status = Status(state: ConvergenceState, id: Option<string>, receiptMatches: bool, error: ErrorCode)
  datatype Reply = Reported(status: Status) | BadIdentifier
  datatype Sent = Nothing | CreateSent(payload: Registration) | UpdateSent(id: string, payload: Registration)

  // ---- The remote ----

  predicate IsExact(p: Profile, name: string, c: Registration) {
    c.name == name && c.providerId == p.providerId && c.providerType == p.providerType
  }

  function Exact(p: Profile, name: string, remote: seq<Live>): seq<Live> {
    if remote == [] then []
    else if IsExact(p, name, remote[0].component) then [remote[0]] + Exact(p, name, remote[1..])
    else Exact(p, name, remote[1..])
  }

  function Replaced(remote: seq<Live>, id: string, c: Registration): seq<Live> {
    seq(|remote|, i requires 0 <= i < |remote| => if remote[i].id == id then Live(id, c) else remote[i])
  }

  function Removed(remote: seq<Live>, id: string): seq<Live> {
    if remote == [] then []
    else if remote[0].id == id then Removed(remote[1..], id)
    else [remote[0]] + Removed(remote[1..], id)
  }

  // ---- One call as a function ----

  /** Every desired value that is not secret is shown as desired. */
  predicate ConfigMatches(p: Profile, config: Config, shown: Shown) {
    && shown.Some?
    && forall i :: 0 <= i < |config| && !p.secret(config[i].key) ==>
         config[i].key in shown.value && shown.value[config[i].key] == config[i].values
  }

  predicate ObservableMatches(p: Profile, r: Registration, c: Registration, shown: Shown) {
    c.name == r.name && c.providerId == r.providerId && c.providerType == r.providerType &&
        ConfigMatches(p, r.config, shown)
  }

  predicate ReceiptMatches(p: Profile, receipts: map<string, string>, r: Registration) {
    r.name in receipts && receipts[r.name] == p.digest(r)
  }

  datatype Turn = Turn(world: World, reply: Reply, sent: Sent)

  predicate SaysInSync(t: Turn) { t.reply.Reported? && t.reply.status.state == InSync }

  function Recorded(p: Profile, w: World, r: Registration, remote: seq<Live>, id: string, sent: Sent): Turn {
    Turn(World(w.desired, w.receipts[r.name := p.digest(r)], remote),
         Reported(Status(InSync, Some(id), true, NoError)), sent)
  }

  function AfterCreate(p: Profile, w: World, r: Registration, call: Call): Turn {
    var remote := if call.outcome.Applied() then w.remote + [Live(call.newId, r)] else w.remote;
    if call.outcome.Succeeds? then Recorded(p, w, r, remote, call.newId, CreateSent(r))
    else Turn(w.(remote := remote), Reported(Status(ApplyFailed, None, false, CreateFailed)), CreateSent(r))
  }

  function AfterUpdate(p: Profile, w: World, r: Registration, id: string, call: Call): Turn {
    var remote := if call.outcome.Applied() then Replaced(w.remote, id, r) else w.remote;
    if call.outcome.Succeeds? then Recorded(p, w, r, remote, id, UpdateSent(id, r))
    else Turn(w.(remote := remote), Reported(Status(ApplyFailed, Some(id), false, UpdateFailed)), UpdateSent(id, r))
  }

  function AfterConverge(p: Profile, w: World, r: Registration, call: Call): Turn {
    var receiptMatches := ReceiptMatches(p, w.receipts, r);
    var matches := Exact(p, r.name, w.remote);
    if !call.listed then Turn(w, Reported(Status(Unavailable, None, receiptMatches, KeycloakUnavailable)), Nothing)
    else if |matches| > 1 then Turn(w, Reported(Status(Ambiguous, None, receiptMatches, DuplicateComponents)),
                                    Nothing)
    else if matches == [] then AfterCreate(p, w, r, call)
    else if matches[0].id == "" then Turn(w, BadIdentifier, Nothing)
    else if ObservableMatches(p, r, matches[0].component, call.show(matches[0].component.config)) &&
        receiptMatches then
      Turn(w, Reported(Status(InSync, Some(matches[0].id), true, NoError)), Nothing)
    else AfterUpdate(p, w, r, matches[0].id, call)
  }

  /** Looking without touching, and without the lock: the receipt is read in one
      world and the listing in a later one. */
  function StatusOf(p: Profile, before: World, now: World, r: Registration, call: Call): Reply {
    var receiptMatches := ReceiptMatches(p, before.receipts, r);
    var matches := Exact(p, r.name, now.remote);
    if !call.listed then Reported(Status(Unavailable, None, receiptMatches, KeycloakUnavailable))
    else if matches == [] then Reported(Status(Absent, None, receiptMatches, NoError))
    else if |matches| > 1 then Reported(Status(Ambiguous, None, receiptMatches, DuplicateComponents))
    else if matches[0].id == "" then BadIdentifier
    else
      var same := ObservableMatches(p, r, matches[0].component, call.show(matches[0].component.config));
      var state := if same && receiptMatches then InSync else Drifted;
      Reported(Status(state, Some(matches[0].id), receiptMatches, NoError))
  }

  predicate StatusInSync(p: Profile, before: World, now: World, r: Registration, call: Call) {
    var reply := StatusOf(p, before, now, r, call);
    reply.Reported? && reply.status.state == InSync
  }

  /** A status that nothing raced says `IN_SYNC` exactly when converging would find
      nothing to send and say the same. */
  lemma StatusPredictsConverge(p: Profile, w: World, r: Registration, call: Call)
    ensures StatusInSync(p, w, w, r, call) <==>
            AfterConverge(p, w, r, call).sent == Nothing && SaysInSync(AfterConverge(p, w, r, call))
  {}

  datatype DeleteReply = Deleted | NotFound | StoredInvalid | ListFailed | Duplicates | DeleteFailed | NoIdentifier

  function AfterDelete(p: Profile, w: World, name: string, call: Call): (World, DeleteReply) {
    var matches := Exact(p, name, w.remote);
    if name !in w.desired then (w, NotFound)
    else if w.desired[name].Unparseable? || w.desired[name].r.name != name then (w, StoredInvalid)
    else if !call.listed then (w, ListFailed)
    else if |matches| > 1 then (w, Duplicates)
    else if matches == [] then (World(w.desired - {name}, w.receipts - {name}, w.remote), Deleted)
    else if matches[0].id == "" then (w, NoIdentifier)
    else
      var remote := if call.outcome.Applied() then Removed(w.remote, matches[0].id) else w.remote;
      if call.outcome.Succeeds? then (World(w.desired - {name}, w.receipts - {name}, remote), Deleted)
      else (w.(remote := remote), DeleteFailed)
  }

  // ---- The service ----

  class Service {
    const p: Profile
    var desired: map<string, Stored>
    var receipts: map<string, string>
    var remote: seq<Live>

    constructor (p: Profile, remote: seq<Live>)
      ensures this.p == p && Now() == World(map[], map[], remote)
    {
      this.p, this.desired, this.receipts, this.remote := p, map[], map[], remote;
    }

    function Now(): World reads this { World(desired, receipts, remote) }

    method Converge(r: Registration, call: Call) returns (reply: Reply, sent: Sent)
      modifies this
      ensures Turn(Now(), reply, sent) == AfterConverge(p, old(Now()), r, call)
    {
      var receiptMatches := ReceiptMatches(p, receipts, r);
      sent := Nothing;
      if !call.listed { return Reported(Status(Unavailable, None, receiptMatches, KeycloakUnavailable)), sent; }
      var matches := Exact(p, r.name, remote);
      if |matches| > 1 { return Reported(Status(Ambiguous, None, receiptMatches, DuplicateComponents)), sent; }
      if matches == [] {
        sent := CreateSent(r);
        if call.outcome.Applied() { remote := remote + [Live(call.newId, r)]; }
        if !call.outcome.Succeeds? { return Reported(Status(ApplyFailed, None, false, CreateFailed)), sent; }
        receipts := receipts[r.name := p.digest(r)];
        return Reported(Status(InSync, Some(call.newId), true, NoError)), sent;
      }
      var id := matches[0].id;
      if id == "" { return BadIdentifier, sent; }
      if ObservableMatches(p, r, matches[0].component, call.show(matches[0].component.config)) && receiptMatches {
        return Reported(Status(InSync, Some(id), true, NoError)), sent;
      }
      sent := UpdateSent(id, r);
      if call.outcome.Applied() { remote := Replaced(remote, id, r); }
      if !call.outcome.Succeeds? { return Reported(Status(ApplyFailed, Some(id), false, UpdateFailed)), sent; }
      receipts := receipts[r.name := p.digest(r)];
      return Reported(Status(InSync, Some(id), true, NoError)), sent;
    }

    /** Delete the component first, then desired state and receipt. */
    method DeleteRegistration(name: string, call: Call) returns (reply: DeleteReply)
      modifies this
      ensures (Now(), reply) == AfterDelete(p, old(Now()), name, call)
    {
      if name !in desired { return NotFound; }
      if desired[name].Unparseable? || desired[name].r.name != name { return StoredInvalid; }
      if !call.listed { return ListFailed; }
      var matches := Exact(p, name, remote);
      if |matches| > 1 { return Duplicates; }
      if matches != [] {
        var id := matches[0].id;
        if id == "" { return NoIdentifier; }
        if call.outcome.Applied() { remote := Removed(remote, id); }
        if !call.outcome.Succeeds? { return DeleteFailed; }
      }
      desired := desired - {name};
      receipts := receipts - {name};
      return Deleted;
    }
  }

  // ---- Every world, by the positions of its components ----

  /** The component at this position has the name and the profile's provider. */
  predicate ExactAt(p: Profile, remote: seq<Live>, name: string, i: int) {
    && 0 <= i < |remote| && remote[i].component.name == name
    && remote[i].component.providerId == p.providerId && remote[i].component.providerType == p.providerType
  }

  /** The filter finds none, one or several, as the positions say; and the one is
      the component at its position. */
  lemma {:induction false} ExactByPosition(p: Profile, name: string, remote: seq<Live>)
    ensures Exact(p, name, remote) == [] <==> forall i :: 0 <= i < |remote| ==> !ExactAt(p, remote, name, i)
    ensures |Exact(p, name, remote)| > 1 <==>
            exists i, j :: i < j && ExactAt(p, remote, name, i) && ExactAt(p, remote, name, j)
    ensures forall i :: ExactAt(p, remote, name, i) && |Exact(p, name, remote)| == 1 ==>
            Exact(p, name, remote) == [remote[i]]
  {
    if remote != [] {
      var tail := remote[1..];
      ExactByPosition(p, name, tail);
      forall i ensures ExactAt(p, tail, name, i) <==> i >= 0 && ExactAt(p, remote, name, i + 1) {
        if 0 <= i < |tail| { assert tail[i] == remote[i + 1]; }
      }
      assert ExactAt(p, remote, name, 0) <==> IsExact(p, name, remote[0].component);
      if i, j :| i < j && ExactAt(p, tail, name, i) && ExactAt(p, tail, name, j) {
        assert ExactAt(p, remote, name, i + 1) && ExactAt(p, remote, name, j + 1);
      }
      if i, j :| i < j && ExactAt(p, remote, name, i) && ExactAt(p, remote, name, j) {
        assert ExactAt(p, tail, name, j - 1);
        if i > 0 { assert ExactAt(p, tail, name, i - 1); }
      }
      if Exact(p, name, tail) != [] {
        var i :| 0 <= i < |tail| && ExactAt(p, tail, name, i);
        assert ExactAt(p, remote, name, i + 1) && 0 < i + 1;
      }
      if |Exact(p, name, remote)| == 0 {
        forall i | 0 <= i < |remote| ensures !ExactAt(p, remote, name, i) {
          if i > 0 { assert !ExactAt(p, tail, name, i - 1); }
        }
      }
      forall i | ExactAt(p, remote, name, i) && |Exact(p, name, remote)| == 1
        ensures Exact(p, name, remote) == [remote[i]] {
        if i > 0 { assert ExactAt(p, tail, name, i - 1); }
      }
    }
  }

  /** The receipt on file is the digest of `r`. */
  ghost predicate OnFile(p: Profile, w: World, r: Registration) {
    r.name in w.receipts && w.receipts[r.name] == p.digest(r)
  }

  /** Fail closed: with two exact components, wherever they are, a convergence and a
      delete leave store, receipts and remote as they were, and neither says that it
      worked. */
  lemma {:induction false} DuplicatesStopEverything(p: Profile, w: World, r: Registration, call: Call, i: int, j: int)
    requires i < j && ExactAt(p, w.remote, r.name, i) && ExactAt(p, w.remote, r.name, j)
    ensures var t := AfterConverge(p, w, r, call);
            && t.world == w && t.sent == Nothing && !SaysInSync(t)
            && t.reply == Reported(if call.listed then Status(Ambiguous, None, OnFile(p, w, r), DuplicateComponents)
                                   else Status(Unavailable, None, OnFile(p, w, r), KeycloakUnavailable))
    ensures AfterDelete(p, w, r.name, call).0 == w && AfterDelete(p, w, r.name, call).1 != Deleted
  {
    ExactByPosition(p, r.name, w.remote);
  }

  /** The only exact component is at this position. */
  ghost predicate OnlyExactAt(p: Profile, remote: seq<Live>, name: string, k: int) {
    ExactAt(p, remote, name, k) && forall i :: ExactAt(p, remote, name, i) ==> i == k
  }

  /** The component is shown with every open value of `r`, and the receipt is its digest. */
  ghost predicate UpToDate(p: Profile, w: World, r: Registration, call: Call, k: int)
    requires ExactAt(p, w.remote, r.name, k)
  {
    var shown := call.show(w.remote[k].component.config);
    && r.name in w.receipts && w.receipts[r.name] == p.digest(r) && shown.Some?
    && forall e :: e in r.config && !p.secret(e.key) ==> e.key in shown.value && shown.value[e.key] == e.values
  }

  lemma {:induction false} OneByPosition(p: Profile, name: string, remote: seq<Live>, k: int)
    requires OnlyExactAt(p, remote, name, k)
    ensures Exact(p, name, remote) == [remote[k]]
  {
    ExactByPosition(p, name, remote);
  }

  /** What a listed convergence sends, in every world: a create without an exact
      component, an update of the only one unless it is up to date, and nothing
      otherwise. */
  lemma {:induction false} SentByPosition(p: Profile, w: World, r: Registration, call: Call, k: int)
    requires call.listed && Valid(p, r)
    ensures (forall i :: !ExactAt(p, w.remote, r.name, i)) ==> AfterConverge(p, w, r, call).sent == CreateSent(r)
    ensures OnlyExactAt(p, w.remote, r.name, k) && w.remote[k].id == "" ==>
            AfterConverge(p, w, r, call) == Turn(w, BadIdentifier, Nothing)
    ensures OnlyExactAt(p, w.remote, r.name, k) && w.remote[k].id != "" && !UpToDate(p, w, r, call, k) ==>
            AfterConverge(p, w, r, call).sent == UpdateSent(w.remote[k].id, r)
    ensures OnlyExactAt(p, w.remote, r.name, k) && w.remote[k].id != "" && UpToDate(p, w, r, call, k) ==>
            AfterConverge(p, w, r, call) == Turn(w, Reported(Status(InSync, Some(w.remote[k].id), true, NoError)),
                                                 Nothing)
  {
    ExactByPosition(p, r.name, w.remote);
    if OnlyExactAt(p, w.remote, r.name, k) {
      OneByPosition(p, r.name, w.remote, k);
      ShownByEntry(p, r.config, call.show(w.remote[k].component.config));
    }
  }

  lemma ShownByEntry(p: Profile, config: Config, shown: Shown)
    ensures ConfigMatches(p, config, shown) <==>
            shown.Some? && forall e :: e in config && !p.secret(e.key) ==>
                e.key in shown.value && shown.value[e.key] == e.values
  {
    if ConfigMatches(p, config, shown) {
      forall e | e in config && !p.secret(e.key) ensures e.key in shown.value && shown.value[e.key] == e.values {
        var i :| 0 <= i < |config| && config[i] == e;
      }
    }
  }

  /** And what its reply says of a mutation: `IN_SYNC` with a receipt exactly when it
      was confirmed, `APPLY_FAILED` with the old receipts otherwise. */
  lemma ReplyToAMutation(p: Profile, w: World, r: Registration, call: Call)
    requires AfterConverge(p, w, r, call).sent != Nothing
    ensures var t := AfterConverge(p, w, r, call);
            && t.reply.Reported? && t.world.desired == w.desired
            && (t.sent.CreateSent? ==> t.reply.status.id == if call.outcome == Succeeds then Some(call.newId)
                else None)
            && (t.sent.UpdateSent? ==> t.reply.status.id == Some(t.sent.id))
            && (if call.outcome == Succeeds
                then t.reply.status.state == InSync && t.reply.status.error == NoError &&
                    t.reply.status.receiptMatches
                     && t.world.receipts == w.receipts[r.name := p.digest(r)]
                else t.reply.status.state == ApplyFailed && !t.reply.status.receiptMatches
                     && t.reply.status.error == (if t.sent.CreateSent? then CreateFailed else UpdateFailed)
                     && t.world.receipts == w.receipts)
  {}

  lemma {:induction false} RemovedMembers(remote: seq<Live>, id: string, x: Live)
    ensures x in Removed(remote, id) <==> x in remote && x.id != id
  {
    if remote != [] { RemovedMembers(remote[1..], id, x); }
  }

  /** The stored record of this name can be read and is its own. */
  ghost predicate Readable(w: World, name: string) {
    name in w.desired && w.desired[name].Parsed? && w.desired[name].r.name == name
  }

  /** What a delete does, in every world: it goes through exactly when the record can
      be read, the listing shows at most one exact component, and that one has an
      identifier and is gone; record and receipt go then, and only then. */
  lemma {:induction false} DeleteByPosition(p: Profile, w: World, name: string, call: Call, k: int)
    requires OnlyExactAt(p, w.remote, name, k) || forall i :: !ExactAt(p, w.remote, name, i)
    ensures var (w', reply) := AfterDelete(p, w, name, call);
            var one := ExactAt(p, w.remote, name, k);
            var asked := Readable(w, name) && call.listed && one && w.remote[k].id != "";
            && (reply == NotFound <==> name !in w.desired)
            && (reply == StoredInvalid <==> name in w.desired && !Readable(w, name))
            && (reply == ListFailed <==> Readable(w, name) && !call.listed)
            && (reply == NoIdentifier <==> Readable(w, name) && call.listed && one && w.remote[k].id == "")
            && (reply == DeleteFailed <==> asked && call.outcome != Succeeds)
            && (reply == Deleted <==>
                Readable(w, name) && call.listed && (one ==> w.remote[k].id != "" && call.outcome == Succeeds))
            && w'.desired == (if reply == Deleted then w.desired - {name} else w.desired)
            && w'.receipts == (if reply == Deleted then w.receipts - {name} else w.receipts)
            && (if asked && call.outcome.Applied()
                then forall x :: x in w'.remote <==> x in w.remote && x.id != w.remote[k].id
                else w'.remote == w.remote)
  {
    ExactByPosition(p, name, w.remote);
    if OnlyExactAt(p, w.remote, name, k) {
      OneByPosition(p, name, w.remote, k);
      forall x ensures x in Removed(w.remote, w.remote[k].id) <==> x in w.remote && x.id != w.remote[k].id {
        RemovedMembers(w.remote, w.remote[k].id, x);
      }
    }
  }

  /** What a status says, in every world, by the positions of the exact components. */
  lemma {:induction false} StatusByPosition(p: Profile, w: World, r: Registration, call: Call, k: int)
    requires Valid(p, r)
    ensures var reply, on := StatusOf(p, w, w, r, call), OnFile(p, w, r);
            && (!call.listed ==> reply == Reported(Status(Unavailable, None, on, KeycloakUnavailable)))
            && (call.listed && (forall i :: !ExactAt(p, w.remote, r.name, i)) ==>
                reply == Reported(Status(Absent, None, on, NoError)))
            && (call.listed && (exists i, j :: i < j && ExactAt(p, w.remote, r.name, i)
                                               && ExactAt(p, w.remote, r.name, j)) ==>
                reply == Reported(Status(Ambiguous, None, on, DuplicateComponents)))
            && (call.listed && OnlyExactAt(p, w.remote, r.name, k) && w.remote[k].id == "" ==> reply == BadIdentifier)
            && (call.listed && OnlyExactAt(p, w.remote, r.name, k) && w.remote[k].id != "" ==>
                reply == Reported(Status(if UpToDate(p, w, r, call, k) then InSync else Drifted, Some(w.remote[k].id),
                                         on, NoError)))
  {
    ExactByPosition(p, r.name, w.remote);
    if OnlyExactAt(p, w.remote, r.name, k) {
      OneByPosition(p, r.name, w.remote, k);
      ShownByEntry(p, r.config, call.show(w.remote[k].component.config));
    }
  }

  /** In the service's own profile the comparison passes over two keys and no other. */
  lemma LdapIsBlindToTwoKeys(hash: string -> string, config: Config, shown: Shown)
    ensures ConfigMatches(LdapProfile(hash), config, shown) <==>
            && shown.Some?
            && forall e :: e in config ==>
                 || e.key == "bindDn" || e.key == "bindCredential"
                 || (e.key in shown.value && shown.value[e.key] == e.values)
  {
    ShownByEntry(LdapProfile(hash), config, shown);
  }

  // ---- The remote's lists ----

  /** Two components that may stand in one sound remote. */
  predicate Compatible(p: Profile, x: Live, y: Live) {
    && x.id != y.id
    && (IsExact(p, x.component.name, x.component) && IsExact(p, y.component.name, y.component) ==>
        x.component.name != y.component.name)
  }

  /** Identifiers are given, and given once; one exact component per name. */
  ghost predicate Sound(p: Profile, remote: seq<Live>) {
    && (forall i :: 0 <= i < |remote| ==> remote[i].id != "" && UniqueKeys(remote[i].component.config))
    && (forall i, j :: 0 <= i < j < |remote| ==> Compatible(p, remote[i], remote[j]))
  }

  lemma {:induction false} NoneExact(p: Profile, name: string, remote: seq<Live>)
    requires forall i :: 0 <= i < |remote| ==> !IsExact(p, name, remote[i].component)
    ensures Exact(p, name, remote) == []
  {
    if remote != [] { NoneExact(p, name, remote[1..]); }
  }

  lemma {:induction false} OneExact(p: Profile, name: string, remote: seq<Live>, k: nat)
    requires k < |remote| && forall i :: 0 <= i < |remote| ==> (IsExact(p, name, remote[i].component) <==> i == k)
    ensures Exact(p, name, remote) == [remote[k]]
  {
    if k == 0 {
      NoneExact(p, name, remote[1..]);
    } else {
      assert remote[1..][k - 1] == remote[k];
      OneExact(p, name, remote[1..], k - 1);
    }
  }

  /** In a sound remote the listing filter finds the one component there is. */
  lemma ExactInSound(p: Profile, name: string, remote: seq<Live>) returns (k: int)
    requires Sound(p, remote)
    ensures k == -1 ==> Exact(p, name, remote) == [] && forall i :: 0 <= i < |remote| ==>
            !IsExact(p, name, remote[i].component)
    ensures k != -1 ==>
            0 <= k < |remote| && IsExact(p, name, remote[k].component) && Exact(p, name, remote) == [remote[k]]
    ensures k != -1 ==> forall i :: 0 <= i < |remote| && i != k ==> !IsExact(p, name, remote[i].component)
  {
    if i :| 0 <= i < |remote| && IsExact(p, name, remote[i].component) {
      k := i;
      forall j | 0 <= j < |remote| && j != k ensures !IsExact(p, name, remote[j].component) {
        if j < k { assert Compatible(p, remote[j], remote[k]); }
      }
      OneExact(p, name, remote, k);
    } else {
      k := -1;
      NoneExact(p, name, remote);
    }
  }

  // ---- What a receipt is worth ----

  /** A registration the validator admits. */
  predicate Valid(p: Profile, r: Registration) {
    r.providerId == p.providerId && r.providerType == p.providerType && UniqueKeys(r.config)
  }

  /** Masking never touches the other values. */
  ghost predicate ShowsTheRest(p: Profile, show: Config -> Shown) {
    forall c :: UniqueKeys(c) ==> show(c).Some? && forall i :: 0 <= i < |c| ==> ShownEntry(p, show(c), c[i])
  }

  predicate ShownEntry(p: Profile, shown: Shown, e: Entry)
    requires shown.Some?
  {
    p.secret(e.key) || (e.key in shown.value && shown.value[e.key] == e.values)
  }

  /** Everything `config` says outside the secrets, `other` says too. */
  ghost predicate OpenlyWithin(p: Profile, config: Config, other: Config) {
    forall i :: 0 <= i < |config| && !p.secret(config[i].key) ==> config[i] in other
  }

  lemma OpenValuesMatch(p: Profile, show: Config -> Shown, config: Config, other: Config)
    requires ShowsTheRest(p, show) && UniqueKeys(other) && OpenlyWithin(p, config, other)
    ensures ConfigMatches(p, config, show(other))
  {
    forall i | 0 <= i < |config| && !p.secret(config[i].key)
      ensures config[i].key in show(other).value && show(other).value[config[i].key] == config[i].values
    {
      var j :| 0 <= j < |other| && other[j] == config[i];
      assert ShownEntry(p, show(other), other[j]);
    }
  }

  /** The digest tells content apart and nothing else. */
  ghost predicate TellsContent(p: Profile) {
    forall r: Registration, s: Registration :: UniqueKeys(r.config) && UniqueKeys(s.config) ==>
        (p.digest(r) == p.digest(s) <==> SameContent(r, s))
  }

  /** A collision-free hash of the desired text does. */
  lemma HashOfTextTellsContent(hash: string -> string)
    requires forall x, y :: hash(x) == hash(y) ==> x == y
    ensures TellsContent(LdapProfile(hash))
  {
    forall r: Registration, s: Registration | UniqueKeys(r.config) && UniqueKeys(s.config)
      ensures LdapProfile(hash).digest(r) == LdapProfile(hash).digest(s) <==> SameContent(r, s)
    {
      TextIsContent(r, s);
    }
  }

  /** One exact component, holding `r` up to key order, applied and receipted. */
  ghost predicate Held(p: Profile, w: World, r: Registration) {
    && |Exact(p, r.name, w.remote)| == 1
    && Exact(p, r.name, w.remote)[0].id != "" && UniqueKeys(Exact(p, r.name, w.remote)[0].component.config)
    && SameContent(Exact(p, r.name, w.remote)[0].component, r)
    && ReceiptMatches(p, w.receipts, r)
  }

  /** Once `r` is held, converging on any registration of that name sends
      nothing exactly when it has the same content; a change of any private
      value, shown or masked, is applied. */
  lemma {:induction false} AppliesExactlyChanges(p: Profile, w: World, r: Registration, s: Registration, call: Call)
    requires TellsContent(p) && ShowsTheRest(p, call.show) && call.listed
    requires Valid(p, r) && Valid(p, s) && r.name == s.name && Held(p, w, r)
    ensures var t := AfterConverge(p, w, s, call); var id := Exact(p, r.name, w.remote)[0].id;
            if SameContent(r, s) then t == Turn(w, Reported(Status(InSync, Some(id), true, NoError)), Nothing)
            else t.sent == UpdateSent(id, s)
  {
    var c := Exact(p, r.name, w.remote)[0].component;
    if SameContent(r, s) {
      forall i | 0 <= i < |s.config| && !p.secret(s.config[i].key) ensures s.config[i] in c.config {
        assert s.config[i] in s.config;
      }
      OpenValuesMatch(p, call.show, s.config, c.config);
    }
  }

  // ---- The remote stays sound ----

  ghost predicate FreshId(remote: seq<Live>, id: string) {
    id != "" && forall i :: 0 <= i < |remote| ==> remote[i].id != id
  }

  lemma CreateKeepsSound(p: Profile, remote: seq<Live>, id: string, r: Registration)
    requires Sound(p, remote) && FreshId(remote, id) && Valid(p, r) && Exact(p, r.name, remote) == []
    ensures Sound(p, remote + [Live(id, r)])
    ensures Exact(p, r.name, remote + [Live(id, r)]) == [Live(id, r)]
  {
    var k := ExactInSound(p, r.name, remote);
    OneExact(p, r.name, remote + [Live(id, r)], |remote|);
  }

  lemma UpdateKeepsSound(p: Profile, remote: seq<Live>, k: nat, r: Registration)
    requires Sound(p, remote) && Valid(p, r) && k < |remote| && Exact(p, r.name, remote) == [remote[k]] &&
             IsExact(p, r.name, remote[k].component)
    requires forall i :: 0 <= i < |remote| && i != k ==> !IsExact(p, r.name, remote[i].component)
    ensures Replaced(remote, remote[k].id, r) == remote[k := Live(remote[k].id, r)]
    ensures Sound(p, Replaced(remote, remote[k].id, r))
    ensures Exact(p, r.name, Replaced(remote, remote[k].id, r)) == [Live(remote[k].id, r)]
  {
    var after := remote[k := Live(remote[k].id, r)];
    assert Replaced(remote, remote[k].id, r) == after;
    OneExact(p, r.name, after, k);
  }

  /** With at most one exact component, one undisturbed call ends in sync; if
      it sent anything, the registration is held from then on. */
  lemma {:induction false} ConvergeReachesInSync(p: Profile, w: World, r: Registration, call: Call)
    requires Sound(p, w.remote) && Valid(p, r) && call.listed && call.outcome.Succeeds? &&
             FreshId(w.remote, call.newId)
    ensures var t := AfterConverge(p, w, r, call);
            && t.reply.Reported? && t.reply.status.state == InSync && t.reply.status.receiptMatches
            && Sound(p, t.world.remote) && ReceiptMatches(p, t.world.receipts, r)
            && (t.sent == Nothing ==> t.world == w)
            && (t.sent != Nothing ==> Held(p, t.world, r))
  {
    var k := ExactInSound(p, r.name, w.remote);
    if k == -1 {
      CreateKeepsSound(p, w.remote, call.newId, r);
    } else {
      UpdateKeepsSound(p, w.remote, k, r);
    }
  }

  /** So a second call with the same registration sends nothing. If the first had
      nothing to send either, the remote has to show the component as before. */
  lemma {:induction false} SecondConvergeIsQuiet(p: Profile, w: World, r: Registration, first: Call, second: Call)
    requires TellsContent(p) && Sound(p, w.remote) && Valid(p, r) && first.listed && first.outcome.Succeeds? &&
             FreshId(w.remote, first.newId)
    requires second.listed && ShowsTheRest(p, second.show)
    requires AfterConverge(p, w, r, first).sent == Nothing ==> second.show == first.show
    ensures var t := AfterConverge(p, w, r, first); var u := AfterConverge(p, t.world, r, second);
            u.sent == Nothing && u.world == t.world && u.reply.Reported? && u.reply.status.state == InSync
  {
    ConvergeReachesInSync(p, w, r, first);
    if AfterConverge(p, w, r, first).sent != Nothing {
      AppliesExactlyChanges(p, AfterConverge(p, w, r, first).world, r, r, second);
    }
  }

  // ---- What one event leaves of each name ----

  lemma {:induction false} RemovedIsPart(remote: seq<Live>, id: string, x: Live)
    ensures x in Removed(remote, id) <==> x in remote && x.id != id
  {
    if remote != [] {
      RemovedIsPart(remote[1..], id, x);
      assert remote == [remote[0]] + remote[1..];
    }
  }

  lemma SoundCons(p: Profile, x: Live, rest: seq<Live>)
    requires Sound(p, rest) && x.id != "" && UniqueKeys(x.component.config)
    requires forall j :: 0 <= j < |rest| ==> Compatible(p, x, rest[j])
    ensures Sound(p, [x] + rest)
  {
    var all := [x] + rest;
    forall j | 1 <= j < |all| ensures Compatible(p, x, all[j]) { assert all[j] == rest[j - 1]; }
  }

  lemma SoundParts(p: Profile, remote: seq<Live>)
    requires Sound(p, remote) && remote != []
    ensures Sound(p, remote[1..]) && remote[0].id != "" && UniqueKeys(remote[0].component.config)
    ensures forall y :: y in remote[1..] ==> Compatible(p, remote[0], y)
  {}

  lemma {:induction false} RemoveKeepsSound(p: Profile, remote: seq<Live>, id: string)
    requires Sound(p, remote)
    ensures Sound(p, Removed(remote, id))
  {
    if remote != [] {
      var rest := Removed(remote[1..], id);
      SoundParts(p, remote);
      RemoveKeepsSound(p, remote[1..], id);
      forall j | 0 <= j < |rest| ensures Compatible(p, remote[0], rest[j]) {
        RemovedIsPart(remote[1..], id, rest[j]);
        assert rest[j] in rest;
      }
      SoundCons(p, remote[0], rest);
    }
  }

  lemma {:induction false} ExactOfSum(p: Profile, name: string, a: seq<Live>, b: seq<Live>)
    ensures Exact(p, name, a + b) == Exact(p, name, a) + Exact(p, name, b)
  {
    if a == [] {
      assert a + b == b;
    } else {
      assert (a + b)[1..] == a[1..] + b;
      ExactOfSum(p, name, a[1..], b);
    }
  }

  lemma ExactElsewhere(p: Profile, name: string, remote: seq<Live>, k: nat, x: Live)
    requires k < |remote| && !IsExact(p, name, remote[k].component) && !IsExact(p, name, x.component)
    ensures Exact(p, name, remote[k := x]) == Exact(p, name, remote)
  {
    var before, after := remote[..k], remote[k + 1..];
    assert remote == before + ([remote[k]] + after) && remote[k := x] == before + ([x] + after);
    assert ([remote[k]] + after)[1..] == after && ([x] + after)[1..] == after;
    ExactOfSum(p, name, before, [remote[k]] + after);
    ExactOfSum(p, name, before, [x] + after);
  }

  lemma {:induction false} RemovedElsewhere(p: Profile, name: string, remote: seq<Live>, id: string)
    requires forall i :: 0 <= i < |remote| && remote[i].id == id ==> !IsExact(p, name, remote[i].component)
    ensures Exact(p, name, Removed(remote, id)) == Exact(p, name, remote)
  {
    if remote != [] {
      RemovedElsewhere(p, name, remote[1..], id);
      if remote[0].id != id { assert ([remote[0]] + Removed(remote[1..], id))[1..] == Removed(remote[1..], id); }
    }
  }

  lemma {:induction false} RemovedHere(p: Profile, name: string, remote: seq<Live>, id: string)
    requires forall i :: 0 <= i < |remote| && IsExact(p, name, remote[i].component) ==> remote[i].id == id
    ensures Exact(p, name, Removed(remote, id)) == []
  {
    if remote != [] {
      RemovedHere(p, name, remote[1..], id);
      if remote[0].id != id { assert ([remote[0]] + Removed(remote[1..], id))[1..] == Removed(remote[1..], id); }
    }
  }

  /** What holds of one name: its exact components and its receipt. */
  datatype Holding = Holding(live: seq<Live>, receipt: Option<string>)

  function HoldingOf(p: Profile, w: World, name: string): Holding {
    Holding(Exact(p, name, w.remote), if name in w.receipts then Some(w.receipts[name]) else None)
  }

  /** Converging touches its own name alone: a mutation that takes effect leaves
      the registration there, and a confirmed one its receipt. */
  lemma ConvergeLeaves(p: Profile, w: World, r: Registration, call: Call, name: string)
    requires Sound(p, w.remote) && Valid(p, r) && FreshId(w.remote, call.newId)
    ensures var t := AfterConverge(p, w, r, call);
            && Sound(p, t.world.remote)
            && (name != r.name || t.sent == Nothing || call.outcome == FailsUnapplied ==>
                HoldingOf(p, t.world, name) == HoldingOf(p, w, name))
            && (name == r.name && t.sent != Nothing && call.outcome != FailsUnapplied ==>
                 && |HoldingOf(p, t.world, name).live| == 1 && HoldingOf(p, t.world, name).live[0].component == r
                 && HoldingOf(p, t.world, name).receipt == if call.outcome.Succeeds? then Some(p.digest(r))
                     else HoldingOf(p, w, name).receipt)
  {
    var k := ExactInSound(p, r.name, w.remote);
    if k == -1 {
      CreateKeepsSound(p, w.remote, call.newId, r);
      ExactOfSum(p, name, w.remote, [Live(call.newId, r)]);
      assert [Live(call.newId, r)][1..] == [];
    } else {
      UpdateKeepsSound(p, w.remote, k, r);
      if name != r.name { ExactElsewhere(p, name, w.remote, k, Live(w.remote[k].id, r)); }
    }
  }

  /** The delete reaches the remote, and takes effect there. */
  ghost predicate DeletesLive(p: Profile, w: World, name: string, call: Call) {
    && name in w.desired && w.desired[name].Parsed? && w.desired[name].r.name == name && call.listed
    && |Exact(p, name, w.remote)| == 1 && call.outcome.Applied()
  }

  lemma IdentifiersDiffer(p: Profile, remote: seq<Live>, k: nat)
    requires Sound(p, remote) && k < |remote|
    ensures forall i :: 0 <= i < |remote| && remote[i].id == remote[k].id ==> i == k
  {
    forall i | 0 <= i < |remote| && i != k ensures remote[i].id != remote[k].id {
      if i < k { assert Compatible(p, remote[i], remote[k]); } else { assert Compatible(p, remote[k], remote[i]); }
    }
  }

  lemma DeleteLeaves(p: Profile, w: World, name: string, call: Call, other: string)
    requires Sound(p, w.remote)
    ensures var (w', reply) := AfterDelete(p, w, name, call);
            && Sound(p, w'.remote)
            && HoldingOf(p, w', other).live == (if other == name && DeletesLive(p, w, name, call) then []
                                                else HoldingOf(p, w, other).live)
            && HoldingOf(p, w', other).receipt == (if other == name && reply.Deleted? then None
                                                   else HoldingOf(p, w, other).receipt)
  {
    var k := ExactInSound(p, name, w.remote);
    if k != -1 {
      var id := w.remote[k].id;
      RemoveKeepsSound(p, w.remote, id);
      IdentifiersDiffer(p, w.remote, k);
      if other == name { RemovedHere(p, name, w.remote, id); } else { RemovedElsewhere(p, other, w.remote, id); }
    }
  }

  // ---- Whole runs ----

  /** A delete may also be cut short between its two store deletes. */
  datatype Event =
    | Putting(r: Registration, call: Call)
    | Reconciling(r: Registration, call: Call)
    | Deleting(name: string, call: Call, stops: bool)
  {
    function Name(): string { if Deleting? then name else r.name }
  }

  function Step(p: Profile, w: World, e: Event): World {
    match e
    case Putting(r, call) => AfterConverge(p, w.(desired := w.desired[r.name := Parsed(r)]), r, call).world
    case Reconciling(r, call) => AfterConverge(p, w, r, call).world
    case Deleting(name, call, stops) =>
      var (w', reply) := AfterDelete(p, w, name, call);
      if stops then w'.(receipts := w.receipts) else w'
  }

  /** What the service and a faithful remote guarantee of each event. */
  ghost predicate Possible(p: Profile, w: World, e: Event) {
    e.Deleting? || (Valid(p, e.r) && FreshId(w.remote, e.call.newId))
  }

  /** What an event does to one name: an apply that is confirmed or whose reply is
      lost, or a delete that drops the receipt or the live component. */
  datatype Effect = NoEffect | Confirmed(r: Registration) | Lost(r: Registration) | Dropped(receipt: bool, live: bool)

  ghost function EffectOn(p: Profile, w: World, e: Event, name: string): Effect {
    if e.Name() != name then NoEffect
    else if e.Deleting? then Dropped(AfterDelete(p, w, name, e.call).1.Deleted? &&
                                     !e.stops, DeletesLive(p, w, name, e.call))
    else if AfterConverge(p, w, e.r, e.call).sent == Nothing || e.call.outcome == FailsUnapplied then NoEffect
    else if e.call.outcome == Succeeds then Confirmed(e.r)
    else Lost(e.r)
  }

  /** What an effect leaves of its name. */
  ghost predicate Leaves(p: Profile, f: Effect, was: Holding, now: Holding) {
    match f
    case NoEffect => now == was
    case Confirmed(r) => |now.live| == 1 && now.live[0].component == r && now.receipt == Some(p.digest(r))
    case Lost(r) => |now.live| == 1 && now.live[0].component == r && now.receipt == was.receipt
    case Dropped(receipt, live) =>
        now == Holding(if live then [] else was.live, if receipt then None else was.receipt)
  }

  lemma StepLeaves(p: Profile, w: World, e: Event, name: string)
    requires Sound(p, w.remote) && Possible(p, w, e)
    ensures Sound(p, Step(p, w, e).remote)
    ensures Leaves(p, EffectOn(p, w, e, name), HoldingOf(p, w, name), HoldingOf(p, Step(p, w, e), name))
  {
    match e {
      case Putting(r, call) =>
        var w0 := w.(desired := w.desired[r.name := Parsed(r)]);
        ConvergeLeaves(p, w0, r, call, name);
        assert HoldingOf(p, w0, name) == HoldingOf(p, w, name);
        assert AfterConverge(p, w0, r, call).sent == AfterConverge(p, w, r, call).sent;
      case Reconciling(r, call) => ConvergeLeaves(p, w, r, call, name);
      case Deleting(n, call, stops) => DeleteLeaves(p, w, n, call, name);
    }
  }

  /** The effects of a run on one name. */
  ghost function Effects(p: Profile, ws: seq<World>, es: seq<Event>, name: string): (fs: seq<Effect>)
    requires |ws| == |es| + 1
    ensures |fs| == |es| && forall i :: 0 <= i < |es| ==> fs[i] == EffectOn(p, ws[i], es[i], name)
  {
    seq(|es|, i requires 0 <= i < |es| => EffectOn(p, ws[i], es[i], name))
  }

  ghost predicate Run(p: Profile, ws: seq<World>, es: seq<Event>) {
    && |ws| == |es| + 1 && Sound(p, ws[0].remote)
    && forall i :: 0 <= i < |es| ==> Possible(p, ws[i], es[i]) && ws[i + 1] == Step(p, ws[i], es[i])
  }

  lemma {:induction false} RunStaysSound(p: Profile, ws: seq<World>, es: seq<Event>, n: nat)
    requires Run(p, ws, es) && n < |ws|
    ensures Sound(p, ws[n].remote)
  {
    if n > 0 {
      RunStaysSound(p, ws, es, n - 1);
      StepLeaves(p, ws[n - 1], es[n - 1], "");
    }
  }

  // ---- A receipt is true of its component ----

  /** The receipt of a name, if any, is the digest of what is live there. */
  ghost predicate Honest(p: Profile, w: World, name: string) {
    var here := HoldingOf(p, w, name);
    |here.live| == 1 && here.receipt.Some? ==> here.receipt.value == p.digest(here.live[0].component)
  }

  /** No apply has lost its reply since the last confirmed one, or since the start. */
  predicate ConfirmedSince(fs: seq<Effect>, m: nat) {
    m <= |fs| && (m > 0 ==> fs[m - 1].Confirmed?) && forall i :: m <= i < |fs| ==> !fs[i].Lost?
  }

  /** A confirmed apply makes any sound remote honest; only a lost reply ends that. */
  lemma StepStaysHonest(p: Profile, w: World, e: Event, name: string)
    requires Sound(p, w.remote) && Possible(p, w, e) && !EffectOn(p, w, e, name).Lost?
    requires Honest(p, w, name) || EffectOn(p, w, e, name).Confirmed?
    ensures Honest(p, Step(p, w, e), name)
  {
    StepLeaves(p, w, e, name);
  }

  lemma {:induction false} RunStaysHonest(p: Profile, ws: seq<World>, es: seq<Event>, name: string, m: nat, n: nat)
    requires Run(p, ws, es) && ConfirmedSince(Effects(p, ws, es, name), m) && m <= n <= |es|
    requires m == 0 ==> Honest(p, ws[0], name)
    ensures Honest(p, ws[n], name)
  {
    if n > 0 {
      RunStaysSound(p, ws, es, n - 1);
      if n > m { RunStaysHonest(p, ws, es, name, m, n - 1); }
      assert Effects(p, ws, es, name)[n - 1] == EffectOn(p, ws[n - 1], es[n - 1], name);
      StepStaysHonest(p, ws[n - 1], es[n - 1], name);
    }
  }

  /** Is the whole private registration what the remote really holds? */
  ghost predicate ReallyHolds(p: Profile, w: World, r: Registration) {
    |Exact(p, r.name, w.remote)| == 1 && SameContent(Exact(p, r.name, w.remote)[0].component, r)
  }

  /** In every run, whatever happened to other names and however many replies were
      lost earlier: `IN_SYNC` for `r` is true, of masked values too, as long as no
      apply of its name has lost its reply since the last confirmed one. */
  lemma {:induction false} InSyncIsTrue(p: Profile, ws: seq<World>, es: seq<Event>, m: nat, r: Registration,
                                        call: Call)
    requires TellsContent(p) && Run(p, ws, es) && ConfirmedSince(Effects(p, ws, es, r.name), m)
    requires m == 0 ==> Honest(p, ws[0], r.name)
    requires Valid(p, r) && FreshId(ws[|es|].remote, call.newId)
    ensures var t := AfterConverge(p, ws[|es|], r, call); SaysInSync(t) ==> ReallyHolds(p, t.world, r)
  {
    RunStaysHonest(p, ws, es, r.name, m, |es|);
    RunStaysSound(p, ws, es, |es|);
    HonestInSync(p, ws[|es|], r, call);
  }

  lemma HonestInSync(p: Profile, w: World, r: Registration, call: Call)
    requires TellsContent(p) && Sound(p, w.remote) && Honest(p, w, r.name) && Valid(p, r) &&
             FreshId(w.remote, call.newId)
    ensures var t := AfterConverge(p, w, r, call); SaysInSync(t) ==> ReallyHolds(p, t.world, r)
  {
    ConvergeLeaves(p, w, r, call, r.name);
    var k := ExactInSound(p, r.name, w.remote);
  }

  // ---- Exactly when a report is false ----

  /** What a name's history comes to: the registration its receipt stands for, and
      the one its last effective apply left live. */
  datatype Past = Past(confirmed: Option<Registration>, applied: Option<Registration>)

  function Remember(past: Past, f: Effect): Past {
    match f
    case NoEffect => past
    case Confirmed(r) => Past(Some(r), Some(r))
    case Lost(r) => past.(applied := Some(r))
    case Dropped(receipt, live) => Past(if receipt then None else past.confirmed, if live then None else past.applied)
  }

  function PastOf(start: Past, fs: seq<Effect>): Past {
    if fs == [] then start else Remember(PastOf(start, fs[..|fs| - 1]), fs[|fs| - 1])
  }

  ghost predicate StandsFor(p: Profile, receipt: Option<string>, name: string, confirmed: Option<Registration>) {
    match confirmed
    case Some(c) => Valid(p, c) && c.name == name && receipt == Some(p.digest(c))
    // no receipt, or one that no registration of this name has
    case None => forall x :: Valid(p, x) && x.name == name ==> receipt != Some(p.digest(x))
  }

  ghost predicate Remembers(p: Profile, w: World, name: string, past: Past) {
    var here := HoldingOf(p, w, name);
    && StandsFor(p, here.receipt, name, past.confirmed)
    && (match past.applied
        case Some(a) => |here.live| == 1 && here.live[0].component == a
        case None => here.live == [])
  }

  /** Every sound remote with any receipts is some history's outcome. */
  lemma SomeHistory(p: Profile, w: World, name: string) returns (past: Past)
    requires Sound(p, w.remote)
    ensures Remembers(p, w, name, past)
  {
    var k := ExactInSound(p, name, w.remote);
    var here := HoldingOf(p, w, name);
    var applied := if k == -1 then None else Some(w.remote[k].component);
    if x :| Valid(p, x) && x.name == name && here.receipt == Some(p.digest(x)) {
      past := Past(Some(x), applied);
    } else {
      past := Past(None, applied);
    }
  }

  lemma StepRemembers(p: Profile, w: World, e: Event, name: string, past: Past)
    requires Sound(p, w.remote) && Possible(p, w, e) && Remembers(p, w, name, past)
    ensures Remembers(p, Step(p, w, e), name, Remember(past, EffectOn(p, w, e, name)))
  {
    StepLeaves(p, w, e, name);
  }

  lemma PastNext(start: Past, fs: seq<Effect>, n: nat)
    requires n < |fs|
    ensures PastOf(start, fs[..n + 1]) == Remember(PastOf(start, fs[..n]), fs[n])
  {
    assert fs[..n + 1][..n] == fs[..n];
  }

  lemma {:induction false} RunRemembers(p: Profile, ws: seq<World>, es: seq<Event>, name: string, start: Past, n: nat)
    requires Run(p, ws, es) && Remembers(p, ws[0], name, start) && n <= |es|
    ensures Remembers(p, ws[n], name, PastOf(start, Effects(p, ws, es, name)[..n]))
  {
    if n > 0 {
      var fs := Effects(p, ws, es, name);
      RunRemembers(p, ws, es, name, start, n - 1);
      RunStaysSound(p, ws, es, n - 1);
      PastNext(start, fs, n - 1);
      StepRemembers(p, ws[n - 1], es[n - 1], name, PastOf(start, fs[..n - 1]));
    }
  }

  /** The listing shows every open value of `r` on a component that holds `other`. */
  predicate LooksLike(p: Profile, r: Registration, other: Registration, call: Call) {
    call.listed && ConfigMatches(p, r.config, call.show(other.config))
  }

  /** After any run at all: `IN_SYNC` for `r` is false exactly when `r` is what was
      last confirmed, something else was applied since, and the listing shows
      every open value of `r`. */
  lemma {:induction false} FalseInSyncExactly(p: Profile, ws: seq<World>, es: seq<Event>, start: Past,
                                              r: Registration, call: Call)
    requires TellsContent(p) && Run(p, ws, es) && Remembers(p, ws[0], r.name, start)
    requires Valid(p, r) && FreshId(ws[|es|].remote, call.newId)
    ensures var t := AfterConverge(p, ws[|es|], r, call); var past := PastOf(start, Effects(p, ws, es, r.name));
            SaysInSync(t) && !ReallyHolds(p, t.world, r) <==>
              && past.confirmed.Some? && SameContent(past.confirmed.value, r)
              && past.applied.Some? && !SameContent(past.applied.value, r)
              && LooksLike(p, r, past.applied.value, call)
  {
    RunRemembers(p, ws, es, r.name, start, |es|);
    RunStaysSound(p, ws, es, |es|);
    var fs := Effects(p, ws, es, r.name);
    assert fs[..|es|] == fs;
    FalseInSyncNow(p, ws[|es|], PastOf(start, fs), r, call);
  }

  lemma FalseInSyncNow(p: Profile, w: World, past: Past, r: Registration, call: Call)
    requires TellsContent(p) && Sound(p, w.remote) && Remembers(p, w, r.name, past)
    requires Valid(p, r) && FreshId(w.remote, call.newId)
    ensures var t := AfterConverge(p, w, r, call);
            SaysInSync(t) && !ReallyHolds(p, t.world, r) <==>
              && past.confirmed.Some? && SameContent(past.confirmed.value, r)
              && past.applied.Some? && !SameContent(past.applied.value, r)
              && LooksLike(p, r, past.applied.value, call)
  {
    ConvergeLeaves(p, w, r, call, r.name);
    var k := ExactInSound(p, r.name, w.remote);
    ReceiptStands(p, w, past, r);
  }

  lemma ReceiptStands(p: Profile, w: World, past: Past, r: Registration)
    requires TellsContent(p) && Remembers(p, w, r.name, past) && Valid(p, r)
    ensures ReceiptMatches(p, w.receipts, r) <==> past.confirmed.Some? && SameContent(past.confirmed.value, r)
  {}

  /** Receipt and component agree. */
  ghost predicate Agrees(past: Past) {
    past.confirmed.Some? && past.applied.Some? ==> SameContent(past.confirmed.value, past.applied.value)
  }

  /** And something else can have been applied since only by a lost reply: of an
      apply of that very registration, with no confirmed apply after it. */
  lemma {:induction false} DisagreementIsALostReply(start: Past, fs: seq<Effect>) returns (j: nat)
    requires Agrees(start) && !Agrees(PastOf(start, fs))
    ensures j < |fs| && fs[j].Lost? && PastOf(start, fs).applied == Some(fs[j].r)
    ensures forall i :: j < i < |fs| ==> !fs[i].Confirmed? && !fs[i].Lost?
  {
    var n := |fs| - 1;
    if fs[n].Lost? {
      j := n;
    } else {
      j := DisagreementIsALostReply(start, fs[..n]);
      forall i | j < i < |fs| ensures !fs[i].Confirmed? && !fs[i].Lost? {
        if i < n { assert fs[..n][i] == fs[i]; }
      }
    }
  }

  /** A status whose receipt was read after the i-th event and whose listing came
      after the j-th: `IN_SYNC` is false exactly when `r` is what was confirmed at
      the first moment, something else was live at the second, and the listing
      shows every open value of `r`. */
  lemma {:induction false} FalseStatusExactly(p: Profile, ws: seq<World>, es: seq<Event>, start: Past, i: nat, j: nat,
                                              r: Registration, call: Call)
    requires TellsContent(p) && Run(p, ws, es) && Remembers(p, ws[0], r.name, start) && Valid(p, r) && i <= j <= |es|
    ensures var fs := Effects(p, ws, es, r.name); var earlier, now := PastOf(start, fs[..i]), PastOf(start, fs[..j]);
            StatusInSync(p, ws[i], ws[j], r, call) && !ReallyHolds(p, ws[j], r) <==>
              && earlier.confirmed.Some? && SameContent(earlier.confirmed.value, r)
              && now.applied.Some? && !SameContent(now.applied.value, r)
              && LooksLike(p, r, now.applied.value, call)
  {
    var fs := Effects(p, ws, es, r.name);
    RunRemembers(p, ws, es, r.name, start, i);
    RunRemembers(p, ws, es, r.name, start, j);
    RunStaysSound(p, ws, es, j);
    ReceiptStands(p, ws[i], PastOf(start, fs[..i]), r);
    FalseStatusNow(p, ws[i], ws[j], PastOf(start, fs[..j]), r, call);
  }

  lemma FalseStatusNow(p: Profile, before: World, now: World, past: Past, r: Registration, call: Call)
    requires Sound(p, now.remote) && Remembers(p, now, r.name, past) && Valid(p, r)
    ensures StatusInSync(p, before, now, r, call) && !ReallyHolds(p, now, r) <==>
              && ReceiptMatches(p, before.receipts, r)
              && past.applied.Some? && !SameContent(past.applied.value, r)
              && LooksLike(p, r, past.applied.value, call)
  {
    var k := ExactInSound(p, r.name, now.remote);
  }

  /** In particular no reply need be lost: a confirmed put that changes secrets
      alone, between the two reads, makes a status of the old registration false. */
  lemma {:induction false} RacedStatusIsFalse(p: Profile, w: World, r: Registration, s: Registration, put: Call,
                                              call: Call)
    requires TellsContent(p) && Sound(p, w.remote) && Held(p, w, r) && Valid(p, r) && Valid(p, s) && r.name == s.name
    requires put.listed && put.outcome == Succeeds && ShowsTheRest(p, put.show) && FreshId(w.remote, put.newId)
    requires call.listed && ShowsTheRest(p, call.show) && !SameContent(r, s) && OpenlyWithin(p, r.config, s.config)
    ensures var w' := AfterConverge(p, w, s, put).world;
            StatusInSync(p, w, w', r, call) && !ReallyHolds(p, w', r) && ReallyHolds(p, w', s)
  {
    AppliesExactlyChanges(p, w, r, s, put);
    ConvergeLeaves(p, w, s, put, r.name);
    OpenValuesMatch(p, call.show, r.config, s.config);
    var k := ExactInSound(p, r.name, AfterConverge(p, w, s, put).world.remote);
  }

  /** After an apply of `s` over a held `r` whose reply is lost, converging on
      `r` again sends nothing, and reports `IN_SYNC` although the remote holds
      `s`, exactly when the listing shows every open value of `r`. */
  lemma {:induction false} LostReplyHidesSecrets(p: Profile, w: World, r: Registration, s: Registration, lost: Call,
                                                 call: Call)
    requires TellsContent(p) && Sound(p, w.remote) && ShowsTheRest(p, lost.show) && lost.listed &&
             lost.outcome == FailsApplied && call.listed
    requires Valid(p, r) && Valid(p, s) && r.name == s.name && Held(p, w, r) && !SameContent(r, s)
    ensures var mid := AfterConverge(p, w, s, lost).world; var t := AfterConverge(p, mid, r, call);
            && ReallyHolds(p, mid, s) && !ReallyHolds(p, mid, r)
            && (t.sent == Nothing <==> ConfigMatches(p, r.config, call.show(s.config)))
            && (t.sent == Nothing ==> t.world == mid && t.reply.Reported? && t.reply.status.state == InSync)
  {
    AppliesExactlyChanges(p, w, r, s, lost);
    var k := ExactInSound(p, r.name, w.remote);
    UpdateKeepsSound(p, w.remote, k, s);
  }

  /** In particular when only secrets differ. */
  lemma {:induction false} SecretChangeIsHidden(p: Profile, w: World, r: Registration, s: Registration, lost: Call,
                                                call: Call)
    requires TellsContent(p) && Sound(p, w.remote) && ShowsTheRest(p, lost.show) && lost.listed &&
             lost.outcome == FailsApplied && call.listed
    requires Valid(p, r) && Valid(p, s) && r.name == s.name && Held(p, w, r) && !SameContent(r, s)
    requires ShowsTheRest(p, call.show) && OpenlyWithin(p, r.config, s.config)
    ensures var mid := AfterConverge(p, w, s, lost).world; var t := AfterConverge(p, mid, r, call);
            SaysInSync(t) && !ReallyHolds(p, t.world, r)
  {
    LostReplyHidesSecrets(p, w, r, s, lost, call);
    OpenValuesMatch(p, call.show, r.config, s.config);
  }
}
