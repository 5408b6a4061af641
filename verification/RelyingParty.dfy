/** Relying-party registrations: the closed protocol-mapper profile, and how a
    live Keycloak client is compared with the registration it should match. */
module RelyingParty {
  import opened Wrappers
  import opened Text
  import opened MapperOrder

  datatype Json =
    | JNull
    | JBool(b: bool)
    | JNum(n: real)
    | JStr(s: string)
    | JArr(items: seq<Json>)
    | JObj(members: map<string, Json>)

  type Object = map<string, Json>

  /** `dict.get`: absent and null look the same. */
  function Get(o: Object, k: string): Json {
    if k in o then o[k] else JNull
  }

  datatype Mapper = Mapper(name: string, protocol: string, mapperType: string, consentRequired: bool,
                           config: map<string, string>)

  // ---- One mapper ----

  const AUDIENCE_TYPE := "oidc-audience-mapper"
  const CLAIM_TYPE := "oidc-hardcoded-claim-mapper"

  function ClaimRank(claim: string): Option<nat> {
    if claim == "role" then Some(1) else if claim == "org" then Some(2) else if claim == "workspace" then Some(3)
        else None
  }

  /** Non-empty, trimmed, bounded, without controls or template markers. */
  predicate CleanText(v: string, maximum: nat) {
    && v != "" && v == Strip(v) && |v| <= maximum
    && (forall i :: 0 <= i < |v| ==> !IsControl(v[i]))
    && !Contains(v, "{{") && !Contains(v, "}}")
  }

  predicate ExactConfig(config: map<string, string>, keys: set<string>) {
    config.Keys == keys && (forall k :: k in config ==> CleanText(config[k], 128))
  }

  const AUDIENCE_KEYS :=
      {"included.client.audience", "access.token.claim", "id.token.claim", "introspection.token.claim"}

  const CLAIM_KEYS := {"claim.name", "claim.value", "jsonType.label", "access.token.claim", "id.token.claim",
                       "userinfo.token.claim", "introspection.token.claim"}

  predicate AudienceMapperOk(clientId: string, m: Mapper) {
    && m.name == "keyverse-audience"
    && ExactConfig(m.config, AUDIENCE_KEYS)
    && m.config["included.client.audience"] == clientId
    && m.config["access.token.claim"] == "true"
    && m.config["id.token.claim"] == "false"
    && m.config["introspection.token.claim"] == "true"
  }

  predicate ClaimMapperOk(m: Mapper) {
    && ExactConfig(m.config, CLAIM_KEYS)
    && ClaimRank(m.config["claim.name"]).Some?
    && m.name == "keyverse-claim-" + m.config["claim.name"]
    && (forall i :: 0 <= i < |m.config["claim.value"]| ==>
          m.config["claim.value"][i] as int != 0x2028 && m.config["claim.value"][i] as int != 0x2029)
    && m.config["jsonType.label"] == "String"
    && m.config["access.token.claim"] == "true"
    && m.config["id.token.claim"] == "true"
    && m.config["userinfo.token.claim"] == "false"
    && m.config["introspection.token.claim"] == "true"
  }

  function CheckMapper(clientId: string, m: Mapper): Checked {
    if !CleanText(m.name, 64) || m.protocol != "openid-connect" || m.consentRequired then Refused
    else if m.mapperType == AUDIENCE_TYPE then
      if AudienceMapperOk(clientId, m) then Audience else Refused
    else if m.mapperType == CLAIM_TYPE then
      if ClaimMapperOk(m) then Claim(ClaimRank(m.config["claim.name"]).value, m.config["claim.name"]) else Refused
    else Refused
  }

  // ---- Reading a live mapper ----

  const MAPPER_FIELDS := {"name", "protocol", "protocolMapper", "consentRequired", "config"}

  predicate AllText(o: Object) {
    forall k :: k in o ==> o[k].JStr?
  }

  /** Drop the generated id and require the closed shape. */
  function StripMapper(raw: Json): Option<Object> {
    if !raw.JObj? then None
    else
      var id, o := Get(raw.members, "id"), raw.members - {"id"};
      if id != JNull && (!id.JStr? || id.s == "") then None
      else if o.Keys != MAPPER_FIELDS then None
      else if !o["config"].JObj? || !AllText(o["config"].members) then None
      else Some(o)
  }

  function ObservedRank(o: Object): Option<nat> {
    var mapperType, config := Get(o, "protocolMapper"), Get(o, "config");
    if mapperType == JStr(AUDIENCE_TYPE) then Some(0)
    else if mapperType != JStr(CLAIM_TYPE) || !config.JObj? then None
    else
      var claim := Get(config.members, "claim.name");
      if claim.JStr? then ClaimRank(claim.s) else None
  }

  /** The strict model: every field present with its exact JSON type. */
  function ParseMapper(o: Object): Option<Mapper> {
    if o.Keys == MAPPER_FIELDS && o["name"].JStr? && o["protocol"].JStr? && o["protocolMapper"].JStr?
       && o["consentRequired"].JBool? && o["config"].JObj? && AllText(o["config"].members)
    then Some(Mapper(o["name"].s, o["protocol"].s, o["protocolMapper"].s, o["consentRequired"].b,
                     map k | k in o["config"].members :: o["config"].members[k].s))
    else None
  }

  function RenderMapper(m: Mapper): Object {
    map["name" := JStr(m.name), "protocol" := JStr(m.protocol), "protocolMapper" := JStr(m.mapperType),
        "consentRequired" := JBool(m.consentRequired), "config" := JObj(map k | k in m.config :: JStr(m.config[k]))]
  }

  function KeyverseCodec(clientId: string, restOk: bool): Codec<Json, Object, Mapper> {
    Codec(StripMapper, ObservedRank, ParseMapper, RenderMapper, m => CheckMapper(clientId, m), restOk)
  }

  lemma RenderAfterParse(o: Object)
    requires ParseMapper(o).Some?
    ensures RenderMapper(ParseMapper(o).value) == o
  {
    var r := RenderMapper(ParseMapper(o).value);
    assert r["config"].members == o["config"].members;
    assert r.Keys == o.Keys;
  }

  lemma ParseAfterRender(m: Mapper)
    ensures ParseMapper(RenderMapper(m)) == Some(m)
  {
    var o := RenderMapper(m);
    assert o.Keys == MAPPER_FIELDS;
    assert (map k | k in o["config"].members :: o["config"].members[k].s) == m.config;
  }

  lemma RankAfterRender(clientId: string, m: Mapper)
    requires !CheckMapper(clientId, m).Refused?
    ensures ObservedRank(RenderMapper(m)) == Some(Rank(CheckMapper(clientId, m)))
  {
    var o := RenderMapper(m);
    assert Get(o, "protocolMapper") == JStr(m.mapperType);
    if m.mapperType == CLAIM_TYPE {
      assert "claim.name" in m.config;
    }
  }

  lemma CheckedClaim(clientId: string, m: Mapper)
    requires CheckMapper(clientId, m).Claim?
    ensures ClaimRank(CheckMapper(clientId, m).name) == Some(CheckMapper(clientId, m).rank)
    ensures 1 <= CheckMapper(clientId, m).rank <= 3
  {
  }

  lemma KeyverseProfileOk(clientId: string)
    ensures ProfileOk(m => CheckMapper(clientId, m))
  {
    forall m | CheckMapper(clientId, m).Claim?
      ensures 1 <= CheckMapper(clientId, m).rank <= 3
      ensures ClaimRank(CheckMapper(clientId, m).name) == Some(CheckMapper(clientId, m).rank)
    {
      CheckedClaim(clientId, m);
    }
  }

  /** The profile meets what the order theory asks of it, for every client id. */
  lemma KeyverseCodecOk(clientId: string, restOk: bool)
    ensures CodecOk(KeyverseCodec(clientId, restOk))
  {
    KeyverseProfileOk(clientId);
    forall o | ParseMapper(o).Some? ensures RenderMapper(ParseMapper(o).value) == o { RenderAfterParse(o); }
    forall m ensures ParseMapper(RenderMapper(m)) == Some(m) { ParseAfterRender(m); }
    forall m | !CheckMapper(clientId, m).Refused?
      ensures ObservedRank(RenderMapper(m)) == Some(Rank(CheckMapper(clientId, m))) {
      RankAfterRender(clientId, m);
    }
  }

  // ---- Whole registrations ----

  /** A non-mapper field of a registration, by its wire type. */
  datatype Field = FStr(s: string) | FBool(b: bool) | FList(items: seq<string>) | FMap(entries: map<string, string>)

  /** `fields` holds every wire field but `protocolMappers`. */
  datatype Registration = Registration(clientId: string, fields: map<string, Field>, mappers: seq<Mapper>)

  /** The checks of the non-mapper fields. */
  type FieldCheck = map<string, Field> -> bool

  /** What preflight accepts. */
  ghost predicate ValidRegistration(fieldsOk: FieldCheck, r: Registration) {
    && fieldsOk(r.fields)
    && "protocolMappers" !in r.fields
    && "clientId" in r.fields && r.fields["clientId"] == FStr(r.clientId)
    && ValidList(m => CheckMapper(r.clientId, m), r.mappers)
  }

  /** Python's `==` between a live value and a desired field: exact, except that
      the numbers 0 and 1 equal the booleans. */
  predicate FieldMatches(f: Field, v: Json) {
    match f
    case FStr(s) => v == JStr(s)
    case FBool(b) => v == JBool(b) || v == JNum(if b then 1.0 else 0.0)
    case FList(items) =>
        v.JArr? && |v.items| == |items| && forall i :: 0 <= i < |items| ==> v.items[i] == JStr(items[i])
    case FMap(entries) =>
        v.JObj? && v.members.Keys == entries.Keys && forall k :: k in entries ==> v.members[k] == JStr(entries[k])
  }

  predicate FieldsMatch(fields: map<string, Field>, client: Object) {
    forall k :: k in fields ==> FieldMatches(fields[k], Get(client, k))
  }

  function ObservedMappers(client: Object): Observed<Json> {
    match Get(client, "protocolMappers")
    case JNull => Missing
    case JArr(items) => Items(items)
    case _ => Malformed
  }

  /** Does the live client match the registration it was created from? */
  ghost predicate ObservableMatches(fieldsOk: FieldCheck, r: Registration, client: Object) {
    && Normalized(KeyverseCodec(r.clientId, fieldsOk(r.fields)), ObservedMappers(client)) == Some(r.mappers)
    && FieldsMatch(r.fields, client)
  }

  method ObservableClientMatches(fieldsOk: FieldCheck, r: Registration, client: Object) returns (ok: bool)
    ensures ok == ObservableMatches(fieldsOk, r, client)
  {
    KeyverseProfileOk(r.clientId);
    var observed := NormalizedObservedMappers(KeyverseCodec(r.clientId, fieldsOk(r.fields)), ObservedMappers(client));
    ok := observed == Some(r.mappers) && FieldsMatch(r.fields, client);
  }

  /** For every valid registration, a live client is judged matching exactly when
      its non-mapper fields are equal and its mappers, without their generated
      ids, are a permutation of the registered ones. */
  lemma MatchingIsUpToMapperOrder(fieldsOk: FieldCheck, r: Registration, client: Object)
    requires ValidRegistration(fieldsOk, r)
    ensures ObservableMatches(fieldsOk, r, client) <==>
              FieldsMatch(r.fields, client) && Permutes(KeyverseCodec(r.clientId, true), ObservedMappers(client),
                                                        r.mappers)
  {
    KeyverseCodecOk(r.clientId, true);
    MatchesExactlyPermutations(KeyverseCodec(r.clientId, true), ObservedMappers(client), r.mappers);
  }

  /** Two valid registrations of one client that agree up to mapper order are equal. */
  lemma {:induction false} RegistrationOrderIsCanonical(fieldsOk: FieldCheck, a: Registration, b: Registration)
    requires ValidRegistration(fieldsOk, a) && ValidRegistration(fieldsOk, b)
    requires a.fields == b.fields && multiset(a.mappers) == multiset(b.mappers)
    ensures a == b
  {
    assert FStr(a.clientId) == FStr(b.clientId);
    OneOrderPerSet(m => CheckMapper(a.clientId, m), a.mappers, b.mappers);
  }

  // ---- What a live client looks like ----

  /** A mapper as Keycloak shows it, with a generated id or a null one. */
  function Shown(m: Mapper, id: Json): Json { JObj(RenderMapper(m)["id" := id]) }

  predicate GeneratedId(id: Json) { id == JNull || (id.JStr? && id.s != "") }

  /** A live mapper is read as `m` exactly when it is `m` as it is sent, with no id,
      a null one or a non-empty text. */
  lemma LiveMapperReadsExactly(raw: Json, m: Mapper)
    ensures StripMapper(raw) == Some(RenderMapper(m)) <==>
            raw.JObj? && raw.members - {"id"} == RenderMapper(m) && GeneratedId(Get(raw.members, "id"))
  {
    var o := RenderMapper(m);
    assert o.Keys == MAPPER_FIELDS && AllText(o["config"].members);
  }

  lemma ShownMapperIsRead(m: Mapper, id: Json)
    requires GeneratedId(id)
    ensures StripMapper(Shown(m, id)) == Some(RenderMapper(m))
  {
    LiveMapperReadsExactly(Shown(m, id), m);
    var o := RenderMapper(m);
    assert "id" !in o;
    assert o["id" := id] - {"id"} == o;
  }

  /** The registered mappers in any order and with any ids are the registered ones. */
  lemma ShownListPermutes(clientId: string, mappers: seq<Mapper>, order: seq<Mapper>, ids: seq<Json>)
    requires |ids| == |order| && multiset(order) == multiset(mappers)
    requires forall i :: 0 <= i < |ids| ==> GeneratedId(ids[i])
    ensures Permutes(KeyverseCodec(clientId, true),
                     Items(seq(|order|, i requires 0 <= i < |order| => Shown(order[i], ids[i]))), mappers)
  {
    var c, items :=
        KeyverseCodec(clientId, true), seq(|order|, i requires 0 <= i < |order| => Shown(order[i], ids[i]));
    forall i | 0 <= i < |items|
      ensures c.strip(items[i]) == Some(RenderMapper(order[i])) { ShownMapperIsRead(order[i], ids[i]); }
    assert Stripped(c, items) == Printed(c, order);
    PrintedKeepsMultiset(c, order, mappers);
  }

  /** Printing lists with the same mappers gives the same objects. */
  lemma {:induction false} PrintedKeepsMultiset(c: Codec<Json, Object, Mapper>, a: seq<Mapper>, b: seq<Mapper>)
    requires multiset(a) == multiset(b)
    ensures multiset(Printed(c, a)) == multiset(Printed(c, b))
    decreases |a|
  {
    assert |multiset(a)| == |a| && |multiset(b)| == |b|;
    if a != [] {
      var x, init := a[|a| - 1], a[..|a| - 1];
      assert a == init + [x] && x in multiset(a);
      var j :| 0 <= j < |b| && b[j] == x;
      var front, back := b[..j], b[j + 1..];
      assert b == front + ([x] + back);
      WithoutOne(init, front, back, x);
      PrintedKeepsMultiset(c, init, front + back);
      PrintedSum(c, init, [x]);
      PrintedSum(c, front, [x] + back);
      PrintedSum(c, [x], back);
      PrintedSum(c, front, back);
    }
  }

  lemma WithoutOne(init: seq<Mapper>, front: seq<Mapper>, back: seq<Mapper>, x: Mapper)
    requires multiset(init + [x]) == multiset(front + ([x] + back))
    ensures multiset(init) == multiset(front + back)
  {
    assert multiset(init + [x]) == multiset(init) + multiset{x};
    assert multiset(front + ([x] + back)) == multiset(front + back) + multiset{x};
    assert multiset(init) == multiset(init + [x]) - multiset{x};
  }

  lemma PrintedSum(c: Codec<Json, Object, Mapper>, a: seq<Mapper>, b: seq<Mapper>)
    ensures Printed(c, a + b) == Printed(c, a) + Printed(c, b)
  {}

  /** role comes before org, and both before workspace. */
  predicate ClaimsBefore(a: string, b: string) {
    (a == "role" && (b == "org" || b == "workspace")) || (a == "org" && b == "workspace")
  }

  lemma RanksAreTheOrder(a: string, b: string)
    requires ClaimRank(a).Some? && ClaimRank(b).Some?
    ensures 1 <= ClaimRank(a).value && (ClaimRank(a).value < ClaimRank(b).value <==> ClaimsBefore(a, b))
  {}

  ghost predicate IsClaim(clientId: string, m: Mapper) {
    CheckMapper(clientId, m).Claim? && "claim.name" in m.config
  }

  lemma ClaimIsNamed(clientId: string, m: Mapper)
    ensures CheckMapper(clientId, m).Claim? ==>
            && IsClaim(clientId, m) && ClaimRank(m.config["claim.name"]).Some?
            && CheckMapper(clientId, m) == Claim(ClaimRank(m.config["claim.name"]).value, m.config["claim.name"])
  {}

  ghost predicate ClaimsInOrder(a: Mapper, b: Mapper) {
    "claim.name" in a.config && "claim.name" in b.config &&
        ClaimsBefore(a.config["claim.name"], b.config["claim.name"])
  }

  // ---- The mappers the profile admits ----

  function AudienceMapper(clientId: string): Mapper {
    Mapper("keyverse-audience", "openid-connect", "oidc-audience-mapper", false,
           map["included.client.audience" := clientId, "access.token.claim" := "true", "id.token.claim" := "false",
               "introspection.token.claim" := "true"])
  }

  function ClaimMapper(claim: string, value: string): Mapper {
    Mapper("keyverse-claim-" + claim, "openid-connect", "oidc-hardcoded-claim-mapper", false,
           map["claim.name" := claim, "claim.value" := value, "jsonType.label" := "String",
               "access.token.claim" := "true", "id.token.claim" := "true", "userinfo.token.claim" := "false",
               "introspection.token.claim" := "true"])
  }

  /** Two of this character stand side by side. */
  ghost predicate Doubled(v: string, c: char) { exists i :: 0 <= i < |v| - 1 && v[i] == c && v[i + 1] == c }

  ghost predicate Presentable(v: string, maximum: nat) {
    && 0 < |v| <= maximum && Trimmed(v) && (forall i :: 0 <= i < |v| ==> !IsControl(v[i]))
    && !Doubled(v, '{') && !Doubled(v, '}')
  }

  lemma {:induction false} ContainsDoubled(v: string, c: char)
    ensures Contains(v, [c, c]) <==> Doubled(v, c)
  {
    if v != "" {
      var t := v[1..];
      ContainsDoubled(t, c);
      if i :| 0 <= i < |t| - 1 && t[i] == c && t[i + 1] == c { assert v[i + 1] == c && v[i + 1 + 1] == c; }
      if i :| 0 <= i < |v| - 1 && v[i] == c && v[i + 1] == c {
        if i > 0 { assert t[i - 1] == c && t[i - 1 + 1] == c; } else { assert [c, c] <= v; }
      }
      if [c, c] <= v { assert v[0] == [c, c][0] && v[0 + 1] == [c, c][1]; }
    }
  }

  lemma CleanExactly(v: string, maximum: nat)
    ensures CleanText(v, maximum) <==> Presentable(v, maximum)
  {
    ContainsDoubled(v, '{');
    ContainsDoubled(v, '}');
    var before, after := StripSplits(v);
    if Trimmed(v) {
      assert "" + v + "" == v;
      StripFinds("", v, "");
    }
  }

  /** Letters, hyphens and digits need no checking. */
  predicate PlainWord(v: string) {
    v != "" && forall i :: 0 <= i < |v| ==> 'a' <= v[i] <= 'z' || 'A' <= v[i] <= 'Z' || v[i] == '-'
  }

  lemma PlainIsClean(v: string, maximum: nat)
    requires PlainWord(v) && |v| <= maximum
    ensures CleanText(v, maximum)
  {
    CleanExactly(v, maximum);
  }

  /** A closed configuration is settled by its values. */
  lemma ConfigExactly(config: map<string, string>, wanted: map<string, string>)
    requires forall k :: k in wanted ==> CleanText(wanted[k], 128)
    ensures ExactConfig(config, wanted.Keys) &&
            (forall k :: k in wanted ==> k in config && config[k] == wanted[k]) <==>
            config == wanted
  {}

  lemma CleanValues(wanted: map<string, string>, given: string)
    requires CleanText(given, 128)
    requires forall k :: k in wanted ==> wanted[k] == given || (PlainWord(wanted[k]) && |wanted[k]| <= 128)
    ensures forall k :: k in wanted ==> CleanText(wanted[k], 128)
  {
    forall k | k in wanted ensures CleanText(wanted[k], 128) {
      if wanted[k] != given { PlainIsClean(wanted[k], 128); }
    }
  }

  lemma AudienceValues(clientId: string)
    ensures var c := AudienceMapper(clientId).config;
            && c.Keys == AUDIENCE_KEYS && c["included.client.audience"] == clientId
            && forall k :: k in c ==> c[k] == clientId || (PlainWord(c[k]) && |c[k]| <= 128)
  {}

  lemma AudienceSettled(clientId: string, config: map<string, string>)
    requires config.Keys == AUDIENCE_KEYS
    ensures (forall k :: k in config ==> config[k] == AudienceMapper(clientId).config[k]) <==>
            && config["included.client.audience"] == clientId && config["access.token.claim"] == "true"
            && config["id.token.claim"] == "false" && config["introspection.token.claim"] == "true"
  {}

  lemma PlainNames()
    ensures PlainWord("keyverse-audience") && PlainWord("keyverse-claim-")
    ensures PlainWord("role") && PlainWord("org") && PlainWord("workspace")
  {}

  lemma AudienceConfig(clientId: string, config: map<string, string>)
    ensures && ExactConfig(config, AUDIENCE_KEYS)
            && config["included.client.audience"] == clientId && config["access.token.claim"] == "true"
            && config["id.token.claim"] == "false" && config["introspection.token.claim"] == "true" <==>
            config == AudienceMapper(clientId).config && CleanText(clientId, 128)
  {
    var wanted := AudienceMapper(clientId).config;
    AudienceValues(clientId);
    if config.Keys == AUDIENCE_KEYS { AudienceSettled(clientId, config); }
    if CleanText(clientId, 128) {
      CleanValues(wanted, clientId);
      ConfigExactly(config, wanted);
    }
  }

  /** A client id leaves one audience mapper to register. */
  lemma AudienceExactly(clientId: string, m: Mapper)
    ensures CheckMapper(clientId, m) == Audience <==> m == AudienceMapper(clientId) && Presentable(clientId, 128)
  {
    PlainNames();
    AudienceConfig(clientId, m.config);
    CleanExactly(clientId, 128);
    if PlainWord(m.name) && |m.name| <= 64 { PlainIsClean(m.name, 64); }
  }

  ghost predicate ClaimValue(v: string) {
    Presentable(v, 128) && '\U{2028}' !in v && '\U{2029}' !in v
  }

  lemma ClaimValues(claim: string, value: string)
    requires ClaimRank(claim).Some?
    ensures var c := ClaimMapper(claim, value).config;
            && c.Keys == CLAIM_KEYS && c["claim.name"] == claim && c["claim.value"] == value
            && forall k :: k in c ==> c[k] == value || (PlainWord(c[k]) && |c[k]| <= 128)
  {
    PlainNames();
  }

  lemma ClaimSettled(claim: string, value: string, config: map<string, string>)
    requires config.Keys == CLAIM_KEYS
    ensures (forall k :: k in config ==> config[k] == ClaimMapper(claim, value).config[k]) <==>
            && config["claim.name"] == claim && config["claim.value"] == value
            && config["jsonType.label"] == "String" && config["access.token.claim"] == "true"
            && config["id.token.claim"] == "true" && config["userinfo.token.claim"] == "false"
            && config["introspection.token.claim"] == "true"
  {}

  lemma ClaimConfig(claim: string, value: string, config: map<string, string>)
    requires ClaimRank(claim).Some?
    ensures && ExactConfig(config, CLAIM_KEYS) && config["claim.name"] == claim && config["claim.value"] == value
            && config["jsonType.label"] == "String" && config["access.token.claim"] == "true"
            && config["id.token.claim"] == "true" && config["userinfo.token.claim"] == "false"
            && config["introspection.token.claim"] == "true" <==>
            config == ClaimMapper(claim, value).config && CleanText(value, 128)
  {
    var wanted := ClaimMapper(claim, value).config;
    ClaimValues(claim, value);
    if config.Keys == CLAIM_KEYS { ClaimSettled(claim, value, config); }
    if CleanText(value, 128) {
      CleanValues(wanted, value);
      ConfigExactly(config, wanted);
    }
  }

  lemma ClaimNameIsClean(claim: string)
    requires ClaimRank(claim).Some?
    ensures CleanText("keyverse-claim-" + claim, 64)
  {
    PlainNames();
    var name := "keyverse-claim-" + claim;
    PlainIsClean(name, 64);
  }

  lemma OneLineExactly(v: string)
    ensures '\U{2028}' !in v && '\U{2029}' !in v <==>
            forall i :: 0 <= i < |v| ==> v[i] as int != 0x2028 && v[i] as int != 0x2029
  {}

  lemma ClaimOkExactly(m: Mapper, claim: string)
    requires ClaimRank(claim).Some? && "claim.value" in m.config
    ensures ClaimMapperOk(m) && m.config["claim.name"] == claim <==>
            && m.name == "keyverse-claim-" + claim && ClaimValue(m.config["claim.value"])
            && m.config == ClaimMapper(claim, m.config["claim.value"]).config
  {
    var value := m.config["claim.value"];
    ClaimConfig(claim, value, m.config);
    CleanExactly(value, 128);
    OneLineExactly(value);
  }

  /** And a claim with its value, one claim mapper. */
  lemma ClaimExactly(clientId: string, m: Mapper, claim: string)
    ensures CheckMapper(clientId, m).Claim? && CheckMapper(clientId, m).name == claim <==>
            && (claim == "role" || claim == "org" || claim == "workspace")
            && "claim.value" in m.config && ClaimValue(m.config["claim.value"])
            && m == ClaimMapper(claim, m.config["claim.value"])
  {
    if ClaimRank(claim).Some? && "claim.value" in m.config {
      ClaimOkExactly(m, claim);
      ClaimNameIsClean(claim);
    }
  }

  /** A mapper is a claim mapper exactly as the profile spells it. */
  ghost predicate CanonicalClaim(m: Mapper) {
    && "claim.name" in m.config && "claim.value" in m.config && ClaimValue(m.config["claim.value"])
    && (m.config["claim.name"] == "role" || m.config["claim.name"] == "org" || m.config["claim.name"] == "workspace")
    && m == ClaimMapper(m.config["claim.name"], m.config["claim.value"])
  }

  lemma ClaimIsCanonical(clientId: string, m: Mapper)
    ensures CheckMapper(clientId, m).Claim? <==> CanonicalClaim(m)
    ensures CheckMapper(clientId, m).Claim? ==> IsClaim(clientId, m)
  {
    ClaimIsNamed(clientId, m);
    if "claim.name" in m.config { ClaimExactly(clientId, m, m.config["claim.name"]); }
  }

  lemma OrderInNames(clientId: string, a: Mapper, b: Mapper)
    requires CheckMapper(clientId, a).Claim? && CheckMapper(clientId, b).Claim?
    ensures Rank(CheckMapper(clientId, a)) >= 1
    ensures Rank(CheckMapper(clientId, a)) < Rank(CheckMapper(clientId, b)) <==> ClaimsInOrder(a, b)
  {
    ClaimIsNamed(clientId, a);
    ClaimIsNamed(clientId, b);
    RanksAreTheOrder(a.config["claim.name"], b.config["claim.name"]);
  }

  /** A valid list by the kinds of its mappers, for any order of the claims that
      their ranks agree with. */
  lemma ListByKinds<M(!new)>(check: M -> Checked, before: (M, M) -> bool, ms: seq<M>)
    requires forall a :: check(a).Claim? ==> Rank(check(a)) >= 1
    requires forall a, b :: check(a).Claim? && check(b).Claim? ==>
             (Rank(check(a)) < Rank(check(b)) <==> before(a, b))
    ensures ValidList(check, ms) <==>
            ms == [] ||
            (&& check(ms[0]).Audience? && (forall i :: 1 <= i < |ms| ==> check(ms[i]).Claim?)
             && forall i, j :: 1 <= i < j < |ms| ==> before(ms[i], ms[j]))
  {
    if ms != [] && ValidList(check, ms) {
      forall i | 1 <= i < |ms| ensures check(ms[i]).Claim? { assert InOrder(check)(ms[0], ms[i]); }
      forall i, j | 1 <= i < j < |ms| ensures before(ms[i], ms[j]) { assert InOrder(check)(ms[i], ms[j]); }
    }
  }

  /** What the check says of a mapper is how the profile spells it. */
  lemma KindsInNames(clientId: string, check: Mapper -> Checked)
    requires forall m :: check(m) == CheckMapper(clientId, m)
    ensures forall m :: check(m).Claim? <==> CanonicalClaim(m)
    ensures forall m :: check(m).Audience? <==> m == AudienceMapper(clientId) && Presentable(clientId, 128)
    ensures forall a :: check(a).Claim? ==> Rank(check(a)) >= 1
    ensures forall a, b :: check(a).Claim? && check(b).Claim? ==>
            (Rank(check(a)) < Rank(check(b)) <==> ClaimsInOrder(a, b))
  {
    forall m
      ensures check(m).Claim? <==> CanonicalClaim(m)
      ensures check(m).Audience? <==> m == AudienceMapper(clientId) && Presentable(clientId, 128) {
      ClaimIsCanonical(clientId, m);
      AudienceExactly(clientId, m);
    }
    forall a, b | check(a).Claim? && check(b).Claim?
      ensures Rank(check(a)) >= 1 && (Rank(check(a)) < Rank(check(b)) <==> ClaimsInOrder(a, b)) {
      OrderInNames(clientId, a, b);
    }
  }

  ghost predicate CanonicalList(clientId: string, ms: seq<Mapper>) {
    ms == [] ||
    (&& ms[0] == AudienceMapper(clientId) && Presentable(clientId, 128)
     && (forall i :: 1 <= i < |ms| ==> CanonicalClaim(ms[i]))
     && forall i, j :: 1 <= i < j < |ms| ==> ClaimsInOrder(ms[i], ms[j]))
  }

  lemma ListByNames(clientId: string, check: Mapper -> Checked, ms: seq<Mapper>)
    requires forall m :: check(m).Claim? <==> CanonicalClaim(m)
    requires forall m :: check(m).Audience? <==> m == AudienceMapper(clientId) && Presentable(clientId, 128)
    requires forall a :: check(a).Claim? ==> Rank(check(a)) >= 1
    requires forall a, b :: check(a).Claim? && check(b).Claim? ==>
             (Rank(check(a)) < Rank(check(b)) <==> ClaimsInOrder(a, b))
    ensures ValidList(check, ms) <==> CanonicalList(clientId, ms)
  {
    ListByKinds(check, (a, b) => ClaimsInOrder(a, b), ms);
  }

  /** The lists validation admits, word for word: none at all, or the one audience
      mapper first and then mappers of the claims role, org and workspace, in that
      order and none twice. */
  lemma ValidListInNames(clientId: string, ms: seq<Mapper>)
    ensures ValidList(m => CheckMapper(clientId, m), ms) <==> CanonicalList(clientId, ms)
  {
    var check := m => CheckMapper(clientId, m);
    KindsInNames(clientId, check);
    ListByNames(clientId, check, ms);
  }

  // ---- Fields as Python compares them ----

  /** Values that Python's `==` cannot tell apart have one such form: booleans are
      numbers. */
  function Canon(v: Json): Json {
    match v
    case JBool(b) => JNum(if b then 1.0 else 0.0)
    case JArr(items) => JArr(seq(|items|, i requires 0 <= i < |items| => Canon(items[i])))
    case JObj(members) => JObj(map k | k in members :: Canon(members[k]))
    case _ => v
  }

  /** A field as it is sent. */
  function RenderField(f: Field): Json {
    match f
    case FStr(s) => JStr(s)
    case FBool(b) => JBool(b)
    case FList(items) => JArr(seq(|items|, i requires 0 <= i < |items| => JStr(items[i])))
    case FMap(entries) => JObj(map k | k in entries :: JStr(entries[k]))
  }

  lemma CanonIsText(v: Json, s: string)
    ensures Canon(v) == JStr(s) <==> v == JStr(s)
  {}

  /** A live value matches a field exactly when Python finds it equal to what was sent. */
  lemma FieldMatchesExactly(f: Field, v: Json)
    ensures FieldMatches(f, v) <==> Canon(v) == Canon(RenderField(f))
  {
    match f {
      case FStr(s) => CanonIsText(v, s);
      case FBool(b) =>
      case FList(items) => ListMatchesExactly(items, v);
      case FMap(entries) => MapMatchesExactly(entries, v);
    }
  }

  lemma ListMatchesExactly(items: seq<string>, v: Json)
    ensures FieldMatches(FList(items), v) <==> Canon(v) == Canon(RenderField(FList(items)))
  {
    if v.JArr? {
      var a, b := Canon(v).items, Canon(RenderField(FList(items))).items;
      forall i | 0 <= i < |a| && i < |b| ensures a[i] == b[i] <==> v.items[i] == JStr(items[i]) {
        CanonIsText(v.items[i], items[i]);
        assert b[i] == Canon(JStr(items[i])) == JStr(items[i]);
      }
      if FieldMatches(FList(items), v) { assert a == b; }
      if a == b {
        forall i | 0 <= i < |items| ensures v.items[i] == JStr(items[i]) { assert a[i] == b[i]; }
      }
    }
  }

  lemma MapMatchesExactly(entries: map<string, string>, v: Json)
    ensures FieldMatches(FMap(entries), v) <==> Canon(v) == Canon(RenderField(FMap(entries)))
  {
    if v.JObj? {
      var a, b := Canon(v).members, Canon(RenderField(FMap(entries))).members;
      assert a.Keys == v.members.Keys && b.Keys == entries.Keys;
      forall k | k in a && k in b ensures a[k] == b[k] <==> v.members[k] == JStr(entries[k]) {
        CanonIsText(v.members[k], entries[k]);
        assert b[k] == Canon(JStr(entries[k])) == JStr(entries[k]);
      }
      if FieldMatches(FMap(entries), v) { assert a == b; }
    }
  }

  /** What Keycloak shows of a registration it keeps as it was given: each field as
      sent, and the mappers in any order and with any ids. */
  lemma KeptClientMatches(fieldsOk: FieldCheck, r: Registration, client: Object, order: seq<Mapper>, ids: seq<Json>)
    requires ValidRegistration(fieldsOk, r)
    requires forall k :: k in r.fields ==> Canon(Get(client, k)) == Canon(RenderField(r.fields[k]))
    requires |ids| == |order| && multiset(order) == multiset(r.mappers)
    requires forall i :: 0 <= i < |ids| ==> GeneratedId(ids[i])
    requires Get(client, "protocolMappers") ==
             JArr(seq(|order|, i requires 0 <= i < |order| => Shown(order[i], ids[i])))
    ensures ObservableMatches(fieldsOk, r, client)
  {
    forall k | k in r.fields
      ensures FieldMatches(r.fields[k], Get(client, k)) { FieldMatchesExactly(r.fields[k], Get(client, k)); }
    ShownListPermutes(r.clientId, r.mappers, order, ids);
    MatchingIsUpToMapperOrder(fieldsOk, r, client);
  }

  /** And a client that shows any field otherwise does not match. */
  lemma ChangedFieldDoesNotMatch(fieldsOk: FieldCheck, r: Registration, client: Object, k: string)
    requires k in r.fields && Canon(Get(client, k)) != Canon(RenderField(r.fields[k]))
    ensures !ObservableMatches(fieldsOk, r, client)
  {
    FieldMatchesExactly(r.fields[k], Get(client, k));
  }
}
