/** The text a correlation key is hashed from: JSON with every non-ASCII code
    point escaped. Python strings may hold surrogate code points, so text here
    is a sequence of numbers rather than of Dafny characters. */
module CorrelationKey {
  import opened Wrappers
  import opened Splitting
  import opened JsonEscapes

  type CodePoint = x: int | 0 <= x <= 0x10FFFF
  type Text = seq<CodePoint>

  /** A 16-bit code unit. */
  type CodeUnit = x: int | 0 <= x < 0x10000

  predicate IsHigh(c: CodePoint) { 0xD800 <= c < 0xDC00 }
  predicate IsLow(c: CodePoint) { 0xDC00 <= c < 0xE000 }
  predicate IsSurrogate(c: CodePoint) { 0xD800 <= c < 0xE000 }

  function Points(s: string): (t: Text)
    ensures forall i :: 0 <= i < |t| ==> !IsSurrogate(t[i])
  {
    seq(|s|, i requires 0 <= i < |s| => s[i] as int)
  }

  // ---- The ASCII escaping of json.dumps ----

  function EscapeHex(u: CodeUnit): string {
    ['\\', 'u', HexDigit(u / 4096), HexDigit(u / 256 % 16), HexDigit(u / 16 % 16), HexDigit(u % 16)]
  }

  function HighHalf(c: CodePoint): CodeUnit requires c >= 0x10000 { 0xD800 + (c - 0x10000) / 1024 }
  function LowHalf(c: CodePoint): CodeUnit requires c >= 0x10000 { 0xDC00 + (c - 0x10000) % 1024 }

  function EscapePoint(c: CodePoint): string {
    if ShortEscape(c).Some? then ['\\', ShortEscape(c).value]
    else if 0x20 <= c <= 0x7E then [c as char]
    else if c < 0x10000 then EscapeHex(c)
    else EscapeHex(HighHalf(c)) + EscapeHex(LowHalf(c))
  }

  function Escape(s: Text): string {
    if s == [] then "" else EscapePoint(s[0]) + Escape(s[1..])
  }

  function Quote(s: Text): string { ['"'] + Escape(s) + ['"'] }

  // ---- The text of a key ----

  datatype Coordinates = Coordinates(issuer: Text, audience: Text, subjectType: Text, tenant: Option<Text>,
                                     subject: Text)

  function TenantText(tenant: Option<Text>): string {
    match tenant case None => "null" case Some(t) => Quote(t)
  }

  /** The JSON array of the contract version and the five coordinates. */
  function Canonical(version: Text, k: Coordinates): string {
    ['['] + (Quote(version) + ([','] + (Quote(k.issuer) + ([','] + (Quote(k.audience) + ([','] + (Quote(k.subjectType)
    + ([','] + (TenantText(k.tenant) + ([','] + (Quote(k.subject) + [']'])))))))))))
  }

  // ---- Escaping sees only code units ----

  /** The UTF-16 form of a text; surrogate code points stay as they are. */
  function Utf16(s: Text): seq<CodeUnit> {
    if s == [] then []
    else if s[0] < 0x10000 then [s[0]] + Utf16(s[1..])
    else [HighHalf(s[0]), LowHalf(s[0])] + Utf16(s[1..])
  }

  function EscapeUnits(us: seq<CodeUnit>): string {
    if us == [] then "" else EscapePoint(us[0]) + EscapeUnits(us[1..])
  }

  lemma UnitInFront(u: CodeUnit, us: seq<CodeUnit>)
    ensures EscapeUnits([u] + us) == EscapePoint(u) + EscapeUnits(us)
  {
    assert ([u] + us)[1..] == us;
  }

  lemma PairEscape(c: CodePoint)
    requires c >= 0x10000
    ensures EscapePoint(c) == EscapePoint(HighHalf(c)) + EscapePoint(LowHalf(c))
  {}

  lemma {:induction false} EscapeIsByUnit(s: Text)
    ensures Escape(s) == EscapeUnits(Utf16(s))
  {
    if s != [] {
      EscapeIsByUnit(s[1..]);
      var rest := Utf16(s[1..]);
      if s[0] < 0x10000 {
        UnitInFront(s[0], rest);
      } else {
        UnitInFront(LowHalf(s[0]), rest);
        UnitInFront(HighHalf(s[0]), [LowHalf(s[0])] + rest);
        assert [HighHalf(s[0])] + ([LowHalf(s[0])] + rest) == [HighHalf(s[0]), LowHalf(s[0])] + rest;
        PairEscape(s[0]);
        Reassociate(EscapePoint(HighHalf(s[0])), EscapePoint(LowHalf(s[0])), EscapeUnits(rest));
      }
    }
  }

  lemma SumOfDigits(u: int)
    ensures u == u / 4096 * 4096 + u / 256 % 16 * 256 + u / 16 % 16 * 16 + u % 16
  {}

  lemma HexIsInjective(u: CodeUnit, v: CodeUnit)
    requires EscapeHex(u) == EscapeHex(v)
    ensures u == v
  {
    var a, b := EscapeHex(u), EscapeHex(v);
    assert HexValue(a[2]) == HexValue(b[2]) && HexValue(a[3]) == HexValue(b[3]);
    assert HexValue(a[4]) == HexValue(b[4]) && HexValue(a[5]) == HexValue(b[5]);
    SumOfDigits(u);
    SumOfDigits(v);
  }

  /** The length of a unit's escape shows in its first two characters. */
  lemma EscapeShape(u: CodeUnit)
    ensures var e := EscapePoint(u);
            && (e[0] != '\\' ==> |e| == 1)
            && (e[0] == '\\' ==> |e| >= 2 && |e| == if e[1] == 'u' then 6 else 2)
            && e[0] != '"'
  {}

  lemma UnitEscapeIsInjective(u: CodeUnit, v: CodeUnit)
    requires EscapePoint(u) == EscapePoint(v)
    ensures u == v
  {
    EscapeShape(u);
    EscapeShape(v);
    if |EscapePoint(u)| == 6 { HexIsInjective(u, v); }
  }

  /** No unit's escape begins another's, whatever follows. */
  lemma UnitEscapeIsPrefixFree(u: CodeUnit, v: CodeUnit, x: string, y: string)
    requires EscapePoint(u) + x == EscapePoint(v) + y
    ensures u == v && x == y
  {
    var a, b := EscapePoint(u), EscapePoint(v);
    EscapeShape(u);
    EscapeShape(v);
    assert (a + x)[0] == a[0] && (b + y)[0] == b[0];
    if |a| > 1 { assert (a + x)[1] == a[1] && (b + y)[1] == b[1]; }
    assert |a| == |b|;
    Cancel(a, b, x, y);
    UnitEscapeIsInjective(u, v);
  }

  /** A closing quote comes first exactly when no unit is left. */
  lemma FirstCharacter(us: seq<CodeUnit>, x: string)
    ensures var text := EscapeUnits(us) + (['"'] + x);
            if us == [] then text == ['"'] + x
            else text[0] != '"' && text == EscapePoint(us[0]) + (EscapeUnits(us[1..]) + (['"'] + x))
  {
    if us != [] {
      EscapeShape(us[0]);
      Reassociate(EscapePoint(us[0]), EscapeUnits(us[1..]), ['"'] + x);
    }
  }

  /** A quoted string ends at its closing quote, and its units can be read off. */
  lemma {:induction false} UnitsReadBack(us: seq<CodeUnit>, vs: seq<CodeUnit>, x: string, y: string)
    requires EscapeUnits(us) + (['"'] + x) == EscapeUnits(vs) + (['"'] + y)
    ensures us == vs && x == y
  {
    FirstCharacter(us, x);
    FirstCharacter(vs, y);
    if us == [] {
      Cancel(['"'], ['"'], x, y);
    } else {
      var a, b := EscapeUnits(us[1..]) + (['"'] + x), EscapeUnits(vs[1..]) + (['"'] + y);
      UnitEscapeIsPrefixFree(us[0], vs[0], a, b);
      UnitsReadBack(us[1..], vs[1..], x, y);
      assert us == [us[0]] + us[1..] && vs == [vs[0]] + vs[1..];
    }
  }

  lemma QuoteReassociates(e: string, x: string)
    ensures ['"'] + e + ['"'] + x == ['"'] + (e + (['"'] + x))
  {}

  lemma QuoteReadsBack(s: Text, t: Text, x: string, y: string)
    requires Quote(s) + x == Quote(t) + y
    ensures Utf16(s) == Utf16(t) && x == y
  {
    EscapeIsByUnit(s);
    EscapeIsByUnit(t);
    var a, b := Escape(s) + (['"'] + x), Escape(t) + (['"'] + y);
    QuoteReassociates(Escape(s), x);
    QuoteReassociates(Escape(t), y);
    Cancel(['"'], ['"'], a, b);
    UnitsReadBack(Utf16(s), Utf16(t), x, y);
  }

  // ---- When code units determine the text ----

  /** Somewhere a high surrogate stands right before a low one. */
  predicate HasPair(s: Text) {
    exists i :: 0 <= i < |s| - 1 && IsHigh(s[i]) && IsLow(s[i + 1])
  }

  function Fuse(high: CodeUnit, low: CodeUnit): CodePoint
    requires IsHigh(high) && IsLow(low)
  {
    0x10000 + (high - 0xD800) * 1024 + (low - 0xDC00)
  }

  /** Read code units as UTF-16 does. */
  function FromUtf16(us: seq<CodeUnit>): Text {
    if us == [] then []
    else if |us| > 1 && IsHigh(us[0]) && IsLow(us[1]) then [Fuse(us[0], us[1])] + FromUtf16(us[2..])
    else [us[0]] + FromUtf16(us[1..])
  }

  lemma FuseHalves(c: CodePoint)
    requires c >= 0x10000
    ensures IsHigh(HighHalf(c)) && IsLow(LowHalf(c)) && Fuse(HighHalf(c), LowHalf(c)) == c
  {}

  lemma {:induction false} FromUtf16HasNoPair(us: seq<CodeUnit>)
    ensures !HasPair(FromUtf16(us))
    ensures us != [] && !IsLow(us[0]) ==> !IsLow(FromUtf16(us)[0])
  {
    if us != [] {
      if |us| > 1 && IsHigh(us[0]) && IsLow(us[1]) {
        FromUtf16HasNoPair(us[2..]);
        PrependKeepsNoPair(Fuse(us[0], us[1]), FromUtf16(us[2..]));
      } else {
        FromUtf16HasNoPair(us[1..]);
        PrependKeepsNoPair(us[0], FromUtf16(us[1..]));
      }
    }
  }

  lemma PrependKeepsNoPair(c: CodePoint, s: Text)
    requires !HasPair(s) && !(s != [] && IsHigh(c) && IsLow(s[0]))
    ensures !HasPair([c] + s)
  {
    var t := [c] + s;
    forall i | 0 <= i < |t| - 1 ensures !(IsHigh(t[i]) && IsLow(t[i + 1])) {
      if i > 0 { assert t[i] == s[i - 1] && t[i + 1] == s[i]; }
    }
  }

  lemma TailHasNoPair(s: Text)
    requires s != [] && !HasPair(s)
    ensures !HasPair(s[1..]) && !(|s| > 1 && IsHigh(s[0]) && IsLow(s[1]))
  {
    forall i | 0 <= i < |s[1..]| - 1 ensures !(IsHigh(s[1..][i]) && IsLow(s[1..][i + 1])) {
      assert s[1..][i] == s[i + 1] && s[1..][i + 1] == s[i + 2];
    }
  }

  lemma {:induction false} ReadBack(s: Text)
    requires !HasPair(s)
    ensures FromUtf16(Utf16(s)) == s
  {
    if s != [] {
      TailHasNoPair(s);
      ReadBack(s[1..]);
      var rest, us := Utf16(s[1..]), Utf16(s);
      assert s == [s[0]] + s[1..];
      if s[0] >= 0x10000 {
        FuseHalves(s[0]);
        assert us[2..] == rest;
      } else {
        assert us[1..] == rest;
        if |s| > 1 && s[1] >= 0x10000 { FuseHalves(s[1]); }
      }
    }
  }

  /** Reading back gives the text itself exactly when it has no such pair. */
  lemma {:induction false} ReadsBackExactly(s: Text)
    ensures FromUtf16(Utf16(s)) == s <==> !HasPair(s)
  {
    if !HasPair(s) { ReadBack(s); }
    FromUtf16HasNoPair(Utf16(s));
  }

  lemma {:induction false} Utf16Concat(s: Text, t: Text)
    ensures Utf16(s + t) == Utf16(s) + Utf16(t)
  {
    if s == [] {
      assert s + t == t;
    } else {
      assert (s + t)[1..] == s[1..] + t;
      Utf16Concat(s[1..], t);
    }
  }

  /** Every text with a pair is written exactly like another, shorter text. */
  lemma {:induction false} PairCollides(s: Text) returns (twin: Text)
    requires HasPair(s)
    ensures twin != s && |twin| < |s| && Escape(twin) == Escape(s)
  {
    var i :| 0 <= i < |s| - 1 && IsHigh(s[i]) && IsLow(s[i + 1]);
    var c := Fuse(s[i], s[i + 1]);
    twin := s[..i] + ([c] + s[i + 2..]);
    assert s == s[..i] + ([s[i], s[i + 1]] + s[i + 2..]);
    Utf16Concat(s[..i], [c] + s[i + 2..]);
    Utf16Concat(s[..i], [s[i], s[i + 1]] + s[i + 2..]);
    Utf16Concat([c], s[i + 2..]);
    Utf16Concat([s[i], s[i + 1]], s[i + 2..]);
    FuseIsPair(s[i], s[i + 1]);
    EscapeIsByUnit(s);
    EscapeIsByUnit(twin);
  }

  lemma FuseIsPair(high: CodeUnit, low: CodeUnit)
    requires IsHigh(high) && IsLow(low)
    ensures Utf16([Fuse(high, low)]) == Utf16([high, low])
  {
    var c := Fuse(high, low);
    assert HighHalf(c) == high && LowHalf(c) == low;
    assert [high, low][1..] == [low] && [low][1..] == [] && [c][1..] == [];
    assert Utf16([low]) == [low];
  }

  // ---- The key ----

  /** The two tuples agree in UTF-16, coordinate by coordinate. */
  predicate SameUnits(j: Coordinates, k: Coordinates) {
    && Utf16(j.issuer) == Utf16(k.issuer) && Utf16(j.audience) == Utf16(k.audience)
    && Utf16(j.subjectType) == Utf16(k.subjectType) && Utf16(j.subject) == Utf16(k.subject)
    && match (j.tenant, k.tenant)
       case (None, None) => true
       case (Some(t), Some(u)) => Utf16(t) == Utf16(u)
       case _ => false
  }

  lemma TenantReadsBack(s: Option<Text>, t: Option<Text>, x: string, y: string)
    requires TenantText(s) + x == TenantText(t) + y
    ensures s.Some? <==> t.Some?
    ensures s.Some? && t.Some? ==> Utf16(s.value) == Utf16(t.value)
    ensures x == y
  {
    assert (TenantText(s) + x)[0] == TenantText(s)[0] && (TenantText(t) + y)[0] == TenantText(t)[0];
    if s.Some? && t.Some? {
      QuoteReadsBack(s.value, t.value, x, y);
    } else if s.None? && t.None? {
      Cancel(TenantText(s), TenantText(t), x, y);
    }
  }

  /** For all tuples, accepted or not: the text tells apart exactly what UTF-16
      tells apart. No coordinate can run into the next. */
  lemma TextSeesUnits(version: Text, j: Coordinates, k: Coordinates)
    ensures Canonical(version, j) == Canonical(version, k) <==> SameUnits(j, k)
  {
    if Canonical(version, j) == Canonical(version, k) {
      TextShowsUnits(version, j, k);
    }
    if SameUnits(j, k) {
      EscapeIsByUnit(j.issuer); EscapeIsByUnit(k.issuer);
      EscapeIsByUnit(j.audience); EscapeIsByUnit(k.audience);
      EscapeIsByUnit(j.subjectType); EscapeIsByUnit(k.subjectType);
      EscapeIsByUnit(j.subject); EscapeIsByUnit(k.subject);
      if j.tenant.Some? { EscapeIsByUnit(j.tenant.value); EscapeIsByUnit(k.tenant.value); }
    }
  }

  lemma TextShowsUnits(version: Text, j: Coordinates, k: Coordinates)
    requires Canonical(version, j) == Canonical(version, k)
    ensures SameUnits(j, k)
  {
    var j6, k6 := [','] + (Quote(j.subject) + [']']), [','] + (Quote(k.subject) + [']']);
    var j5, k5 := [','] + (TenantText(j.tenant) + j6), [','] + (TenantText(k.tenant) + k6);
    var j4, k4 := [','] + (Quote(j.subjectType) + j5), [','] + (Quote(k.subjectType) + k5);
    var j3, k3 := [','] + (Quote(j.audience) + j4), [','] + (Quote(k.audience) + k4);
    var j2, k2 := [','] + (Quote(j.issuer) + j3), [','] + (Quote(k.issuer) + k3);
    Cancel(['['], ['['], Quote(version) + j2, Quote(version) + k2);
    Cancel(Quote(version), Quote(version), j2, k2);
    FieldReadsBack(j.issuer, k.issuer, j3, k3);
    FieldReadsBack(j.audience, k.audience, j4, k4);
    FieldReadsBack(j.subjectType, k.subjectType, j5, k5);
    Cancel([','], [','], TenantText(j.tenant) + j6, TenantText(k.tenant) + k6);
    TenantReadsBack(j.tenant, k.tenant, j6, k6);
    FieldReadsBack(j.subject, k.subject, [']'], [']']);
  }

  lemma FieldReadsBack(s: Text, t: Text, x: string, y: string)
    requires [','] + (Quote(s) + x) == [','] + (Quote(t) + y)
    ensures Utf16(s) == Utf16(t) && x == y
  {
    Cancel([','], [','], Quote(s) + x, Quote(t) + y);
    QuoteReadsBack(s, t, x, y);
  }

  // ---- What the verifier accepts ----

  /** The tables the checks consult; the surrogate category is fixed. */
  datatype Unicode = Unicode(space: CodePoint -> bool, otherInvisible: CodePoint -> bool) {
    predicate Invisible(c: CodePoint) { IsSurrogate(c) || otherInvisible(c) }

    predicate Visible(s: Text) { forall i :: 0 <= i < |s| ==> !Invisible(s[i]) }

    function Strip(s: Text): Text {
      if s == [] then []
      else if space(s[0]) then Strip(s[1..])
      else if space(s[|s| - 1]) then Strip(s[..|s| - 1])
      else s
    }

    predicate SubjectOk(s: Text) { s != [] && |s| <= 255 && s == Strip(s) && Visible(s) }
    predicate TenantOk(s: Text) { Strip(s) != [] && s == Strip(s) && |s| <= 128 && Visible(s) }
    predicate AudienceOk(s: Text) { 0 < |s| <= 255 && s == Strip(s) && Visible(s) }

    /** `httpsUrl` is the URL parser's part of the issuer check. */
    predicate IssuerOk(s: Text, httpsUrl: Text -> bool) {
      (forall i :: 0 <= i < |s| ==> !space(s[i]) && !Invisible(s[i])) && httpsUrl(s)
    }
  }

  datatype SubjectType = Public | Pairwise | Ephemeral {
    function Name(): Text {
      match this case Public => Points("public") case Pairwise => Points("pairwise") case Ephemeral =>
          Points("ephemeral")
    }
  }

  datatype Profile = Profile(issuer: Text, audience: Text, subjectType: SubjectType, requiresTenant: bool)

  predicate ProfileOk(u: Unicode, httpsUrl: Text -> bool, p: Profile) {
    u.IssuerOk(p.issuer, httpsUrl) && u.AudienceOk(p.audience)
  }

  /** The claims that reach the key; None is a missing or non-text member. */
  datatype Claims = Claims(iss: Option<Text>, sub: Option<Text>, org: Option<Text>)

  datatype Refusal = IssuerMismatch | InvalidClaim | TenantMissing

  datatype Verdict = Rejected(reason: Refusal) | SessionOnly | Durable(coordinates: Coordinates)

  /** The part of verification that decides the coordinates of the key. */
  function VerifyCoordinates(u: Unicode, p: Profile, c: Claims): Verdict {
    if c.iss != Some(p.issuer) then Rejected(IssuerMismatch)
    else if c.sub.None? || !u.SubjectOk(c.sub.value) then Rejected(InvalidClaim)
    else if p.requiresTenant && (c.org.None? || !u.TenantOk(c.org.value)) then Rejected(TenantMissing)
    else if p.subjectType.Ephemeral? then SessionOnly
    else Durable(Coordinates(p.issuer, p.audience, p.subjectType.Name(), if p.requiresTenant then c.org
                             else None, c.sub.value))
  }

  ghost predicate Accepted(u: Unicode, k: Coordinates) {
    exists httpsUrl, p, c :: ProfileOk(u, httpsUrl, p) && VerifyCoordinates(u, p, c) == Durable(k)
  }

  predicate PairFree(k: Coordinates) {
    && !HasPair(k.issuer) && !HasPair(k.audience) && !HasPair(k.subjectType) && !HasPair(k.subject)
    && (k.tenant.Some? ==> !HasPair(k.tenant.value))
  }

  lemma {:induction false} PairFreeTuplesDiffer(version: Text, j: Coordinates, k: Coordinates)
    requires PairFree(j) && PairFree(k)
    ensures Canonical(version, j) == Canonical(version, k) <==> j == k
  {
    TextSeesUnits(version, j, k);
    ReadsBackExactly(j.issuer); ReadsBackExactly(k.issuer);
    ReadsBackExactly(j.audience); ReadsBackExactly(k.audience);
    ReadsBackExactly(j.subjectType); ReadsBackExactly(k.subjectType);
    ReadsBackExactly(j.subject); ReadsBackExactly(k.subject);
    if j.tenant.Some? { ReadsBackExactly(j.tenant.value); }
    if k.tenant.Some? { ReadsBackExactly(k.tenant.value); }
  }

  lemma AcceptedIsPairFree(u: Unicode, k: Coordinates)
    requires Accepted(u, k)
    ensures PairFree(k)
  {
    var httpsUrl, p, c :| ProfileOk(u, httpsUrl, p) && VerifyCoordinates(u, p, c) == Durable(k);
    assert u.Visible(k.subject) && u.Visible(k.audience);
    assert k.tenant.Some? ==> u.Visible(k.tenant.value);
  }

  /** Keys identify their coordinates: with a collision-free digest, two accepted
      tuples share a key only when they are the same tuple. */
  lemma {:induction false} KeysIdentifyCoordinates<D(!new)>(u: Unicode, digest: string -> D, j: Coordinates,
                                                            k: Coordinates)
    requires Accepted(u, j) && Accepted(u, k)
    requires forall x, y :: digest(x) == digest(y) ==> x == y
    ensures var version := Points("keyverse.subject-assertion/v1");
            digest(Canonical(version, j)) == digest(Canonical(version, k)) <==> j == k
  {
    AcceptedIsPairFree(u, j);
    AcceptedIsPairFree(u, k);
    PairFreeTuplesDiffer(Points("keyverse.subject-assertion/v1"), j, k);
  }

  // ---- Which assertions get a key, and which share one ----

  /** Within bounds, with no space at either end, and nothing invisible. */
  predicate Presentable(u: Unicode, s: Text, maximum: nat) {
    && 0 < |s| <= maximum && !u.space(s[0]) && !u.space(s[|s| - 1])
    && forall i :: 0 <= i < |s| ==> !IsSurrogate(s[i]) && !u.otherInvisible(s[i])
  }

  lemma StripShortens(u: Unicode, s: Text)
    ensures |u.Strip(s)| <= |s|
  {}

  lemma UnpaddedExactly(u: Unicode, s: Text)
    requires s != []
    ensures s == u.Strip(s) <==> !u.space(s[0]) && !u.space(s[|s| - 1])
  {
    if u.space(s[0]) {
      StripShortens(u, s[1..]);
    } else if u.space(s[|s| - 1]) {
      StripShortens(u, s[..|s| - 1]);
    }
  }

  lemma ChecksInPlainTerms(u: Unicode, s: Text, httpsUrl: Text -> bool)
    ensures u.IssuerOk(s, httpsUrl) <==> httpsUrl(s) && forall c :: c in s ==> !u.space(c) && !u.Invisible(c)
    ensures u.SubjectOk(s) <==> Presentable(u, s, 255)
    ensures u.AudienceOk(s) <==> Presentable(u, s, 255)
    ensures u.TenantOk(s) <==> Presentable(u, s, 128)
  {
    if s != [] { UnpaddedExactly(u, s); }
  }

  /** A presentable claim. */
  ghost predicate Given(u: Unicode, claim: Option<Text>, maximum: nat) {
    claim.Some? && Presentable(u, claim.value, maximum)
  }

  /** Each outcome exactly: the issuer must be the profile's, the subject and, if the
      profile asks for one, the tenant presentable; and only an ephemeral subject
      gets no key. */
  lemma OutcomeExactly(u: Unicode, p: Profile, c: Claims)
    ensures var v := VerifyCoordinates(u, p, c);
            var tenantOk := !p.requiresTenant || Given(u, c.org, 128);
            && (v == Rejected(IssuerMismatch) <==> c.iss != Some(p.issuer))
            && (v == Rejected(InvalidClaim) <==> c.iss == Some(p.issuer) && !Given(u, c.sub, 255))
            && (v == Rejected(TenantMissing) <==> c.iss == Some(p.issuer) && Given(u, c.sub, 255) && !tenantOk)
            && (v.SessionOnly? <==>
                 c.iss == Some(p.issuer) && Given(u, c.sub, 255) && tenantOk && p.subjectType == Ephemeral)
            && (v.Durable? <==>
                 c.iss == Some(p.issuer) && Given(u, c.sub, 255) && tenantOk && p.subjectType != Ephemeral)
  {
    if c.sub.Some? { ChecksInPlainTerms(u, c.sub.value, _ => true); }
    if c.org.Some? { ChecksInPlainTerms(u, c.org.value, _ => true); }
  }

  lemma NamesDiffer(a: SubjectType, b: SubjectType)
    ensures a.Name() == b.Name() <==> a == b
  {
    assert |Points("public")| == 6 && |Points("pairwise")| == 8 && |Points("ephemeral")| == 9;
  }

  /** The tenant an assertion is bound to. */
  function TenantOf(p: Profile, c: Claims): Option<Text> { if p.requiresTenant then c.org else None }

  /** Two durable assertions share a key, under a collision-free hash, exactly when
      they agree in issuer, audience, subject type and subject, and are bound to the
      same tenant or both to none. */
  lemma {:induction false} KeysIdentifyAssertions<D(!new)>(u: Unicode, httpsUrl: Text -> bool, digest: string -> D,
                                                           p: Profile, c: Claims, q: Profile, d: Claims)
    requires ProfileOk(u, httpsUrl, p) && ProfileOk(u, httpsUrl, q)
    requires VerifyCoordinates(u, p, c).Durable? && VerifyCoordinates(u, q, d).Durable?
    requires forall x, y :: digest(x) == digest(y) ==> x == y
    ensures var version := Points("keyverse.subject-assertion/v1");
            digest(Canonical(version, VerifyCoordinates(u, p, c).coordinates)) ==
            digest(Canonical(version, VerifyCoordinates(u, q, d).coordinates)) <==>
              && p.issuer == q.issuer && p.audience == q.audience && p.subjectType == q.subjectType && c.sub == d.sub
              && (if p.requiresTenant then q.requiresTenant && c.org == d.org else !q.requiresTenant)
  {
    var j, k := VerifyCoordinates(u, p, c).coordinates, VerifyCoordinates(u, q, d).coordinates;
    assert Accepted(u, j) && Accepted(u, k);
    KeysIdentifyCoordinates(u, digest, j, k);
    OutcomeExactly(u, p, c);
    OutcomeExactly(u, q, d);
    NamesDiffer(p.subjectType, q.subjectType);
    assert j.tenant == TenantOf(p, c) && k.tenant == TenantOf(q, d);
  }

  // ---- The text is JSON ----

  /** A hex digit of either case (section 7 of RFC 8259). */
  function ReadHex(c: char): Option<int> {
    if '0' <= c <= '9' then Some(c as int - '0' as int)
    else if 'a' <= c <= 'f' then Some(c as int - 'a' as int + 10)
    else if 'A' <= c <= 'F' then Some(c as int - 'A' as int + 10)
    else None
  }

  datatype Read = Read(unit: int, width: nat)

  /** The next code unit of a JSON string body, if there is one. */
  function ReadUnit(t: string): Option<Read> {
    if t == "" || t[0] == '"' || t[0] < ' ' then None
    else if t[0] != '\\' then Some(Read(t[0] as int, 1))
    else if |t| < 2 then None
    else if t[1] == '"' || t[1] == '\\' || t[1] == '/' then Some(Read(t[1] as int, 2))
    else if t[1] == 'b' then Some(Read(8, 2)) else if t[1] == 'f' then Some(Read(12, 2))
    else if t[1] == 'n' then Some(Read(10, 2)) else if t[1] == 'r' then Some(Read(13, 2))
    else if t[1] == 't' then Some(Read(9, 2))
    else if t[1] != 'u' || |t| < 6 then None
    else
      match (ReadHex(t[2]), ReadHex(t[3]), ReadHex(t[4]), ReadHex(t[5]))
      case (Some(a), Some(b), Some(c), Some(d)) => Some(Read(a * 4096 + b * 256 + c * 16 + d, 6))
      case _ => None
  }

  /** The code units of a string body and what follows its closing quote. */
  function ReadBody(t: string): Option<(seq<int>, string)> {
    if t != "" && t[0] == '"' then Some(([], t[1..]))
    else
      match ReadUnit(t)
      case None => None
      case Some(r) =>
        if r.width > |t| || r.width == 0 then None
        else
          match ReadBody(t[r.width..])
          case None => None
          case Some(more) => Some(([r.unit] + more.0, more.1))
  }

  lemma HexReads(v: int)
    requires 0 <= v < 16
    ensures ReadHex(HexDigit(v)) == Some(v)
  {}

  lemma UnitReads(u: CodeUnit, rest: string)
    ensures ReadUnit(EscapePoint(u) + rest) == Some(Read(u, |EscapePoint(u)|))
  {
    var e := EscapePoint(u);
    var t := e + rest;
    assert t[0] == e[0] && (|e| > 1 ==> t[1] == e[1]);
    if |e| == 6 {
      assert t[2] == e[2] && t[3] == e[3] && t[4] == e[4] && t[5] == e[5];
      HexReads(u / 4096); HexReads(u / 256 % 16); HexReads(u / 16 % 16); HexReads(u % 16);
      SumOfDigits(u);
    }
  }

  lemma {:induction false} UnitsReadAsJson(us: seq<CodeUnit>, rest: string)
    ensures ReadBody(EscapeUnits(us) + (['"'] + rest)) == Some((us, rest))
  {
    var t := EscapeUnits(us) + (['"'] + rest);
    FirstCharacter(us, rest);
    if us == [] {
      assert t[1..] == rest;
    } else {
      var e, more := EscapePoint(us[0]), EscapeUnits(us[1..]) + (['"'] + rest);
      UnitReads(us[0], more);
      assert t[|e|..] == more;
      UnitsReadAsJson(us[1..], rest);
      assert [us[0]] + us[1..] == us;
    }
  }

  /** A quoted text is the JSON string of its UTF-16 form. */
  lemma QuotedTextIsJson(s: Text, rest: string)
    ensures Quote(s) + rest == ['"'] + (Escape(s) + (['"'] + rest))
    ensures ReadBody(Escape(s) + (['"'] + rest)) == Some((Utf16(s), rest))
  {
    QuoteReassociates(Escape(s), rest);
    EscapeIsByUnit(s);
    UnitsReadAsJson(Utf16(s), rest);
  }

  /** The contract version is part of the text: keys of two versions never meet. */
  lemma VersionIsSeen(v: Text, w: Text, j: Coordinates, k: Coordinates)
    requires Canonical(v, j) == Canonical(w, k)
    ensures Utf16(v) == Utf16(w)
  {
    var x := [','] + (Quote(j.issuer) + ([','] + (Quote(j.audience) + ([','] + (Quote(j.subjectType)
             + ([','] + (TenantText(j.tenant) + ([','] + (Quote(j.subject) + [']'])))))))));
    var y := [','] + (Quote(k.issuer) + ([','] + (Quote(k.audience) + ([','] + (Quote(k.subjectType)
             + ([','] + (TenantText(k.tenant) + ([','] + (Quote(k.subject) + [']'])))))))));
    Cancel(['['], ['['], Quote(v) + x, Quote(w) + y);
    QuoteReadsBack(v, w, x, y);
  }

  /** Without the surrogate check two different subjects would share a text. */
  lemma LonePairWouldCollide(version: Text, k: Coordinates)
    requires k.subject == [0xD83D, 0xDE00]
    ensures Canonical(version, k) == Canonical(version, k.(subject := [0x1F600]))
  {
    FuseIsPair(0xD83D, 0xDE00);
    TextSeesUnits(version, k, k.(subject := [0x1F600]));
  }
}
