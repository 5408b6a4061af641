/** The staged distinguished-name check and the one-pass grammar it amounts to,
    in the style of section 3 of RFC 4514. */
module DistinguishedName {
  import opened Wrappers
  import opened Text
  import opened Splitting

  const BACKSLASH: char := '\\'

  predicate IsReserved(c: char) {
    c == ',' || c == '+' || c == '"' || c == BACKSLASH || c == '<' || c == '>' || c == ';' || c == '='
  }

  predicate IsEscapable(c: char) {
    c == ' ' || c == '"' || c == '#' || c == '+' || c == ',' || c == ';' || c == '<' || c == '=' || c == '>' ||
        c == BACKSLASH
  }

  // ---- The staged check ----

  /** Split the rest of the text, with `part` read since the last separator and
      `escaped` set when a backslash protects the next character. */
  function SplitFrom(part: string, s: string, sep: char, escaped: bool): (parts: seq<string>)
    ensures parts != []
    decreases |s|
  {
    if s == "" then [part]
    else if escaped then SplitFrom(part + [s[0]], s[1..], sep, false)
    else if s[0] == BACKSLASH then SplitFrom(part + [s[0]], s[1..], sep, true)
    else if s[0] == sep then [part] + SplitFrom("", s[1..], sep, false)
    else SplitFrom(part + [s[0]], s[1..], sep, false)
  }

  function Split(s: string, sep: char): (parts: seq<string>)
    ensures parts != []
  {
    SplitFrom("", s, sep, false)
  }

  datatype Pair = Pair(left: string, right: string)

  function SplitFirstFrom(part: string, s: string, sep: char, escaped: bool): Option<Pair>
    decreases |s|
  {
    if s == "" then None
    else if escaped then SplitFirstFrom(part + [s[0]], s[1..], sep, false)
    else if s[0] == BACKSLASH then SplitFirstFrom(part + [s[0]], s[1..], sep, true)
    else if s[0] == sep then Some(Pair(part, s[1..]))
    else SplitFirstFrom(part + [s[0]], s[1..], sep, false)
  }

  /** Split at the first unprotected separator. */
  function SplitFirst(s: string, sep: char): Option<Pair> {
    SplitFirstFrom("", s, sep, false)
  }

  predicate IsAlpha(c: char) { 'a' <= c <= 'z' || 'A' <= c <= 'Z' }
  predicate IsDigit(c: char) { '0' <= c <= '9' }

  predicate IsDescriptor(s: string) {
    s != "" && IsAlpha(s[0]) && forall i :: 0 <= i < |s| ==> IsAlpha(s[i]) || IsDigit(s[i]) || s[i] == '-'
  }

  /** Digits and single dots, a digit at either end. */
  predicate Dotted(s: string) {
    && s != "" && IsDigit(s[0]) && IsDigit(s[|s| - 1])
    && (forall i :: 0 <= i < |s| ==> IsDigit(s[i]) || s[i] == '.')
    && (forall i :: 0 <= i < |s| - 1 ==> !(s[i] == '.' && s[i + 1] == '.'))
  }

  predicate IsNumericOid(s: string) { Dotted(s) && '.' in s }

  predicate IsLdapIdentifier(s: string) {
    |s| <= 128 && (IsDescriptor(s) || IsNumericOid(s))
  }

  /** The value scanner: an escape is three characters wide before two hex
      digits, otherwise two. */
  predicate Scan(v: string) {
    if v == "" then true
    else if v[0] == BACKSLASH then
      if |v| < 2 then false
      else if |v| >= 3 && IsHex(v[1]) && IsHex(v[2]) then Scan(v[3..])
      else IsEscapable(v[1]) && Scan(v[2..])
    else !IsReserved(v[0]) && Scan(v[1..])
  }

  /** How many backslashes the text ends with. */
  function TrailingBackslashes(s: string): nat {
    if s != "" && s[|s| - 1] == BACKSLASH then 1 + TrailingBackslashes(s[..|s| - 1]) else 0
  }

  /** The shortcut: a final space, and an even run of backslashes before it. */
  predicate EndsInBareSpace(v: string) {
    v != "" && v[|v| - 1] == ' ' && TrailingBackslashes(v[..|v| - 1]) % 2 == 0
  }

  predicate HexDigits(s: string) {
    s != "" && |s| % 2 == 0 && forall i :: 0 <= i < |s| ==> IsHex(s[i])
  }

  predicate DnValueOk(v: string) {
    && v != ""
    && (if v[0] == '#' then HexDigits(v[1..])
        else
          && v[0] != ' '
          && !EndsInBareSpace(v)
          && Scan(v))
  }

  predicate AvaOk(a: string) {
    && a != ""
    && SplitFirst(a, '=').Some?
    && IsLdapIdentifier(SplitFirst(a, '=').value.left)
    && DnValueOk(SplitFirst(a, '=').value.right)
  }

  predicate RdnOk(rdn: string) {
    rdn != "" && forall i :: 0 <= i < |Split(rdn, '+')| ==> AvaOk(Split(rdn, '+')[i])
  }

  predicate Bounded(s: string) {
    s != "" && |s| <= 4096 && forall i :: 0 <= i < |s| ==> !IsControl(s[i])
  }

  predicate DnOk(s: string) {
    Bounded(s) && forall i :: 0 <= i < |Split(s, ',')| ==> RdnOk(Split(s, ',')[i])
  }

  // ---- The same check as the source runs it ----

  method SplitUnescaped(value: string, sep: char) returns (parts: seq<string>)
    ensures parts == Split(value, sep)
  {
    parts := [];
    var start := 0;
    var escaped := false;
    for index := 0 to |value|
      invariant start <= index
      invariant Split(value, sep) == parts + SplitFrom(value[start..index], value[index..], sep, escaped)
    {
      var character := value[index];
      assert value[index..][0] == character && value[index..][1..] == value[index + 1..];
      assert value[start..index] + [character] == value[start..index + 1];
      if escaped {
        escaped := false;
        continue;
      }
      if character == BACKSLASH {
        escaped := true;
        continue;
      }
      if character == sep {
        parts := parts + [value[start..index]];
        start := index + 1;
        assert value[start..index + 1] == "";
      }
    }
    assert value[start..|value|] == value[start..] && value[|value|..] == "";
    parts := parts + [value[start..]];
  }

  method SplitFirstUnescaped(value: string, sep: char) returns (r: Option<Pair>)
    ensures r == SplitFirst(value, sep)
  {
    var escaped := false;
    for index := 0 to |value|
      invariant SplitFirst(value, sep) == SplitFirstFrom(value[..index], value[index..], sep, escaped)
    {
      var character := value[index];
      assert value[index..][0] == character && value[index..][1..] == value[index + 1..];
      assert value[..index] + [character] == value[..index + 1];
      if escaped {
        escaped := false;
        continue;
      }
      if character == BACKSLASH {
        escaped := true;
        continue;
      }
      if character == sep {
        return Some(Pair(value[..index], value[index + 1..]));
      }
    }
    return None;
  }

  method ValidateDnValue(value: string) returns (ok: bool)
    ensures ok == DnValueOk(value)
  {
    if value == "" { return false; }
    if value[0] == '#' { return HexDigits(value[1..]); }
    if value[0] == ' ' { return false; }
    if value[|value| - 1] == ' ' && TrailingBackslashes(value[..|value| - 1]) % 2 == 0 { return false; }
    var index := 0;
    while index < |value|
      invariant 0 <= index <= |value|
      invariant Scan(value) == Scan(value[index..])
    {
      ghost var rest := value[index..];
      assert rest[1..] == value[index + 1..];
      if value[index] == BACKSLASH {
        if index + 1 >= |value| { return false; }
        assert rest[1] == value[index + 1] && rest[2..] == value[index + 2..];
        if index + 2 < |value| && IsHex(value[index + 1]) && IsHex(value[index + 2]) {
          assert rest[2] == value[index + 2] && rest[3..] == value[index + 3..];
          index := index + 3;
          continue;
        }
        if !IsEscapable(value[index + 1]) { return false; }
        index := index + 2;
        continue;
      }
      if IsReserved(value[index]) { return false; }
      index := index + 1;
    }
    return true;
  }

  method ValidateDistinguishedName(value: string) returns (ok: bool)
    ensures ok == DnOk(value)
  {
    if !Bounded(value) { return false; }
    var rdns := SplitUnescaped(value, ',');
    if "" in rdns { return false; }
    for i := 0 to |rdns|
      invariant forall j :: 0 <= j < i ==> RdnOk(rdns[j])
    {
      var attributes := SplitUnescaped(rdns[i], '+');
      if "" in attributes { return false; }
      for j := 0 to |attributes|
        invariant forall k :: 0 <= k < j ==> AvaOk(attributes[k])
      {
        var split := SplitFirstUnescaped(attributes[j], '=');
        if split.None? || !IsLdapIdentifier(split.value.left) { return false; }
        var valid := ValidateDnValue(split.value.right);
        if !valid { return false; }
      }
    }
    return true;
  }

  // ---- The grammar ----

  /** One unit of an attribute value. */
  datatype Token = Plain(c: char) | Escaped(c: char) | HexPair(high: char, low: char)

  datatype Value = HexString(digits: string) | Tokens(tokens: seq<Token>)

  /** One attribute type and value; an RDN is a `+`-list of these, a DN a `,`-list
      of RDNs. */
  datatype Ava = Ava(attribute: string, value: Value)

  type Rdn = seq<Ava>
  type Dn = seq<Rdn>

  predicate TokenOk(t: Token) {
    match t
    case Plain(c) => !IsReserved(c)
    case Escaped(c) => IsEscapable(c)
    case HexPair(high, low) => IsHex(high) && IsHex(low)
  }

  predicate TokensOk(ts: seq<Token>) {
    forall i :: 0 <= i < |ts| ==> TokenOk(ts[i])
  }

  predicate ValueOk(v: Value) {
    match v
    case HexString(digits) => HexDigits(digits)
    case Tokens(ts) =>
        ts != [] && TokensOk(ts) && ts[0] != Plain(' ') && ts[0] != Plain('#') && ts[|ts| - 1] != Plain(' ')
  }

  predicate AvaWellFormed(a: Ava) { IsLdapIdentifier(a.attribute) && ValueOk(a.value) }

  predicate RdnWellFormed(r: Rdn) { r != [] && forall i :: 0 <= i < |r| ==> AvaWellFormed(r[i]) }

  predicate DnWellFormed(d: Dn) { d != [] && forall i :: 0 <= i < |d| ==> RdnWellFormed(d[i]) }

  function RenderToken(t: Token): string {
    match t
    case Plain(c) => [c]
    case Escaped(c) => [BACKSLASH, c]
    case HexPair(high, low) => [BACKSLASH, high, low]
  }

  function RenderTokens(ts: seq<Token>): string {
    if ts == [] then "" else RenderToken(ts[0]) + RenderTokens(ts[1..])
  }

  function RenderValue(v: Value): string {
    match v
    case HexString(digits) => "#" + digits
    case Tokens(ts) => RenderTokens(ts)
  }

  function RenderAva(a: Ava): string { a.attribute + "=" + RenderValue(a.value) }

  function RenderRdn(r: Rdn): string { JoinWith(seq(|r|, i requires 0 <= i < |r| => RenderAva(r[i])), '+') }

  function RenderDn(d: Dn): string { JoinWith(seq(|d|, i requires 0 <= i < |d| => RenderRdn(d[i])), ',') }

  // ---- Splitting and joining ----

  /** Joining the split parts restores the input, for every input. */
  lemma {:induction false} JoinSplit(part: string, s: string, sep: char, escaped: bool)
    ensures JoinWith(SplitFrom(part, s, sep, escaped), sep) == part + s
    decreases |s|
  {
    if s != "" {
      assert s == [s[0]] + s[1..];
      if !escaped && s[0] != BACKSLASH && s[0] == sep {
        JoinSplit("", s[1..], sep, false);
        JoinCons(part, SplitFrom("", s[1..], sep, false), sep);
        Reassociate(part, [sep], s[1..]);
        assert "" + s[1..] == s[1..];
      } else {
        JoinSplit(part + [s[0]], s[1..], sep, !escaped && s[0] == BACKSLASH);
        Reassociate(part, [s[0]], s[1..]);
      }
    }
  }

  /** No separator stands unprotected in the text, and its last backslash protects
      something. */
  predicate Closed(s: string, sep: char, escaped: bool) {
    if s == "" then !escaped
    else if escaped then Closed(s[1..], sep, false)
    else if s[0] == BACKSLASH then Closed(s[1..], sep, true)
    else s[0] != sep && Closed(s[1..], sep, false)
  }

  lemma {:induction false} ClosedConcat(a: string, b: string, sep: char, escaped: bool)
    requires Closed(a, sep, escaped) && Closed(b, sep, false)
    ensures Closed(a + b, sep, escaped)
    decreases |a|
  {
    if a == "" {
      assert a + b == b;
    } else {
      assert (a + b)[1..] == a[1..] + b;
      ClosedConcat(a[1..], b, sep, !escaped && a[0] == BACKSLASH);
    }
  }

  lemma {:induction false} SplitClosed(part: string, p: string, rest: string, sep: char, escaped: bool)
    requires Closed(p, sep, escaped) && sep != BACKSLASH
    ensures SplitFrom(part, p, sep, escaped) == [part + p]
    ensures SplitFrom(part, p + [sep] + rest, sep, escaped) == [part + p] + SplitFrom("", rest, sep, false)
    decreases |p|
  {
    var whole := p + [sep] + rest;
    if p == "" {
      assert whole[0] == sep && whole[1..] == rest && part + p == part;
    } else {
      assert whole[0] == p[0] && whole[1..] == p[1..] + [sep] + rest;
      assert part + [p[0]] + p[1..] == part + p;
      SplitClosed(part + [p[0]], p[1..], rest, sep, !escaped && p[0] == BACKSLASH);
    }
  }

  /** Splitting undoes joining on parts without unprotected separators. */
  lemma {:induction false} SplitJoin(parts: seq<string>, sep: char)
    requires parts != [] && sep != BACKSLASH && forall i :: 0 <= i < |parts| ==> Closed(parts[i], sep, false)
    ensures Split(JoinWith(parts, sep), sep) == parts
  {
    assert "" + parts[0] == parts[0];
    if |parts| == 1 {
      SplitClosed("", parts[0], "", sep, false);
    } else {
      SplitClosed("", parts[0], JoinWith(parts[1..], sep), sep, false);
      SplitJoin(parts[1..], sep);
    }
  }

  lemma {:induction false} ClosedJoin(parts: seq<string>, inner: char, sep: char)
    requires inner != sep && inner != BACKSLASH && forall i :: 0 <= i < |parts| ==> Closed(parts[i], sep, false)
    ensures Closed(JoinWith(parts, inner), sep, false)
  {
    if |parts| > 1 {
      ClosedJoin(parts[1..], inner, sep);
      assert Closed([inner], sep, false) by { assert [inner][1..] == ""; }
      ClosedConcat(parts[0], [inner], sep, false);
      ClosedConcat(parts[0] + [inner], JoinWith(parts[1..], inner), sep, false);
    }
  }

  // ---- Values: the scanner and the tokens ----

  lemma TokenFirst(t: Token, rest: string)
    requires TokenOk(t)
    ensures Scan(RenderToken(t) + rest) == Scan(rest)
  {
    var v := RenderToken(t) + rest;
    match t {
      case Plain(c) => assert v[1..] == rest;
      case Escaped(c) => assert v[2..] == rest;
      case HexPair(high, low) => assert v[3..] == rest;
    }
  }

  lemma {:induction false} TokensScan(ts: seq<Token>)
    requires TokensOk(ts)
    ensures Scan(RenderTokens(ts))
  {
    if ts != [] {
      TokensScan(ts[1..]);
      TokenFirst(ts[0], RenderTokens(ts[1..]));
    }
  }

  /** The tokens of scanned text. */
  function Tokenize(v: string): seq<Token>
    requires Scan(v)
  {
    if v == "" then []
    else if v[0] == BACKSLASH then
      if |v| >= 3 && IsHex(v[1]) && IsHex(v[2]) then [HexPair(v[1], v[2])] + Tokenize(v[3..])
      else [Escaped(v[1])] + Tokenize(v[2..])
    else [Plain(v[0])] + Tokenize(v[1..])
  }

  /** Scanned text is its first token and scanned text again. */
  lemma FirstOf(v: string) returns (t: Token, rest: string)
    requires Scan(v) && v != ""
    ensures Scan(rest) && |rest| < |v| && TokenOk(t) && RenderToken(t) + rest == v &&
            Tokenize(v) == [t] + Tokenize(rest)
  {
    if v[0] != BACKSLASH {
      t, rest := Plain(v[0]), v[1..];
    } else if |v| >= 3 && IsHex(v[1]) && IsHex(v[2]) {
      t, rest := HexPair(v[1], v[2]), v[3..];
    } else {
      t, rest := Escaped(v[1]), v[2..];
    }
  }

  lemma RenderCons(t: Token, ts: seq<Token>)
    ensures RenderTokens([t] + ts) == RenderToken(t) + RenderTokens(ts)
    ensures TokenOk(t) && TokensOk(ts) ==> TokensOk([t] + ts)
  {
    assert ([t] + ts)[1..] == ts;
  }

  lemma {:induction false} TokenizeRenders(v: string)
    requires Scan(v)
    ensures TokensOk(Tokenize(v)) && RenderTokens(Tokenize(v)) == v
  {
    if v != "" {
      var t, rest := FirstOf(v);
      TokenizeRenders(rest);
      RenderCons(t, Tokenize(rest));
    }
  }

  lemma {:induction false} RenderSnoc(ts: seq<Token>, t: Token)
    ensures RenderTokens(ts + [t]) == RenderTokens(ts) + RenderToken(t)
  {
    if ts == [] {
      assert [t][1..] == [] && RenderTokens([t]) == RenderToken(t) + "";
    } else {
      assert (ts + [t])[1..] == ts[1..] + [t];
      RenderSnoc(ts[1..], t);
    }
  }

  /** One more character extends the final run of backslashes or ends it. */
  lemma RunAfter(s: string, c: char)
    ensures TrailingBackslashes(s + [c]) == if c == BACKSLASH then 1 + TrailingBackslashes(s) else 0
  {
    assert (s + [c])[..|s|] == s;
  }

  lemma BareSpaceAfter(s: string, c: char)
    ensures EndsInBareSpace(s + [c]) <==> c == ' ' && TrailingBackslashes(s) % 2 == 0
  {
    assert (s + [c])[..|s|] == s;
  }

  lemma PlainAtEnd(s: string, c: char)
    requires c != BACKSLASH && TrailingBackslashes(s) % 2 == 0
    ensures TrailingBackslashes(s + [c]) % 2 == 0 && (EndsInBareSpace(s + [c]) <==> c == ' ')
  {
    RunAfter(s, c);
    BareSpaceAfter(s, c);
  }

  lemma EscapedAtEnd(s: string, c: char)
    requires TrailingBackslashes(s) % 2 == 0
    ensures TrailingBackslashes(s + [BACKSLASH] + [c]) % 2 == 0 && !EndsInBareSpace(s + [BACKSLASH] + [c])
  {
    RunAfter(s, BACKSLASH);
    RunAfter(s + [BACKSLASH], c);
    BareSpaceAfter(s + [BACKSLASH], c);
  }

  lemma HexPairAtEnd(s: string, c: char)
    requires IsHex(c)
    ensures TrailingBackslashes(s + [c]) % 2 == 0 && !EndsInBareSpace(s + [c])
  {
    RunAfter(s, c);
    BareSpaceAfter(s, c);
  }

  /** A token keeps the run of backslashes even, and leaves a bare space at the
      end only when it is one. */
  lemma TokenAtEnd(prefix: string, t: Token, v: string)
    requires TokenOk(t) && TrailingBackslashes(prefix) % 2 == 0 && v == prefix + RenderToken(t)
    ensures v != "" && TrailingBackslashes(v) % 2 == 0 && (EndsInBareSpace(v) <==> t == Plain(' '))
  {
    match t {
      case Plain(c) => PlainAtEnd(prefix, c);
      case Escaped(c) =>
        EscapedAtEnd(prefix, c);
        assert v == prefix + [BACKSLASH] + [c];
      case HexPair(high, low) =>
        HexPairAtEnd(prefix + [BACKSLASH, high], low);
        assert v == prefix + [BACKSLASH, high] + [low];
    }
  }

  /** Complete tokens end in an even run of backslashes, whatever their widths:
      this is why counting them tells whether a final space is escaped. */
  lemma {:induction false} EvenBackslashes(ts: seq<Token>)
    requires TokensOk(ts)
    ensures TrailingBackslashes(RenderTokens(ts)) % 2 == 0
  {
    if ts != [] {
      var init, last := ts[..|ts| - 1], ts[|ts| - 1];
      assert ts == init + [last];
      RenderSnoc(init, last);
      EvenBackslashes(init);
      TokenAtEnd(RenderTokens(init), last, RenderTokens(ts));
    }
  }

  /** The parity shortcut decides whether the last token is a bare space. */
  lemma {:induction false} TrailingSpaceTest(ts: seq<Token>)
    requires TokensOk(ts) && ts != []
    ensures RenderTokens(ts) != "" && (EndsInBareSpace(RenderTokens(ts)) <==> ts[|ts| - 1] == Plain(' '))
  {
    var init, last := ts[..|ts| - 1], ts[|ts| - 1];
    assert ts == init + [last];
    RenderSnoc(init, last);
    EvenBackslashes(init);
    TokenAtEnd(RenderTokens(init), last, RenderTokens(ts));
  }

  lemma FirstToken(ts: seq<Token>)
    requires TokensOk(ts) && ts != []
    ensures RenderTokens(ts) != ""
    ensures RenderTokens(ts)[0] == ' ' <==> ts[0] == Plain(' ')
    ensures RenderTokens(ts)[0] == '#' <==> ts[0] == Plain('#')
  {
  }

  /** A rendered well-formed value passes the value check. */
  lemma RenderedValueOk(v: Value)
    requires ValueOk(v)
    ensures DnValueOk(RenderValue(v))
  {
    match v {
      case HexString(digits) => assert ("#" + digits)[1..] == digits;
      case Tokens(ts) =>
        FirstToken(ts);
        TokensScan(ts);
        TrailingSpaceTest(ts);
    }
  }

  function ParseValue(v: string): Value
    requires DnValueOk(v)
  {
    if v[0] == '#' then HexString(v[1..]) else Tokens(Tokenize(v))
  }

  /** Text that passes the value check is a rendered well-formed value. */
  lemma ParsedValueOk(v: string)
    requires DnValueOk(v)
    ensures ValueOk(ParseValue(v)) && RenderValue(ParseValue(v)) == v
  {
    if v[0] == '#' {
      assert v == "#" + v[1..];
    } else {
      TokenizeRenders(v);
      FirstToken(Tokenize(v));
      TrailingSpaceTest(Tokenize(v));
    }
  }

  // ---- Attributes ----

  lemma {:induction false} PlainTextClosed(s: string, sep: char)
    requires forall i :: 0 <= i < |s| ==> s[i] != sep && s[i] != BACKSLASH
    ensures Closed(s, sep, false)
  {
    if s != "" { PlainTextClosed(s[1..], sep); }
  }

  lemma IdentifierIsPlain(s: string)
    requires IsLdapIdentifier(s)
    ensures s != "" && forall i :: 0 <= i < |s| ==> IsAlpha(s[i]) || IsDigit(s[i]) || s[i] == '-' || s[i] == '.'
  {
  }

  lemma TokenClosed(t: Token, sep: char)
    requires TokenOk(t) && (sep == ',' || sep == '+')
    ensures Closed(RenderToken(t), sep, false)
  {
    var v := RenderToken(t);
    match t {
      case Plain(c) => assert v[1..] == "";
      case Escaped(c) => assert v[1..] == [c] && v[1..][1..] == "";
      case HexPair(high, low) =>
        assert [low][1..] == "" && Closed([low], sep, false);
        assert [high, low][1..] == [low] && Closed([high, low], sep, true);
        assert v[1..] == [high, low];
    }
  }

  lemma {:induction false} TokensClosed(ts: seq<Token>, sep: char)
    requires TokensOk(ts) && (sep == ',' || sep == '+')
    ensures Closed(RenderTokens(ts), sep, false)
  {
    if ts != [] {
      TokenClosed(ts[0], sep);
      TokensClosed(ts[1..], sep);
      ClosedConcat(RenderToken(ts[0]), RenderTokens(ts[1..]), sep, false);
    }
  }

  /** A well-formed attribute never shows a separator of an outer stage. */
  lemma AvaClosed(a: Ava, sep: char)
    requires AvaWellFormed(a) && (sep == ',' || sep == '+')
    ensures Closed(RenderAva(a), sep, false)
  {
    IdentifierIsPlain(a.attribute);
    PlainTextClosed(a.attribute + "=", sep);
    match a.value {
      case HexString(digits) => PlainTextClosed("#" + digits, sep);
      case Tokens(ts) => TokensClosed(ts, sep);
    }
    ClosedConcat(a.attribute + "=", RenderValue(a.value), sep, false);
  }

  lemma {:induction false} SplitFirstJoins(part: string, s: string, sep: char, escaped: bool)
    ensures SplitFirstFrom(part, s, sep, escaped).Some? ==>
              var p := SplitFirstFrom(part, s, sep, escaped).value; part + s == p.left + [sep] + p.right
    decreases |s|
  {
    if s != "" {
      assert s == [s[0]] + s[1..];
      assert part + s == (part + [s[0]]) + s[1..];
      SplitFirstJoins(part + [s[0]], s[1..], sep, !escaped && s[0] == BACKSLASH);
    }
  }

  lemma {:induction false} SplitFirstAt(part: string, left: string, right: string, sep: char)
    requires sep != BACKSLASH && forall i :: 0 <= i < |left| ==> left[i] != sep && left[i] != BACKSLASH
    ensures SplitFirstFrom(part, left + [sep] + right, sep, false) == Some(Pair(part + left, right))
    decreases |left|
  {
    var whole := left + [sep] + right;
    if left == "" {
      assert whole[0] == sep && whole[1..] == right && part + left == part;
    } else {
      assert whole[0] == left[0] && whole[1..] == left[1..] + [sep] + right;
      SplitFirstAt(part + [left[0]], left[1..], right, sep);
      assert part + [left[0]] + left[1..] == part + left;
    }
  }

  lemma RenderedAvaOk(a: Ava)
    requires AvaWellFormed(a)
    ensures AvaOk(RenderAva(a))
  {
    IdentifierIsPlain(a.attribute);
    SplitFirstAt("", a.attribute, RenderValue(a.value), '=');
    assert "" + a.attribute == a.attribute;
    RenderedValueOk(a.value);
  }

  function ParseAva(a: string): Ava
    requires AvaOk(a)
  {
    var p := SplitFirst(a, '=').value;
    Ava(p.left, ParseValue(p.right))
  }

  lemma ParsedAvaOk(a: string)
    requires AvaOk(a)
    ensures AvaWellFormed(ParseAva(a)) && RenderAva(ParseAva(a)) == a
  {
    SplitFirstJoins("", a, '=', false);
    assert "" + a == a;
    ParsedValueOk(SplitFirst(a, '=').value.right);
  }

  // ---- RDNs and whole names ----

  lemma RenderedRdnOk(r: Rdn)
    requires RdnWellFormed(r)
    ensures RdnOk(RenderRdn(r)) && Closed(RenderRdn(r), ',', false)
  {
    var parts := seq(|r|, i requires 0 <= i < |r| => RenderAva(r[i]));
    forall i | 0 <= i < |parts|
      ensures Closed(parts[i], '+', false) && Closed(parts[i], ',', false) && AvaOk(parts[i]) {
      AvaClosed(r[i], '+');
      AvaClosed(r[i], ',');
      RenderedAvaOk(r[i]);
    }
    SplitJoin(parts, '+');
    ClosedJoin(parts, '+', ',');
    assert parts[0] != "";
  }

  function ParseRdn(rdn: string): Rdn
    requires RdnOk(rdn)
  {
    var parts := Split(rdn, '+');
    seq(|parts|, i requires 0 <= i < |parts| => ParseAva(parts[i]))
  }

  lemma ParsedRdnOk(rdn: string)
    requires RdnOk(rdn)
    ensures RdnWellFormed(ParseRdn(rdn)) && RenderRdn(ParseRdn(rdn)) == rdn
  {
    var parts, r := Split(rdn, '+'), ParseRdn(rdn);
    forall i | 0 <= i < |parts| ensures AvaWellFormed(r[i]) && RenderAva(r[i]) == parts[i] { ParsedAvaOk(parts[i]); }
    assert seq(|r|, i requires 0 <= i < |r| => RenderAva(r[i])) == parts;
    JoinSplit("", rdn, '+', false);
    assert "" + rdn == rdn;
  }

  function ParseDn(s: string): Dn
    requires DnOk(s)
  {
    var parts := Split(s, ',');
    seq(|parts|, i requires 0 <= i < |parts| => ParseRdn(parts[i]))
  }

  lemma ParsedDnOk(s: string)
    requires DnOk(s)
    ensures DnWellFormed(ParseDn(s)) && RenderDn(ParseDn(s)) == s
  {
    var parts, d := Split(s, ','), ParseDn(s);
    forall i | 0 <= i < |parts| ensures RdnWellFormed(d[i]) && RenderRdn(d[i]) == parts[i] { ParsedRdnOk(parts[i]); }
    assert seq(|d|, i requires 0 <= i < |d| => RenderRdn(d[i])) == parts;
    JoinSplit("", s, ',', false);
    assert "" + s == s;
  }

  lemma RenderedDnOk(d: Dn)
    requires DnWellFormed(d) && Bounded(RenderDn(d))
    ensures DnOk(RenderDn(d))
  {
    var parts := seq(|d|, i requires 0 <= i < |d| => RenderRdn(d[i]));
    forall i | 0 <= i < |parts| ensures Closed(parts[i], ',', false) && RdnOk(parts[i]) { RenderedRdnOk(d[i]); }
    SplitJoin(parts, ',');
  }

  /** The staged check accepts exactly the bounded strings of the grammar. */
  lemma {:induction false} AcceptsExactlyTheGrammar(s: string)
    ensures DnOk(s) <==> Bounded(s) && exists d: Dn :: DnWellFormed(d) && RenderDn(d) == s
  {
    if DnOk(s) {
      ParsedDnOk(s);
    }
    forall d: Dn | DnWellFormed(d) && RenderDn(d) == s && Bounded(s) ensures DnOk(s) {
      RenderedDnOk(d);
    }
  }

  // ---- One reading per name ----

  lemma TokenReadsBack(t: Token, rest: string)
    requires TokenOk(t) && Scan(rest)
    ensures Scan(RenderToken(t) + rest) && Tokenize(RenderToken(t) + rest) == [t] + Tokenize(rest)
  {
    var v := RenderToken(t) + rest;
    TokenFirst(t, rest);
    match t {
      case Plain(c) => assert v[1..] == rest;
      case Escaped(c) => assert v[2..] == rest;
      case HexPair(high, low) => assert v[3..] == rest;
    }
  }

  lemma {:induction false} TokensReadBack(ts: seq<Token>)
    requires TokensOk(ts)
    ensures Scan(RenderTokens(ts)) && Tokenize(RenderTokens(ts)) == ts
  {
    if ts != [] {
      TokensReadBack(ts[1..]);
      TokenReadsBack(ts[0], RenderTokens(ts[1..]));
      assert ts == [ts[0]] + ts[1..];
    }
  }

  lemma ValueReadsBack(v: Value)
    requires ValueOk(v)
    ensures DnValueOk(RenderValue(v)) && ParseValue(RenderValue(v)) == v
  {
    RenderedValueOk(v);
    match v {
      case HexString(digits) => assert ("#" + digits)[1..] == digits;
      case Tokens(ts) =>
        FirstToken(ts);
        TokensReadBack(ts);
    }
  }

  lemma AvaReadsBack(a: Ava)
    requires AvaWellFormed(a)
    ensures AvaOk(RenderAva(a)) && ParseAva(RenderAva(a)) == a
  {
    RenderedAvaOk(a);
    IdentifierIsPlain(a.attribute);
    SplitFirstAt("", a.attribute, RenderValue(a.value), '=');
    assert "" + a.attribute == a.attribute;
    ValueReadsBack(a.value);
  }

  lemma RdnReadsBack(r: Rdn)
    requires RdnWellFormed(r)
    ensures RdnOk(RenderRdn(r)) && ParseRdn(RenderRdn(r)) == r
  {
    var parts := seq(|r|, i requires 0 <= i < |r| => RenderAva(r[i]));
    RenderedRdnOk(r);
    forall i | 0 <= i < |parts| ensures Closed(parts[i], '+', false) { AvaClosed(r[i], '+'); }
    SplitJoin(parts, '+');
    forall i | 0 <= i < |parts| ensures AvaOk(parts[i]) && ParseAva(parts[i]) == r[i] { AvaReadsBack(r[i]); }
  }

  /** Every well-formed name is read back from its text ... */
  lemma {:induction false} NameReadsBack(d: Dn)
    requires DnWellFormed(d) && Bounded(RenderDn(d))
    ensures DnOk(RenderDn(d)) && ParseDn(RenderDn(d)) == d
  {
    var parts := seq(|d|, i requires 0 <= i < |d| => RenderRdn(d[i]));
    RenderedDnOk(d);
    forall i | 0 <= i < |parts| ensures Closed(parts[i], ',', false) { RenderedRdnOk(d[i]); }
    SplitJoin(parts, ',');
    forall i | 0 <= i < |parts| ensures RdnOk(parts[i]) && ParseRdn(parts[i]) == d[i] { RdnReadsBack(d[i]); }
  }

  /** ... so each accepted text has one reading: no two stages can disagree on it. */
  lemma {:induction false} OneReadingPerName(s: string, d: Dn)
    requires DnOk(s)
    ensures DnWellFormed(d) && RenderDn(d) == s <==> d == ParseDn(s)
  {
    ParsedDnOk(s);
    if DnWellFormed(d) && RenderDn(d) == s { NameReadsBack(d); }
  }

  // ---- The characters (section 2.4 of RFC 4514, section 1.4 of RFC 4512) ----

  const LETTERS: string := "abcdefghijklmnopqrstuvwxyz" + "ABCDEFGHIJKLMNOPQRSTUVWXYZ"
  const DIGITS: string := "0123456789"

  lemma LetterExactly(c: char)
    ensures IsAlpha(c) <==> c in LETTERS
  {
    if 'a' <= c <= 'z' { assert LETTERS[c as int - 'a' as int] == c; }
    if 'A' <= c <= 'Z' { assert LETTERS[26 + c as int - 'A' as int] == c; }
    if i :| 0 <= i < |LETTERS| && LETTERS[i] == c { assert IsAlpha(LETTERS[i]); }
  }

  lemma DigitExactly(c: char)
    ensures IsDigit(c) <==> c in DIGITS
  {
    if IsDigit(c) { assert DIGITS[c as int - '0' as int] == c; }
  }

  lemma SpecialExactly(c: char)
    ensures IsReserved(c) <==> c in ",+\"\\<>;="
    ensures IsEscapable(c) <==> IsReserved(c) || c in " #"
  {}

  /** An attribute type is a letter with letters, digits and hyphens behind it, or two
      or more numbers joined by dots; 128 characters at most. */
  lemma IdentifierExactly(s: string)
    ensures IsLdapIdentifier(s) <==>
            && |s| <= 128
            && (|| (s != "" && s[0] in LETTERS && forall c :: c in s ==> c in LETTERS || c in DIGITS || c == '-')
                || exists arcs :: |arcs| >= 2 && AllArcs(arcs) && s == JoinWith(arcs, '.'))
  {
    OidIsDottedArcs(s);
    forall c: char ensures (IsAlpha(c) <==> c in LETTERS) && (IsDigit(c) <==> c in DIGITS) {
      LetterExactly(c);
      DigitExactly(c);
    }
  }

  // ---- Numeric object identifiers (section 1.4 of RFC 4512) ----

  predicate IsArc(s: string) { s != "" && forall i :: 0 <= i < |s| ==> IsDigit(s[i]) }

  ghost predicate AllArcs(arcs: seq<string>) { forall i :: 0 <= i < |arcs| ==> IsArc(arcs[i]) }

  /** The character-wise test accepts exactly two or more numbers joined by dots. */
  lemma OidIsDottedArcs(s: string)
    ensures IsNumericOid(s) <==> exists arcs :: |arcs| >= 2 && AllArcs(arcs) && s == JoinWith(arcs, '.')
  {
    if IsNumericOid(s) {
      var arcs := SplitOn(s, '.');
      SplitIntoArcs(s);
      JoinUndoesSplit(s, '.');
      assert |arcs| != 1;
    }
    if arcs :| |arcs| >= 2 && AllArcs(arcs) && s == JoinWith(arcs, '.') {
      JoinIsDotted(arcs);
      assert s[|arcs[0]|] == '.';
    }
  }

  lemma {:induction false} SplitIntoArcs(s: string)
    requires Dotted(s)
    ensures AllArcs(SplitOn(s, '.'))
    decreases |s|
  {
    var rest := SplitOn(s[1..], '.');
    if |s| > 1 && s[1] == '.' {
      assert s[2] != '.';
      SplitIntoArcs(s[2..]);
      assert s[1..][1..] == s[2..];
    } else if |s| > 1 {
      SplitIntoArcs(s[1..]);
    }
  }

  lemma {:induction false} JoinIsDotted(arcs: seq<string>)
    requires arcs != [] && AllArcs(arcs)
    ensures Dotted(JoinWith(arcs, '.'))
  {
    if |arcs| > 1 {
      JoinIsDotted(arcs[1..]);
      ArcBefore(arcs[0], JoinWith(arcs[1..], '.'));
    }
  }

  lemma ArcBefore(arc: string, rest: string)
    requires IsArc(arc) && Dotted(rest)
    ensures Dotted(arc + ['.'] + rest)
  {
    var s := arc + ['.'] + rest;
    forall i | 0 <= i < |s| - 1 ensures !(s[i] == '.' && s[i + 1] == '.') {
      if i > |arc| { assert s[i] == rest[i - |arc| - 1] && s[i + 1] == rest[i - |arc| - 1 + 1]; }
    }
  }
}
