/** The text a directory's apply receipt is hashed from: compact JSON with sorted
    keys. It determines the whole private registration and nothing but it. */
module DesiredText {
  import opened Ordering
  import opened Splitting
  import opened JsonEscapes

  /** One configuration key with its values. */
  datatype Entry = Entry(key: string, values: seq<string>)

  /** A dictionary in insertion order, as the registration holds it. */
  type Config = seq<Entry>

  datatype Registration = Registration(name: string, providerId: string, providerType: string, config: Config)

  predicate UniqueKeys(config: Config) {
    forall i, j :: 0 <= i < j < |config| ==> config[i].key != config[j].key
  }

  // ---- Strings ----

  /** Only quotes, backslashes and control characters are escaped. */
  function EscapeChar(c: char): string {
    if ShortEscape(c as int).Some? then ['\\', ShortEscape(c as int).value]
    else if c as int < 0x20 then ['\\', 'u', '0', '0', HexDigit(c as int / 16), HexDigit(c as int % 16)]
    else [c]
  }

  function Escape(s: string): string {
    if s == "" then "" else EscapeChar(s[0]) + Escape(s[1..])
  }

  function Quote(s: string): string { ['"'] + (Escape(s) + ['"']) }

  // ---- Lists, dictionaries, the whole registration ----

  /** Items separated by commas, up to the closing bracket. */
  function Items<T>(show: T -> string, xs: seq<T>, close: char): string {
    if xs == [] then [close]
    else show(xs[0]) + Rest(show, xs[1..], close)
  }

  function Rest<T>(show: T -> string, xs: seq<T>, close: char): string {
    if xs == [] then [close]
    else [','] + (show(xs[0]) + Rest(show, xs[1..], close))
  }

  function ValuesText(values: seq<string>): string { ['['] + Items(Quote, values, ']') }

  function EntryText(e: Entry): string { Quote(e.key) + ([':'] + ValuesText(e.values)) }

  /** Insert an entry among entries sorted by key. */
  function InsertEntry(e: Entry, sorted: Config): Config {
    if sorted == [] || Before(e.key, sorted[0].key) then [e] + sorted
    else [sorted[0]] + InsertEntry(e, sorted[1..])
  }

  function SortedEntries(config: Config): Config {
    if config == [] then [] else InsertEntry(config[0], SortedEntries(config[1..]))
  }

  function ConfigText(config: Config): string { ['{'] + Items(EntryText, SortedEntries(config), '}') }

  function Member(name: string, text: string): string { Quote(name) + ([':'] + text) }

  /** The members in key order: config, name, providerId, providerType. */
  function Serialize(r: Registration): string {
    ['{'] + (Member("config", ConfigText(r.config)) + ([','] + (Member("name", Quote(r.name)) + ([',']
    + (Member("providerId", Quote(r.providerId)) +
       ([','] + (Member("providerType", Quote(r.providerType)) + ['}'])))))))
  }

  /** The same registration, whatever order its keys were given in. */
  ghost predicate SameContent(r: Registration, s: Registration) {
    r.name == s.name && r.providerId == s.providerId && r.providerType == s.providerType &&
        SameElements(r.config, s.config)
  }

  // ---- Reading back ----

  /** What is shown can be told from what follows it. */
  ghost predicate ReadsBack<T(!new)>(show: T -> string) {
    && (forall a, b, x, y :: show(a) + x == show(b) + y ==> a == b && x == y)
    && (forall a :: show(a) != "" && show(a)[0] == '"')
  }

  lemma CharReadsBack(c: char, d: char, x: string, y: string)
    requires EscapeChar(c) + x == EscapeChar(d) + y
    ensures c == d && x == y
  {
    var a, b := EscapeChar(c), EscapeChar(d);
    assert (a + x)[0] == a[0] && (b + y)[0] == b[0];
    if |a| > 1 && |b| > 1 { assert (a + x)[1] == a[1] && (b + y)[1] == b[1]; }
    Cancel(a, b, x, y);
    if |a| == 6 { HexIsInjective(c as int, d as int); }
  }

  lemma HexIsInjective(v: int, w: int)
    requires 0 <= v < 32 && 0 <= w < 32 && HexDigit(v / 16) == HexDigit(w / 16) &&
             HexDigit(v % 16) == HexDigit(w % 16)
    ensures v == w
  {}

  lemma {:induction false} StringReadsBack(s: string, t: string, x: string, y: string)
    requires Escape(s) + (['"'] + x) == Escape(t) + (['"'] + y)
    ensures s == t && x == y
  {
    var left, right := Escape(s) + (['"'] + x), Escape(t) + (['"'] + y);
    if s != "" { assert left[0] == EscapeChar(s[0])[0]; Reassociate(EscapeChar(s[0]), Escape(s[1..]), ['"'] + x); }
    if t != "" { assert right[0] == EscapeChar(t[0])[0]; Reassociate(EscapeChar(t[0]), Escape(t[1..]), ['"'] + y); }
    if s == "" {
      assert left == ['"'] + x && right[0] == '"';
      assert t == "";
      assert right == ['"'] + y;
      Cancel(['"'], ['"'], x, y);
    } else {
      assert t != "";
      CharReadsBack(s[0], t[0], Escape(s[1..]) + (['"'] + x), Escape(t[1..]) + (['"'] + y));
      StringReadsBack(s[1..], t[1..], x, y);
      assert s == [s[0]] + s[1..] && t == [t[0]] + t[1..];
    }
  }

  lemma QuoteReadsBack(s: string, t: string, x: string, y: string)
    requires Quote(s) + x == Quote(t) + y
    ensures s == t && x == y
  {
    Reassociate(['"'], Escape(s) + ['"'], x); Reassociate(Escape(s), ['"'], x);
    Reassociate(['"'], Escape(t) + ['"'], y); Reassociate(Escape(t), ['"'], y);
    Cancel(['"'], ['"'], Escape(s) + (['"'] + x), Escape(t) + (['"'] + y));
    StringReadsBack(s, t, x, y);
  }

  lemma {:induction false} RestReadsBack<T(!new)>(show: T -> string, xs: seq<T>, ys: seq<T>, close: char, x: string,
                                                  y: string)
    requires ReadsBack(show) && close != ','
    requires Rest(show, xs, close) + x == Rest(show, ys, close) + y
    ensures xs == ys && x == y
  {
    var left, right := Rest(show, xs, close) + x, Rest(show, ys, close) + y;
    assert left[0] == (if xs == [] then close else ',') && right[0] == (if ys == [] then close else ',');
    if xs == [] {
      Cancel([close], [close], x, y);
    } else {
      var a, b := Rest(show, xs[1..], close), Rest(show, ys[1..], close);
      Reassociate([','], show(xs[0]) + a, x); Reassociate(show(xs[0]), a, x);
      Reassociate([','], show(ys[0]) + b, y); Reassociate(show(ys[0]), b, y);
      Cancel([','], [','], show(xs[0]) + (a + x), show(ys[0]) + (b + y));
      RestReadsBack(show, xs[1..], ys[1..], close, x, y);
      assert xs == [xs[0]] + xs[1..] && ys == [ys[0]] + ys[1..];
    }
  }

  lemma ItemsReadBack<T(!new)>(show: T -> string, xs: seq<T>, ys: seq<T>, close: char, x: string, y: string)
    requires ReadsBack(show) && close != ',' && close != '"'
    requires Items(show, xs, close) + x == Items(show, ys, close) + y
    ensures xs == ys && x == y
  {
    var left, right := Items(show, xs, close) + x, Items(show, ys, close) + y;
    assert left[0] == (if xs == [] then close else '"') && right[0] == (if ys == [] then close else '"');
    if xs == [] {
      Cancel([close], [close], x, y);
    } else {
      var a, b := Rest(show, xs[1..], close), Rest(show, ys[1..], close);
      Reassociate(show(xs[0]), a, x);
      Reassociate(show(ys[0]), b, y);
      assert show(xs[0]) + (a + x) == show(ys[0]) + (b + y);
      RestReadsBack(show, xs[1..], ys[1..], close, x, y);
      assert xs == [xs[0]] + xs[1..] && ys == [ys[0]] + ys[1..];
    }
  }

  lemma QuotesReadBack()
    ensures ReadsBack(Quote)
  {
    forall a, b, x, y | Quote(a) + x == Quote(b) + y ensures a == b && x == y { QuoteReadsBack(a, b, x, y); }
  }

  lemma EntryReadsBack(d: Entry, e: Entry, x: string, y: string)
    requires EntryText(d) + x == EntryText(e) + y
    ensures d == e && x == y
  {
    var a, b := Items(Quote, d.values, ']'), Items(Quote, e.values, ']');
    Reassociate(Quote(d.key), [':'] + ValuesText(d.values), x);
    Reassociate(Quote(e.key), [':'] + ValuesText(e.values), y);
    QuoteReadsBack(d.key, e.key, [':'] + ValuesText(d.values) + x, [':'] + ValuesText(e.values) + y);
    assert [':'] + ValuesText(d.values) + x == [':', '['] + (a + x);
    assert [':'] + ValuesText(e.values) + y == [':', '['] + (b + y);
    Cancel([':', '['], [':', '['], a + x, b + y);
    QuotesReadBack();
    ItemsReadBack(Quote, d.values, e.values, ']', x, y);
  }

  lemma EntriesReadBack()
    ensures ReadsBack(EntryText)
  {
    forall a, b, x, y | EntryText(a) + x == EntryText(b) + y ensures a == b && x == y { EntryReadsBack(a, b, x, y); }
  }

  lemma ConfigReadsBack(c: Config, d: Config, x: string, y: string)
    requires ConfigText(c) + x == ConfigText(d) + y
    ensures SortedEntries(c) == SortedEntries(d) && x == y
  {
    var a, b := Items(EntryText, SortedEntries(c), '}'), Items(EntryText, SortedEntries(d), '}');
    Reassociate(['{'], a, x);
    Reassociate(['{'], b, y);
    Cancel(['{'], ['{'], a + x, b + y);
    EntriesReadBack();
    ItemsReadBack(EntryText, SortedEntries(c), SortedEntries(d), '}', x, y);
  }

  // ---- Key order does not matter ----

  predicate KeyBefore(d: Entry, e: Entry) { Before(d.key, e.key) }

  lemma KeyOrderIsStrict()
    ensures StrictOrder(KeyBefore)
  {
    forall d: Entry ensures !KeyBefore(d, d) { BeforeIrreflexive(d.key); }
    forall d, e, f | KeyBefore(d, e) && KeyBefore(e, f)
      ensures KeyBefore(d, f) { BeforeTransitive(d.key, e.key, f.key); }
  }

  lemma {:induction false} InsertHolds(e: Entry, sorted: Config, x: Entry)
    ensures x in InsertEntry(e, sorted) <==> x == e || x in sorted
  {
    if sorted != [] && !Before(e.key, sorted[0].key) {
      InsertHolds(e, sorted[1..], x);
      assert sorted == [sorted[0]] + sorted[1..];
    }
  }

  lemma {:induction false} InsertKeepsOrder(e: Entry, sorted: Config)
    requires SortedBy(KeyBefore, sorted) && forall x :: x in sorted ==> x.key != e.key
    ensures SortedBy(KeyBefore, InsertEntry(e, sorted))
  {
    KeyOrderIsStrict();
    if sorted != [] {
      if Before(e.key, sorted[0].key) {
        forall j | 0 <= j < |sorted| ensures KeyBefore(e, sorted[j]) {
          if j > 0 { BeforeTransitive(e.key, sorted[0].key, sorted[j].key); }
        }
      } else {
        var rest := InsertEntry(e, sorted[1..]);
        InsertKeepsOrder(e, sorted[1..]);
        BeforeTotal(e.key, sorted[0].key);
        assert sorted[0] in sorted;
        forall j | 0 <= j < |rest| ensures KeyBefore(sorted[0], rest[j]) {
          InsertHolds(e, sorted[1..], rest[j]);
          assert rest[j] in rest;
        }
      }
    }
  }

  lemma {:induction false} SortedEntriesHold(config: Config, x: Entry)
    ensures x in SortedEntries(config) <==> x in config
  {
    if config != [] {
      SortedEntriesHold(config[1..], x);
      InsertHolds(config[0], SortedEntries(config[1..]), x);
      assert config == [config[0]] + config[1..];
    }
  }

  lemma {:induction false} SortedEntriesAreSorted(config: Config)
    requires UniqueKeys(config)
    ensures SortedBy(KeyBefore, SortedEntries(config))
  {
    if config != [] {
      SortedEntriesAreSorted(config[1..]);
      forall x | x in SortedEntries(config[1..]) ensures x.key != config[0].key {
        SortedEntriesHold(config[1..], x);
        var k :| 0 <= k < |config[1..]| && config[1..][k] == x;
        assert x == config[k + 1];
      }
      InsertKeepsOrder(config[0], SortedEntries(config[1..]));
    }
  }

  lemma {:induction false} SortedEntriesAreContent(c: Config, d: Config)
    requires UniqueKeys(c) && UniqueKeys(d)
    ensures SortedEntries(c) == SortedEntries(d) <==> SameElements(c, d)
  {
    forall x ensures (x in SortedEntries(c) <==> x in c) && (x in SortedEntries(d) <==> x in d) {
      SortedEntriesHold(c, x);
      SortedEntriesHold(d, x);
    }
    if SameElements(c, d) {
      KeyOrderIsStrict();
      SortedEntriesAreSorted(c);
      SortedEntriesAreSorted(d);
      SortedListIsUnique(KeyBefore, SortedEntries(c), SortedEntries(d));
    }
  }

  lemma {:induction false} TextReadsBack(r: Registration, s: Registration)
    requires Serialize(r) == Serialize(s)
    ensures r.name == s.name && r.providerId == s.providerId && r.providerType == s.providerType
    ensures SortedEntries(r.config) == SortedEntries(s.config)
  {
    var r3, s3 := [','] + (Member("providerType", Quote(r.providerType)) + ['}']),
        [','] + (Member("providerType", Quote(s.providerType)) + ['}']);
    var r2, s2 := [','] + (Member("providerId", Quote(r.providerId)) + r3),
        [','] + (Member("providerId", Quote(s.providerId)) + s3);
    var r1, s1 := [','] + (Member("name", Quote(r.name)) + r2), [','] + (Member("name", Quote(s.name)) + s2);
    Cancel(['{'], ['{'], Member("config", ConfigText(r.config)) + r1, Member("config", ConfigText(s.config)) + s1);
    PeelMember("config", ConfigText(r.config), r1, ConfigText(s.config), s1);
    ConfigReadsBack(r.config, s.config, r1, s1);
    PeelQuoted("name", r.name, r2, s.name, s2);
    PeelQuoted("providerId", r.providerId, r3, s.providerId, s3);
    PeelQuoted("providerType", r.providerType, ['}'], s.providerType, ['}']);
  }

  lemma PeelMember(name: string, s: string, x: string, t: string, y: string)
    requires Member(name, s) + x == Member(name, t) + y
    ensures s + x == t + y
  {
    Reassociate(Quote(name), [':'] + s, x); Reassociate([':'], s, x);
    Reassociate(Quote(name), [':'] + t, y); Reassociate([':'], t, y);
    Cancel(Quote(name), Quote(name), [':'] + (s + x), [':'] + (t + y));
    Cancel([':'], [':'], s + x, t + y);
  }

  lemma PeelQuoted(name: string, s: string, x: string, t: string, y: string)
    requires [','] + (Member(name, Quote(s)) + x) == [','] + (Member(name, Quote(t)) + y)
    ensures s == t && x == y
  {
    Cancel([','], [','], Member(name, Quote(s)) + x, Member(name, Quote(t)) + y);
    PeelMember(name, Quote(s), x, Quote(t), y);
    QuoteReadsBack(s, t, x, y);
  }

  /** Two registrations have one text exactly when they differ at most in the
      order of their configuration keys. */
  lemma {:induction false} TextIsContent(r: Registration, s: Registration)
    requires UniqueKeys(r.config) && UniqueKeys(s.config)
    ensures Serialize(r) == Serialize(s) <==> SameContent(r, s)
  {
    SortedEntriesAreContent(r.config, s.config);
    if Serialize(r) == Serialize(s) { TextReadsBack(r, s); }
  }
}
