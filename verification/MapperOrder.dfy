/** Canonical order of a closed mapper profile, for any way of checking, reading
    and printing a single mapper.  Two questions are settled here: which lists
    the validator's one-pass check accepts, and which live lists compare equal to
    an accepted one after normalisation. */
module MapperOrder {
  import opened Wrappers
  import opened Ordering

  /** A single mapper's own validation: it is the audience mapper, or a claim
      mapper with its canonical rank and claim name, or refused. */
  datatype Checked = Audience | Claim(rank: nat, name: string) | Refused

  ghost predicate ProfileOk<M(!new)>(check: M -> Checked) {
    && (forall m :: check(m).Claim? ==> 1 <= check(m).rank <= 3)
    && (forall m, n :: check(m).Claim? && check(n).Claim? && check(m).name == check(n).name ==>
        check(m).rank == check(n).rank)
  }

  function Rank(c: Checked): int {
    match c
    case Audience => 0
    case Claim(rank, _) => rank
    case Refused => -1
  }

  ghost function InOrder<M>(check: M -> Checked): (M, M) -> bool {
    (a, b) => Rank(check(a)) < Rank(check(b))
  }

  /** The profile: no mappers at all, or the audience mapper first and then at
      most one mapper per claim, in canonical order. */
  ghost predicate ValidList<M(!new)>(check: M -> Checked, ms: seq<M>) {
    ms == [] ||
    (&& (forall i :: 0 <= i < |ms| ==> !check(ms[i]).Refused?)
     && check(ms[0]).Audience?
     && SortedBy(InOrder(check), ms))
  }

  predicate NonDecreasing(s: seq<int>) {
    forall i, j :: 0 <= i < j < |s| ==> s[i] <= s[j]
  }

  predicate NoRepeats(s: seq<int>) {
    forall i, j :: 0 <= i < j < |s| ==> s[i] != s[j]
  }

  function Zeros(s: seq<int>): nat {
    if s == [] then 0 else Zeros(s[..|s| - 1]) + if s[|s| - 1] == 0 then 1 else 0
  }

  /** Some mapper of the list sets this claim. */
  ghost predicate Claims<M(!new)>(check: M -> Checked, ms: seq<M>, name: string) {
    exists j :: 0 <= j < |ms| && check(ms[j]).Claim? && check(ms[j]).name == name
  }

  lemma ClaimsStay<M(!new)>(check: M -> Checked, ms: seq<M>, m: M)
    ensures forall c :: Claims(check, ms, c) ==> Claims(check, ms + [m], c)
    ensures check(m).Claim? ==> Claims(check, ms + [m], check(m).name)
  {
    assert (ms + [m])[|ms|] == m;
    forall c | Claims(check, ms, c) ensures Claims(check, ms + [m], c) {
      var j :| 0 <= j < |ms| && check(ms[j]).Claim? && check(ms[j]).name == c;
      assert (ms + [m])[j] == ms[j];
    }
  }

  lemma RefusedIsInvalid<M(!new)>(check: M -> Checked, ms: seq<M>, i: nat)
    requires i < |ms| && check(ms[i]).Refused?
    ensures !ValidList(check, ms)
  {}

  lemma RepeatedClaimIsInvalid<M(!new)>(check: M -> Checked, ms: seq<M>, i: nat)
    requires ProfileOk(check) && i < |ms| && check(ms[i]).Claim? && Claims(check, ms[..i], check(ms[i]).name)
    ensures !ValidList(check, ms)
  {
    var j :| 0 <= j < i && check(ms[..i][j]).Claim? && check(ms[..i][j]).name == check(ms[i]).name;
    assert !InOrder(check)(ms[j], ms[i]);
  }

  lemma TooManyIsInvalid<M(!new)>(check: M -> Checked, ms: seq<M>)
    requires ProfileOk(check) && |ms| > 4
    ensures !ValidList(check, ms)
  {
    if ValidList(check, ms) { AtMostFour(check, ms); }
  }

  /** The validator's single pass with its counters decides exactly the profile. */
  method ValidateProtocolMappers<M(!new)>(check: M -> Checked, mappers: seq<M>) returns (ok: bool)
    requires ProfileOk(check)
    ensures ok <==> ValidList(check, mappers)
  {
    if mappers == [] { return true; }
    if |mappers| > 4 {
      TooManyIsInvalid(check, mappers);
      return false;
    }
    var ranks: seq<int> := [];
    var audienceCount := 0;
    var claimNames: set<string> := {};
    for i := 0 to |mappers|
      invariant |ranks| == i
      invariant forall j :: 0 <= j < i ==> !check(mappers[j]).Refused? && ranks[j] == Rank(check(mappers[j]))
      invariant audienceCount == Zeros(ranks)
      invariant forall c :: c in claimNames ==> Claims(check, mappers[..i], c)
    {
      assert mappers[..i + 1] == mappers[..i] + [mappers[i]];
      match check(mappers[i]) {
        case Refused =>
          RefusedIsInvalid(check, mappers, i);
          return false;
        case Audience =>
          audienceCount := audienceCount + 1;
          ranks := ranks + [0];
        case Claim(rank, name) =>
          if name in claimNames {
            RepeatedClaimIsInvalid(check, mappers, i);
            return false;
          }
          claimNames := claimNames + {name};
          ranks := ranks + [rank];
      }
      assert ranks[..i] == ranks[..|ranks| - 1];
      ClaimsStay(check, mappers[..i], mappers[i]);
    }
    FinalCheck(check, mappers, ranks);
    ok := audienceCount == 1 && NonDecreasing(ranks) && NoRepeats(ranks);
  }

  lemma {:induction false} RankAtLeastIndex<M(!new)>(check: M -> Checked, ms: seq<M>, i: nat)
    requires ProfileOk(check) && ValidList(check, ms) && i < |ms|
    ensures i <= Rank(check(ms[i])) <= 3
  {
    if i > 0 {
      RankAtLeastIndex(check, ms, i - 1);
      assert InOrder(check)(ms[i - 1], ms[i]);
    }
  }

  /** There is no room for a fifth mapper. */
  lemma AtMostFour<M(!new)>(check: M -> Checked, ms: seq<M>)
    requires ProfileOk(check) && ValidList(check, ms)
    ensures |ms| <= 4
  {
    if ms != [] {
      RankAtLeastIndex(check, ms, |ms| - 1);
    }
  }

  lemma {:induction false} ZerosOfIncreasing(s: seq<int>)
    requires forall i :: 0 <= i < |s| ==> s[i] >= 0
    requires forall i, j :: 0 <= i < j < |s| ==> s[i] < s[j]
    ensures Zeros(s) == if s != [] && s[0] == 0 then 1 else 0
  {
    if s != [] {
      ZerosOfIncreasing(s[..|s| - 1]);
    }
  }

  lemma FinalCheck<M(!new)>(check: M -> Checked, ms: seq<M>, ranks: seq<int>)
    requires ProfileOk(check) && ms != [] && |ranks| == |ms|
    requires forall j :: 0 <= j < |ms| ==> !check(ms[j]).Refused? && ranks[j] == Rank(check(ms[j]))
    ensures ValidList(check, ms) <==> Zeros(ranks) == 1 && NonDecreasing(ranks) && NoRepeats(ranks)
  {
    if SortedBy(InOrder(check), ms) || (NonDecreasing(ranks) && NoRepeats(ranks)) {
      forall i, j | 0 <= i < j < |ranks| ensures ranks[i] < ranks[j] {
        assert SortedBy(InOrder(check), ms) ==> InOrder(check)(ms[i], ms[j]);
      }
      ZerosOfIncreasing(ranks);
    }
  }

  /** Validation admits only one ordering of any set of mappers. */
  lemma OneOrderPerSet<M(!new)>(check: M -> Checked, a: seq<M>, b: seq<M>)
    requires ValidList(check, a) && ValidList(check, b) && multiset(a) == multiset(b)
    ensures a == b
  {
    forall x ensures x in a <==> x in b {
      assert x in multiset(a) <==> x in multiset(b);
    }
    assert |multiset(a)| == |multiset(b)|;
    if a != [] {
      SortedListIsUnique(InOrder(check), a, b);
    }
  }

  // ---- Normalising what the remote shows ----

  /** How one live mapper is read: `strip` removes the generated id and checks the
      outer shape, `rank` finds the canonical place, `parse` reads the fields;
      `render` is how a mapper is sent. The candidate list is validated as part of
      the whole registration, whose other fields are valid if `restOk`. */
  datatype Codec<!R, !O, !M> =
    Codec(strip: R -> Option<O>, rank: O -> Option<nat>, parse: O -> Option<M>, render: M -> O, check: M -> Checked,
          restOk: bool)

  ghost predicate CodecOk<R(!new), O(!new), M(!new)>(c: Codec<R, O, M>) {
    && ProfileOk(c.check)
    && (forall o :: c.parse(o).Some? ==> c.render(c.parse(o).value) == o)
    && (forall m :: !c.check(m).Refused? ==>
        c.parse(c.render(m)) == Some(m) && c.rank(c.render(m)) == Some(Rank(c.check(m))))
  }

  /** The `protocolMappers` value of a live client. */
  datatype Observed<R> = Missing | Malformed | Items(items: seq<R>)

  /** The ranked mappers, or none at the first bad shape or repeated rank. */
  ghost function Collect<R, O, M>(c: Codec<R, O, M>, items: seq<R>): Option<seq<O>> {
    if items == [] then Some([])
    else
      var init := Collect(c, items[..|items| - 1]);
      var o := c.strip(items[|items| - 1]);
      if init.Some? && o.Some? && c.rank(o.value).Some? && !RankSeen(c, init.value, c.rank(o.value)) then
          Some(init.value + [o.value])
      else None
  }

  predicate RankSeen<R, O, M>(c: Codec<R, O, M>, os: seq<O>, r: Option<nat>) {
    exists i :: 0 <= i < |os| && c.rank(os[i]) == r
  }

  function RankOr<R, O, M>(c: Codec<R, O, M>, o: O): int {
    if c.rank(o).Some? then c.rank(o).value else -1
  }

  function InsertByRank<R, O, M>(c: Codec<R, O, M>, o: O, os: seq<O>): seq<O> {
    if os == [] || RankOr(c, o) < RankOr(c, os[0]) then [o] + os
    else [os[0]] + InsertByRank(c, o, os[1..])
  }

  /** A stable sort by rank. */
  function SortByRank<R, O, M>(c: Codec<R, O, M>, os: seq<O>): seq<O> {
    if os == [] then [] else InsertByRank(c, os[|os| - 1], SortByRank(c, os[..|os| - 1]))
  }

  function ParseAll<R, O, M>(c: Codec<R, O, M>, os: seq<O>): Option<seq<M>> {
    if os == [] then Some([])
    else
      var first, rest := c.parse(os[0]), ParseAll(c, os[1..]);
      if first.Some? && rest.Some? then Some([first.value] + rest.value) else None
  }

  ghost function Normalized<R, O, M(!new)>(c: Codec<R, O, M>, v: Observed<R>): Option<seq<M>> {
    match v
    case Missing => Some([])
    case Malformed => None
    case Items(items) =>
      if |items| > 4 || Collect(c, items).None? then None
      else
        var ms := ParseAll(c, SortByRank(c, Collect(c, items).value));
        if ms.Some? && c.restOk && ValidList(c.check, ms.value) then ms else None
  }

  method NormalizedObservedMappers<R, O, M(!new)>(c: Codec<R, O, M>, v: Observed<R>) returns (r: Option<seq<M>>)
    requires ProfileOk(c.check)
    ensures r == Normalized(c, v)
  {
    if v.Missing? { return Some([]); }
    if v.Malformed? || |v.items| > 4 { return None; }
    var ranked: seq<O> := [];
    var seenRanks: set<nat> := {};
    for i := 0 to |v.items|
      invariant Collect(c, v.items[..i]) == Some(ranked)
      invariant forall k :: k in seenRanks <==> RankSeen(c, ranked, Some(k))
    {
      assert v.items[..i + 1][..i] == v.items[..i];
      var o := c.strip(v.items[i]);
      if o.None? {
        CollectFails(c, v.items, i + 1);
        return None;
      }
      var rank := c.rank(o.value);
      if rank.None? || rank.value in seenRanks {
        CollectFails(c, v.items, i + 1);
        return None;
      }
      seenRanks := seenRanks + {rank.value};
      RankSeenNext(c, ranked, o.value);
      ranked := ranked + [o.value];
    }
    assert v.items[..|v.items|] == v.items;
    var ms := ParseAll(c, SortByRank(c, ranked));
    if ms.None? || !c.restOk { return None; }
    var ok := ValidateProtocolMappers(c.check, ms.value);
    return if ok then ms else None;
  }

  lemma RankSeenNext<R, O, M>(c: Codec<R, O, M>, os: seq<O>, o: O)
    ensures forall r :: RankSeen(c, os + [o], r) <==> RankSeen(c, os, r) || c.rank(o) == r
  {
    forall r ensures RankSeen(c, os + [o], r) <==> RankSeen(c, os, r) || c.rank(o) == r {
      if RankSeen(c, os, r) {
        var i :| 0 <= i < |os| && c.rank(os[i]) == r;
        assert (os + [o])[i] == os[i];
      }
      if c.rank(o) == r { assert (os + [o])[|os|] == o; }
    }
  }

  lemma {:induction false} CollectFails<R, O, M>(c: Codec<R, O, M>, items: seq<R>, k: nat)
    requires k <= |items| && Collect(c, items[..k]).None?
    ensures Collect(c, items).None?
    decreases |items| - k
  {
    if k == |items| {
      assert items[..k] == items;
    } else {
      assert items[..k + 1][..k] == items[..k];
      CollectFails(c, items, k + 1);
    }
  }

  // ---- What the comparison means ----

  ghost function Stripped<R, O, M>(c: Codec<R, O, M>, items: seq<R>): seq<O>
    requires forall i :: 0 <= i < |items| ==> c.strip(items[i]).Some?
  {
    seq(|items|, i requires 0 <= i < |items| => c.strip(items[i]).value)
  }

  ghost function Printed<R, O, M>(c: Codec<R, O, M>, ms: seq<M>): seq<O> {
    seq(|ms|, i requires 0 <= i < |ms| => c.render(ms[i]))
  }

  /** The live list is the desired one up to order and generated ids. */
  ghost predicate Permutes<R, O, M>(c: Codec<R, O, M>, v: Observed<R>, desired: seq<M>) {
    match v
    case Missing => desired == []
    case Malformed => false
    case Items(items) =>
      && (forall i :: 0 <= i < |items| ==> c.strip(items[i]).Some?)
      && multiset(Stripped(c, items)) == multiset(Printed(c, desired))
  }

  ghost predicate DistinctRanks<R, O, M>(c: Codec<R, O, M>, os: seq<O>) {
    && (forall i :: 0 <= i < |os| ==> c.rank(os[i]).Some?)
    && (forall i, j :: 0 <= i < j < |os| ==> c.rank(os[i]) != c.rank(os[j]))
  }

  lemma {:induction false} CollectSpec<R, O, M>(c: Codec<R, O, M>, items: seq<R>)
    ensures Collect(c, items).Some? ==>
              && (forall i :: 0 <= i < |items| ==> c.strip(items[i]).Some?)
              && Collect(c, items).value == Stripped(c, items)
    ensures (forall i :: 0 <= i < |items| ==> c.strip(items[i]).Some?) ==>
              DistinctRanks(c, Stripped(c, items)) ==> Collect(c, items).Some?
    ensures Collect(c, items).Some? ==> DistinctRanks(c, Collect(c, items).value)
  {
    if items != [] {
      var init, last := items[..|items| - 1], items[|items| - 1];
      CollectSpec(c, init);
      if Collect(c, items).Some? {
        assert Stripped(c, items) == Stripped(c, init) + [c.strip(last).value];
      }
      if (forall i :: 0 <= i < |items| ==> c.strip(items[i]).Some?) && DistinctRanks(c, Stripped(c, items)) {
        var all := Stripped(c, items);
        assert forall i :: 0 <= i < |init| ==> init[i] == items[i];
        assert Stripped(c, init) == all[..|init|];
        assert all[|init|] == c.strip(last).value;
        assert DistinctRanks(c, Stripped(c, init));
      }
    }
  }

  ghost function ByRank<R, O, M>(c: Codec<R, O, M>): (O, O) -> bool {
    (a, b) => RankOr(c, a) < RankOr(c, b)
  }

  lemma {:induction false} InsertPermutes<R, O, M>(c: Codec<R, O, M>, o: O, os: seq<O>)
    ensures multiset(InsertByRank(c, o, os)) == multiset(os) + multiset{o}
  {
    if os != [] && !(RankOr(c, o) < RankOr(c, os[0])) {
      InsertPermutes(c, o, os[1..]);
      assert os == [os[0]] + os[1..];
    }
  }

  lemma {:induction false} InsertSorts<R, O(!new), M>(c: Codec<R, O, M>, o: O, os: seq<O>)
    requires SortedBy(ByRank(c), os)
    requires forall x :: x in os ==> RankOr(c, x) != RankOr(c, o)
    ensures SortedBy(ByRank(c), InsertByRank(c, o, os))
  {
    if os != [] && !(RankOr(c, o) < RankOr(c, os[0])) {
      var r := InsertByRank(c, o, os[1..]);
      InsertSorts(c, o, os[1..]);
      InsertPermutes(c, o, os[1..]);
      assert os[0] in os;
      forall i | 0 <= i < |r| ensures ByRank(c)(os[0], r[i]) {
        assert r[i] in multiset(r);
        if r[i] in os[1..] {
          var k :| 1 <= k < |os| && os[k] == r[i];
        }
      }
    } else if os != [] {
      forall k | 0 <= k < |os| ensures ByRank(c)(o, os[k]) {
        assert k > 0 ==> ByRank(c)(os[0], os[k]);
      }
    }
  }

  lemma {:induction false} SortPermutes<R, O, M>(c: Codec<R, O, M>, os: seq<O>)
    ensures multiset(SortByRank(c, os)) == multiset(os)
  {
    if os != [] {
      SortPermutes(c, os[..|os| - 1]);
      InsertPermutes(c, os[|os| - 1], SortByRank(c, os[..|os| - 1]));
      assert os == os[..|os| - 1] + [os[|os| - 1]];
    }
  }

  lemma {:induction false} SortSorts<R, O(!new), M>(c: Codec<R, O, M>, os: seq<O>)
    requires DistinctRanks(c, os)
    ensures SortedBy(ByRank(c), SortByRank(c, os))
  {
    if os != [] {
      var init, last := os[..|os| - 1], os[|os| - 1];
      forall i, j | 0 <= i < j < |init| ensures c.rank(init[i]) != c.rank(init[j]) {
        assert init[i] == os[i] && init[j] == os[j];
      }
      SortSorts(c, init);
      SortPermutes(c, init);
      forall x | x in SortByRank(c, init) ensures RankOr(c, x) != RankOr(c, last) {
        assert x in multiset(SortByRank(c, init));
        var i :| 0 <= i < |init| && init[i] == x;
        assert os[i] == x;
      }
      InsertSorts(c, last, SortByRank(c, init));
    }
  }

  lemma {:induction false} ParseAllSpec<R(!new), O(!new), M(!new)>(c: Codec<R, O, M>, os: seq<O>, ms: seq<M>)
    requires CodecOk(c)
    ensures ParseAll(c, os) == Some(ms) ==> os == Printed(c, ms)
    ensures os == Printed(c, ms) && (forall i :: 0 <= i < |ms| ==> !c.check(ms[i]).Refused?) ==>
            ParseAll(c, os) == Some(ms)
    decreases |os|
  {
    if os != [] && ms != [] {
      ParseAllSpec(c, os[1..], ms[1..]);
      assert ms == [ms[0]] + ms[1..];
      assert Printed(c, ms) == [c.render(ms[0])] + Printed(c, ms[1..]);
    }
  }

  lemma {:induction false} CountOnce<T>(s: seq<T>, x: T)
    requires forall i, j :: 0 <= i < j < |s| ==> s[i] != s[j]
    ensures multiset(s)[x] <= 1
  {
    if s != [] {
      var init := s[..|s| - 1];
      assert s == init + [s[|s| - 1]];
      CountOnce(init, x);
    }
  }

  lemma CountTwice<T>(s: seq<T>, i: nat, j: nat)
    requires i < j < |s| && s[i] == s[j]
    ensures multiset(s)[s[i]] >= 2
  {
    assert s == s[..i] + [s[i]] + s[i + 1..j] + [s[j]] + s[j + 1..];
  }

  /** A valid list prints with distinct ranks in increasing order. */
  lemma PrintedIsSorted<R(!new), O(!new), M(!new)>(c: Codec<R, O, M>, ms: seq<M>)
    requires CodecOk(c) && ValidList(c.check, ms)
    ensures SortedBy(ByRank(c), Printed(c, ms)) && DistinctRanks(c, Printed(c, ms))
  {
    var p := Printed(c, ms);
    forall i | 0 <= i < |p| ensures c.rank(p[i]) == Some(Rank(c.check(ms[i]))) {
    }
    forall i, j | 0 <= i < j < |p| ensures ByRank(c)(p[i], p[j]) && c.rank(p[i]) != c.rank(p[j]) {
      assert InOrder(c.check)(ms[i], ms[j]);
    }
  }

  lemma PermutationKeepsDistinct<R(!new), O(!new), M(!new)>(c: Codec<R, O, M>, a: seq<O>, b: seq<O>)
    requires multiset(a) == multiset(b) && DistinctRanks(c, b)
    ensures DistinctRanks(c, a)
  {
    forall i | 0 <= i < |a| ensures a[i] in b {
      assert a[i] in multiset(a);
    }
    forall i, j | 0 <= i < j < |a| ensures c.rank(a[i]) != c.rank(a[j]) {
      var k :| 0 <= k < |b| && b[k] == a[i];
      var l :| 0 <= l < |b| && b[l] == a[j];
      if k == l {
        CountTwice(a, i, j);
        CountOnce(b, a[i]);
      }
    }
  }

  /** For every valid registration: normalising a live list gives the desired
      list exactly when the live list is a permutation of it. */
  lemma MatchesExactlyPermutations<R(!new), O(!new), M(!new)>(c: Codec<R, O, M>, v: Observed<R>, desired: seq<M>)
    requires CodecOk(c) && c.restOk && ValidList(c.check, desired)
    ensures Normalized(c, v) == Some(desired) <==> Permutes(c, v, desired)
  {
    if v.Items? {
      CollectSpec(c, v.items);
      if Normalized(c, v) == Some(desired) {
        var os := Collect(c, v.items).value;
        SortPermutes(c, os);
        ParseAllSpec(c, SortByRank(c, os), desired);
      }
      if Permutes(c, v, desired) {
        PermutedIsNormalised(c, v, desired);
      }
    }
  }

  lemma PermutedIsNormalised<R(!new), O(!new), M(!new)>(c: Codec<R, O, M>, v: Observed<R>, desired: seq<M>)
    requires CodecOk(c) && c.restOk && ValidList(c.check, desired) && v.Items? && Permutes(c, v, desired)
    ensures Normalized(c, v) == Some(desired)
  {
    var os, p := Stripped(c, v.items), Printed(c, desired);
    PrintedIsSorted(c, desired);
    PermutationKeepsDistinct(c, os, p);
    CollectSpec(c, v.items);
    AtMostFour(c.check, desired);
    assert |multiset(os)| == |multiset(p)|;
    var sorted := SortByRank(c, os);
    SortPermutes(c, os);
    SortSorts(c, os);
    forall x ensures x in sorted <==> x in p {
      assert x in multiset(sorted) <==> x in multiset(p);
    }
    SortedListIsUnique(ByRank(c), sorted, p);
    ParseAllSpec(c, sorted, desired);
  }
}
