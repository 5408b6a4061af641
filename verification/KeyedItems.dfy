/** Lists of items that carry a key: what survives when keys are taken away, and
    what a survivor-wins move does to two such lists. */
module KeyedItems {

  ghost function Keys<T, K>(key: T -> K, s: seq<T>): set<K> {
    set x | x in s :: key(x)
  }

  /** The items whose key is not among `gone`, in order. */
  function Without<T, K(==)>(key: T -> K, gone: set<K>, s: seq<T>): seq<T> {
    if s == [] then []
    else if key(s[|s| - 1]) in gone then Without(key, gone, s[..|s| - 1])
    else Without(key, gone, s[..|s| - 1]) + [s[|s| - 1]]
  }

  /** The items whose key is among `kept`, in order. */
  ghost function Only<T, K>(key: T -> K, kept: set<K>, s: seq<T>): seq<T> {
    if s == [] then []
    else if key(s[|s| - 1]) in kept then Only(key, kept, s[..|s| - 1]) + [s[|s| - 1]]
    else Only(key, kept, s[..|s| - 1])
  }

  ghost function Mapped<T, U>(f: T -> U, s: seq<T>): seq<U> {
    if s == [] then [] else Mapped(f, s[..|s| - 1]) + [f(s[|s| - 1])]
  }

  /** No two items share a key. */
  ghost predicate Unique<T, K>(key: T -> K, s: seq<T>) {
    forall i, j :: 0 <= i < j < |s| ==> key(s[i]) != key(s[j])
  }

  /** One more item at the end, in each of the above. */
  lemma Snoc<T, K, U>(key: T -> K, keys: set<K>, f: T -> U, s: seq<T>, x: T)
    ensures Without(key, keys, s + [x]) == Without(key, keys, s) + if key(x) in keys then [] else [x]
    ensures Only(key, keys, s + [x]) == Only(key, keys, s) + if key(x) in keys then [x] else []
    ensures Mapped(f, s + [x]) == Mapped(f, s) + [f(x)]
    ensures Keys(key, s + [x]) == Keys(key, s) + {key(x)}
  {
    assert (s + [x])[..|s|] == s;
    forall k | k in Keys(key, s) + {key(x)} ensures k in Keys(key, s + [x]) {
      if k == key(x) {
        assert (s + [x])[|s|] == x;
      } else {
        var y :| y in s && key(y) == k;
        assert y in s + [x];
      }
    }
  }

  lemma {:induction false} WithoutAgain<T, K>(key: T -> K, gone: set<K>, k: K, s: seq<T>)
    ensures Without(key, {k}, Without(key, gone, s)) == Without(key, gone + {k}, s)
  {
    if s != [] {
      var t, x := s[..|s| - 1], s[|s| - 1];
      WithoutAgain(key, gone, k, t);
      if key(x) !in gone {
        Snoc<T, K, T>(key, {k}, y => y, Without(key, gone, t), x);
      }
    }
  }

  lemma {:induction false} WithoutNothing<T, K>(key: T -> K, s: seq<T>)
    ensures Without(key, {}, s) == s
  {
    if s != [] {
      WithoutNothing(key, s[..|s| - 1]);
    }
  }

  lemma {:induction false} WithoutMembers<T, K>(key: T -> K, gone: set<K>, s: seq<T>, x: T)
    ensures x in Without(key, gone, s) <==> x in s && key(x) !in gone
  {
    if s != [] {
      var t := s[..|s| - 1];
      WithoutMembers(key, gone, t, x);
      assert s == t + [s[|s| - 1]];
    }
  }

  /** Taking away every key an account has leaves it nothing. */
  lemma WithoutAllKeys<T(!new), K>(key: T -> K, s: seq<T>)
    ensures Without(key, Keys(key, s), s) == []
  {
    var r := Without(key, Keys(key, s), s);
    assert r != [] ==> r[0] in r;
    forall x ensures x !in r {
      WithoutMembers(key, Keys(key, s), s, x);
    }
  }

  /** Each item is in exactly one of the two halves, as often as it occurred. */
  lemma {:induction false} HalvesPartition<T, K>(key: T -> K, keys: set<K>, s: seq<T>)
    ensures multiset(Without(key, keys, s)) + multiset(Only(key, keys, s)) == multiset(s)
    ensures |Without(key, keys, s)| + |Only(key, keys, s)| == |s|
  {
    if s != [] {
      HalvesPartition(key, keys, s[..|s| - 1]);
      assert s == s[..|s| - 1] + [s[|s| - 1]];
    }
  }

  lemma {:induction false} WithoutKeepsUnique<T, K>(key: T -> K, gone: set<K>, s: seq<T>)
    requires Unique(key, s)
    ensures Unique(key, Without(key, gone, s))
  {
    if s != [] {
      var t, x := s[..|s| - 1], s[|s| - 1];
      WithoutKeepsUnique(key, gone, t);
      var r := Without(key, gone, t);
      forall i | 0 <= i < |r| ensures key(r[i]) != key(x) {
        WithoutMembers(key, gone, t, r[i]);
        assert r[i] in t;
      }
    }
  }

  /** A survivor-wins move never gives the survivor two items with one key. */
  lemma MoveKeepsUnique<T, K>(key: T -> K, survivor: seq<T>, duplicate: seq<T>)
    requires Unique(key, survivor) && Unique(key, duplicate)
    ensures Unique(key, survivor + Without(key, Keys(key, survivor), duplicate))
  {
    var moved := Without(key, Keys(key, survivor), duplicate);
    WithoutKeepsUnique(key, Keys(key, survivor), duplicate);
    forall i, j | 0 <= i < |survivor| && 0 <= j < |moved| ensures key(survivor[i]) != key(moved[j]) {
      WithoutMembers(key, Keys(key, survivor), duplicate, moved[j]);
      assert key(survivor[i]) in Keys(key, survivor);
    }
  }

  // ---- A move that may stop anywhere ----

  /** The lists of the two accounts after a survivor-wins move of `d0` onto `s0`
      got as far as adding what `added` covers and detaching what `detached`
      covers.  An item is always added before it is detached. */
  ghost predicate MovedSoFar<T, K>(key: T -> K, s0: seq<T>, d0: seq<T>, s: seq<T>, d: seq<T>, added: nat,
                                   detached: nat) {
    && detached <= added <= |d0|
    && s == s0 + Without(key, Keys(key, s0), d0[..added])
    && d == Without(key, Keys(key, d0[..detached]), d0)
  }

  ghost predicate Stopped<T, K>(key: T -> K, s0: seq<T>, d0: seq<T>, s: seq<T>, d: seq<T>) {
    exists added: nat, detached: nat :: MovedSoFar(key, s0, d0, s, d, added, detached)
  }

  lemma NotStarted<T, K>(key: T -> K, s0: seq<T>, d0: seq<T>)
    ensures MovedSoFar(key, s0, d0, s0, d0, 0, 0)
  {
    WithoutNothing(key, d0);
    assert Keys(key, d0[..0]) == {};
  }

  lemma AddNext<T, K>(key: T -> K, s0: seq<T>, d0: seq<T>, s: seq<T>, d: seq<T>, i: nat)
    requires i < |d0| && MovedSoFar(key, s0, d0, s, d, i, i)
    ensures MovedSoFar(key, s0, d0, if key(d0[i]) in Keys(key, s0) then s else s + [d0[i]], d, i + 1, i)
  {
    assert d0[..i + 1] == d0[..i] + [d0[i]];
    Snoc<T, K, T>(key, Keys(key, s0), y => y, d0[..i], d0[i]);
  }

  lemma DetachNext<T, K>(key: T -> K, s0: seq<T>, d0: seq<T>, s: seq<T>, d: seq<T>, i: nat)
    requires i < |d0| && MovedSoFar(key, s0, d0, s, d, i + 1, i)
    ensures MovedSoFar(key, s0, d0, s, Without(key, {key(d0[i])}, d), i + 1, i + 1)
  {
    assert d0[..i + 1] == d0[..i] + [d0[i]];
    Snoc<T, K, T>(key, {}, y => y, d0[..i], d0[i]);
    WithoutAgain(key, Keys(key, d0[..i]), key(d0[i]), d0);
  }

  /** A finished move: the survivor has all it had plus exactly the duplicate's
      non-conflicting items, and the duplicate has none. */
  lemma {:induction false} MoveDone<T(!new), K>(key: T -> K, s0: seq<T>, d0: seq<T>, s: seq<T>, d: seq<T>)
    requires MovedSoFar(key, s0, d0, s, d, |d0|, |d0|)
    ensures s == s0 + Without(key, Keys(key, s0), d0) && d == []
  {
    assert d0[..|d0|] == d0;
    WithoutAllKeys(key, d0);
  }

  /** Wherever a move stops, nothing is lost: the survivor keeps all it had, and
      each item of the duplicate is on the survivor, still on the duplicate, or
      one the survivor already had the key of. */
  lemma NothingLost<T, K>(key: T -> K, s0: seq<T>, d0: seq<T>, s: seq<T>, d: seq<T>, x: T)
    requires Unique(key, d0) && Stopped(key, s0, d0, s, d) && x in d0
    ensures s0 <= s
    ensures x in s || x in d || key(x) in Keys(key, s0)
  {
    var added: nat, detached: nat :| MovedSoFar(key, s0, d0, s, d, added, detached);
    var i :| 0 <= i < |d0| && d0[i] == x;
    if i < added {
      assert d0[..added][i] == x;
      WithoutMembers(key, Keys(key, s0), d0[..added], x);
    } else {
      forall y | y in d0[..detached] ensures key(y) != key(x) {
        var j :| 0 <= j < detached && d0[j] == y;
      }
      WithoutMembers(key, Keys(key, d0[..detached]), d0, x);
    }
  }
}
