/** Splitting on a separator that nothing escapes, and joining again. */
module Splitting {
  function SplitOn<T(==)>(s: seq<T>, sep: T): (parts: seq<seq<T>>)
    ensures parts != []
    ensures forall i :: 0 <= i < |parts| ==> sep !in parts[i]
  {
    if s == [] then [[]]
    else
      var rest := SplitOn(s[1..], sep);
      if s[0] == sep then [[]] + rest else [[s[0]] + rest[0]] + rest[1..]
  }

  function JoinWith<T>(parts: seq<seq<T>>, sep: T): seq<T> {
    if parts == [] then []
    else if |parts| == 1 then parts[0]
    else parts[0] + [sep] + JoinWith(parts[1..], sep)
  }

  lemma JoinCons<T>(part: seq<T>, rest: seq<seq<T>>, sep: T)
    requires rest != []
    ensures JoinWith([part] + rest, sep) == part + [sep] + JoinWith(rest, sep)
  {
    assert ([part] + rest)[1..] == rest;
  }

  lemma {:induction false} JoinUndoesSplit<T>(s: seq<T>, sep: T)
    ensures JoinWith(SplitOn(s, sep), sep) == s
  {
    if s != [] {
      var rest := SplitOn(s[1..], sep);
      JoinUndoesSplit(s[1..], sep);
      assert s == [s[0]] + s[1..];
      if s[0] == sep {
        assert ([[]] + rest)[1..] == rest;
      } else {
        assert ([[s[0]] + rest[0]] + rest[1..])[1..] == rest[1..];
      }
    }
  }

  /** Text free of the separator goes in front of the first part. */
  lemma {:induction false} SplitPrefixed<T>(part: seq<T>, s: seq<T>, sep: T)
    requires sep !in part
    ensures SplitOn(part + s, sep) == [part + SplitOn(s, sep)[0]] + SplitOn(s, sep)[1..]
  {
    if part == [] {
      assert part + s == s;
      assert part + SplitOn(s, sep)[0] == SplitOn(s, sep)[0];
    } else {
      var whole := part + s;
      assert whole[0] == part[0] && whole[1..] == part[1..] + s;
      SplitPrefixed(part[1..], s, sep);
      assert [part[0]] + (part[1..] + SplitOn(s, sep)[0]) == part + SplitOn(s, sep)[0];
    }
  }

  lemma {:induction false} SplitUndoesJoin<T>(parts: seq<seq<T>>, sep: T)
    requires parts != []
    requires forall i :: 0 <= i < |parts| ==> sep !in parts[i]
    ensures SplitOn(JoinWith(parts, sep), sep) == parts
  {
    if |parts| == 1 {
      SplitPrefixed(parts[0], [], sep);
      assert parts[0] + [] == parts[0];
    } else {
      var rest := JoinWith(parts[1..], sep);
      SplitUndoesJoin(parts[1..], sep);
      assert parts[0] + [sep] + rest == parts[0] + ([sep] + rest);
      assert ([sep] + rest)[1..] == rest;
      SplitPrefixed(parts[0], [sep] + rest, sep);
      assert parts[0] + [] == parts[0];
      assert [parts[0]] + parts[1..] == parts;
    }
  }

  lemma Cancel<T>(a: seq<T>, b: seq<T>, x: seq<T>, y: seq<T>)
    requires |a| == |b| && a + x == b + y
    ensures a == b && x == y
  {
    assert a == (a + x)[..|a|] && b == (b + y)[..|b|];
    assert x == (a + x)[|a|..] && y == (b + y)[|b|..];
  }

  lemma Reassociate<T>(a: seq<T>, b: seq<T>, c: seq<T>)
    ensures (a + b) + c == a + (b + c)
  {}
}
