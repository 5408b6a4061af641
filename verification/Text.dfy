/** Python's text helpers on strings of code points. */
module Text {

  /** Python's `str.isspace` characters. */
  predicate IsSpace(c: char) {
    var n := c as int;
    9 <= n <= 13 || 28 <= n <= 32 || n == 0x85 || n == 0xA0 || n == 0x1680 || 0x2000 <= n <= 0x200A
    || n == 0x2028 || n == 0x2029 || n == 0x202F || n == 0x205F || n == 0x3000
  }

  function Strip(s: string): string {
    if s == "" then ""
    else if IsSpace(s[0]) then Strip(s[1..])
    else if IsSpace(s[|s| - 1]) then Strip(s[..|s| - 1])
    else s
  }

  predicate IsHex(c: char) {
    '0' <= c <= '9' || 'a' <= c <= 'f' || 'A' <= c <= 'F'
  }

  predicate IsControl(c: char) {
    c as int <= 0x1F || c as int == 0x7F
  }

  /** Does `part` occur in `s`? */
  predicate Contains(s: string, part: string) {
    part <= s || (s != "" && Contains(s[1..], part))
  }

  predicate AllSpace(s: string) { forall i :: 0 <= i < |s| ==> IsSpace(s[i]) }

  /** No space at either end. */
  predicate Trimmed(s: string) { s != "" ==> !IsSpace(s[0]) && !IsSpace(s[|s| - 1]) }

  /** Stripping takes exactly the surrounding spaces off, however many there are. */
  lemma {:induction false} StripFinds(before: string, core: string, after: string)
    requires AllSpace(before) && AllSpace(after) && Trimmed(core)
    ensures Strip(before + core + after) == core
    decreases |before| + |after|
  {
    var s := before + core + after;
    if before != "" {
      assert s[0] == before[0] && s[1..] == before[1..] + core + after;
      StripFinds(before[1..], core, after);
    } else if core == "" {
      if after != "" {
        assert s[0] == after[0] && s[1..] == before + core + after[1..];
        StripFinds(before, core, after[1..]);
      }
    } else {
      assert s[0] == core[0];
      if after != "" {
        assert s[|s| - 1] == after[|after| - 1] && s[..|s| - 1] == before + core + after[..|after| - 1];
        StripFinds(before, core, after[..|after| - 1]);
      } else {
        assert s == core;
      }
    }
  }

  lemma SpacesJoin(a: string, b: string)
    requires AllSpace(a) && AllSpace(b)
    ensures AllSpace(a + b)
  {
    forall i | 0 <= i < |a + b| ensures IsSpace((a + b)[i]) {
      assert (a + b)[i] == if i < |a| then a[i] else b[i - |a|];
    }
  }

  lemma SpaceInFront(c: char, before: string, core: string, after: string)
    ensures [c] + (before + core + after) == ([c] + before) + core + after
  {}

  lemma SpaceBehind(before: string, core: string, after: string, c: char)
    ensures (before + core + after) + [c] == before + core + (after + [c])
  {}

  ghost predicate Between(s: string, before: string, core: string, after: string) {
    AllSpace(before) && AllSpace(after) && Trimmed(core) && s == before + core + after
  }

  /** And every text is its stripped form between spaces. */
  lemma {:induction false} StripSplits(s: string) returns (before: string, after: string)
    ensures Between(s, before, Strip(s), after)
  {
    if s != "" && IsSpace(s[0]) {
      var inner, rest := StripSplits(s[1..]);
      before, after := [s[0]] + inner, rest;
      SpacesJoin([s[0]], inner);
      SpaceInFront(s[0], inner, Strip(s[1..]), rest);
      assert s == [s[0]] + s[1..];
    } else if s != "" && IsSpace(s[|s| - 1]) {
      var n := |s| - 1;
      var front, inner := StripSplits(s[..n]);
      before, after := front, inner + [s[n]];
      SpacesJoin(inner, [s[n]]);
      SpaceBehind(front, Strip(s[..n]), inner, s[n]);
      assert s == s[..n] + [s[n]];
    } else {
      before, after := "", "";
      assert s == "" + s + "";
    }
  }
}
