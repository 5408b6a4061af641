/** The broker's request-path check, and why a path it accepts means the same
    to every server that decodes, splits and normalises it in whatever order. */
module BrokerPath {
  import opened Wrappers
  import opened Text
  import opened Splitting

  type Byte = x: int | 0 <= x < 256

  function HexValue(c: char): int
    requires IsHex(c)
    ensures 0 <= HexValue(c) < 16
  {
    if c <= '9' then c as int - '0' as int
    else if c <= 'F' then c as int - 'A' as int + 10
    else c as int - 'a' as int + 10
  }

  predicate Ascii(s: string) { forall i :: 0 <= i < |s| ==> s[i] as int < 0x80 }

  // ---- Percent decoding (section 2.1 of RFC 3986), then strict UTF-8 ----

  predicate StartsEscape(s: string) { |s| >= 3 && s[0] == '%' && IsHex(s[1]) && IsHex(s[2]) }

  /** A percent sign without two hex digits stands for itself. */
  function EscapedBytes(s: string): seq<Byte>
    requires Ascii(s)
  {
    if s == "" then []
    else [FirstByte(s)] + EscapedBytes(if StartsEscape(s) then s[3..] else s[1..])
  }

  function FirstByte(s: string): Byte
    requires Ascii(s) && s != ""
  {
    if StartsEscape(s) then HexValue(s[1]) * 16 + HexValue(s[2]) else s[0] as int
  }

  predicate Continues(b: seq<Byte>, i: nat) { i < |b| && 0x80 <= b[i] < 0xC0 }

  /** The length of the well-formed sequence a text starts with; 0 if none. */
  function Utf8Length(b: seq<Byte>): (n: nat)
    ensures n <= |b| && n <= 4
  {
    if b == [] then 0
    else if b[0] < 0x80 then 1
    else if 0xC2 <= b[0] < 0xE0 then if Continues(b, 1) then 2 else 0
    else if 0xE0 <= b[0] < 0xF0 then
      if Continues(b, 1) && Continues(b, 2) && (b[0] == 0xE0 ==> b[1] >= 0xA0) && (b[0] == 0xED ==> b[1] < 0xA0) then
          3 else 0
    else if 0xF0 <= b[0] < 0xF5 then
      if Continues(b, 1) && Continues(b, 2) && Continues(b, 3) && (b[0] == 0xF0 ==> b[1] >= 0x90) &&
          (b[0] == 0xF4 ==> b[1] < 0x90) then 4 else 0
    else 0
  }

  /** The six bits of a continuation byte. */
  function Tail(b: seq<Byte>, i: nat): int
    requires i < |b|
  {
    var byte: int := b[i];
    byte - 0x80
  }

  /** The number a sequence of `n` bytes stands for. */
  function Assembled(b: seq<Byte>, n: nat): int
    requires 0 < n <= 4 && n <= |b|
  {
    var lead: int := b[0];
    match n
    case 1 => lead
    case 2 => (lead - 0xC0) * 64 + Tail(b, 1)
    case 3 => (lead - 0xE0) * 4096 + Tail(b, 1) * 64 + Tail(b, 2)
    case _ => (lead - 0xF0) * 262144 + Tail(b, 1) * 4096 + Tail(b, 2) * 64 + Tail(b, 3)
  }

  function Utf8Char(b: seq<Byte>): char
    requires Utf8Length(b) > 0
  {
    Assembled(b, Utf8Length(b)) as char
  }

  function Utf8Decode(b: seq<Byte>): Option<string> {
    if b == [] then Some("")
    else if Utf8Length(b) == 0 then None
    else match Utf8Decode(b[Utf8Length(b)..])
      case None => None
      case Some(rest) => Some([Utf8Char(b)] + rest)
  }

  function AsciiRun(s: string): (n: nat)
    ensures n <= |s| && Ascii(s[..n])
  {
    if s == "" || s[0] as int >= 0x80 then 0 else 1 + AsciiRun(s[1..])
  }

  /** Decode each maximal ASCII run; other characters stay as they are. */
  function UnquoteRuns(s: string): Option<string>
    decreases |s|
  {
    var n := AsciiRun(s);
    match Utf8Decode(EscapedBytes(s[..n]))
    case None => None
    case Some(text) =>
      if n == |s| then Some(text)
      else match UnquoteRuns(s[n + 1..])
        case None => None
        case Some(rest) => Some(text + [s[n]] + rest)
  }

  /** The library's unquote, strict; text without a percent sign is left alone. */
  function Unquote(s: string): Option<string> {
    if '%' !in s then Some(s) else UnquoteRuns(s)
  }

  // ---- The check ----

  datatype PathError = OutsideApi | MalformedEscape | InvalidUtf8 | DotSegment | EncodedSeparator | EncodedControl

  datatype Result = Accepted(path: string) | Refused(error: PathError)

  predicate IsPathChar(c: char) {
    || 'A' <= c <= 'Z' || 'a' <= c <= 'z' || '0' <= c <= '9'
    || c == '.' || c == '_' || c == '~' || c == '!' || c == '$' || c == '&' || c == '\'' || c == '(' || c == ')' ||
        c == '*'
    || c == '+' || c == ',' || c == ';' || c == '=' || c == ':' || c == '@' || c == '%' || c == '/' || c == '?' ||
        c == '-'
  }

  /** `/v1` alone, or followed by a slash and anything from the alphabet. */
  predicate InApi(path: string) {
    && |path| >= 3 && path[0] == '/' && path[1] == 'v' && path[2] == '1'
    && (|path| > 3 ==> path[3] == '/')
    && forall i :: 0 <= i < |path| ==> IsPathChar(path[i])
  }

  predicate EscapesOk(path: string) {
    forall i :: 0 <= i < |path| && path[i] == '%' ==> StartsEscape(path[i..])
  }

  /** The text before the first `c`, or all of it. */
  function Before(s: string, c: char): (r: string)
    ensures r <= s && c !in r && (|r| < |s| ==> s[|r|] == c)
  {
    if s == "" || s[0] == c then "" else [s[0]] + Before(s[1..], c)
  }

  predicate IsDots(s: string) { s == ['.'] || s == ['.', '.'] }

  function SegmentError(segment: string): Option<PathError> {
    match Unquote(segment)
    case None => Some(InvalidUtf8)
    case Some(decoded) =>
      if IsDots(Before(decoded, ';')) then Some(DotSegment)
      else if '/' in decoded || '\\' in decoded || '%' in decoded then Some(EncodedSeparator)
      else if exists i :: 0 <= i < |decoded| && IsControl(decoded[i]) then Some(EncodedControl)
      else None
  }

  function FirstError(segments: seq<string>): Option<PathError> {
    if segments == [] then None
    else if SegmentError(segments[0]).Some? then SegmentError(segments[0])
    else FirstError(segments[1..])
  }

  function Segments(path: string): (segments: seq<string>)
    ensures segments != []
  {
    SplitOn(Before(path, '?'), '/')
  }

  function Verdict(path: string): Result {
    if |path| > 4096 || !InApi(path) then Refused(OutsideApi)
    else if !EscapesOk(path) then Refused(MalformedEscape)
    else match FirstError(Segments(path))
      case Some(error) => Refused(error)
      case None => Accepted(path)
  }

  method ValidatePath(path: string) returns (r: Result)
    ensures r == Verdict(path)
  {
    if |path| > 4096 || !InApi(path) { return Refused(OutsideApi); }
    if !EscapesOk(path) { return Refused(MalformedEscape); }
    var segments := Segments(path);
    var i := 0;
    while i < |segments|
      invariant 0 <= i <= |segments|
      invariant FirstError(segments) == FirstError(segments[i..])
    {
      assert segments[i..][1..] == segments[i + 1..];
      match Unquote(segments[i]) {
        case None => return Refused(InvalidUtf8);
        case Some(decoded) =>
          if IsDots(Before(decoded, ';')) { return Refused(DotSegment); }
          if '/' in decoded || '\\' in decoded || '%' in decoded { return Refused(EncodedSeparator); }
          if exists k :: 0 <= k < |decoded| && IsControl(decoded[k]) { return Refused(EncodedControl); }
      }
      i := i + 1;
    }
    return Accepted(path);
  }

  // ---- Decoding and splitting commute ----

  lemma {:induction false} PlainAscii(s: string)
    requires Ascii(s) && '%' !in s
    ensures Utf8Decode(EscapedBytes(s)) == Some(s)
  {
    if s != "" {
      PlainAscii(s[1..]);
      assert s == [s[0]] + s[1..];
      assert s[0] in s;
      var b := EscapedBytes(s);
      assert b[1..] == EscapedBytes(s[1..]) && Utf8Length(b) == 1;
    }
  }

  lemma {:induction false} WholeRun(s: string)
    requires Ascii(s)
    ensures AsciiRun(s) == |s|
  {
    if s != "" { WholeRun(s[1..]); }
  }

  /** On ASCII text the shortcut makes no difference. */
  lemma UnquoteAscii(s: string)
    requires Ascii(s)
    ensures Unquote(s) == Utf8Decode(EscapedBytes(s))
  {
    if '%' in s {
      WholeRun(s);
      assert s[..|s|] == s;
    } else {
      PlainAscii(s);
    }
  }

  /** A slash is no hex digit, so it never completes an escape. */
  lemma EscapeBeforeSlash(s: string, t: string)
    requires Ascii(s) && Ascii(t) && s != ""
    ensures var whole := s + ['/'] + t;
            Ascii(whole) && (StartsEscape(whole) <==> StartsEscape(s)) && FirstByte(whole) == FirstByte(s)
  {}

  lemma {:induction false} EscapedBytesSplit(s: string, t: string)
    requires Ascii(s) && Ascii(t)
    ensures Ascii(s + ['/'] + t)
    ensures EscapedBytes(s + ['/'] + t) == EscapedBytes(s) + ['/' as int] + EscapedBytes(t)
  {
    var whole := s + ['/'] + t;
    if s == "" {
      assert whole == ['/'] + t && whole[1..] == t;
    } else {
      EscapeBeforeSlash(s, t);
      var n := if StartsEscape(s) then 3 else 1;
      assert whole[n..] == s[n..] + ['/'] + t;
      EscapedBytesSplit(s[n..], t);
      Reassociate([FirstByte(s)], EscapedBytes(s[n..]) + ['/' as int], EscapedBytes(t));
      Reassociate([FirstByte(s)], EscapedBytes(s[n..]), ['/' as int]);
    }
  }

  /** No sequence runs across an ASCII byte. */
  lemma Utf8LengthBefore(b: seq<Byte>, slash: Byte, c: seq<Byte>)
    requires b != [] && slash < 0x80
    ensures Utf8Length(b + [slash] + c) == Utf8Length(b)
    ensures Utf8Length(b) > 0 ==> Utf8Char(b + [slash] + c) == Utf8Char(b)
  {
    var whole := b + [slash] + c;
    assert whole[0] == b[0];
    assert Continues(whole, 1) <==> Continues(b, 1);
    assert Continues(whole, 1) && Continues(whole, 2) <==> Continues(b, 1) && Continues(b, 2);
    assert Continues(whole, 1) && Continues(whole, 2) && Continues(whole, 3) <==>
           Continues(b, 1) && Continues(b, 2) && Continues(b, 3);
  }

  function Glue(left: Option<string>, c: char, right: Option<string>): Option<string> {
    if left.Some? && right.Some? then Some(left.value + [c] + right.value) else None
  }

  lemma {:induction false} Utf8Split(b: seq<Byte>, slash: Byte, c: seq<Byte>)
    requires slash < 0x80
    ensures Utf8Decode(b + [slash] + c) == Glue(Utf8Decode(b), slash as char, Utf8Decode(c))
    decreases |b|
  {
    var whole := b + [slash] + c;
    if b == [] {
      assert whole[0] == slash && whole[1..] == c && Utf8Length(whole) == 1;
      if Utf8Decode(c).Some? {
        assert "" + [slash as char] + Utf8Decode(c).value == [slash as char] + Utf8Decode(c).value;
      }
    } else {
      Utf8LengthBefore(b, slash, c);
      var n := Utf8Length(b);
      if n > 0 {
        assert whole[n..] == b[n..] + [slash] + c;
        Utf8Split(b[n..], slash, c);
        if Utf8Decode(b[n..]).Some? && Utf8Decode(c).Some? {
          var rest, right := Utf8Decode(b[n..]).value, Utf8Decode(c).value;
          assert [Utf8Char(b)] + (rest + [slash as char] + right) == [Utf8Char(b)] + rest + [slash as char] + right;
        }
      }
    }
  }

  lemma UnquoteSplit(s: string, t: string)
    requires Ascii(s) && Ascii(t)
    ensures Unquote(s + ['/'] + t) == Glue(Unquote(s), '/', Unquote(t))
  {
    EscapedBytesSplit(s, t);
    Utf8Split(EscapedBytes(s), '/' as int, EscapedBytes(t));
    UnquoteAscii(s); UnquoteAscii(t); UnquoteAscii(s + ['/'] + t);
  }

  predicate AllDecode(segments: seq<string>) {
    forall i :: 0 <= i < |segments| ==> Unquote(segments[i]).Some?
  }

  function DecodedSegments(segments: seq<string>): (ds: seq<string>)
    requires AllDecode(segments)
    ensures |ds| == |segments|
  {
    seq(|segments|, i requires 0 <= i < |segments| => Unquote(segments[i]).value)
  }

  lemma {:induction false} UnquoteJoined(segments: seq<string>)
    requires segments != [] && AllDecode(segments) && forall i :: 0 <= i < |segments| ==> Ascii(segments[i])
    ensures Ascii(JoinWith(segments, '/'))
    ensures Unquote(JoinWith(segments, '/')) == Some(JoinWith(DecodedSegments(segments), '/'))
  {
    var ds := DecodedSegments(segments);
    if |segments| > 1 {
      UnquoteJoined(segments[1..]);
      assert DecodedSegments(segments[1..]) == ds[1..];
      UnquoteSplit(segments[0], JoinWith(segments[1..], '/'));
    }
  }

  // ---- Dot-segment removal (section 5.2.4 of RFC 3986) ----

  /** How much text precedes the next slash. */
  function UpToSlash(s: string): (n: nat)
    ensures n <= |s|
  {
    if s == "" || s[0] == '/' then 0 else 1 + UpToSlash(s[1..])
  }

  /** The first segment with its leading slash, if any. */
  function FirstSegment(input: string): (n: nat)
    requires input != ""
    ensures 0 < n <= |input|
  {
    1 + UpToSlash(input[1..])
  }

  function DropLastSegment(output: string): string {
    if output == "" then ""
    else if output[|output| - 1] == '/' then output[..|output| - 1]
    else DropLastSegment(output[..|output| - 1])
  }

  predicate Starts(s: string, prefix: string) { prefix <= s }

  /** What one round leaves in the input and does to the output. */
  datatype Round = Round(rest: string, pops: bool, moved: string)

  function Rule(input: string): (r: Round)
    requires input != ""
    ensures |r.rest| < |input|
  {
    if Starts(input, ['.', '.', '/']) then Round(input[3..], false, "")
    else if Starts(input, ['.', '/']) then Round(input[2..], false, "")
    else if Starts(input, ['/', '.', '/']) then Round(input[2..], false, "")
    else if input == ['/', '.'] then Round(['/'], false, "")
    else if Starts(input, ['/', '.', '.', '/']) then Round(input[3..], true, "")
    else if input == ['/', '.', '.'] then Round(['/'], true, "")
    else if IsDots(input) then Round("", false, "")
    else Round(input[FirstSegment(input)..], false, input[..FirstSegment(input)])
  }

  function RemoveDots(input: string, output: string): string
    decreases |input|
  {
    if input == "" then output
    else
      var r := Rule(input);
      RemoveDots(r.rest, if r.pops then DropLastSegment(output) else output + r.moved)
  }

  /** Each segment behind a slash. */
  function Slashed(segments: seq<string>): string {
    if segments == [] then "" else ['/'] + segments[0] + Slashed(segments[1..])
  }

  predicate DotFree(segments: seq<string>) {
    forall i :: 0 <= i < |segments| ==> '/' !in segments[i] && !IsDots(segments[i])
  }

  lemma {:induction false} UpToSlashIn(s: string, rest: string)
    requires '/' !in s && (rest == "" || rest[0] == '/')
    ensures UpToSlash(s + rest) == |s|
  {
    if s == "" {
      assert s + rest == rest;
    } else {
      assert (s + rest)[1..] == s[1..] + rest;
      UpToSlashIn(s[1..], rest);
    }
  }

  lemma FirstOfSlashed(s: string, rest: string)
    requires '/' !in s && (rest == "" || rest[0] == '/')
    ensures FirstSegment(['/'] + s + rest) == 1 + |s|
  {
    assert (['/'] + s + rest)[1..] == s + rest;
    UpToSlashIn(s, rest);
  }

  /** A segment that is not a dot segment meets none of the special rules. */
  lemma NoRuleApplies(s: string, rest: string)
    requires '/' !in s && !IsDots(s) && (rest == "" || rest[0] == '/')
    ensures Rule(['/'] + s + rest) == Round(rest, false, ['/'] + s)
  {
    var input := ['/'] + s + rest;
    FirstOfSlashed(s, rest);
    assert input[0] == '/';
    if |s| == 0 {
      assert |input| > 1 ==> input[1] == '/';
    } else if |s| == 1 {
      assert s == [s[0]] && input[1] == s[0];
    } else if |s| == 2 {
      assert s == [s[0], s[1]] && input[1] == s[0] && input[2] == s[1];
    } else {
      assert input[1] == s[0] && input[2] == s[1] && input[3] == s[2];
    }
    assert input[..1 + |s|] == ['/'] + s && input[1 + |s|..] == rest;
  }

  lemma OneRound(s: string, rest: string, output: string)
    requires '/' !in s && !IsDots(s) && (rest == "" || rest[0] == '/')
    ensures RemoveDots(['/'] + s + rest, output) == RemoveDots(rest, output + (['/'] + s))
  {
    NoRuleApplies(s, rest);
  }

  lemma SlashedStarts(segments: seq<string>)
    ensures Slashed(segments) == "" || Slashed(segments)[0] == '/'
  {}

  lemma DotFreeParts(segments: seq<string>)
    requires DotFree(segments) && segments != []
    ensures '/' !in segments[0] && !IsDots(segments[0]) && DotFree(segments[1..])
  {}

  lemma {:induction false} NothingToRemove(segments: seq<string>, output: string)
    requires DotFree(segments)
    ensures RemoveDots(Slashed(segments), output) == output + Slashed(segments)
    decreases |segments|
  {
    if segments == [] {
      assert output + "" == output;
    } else {
      var s, rest := segments[0], Slashed(segments[1..]);
      DotFreeParts(segments);
      SlashedStarts(segments[1..]);
      OneRound(s, rest, output);
      Reassociate(output, ['/'] + s, rest);
      NothingToRemove(segments[1..], output + (['/'] + s));
    }
  }

  lemma {:induction false} JoinIsSlashed(segments: seq<string>)
    requires |segments| > 1 && segments[0] == ""
    ensures JoinWith(segments, '/') == Slashed(segments[1..])
    decreases |segments|
  {
    var tail := segments[1..];
    if |tail| == 1 {
      assert Slashed(tail[1..]) == "";
    } else {
      var next := [""] + tail[1..];
      assert next[1..] == tail[1..];
      JoinIsSlashed(next);
      assert JoinWith(next, '/') == ['/'] + JoinWith(tail[1..], '/');
      assert JoinWith(tail, '/') == tail[0] + (['/'] + JoinWith(tail[1..], '/'));
    }
  }

  // ---- The results ----

  /** What the loop over segments has established when it raises nothing. */
  lemma {:induction false} NoError(segments: seq<string>)
    ensures FirstError(segments).None? <==> forall i :: 0 <= i < |segments| ==> SegmentError(segments[i]).None?
  {
    if segments != [] {
      NoError(segments[1..]);
      if forall i :: 0 <= i < |segments[1..]| ==> SegmentError(segments[1..][i]).None? {
        forall i | 0 <= i < |segments| && SegmentError(segments[0]).None? ensures SegmentError(segments[i]).None? {
          if i > 0 { assert segments[i] == segments[1..][i - 1]; }
        }
      } else {
        var i :| 0 <= i < |segments[1..]| && SegmentError(segments[1..][i]).Some?;
        assert segments[1..][i] == segments[i + 1];
      }
    }
  }

  lemma PathCharsAreAscii(path: string)
    requires InApi(path)
    ensures Ascii(path)
  {}

  lemma {:induction false} SplitKeepsAscii(s: string, sep: char)
    requires Ascii(s)
    ensures forall i :: 0 <= i < |SplitOn(s, sep)| ==> Ascii(SplitOn(s, sep)[i])
  {
    if s != "" {
      SplitKeepsAscii(s[1..], sep);
    }
  }

  /** The facts every accepted path has, segment by segment. */
  lemma AcceptedSegments(path: string)
    requires Verdict(path).Accepted?
    ensures var segments := Segments(path);
            && JoinWith(segments, '/') == Before(path, '?')
            && |segments| > 1 && segments[0] == ""
            && AllDecode(segments)
            && (forall i :: 0 <= i < |segments| ==> Ascii(segments[i]) && SegmentError(segments[i]).None?)
  {
    var c, segments := Before(path, '?'), Segments(path);
    NoError(segments);
    PathCharsAreAscii(path);
    SplitKeepsAscii(c, '/');
    JoinUndoesSplit(c, '/');
    assert path[0] == '/' && c == [path[0]] + Before(path[1..], '?');
    forall i | 0 <= i < |segments| ensures Unquote(segments[i]).Some? {
      assert SegmentError(segments[i]).None?;
    }
  }

  /** A segment text without its parameters, as a server may route on it. */
  function Routed(ds: seq<string>): (rs: seq<string>)
    ensures |rs| == |ds|
  {
    seq(|ds|, i requires 0 <= i < |ds| => Before(ds[i], ';'))
  }

  lemma CleanSegment(segment: string)
    requires SegmentError(segment).None?
    ensures var d := Unquote(segment).value;
            && '/' !in d && '\\' !in d && '%' !in d && (forall i :: 0 <= i < |d| ==> !IsControl(d[i]))
            && !IsDots(d) && !IsDots(Before(d, ';'))
  {
    var d := Unquote(segment).value;
    if IsDots(d) { DotsHaveNoParameters(d); }
  }

  lemma DotsHaveNoParameters(d: string)
    requires IsDots(d)
    ensures Before(d, ';') == d
  {
    assert d[0] == '.' && d[1..] == if |d| == 1 then "" else ['.'];
    assert ['.'][1..] == "" && Before(['.'], ';') == ['.'];
  }

  /** For any ASCII path whose segments decode: the two orders agree exactly when
      no escape hides a slash. */
  lemma {:induction false} CommutesExactlyWithoutHiddenSlash(path: string)
    requires Ascii(path) && AllDecode(SplitOn(path, '/'))
    ensures Unquote(path).Some?
    ensures SplitOn(Unquote(path).value, '/') == DecodedSegments(SplitOn(path, '/')) <==>
            forall i :: 0 <= i < |SplitOn(path, '/')| ==> '/' !in DecodedSegments(SplitOn(path, '/'))[i]
  {
    var segments := SplitOn(path, '/');
    var ds := DecodedSegments(segments);
    SplitKeepsAscii(path, '/');
    JoinUndoesSplit(path, '/');
    UnquoteJoined(segments);
    if forall i :: 0 <= i < |ds| ==> '/' !in ds[i] {
      SplitUndoesJoin(ds, '/');
    }
  }

  /** Decoding commutes with splitting: decode the whole path and split it, or
      split it and decode each segment -- the segments are the same. */
  lemma {:induction false} DecodeCommutesWithSplit(path: string)
    requires Verdict(path).Accepted?
    ensures AllDecode(Segments(path))
    ensures Unquote(Before(path, '?')).Some?
    ensures SplitOn(Unquote(Before(path, '?')).value, '/') == DecodedSegments(Segments(path))
  {
    var segments := Segments(path);
    AcceptedSegments(path);
    forall i | 0 <= i < |segments| ensures '/' !in DecodedSegments(segments)[i] { CleanSegment(segments[i]); }
    PathCharsAreAscii(path);
    CommutesExactlyWithoutHiddenSlash(Before(path, '?'));
  }

  /** Decoding a second time changes nothing. */
  lemma {:induction false} SecondDecodeIsIdentity(path: string)
    requires Verdict(path).Accepted?
    ensures Unquote(Before(path, '?')).Some?
    ensures var decoded := Unquote(Before(path, '?')).value;
            '%' !in decoded && Unquote(decoded) == Some(decoded)
  {
    var segments := Segments(path);
    AcceptedSegments(path);
    var ds := DecodedSegments(segments);
    UnquoteJoined(segments);
    forall i | 0 <= i < |ds| ensures '%' !in ds[i] { CleanSegment(segments[i]); }
    JoinAvoids(ds, '/', '%');
  }

  lemma {:induction false} JoinAvoids(parts: seq<string>, sep: char, c: char)
    requires c != sep && forall i :: 0 <= i < |parts| ==> c !in parts[i]
    ensures c !in JoinWith(parts, sep)
  {
    if |parts| > 1 { JoinAvoids(parts[1..], sep, c); }
  }

  /** An accepted path stays under `/v1` when decoded, and its decoded form hides
      neither a backslash nor a control character. */
  lemma DecodedStaysInApi(path: string)
    requires Verdict(path).Accepted?
    ensures AllDecode(Segments(path)) && Unquote(Before(path, '?')).Some?
    ensures var ds := DecodedSegments(Segments(path)); |ds| > 1 && ds[0] == "" && ds[1] == ['v', '1']
    ensures var decoded := Unquote(Before(path, '?')).value;
            '\\' !in decoded && forall i :: 0 <= i < |decoded| ==> !IsControl(decoded[i])
  {
    var segments := Segments(path);
    AcceptedSegments(path);
    UnquoteJoined(segments);
    var ds := DecodedSegments(segments);
    FirstSegmentsOfApi(path);
    assert Unquote("") == Some("") && Unquote(['v', '1']) == Some(['v', '1']);
    forall i | 0 <= i < |ds|
      ensures '\\' !in ds[i] && forall k :: 0 <= k < |ds[i]| ==> !IsControl(ds[i][k]) { CleanSegment(segments[i]); }
    JoinAvoids(ds, '/', '\\');
    forall c: char | IsControl(c) ensures c !in JoinWith(ds, '/') { JoinAvoids(ds, '/', c); }
  }

  lemma FirstSegmentsOfApi(path: string)
    requires InApi(path)
    ensures |Segments(path)| > 1 && Segments(path)[0] == "" && Segments(path)[1] == ['v', '1']
  {
    var rest := Before(path[3..], '?');
    assert path == ['/', 'v', '1'] + path[3..];
    BeforeKeepsPrefix(['/', 'v', '1'], path[3..], '?');
    ApiSegments(Before(path, '?'), rest);
  }

  /** What precedes the first `c` begins with any prefix free of `c`. */
  lemma {:induction false} BeforeKeepsPrefix(prefix: string, s: string, c: char)
    requires c !in prefix
    ensures Before(prefix + s, c) == prefix + Before(s, c)
  {
    if prefix == "" {
      assert prefix + s == s;
    } else {
      assert (prefix + s)[1..] == prefix[1..] + s;
      BeforeKeepsPrefix(prefix[1..], s, c);
      assert prefix == [prefix[0]] + prefix[1..];
    }
  }

  lemma ApiSegments(component: string, rest: string)
    requires component == ['/', 'v', '1'] + rest && (rest == "" || rest[0] == '/')
    ensures var segments := SplitOn(component, '/'); |segments| > 1 && segments[0] == "" && segments[1] == ['v', '1']
  {
    assert SplitOn(rest, '/')[0] == "";
    SplitPrefixed(['v', '1'], rest, '/');
    assert component[1..] == ['v', '1'] + rest;
    assert ['v', '1'] + "" == ['v', '1'];
  }

  /** Dot-segment removal leaves the decoded path alone, and also the path a
      server routes on after dropping each segment's parameters. */
  lemma {:induction false} DotRemovalIsIdentity(path: string)
    requires Verdict(path).Accepted?
    ensures Unquote(Before(path, '?')).Some? && AllDecode(Segments(path))
    ensures var decoded := Unquote(Before(path, '?')).value; RemoveDots(decoded, "") == decoded
    ensures var routed := JoinWith(Routed(DecodedSegments(Segments(path))), '/'); RemoveDots(routed, "") == routed
  {
    var segments := Segments(path);
    AcceptedSegments(path);
    UnquoteJoined(segments);
    var ds := DecodedSegments(segments);
    forall i | 0 <= i < |ds|
      ensures '/' !in ds[i] && !IsDots(ds[i]) && !IsDots(Routed(ds)[i]) && '/' !in Routed(ds)[i] {
      CleanSegment(segments[i]);
      assert Before(ds[i], ';') <= ds[i];
    }
    assert Unquote("") == Some("") && ds[0] == "" && Routed(ds)[0] == "";
    WholeIsKept(ds);
    WholeIsKept(Routed(ds));
  }

  lemma WholeIsKept(ds: seq<string>)
    requires |ds| > 1 && ds[0] == "" && DotFree(ds)
    ensures RemoveDots(JoinWith(ds, '/'), "") == JoinWith(ds, '/')
  {
    JoinIsSlashed(ds);
    NothingToRemove(ds[1..], "");
    assert "" + Slashed(ds[1..]) == Slashed(ds[1..]);
  }

  // ---- The verdict, with no decoder ----

  /** The UTF-8 form of a character (table 3-6 of the Unicode standard). */
  function Utf8Of(c: char): seq<Byte> {
    var n := c as int;
    if n < 0x80 then [n]
    else if n < 0x800 then [0xC0 + n / 64, 0x80 + n % 64]
    else if n < 0x10000 then [0xE0 + n / 4096, 0x80 + n / 64 % 64, 0x80 + n % 64]
    else [0xF0 + n / 262144, 0x80 + n / 4096 % 64, 0x80 + n / 64 % 64, 0x80 + n % 64]
  }

  function Utf8Text(s: string): seq<Byte> {
    if s == "" then [] else Utf8Of(s[0]) + Utf8Text(s[1..])
  }

  predicate Digit(c: char, n: int) {
    0 <= n < 16 && (c == "0123456789ABCDEF"[n] || c == "0123456789abcdef"[n])
  }

  ghost predicate HexDigit(c: char) { exists n :: Digit(c, n) }

  /** `s` spells the bytes, each by its ASCII character or by an escape. */
  predicate Spells(s: string, b: seq<Byte>) {
    if b == [] then s == ""
    else
      || (|s| >= 1 && s[0] != '%' && s[0] as int == b[0] < 0x80 && Spells(s[1..], b[1..]))
      || (|s| >= 3 && s[0] == '%' && Digit(s[1], b[0] / 16) && Digit(s[2], b[0] % 16) && Spells(s[3..], b[1..]))
  }

  predicate Reads(segment: string, text: string) { Spells(segment, Utf8Text(text)) }

  ghost predicate WholeEscapes(path: string) {
    forall i :: 0 <= i < |path| && path[i] == '%' ==>
      i + 2 < |path| && HexDigit(path[i + 1]) && HexDigit(path[i + 2])
  }

  /** A dot segment, with or without parameters. */
  predicate DotLike(d: string) {
    || (|d| >= 1 && d[0] == '.' && (|d| == 1 || d[1] == ';'))
    || (|d| >= 2 && d[0] == '.' && d[1] == '.' && (|d| == 2 || d[2] == ';'))
  }

  predicate HidesSeparator(d: string) {
    exists i :: 0 <= i < |d| && (d[i] == '/' || d[i] == '\\' || d[i] == '%')
  }

  predicate HidesControl(d: string) {
    exists i :: 0 <= i < |d| && (d[i] as int < 0x20 || d[i] as int == 0x7F)
  }

  ghost predicate Clean(segment: string) {
    exists d :: Reads(segment, d) && !DotLike(d) && !HidesSeparator(d) && !HidesControl(d)
  }

  ghost predicate Faulty(segment: string, e: PathError) {
    match e
    case InvalidUtf8 => forall d :: !Reads(segment, d)
    case DotSegment => exists d :: Reads(segment, d) && DotLike(d)
    case EncodedSeparator => exists d :: Reads(segment, d) && !DotLike(d) && HidesSeparator(d)
    case EncodedControl => exists d :: Reads(segment, d) && !DotLike(d) && !HidesSeparator(d) && HidesControl(d)
    case _ => false
  }

  /** The first segment that is not clean has this fault. */
  ghost predicate FirstFault(segments: seq<string>, e: PathError) {
    exists i :: 0 <= i < |segments| && Faulty(segments[i], e) && forall j :: 0 <= j < i ==> Clean(segments[j])
  }

  ghost predicate AllClean(segments: seq<string>) { forall i :: 0 <= i < |segments| ==> Clean(segments[i]) }

  /** The check, reading every segment by the one text it spells. */
  lemma VerdictExactly(path: string)
    ensures var known, segments := |path| <= 4096 && InApi(path), Segments(path);
            && (Verdict(path) == Refused(OutsideApi) <==> !known)
            && (Verdict(path) == Refused(MalformedEscape) <==> known && !WholeEscapes(path))
            && (Verdict(path) == Accepted(path) <==> known && WholeEscapes(path) && AllClean(segments))
            && forall e :: e != OutsideApi && e != MalformedEscape ==>
                 (Verdict(path) == Refused(e) <==> known && WholeEscapes(path) && FirstFault(segments, e))
  {
    WholeEscapesAreOk(path);
    if |path| <= 4096 && InApi(path) && EscapesOk(path) { FaultsExactly(path); }
  }

  lemma FaultsExactly(path: string)
    requires InApi(path) && EscapesOk(path)
    ensures FirstError(Segments(path)) == None <==> AllClean(Segments(path))
    ensures forall e :: FirstError(Segments(path)) == Some(e) <==> FirstFault(Segments(path), e)
  {
    PathCharsAreAscii(path);
    SplitKeepsAscii(Before(path, '?'), '/');
    BeforeKeepsEscapes(path);
    SplitKeepsEscapes(Before(path, '?'));
    FirstErrorExactly(Segments(path));
  }

  lemma {:induction false} FirstErrorExactly(segments: seq<string>)
    requires forall i :: 0 <= i < |segments| ==> Ascii(segments[i]) && EscapesOk(segments[i])
    ensures FirstError(segments) == None <==> AllClean(segments)
    ensures forall e :: FirstError(segments) == Some(e) <==> FirstFault(segments, e)
  {
    forall i | 0 <= i < |segments|
      ensures Clean(segments[i]) <==> SegmentError(segments[i]) == None
      ensures forall e :: Faulty(segments[i], e) <==> SegmentError(segments[i]) == Some(e) {
      forall e ensures Faulty(segments[i], e) <==> SegmentError(segments[i]) == Some(e) {
        SegmentErrorExactly(segments[i], e);
      }
      SegmentErrorExactly(segments[i], InvalidUtf8);
    }
    FirstErrorIsFirst(segments);
  }

  lemma {:induction false} FirstErrorIsFirst(segments: seq<string>)
    ensures FirstError(segments) == None <==> forall i :: 0 <= i < |segments| ==> SegmentError(segments[i]) == None
    ensures forall e :: FirstError(segments) == Some(e) <==>
              exists i :: 0 <= i < |segments| && SegmentError(segments[i]) == Some(e)
                          && forall j :: 0 <= j < i ==> SegmentError(segments[j]) == None
  {
    NoError(segments);
    if segments != [] && SegmentError(segments[0]).None? {
      var tail := segments[1..];
      FirstErrorIsFirst(tail);
      forall e | FirstError(segments) == Some(e)
        ensures exists i :: 0 <= i < |segments| && SegmentError(segments[i]) == Some(e)
                            && forall j :: 0 <= j < i ==> SegmentError(segments[j]) == None {
        var i :| 0 <= i < |tail| && SegmentError(tail[i]) == Some(e)
                 && forall j :: 0 <= j < i ==> SegmentError(tail[j]) == None;
        assert SegmentError(segments[i + 1]) == Some(e);
        forall j | 0 <= j < i + 1 ensures SegmentError(segments[j]) == None {
          if j > 0 { assert tail[j - 1] == segments[j]; }
        }
      }
      forall e, i | 0 <= i < |segments| && SegmentError(segments[i]) == Some(e)
                    && forall j :: 0 <= j < i ==> SegmentError(segments[j]) == None
        ensures FirstError(segments) == Some(e) {
        assert tail[i - 1] == segments[i];
        forall j | 0 <= j < i - 1 ensures SegmentError(tail[j]) == None { assert tail[j] == segments[j + 1]; }
      }
    }
  }

  /** With one reading, the faults are those of the text read. */
  lemma FaultsOfReading(segment: string, d: string)
    requires Reads(segment, d) && forall x :: Reads(segment, x) ==> x == d
    ensures Clean(segment) <==> !DotLike(d) && !HidesSeparator(d) && !HidesControl(d)
    ensures !Faulty(segment, InvalidUtf8) && !Faulty(segment, OutsideApi) && !Faulty(segment, MalformedEscape)
    ensures Faulty(segment, DotSegment) <==> DotLike(d)
    ensures Faulty(segment, EncodedSeparator) <==> !DotLike(d) && HidesSeparator(d)
    ensures Faulty(segment, EncodedControl) <==> !DotLike(d) && !HidesSeparator(d) && HidesControl(d)
  {}

  lemma NothingRead(segment: string)
    requires forall x :: !Reads(segment, x)
    ensures !Clean(segment) && forall e :: Faulty(segment, e) <==> e == InvalidUtf8
  {}

  lemma TextFaults(segment: string, d: string)
    requires Unquote(segment) == Some(d)
    ensures SegmentError(segment) == None <==> !DotLike(d) && !HidesSeparator(d) && !HidesControl(d)
    ensures SegmentError(segment) == Some(DotSegment) <==> DotLike(d)
    ensures SegmentError(segment) == Some(EncodedSeparator) <==> !DotLike(d) && HidesSeparator(d)
    ensures SegmentError(segment) == Some(EncodedControl) <==> !DotLike(d) && !HidesSeparator(d) && HidesControl(d)
    ensures SegmentError(segment) !in {Some(InvalidUtf8), Some(OutsideApi), Some(MalformedEscape)}
  {
    DotLikeExactly(d);
    assert HidesSeparator(d) <==> '/' in d || '\\' in d || '%' in d;
    assert HidesControl(d) <==> exists i :: 0 <= i < |d| && IsControl(d[i]);
  }

  lemma SegmentErrorExactly(segment: string, e: PathError)
    requires Ascii(segment) && EscapesOk(segment)
    ensures Clean(segment) <==> SegmentError(segment) == None
    ensures Faulty(segment, e) <==> SegmentError(segment) == Some(e)
  {
    match Unquote(segment) {
      case None =>
        forall d ensures !Reads(segment, d) { ReadsExactly(segment, d); }
        NothingRead(segment);
      case Some(d) =>
        forall x ensures Reads(segment, x) <==> x == d { ReadsExactly(segment, x); }
        FaultsOfReading(segment, d);
        TextFaults(segment, d);
        match e { case OutsideApi => case MalformedEscape => case InvalidUtf8 => case DotSegment =>
                  case EncodedSeparator => case EncodedControl => }
    }
  }

  lemma DotLikeExactly(d: string)
    ensures DotLike(d) <==> IsDots(Before(d, ';'))
  {
    var r := Before(d, ';');
    assert forall i :: 0 <= i < |r| ==> d[i] == r[i] != ';';
    assert |r| == 1 ==> r == [r[0]];
    assert |r| == 2 ==> r == [r[0], r[1]];
  }

  /** A segment with whole escapes reads as exactly what decoding gives. */
  lemma ReadsExactly(segment: string, d: string)
    requires Ascii(segment) && EscapesOk(segment)
    ensures Reads(segment, d) <==> Unquote(segment) == Some(d)
  {
    UnquoteAscii(segment);
    SpellsExactly(segment, Utf8Text(d));
    if Utf8Decode(EscapedBytes(segment)) == Some(d) { DecodedIsEncoded(EscapedBytes(segment)); }
    EncodedDecodes(d);
  }

  lemma DigitExactly(c: char, n: int)
    ensures Digit(c, n) <==> IsHex(c) && HexValue(c) == n
  {}

  lemma WholeEscapesAreOk(path: string)
    ensures WholeEscapes(path) <==> EscapesOk(path)
  {
    forall c: char ensures IsHex(c) <==> HexDigit(c) {
      forall n ensures Digit(c, n) <==> IsHex(c) && HexValue(c) == n { DigitExactly(c, n); }
      if IsHex(c) { assert Digit(c, HexValue(c)); }
    }
    forall i | 0 <= i < |path| ensures StartsEscape(path[i..]) <==>
      path[i] == '%' && i + 2 < |path| && IsHex(path[i + 1]) && IsHex(path[i + 2]) {}
  }

  lemma {:induction false} SpellsExactly(s: string, b: seq<Byte>)
    requires Ascii(s) && EscapesOk(s)
    ensures Spells(s, b) <==> EscapedBytes(s) == b
    decreases |s|
  {
    if s != "" && b != [] {
      assert s[0..] == s;
      var n := if StartsEscape(s) then 3 else 1;
      EscapesBehind(s, n);
      SpellsExactly(s[n..], b[1..]);
      SpellsFirst(s, b);
      FirstAndRest(FirstByte(s), EscapedBytes(s[n..]), b);
    }
  }

  lemma FirstAndRest(x: Byte, rest: seq<Byte>, b: seq<Byte>)
    requires b != []
    ensures [x] + rest == b <==> x == b[0] && rest == b[1..]
  {
    assert b == [b[0]] + b[1..];
    assert ([x] + rest)[1..] == rest;
  }

  lemma SpellsFirst(s: string, b: seq<Byte>)
    requires Ascii(s) && s != "" && b != [] && (s[0] == '%' ==> StartsEscape(s))
    ensures Spells(s, b) <==> FirstByte(s) == b[0] && Spells(s[if StartsEscape(s) then 3 else 1..], b[1..])
  {
    if StartsEscape(s) {
      DigitExactly(s[1], b[0] / 16);
      DigitExactly(s[2], b[0] % 16);
    }
  }

  lemma EscapesBehind(s: string, n: nat)
    requires EscapesOk(s) && n <= |s|
    ensures EscapesOk(s[n..])
  {
    forall i | 0 <= i < |s[n..]| && s[n..][i] == '%' ensures StartsEscape(s[n..][i..]) {
      assert s[n..][i..] == s[n + i..];
    }
  }

  lemma BeforeKeepsEscapes(path: string)
    requires EscapesOk(path)
    ensures EscapesOk(Before(path, '?'))
  {
    var r := Before(path, '?');
    forall i | 0 <= i < |r| && r[i] == '%' ensures StartsEscape(r[i..]) {
      assert path[i] == '%' && StartsEscape(path[i..]);
      assert path[i + 1] == path[i..][1] && path[i + 2] == path[i..][2];
      assert |r| != i + 1 && |r| != i + 2;
    }
  }

  /** A slash is no hex digit: splitting cuts no escape. */
  lemma {:induction false} SplitKeepsEscapes(s: string)
    requires EscapesOk(s)
    ensures forall i :: 0 <= i < |SplitOn(s, '/')| ==> EscapesOk(SplitOn(s, '/')[i])
  {
    if s != "" {
      var rest := SplitOn(s[1..], '/');
      EscapesBehind(s, 1);
      SplitKeepsEscapes(s[1..]);
      if s[0] != '/' {
        assert s[0..] == s;
        if s[0] == '%' {
          assert s[1..][1..] == s[2..];
          assert rest[0] == [s[1]] + SplitOn(s[2..], '/')[0];
          assert SplitOn(s[2..], '/')[0][0] == s[2];
        }
        PutInFront(s[0], rest[0]);
      }
    }
  }

  lemma PutInFront(c: char, s: string)
    requires EscapesOk(s) && (c == '%' ==> |s| >= 2 && IsHex(s[0]) && IsHex(s[1]))
    ensures EscapesOk([c] + s)
  {
    var t := [c] + s;
    forall i | 0 <= i < |t| && t[i] == '%' ensures StartsEscape(t[i..]) {
      if i > 0 { assert t[i..] == s[i - 1..]; }
    }
  }

  /** The digits of a number in base 64. */
  function Digits(n: nat): (nat, nat, nat, nat) { (n / 262144, n / 4096 % 64, n / 64 % 64, n % 64) }

  lemma DigitsExactly(n: nat, a: nat, b: nat, c: nat, d: nat)
    requires b < 64 && c < 64 && d < 64
    ensures n == a * 262144 + b * 4096 + c * 64 + d <==> Digits(n) == (a, b, c, d)
  {
    var x, y := n / 64, n / 4096;
    assert y == x / 64 && n / 262144 == y / 64;
    assert n == x * 64 + n % 64 && x == y * 64 + x % 64 && y == y / 64 * 64 + y % 64;
  }

  lemma EncodedLength(c: char, rest: seq<Byte>)
    ensures Utf8Length(Utf8Of(c) + rest) == |Utf8Of(c)|
  {}

  lemma EncodedNumber(c: char, rest: seq<Byte>)
    ensures Assembled(Utf8Of(c) + rest, |Utf8Of(c)|) == c as int
  {
    var (w, x, y, z) := Digits(c as int);
    DigitsExactly(c as int, w, x, y, z);
  }

  lemma EncodedChar(c: char, rest: seq<Byte>)
    ensures Utf8Length(Utf8Of(c) + rest) == |Utf8Of(c)| && Utf8Char(Utf8Of(c) + rest) == c
  {
    EncodedLength(c, rest);
    EncodedNumber(c, rest);
  }

  lemma {:induction false} EncodedDecodes(s: string)
    ensures Utf8Decode(Utf8Text(s)) == Some(s)
  {
    if s != "" {
      var b := Utf8Text(s);
      EncodedChar(s[0], Utf8Text(s[1..]));
      EncodedDecodes(s[1..]);
      assert b[|Utf8Of(s[0])|..] == Utf8Text(s[1..]);
      assert s == [s[0]] + s[1..];
    }
  }

  lemma DecodedChar(b: seq<Byte>)
    requires Utf8Length(b) > 0
    ensures Utf8Of(Utf8Char(b)) == b[..Utf8Length(b)]
  {
    var n := Utf8Char(b) as int;
    match Utf8Length(b) {
      case 1 =>
      case 2 => DigitsExactly(n, 0, 0, b[0] - 0xC0, Tail(b, 1));
      case 3 => DigitsExactly(n, 0, b[0] - 0xE0, Tail(b, 1), Tail(b, 2));
      case _ => DigitsExactly(n, b[0] - 0xF0, Tail(b, 1), Tail(b, 2), Tail(b, 3));
    }
  }

  lemma EncodeCons(c: char, s: string)
    ensures Utf8Text([c] + s) == Utf8Of(c) + Utf8Text(s)
  {
    assert ([c] + s)[1..] == s;
  }

  /** Only the UTF-8 form of a text decodes to it. */
  lemma {:induction false} DecodedIsEncoded(b: seq<Byte>)
    requires Utf8Decode(b).Some?
    ensures Utf8Text(Utf8Decode(b).value) == b
  {
    if b != [] {
      var n, c := FirstDecoded(b);
      DecodedIsEncoded(b[n..]);
      EncodeCons(c, Utf8Decode(b[n..]).value);
      assert b == b[..n] + b[n..];
    }
  }

  lemma FirstDecoded(b: seq<Byte>) returns (n: nat, c: char)
    requires b != [] && Utf8Decode(b).Some?
    ensures 0 < n <= |b| && Utf8Of(c) == b[..n]
    ensures Utf8Decode(b[n..]).Some? && Utf8Decode(b).value == [c] + Utf8Decode(b[n..]).value
  {
    n, c := Utf8Length(b), Utf8Char(b);
    DecodedChar(b);
  }
}
