/** Canonical unpadded base64url: a permissive decoder followed by a re-encoding
    comparison accepts exactly the encodings (section 3.5 of RFC 4648). */
module Base64Url {
  import opened Wrappers
  import opened Splitting

  /** A byte and a letter's value, bit by bit: regrouping needs no arithmetic. */
  datatype Byte = Byte(b7: bool, b6: bool, b5: bool, b4: bool, b3: bool, b2: bool, b1: bool, b0: bool)
  datatype Sextet = Sextet(b5: bool, b4: bool, b3: bool, b2: bool, b1: bool, b0: bool)

  /** What padded text is made of. */
  datatype Symbol = Of(v: Sextet) | Pad

  const ZERO: Byte := Byte(false, false, false, false, false, false, false, false)

  // ---- Three bytes are four sextets ----

  function First(a: Sextet, b: Sextet): Byte { Byte(a.b5, a.b4, a.b3, a.b2, a.b1, a.b0, b.b5, b.b4) }
  function Second(b: Sextet, c: Sextet): Byte { Byte(b.b3, b.b2, b.b1, b.b0, c.b5, c.b4, c.b3, c.b2) }
  function Third(c: Sextet, d: Sextet): Byte { Byte(c.b1, c.b0, d.b5, d.b4, d.b3, d.b2, d.b1, d.b0) }

  function Lead(x: Byte): Sextet { Sextet(x.b7, x.b6, x.b5, x.b4, x.b3, x.b2) }
  function Next(x: Byte, y: Byte): Sextet { Sextet(x.b1, x.b0, y.b7, y.b6, y.b5, y.b4) }
  function After(y: Byte, z: Byte): Sextet { Sextet(y.b3, y.b2, y.b1, y.b0, z.b7, z.b6) }
  function Last(z: Byte): Sextet { Sextet(z.b5, z.b4, z.b3, z.b2, z.b1, z.b0) }

  // ---- The library's padded codec ----

  function DecodePadded(t: seq<Symbol>): Option<seq<Byte>> {
    if t == [] then Some([])
    else if |t| < 4 || t[0].Pad? || t[1].Pad? then None
    else if t[2..] == [Pad, Pad] then Some([First(t[0].v, t[1].v)])
    else if t[2].Pad? then None
    else if t[3..] == [Pad] then Some([First(t[0].v, t[1].v), Second(t[1].v, t[2].v)])
    else if t[3].Pad? then None
    else match DecodePadded(t[4..])
      case None => None
      case Some(rest) => Some([First(t[0].v, t[1].v), Second(t[1].v, t[2].v), Third(t[2].v, t[3].v)] + rest)
  }

  function EncodePadded(b: seq<Byte>): seq<Symbol> {
    if b == [] then []
    else if |b| == 1 then [Of(Lead(b[0])), Of(Next(b[0], ZERO)), Pad, Pad]
    else if |b| == 2 then [Of(Lead(b[0])), Of(Next(b[0], b[1])), Of(After(b[1], ZERO)), Pad]
    else [Of(Lead(b[0])), Of(Next(b[0], b[1])), Of(After(b[1], b[2])), Of(Last(b[2]))] + EncodePadded(b[3..])
  }

  function StripPadding(t: seq<Symbol>): seq<Symbol> {
    if t != [] && t[|t| - 1].Pad? then StripPadding(t[..|t| - 1]) else t
  }

  /** The padding that completes the last group of four. */
  function Padding(n: nat): (pad: seq<Symbol>)
    ensures (n + |pad|) % 4 == 0 && |pad| < 4
  {
    match n % 4 { case 0 => [] case 1 => [Pad, Pad, Pad] case 2 => [Pad, Pad] case _ => [Pad] }
  }

  function Symbols(t: seq<Sextet>): (u: seq<Symbol>)
    ensures |u| == |t|
  {
    seq(|t|, i requires 0 <= i < |t| => Of(t[i]))
  }

  function DecodeLoosely(t: seq<Sextet>): Option<seq<Byte>> {
    DecodePadded(Symbols(t) + Padding(|t|))
  }

  /** The encoding with its padding removed. */
  function EncodeStripped(b: seq<Byte>): seq<Symbol> { StripPadding(EncodePadded(b)) }

  // ---- The same without padding ----

  /** The decoder with no padding to look at. */
  function Unpack(t: seq<Sextet>): Option<seq<Byte>> {
    if |t| == 0 then Some([])
    else if |t| == 1 then None
    else if |t| == 2 then Some([First(t[0], t[1])])
    else if |t| == 3 then Some([First(t[0], t[1]), Second(t[1], t[2])])
    else match Unpack(t[4..])
      case None => None
      case Some(rest) => Some([First(t[0], t[1]), Second(t[1], t[2]), Third(t[2], t[3])] + rest)
  }

  /** The encoder that never pads. */
  function Pack(b: seq<Byte>): seq<Sextet> {
    if |b| == 0 then []
    else if |b| == 1 then [Lead(b[0]), Next(b[0], ZERO)]
    else if |b| == 2 then [Lead(b[0]), Next(b[0], b[1]), After(b[1], ZERO)]
    else [Lead(b[0]), Next(b[0], b[1]), After(b[1], b[2]), Last(b[2])] + Pack(b[3..])
  }

  lemma {:induction false} StripBehind(head: seq<Symbol>, t: seq<Symbol>)
    requires head != [] && head[|head| - 1].Of?
    ensures StripPadding(head + t) == head + StripPadding(t)
    decreases |t|
  {
    var whole := head + t;
    if t == [] {
      assert whole == head;
    } else if t[|t| - 1].Pad? {
      assert whole[..|whole| - 1] == head + t[..|t| - 1];
      StripBehind(head, t[..|t| - 1]);
    }
  }

  lemma StripPads()
    ensures StripPadding([Pad]) == [] && StripPadding([Pad, Pad]) == []
  {
    assert [Pad, Pad][..1] == [Pad] && [Pad][..0] == [];
    assert StripPadding([Pad]) == [];
  }

  lemma SymbolsJoin(t: seq<Sextet>, u: seq<Sextet>)
    ensures Symbols(t + u) == Symbols(t) + Symbols(u)
  {}

  lemma StripsOne(x: Byte)
    ensures EncodeStripped([x]) == [Of(Lead(x)), Of(Next(x, ZERO))]
  {
    var head := [Of(Lead(x)), Of(Next(x, ZERO))];
    assert EncodePadded([x]) == head + [Pad, Pad];
    StripBehind(head, [Pad, Pad]);
    StripPads();
  }

  lemma StripsTwo(x: Byte, y: Byte)
    ensures EncodeStripped([x, y]) == [Of(Lead(x)), Of(Next(x, y)), Of(After(y, ZERO))]
  {
    var head := [Of(Lead(x)), Of(Next(x, y)), Of(After(y, ZERO))];
    assert EncodePadded([x, y]) == head + [Pad];
    StripBehind(head, [Pad]);
    StripPads();
  }

  lemma {:induction false} PackIsStripped(b: seq<Byte>)
    ensures EncodeStripped(b) == Symbols(Pack(b))
  {
    if |b| >= 3 {
      var group := [Lead(b[0]), Next(b[0], b[1]), After(b[1], b[2]), Last(b[2])];
      PackIsStripped(b[3..]);
      SymbolsJoin(group, Pack(b[3..]));
      assert Symbols(group) == [Of(Lead(b[0])), Of(Next(b[0], b[1])), Of(After(b[1], b[2])), Of(Last(b[2]))];
      StripBehind(Symbols(group), EncodePadded(b[3..]));
    } else if |b| == 2 {
      assert b == [b[0], b[1]];
      StripsTwo(b[0], b[1]);
    } else if |b| == 1 {
      assert b == [b[0]];
      StripsOne(b[0]);
    }
  }

  /** A whole group is decoded before any padding is looked at. */
  lemma PaddedGroup(t: seq<Sextet>, pad: seq<Symbol>)
    requires |t| >= 4
    ensures DecodePadded(Symbols(t) + pad) ==
            match DecodePadded(Symbols(t[4..]) + pad)
            case None => None
            case Some(rest) => Some([First(t[0], t[1]), Second(t[1], t[2]), Third(t[2], t[3])] + rest)
  {
    var padded := Symbols(t) + pad;
    assert padded[4..] == Symbols(t[4..]) + pad;
    assert padded[2..][0] == Of(t[2]) && padded[3..][0] == Of(t[3]);
  }

  lemma LooseOne(a: Sextet)
    ensures DecodeLoosely([a]) == None
  {
    assert Symbols([a]) + Padding(1) == [Of(a), Pad, Pad, Pad];
  }

  lemma LooseTwo(a: Sextet, b: Sextet)
    ensures DecodeLoosely([a, b]) == Some([First(a, b)])
  {
    var padded := [Of(a), Of(b), Pad, Pad];
    assert Symbols([a, b]) + Padding(2) == padded;
    assert padded[2..] == [Pad, Pad];
  }

  lemma LooseThree(a: Sextet, b: Sextet, c: Sextet)
    ensures DecodeLoosely([a, b, c]) == Some([First(a, b), Second(b, c)])
  {
    var padded := [Of(a), Of(b), Of(c), Pad];
    assert Symbols([a, b, c]) + Padding(3) == padded;
    assert padded[2..][0] == Of(c) && padded[3..] == [Pad];
  }

  lemma {:induction false} UnpackIsLoose(t: seq<Sextet>)
    ensures DecodeLoosely(t) == Unpack(t)
  {
    if |t| >= 4 {
      UnpackIsLoose(t[4..]);
      assert |t[4..]| % 4 == |t| % 4;
      PaddedGroup(t, Padding(|t|));
    } else if |t| == 3 {
      assert t == [t[0], t[1], t[2]];
      LooseThree(t[0], t[1], t[2]);
    } else if |t| == 2 {
      assert t == [t[0], t[1]];
      LooseTwo(t[0], t[1]);
    } else if |t| == 1 {
      assert t == [t[0]];
      LooseOne(t[0]);
    }
  }

  // ---- Packing and unpacking ----

  lemma {:induction false} UnpackOfPack(b: seq<Byte>)
    ensures Unpack(Pack(b)) == Some(b)
  {
    if |b| >= 3 {
      UnpackOfPack(b[3..]);
      assert Pack(b)[4..] == Pack(b[3..]);
      assert b == [b[0], b[1], b[2]] + b[3..];
    } else if |b| == 2 {
      assert b == [b[0], b[1]];
    } else if |b| == 1 {
      assert b == [b[0]];
    }
  }

  /** No letter is left over on its own, and the bits of the last letter that
      reach past the last byte are zero. */
  predicate CleanTail(t: seq<Sextet>) {
    match |t| % 4 {
      case 0 => true
      case 1 => false
      case 2 => var last := t[|t| - 1]; !last.b3 && !last.b2 && !last.b1 && !last.b0
      case _ => var last := t[|t| - 1]; !last.b1 && !last.b0
    }
  }

  lemma TailOfGroup(t: seq<Sextet>)
    requires |t| >= 4
    ensures |t[4..]| % 4 == |t| % 4 && (CleanTail(t[4..]) <==> CleanTail(t))
  {
    assert |t| > 4 ==> t[4..][|t[4..]| - 1] == t[|t| - 1];
  }

  /** Unpacking refuses only a left-over letter; of what it takes, comparing
      with the packed form keeps exactly the segments with a clean tail. */
  lemma {:induction false} UnpackThenCompare(t: seq<Sextet>)
    ensures Unpack(t).Some? <==> |t| % 4 != 1
    ensures Unpack(t).Some? ==> (Pack(Unpack(t).value) == t <==> CleanTail(t))
  {
    if |t| >= 4 {
      UnpackThenCompare(t[4..]);
      TailOfGroup(t);
      if Unpack(t).Some? {
        CompareGroup(t, Unpack(t[4..]).value, Unpack(t).value);
      }
    } else if |t| == 2 {
      assert t == [t[0], t[1]];
    } else if |t| == 3 {
      assert t == [t[0], t[1], t[2]];
    }
  }

  lemma CompareGroup(t: seq<Sextet>, rest: seq<Byte>, b: seq<Byte>)
    requires |t| >= 4 && b == [First(t[0], t[1]), Second(t[1], t[2]), Third(t[2], t[3])] + rest
    ensures Pack(b) == t <==> Pack(rest) == t[4..]
  {
    var group := [t[0], t[1], t[2], t[3]];
    assert b[3..] == rest && b[0] == First(t[0], t[1]) && b[1] == Second(t[1], t[2]) && b[2] == Third(t[2], t[3]);
    assert [Lead(b[0]), Next(b[0], b[1]), After(b[1], b[2]), Last(b[2])] == group;
    assert t == group + t[4..];
    if group + Pack(rest) == group + t[4..] { Cancel(group, group, Pack(rest), t[4..]); }
  }

  // ---- Letters ----

  predicate InAlphabet(c: char) {
    'A' <= c <= 'Z' || 'a' <= c <= 'z' || '0' <= c <= '9' || c == '-' || c == '_'
  }

  function Bit(b: bool, weight: int): int { if b then weight else 0 }

  function Index(v: Sextet): (n: int)
    ensures 0 <= n < 64
  {
    Bit(v.b5, 32) + Bit(v.b4, 16) + Bit(v.b3, 8) + Bit(v.b2, 4) + Bit(v.b1, 2) + Bit(v.b0, 1)
  }

  function FromIndex(n: int): Sextet {
    var n4 := n - Bit(n >= 32, 32);
    var n3 := n4 - Bit(n4 >= 16, 16);
    var n2 := n3 - Bit(n3 >= 8, 8);
    var n1 := n2 - Bit(n2 >= 4, 4);
    var n0 := n1 - Bit(n1 >= 2, 2);
    Sextet(n >= 32, n4 >= 16, n3 >= 8, n2 >= 4, n1 >= 2, n0 >= 1)
  }

  lemma IndexOfFrom(n: int)
    requires 0 <= n < 64
    ensures Index(FromIndex(n)) == n
  {}

  lemma FromOfIndex(v: Sextet)
    ensures FromIndex(Index(v)) == v
  {}

  /** The letter at a place of the alphabet, and the place of a letter. */
  function LetterAt(n: int): (c: char)
    requires 0 <= n < 64
    ensures InAlphabet(c)
  {
    if n < 26 then ('A' as int + n) as char
    else if n < 52 then ('a' as int + n - 26) as char
    else if n < 62 then ('0' as int + n - 52) as char
    else if n == 62 then '-' else '_'
  }

  function PlaceOf(c: char): (n: int)
    requires InAlphabet(c)
    ensures 0 <= n < 64 && LetterAt(n) == c
  {
    if 'A' <= c <= 'Z' then c as int - 'A' as int
    else if 'a' <= c <= 'z' then c as int - 'a' as int + 26
    else if '0' <= c <= '9' then c as int - '0' as int + 52
    else if c == '-' then 62 else 63
  }

  function Value(c: char): Sextet
    requires InAlphabet(c)
  {
    FromIndex(PlaceOf(c))
  }

  function Letter(y: Symbol): char {
    match y case Of(v) => LetterAt(Index(v)) case Pad => '='
  }

  lemma LetterOfValue(c: char)
    requires InAlphabet(c)
    ensures Letter(Of(Value(c))) == c
  {
    IndexOfFrom(PlaceOf(c));
  }

  lemma ValueOfLetter(v: Sextet)
    ensures InAlphabet(Letter(Of(v))) && Value(Letter(Of(v))) == v
  {
    FromOfIndex(v);
    assert PlaceOf(LetterAt(Index(v))) == Index(v);
  }

  predicate Alphabetic(s: string) {
    forall i :: 0 <= i < |s| ==> InAlphabet(s[i])
  }

  function Values(s: string): (t: seq<Sextet>)
    requires Alphabetic(s)
    ensures |t| == |s|
  {
    seq(|s|, i requires 0 <= i < |s| => Value(s[i]))
  }

  function Letters(t: seq<Symbol>): (s: string)
    ensures |s| == |t|
  {
    seq(|t|, i requires 0 <= i < |t| => Letter(t[i]))
  }

  lemma LettersOfValues(s: string)
    requires Alphabetic(s)
    ensures Letters(Symbols(Values(s))) == s
  {
    forall i | 0 <= i < |s| ensures Letters(Symbols(Values(s)))[i] == s[i] { LetterOfValue(s[i]); }
  }

  lemma ValuesOfLetters(t: seq<Sextet>)
    ensures Alphabetic(Letters(Symbols(t))) && Values(Letters(Symbols(t))) == t
  {
    forall i | 0 <= i < |t|
      ensures InAlphabet(Letter(Of(t[i]))) && Value(Letter(Of(t[i]))) == t[i] { ValueOfLetter(t[i]); }
  }

  // ---- The token check ----

  /** The plain library decoder on an unpadded segment. */
  function LooseDecode(segment: string): Option<seq<Byte>>
    requires Alphabetic(segment)
  {
    DecodeLoosely(Values(segment))
  }

  function Encode(b: seq<Byte>): string { Letters(EncodeStripped(b)) }

  /** Decode, encode again, and refuse a segment that does not come back. */
  function Decode(segment: string): Option<seq<Byte>>
    requires Alphabetic(segment)
  {
    match LooseDecode(segment)
      case None => None
      case Some(raw) => if Encode(raw) == segment then Some(raw) else None
  }

  lemma {:induction false} DecodeInSextets(segment: string)
    requires Alphabetic(segment)
    ensures LooseDecode(segment) == Unpack(Values(segment))
    ensures forall b :: Encode(b) == segment <==> Pack(b) == Values(segment)
  {
    UnpackIsLoose(Values(segment));
    forall b ensures Encode(b) == segment <==> Pack(b) == Values(segment) {
      PackIsStripped(b);
      ValuesOfLetters(Pack(b));
      LettersOfValues(segment);
    }
  }

  /** Every byte string survives the trip through its encoding. */
  lemma {:induction false} DecodeOfEncode(b: seq<Byte>)
    ensures Alphabetic(Encode(b)) && Decode(Encode(b)) == Some(b)
  {
    PackIsStripped(b);
    ValuesOfLetters(Pack(b));
    DecodeInSextets(Encode(b));
    UnpackOfPack(b);
  }

  /** Accepted means: the unpadded encoding of some byte string. */
  lemma {:induction false} AcceptsExactlyEncodings(s: string)
    requires Alphabetic(s)
    ensures Decode(s).Some? <==> exists b :: Encode(b) == s
    ensures Decode(s).Some? ==> Encode(Decode(s).value) == s
  {
    if b :| Encode(b) == s { DecodeOfEncode(b); }
  }

  /** The same condition in terms the sender of a segment can check. */
  lemma {:induction false} AcceptsExactlyCleanTails(s: string)
    requires Alphabetic(s)
    ensures Decode(s).Some? <==> CleanTail(Values(s))
  {
    DecodeInSextets(s);
    UnpackThenCompare(Values(s));
  }

  // ---- Whole tokens ----

  datatype Token = Token(header: seq<Byte>, payload: seq<Byte>, signature: seq<Byte>)

  /** Split a compact token into its three segments and decode each. */
  function OpenToken(token: string): Option<Token> {
    var parts := SplitOn(token, '.');
    if |token| > 16384 || |parts| != 3 || !(Alphabetic(parts[0]) && Alphabetic(parts[1]) && Alphabetic(parts[2])) then
        None
    else match (Decode(parts[0]), Decode(parts[1]), Decode(parts[2]))
      case (Some(h), Some(p), Some(s)) => Some(Token(h, p, s))
      case _ => None
  }

  lemma SegmentsHaveOneSpelling(s: string, t: string)
    requires Alphabetic(s) && Alphabetic(t) && Decode(s).Some? && Decode(s) == Decode(t)
    ensures s == t
  {
    AcceptsExactlyEncodings(s);
    AcceptsExactlyEncodings(t);
  }

  lemma OpenTokenParts(token: string)
    requires OpenToken(token).Some?
    ensures var parts := SplitOn(token, '.');
            && |parts| == 3 && Alphabetic(parts[0]) && Alphabetic(parts[1]) && Alphabetic(parts[2])
            && Decode(parts[0]) == Some(OpenToken(token).value.header)
            && Decode(parts[1]) == Some(OpenToken(token).value.payload)
            && Decode(parts[2]) == Some(OpenToken(token).value.signature)
            && token == JoinWith([parts[0], parts[1], parts[2]], '.')
  {
    JoinUndoesSplit(token, '.');
    var parts := SplitOn(token, '.');
    assert parts == [parts[0], parts[1], parts[2]];
  }

  /** Each token has one spelling: what decodes alike is the same text. */
  lemma {:induction false} TokensHaveOneSpelling(t: string, u: string)
    requires OpenToken(t).Some? && OpenToken(t) == OpenToken(u)
    ensures t == u
  {
    var a, b := SplitOn(t, '.'), SplitOn(u, '.');
    OpenTokenParts(t);
    OpenTokenParts(u);
    SegmentsHaveOneSpelling(a[0], b[0]);
    SegmentsHaveOneSpelling(a[1], b[1]);
    SegmentsHaveOneSpelling(a[2], b[2]);
  }

  lemma OpensAs(text: string, h: string, p: string, g: string, token: Token)
    requires |text| <= 16384 && SplitOn(text, '.') == [h, p, g] && Alphabetic(h) && Alphabetic(p) && Alphabetic(g)
    requires Decode(h) == Some(token.header) && Decode(p) == Some(token.payload) && Decode(g) == Some(token.signature)
    ensures OpenToken(text) == Some(token)
  {}

  /** Conversely every short enough triple has a spelling. */
  lemma EveryTokenIsSpelled(token: Token)
    ensures var text := JoinWith([Encode(token.header), Encode(token.payload), Encode(token.signature)], '.');
            |text| <= 16384 ==> OpenToken(text) == Some(token)
  {
    var h, p, g := Encode(token.header), Encode(token.payload), Encode(token.signature);
    DecodeOfEncode(token.header);
    DecodeOfEncode(token.payload);
    DecodeOfEncode(token.signature);
    SplitsInThree(h, p, g);
    if |JoinWith([h, p, g], '.')| <= 16384 {
      OpensAs(JoinWith([h, p, g], '.'), h, p, g, token);
    }
  }

  lemma SplitsInThree(h: string, p: string, g: string)
    requires Alphabetic(h) && Alphabetic(p) && Alphabetic(g)
    ensures SplitOn(JoinWith([h, p, g], '.'), '.') == [h, p, g]
  {
    SplitUndoesJoin([h, p, g], '.');
  }

  /** Without the comparison two segments would mean the same byte. */
  lemma LooseSpellingsCollide()
    ensures Alphabetic("QQ") && Alphabetic("QR") && LooseDecode("QQ") == LooseDecode("QR") && Decode("QR").None?
  {
    assert PlaceOf('Q') == 16 && PlaceOf('R') == 17;
    UnpackIsLoose(Values("QQ"));
    UnpackIsLoose(Values("QR"));
    AcceptsExactlyCleanTails("QR");
  }

  // ---- The encoding by its bits (sections 4 and 5 of RFC 4648) ----

  const ALPHABET: string := "ABCDEFGHIJKLMNOPQRSTUVWXYZ" + "abcdefghijklmnopqrstuvwxyz" + "0123456789-_"

  /** A byte's bits, highest first. */
  function BitOf(x: Byte, i: nat): bool {
    if i == 0 then x.b7 else if i == 1 then x.b6 else if i == 2 then x.b5 else if i == 3 then x.b4
    else if i == 4 then x.b3 else if i == 5 then x.b2 else if i == 6 then x.b1 else x.b0
  }

  /** The bits of the bytes in order; zeros stand behind them. */
  function BitAt(b: seq<Byte>, i: nat): bool {
    if b == [] then false else if i < 8 then BitOf(b[0], i) else BitAt(b[1..], i - 8)
  }

  /** The number six bits stand for. */
  function SixBits(b: seq<Byte>, i: nat): (n: int)
    ensures 0 <= n < 64
  {
    Bit(BitAt(b, i), 32) + Bit(BitAt(b, i + 1), 16) + Bit(BitAt(b, i + 2), 8)
    + Bit(BitAt(b, i + 3), 4) + Bit(BitAt(b, i + 4), 2) + Bit(BitAt(b, i + 5), 1)
  }

  /** A sextet with the six bits from place `i` on. */
  function SextetAt(b: seq<Byte>, i: nat): Sextet {
    Sextet(BitAt(b, i), BitAt(b, i + 1), BitAt(b, i + 2), BitAt(b, i + 3), BitAt(b, i + 4), BitAt(b, i + 5))
  }

  lemma LetterInTable(n: int)
    requires 0 <= n < 64
    ensures LetterAt(n) == ALPHABET[n]
  {}

  lemma FirstByteBits(b: seq<Byte>)
    ensures var x := if b == [] then ZERO else b[0];
            && BitAt(b, 0) == x.b7 && BitAt(b, 1) == x.b6 && BitAt(b, 2) == x.b5 && BitAt(b, 3) == x.b4
            && BitAt(b, 4) == x.b3 && BitAt(b, 5) == x.b2 && BitAt(b, 6) == x.b1 && BitAt(b, 7) == x.b0
  {}

  lemma BitsBehind(b: seq<Byte>, i: nat)
    requires b != []
    ensures BitAt(b, 8 + i) == BitAt(b[1..], i)
  {}

  lemma SextetBehind(b: seq<Byte>, i: nat)
    requires b != []
    ensures SextetAt(b, 8 + i) == SextetAt(b[1..], i)
  {
    BitsBehind(b, i); BitsBehind(b, i + 1); BitsBehind(b, i + 2);
    BitsBehind(b, i + 3); BitsBehind(b, i + 4); BitsBehind(b, i + 5);
  }

  function ByteAt(b: seq<Byte>, q: nat): Byte { if q < |b| then b[q] else ZERO }

  /** The sextets that start in the first byte. */
  lemma LeadAndNext(b: seq<Byte>)
    requires b != []
    ensures SextetAt(b, 0) == Lead(b[0]) && SextetAt(b, 6) == Next(b[0], ByteAt(b, 1))
  {
    FirstByteBits(b);
    FirstByteBits(b[1..]);
    BitsBehind(b, 0); BitsBehind(b, 1); BitsBehind(b, 2); BitsBehind(b, 3);
  }

  lemma AfterSecond(b: seq<Byte>)
    requires |b| >= 2
    ensures SextetAt(b, 12) == After(b[1], ByteAt(b, 2))
  {
    var c := b[1..];
    FirstByteBits(c);
    FirstByteBits(c[1..]);
    SextetBehind(b, 4);
    BitsBehind(c, 0); BitsBehind(c, 1);
  }

  lemma LastOfThird(b: seq<Byte>)
    requires |b| >= 3
    ensures SextetAt(b, 18) == Last(b[2])
  {
    FirstByteBits(b[1..][1..]);
    SextetBehind(b, 10);
    SextetBehind(b[1..], 2);
  }

  lemma GroupBehind(b: seq<Byte>, i: nat)
    requires |b| >= 3
    ensures SextetAt(b, 24 + i) == SextetAt(b[3..], i)
  {
    assert b[1..][1..] == b[2..] && b[2..][1..] == b[3..];
    SextetBehind(b, 16 + i);
    SextetBehind(b[1..], 8 + i);
    SextetBehind(b[2..], i);
  }

  lemma {:induction false} PackIsTheBits(b: seq<Byte>, k: nat)
    requires k < |Pack(b)|
    ensures Pack(b)[k] == SextetAt(b, 6 * k)
    decreases |b|
  {
    if k < 2 {
      LeadAndNext(b);
    } else if k == 2 {
      AfterSecond(b);
    } else if k == 3 {
      LastOfThird(b);
    } else {
      PackIsTheBits(b[3..], k - 4);
      GroupBehind(b, 6 * (k - 4));
    }
  }

  lemma {:induction false} PackLength(b: seq<Byte>)
    ensures |Pack(b)| == (8 * |b| + 5) / 6
  {
    if |b| >= 3 { PackLength(b[3..]); }
  }

  /** Each letter stands for six bits of the bytes; there are no more letters than
      the bits need. */
  lemma EncodeIsTheBits(b: seq<Byte>)
    ensures |Encode(b)| == (8 * |b| + 5) / 6
    ensures forall k :: 0 <= k < |Encode(b)| ==> Encode(b)[k] == ALPHABET[SixBits(b, 6 * k)]
  {
    PackIsStripped(b);
    PackLength(b);
    forall k | 0 <= k < |Encode(b)| ensures Encode(b)[k] == ALPHABET[SixBits(b, 6 * k)] {
      PackIsTheBits(b, k);
      LetterInTable(SixBits(b, 6 * k));
    }
  }
}
