/** The cursor parser as functions of text and position, and its agreement with the grammar. */
module JsonParser {
  import opened Options
  import opened Sequences
  import opened Text
  import opened JsonGrammar

  datatype ErrorCode =
    | Bom
    | DuplicateKey
    | LoneSurrogate
    | NonFiniteNumber
    | InvalidNumber
    | InvalidString
    | Syntax
    | TrailingTokens
    | EmptyInput

  datatype Parsed<+T> = Ok(value: T, pos: nat) | Fail(code: ErrorCode)

  predicate Peek(t: Text, p: nat, c: CodeUnit) { p < |t| && t[p] == c }

  function SkipWs(t: Text, p: nat): (q: nat)
    requires p <= |t|
    ensures p <= q <= |t|
    ensures forall i :: p <= i < q ==> IsWs(t[i])
    ensures q < |t| ==> !IsWs(t[q])
    decreases |t| - p
  {
    if p < |t| && IsWs(t[p]) then SkipWs(t, p + 1) else p
  }

  lemma AtFirst(t: Text, p: nat, s: Text)
    requires At(t, p, s) && |s| > 0
    ensures p < |t| && t[p] == s[0]
  {
    assert t[p..p + |s|][0] == t[p];
  }

  // ---- Strings --------------------------------------------------------------

  function Prepend(c: CodeUnit, r: Parsed<Text>): Parsed<Text> {
    match r
    case Ok(s, q) => Ok([c] + s, q)
    case Fail(code) => Fail(code)
  }

  /** The body of a string literal, from just after the opening quote. */
  function StringBody(t: Text, p: nat): (r: Parsed<Text>)
    requires p <= |t|
    ensures r.Ok? ==> p < r.pos <= |t|
    decreases |t| - p
  {
    if p == |t| then Fail(Syntax)
    else if t[p] == QUOTE then Ok([], p + 1)
    else if t[p] == BACKSLASH then
      if p + 1 == |t| then Fail(Syntax)
      else
        var esc := t[p + 1];
        if ShortMeaning(esc).Some? then Prepend(ShortMeaning(esc).value, StringBody(t, p + 2))
        else if esc == 0x75 then
          if p + 6 <= |t| && IsHex(t[p + 2]) && IsHex(t[p + 3]) && IsHex(t[p + 4]) && IsHex(t[p + 5]) then
            Prepend(PieceUnit(Hex(t[p + 2], t[p + 3], t[p + 4], t[p + 5])), StringBody(t, p + 6))
          else Fail(InvalidString)
        else Fail(InvalidString)
    else if t[p] <= 0x1F then Fail(InvalidString)
    else Prepend(t[p], StringBody(t, p + 1))
  }

  /** A string literal whose opening quote is at `p`. */
  function StringAt(t: Text, p: nat): (r: Parsed<Text>)
    requires p < |t|
    ensures r.Ok? ==> p < r.pos <= |t|
  {
    var r := StringBody(t, p + 1);
    if r.Ok? && !WellFormed(r.value) then Fail(LoneSurrogate) else r
  }

  lemma {:induction false} StringBodyComplete(t: Text, p: nat, s: Spelling)
    requires SpellingOk(s) && At(t, p, SpellingText(s))
    ensures StringBody(t, p) == Ok(Decoded(s), p + |SpellingText(s)|)
    decreases s
  {
    hide At, PieceText, PieceOk, PieceUnit;
    match s
    case Close => AtUnit(t, p, QUOTE);
    case Spell(x, rest) =>
      AtConcat(t, p, PieceText(x), SpellingText(rest));
      StringBodyComplete(t, p + |PieceText(x)|, rest);
      StringBodyStep(t, p, x);
  }

  lemma StringAtComplete(t: Text, p: nat, s: Spelling)
    requires SpellingOk(s) && WellFormed(Decoded(s)) && Peek(t, p, QUOTE) && At(t, p + 1, SpellingText(s))
    ensures StringAt(t, p) == Ok(Decoded(s), p + 1 + |SpellingText(s)|)
  {
    hide At, StringBody, WellFormed, SpellingOk, SpellingText, Decoded;
    StringBodyComplete(t, p + 1, s);
  }

  lemma StringBodyStep(t: Text, p: nat, x: Piece)
    requires PieceOk(x) && At(t, p, PieceText(x))
    ensures StringBody(t, p) == Prepend(PieceUnit(x), StringBody(t, p + |PieceText(x)|))
  {
    var n := |PieceText(x)|;
    assert forall i :: p <= i < p + n ==> t[i] == t[p..p + n][i - p];
    match x
    case Plain(c) => assert PieceText(x)[0] == c;
    case Short(e) => assert PieceText(x)[0] == BACKSLASH && PieceText(x)[1] == e;
    case Hex(h0, h1, h2, h3) =>
      var s := PieceText(x);
      assert s[0] == BACKSLASH && s[1] == 0x75 && s[2] == h0 && s[3] == h1 && s[4] == h2 && s[5] == h3;
  }

  /** The piece the body parser reads first, when it does not close or fail. */
  lemma FirstPieceSound(t: Text, p: nat) returns (x: Piece)
    requires p < |t| && StringBody(t, p).Ok? && t[p] != QUOTE
    ensures PieceOk(x) && At(t, p, PieceText(x)) && |PieceText(x)| > 0
  {
    x := if t[p] != BACKSLASH then Plain(t[p])
         else if ShortMeaning(t[p + 1]).Some? then Short(t[p + 1])
         else Hex(t[p + 2], t[p + 3], t[p + 4], t[p + 5]);
    var n := |PieceText(x)|;
    assert forall i :: 0 <= i < n ==> t[p..p + n][i] == PieceText(x)[i];
  }

  lemma {:induction false} StringBodySound(t: Text, p: nat) returns (s: Spelling)
    requires p <= |t| && StringBody(t, p).Ok?
    ensures SpellingOk(s) && At(t, p, SpellingText(s))
    ensures StringBody(t, p) == Ok(Decoded(s), p + |SpellingText(s)|)
    decreases |t| - p
  {
    hide At, PieceText, PieceOk, PieceUnit, ShortMeaning;
    if t[p] == QUOTE {
      s := Close;
      AtUnit(t, p, QUOTE);
    } else {
      var x := FirstPieceSound(t, p);
      StringBodyStep(t, p, x);
      var rest := StringBodySound(t, p + |PieceText(x)|);
      s := Spell(x, rest);
      AtConcat(t, p, PieceText(x), SpellingText(rest));
    }
  }

  // ---- Numbers --------------------------------------------------------------

  function DigitsEnd(t: Text, p: nat): (q: nat)
    requires p <= |t|
    ensures p <= q <= |t|
    ensures forall i :: p <= i < q ==> IsDigit(t[i])
    ensures q < |t| ==> !IsDigit(t[q])
    decreases |t| - p
  {
    if p < |t| && IsDigit(t[p]) then DigitsEnd(t, p + 1) else p
  }

  function IntEnd(t: Text, p: nat): (r: Option<nat>)
    requires p <= |t|
    ensures r.Some? ==> p < r.value <= |t|
  {
    if Peek(t, p, ZERO) then Some(p + 1)
    else if p < |t| && IsDigit(t[p]) then Some(DigitsEnd(t, p))
    else None
  }

  function FracEnd(t: Text, p: nat): (r: Option<nat>)
    requires p <= |t|
    ensures r.Some? ==> p <= r.value <= |t|
  {
    if !Peek(t, p, DOT) then Some(p)
    else if p + 1 < |t| && IsDigit(t[p + 1]) then Some(DigitsEnd(t, p + 1))
    else None
  }

  function ExpEnd(t: Text, p: nat): (r: Option<nat>)
    requires p <= |t|
    ensures r.Some? ==> p <= r.value <= |t|
  {
    if !(Peek(t, p, 0x65) || Peek(t, p, 0x45)) then Some(p)
    else
      var s := if Peek(t, p + 1, PLUS) || Peek(t, p + 1, MINUS) then p + 2 else p + 1;
      if s < |t| && IsDigit(t[s]) then Some(DigitsEnd(t, s)) else None
  }

  /** Where a number token starting at `p` ends. */
  function NumberEnd(t: Text, p: nat): (r: Option<nat>)
    requires p <= |t|
    ensures r.Some? ==> p < r.value <= |t|
  {
    var a := IntEnd(t, if Peek(t, p, MINUS) then p + 1 else p);
    if a.None? then None
    else
      var b := FracEnd(t, a.value);
      if b.None? then None else ExpEnd(t, b.value)
  }

  function NumberAt(num: NumberFormat, t: Text, p: nat): (r: Parsed<Json>)
    requires p <= |t|
    ensures r.Ok? ==> p < r.pos <= |t|
  {
    var e := NumberEnd(t, p);
    if e.None? then Fail(InvalidNumber)
    else
      var d := num.read(t[p..e.value]);
      if d.None? then Fail(NonFiniteNumber) else Ok(Num(d.value), e.value)
  }

  /** A position where no number token could continue. */
  predicate Stops(t: Text, q: nat) {
    q < |t| ==> IsWs(t[q]) || t[q] == COMMA || t[q] == RBRACKET || t[q] == RBRACE
  }

  lemma {:induction false} DigitsEndIs(t: Text, p: nat, ds: Text)
    requires AllDigits(ds) && At(t, p, ds)
    requires p + |ds| < |t| ==> !IsDigit(t[p + |ds|])
    ensures DigitsEnd(t, p) == p + |ds|
  {
    forall i | p <= i < p + |ds| ensures IsDigit(t[i]) {
      assert t[i] == t[p..p + |ds|][i - p];
    }
  }

  lemma NumberEndComplete(t: Text, p: nat, n: NumTok)
    requires NumTokOk(n) && At(t, p, NumText(n)) && Stops(t, p + |NumText(n)|)
    ensures NumberEnd(t, p) == Some(p + |NumText(n)|)
  {
    hide At, ExpEnd, FracEnd, IntEnd, FracText, AllDigits, ExponentMarks;
    var a, b, c := NumberParts(t, p, n);
    ExpEndComplete(t, c, n);
    FracEndComplete(t, b, n);
    IntEndComplete(t, a, n);
    SignComplete(t, p, n);
  }

  /** Positions of the parts of a number token. */
  lemma NumberParts(t: Text, p: nat, n: NumTok) returns (a: nat, b: nat, c: nat)
    requires At(t, p, NumText(n))
    ensures a == p + |SignText(n)| && At(t, p, SignText(n)) && At(t, a, n.whole)
    ensures b == a + |n.whole| && At(t, b, FracText(n))
    ensures c == b + |FracText(n)| && At(t, c, n.e) && At(t, c + |n.e|, n.exp)
    ensures c + |n.e| + |n.exp| == p + |NumText(n)|
  {
    hide At, SignText, FracText;
    var tail2 := n.e + n.exp;
    var tail1 := FracText(n) + tail2;
    AtConcat(t, p, SignText(n), n.whole + tail1);
    a := p + |SignText(n)|;
    AtConcat(t, a, n.whole, tail1);
    b := a + |n.whole|;
    AtConcat(t, b, FracText(n), tail2);
    c := b + |FracText(n)|;
    AtConcat(t, c, n.e, n.exp);
  }

  lemma SignComplete(t: Text, p: nat, n: NumTok)
    requires NumTokOk(n) && At(t, p, SignText(n)) && At(t, p + |SignText(n)|, n.whole)
    ensures Peek(t, p, MINUS) <==> n.minus
  {
    AtFirst(t, p + |SignText(n)|, n.whole);
    if n.minus { AtUnit(t, p, MINUS); }
  }

  lemma IntEndComplete(t: Text, a: nat, n: NumTok)
    requires NumTokOk(n) && At(t, a, n.whole)
    requires a + |n.whole| < |t| ==> !IsDigit(t[a + |n.whole|])
    ensures IntEnd(t, a) == Some(a + |n.whole|)
  {
    AtFirst(t, a, n.whole);
    if n.whole[0] != ZERO { DigitsEndIs(t, a, n.whole); }
  }

  lemma ExpEndComplete(t: Text, c: nat, n: NumTok)
    requires NumTokOk(n) && At(t, c, n.e) && At(t, c + |n.e|, n.exp) && Stops(t, c + |n.e| + |n.exp|)
    ensures ExpEnd(t, c) == Some(c + |n.e| + |n.exp|)
    ensures n.exp != [] ==> Peek(t, c, 0x65) || Peek(t, c, 0x45)
  {
    if n.exp != [] {
      var d := c + |n.e|;
      assert forall i :: 0 <= i < |n.e| ==> t[c + i] == t[c..d][i] == n.e[i];
      assert t[c + 0] == n.e[0];
      assert |n.e| == 2 ==> t[c + 1] == n.e[1];
      assert t[d] == t[d..d + |n.exp|][0] == n.exp[0];
      DigitsEndIs(t, d, n.exp);
    }
  }

  lemma FracEndComplete(t: Text, b: nat, n: NumTok)
    requires NumTokOk(n) && At(t, b, FracText(n))
    requires var c := b + |FracText(n)|; Stops(t, c) || Peek(t, c, 0x65) || Peek(t, c, 0x45)
    ensures FracEnd(t, b) == Some(b + |FracText(n)|)
    ensures b < |t| ==> !IsDigit(t[b])
  {
    if n.frac != [] {
      AtConcat(t, b, [DOT], n.frac);
      AtUnit(t, b, DOT);
      assert t[b + 1] == t[b + 1..b + 1 + |n.frac|][0] == n.frac[0];
      DigitsEndIs(t, b + 1, n.frac);
    }
  }

  lemma NumberEndSound(t: Text, p: nat) returns (n: NumTok)
    requires p <= |t| && NumberEnd(t, p).Some?
    ensures NumTokOk(n) && NumText(n) == t[p..NumberEnd(t, p).value]
  {
    hide IntEnd, FracEnd, ExpEnd, AllDigits, ExponentMarks, SignText;
    var minus := Peek(t, p, MINUS);
    var a := if minus then p + 1 else p;
    var b := IntEnd(t, a).value;
    var c := FracEnd(t, b).value;
    var d := ExpEnd(t, c).value;
    var s := if c == d then c else if Peek(t, c + 1, PLUS) || Peek(t, c + 1, MINUS) then c + 2 else c + 1;
    IntEndSound(t, a, b);
    var frac := FracEndSound(t, b, c);
    ExpEndSound(t, c, d, s);
    n := NumTok(minus, t[a..b], frac, t[c..s], t[s..d]);
    SignSound(t, p, n);
    Join4(t, p, a, b, c, s, d);
  }

  lemma SignSound(t: Text, p: nat, n: NumTok)
    requires n.minus == Peek(t, p, MINUS) && p <= |t|
    ensures SignText(n) == t[p..if n.minus then p + 1 else p]
  {}

  lemma IntEndSound(t: Text, a: nat, b: nat)
    requires a <= |t| && IntEnd(t, a) == Some(b)
    ensures AllDigits(t[a..b]) && (t[a..b][0] == ZERO ==> b == a + 1)
  {
    assert t[a..b][0] == t[a];
  }

  lemma FracEndSound(t: Text, b: nat, c: nat) returns (frac: Text)
    requires b <= |t| && FracEnd(t, b) == Some(c)
    ensures AllDigits(frac) && (if frac == [] then [] else [DOT] + frac) == t[b..c]
  {
    frac := if b == c then [] else t[b + 1..c];
    if b != c {
      assert frac[0] == t[b + 1];
      assert t[b..c] == [t[b]] + t[b + 1..c];
    }
  }

  lemma ExpEndSound(t: Text, c: nat, d: nat, s: nat)
    requires c <= |t| && ExpEnd(t, c) == Some(d)
    requires s == if c == d then c else if Peek(t, c + 1, PLUS) || Peek(t, c + 1, MINUS) then c + 2 else c + 1
    ensures c <= s <= d <= |t| && AllDigits(t[s..d])
    ensures if c == d then t[c..s] == [] == t[s..d] else t[c..s] in ExponentMarks() && t[s..d] != []
  {
    if c != d {
      assert t[c..s] == if s == c + 2 then [t[c], t[c + 1]] else [t[c]];
    }
  }

  lemma Join4(t: Text, p: nat, a: nat, b: nat, c: nat, s: nat, d: nat)
    requires p <= a <= b <= c <= s <= d <= |t|
    ensures t[p..a] + (t[a..b] + (t[b..c] + (t[c..s] + t[s..d]))) == t[p..d]
  {
    SlicesMeet(t, c, s, d);
    SlicesMeet(t, b, c, d);
    SlicesMeet(t, a, b, d);
    SlicesMeet(t, p, a, d);
  }

  // ---- Values ---------------------------------------------------------------

  function Keyword(t: Text, p: nat): (r: Parsed<Json>)
    ensures r.Ok? ==> p < r.pos <= |t|
  {
    if At(t, p, TRUE_TEXT) then Ok(Bool(true), p + 4)
    else if At(t, p, FALSE_TEXT) then Ok(Bool(false), p + 5)
    else if At(t, p, NULL_TEXT) then Ok(Null, p + 4)
    else Fail(Syntax)
  }

  function ParseValue(num: NumberFormat, t: Text, start: nat): (r: Parsed<Json>)
    requires start <= |t|
    ensures r.Ok? ==> start < r.pos <= |t|
    decreases |t| - start, 1
  {
    var p := SkipWs(t, start);
    if p == |t| then Fail(Syntax)
    else if t[p] == LBRACE then ObjectAt(num, t, p)
    else if t[p] == LBRACKET then ArrayAt(num, t, p)
    else if t[p] == QUOTE then
      match StringAt(t, p)
      case Ok(s, e) => Ok(Str(s), e)
      case Fail(code) => Fail(code)
    else if t[p] == MINUS || IsDigit(t[p]) then NumberAt(num, t, p)
    else Keyword(t, p)
  }

  /** An object whose opening brace is at `p`. */
  function ObjectAt(num: NumberFormat, t: Text, p: nat): (r: Parsed<Json>)
    requires p < |t|
    ensures r.Ok? ==> p < r.pos <= |t|
    decreases |t| - p, 0
  {
    var q := SkipWs(t, p + 1);
    if Peek(t, q, RBRACE) then Ok(Obj(map[]), q + 1)
    else
      match ParseFields(num, t, q, map[])
      case Ok(m, e) => Ok(Obj(m), e)
      case Fail(code) => Fail(code)
  }

  /** An array whose opening bracket is at `p`. */
  function ArrayAt(num: NumberFormat, t: Text, p: nat): (r: Parsed<Json>)
    requires p < |t|
    ensures r.Ok? ==> p < r.pos <= |t|
    decreases |t| - p, 0
  {
    var q := SkipWs(t, p + 1);
    if Peek(t, q, RBRACKET) then Ok(Arr([]), q + 1)
    else
      match ParseElements(num, t, q)
      case Ok(vs, e) => Ok(Arr(vs), e)
      case Fail(code) => Fail(code)
  }

  /** The loop of `parseArray`, one iteration a call. */
  function ParseElements(num: NumberFormat, t: Text, start: nat): (r: Parsed<seq<Json>>)
    requires start <= |t|
    ensures r.Ok? ==> start < r.pos <= |t|
    decreases |t| - start, 2
  {
    match ParseValue(num, t, SkipWs(t, start))
    case Fail(code) => Fail(code)
    case Ok(v, e) =>
      var q := SkipWs(t, e);
      if Peek(t, q, COMMA) then
        match ParseElements(num, t, q + 1)
        case Ok(vs, f) => Ok([v] + vs, f)
        case Fail(code) => Fail(code)
      else if Peek(t, q, RBRACKET) then Ok([v], q + 1)
      else Fail(Syntax)
  }

  /** The loop of `parseObject`, with the members read so far. */
  function ParseFields(num: NumberFormat, t: Text, start: nat, m: map<Text, Json>): (r: Parsed<map<Text, Json>>)
    requires start <= |t|
    ensures r.Ok? ==> start < r.pos <= |t|
    decreases |t| - start, 3
  {
    ParseMember(num, t, SkipWs(t, start), m)
  }

  /** One iteration of that loop, from the member name at `p`. */
  function ParseMember(num: NumberFormat, t: Text, p: nat, m: map<Text, Json>): (r: Parsed<map<Text, Json>>)
    requires p <= |t|
    ensures r.Ok? ==> p < r.pos <= |t|
    decreases |t| - p, 2
  {
    if !Peek(t, p, QUOTE) then Fail(Syntax)
    else
      match StringAt(t, p)
      case Fail(code) => Fail(code)
      case Ok(key, k) =>
        if key in m then Fail(DuplicateKey)
        else
          var c := SkipWs(t, k);
          if !Peek(t, c, COLON) then Fail(Syntax) else ParseMemberValue(num, t, c, m, key)
  }

  /** The rest of that iteration, from the colon at `c`. */
  function ParseMemberValue(
      num: NumberFormat, t: Text, c: nat, m: map<Text, Json>, key: Text): (r: Parsed<map<Text, Json>>)
    requires c < |t|
    ensures r.Ok? ==> c < r.pos <= |t|
    decreases |t| - c, 1
  {
    match ParseValue(num, t, SkipWs(t, c + 1))
    case Fail(code) => Fail(code)
    case Ok(v, e) =>
      var q := SkipWs(t, e);
      if Peek(t, q, COMMA) then ParseFields(num, t, q + 1, m[key := v])
      else if Peek(t, q, RBRACE) then Ok(m[key := v], q + 1)
      else Fail(Syntax)
  }

  /** The whole entry point on text input: one value, whitespace around it, nothing else. */
  function ParseText(num: NumberFormat, t: Text): (r: Parsed<Json>)
    ensures r.Ok? ==> r.pos == |t|
  {
    if Peek(t, 0, BOM) then Fail(Bom)
    else
      var p := SkipWs(t, 0);
      if p == |t| then Fail(EmptyInput)
      else
        match ParseValue(num, t, p)
        case Fail(code) => Fail(code)
        case Ok(v, e) => if SkipWs(t, e) == |t| then Ok(v, |t|) else Fail(TrailingTokens)
  }

  // ---- Completeness: every admissible derivation is accepted ------------------

  lemma SkipWsIs(t: Text, p: nat, w: Text)
    requires AllWs(w) && At(t, p, w)
    requires p + |w| < |t| ==> !IsWs(t[p + |w|])
    ensures SkipWs(t, p) == p + |w|
  {
    forall i | p <= i < p + |w| ensures IsWs(t[i]) {
      assert t[i] == t[p..p + |w|][i - p];
    }
  }

  lemma FirstUnit(c: Cst)
    requires Derivation(c)
    ensures |Yield(c)| > 0
    ensures var u := Yield(c)[0]; !IsWs(u) && u != RBRACKET && u != RBRACE && u != COMMA && u != COLON
  {
    if c.CNum? && !c.n.minus { assert NumText(c.n)[0] == c.n.whole[0]; }
  }

  /** What reading a value does at an opening brace, and at an opening bracket. */
  lemma ObjectDispatch(num: NumberFormat, t: Text, start: nat, p: nat)
    requires start <= |t| && p == SkipWs(t, start) && p < |t| && t[p] == LBRACE
    ensures var q := SkipWs(t, p + 1);
            && (Peek(t, q, RBRACE) ==> ParseValue(num, t, start) == Ok(Obj(map[]), q + 1))
            && (!Peek(t, q, RBRACE) ==>
                  var r := ParseFields(num, t, q, map[]);
                  ParseValue(num, t, start) == if r.Ok? then Ok(Obj(r.value), r.pos) else Fail(r.code))
  {
    hide ParseFields, SkipWs;
  }

  lemma ArrayDispatch(num: NumberFormat, t: Text, start: nat, p: nat)
    requires start <= |t| && p == SkipWs(t, start) && p < |t| && t[p] == LBRACKET
    ensures var q := SkipWs(t, p + 1);
            && (Peek(t, q, RBRACKET) ==> ParseValue(num, t, start) == Ok(Arr([]), q + 1))
            && (!Peek(t, q, RBRACKET) ==>
                  var r := ParseElements(num, t, q);
                  ParseValue(num, t, start) == if r.Ok? then Ok(Arr(r.value), r.pos) else Fail(r.code))
  {
    hide ParseElements, SkipWs;
  }

  lemma {:induction false} ValueComplete(num: NumberFormat, t: Text, p: nat, c: Cst)
    requires Derivation(c) && Admissible(num, c)
    requires At(t, p, Yield(c)) && Stops(t, p + |Yield(c)|)
    ensures ParseValue(num, t, p) == Ok(Denote(num, c), p + |Yield(c)|)
    decreases c
  {
    hide At, ParseValue, ParseElements, ParseFields, DenoteElems, DenoteFields, YieldElems, YieldFields, AllWs,
         Distinct;
    FirstUnit(c);
    AtFirst(t, p, Yield(c));
    match c
    case CArr0(w) =>
      EmptyComplete(t, p, LBRACKET, w, RBRACKET);
      ArrayDispatch(num, t, p, p);
    case CObj0(w) =>
      EmptyComplete(t, p, LBRACE, w, RBRACE);
      ObjectDispatch(num, t, p, p);
    case CArr(elems) =>
      AtConcat(t, p, [LBRACKET], YieldElems(elems));
      ElementsComplete(num, t, p + 1, elems);
      ElementsStart(t, p + 1, elems);
      ElementsSkip(num, t, p + 1);
      ArrayDispatch(num, t, p, p);
    case CObj(fields) =>
      AtConcat(t, p, [LBRACE], YieldFields(fields));
      FieldsComplete(num, t, p + 1, fields, map[]);
      FieldsStart(t, p + 1, fields);
      FieldsSkip(num, t, p + 1);
      ObjectDispatch(num, t, p, p);
      assert map[] + DenoteFields(num, fields) == DenoteFields(num, fields);
    case _ => ScalarComplete(num, t, p, c);
  }

  lemma ScalarComplete(num: NumberFormat, t: Text, p: nat, c: Cst)
    requires Derivation(c) && Admissible(num, c) && !c.CArr0? && !c.CArr? && !c.CObj0? && !c.CObj?
    requires At(t, p, Yield(c)) && Stops(t, p + |Yield(c)|)
    ensures ParseValue(num, t, p) == Ok(Denote(num, c), p + |Yield(c)|)
  {
    hide At, ParseElements, ParseFields, StringAt, NumberAt, Keyword, NumText, NumTokOk, SpellingText, SpellingOk,
         Decoded, WellFormed;
    FirstUnit(c);
    AtFirst(t, p, Yield(c));
    match c
    case CNum(n) => NumberComplete(num, t, p, n);
    case CStr(s) =>
      AtConcat(t, p, [QUOTE], SpellingText(s));
      StringAtComplete(t, p, s);
    case _ => KeywordComplete(t, p);
  }

  lemma NumberComplete(num: NumberFormat, t: Text, p: nat, n: NumTok)
    requires NumTokOk(n) && num.read(NumText(n)).Some?
    requires At(t, p, NumText(n)) && Stops(t, p + |NumText(n)|)
    ensures NumberAt(num, t, p) == Ok(Num(num.read(NumText(n)).value), p + |NumText(n)|)
    ensures t[p] == MINUS || IsDigit(t[p])
  {
    hide NumberEnd;
    NumberEndComplete(t, p, n);
    AtFirst(t, p, NumText(n));
    assert NumText(n)[0] == if n.minus then MINUS else n.whole[0];
  }

  lemma KeywordComplete(t: Text, p: nat)
    ensures At(t, p, TRUE_TEXT) ==> Keyword(t, p) == Ok(Bool(true), p + 4)
    ensures At(t, p, FALSE_TEXT) ==> Keyword(t, p) == Ok(Bool(false), p + 5)
    ensures At(t, p, NULL_TEXT) ==> Keyword(t, p) == Ok(Null, p + 4)
  {
    hide At;
    if At(t, p, TRUE_TEXT) { AtFirst(t, p, TRUE_TEXT); }
    if At(t, p, FALSE_TEXT) { AtFirst(t, p, FALSE_TEXT); }
    if At(t, p, NULL_TEXT) { AtFirst(t, p, NULL_TEXT); }
  }

  lemma EmptyComplete(t: Text, p: nat, open: CodeUnit, w: Text, close: CodeUnit)
    requires AllWs(w) && !IsWs(close) && At(t, p, [open] + (w + [close]))
    ensures SkipWs(t, p + 1) == p + 1 + |w| && Peek(t, p + 1 + |w|, close)
  {
    AtConcat(t, p, [open], w + [close]);
    AtConcat(t, p + 1, w, [close]);
    AtUnit(t, p + 1 + |w|, close);
    SkipWsIs(t, p + 1, w);
  }

  lemma SkipWsTwice(t: Text, p: nat)
    requires p <= |t|
    ensures SkipWs(t, SkipWs(t, p)) == SkipWs(t, p)
  {}

  /** Leading whitespace is skipped again inside the loops, to no effect. */
  lemma ElementsSkip(num: NumberFormat, t: Text, p: nat)
    requires p <= |t|
    ensures ParseElements(num, t, SkipWs(t, p)) == ParseElements(num, t, p)
  {
    SkipWsTwice(t, p);
  }

  lemma FieldsSkip(num: NumberFormat, t: Text, p: nat)
    requires p <= |t|
    ensures ParseFields(num, t, SkipWs(t, p), map[]) == ParseFields(num, t, p, map[])
  {
    hide ParseMember;
    SkipWsTwice(t, p);
  }

  lemma ElementsStart(t: Text, p: nat, e: Elems)
    requires DerivationElems(e) && At(t, p, YieldElems(e))
    ensures SkipWs(t, p) == p + |e.before| && !Peek(t, p + |e.before|, RBRACKET)
  {
    hide At, Yield;
    var tail := YieldElems(e)[|e.before|..];
    assert YieldElems(e) == e.before + tail;
    AtConcat(t, p, e.before, tail);
    FirstUnit(e.v);
    AtFirst(t, p + |e.before|, tail);
    assert tail[0] == Yield(e.v)[0];
    SkipWsIs(t, p, e.before);
  }

  lemma FieldsStart(t: Text, p: nat, f: Fields)
    requires DerivationFields(f) && At(t, p, YieldFields(f))
    ensures SkipWs(t, p) == p + |f.w0| && Peek(t, p + |f.w0|, QUOTE)
  {
    hide At, Yield, SpellingText;
    var tail := YieldFields(f)[|f.w0|..];
    assert YieldFields(f) == f.w0 + tail;
    AtConcat(t, p, f.w0, tail);
    AtFirst(t, p + |f.w0|, tail);
    SkipWsIs(t, p, f.w0);
  }

  /** What follows an element or member value: whitespace, then the separator. */
  lemma AfterValue(t: Text, p: nat, w: Text, sep: CodeUnit, tail: Text)
    requires AllWs(w) && At(t, p, w + ([sep] + tail))
    requires sep == COMMA || sep == RBRACKET || sep == RBRACE
    ensures Stops(t, p) && SkipWs(t, p) == p + |w| && Peek(t, p + |w|, sep) && At(t, p + |w| + 1, tail)
  {
    hide At;
    AtConcat(t, p, w, [sep] + tail);
    AtConcat(t, p + |w|, [sep], tail);
    AtUnit(t, p + |w|, sep);
    SkipWsIs(t, p, w);
    if |w| > 0 { AtFirst(t, p, w); }
  }

  function ElemsTail(e: Elems): Text {
    match e case LastElem(_, _, _) => [RBRACKET] case MoreElems(_, _, _, rest) => [COMMA] + YieldElems(rest)
  }

  /** Positions of the parts of one element. */
  lemma ElemParts(t: Text, p: nat, e: Elems) returns (a: nat, b: nat, q: nat)
    requires DerivationElems(e) && At(t, p, YieldElems(e))
    ensures a == p + |e.before| && SkipWs(t, p) == a && At(t, a, Yield(e.v))
    ensures b == a + |Yield(e.v)| && Stops(t, b) && SkipWs(t, b) == q == b + |e.after|
    ensures e.LastElem? ==> Peek(t, q, RBRACKET) && q + 1 == p + |YieldElems(e)|
    ensures e.MoreElems? ==>
              Peek(t, q, COMMA) && At(t, q + 1, YieldElems(e.rest))
                && q + 1 + |YieldElems(e.rest)| == p + |YieldElems(e)|
  {
    hide At, Yield, SkipWs, AllWs, Stops, Derivation;
    ElementsStart(t, p, e);
    AtConcat(t, p, e.before, Yield(e.v) + (e.after + ElemsTail(e)));
    a := p + |e.before|;
    AtConcat(t, a, Yield(e.v), e.after + ElemsTail(e));
    b := a + |Yield(e.v)|;
    q := b + |e.after|;
    if e.MoreElems? {
      AfterValue(t, b, e.after, COMMA, YieldElems(e.rest));
    } else {
      assert [RBRACKET] + [] == [RBRACKET];
      AfterValue(t, b, e.after, RBRACKET, []);
    }
  }

  /** One iteration of the two loops, where their recursion is otherwise hidden. */
  lemma ElementsUnfold(num: NumberFormat, t: Text, start: nat)
    requires start <= |t|
    ensures ParseElements(num, t, start) ==
            match ParseValue(num, t, SkipWs(t, start))
            case Fail(code) => Fail(code)
            case Ok(v, e) =>
              var q := SkipWs(t, e);
              if Peek(t, q, COMMA) then
                match ParseElements(num, t, q + 1)
                case Ok(vs, f) => Ok([v] + vs, f)
                case Fail(code) => Fail(code)
              else if Peek(t, q, RBRACKET) then Ok([v], q + 1)
              else Fail(Syntax)
  {
    hide ParseValue, SkipWs;
  }

  lemma MemberValueUnfold(num: NumberFormat, t: Text, c: nat, m: map<Text, Json>, key: Text)
    requires c < |t|
    ensures var r, v := ParseMemberValue(num, t, c, m, key), ParseValue(num, t, SkipWs(t, c + 1));
            match v
            case Fail(code) => r == Fail(code)
            case Ok(value, e) =>
              var q := SkipWs(t, e);
              && (Peek(t, q, COMMA) ==> r == ParseFields(num, t, q + 1, m[key := value]))
              && (Peek(t, q, RBRACE) ==> r == Ok(m[key := value], q + 1))
              && (!Peek(t, q, COMMA) && !Peek(t, q, RBRACE) ==> r == Fail(Syntax))
  {
    hide ParseValue, ParseFields, SkipWs;
  }

  lemma FieldsUnfold(num: NumberFormat, t: Text, start: nat, m: map<Text, Json>)
    requires start <= |t|
    ensures ParseFields(num, t, start, m) == ParseMember(num, t, SkipWs(t, start), m)
  {
    hide ParseMember, SkipWs;
  }

  /** One iteration of `ParseElements`, spelled out. */
  lemma ElementsStep(num: NumberFormat, t: Text, p: nat, v: Json, b: nat, q: nat)
    requires p <= |t| && ParseValue(num, t, SkipWs(t, p)) == Ok(v, b) && SkipWs(t, b) == q < |t|
    ensures Peek(t, q, COMMA) && ParseElements(num, t, q + 1).Ok? ==>
              ParseElements(num, t, p) == Ok([v] + ParseElements(num, t, q + 1).value, ParseElements(num, t, q + 1).pos)
    ensures Peek(t, q, RBRACKET) ==> ParseElements(num, t, p) == Ok([v], q + 1)
  {
    hide ParseValue, SkipWs;
  }

  lemma {:induction false} ElementsComplete(num: NumberFormat, t: Text, p: nat, e: Elems)
    requires DerivationElems(e) && AdmissibleElems(num, e) && At(t, p, YieldElems(e))
    ensures ParseElements(num, t, p) == Ok(DenoteElems(num, e), p + |YieldElems(e)|)
    decreases e
  {
    hide At, Yield, ParseValue, SkipWs, ParseElements, YieldElems, AllWs, Denote, Admissible, Derivation;
    var a, b, q := ElemParts(t, p, e);
    var v := Denote(num, e.v);
    ValueComplete(num, t, a, e.v);
    ElementsStep(num, t, p, v, b, q);
    if e.MoreElems? {
      ElementsComplete(num, t, q + 1, e.rest);
    } else {
      assert DenoteElems(num, e) == [v];
    }
  }

  function FieldsTail(f: Fields): Text {
    match f case LastField(_, _, _, _, _, _) => [RBRACE]
      case MoreFields(_, _, _, _, _, _, rest) => [COMMA] + YieldFields(rest)
  }

  /** Positions of the parts of one member. */
  lemma FieldParts(t: Text, p: nat, f: Fields) returns (k: nat, c: nat, v: nat, e: nat, q: nat)
    requires DerivationFields(f) && At(t, p, YieldFields(f))
    ensures k == p + |f.w0| && SkipWs(t, p) == k && Peek(t, k, QUOTE) && At(t, k + 1, SpellingText(f.key))
    ensures c == k + 1 + |SpellingText(f.key)| + |f.w1| && SkipWs(t, c - |f.w1|) == c && Peek(t, c, COLON)
    ensures v == c + 1 + |f.w2| && SkipWs(t, c + 1) == v && At(t, v, Yield(f.v))
    ensures e == v + |Yield(f.v)| && Stops(t, e) && SkipWs(t, e) == q == e + |f.w3|
    ensures f.LastField? ==> Peek(t, q, RBRACE) && q + 1 == p + |YieldFields(f)|
    ensures f.MoreFields? ==>
              Peek(t, q, COMMA) && At(t, q + 1, YieldFields(f.rest))
                && q + 1 + |YieldFields(f.rest)| == p + |YieldFields(f)|
  {
    hide At, Yield, SpellingText, SkipWs, AllWs, Stops, SpellingOk, Derivation, FieldsTail, YieldFields;
    FieldsStart(t, p, f);
    k := p + |f.w0|;
    c := FieldNameParts(t, p, f);
    v := c + 1 + |f.w2|;
    FieldValueParts(t, c, f);
    e := v + |Yield(f.v)|;
    q := e + |f.w3|;
    AfterField(t, e, f);
    FieldLength(f);
  }

  function FieldValueText(f: Fields): Text { f.w2 + (Yield(f.v) + (f.w3 + FieldsTail(f))) }

  lemma FieldLength(f: Fields)
    ensures YieldFields(f) == f.w0 + ([QUOTE] + (SpellingText(f.key) + (f.w1 + ([COLON] + FieldValueText(f)))))
    ensures |YieldFields(f)| == |f.w0| + 1 + |SpellingText(f.key)| + |f.w1| + 1 + |f.w2| + |Yield(f.v)| + |f.w3| +
                                (if f.MoreFields? then 1 + |YieldFields(f.rest)| else 1)
  {
    hide Yield, SpellingText;
  }

  lemma FieldNameParts(t: Text, p: nat, f: Fields) returns (c: nat)
    requires DerivationFields(f) && At(t, p, YieldFields(f))
    ensures At(t, p + |f.w0| + 1, SpellingText(f.key))
    ensures c == p + |f.w0| + 1 + |SpellingText(f.key)| + |f.w1|
    ensures SkipWs(t, c - |f.w1|) == c && Peek(t, c, COLON) && At(t, c + 1, FieldValueText(f))
  {
    hide At, Yield, SpellingText, SkipWs, AllWs, YieldFields, FieldValueText, SpellingOk, Derivation;
    FieldLength(f);
    var r2 := [COLON] + FieldValueText(f);
    var r1 := f.w1 + r2;
    var k := p + |f.w0|;
    AtConcat(t, p, f.w0, [QUOTE] + (SpellingText(f.key) + r1));
    AtConcat(t, k, [QUOTE], SpellingText(f.key) + r1);
    AtConcat(t, k + 1, SpellingText(f.key), r1);
    var w := k + 1 + |SpellingText(f.key)|;
    AtConcat(t, w, f.w1, r2);
    c := w + |f.w1|;
    AtConcat(t, c, [COLON], FieldValueText(f));
    AtUnit(t, c, COLON);
    SkipWsIs(t, w, f.w1);
  }

  lemma FieldValueParts(t: Text, c: nat, f: Fields)
    requires DerivationFields(f) && At(t, c + 1, FieldValueText(f))
    ensures var v := c + 1 + |f.w2|;
            SkipWs(t, c + 1) == v && At(t, v, Yield(f.v)) && At(t, v + |Yield(f.v)|, f.w3 + FieldsTail(f))
  {
    hide At, Yield, SkipWs, AllWs, FieldsTail;
    var r5 := f.w3 + FieldsTail(f);
    AtConcat(t, c + 1, f.w2, Yield(f.v) + r5);
    var v := c + 1 + |f.w2|;
    AtConcat(t, v, Yield(f.v), r5);
    FirstUnit(f.v);
    AtFirst(t, v, Yield(f.v));
    SkipWsIs(t, c + 1, f.w2);
  }

  lemma AfterField(t: Text, e: nat, f: Fields)
    requires AllWs(f.w3) && At(t, e, f.w3 + FieldsTail(f))
    ensures Stops(t, e) && SkipWs(t, e) == e + |f.w3|
    ensures f.LastField? ==> Peek(t, e + |f.w3|, RBRACE)
    ensures f.MoreFields? ==> Peek(t, e + |f.w3|, COMMA) && At(t, e + |f.w3| + 1, YieldFields(f.rest))
  {
    hide At, SkipWs, AllWs, Stops;
    if f.MoreFields? {
      AfterValue(t, e, f.w3, COMMA, YieldFields(f.rest));
    } else {
      assert [RBRACE] + [] == [RBRACE];
      AfterValue(t, e, f.w3, RBRACE, []);
    }
  }

  /** One iteration of `ParseFields`, spelled out. */
  lemma FieldsStep(num: NumberFormat, t: Text, p: nat, m: map<Text, Json>, key: Text, c: nat, v: Json, e: nat, q: nat)
    requires p <= |t| && Peek(t, SkipWs(t, p), QUOTE) && StringAt(t, SkipWs(t, p)).Ok?
    requires var r := StringAt(t, SkipWs(t, p)); r.value == key && SkipWs(t, r.pos) == c
    requires key !in m && Peek(t, c, COLON)
    requires ParseValue(num, t, SkipWs(t, c + 1)) == Ok(v, e) && SkipWs(t, e) == q
    ensures Peek(t, q, COMMA) ==> ParseFields(num, t, p, m) == ParseFields(num, t, q + 1, m[key := v])
    ensures Peek(t, q, RBRACE) ==> ParseFields(num, t, p, m) == Ok(m[key := v], q + 1)
  {
    hide ParseValue, SkipWs, StringAt;
    FieldsUnfold(num, t, p, m);
    assert ParseMember(num, t, SkipWs(t, p), m) == ParseMemberValue(num, t, c, m, key);
  }

  lemma {:induction false} FieldsComplete(num: NumberFormat, t: Text, p: nat, f: Fields, m: map<Text, Json>)
    requires DerivationFields(f) && AdmissibleFields(num, f) && At(t, p, YieldFields(f))
    requires Distinct(Names(f)) && forall k :: k in Names(f) ==> k !in m
    ensures ParseFields(num, t, p, m) == Ok(m + DenoteFields(num, f), p + |YieldFields(f)|)
    decreases f
  {
    hide At, Yield, ParseValue, SkipWs, ParseFields, YieldFields, StringAt, WellFormed, Distinct, SpellingText, Denote,
         Admissible, Derivation, Decoded, SpellingOk, AllWs, DenoteFields;
    var k, c, v, e, q := FieldParts(t, p, f);
    var key, value := Decoded(f.key), Denote(num, f.v);
    StringAtComplete(t, k, f.key);
    assert Names(f)[0] == key;
    ValueComplete(num, t, v, f.v);
    FieldsStep(num, t, p, m, key, c, value, e, q);
    AddMember(num, f, m);
    if f.MoreFields? {
      NamesTail(f);
      FieldsComplete(num, t, q + 1, f.rest, m[key := value]);
    }
  }

  lemma AddMember(num: NumberFormat, f: Fields, m: map<Text, Json>)
    requires DerivationFields(f) && AdmissibleFields(num, f)
    ensures var m' := m[Decoded(f.key) := Denote(num, f.v)];
            m + DenoteFields(num, f) == if f.MoreFields? then m' + DenoteFields(num, f.rest) else m'
  {
    hide Decoded, Denote, Derivation, Admissible, AllWs, WellFormed, SpellingOk;
  }

  lemma NamesTail(f: Fields)
    requires f.MoreFields? && DerivationFields(f) && Distinct(Names(f))
    ensures Distinct(Names(f.rest))
    ensures forall k :: k in Names(f.rest) ==> k in Names(f) && k != Decoded(f.key)
  {
    var ns: seq<Text> := Names(f);
    var rs: seq<Text> := Names(f.rest);
    assert rs == ns[1..];
    forall k | k in rs ensures k in ns && k != ns[0] {
      var i :| 0 <= i < |rs| && rs[i] == k;
      assert ns[i + 1] == k;
    }
    forall i: int, j: int | 0 <= i < j < |rs| ensures rs[i] != rs[j] {
      assert ns[i + 1] != ns[j + 1];
    }
  }

  // ---- Soundness: whatever is accepted has such a derivation ------------------

  lemma {:induction false} ValueSound(num: NumberFormat, t: Text, start: nat) returns (c: Cst)
    requires start <= |t| && ParseValue(num, t, start).Ok?
    ensures Derivation(c) && Admissible(num, c) && At(t, SkipWs(t, start), Yield(c))
    ensures ParseValue(num, t, start) == Ok(Denote(num, c), SkipWs(t, start) + |Yield(c)|)
    decreases |t| - start, 1
  {
    hide At, Yield, ParseElements, ParseFields, StringBody, NumberEnd, NumTokOk, NumText, WellFormed, DenoteElems,
         DenoteFields, AdmissibleElems, AdmissibleFields, DerivationElems, DerivationFields, AllWs, SkipWs, Keyword,
         ShortMeaning;
    var p := SkipWs(t, start);
    if t[p] == LBRACE {
      c := ObjectSound(num, t, start, p);
    } else if t[p] == LBRACKET {
      c := ArraySound(num, t, start, p);
    } else {
      c := ScalarSound(num, t, start, p);
    }
  }

  lemma {:induction false} ObjectSound(num: NumberFormat, t: Text, start: nat, p: nat) returns (c: Cst)
    requires start <= |t| && p == SkipWs(t, start) && p < |t| && t[p] == LBRACE && ParseValue(num, t, start).Ok?
    ensures Derivation(c) && Admissible(num, c) && At(t, p, Yield(c))
    ensures ParseValue(num, t, start) == Ok(Denote(num, c), p + |Yield(c)|)
    decreases |t| - p, 0
  {
    hide At, ParseValue, ObjectAt, ParseFields, Yield, YieldFields, Derivation, DerivationFields, Admissible,
         AdmissibleFields, Denote, DenoteFields, Distinct, Names, AllWs;
    ObjectDispatch(num, t, start, p);
    var q := SkipWs(t, p + 1);
    if Peek(t, q, RBRACE) {
      c := CObj0(t[p + 1..q]);
      SkippedWs(t, p + 1);
      EmptySound(t, p, q);
      EmptyObject(num, t[p + 1..q]);
    } else {
      FieldsSkip(num, t, p + 1);
      var f := FieldsSound(num, t, p + 1, map[]);
      c := CObj(f);
      assert map[] + DenoteFields(num, f) == DenoteFields(num, f);
      AtUnit(t, p, LBRACE);
      AtConcat(t, p, [LBRACE], YieldFields(f));
      FilledObject(num, f);
    }
  }

  lemma EmptyObject(num: NumberFormat, w: Text)
    requires AllWs(w)
    ensures Derivation(CObj0(w)) && Admissible(num, CObj0(w)) && Denote(num, CObj0(w)) == Obj(map[])
    ensures Yield(CObj0(w)) == [LBRACE] + (w + [RBRACE])
  {}

  lemma FilledObject(num: NumberFormat, f: Fields)
    requires DerivationFields(f) && AdmissibleFields(num, f) && Distinct(Names(f))
    ensures Derivation(CObj(f)) && Admissible(num, CObj(f)) && Denote(num, CObj(f)) == Obj(DenoteFields(num, f))
    ensures Yield(CObj(f)) == [LBRACE] + YieldFields(f)
  {}

  lemma {:induction false} ArraySound(num: NumberFormat, t: Text, start: nat, p: nat) returns (c: Cst)
    requires start <= |t| && p == SkipWs(t, start) && p < |t| && t[p] == LBRACKET && ParseValue(num, t, start).Ok?
    ensures Derivation(c) && Admissible(num, c) && At(t, p, Yield(c))
    ensures ParseValue(num, t, start) == Ok(Denote(num, c), p + |Yield(c)|)
    decreases |t| - p, 0
  {
    hide At, ParseValue, ParseElements, DenoteElems, YieldElems, AllWs;
    ArrayDispatch(num, t, start, p);
    var q := SkipWs(t, p + 1);
    if Peek(t, q, RBRACKET) {
      c := CArr0(t[p + 1..q]);
      SkippedWs(t, p + 1);
      EmptySound(t, p, q);
    } else {
      ElementsSkip(num, t, p + 1);
      var e := ElementsSound(num, t, p + 1);
      c := CArr(e);
      AtUnit(t, p, LBRACKET);
      AtConcat(t, p, [LBRACKET], YieldElems(e));
    }
  }

  lemma ScalarSound(num: NumberFormat, t: Text, start: nat, p: nat) returns (c: Cst)
    requires start <= |t| && p == SkipWs(t, start) && p < |t| && t[p] != LBRACE && t[p] != LBRACKET
             && ParseValue(num, t, start).Ok?
    ensures Derivation(c) && Admissible(num, c) && At(t, p, Yield(c))
    ensures ParseValue(num, t, start) == Ok(Denote(num, c), p + |Yield(c)|)
  {
    hide ParseElements, ParseFields, StringBody, NumberEnd, NumTokOk, NumText, SpellingText, SkipWs;
    if t[p] == QUOTE {
      hide At;
      var s := StringBodySound(t, p + 1);
      c := CStr(s);
      AtUnit(t, p, QUOTE);
      AtConcat(t, p, [QUOTE], SpellingText(s));
    } else if t[p] == MINUS || IsDigit(t[p]) {
      var n := NumberEndSound(t, p);
      c := CNum(n);
    } else {
      c := if At(t, p, TRUE_TEXT) then CTrue else if At(t, p, FALSE_TEXT) then CFalse else CNull;
    }
  }

  lemma EmptySound(t: Text, p: nat, q: nat)
    requires p < q < |t|
    ensures At(t, p, [t[p]] + (t[p + 1..q] + [t[q]]))
  {
    AtSlice(t, p + 1, q);
    hide At;
    AtUnit(t, p, t[p]);
    AtUnit(t, q, t[q]);
    AtConcat(t, p + 1, t[p + 1..q], [t[q]]);
    AtConcat(t, p, [t[p]], t[p + 1..q] + [t[q]]);
  }

  lemma {:induction false} ElementsSound(num: NumberFormat, t: Text, start: nat) returns (e: Elems)
    requires start <= |t| && ParseElements(num, t, start).Ok?
    ensures DerivationElems(e) && AdmissibleElems(num, e) && At(t, start, YieldElems(e))
    ensures ParseElements(num, t, start) == Ok(DenoteElems(num, e), start + |YieldElems(e)|)
    decreases |t| - start, 2
  {
    hide At, Yield, ParseValue, SkipWs, ParseElements, YieldElems, Derivation, Admissible, Denote, AllWs;
    ElementsOk(num, t, start);
    var p := SkipWs(t, start);
    SkipWsTwice(t, start);
    var c := ValueSound(num, t, p);
    var a := p + |Yield(c)|;
    var q := SkipWs(t, a);
    ElementsStep(num, t, start, Denote(num, c), a, q);
    SkippedWs(t, start);
    SkippedWs(t, a);
    if Peek(t, q, COMMA) {
      var rest := ElementsSound(num, t, q + 1);
      e := MoreElems(t[start..p], c, t[a..q], rest);
      AtUnit(t, q, COMMA);
      AtConcat(t, q, [COMMA], YieldElems(rest));
    } else {
      e := LastElem(t[start..p], c, t[a..q]);
      AtUnit(t, q, RBRACKET);
      assert DenoteElems(num, e) == [Denote(num, c)];
    }
    ElemAssemble(t, start, e);
  }

  lemma ElementsOk(num: NumberFormat, t: Text, p: nat)
    requires p <= |t| && ParseElements(num, t, p).Ok?
    ensures ParseValue(num, t, SkipWs(t, p)).Ok?
    ensures var q := SkipWs(t, ParseValue(num, t, SkipWs(t, p)).pos);
            (Peek(t, q, COMMA) && ParseElements(num, t, q + 1).Ok?) || Peek(t, q, RBRACKET)
  {
    hide ParseValue, SkipWs;
  }

  /** The parts of one element, put back together. */
  lemma ElemAssemble(t: Text, p: nat, e: Elems)
    requires At(t, p, e.before) && At(t, p + |e.before|, Yield(e.v))
    requires var b := p + |e.before| + |Yield(e.v)|; At(t, b, e.after) && At(t, b + |e.after|, ElemsTail(e))
    ensures At(t, p, YieldElems(e))
    ensures |YieldElems(e)| == |e.before| + |Yield(e.v)| + |e.after| + |ElemsTail(e)|
  {
    hide At, Yield;
    var a := p + |e.before|;
    AtConcat(t, a + |Yield(e.v)|, e.after, ElemsTail(e));
    AtConcat(t, a, Yield(e.v), e.after + ElemsTail(e));
    AtConcat(t, p, e.before, Yield(e.v) + (e.after + ElemsTail(e)));
  }

  /** One member without its tail: `f` stands at `p` up to `q`. */
  ghost predicate FieldStands(t: Text, p: nat, f: Fields, q: nat) {
    var k := p + |f.w0|;
    var w := k + 1 + |SpellingText(f.key)|;
    var c := w + |f.w1|;
    var v := c + 1 + |f.w2|;
    var e := v + |Yield(f.v)|;
    && At(t, p, f.w0) && Peek(t, k, QUOTE) && At(t, k + 1, SpellingText(f.key))
    && At(t, w, f.w1) && Peek(t, c, COLON) && At(t, c + 1, f.w2)
    && At(t, v, Yield(f.v)) && At(t, e, f.w3) && q == e + |f.w3|
  }

  lemma {:induction false} FieldsSound(num: NumberFormat, t: Text, start: nat, m: map<Text, Json>) returns (f: Fields)
    requires start <= |t| && ParseFields(num, t, start, m).Ok?
    ensures DerivationFields(f) && AdmissibleFields(num, f) && At(t, start, YieldFields(f))
    ensures Distinct(Names(f)) && forall k :: k in Names(f) ==> k !in m
    ensures ParseFields(num, t, start, m) == Ok(m + DenoteFields(num, f), start + |YieldFields(f)|)
    decreases |t| - start, 3
  {
    hide At, Yield, ParseFields, YieldFields, Derivation, Admissible, Denote, SpellingText, Distinct, WellFormed,
         SpellingOk, AllWs, DenoteFields, Decoded, Names, FieldsTail, FieldStands;
    var one, q := FieldSound(num, t, start, m);
    if Peek(t, q, COMMA) {
      var rest := FieldsSound(num, t, q + 1, m[Decoded(one.key) := Denote(num, one.v)]);
      f := MoreFields(one.w0, one.key, one.w1, one.w2, one.v, one.w3, rest);
    } else {
      f := one;
    }
    SameField(t, start, one, f, q);
    FieldsTailAt(t, q, f);
    NamesCons(f, m);
    AddMember(num, f, m);
    FieldAssemble(t, start, q, f);
  }

  /** What reading members does first: one member is read, and the text goes on with its separator. */
  lemma FieldSound(num: NumberFormat, t: Text, start: nat, m: map<Text, Json>) returns (f: Fields, q: nat)
    requires start <= |t| && ParseFields(num, t, start, m).Ok?
    ensures f.LastField? && DerivationFields(f) && AdmissibleFields(num, f)
    ensures FieldStands(t, start, f, q) && start < q && Decoded(f.key) !in m
    ensures var m' := m[Decoded(f.key) := Denote(num, f.v)];
            if Peek(t, q, COMMA) then ParseFields(num, t, q + 1, m').Ok?
              && ParseFields(num, t, start, m) == ParseFields(num, t, q + 1, m')
            else Peek(t, q, RBRACE) && ParseFields(num, t, start, m) == Ok(m', q + 1)
    decreases |t| - start, 2
  {
    hide At, Yield, ParseValue, SkipWs, ParseFields, Derivation, Admissible, Denote, SpellingText, WellFormed,
         SpellingOk, AllWs, Decoded, ParseMemberValue, FieldStands, DerivationFields, AdmissibleFields;
    var s, c := NameSound(num, t, start, m);
    MemberValueUnfold(num, t, c, m, Decoded(s));
    var v := SkipWs(t, c + 1);
    SkipWsTwice(t, c + 1);
    var cst := ValueSound(num, t, v);
    var p, k, a := SkipWs(t, start), SkipWs(t, start) + 1 + |SpellingText(s)|, v + |Yield(cst)|;
    q := SkipWs(t, a);
    SkippedWs(t, start);
    SkippedWs(t, k);
    SkippedWs(t, c + 1);
    SkippedWs(t, a);
    f := LastField(t[start..p], s, t[k..c], t[c + 1..v], cst, t[a..q]);
    OneField(num, t, start, f, p, k, c, v, a, q);
  }

  /** The pieces of one member, the white space between them included. */
  lemma OneField(num: NumberFormat, t: Text, start: nat, f: Fields, p: nat, k: nat, c: nat, v: nat, a: nat, q: nat)
    requires start <= p < k <= c < v <= a <= q <= |t| && f.LastField?
    requires SpellingOk(f.key) && WellFormed(Decoded(f.key)) && Derivation(f.v) && Admissible(num, f.v)
    requires f.w0 == t[start..p] && AllWs(f.w0) && At(t, start, f.w0)
    requires Peek(t, p, QUOTE) && At(t, p + 1, SpellingText(f.key)) && k == p + 1 + |SpellingText(f.key)|
    requires f.w1 == t[k..c] && AllWs(f.w1) && At(t, k, f.w1) && Peek(t, c, COLON)
    requires f.w2 == t[c + 1..v] && AllWs(f.w2) && At(t, c + 1, f.w2)
    requires At(t, v, Yield(f.v)) && a == v + |Yield(f.v)|
    requires f.w3 == t[a..q] && AllWs(f.w3) && At(t, a, f.w3)
    ensures DerivationFields(f) && AdmissibleFields(num, f) && FieldStands(t, start, f, q)
  {
    hide At, Yield, Derivation, Admissible, SpellingText, WellFormed, SpellingOk, AllWs, Decoded;
  }

  /** The name of a member, up to its colon at `c`. */
  lemma NameSound(num: NumberFormat, t: Text, start: nat, m: map<Text, Json>) returns (s: Spelling, c: nat)
    requires start <= |t| && ParseFields(num, t, start, m).Ok?
    ensures var p := SkipWs(t, start);
            && Peek(t, p, QUOTE) && At(t, p + 1, SpellingText(s)) && SkipWs(t, p + 1 + |SpellingText(s)|) == c
    ensures SpellingOk(s) && WellFormed(Decoded(s)) && Decoded(s) !in m && Peek(t, c, COLON) && start < c
    ensures ParseFields(num, t, start, m) == ParseMemberValue(num, t, c, m, Decoded(s))
  {
    hide At, SkipWs, ParseFields, SpellingText, StringBody, WellFormed, SpellingOk, Decoded, ParseMemberValue;
    FieldsUnfold(num, t, start, m);
    s := StringBodySound(t, SkipWs(t, start) + 1);
    c := SkipWs(t, SkipWs(t, start) + 1 + |SpellingText(s)|);
  }

  lemma SameField(t: Text, p: nat, one: Fields, f: Fields, q: nat)
    requires FieldStands(t, p, one, q)
    requires f.w0 == one.w0 && f.key == one.key && f.w1 == one.w1 && f.w2 == one.w2 && f.v == one.v && f.w3 == one.w3
    ensures FieldStands(t, p, f, q)
  {
    hide At, Yield, SpellingText;
  }

  lemma SkippedWs(t: Text, p: nat)
    requires p <= |t|
    ensures var q := SkipWs(t, p); AllWs(t[p..q]) && At(t, p, t[p..q])
  {}

  lemma NamesCons(f: Fields, m: map<Text, Json>)
    requires DerivationFields(f) && Decoded(f.key) !in m
    requires f.MoreFields? ==> Distinct(Names(f.rest)) && forall k :: k in Names(f.rest) ==>
             k !in m && k != Decoded(f.key)
    ensures Distinct(Names(f)) && forall k :: k in Names(f) ==> k !in m
  {
    hide Decoded, Derivation, AllWs, SpellingOk;
    if f.MoreFields? { assert Names(f) == [Decoded(f.key)] + Names(f.rest); }
  }

  lemma FieldsTailAt(t: Text, q: nat, f: Fields)
    requires if f.MoreFields? then Peek(t, q, COMMA) && At(t, q + 1, YieldFields(f.rest)) else Peek(t, q, RBRACE)
    ensures At(t, q, FieldsTail(f)) && |FieldsTail(f)| == if f.MoreFields? then 1 + |YieldFields(f.rest)| else 1
  {
    hide At, YieldFields;
    if f.MoreFields? {
      AtUnit(t, q, COMMA);
      AtConcat(t, q, [COMMA], YieldFields(f.rest));
    } else {
      AtUnit(t, q, RBRACE);
    }
  }

  /** The parts of one member, put back together. */
  lemma FieldAssemble(t: Text, p: nat, q: nat, f: Fields)
    requires FieldStands(t, p, f, q) && At(t, q, FieldsTail(f))
    ensures At(t, p, YieldFields(f)) && |YieldFields(f)| + p == q + |FieldsTail(f)|
  {
    hide At, Yield, SpellingText, FieldsTail;
    var k := p + |f.w0|;
    var w := k + 1 + |SpellingText(f.key)|;
    var c := w + |f.w1|;
    var v := c + 1 + |f.w2|;
    var e := v + |Yield(f.v)|;
    var r5 := f.w3 + FieldsTail(f);
    var r3 := FieldValueText(f);
    AtConcat(t, e, f.w3, FieldsTail(f));
    AtConcat(t, v, Yield(f.v), r5);
    AtConcat(t, c + 1, f.w2, Yield(f.v) + r5);
    AtUnit(t, c, COLON);
    AtConcat(t, c, [COLON], r3);
    AtConcat(t, w, f.w1, [COLON] + r3);
    AtConcat(t, k + 1, SpellingText(f.key), f.w1 + ([COLON] + r3));
    AtUnit(t, k, QUOTE);
    AtConcat(t, k, [QUOTE], SpellingText(f.key) + (f.w1 + ([COLON] + r3)));
    AtConcat(t, p, f.w0, [QUOTE] + (SpellingText(f.key) + (f.w1 + ([COLON] + r3))));
    FieldLength(f);
  }

  // ---- The acceptance theorem -------------------------------------------------

  /** Every admissible document is accepted, and every one of its derivations denotes the result. */
  lemma DocumentAccepted(num: NumberFormat, d: Document)
    requires DocumentOk(num, d)
    ensures ParseText(num, DocumentText(d)) == Ok(Denote(num, d.c), |DocumentText(d)|)
  {
    hide At, Yield, ParseValue, SkipWs, AllWs, Denote, Derivation, Admissible, DocumentText;
    DocumentParts(d);
    ValueComplete(num, DocumentText(d), |d.before|, d.c);
  }

  /** Where the parts of a document's text stand. */
  lemma DocumentParts(d: Document)
    requires AllWs(d.before) && AllWs(d.after) && Derivation(d.c)
    ensures var t, p, e := DocumentText(d), |d.before|, |d.before| + |Yield(d.c)|;
            && p < e <= |t| && At(t, p, Yield(d.c)) && Stops(t, e) && !Peek(t, 0, BOM)
            && SkipWs(t, 0) == p && SkipWs(t, e) == |t|
  {
    hide At, Yield, SkipWs, AllWs, Derivation;
    var t, p, e := DocumentText(d), |d.before|, |d.before| + |Yield(d.c)|;
    AtSelf(t);
    AtConcat(t, 0, d.before, Yield(d.c) + d.after);
    AtConcat(t, p, Yield(d.c), d.after);
    FirstUnit(d.c);
    AtFirst(t, p, Yield(d.c));
    FirstUnitNotBom(d.c);
    SkipWsIs(t, 0, d.before);
    WsAt(t, 0, d.before);
    SkipWsIs(t, e, d.after);
    WsAt(t, e, d.after);
  }

  lemma AtSelf(t: Text)
    ensures At(t, 0, t)
  {}

  lemma WsAt(t: Text, p: nat, w: Text)
    requires AllWs(w) && At(t, p, w)
    ensures |w| > 0 ==> p < |t| && IsWs(t[p])
  {
    if |w| > 0 { AtFirst(t, p, w); }
  }

  lemma FirstUnitNotBom(c: Cst)
    requires Derivation(c)
    ensures |Yield(c)| > 0 && Yield(c)[0] != BOM
  {
    FirstUnit(c);
    if c.CNum? { assert Yield(c)[0] == if c.n.minus then MINUS else c.n.whole[0]; }
  }

  lemma AcceptedIsDocument(num: NumberFormat, t: Text) returns (d: Document)
    requires ParseText(num, t).Ok?
    ensures DocumentOk(num, d) && DocumentText(d) == t
    ensures ParseText(num, t).value == Denote(num, d.c)
  {
    hide Yield, ParseValue, SkipWs, Derivation, Admissible, Denote;
    var p := SkipWs(t, 0);
    SkipWsTwice(t, 0);
    var c := ValueSound(num, t, p);
    var e := p + |Yield(c)|;
    d := Document(t[..p], c, t[e..]);
    assert t == t[..p] + (t[p..e] + t[e..]);
  }

  /**
   * Accepted exactly when the text derives from the grammar admissibly, and the result is then
   * the value of every such derivation.
   */
  lemma AcceptsExactlyAdmissibleDocuments(num: NumberFormat, t: Text)
    ensures ParseText(num, t).Ok? <==> exists d: Document :: DocumentOk(num, d) && DocumentText(d) == t
    ensures forall d: Document :: DocumentOk(num, d) && DocumentText(d) == t ==>
            ParseText(num, t) == Ok(Denote(num, d.c), |t|)
  {
    if ParseText(num, t).Ok? {
      var d := AcceptedIsDocument(num, t);
    }
    forall d: Document | DocumentOk(num, d) && DocumentText(d) == t
      ensures ParseText(num, t) == Ok(Denote(num, d.c), |t|)
    {
      DocumentAccepted(num, d);
    }
  }
}
