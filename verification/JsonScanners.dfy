/** Two one-pass, string-aware scanners, and their agreement with the JSON grammar. */
module JsonScanners {
  import opened Options
  import opened Sequences
  import opened Text
  import opened JsonGrammar
  import P = JsonParser
  import C = JsonCanonical

  // ---- The balanced-brace scan --------------------------------------------------

  /** The loop of the scan stage from position `i`: where the first balanced span ends. */
  function Balance(t: Text, i: nat, depth: int, inString: bool, escaped: bool): (r: Option<nat>)
    ensures r.Some? ==> i < r.value <= |t|
    decreases |t| - i
  {
    if i >= |t| then None
    else if inString then
      if escaped then Balance(t, i + 1, depth, true, false)
      else if t[i] == BACKSLASH then Balance(t, i + 1, depth, true, true)
      else Balance(t, i + 1, depth, t[i] != QUOTE, false)
    else if t[i] == QUOTE then Balance(t, i + 1, depth, true, false)
    else if t[i] == LBRACE then Balance(t, i + 1, depth + 1, false, false)
    else if t[i] == RBRACE then
      if depth - 1 == 0 then Some(i + 1) else Balance(t, i + 1, depth - 1, false, false)
    else Balance(t, i + 1, depth, false, false)
  }

  function IndexOf(t: Text, c: CodeUnit, i: nat): (r: Option<nat>)
    ensures r.Some? ==> i <= r.value < |t| && t[r.value] == c
    ensures r.Some? ==> forall j :: i <= j < r.value ==> t[j] != c
    ensures r.None? ==> forall j :: i <= j < |t| ==> t[j] != c
    decreases |t| - i
  {
    if i >= |t| then None else if t[i] == c then Some(i) else IndexOf(t, c, i + 1)
  }

  /** The candidate handed to `JSON.parse`: the first balanced `{ ... }` span. */
  function Candidate(t: Text): Option<Text> {
    match IndexOf(t, LBRACE, 0)
    case None => None
    case Some(start) =>
      match Balance(t, start, 0, false, false)
      case None => None
      case Some(end) => Some(t[start..end])
  }

  method ScanForObject(t: Text) returns (r: Option<Text>)
    ensures r == Candidate(t)
  {
    var first := IndexOf(t, LBRACE, 0);
    if first.None? { return None; }
    var start := first.value;
    var depth, inString, escaped := 0, false, false;
    var i := start;
    while i < |t|
      invariant start <= i <= |t|
      invariant escaped ==> inString
      invariant Balance(t, i, depth, inString, escaped) == Balance(t, start, 0, false, false)
    {
      var ch := t[i];
      if inString {
        if escaped { escaped := false; }
        else if ch == BACKSLASH { escaped := true; }
        else if ch == QUOTE { inString := false; }
        i := i + 1;
        continue;
      }
      if ch == QUOTE { inString := true; }
      else if ch == LBRACE { depth := depth + 1; }
      else if ch == RBRACE {
        depth := depth - 1;
        if depth == 0 { return Some(t[start..i + 1]); }
      }
      i := i + 1;
    }
    return None;
  }

  /** Text the scan passes over without changing state: no quote and no brace. */
  predicate Neutral(w: Text) {
    forall i :: 0 <= i < |w| ==> w[i] != QUOTE && w[i] != LBRACE && w[i] != RBRACE
  }

  lemma {:induction false} BalanceNeutral(t: Text, p: nat, w: Text, d: int)
    requires At(t, p, w) && Neutral(w)
    ensures Balance(t, p, d, false, false) == Balance(t, p + |w|, d, false, false)
    decreases |w|
  {
    if w != [] {
      P.AtFirst(t, p, w);
      assert w == [w[0]] + w[1..];
      AtConcat(t, p, [w[0]], w[1..]);
      BalanceNeutral(t, p + 1, w[1..], d);
    }
  }

  lemma {:induction false} BalancePiece(t: Text, p: nat, x: Piece, d: int)
    requires PieceOk(x) && At(t, p, PieceText(x))
    ensures Balance(t, p, d, true, false) == Balance(t, p + |PieceText(x)|, d, true, false)
  {
    var n := |PieceText(x)|;
    assert forall i :: p <= i < p + n ==> t[i] == t[p..p + n][i - p];
    if x.Short? {
      assert t[p] == BACKSLASH && t[p + 1] == x.e;
      assert Balance(t, p, d, true, false) == Balance(t, p + 1, d, true, true);
    } else if x.Hex? {
      assert t[p] == BACKSLASH && t[p + 1] == 0x75;
      assert t[p + 2] == x.h0 && t[p + 3] == x.h1 && t[p + 4] == x.h2 && t[p + 5] == x.h3;
      assert Balance(t, p, d, true, false) == Balance(t, p + 1, d, true, true) == Balance(t, p + 2, d, true, false);
      assert Balance(t, p + 2, d, true, false) == Balance(t, p + 3, d, true, false) ==
        Balance(t, p + 4, d, true, false);
      assert Balance(t, p + 4, d, true, false) == Balance(t, p + 5, d, true, false) ==
        Balance(t, p + 6, d, true, false);
    } else {
      assert t[p] == x.c;
    }
  }

  lemma {:induction false} BalanceSpelling(t: Text, p: nat, s: Spelling, d: int)
    requires SpellingOk(s) && At(t, p, SpellingText(s))
    ensures Balance(t, p, d, true, false) == Balance(t, p + |SpellingText(s)|, d, false, false)
    decreases s
  {
    hide At, PieceText, PieceOk;
    match s
    case Close => AtUnit(t, p, QUOTE);
    case Spell(x, rest) =>
      AtConcat(t, p, PieceText(x), SpellingText(rest));
      BalancePiece(t, p, x, d);
      BalanceSpelling(t, p + |PieceText(x)|, rest, d);
  }

  /** Text without quotes, braces or brackets. */
  predicate Inert(w: Text) {
    forall i :: 0 <= i < |w| ==>
      w[i] != QUOTE && w[i] != LBRACE && w[i] != RBRACE && w[i] != LBRACKET && w[i] != RBRACKET
  }

  lemma InertConcat(a: Text, b: Text)
    ensures Inert(a) && Inert(b) ==> Inert(a + b)
  {}

  lemma NumInertParts(n: NumTok)
    requires NumTokOk(n)
    ensures Inert(SignText(n)) && Inert(n.whole) && Inert(FracText(n)) && Inert(n.e) && Inert(n.exp)
  {}

  lemma ScalarInert(c: Cst)
    requires Derivation(c) && (c.CNull? || c.CTrue? || c.CFalse? || c.CNum?)
    ensures Inert(Yield(c))
  {
    if c.CNum? { NumInert(c.n); }
  }

  lemma NumInert(n: NumTok)
    requires NumTokOk(n)
    ensures Inert(NumText(n))
  {
    hide Inert, SignText, FracText, NumTokOk;
    NumInertParts(n);
    InertConcat(n.e, n.exp);
    InertConcat(FracText(n), n.e + n.exp);
    InertConcat(n.whole, FracText(n) + (n.e + n.exp));
    InertConcat(SignText(n), n.whole + (FracText(n) + (n.e + n.exp)));
  }

  /** A value nested inside the scanned object leaves the scan where it was, at any depth. */
  lemma {:induction false} BalanceValue(t: Text, p: nat, c: Cst, d: int)
    requires Derivation(c) && At(t, p, Yield(c)) && d >= 1
    ensures Balance(t, p, d, false, false) == Balance(t, p + |Yield(c)|, d, false, false)
    decreases c
  {
    hide At, YieldElems, YieldFields, SpellingText, Neutral;
    match c
    case CStr(s) =>
      AtConcat(t, p, [QUOTE], SpellingText(s));
      AtUnit(t, p, QUOTE);
      BalanceSpelling(t, p + 1, s, d);
    case CArr0(w) =>
      ArrayNeutral(w);
      BalanceNeutral(t, p, Yield(c), d);
    case CArr(elems) =>
      AtConcat(t, p, [LBRACKET], YieldElems(elems));
      AtUnit(t, p, LBRACKET);
      BalanceElems(t, p + 1, elems, d);
    case CObj0(w) =>
      AtConcat(t, p, [LBRACE], w + [RBRACE]);
      AtUnit(t, p, LBRACE);
      BalanceClose(t, p + 1, w, d + 1);
    case CObj(fields) =>
      AtConcat(t, p, [LBRACE], YieldFields(fields));
      AtUnit(t, p, LBRACE);
      BalanceFields(t, p + 1, fields, d + 1);
    case _ =>
      ScalarInert(c);
      BalanceNeutral(t, p, Yield(c), d);
  }

  lemma ArrayNeutral(w: Text)
    requires AllWs(w)
    ensures Neutral([LBRACKET] + (w + [RBRACKET]))
  {}

  lemma WsNeutral(w: Text)
    requires AllWs(w)
    ensures Neutral(w)
  {}

  /** Whitespace and a closing brace: one level down, or the end of the span. */
  lemma BalanceClose(t: Text, p: nat, w: Text, d: int)
    requires AllWs(w) && At(t, p, w + [RBRACE])
    ensures Balance(t, p, d, false, false) ==
            if d == 1 then Some(p + |w| + 1) else Balance(t, p + |w| + 1, d - 1, false, false)
  {
    hide At, Neutral, AllWs;
    WsNeutral(w);
    AtConcat(t, p, w, [RBRACE]);
    BalanceNeutral(t, p, w, d);
    AtUnit(t, p + |w|, RBRACE);
  }

  lemma {:induction false} BalanceElems(t: Text, p: nat, e: Elems, d: int)
    requires DerivationElems(e) && At(t, p, YieldElems(e)) && d >= 1
    ensures Balance(t, p, d, false, false) == Balance(t, p + |YieldElems(e)|, d, false, false)
    decreases e
  {
    hide At, Neutral, AllWs, Derivation, Yield, Balance, YieldElems;
    var a, b, q := P.ElemParts(t, p, e);
    BalanceSkip(t, p, d);
    BalanceValue(t, a, e.v, d);
    BalanceSkip(t, b, d);
    BalanceStep(t, q, d);
    if e.MoreElems? { BalanceElems(t, q + 1, e.rest, d); }
  }

  /** Skipped whitespace does not matter to the scan. */
  lemma {:induction false} BalanceSkip(t: Text, p: nat, d: int)
    requires p <= |t|
    ensures Balance(t, p, d, false, false) == Balance(t, P.SkipWs(t, p), d, false, false)
    decreases |t| - p
  {
    if p < |t| && IsWs(t[p]) { BalanceSkip(t, p + 1, d); }
  }

  /** One unit outside strings. */
  lemma BalanceStep(t: Text, q: nat, d: int)
    ensures P.Peek(t, q, QUOTE) ==> Balance(t, q, d, false, false) == Balance(t, q + 1, d, true, false)
    ensures P.Peek(t, q, COMMA) || P.Peek(t, q, RBRACKET) || P.Peek(t, q, COLON) ==>
              Balance(t, q, d, false, false) == Balance(t, q + 1, d, false, false)
    ensures P.Peek(t, q, RBRACE) ==>
              Balance(t, q, d, false, false) == if d == 1 then Some(q + 1) else Balance(t, q + 1, d - 1, false, false)
  {}

  lemma {:induction false} BalanceFields(t: Text, p: nat, f: Fields, d: int)
    requires DerivationFields(f) && At(t, p, YieldFields(f)) && d >= 1
    ensures var e := p + |YieldFields(f)|;
            Balance(t, p, d, false, false) == if d == 1 then Some(e) else Balance(t, e, d - 1, false, false)
    decreases f
  {
    hide At, Neutral, AllWs, Derivation, Yield, Balance, YieldFields, SpellingText, SpellingOk;
    var k, c, v, e, q := P.FieldParts(t, p, f);
    BalanceSkip(t, p, d);
    BalanceStep(t, k, d);
    BalanceSpelling(t, k + 1, f.key, d);
    BalanceSkip(t, k + 1 + |SpellingText(f.key)|, d);
    BalanceStep(t, c, d);
    BalanceSkip(t, c + 1, d);
    BalanceValue(t, v, f.v, d);
    BalanceSkip(t, e, d);
    BalanceStep(t, q, d);
    if f.MoreFields? { BalanceFields(t, q + 1, f.rest, d); }
  }

  /**
   * The scan returns exactly the text of any JSON object, canonical or not, behind any prefix
   * without an opening brace and before any suffix.
   */
  lemma CandidateIsObject(prefix: Text, c: Cst, suffix: Text)
    requires Derivation(c) && (c.CObj0? || c.CObj?)
    requires forall i :: 0 <= i < |prefix| ==> prefix[i] != LBRACE
    ensures Candidate(prefix + (Yield(c) + suffix)) == Some(Yield(c))
  {
    hide Balance, YieldFields;
    var t := prefix + (Yield(c) + suffix);
    var p := |prefix|;
    assert At(t, p, Yield(c)) by {
      P.AtSelf(t);
      AtConcat(t, 0, prefix, Yield(c) + suffix);
      AtConcat(t, p, Yield(c), suffix);
    }
    P.AtFirst(t, p, Yield(c));
    assert IndexOf(t, LBRACE, 0) == Some(p);
    BalanceOpen(t, p);
    if c.CObj0? {
      AtConcat(t, p, [LBRACE], c.w + [RBRACE]);
      BalanceClose(t, p + 1, c.w, 1);
    } else {
      AtConcat(t, p, [LBRACE], YieldFields(c.fields));
      BalanceFields(t, p + 1, c.fields, 1);
    }
  }

  lemma BalanceOpen(t: Text, p: nat)
    requires P.Peek(t, p, LBRACE)
    ensures Balance(t, p, 0, false, false) == Balance(t, p + 1, 1, false, false)
  {}

  /** Printed, surrounded by prose, extracted and parsed: an object value comes back unchanged. */
  lemma ExtractedValue(num: NumberFormat, prefix: Text, v: Json, suffix: Text)
    requires num.Valid() && C.Clean(v) && v.Obj?
    requires forall i :: 0 <= i < |prefix| ==> prefix[i] != LBRACE
    ensures Candidate(prefix + (C.Canon(num, v) + suffix)) == Some(C.Canon(num, v))
    ensures P.ParseText(num, C.Canon(num, v)) == P.Ok(v, |C.Canon(num, v)|)
  {
    C.CanonYield(num, v);
    C.RoundTrip(num, v);
    CandidateIsObject(prefix, C.Tree(num, v), suffix);
  }

  // ---- The duplicate-name scan ----------------------------------------------------

  /** Where the scan believes a literal whose body starts at `i` is over; possibly past the text. */
  function LiteralEnd(t: Text, i: nat): (e: nat)
    ensures i < e
    decreases |t| - i
  {
    if i >= |t| then i + 1
    else if t[i] == QUOTE then i + 1
    else if t[i] == BACKSLASH then LiteralEnd(t, i + 2)
    else LiteralEnd(t, i + 1)
  }

  function JsSpaceEnd(t: Text, k: nat): (e: nat)
    ensures k <= e
    decreases |t| - k
  {
    if k < |t| && IsJsSpace(t[k]) then JsSpaceEnd(t, k + 1) else k
  }

  function Clamp(t: Text, e: nat): (r: nat)
    ensures r <= |t| && r <= e
  {
    if e <= |t| then e else |t|
  }

  /** `JSON.parse` of a string literal; unlike the cursor parser it lets lone surrogates through. */
  function ParseLiteral(literal: Text): Option<Text>
    requires literal != []
  {
    match P.StringBody(literal, 1)
    case Ok(s, e) => if literal[0] == QUOTE && e == |literal| then Some(s) else None
    case Fail(_) => None
  }

  /** The scan from position `i`, with the names seen so far at depth 1. */
  function NoDuplicates(t: Text, i: nat, depth: int, seen: set<Text>): bool
    decreases |t| - i
  {
    if i >= |t| then true
    else if t[i] == QUOTE then
      var e := LiteralEnd(t, i + 1);
      if depth == 1 && P.Peek(t, JsSpaceEnd(t, e), COLON) then
        var key := ParseLiteral(t[i..Clamp(t, e)]);
        if key.None? || key.value in seen then false
        else NoDuplicates(t, e, depth, seen + {key.value})
      else NoDuplicates(t, e, depth, seen)
    else
      var d := if t[i] == LBRACE || t[i] == LBRACKET then depth + 1
               else if t[i] == RBRACE || t[i] == RBRACKET then depth - 1
               else depth;
      NoDuplicates(t, i + 1, d, seen)
  }

  method HasNoDuplicateTopLevelKeys(t: Text) returns (ok: bool)
    ensures ok == NoDuplicates(t, 0, 0, {})
  {
    var seen: set<Text> := {};
    var depth := 0;
    var i := 0;
    while i < |t|
      invariant NoDuplicates(t, i, depth, seen) == NoDuplicates(t, 0, 0, {})
      decreases |t| - i
    {
      var ch := t[i];
      if ch == QUOTE {
        var start := i;
        i := i + 1;
        while i < |t| && t[i] != QUOTE
          invariant start < i && LiteralEnd(t, i) == LiteralEnd(t, start + 1)
          decreases |t| - i
        {
          i := i + if t[i] == BACKSLASH then 2 else 1;
        }
        i := i + 1;
        var literal := t[start..Clamp(t, i)];
        if depth == 1 {
          var k := i;
          while k < |t| && IsJsSpace(t[k])
            invariant i <= k && JsSpaceEnd(t, k) == JsSpaceEnd(t, i)
            decreases |t| - k
          {
            k := k + 1;
          }
          if P.Peek(t, k, COLON) {
            var key := ParseLiteral(literal);
            if key.None? { return false; }
            if key.value in seen { return false; }
            seen := seen + {key.value};
          }
        }
        continue;
      }
      if ch == LBRACE || ch == LBRACKET { depth := depth + 1; }
      else if ch == RBRACE || ch == RBRACKET { depth := depth - 1; }
      i := i + 1;
    }
    return true;
  }

  lemma {:induction false} LiteralEndPiece(t: Text, p: nat, x: Piece)
    requires PieceOk(x) && At(t, p, PieceText(x))
    ensures LiteralEnd(t, p) == LiteralEnd(t, p + |PieceText(x)|)
  {
    var n := |PieceText(x)|;
    assert forall i :: p <= i < p + n ==> t[i] == t[p..p + n][i - p];
    if x.Short? {
      assert t[p] == BACKSLASH;
    } else if x.Hex? {
      assert t[p] == BACKSLASH;
      assert t[p + 2] == x.h0 && t[p + 3] == x.h1 && t[p + 4] == x.h2 && t[p + 5] == x.h3;
      assert LiteralEnd(t, p) == LiteralEnd(t, p + 2) == LiteralEnd(t, p + 3) == LiteralEnd(t, p + 4);
      assert LiteralEnd(t, p + 4) == LiteralEnd(t, p + 5) == LiteralEnd(t, p + 6);
    } else {
      assert t[p] == x.c;
    }
  }

  lemma {:induction false} LiteralEndSpelling(t: Text, p: nat, s: Spelling)
    requires SpellingOk(s) && At(t, p, SpellingText(s))
    ensures LiteralEnd(t, p) == p + |SpellingText(s)|
    decreases s
  {
    hide At, PieceText, PieceOk;
    match s
    case Close => AtUnit(t, p, QUOTE);
    case Spell(x, rest) =>
      AtConcat(t, p, PieceText(x), SpellingText(rest));
      LiteralEndPiece(t, p, x);
      LiteralEndSpelling(t, p + |PieceText(x)|, rest);
  }

  /** A spelled literal is cut out exactly, and reading it gives its decoded name. */
  lemma LiteralExact(t: Text, k: nat, s: Spelling)
    requires SpellingOk(s) && P.Peek(t, k, QUOTE) && At(t, k + 1, SpellingText(s))
    ensures var e := k + 1 + |SpellingText(s)|;
            LiteralEnd(t, k + 1) == e == Clamp(t, e) && ParseLiteral(t[k..e]) == Some(Decoded(s))
  {
    hide P.StringBody, LiteralEnd, SpellingOk;
    LiteralEndSpelling(t, k + 1, s);
    var literal := t[k..k + 1 + |SpellingText(s)|];
    assert At(literal, 1, SpellingText(s)) by {
      assert literal[1..] == t[k + 1..k + 1 + |SpellingText(s)|];
    }
    P.StringBodyComplete(literal, 1, s);
  }

  lemma {:induction false} JsSpaceSkip(t: Text, p: nat)
    requires p <= |t|
    ensures JsSpaceEnd(t, p) == JsSpaceEnd(t, P.SkipWs(t, p))
    decreases |t| - p
  {
    if p < |t| && IsWs(t[p]) { JsSpaceSkip(t, p + 1); }
  }

  lemma {:induction false} DupSkip(t: Text, p: nat, d: int, seen: set<Text>)
    requires p <= |t|
    ensures NoDuplicates(t, p, d, seen) == NoDuplicates(t, P.SkipWs(t, p), d, seen)
    decreases |t| - p
  {
    if p < |t| && IsWs(t[p]) { DupSkip(t, p + 1, d, seen); }
  }

  lemma {:induction false} DupInert(t: Text, p: nat, w: Text, d: int, seen: set<Text>)
    requires At(t, p, w) && Inert(w)
    ensures NoDuplicates(t, p, d, seen) == NoDuplicates(t, p + |w|, d, seen)
    decreases |w|
  {
    if w != [] {
      P.AtFirst(t, p, w);
      assert w == [w[0]] + w[1..];
      AtConcat(t, p, [w[0]], w[1..]);
      DupInert(t, p + 1, w[1..], d, seen);
    }
  }

  /** One structural unit outside strings. */
  lemma DupStep(t: Text, q: nat, d: int, seen: set<Text>)
    requires q < |t| && t[q] != QUOTE
    ensures var d' := if t[q] == LBRACE || t[q] == LBRACKET then d + 1
                      else if t[q] == RBRACE || t[q] == RBRACKET then d - 1 else d;
            NoDuplicates(t, q, d, seen) == NoDuplicates(t, q + 1, d', seen)
  {}

  /** A literal that is not a top-level name is passed over. */
  lemma DupLiteral(t: Text, k: nat, s: Spelling, d: int, seen: set<Text>)
    requires SpellingOk(s) && P.Peek(t, k, QUOTE) && At(t, k + 1, SpellingText(s))
    requires d == 1 ==> !P.Peek(t, P.SkipWs(t, k + 1 + |SpellingText(s)|), COLON) &&
                        (P.SkipWs(t, k + 1 + |SpellingText(s)|) < |t| ==>
                          !IsJsSpace(t[P.SkipWs(t, k + 1 + |SpellingText(s)|)]))
    ensures NoDuplicates(t, k, d, seen) == NoDuplicates(t, k + 1 + |SpellingText(s)|, d, seen)
  {
    hide P.StringBody, LiteralEnd, SpellingOk, ParseLiteral, SpellingText, Decoded;
    LiteralExact(t, k, s);
    JsSpaceSkip(t, k + 1 + |SpellingText(s)|);
  }

  /** A top-level name. */
  lemma DupName(t: Text, k: nat, s: Spelling, c: nat, seen: set<Text>)
    requires SpellingOk(s) && P.Peek(t, k, QUOTE) && At(t, k + 1, SpellingText(s))
    requires c == P.SkipWs(t, k + 1 + |SpellingText(s)|) && P.Peek(t, c, COLON)
    ensures NoDuplicates(t, k, 1, seen) ==
            (Decoded(s) !in seen && NoDuplicates(t, k + 1 + |SpellingText(s)|, 1, seen + {Decoded(s)}))
  {
    hide P.StringBody, LiteralEnd, SpellingOk, ParseLiteral, SpellingText, Decoded;
    LiteralExact(t, k, s);
    JsSpaceSkip(t, k + 1 + |SpellingText(s)|);
  }

  /**
   * A nested value leaves the scan where it was. At depth 1 a string value must not be followed
   * by a colon, which the grammar guarantees where this is used.
   */
  lemma {:induction false} DupValue(t: Text, p: nat, c: Cst, d: int, seen: set<Text>)
    requires Derivation(c) && At(t, p, Yield(c)) && d >= 1
    requires d == 1 ==> var q := P.SkipWs(t, p + |Yield(c)|); q < |t| && t[q] != COLON && !IsJsSpace(t[q])
    ensures NoDuplicates(t, p, d, seen) == NoDuplicates(t, p + |Yield(c)|, d, seen)
    decreases c
  {
    hide At, YieldElems, YieldFields, SpellingText, Inert, NoDuplicates, SpellingOk;
    match c
    case CStr(s) =>
      AtConcat(t, p, [QUOTE], SpellingText(s));
      AtUnit(t, p, QUOTE);
      DupLiteral(t, p, s, d, seen);
    case CArr0(w) => DupEmpty(t, p, LBRACKET, w, RBRACKET, d, seen);
    case CObj0(w) => DupEmpty(t, p, LBRACE, w, RBRACE, d, seen);
    case CArr(elems) =>
      AtConcat(t, p, [LBRACKET], YieldElems(elems));
      AtUnit(t, p, LBRACKET);
      DupStep(t, p, d, seen);
      DupElems(t, p + 1, elems, d + 1, seen);
    case CObj(fields) =>
      AtConcat(t, p, [LBRACE], YieldFields(fields));
      AtUnit(t, p, LBRACE);
      DupStep(t, p, d, seen);
      DupFields(t, p + 1, fields, d + 1, seen);
    case _ =>
      ScalarInert(c);
      DupInert(t, p, Yield(c), d, seen);
  }

  lemma DupEmpty(t: Text, p: nat, open: CodeUnit, w: Text, close: CodeUnit, d: int, seen: set<Text>)
    requires (open == LBRACE && close == RBRACE) || (open == LBRACKET && close == RBRACKET)
    requires AllWs(w) && At(t, p, [open] + (w + [close]))
    ensures NoDuplicates(t, p, d, seen) == NoDuplicates(t, p + |[open] + (w + [close])|, d, seen)
  {
    hide At, NoDuplicates;
    P.EmptyComplete(t, p, open, w, close);
    P.AtFirst(t, p, [open] + (w + [close]));
    DupStep(t, p, d, seen);
    DupSkip(t, p + 1, d + 1, seen);
    DupStep(t, p + 1 + |w|, d + 1, seen);
  }

  lemma {:induction false} DupElems(t: Text, p: nat, e: Elems, d: int, seen: set<Text>)
    requires DerivationElems(e) && At(t, p, YieldElems(e)) && d >= 2
    ensures NoDuplicates(t, p, d, seen) == NoDuplicates(t, p + |YieldElems(e)|, d - 1, seen)
    decreases e
  {
    hide At, AllWs, Derivation, Yield, YieldElems, NoDuplicates, P.SkipWs;
    var a, b, q := P.ElemParts(t, p, e);
    DupSkip(t, p, d, seen);
    DupValue(t, a, e.v, d, seen);
    DupSkip(t, b, d, seen);
    DupStep(t, q, d, seen);
    if e.MoreElems? { DupElems(t, q + 1, e.rest, d, seen); }
  }

  /** Members of a nested object. */
  lemma {:induction false} DupFields(t: Text, p: nat, f: Fields, d: int, seen: set<Text>)
    requires DerivationFields(f) && At(t, p, YieldFields(f)) && d >= 2
    ensures NoDuplicates(t, p, d, seen) == NoDuplicates(t, p + |YieldFields(f)|, d - 1, seen)
    decreases f
  {
    hide At, AllWs, Derivation, Yield, YieldFields, SpellingText, SpellingOk, NoDuplicates, P.SkipWs;
    var k, c, v, e, q := P.FieldParts(t, p, f);
    DupSkip(t, p, d, seen);
    DupLiteral(t, k, f.key, d, seen);
    DupSkip(t, k + 1 + |SpellingText(f.key)|, d, seen);
    DupStep(t, c, d, seen);
    DupSkip(t, c + 1, d, seen);
    DupValue(t, v, f.v, d, seen);
    DupSkip(t, e, d, seen);
    DupStep(t, q, d, seen);
    if f.MoreFields? { DupFields(t, q + 1, f.rest, d, seen); }
  }

  /** Members of the top-level object: every decoded name is new, and the rest of the text is fine. */
  lemma {:induction false} DupTop(t: Text, p: nat, f: Fields, seen: set<Text>)
    requires DerivationFields(f) && At(t, p, YieldFields(f))
    ensures NoDuplicates(t, p, 1, seen) ==
            (NewNames(f, seen) && NoDuplicates(t, p + |YieldFields(f)|, 0, seen + NameSet(f)))
    decreases f
  {
    hide At, AllWs, Derivation, Yield, YieldFields, SpellingText, SpellingOk, NoDuplicates, P.SkipWs, Decoded;
    var k, c, v, e, q := P.FieldParts(t, p, f);
    var name := Decoded(f.key);
    var seen' := seen + {name};
    DupSkip(t, p, 1, seen);
    DupName(t, k, f.key, c, seen);
    DupSkip(t, k + 1 + |SpellingText(f.key)|, 1, seen');
    DupStep(t, c, 1, seen');
    DupSkip(t, c + 1, 1, seen');
    DupValue(t, v, f.v, 1, seen');
    DupSkip(t, e, 1, seen');
    DupStep(t, q, 1, seen');
    if f.MoreFields? {
      DupTop(t, q + 1, f.rest, seen');
      assert seen' + NameSet(f.rest) == seen + NameSet(f);
    } else {
      assert seen' == seen + NameSet(f);
    }
  }

  function NameSet(f: Fields): set<Text>
    requires DerivationFields(f)
  {
    {Decoded(f.key)} + if f.MoreFields? then NameSet(f.rest) else {}
  }

  /** Reading left to right, each name is outside `seen` and different from the names before it. */
  predicate NewNames(f: Fields, seen: set<Text>)
    requires DerivationFields(f)
  {
    Decoded(f.key) !in seen && (f.MoreFields? ==> NewNames(f.rest, seen + {Decoded(f.key)}))
  }

  lemma {:induction false} NewNamesDistinct(f: Fields, seen: set<Text>)
    requires DerivationFields(f)
    ensures NewNames(f, seen) <==> Distinct(Names(f)) && forall k :: k in Names(f) ==> k !in seen
    decreases f
  {
    hide Decoded, Derivation, AllWs, SpellingOk;
    var name := Decoded(f.key);
    if f.MoreFields? {
      NewNamesDistinct(f.rest, seen + {name});
      DistinctCons(name, Names(f.rest));
    }
  }

  lemma DistinctCons(x: Text, xs: seq<Text>)
    ensures Distinct([x] + xs) <==> Distinct(xs) && x !in xs
  {
    var ys := [x] + xs;
    if Distinct(ys) {
      assert forall i: int :: 0 <= i < |xs| ==> xs[i] == ys[i + 1];
      assert ys[0] == x;
    }
  }

  /** Decoded top-level names of an object. */
  function TopNames(c: Cst): seq<Text>
    requires Derivation(c)
  {
    if c.CObj? then Names(c.fields) else []
  }

  /**
   * On the text of any JSON object, with any whitespace around it, the scan answers true exactly
   * when the decoded top-level names are pairwise distinct.
   */
  lemma DuplicateScanExact(before: Text, c: Cst, after: Text)
    requires AllWs(before) && AllWs(after) && Derivation(c) && (c.CObj0? || c.CObj?)
    ensures NoDuplicates(before + (Yield(c) + after), 0, 0, {}) <==> Distinct(TopNames(c))
  {
    hide NoDuplicates, YieldFields, P.SkipWs, Distinct, AllWs;
    var t := before + (Yield(c) + after);
    var p := |before|;
    var e := p + |Yield(c)|;
    P.AtSelf(t);
    AtConcat(t, 0, before, Yield(c) + after);
    AtConcat(t, p, Yield(c), after);
    P.AtFirst(t, p, Yield(c));
    P.SkipWsIs(t, 0, before);
    DupSkip(t, 0, 0, {});
    DupEnd(t, e, after);
    if c.CObj0? {
      hide At;
      DupEmpty(t, p, LBRACE, c.w, RBRACE, 0, {});
      assert Distinct<Text>([]) by { NoNames(); }
    } else {
      hide At;
      DupStep(t, p, 0, {});
      AtConcat(t, p, [LBRACE], YieldFields(c.fields));
      DupTop(t, p + 1, c.fields, {});
      NewNamesDistinct(c.fields, {});
    }
  }

  lemma NoNames()
    ensures Distinct<Text>([])
  {}

  lemma DupEnd(t: Text, e: nat, w: Text)
    requires AllWs(w) && At(t, e, w) && e + |w| == |t|
    ensures forall d, seen :: NoDuplicates(t, e, d, seen)
  {
    P.SkipWsIs(t, e, w);
    forall d, seen ensures NoDuplicates(t, e, d, seen) {
      DupSkip(t, e, d, seen);
    }
  }

  /**
   * The two ingresses agree on duplicates: for an object document that is admissible except
   * possibly for its top-level names, the cursor parser accepts exactly when the scan does.
   */
  lemma ScanAgreesWithParser(num: NumberFormat, before: Text, f: Fields, after: Text)
    requires AllWs(before) && AllWs(after) && DerivationFields(f) && AdmissibleFields(num, f)
    ensures var t := before + (Yield(CObj(f)) + after);
            P.ParseText(num, t).Ok? <==> NoDuplicates(t, 0, 0, {})
  {
    hide NoDuplicates, AllWs, Distinct, P.ParseText, YieldFields;
    var t := before + (Yield(CObj(f)) + after);
    DuplicateScanExact(before, CObj(f), after);
    if Distinct(Names(f)) {
      P.DocumentAccepted(num, Document(before, CObj(f), after));
    } else if P.ParseText(num, t).Ok? {
      var d := P.AcceptedIsDocument(num, t);
      SameStart(before, f, after, d);
      NoNames();
      DuplicateScanExact(d.before, d.c, d.after);
    }
  }

  /** Two derivations of one document text start the same way. */
  lemma SameStart(before: Text, f: Fields, after: Text, d: Document)
    requires AllWs(before) && AllWs(d.before) && Derivation(d.c)
    requires before + (Yield(CObj(f)) + after) == DocumentText(d)
    ensures d.c.CObj0? || d.c.CObj?
  {
    hide YieldFields, Yield;
    var t := DocumentText(d);
    P.AtSelf(t);
    AtConcat(t, 0, before, Yield(CObj(f)) + after);
    AtConcat(t, |before|, Yield(CObj(f)), after);
    P.AtFirst(t, |before|, Yield(CObj(f)));
    P.SkipWsIs(t, 0, before);
    AtConcat(t, 0, d.before, Yield(d.c) + d.after);
    AtConcat(t, |d.before|, Yield(d.c), d.after);
    P.FirstUnit(d.c);
    P.AtFirst(t, |d.before|, Yield(d.c));
    P.SkipWsIs(t, 0, d.before);
    OpeningBrace(d.c);
  }

  lemma OpeningBrace(c: Cst)
    requires Derivation(c) && |Yield(c)| > 0
    ensures Yield(c)[0] == LBRACE ==> c.CObj0? || c.CObj?
  {
    if c.CNum? { assert NumText(c.n)[0] == if c.n.minus then MINUS else c.n.whole[0]; }
  }
}
