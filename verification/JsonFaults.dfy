/** Why a text is rejected: the first fault in reading order, and what each code means. */
module JsonFaults {
  import opened Options
  import opened Sequences
  import opened Text
  import opened JsonGrammar
  import opened JsonParser

  // ---- The first fault of a derivation -----------------------------------------------------------

  /** What is wrong with a derivation that keeps the grammar, first in reading order. */
  function Fault(num: NumberFormat, c: Cst): Option<ErrorCode>
    requires Derivation(c)
  {
    match c
    case CNum(n) => if num.read(NumText(n)).None? then Some(NonFiniteNumber) else None
    case CStr(s) => if WellFormed(Decoded(s)) then None else Some(LoneSurrogate)
    case CArr(elems) => ElemsFault(num, elems)
    case CObj(fields) => FieldsFault(num, fields, {})
    case _ => None
  }

  function ElemsFault(num: NumberFormat, e: Elems): Option<ErrorCode>
    requires DerivationElems(e)
  {
    if Fault(num, e.v).Some? then Fault(num, e.v) else if e.MoreElems? then ElemsFault(num, e.rest) else None
  }

  /** `seen` are the names of the members before. */
  function FieldsFault(num: NumberFormat, f: Fields, seen: set<Text>): Option<ErrorCode>
    requires DerivationFields(f)
  {
    var key := Decoded(f.key);
    if !WellFormed(key) then Some(LoneSurrogate)
    else if key in seen then Some(DuplicateKey)
    else if Fault(num, f.v).Some? then Fault(num, f.v)
    else if f.MoreFields? then FieldsFault(num, f.rest, seen + {key})
    else None
  }

  /** No fault is what admissible means. */
  lemma {:induction false} FaultlessIsAdmissible(num: NumberFormat, c: Cst)
    requires Derivation(c)
    ensures Fault(num, c) == None <==> Admissible(num, c)
    decreases c
  {
    match c
    case CArr(elems) => FaultlessElems(num, elems);
    case CObj(fields) => FaultlessFields(num, fields, {});
    case _ =>
  }

  lemma {:induction false} FaultlessElems(num: NumberFormat, e: Elems)
    requires DerivationElems(e)
    ensures ElemsFault(num, e) == None <==> AdmissibleElems(num, e)
    decreases e
  {
    hide Fault, Admissible, Derivation;
    FaultlessIsAdmissible(num, e.v);
    if e.MoreElems? { FaultlessElems(num, e.rest); }
  }

  lemma {:induction false} FaultlessFields(num: NumberFormat, f: Fields, seen: set<Text>)
    requires DerivationFields(f)
    ensures FieldsFault(num, f, seen) == None <==>
            AdmissibleFields(num, f) && Distinct(Names(f)) && forall k :: k in Names(f) ==> k !in seen
    decreases f
  {
    hide Fault, Admissible, Derivation, Decoded, WellFormed, Distinct, AllWs, SpellingOk;
    var key := Decoded(f.key);
    FaultlessIsAdmissible(num, f.v);
    if f.MoreFields? {
      FaultlessFields(num, f.rest, seen + {key});
      NamesAre(f);
    } else {
      assert Names(f) == [key];
      OneName(key);
    }
  }

  lemma OneName(key: Text)
    ensures Distinct([key])
  {}

  lemma NamesAre(f: Fields)
    requires f.MoreFields? && DerivationFields(f)
    ensures Names(f) == [Decoded(f.key)] + Names(f.rest)
    ensures Distinct(Names(f)) <==> Distinct(Names(f.rest)) && Decoded(f.key) !in Names(f.rest)
  {
    hide Decoded, Derivation, AllWs, SpellingOk;
    var all, rest := Names(f), Names(f.rest);
    assert all == [Decoded(f.key)] + rest;
    assert forall i :: 0 <= i < |rest| ==> all[i + 1] == rest[i];
    if Distinct(all) {
      forall i, j | 0 <= i < j < |rest| ensures rest[i] != rest[j] { assert all[i + 1] != all[j + 1]; }
      forall i | 0 <= i < |rest| ensures rest[i] != all[0] { assert all[0] != all[i + 1]; }
    }
  }

  // ---- The parser stops at it --------------------------------------------------------------------

  lemma {:induction false} ValueStops(num: NumberFormat, t: Text, p: nat, c: Cst)
    requires Derivation(c) && Fault(num, c).Some? && At(t, p, Yield(c)) && Stops(t, p + |Yield(c)|)
    ensures ParseValue(num, t, p) == Fail(Fault(num, c).value)
    decreases c
  {
    hide At, ParseValue, ParseElements, ParseFields, ElemsFault, FieldsFault, YieldElems, YieldFields, AllWs,
         WellFormed, NumText, NumTokOk, SpellingOk, SpellingText, Decoded;
    FirstUnit(c);
    AtFirst(t, p, Yield(c));
    match c
    case CArr(elems) =>
      AtConcat(t, p, [LBRACKET], YieldElems(elems));
      ElementsStop(num, t, p + 1, elems);
      ElementsStart(t, p + 1, elems);
      ElementsSkip(num, t, p + 1);
      ArrayDispatch(num, t, p, p);
    case CObj(fields) =>
      AtConcat(t, p, [LBRACE], YieldFields(fields));
      var none: map<Text, Json> := map[];
      assert none.Keys == {};
      FieldsStop(num, t, p + 1, fields, none);
      FieldsStart(t, p + 1, fields);
      FieldsSkip(num, t, p + 1);
      ObjectDispatch(num, t, p, p);
    case CStr(s) => StringStops(num, t, p, s);
    case CNum(n) => NumberStops(num, t, p, n);
  }

  lemma StringStops(num: NumberFormat, t: Text, p: nat, s: Spelling)
    requires SpellingOk(s) && !WellFormed(Decoded(s)) && At(t, p, [QUOTE] + SpellingText(s))
    ensures ParseValue(num, t, p) == Fail(LoneSurrogate)
  {
    hide At, StringBody, WellFormed, SpellingOk, SpellingText, Decoded;
    AtConcat(t, p, [QUOTE], SpellingText(s));
    AtUnit(t, p, QUOTE);
    StringBodyComplete(t, p + 1, s);
  }

  lemma NumberStops(num: NumberFormat, t: Text, p: nat, n: NumTok)
    requires NumTokOk(n) && num.read(NumText(n)).None? && At(t, p, NumText(n)) && Stops(t, p + |NumText(n)|)
    ensures ParseValue(num, t, p) == Fail(NonFiniteNumber)
  {
    NumberStarts(t, p, n);
    hide NumberEnd, NumText, NumTokOk, Stops;
    NumberEndComplete(t, p, n);
  }

  lemma NumberStarts(t: Text, p: nat, n: NumTok)
    requires NumTokOk(n) && At(t, p, NumText(n))
    ensures p < |t| && (t[p] == MINUS || IsDigit(t[p])) && SkipWs(t, p) == p
  {
    AtFirst(t, p, NumText(n));
    assert NumText(n)[0] == if n.minus then MINUS else n.whole[0];
  }

  lemma {:induction false} ElementsStop(num: NumberFormat, t: Text, p: nat, e: Elems)
    requires DerivationElems(e) && ElemsFault(num, e).Some? && At(t, p, YieldElems(e))
    ensures ParseElements(num, t, p) == Fail(ElemsFault(num, e).value)
    decreases e
  {
    hide At, Yield, ParseValue, SkipWs, YieldElems, AllWs, Denote, Admissible, Derivation, Fault;
    var a, b, q := ElemParts(t, p, e);
    if Fault(num, e.v).Some? {
      ValueStops(num, t, a, e.v);
    } else {
      FaultlessIsAdmissible(num, e.v);
      ValueComplete(num, t, a, e.v);
      ElementsStop(num, t, q + 1, e.rest);
    }
  }

  lemma {:induction false} FieldsStop(num: NumberFormat, t: Text, p: nat, f: Fields, m: map<Text, Json>)
    requires DerivationFields(f) && FieldsFault(num, f, m.Keys).Some? && At(t, p, YieldFields(f))
    ensures ParseFields(num, t, p, m) == Fail(FieldsFault(num, f, m.Keys).value)
    decreases f
  {
    hide At, Yield, ParseValue, SkipWs, ParseFields, YieldFields, StringAt, WellFormed, SpellingText, Denote,
         Admissible, Derivation, Decoded, SpellingOk, AllWs, Fault, ParseMember, ParseMemberValue;
    var k, c, v, e, q := FieldParts(t, p, f);
    var key := Decoded(f.key);
    FieldsUnfold(num, t, p, m);
    NameStops(num, t, k, f.key, m, c);
    if WellFormed(key) && key !in m {
      MemberValueUnfold(num, t, c, m, key);
      if Fault(num, f.v).Some? {
        ValueStops(num, t, v, f.v);
      } else {
        FaultlessIsAdmissible(num, f.v);
        ValueComplete(num, t, v, f.v);
        var more := m[key := Denote(num, f.v)];
        assert more.Keys == m.Keys + {key};
        FieldsStop(num, t, q + 1, f.rest, more);
      }
    }
  }

  lemma NameStops(num: NumberFormat, t: Text, k: nat, s: Spelling, m: map<Text, Json>, c: nat)
    requires SpellingOk(s) && Peek(t, k, QUOTE) && At(t, k + 1, SpellingText(s))
    requires k + 1 + |SpellingText(s)| <= |t| && SkipWs(t, k + 1 + |SpellingText(s)|) == c && Peek(t, c, COLON)
    ensures var key := Decoded(s);
            ParseMember(num, t, k, m) ==
              if !WellFormed(key) then Fail(LoneSurrogate)
              else if key in m then Fail(DuplicateKey)
              else ParseMemberValue(num, t, c, m, key)
  {
    hide At, StringBody, WellFormed, SpellingOk, SpellingText, Decoded, SkipWs, ParseMemberValue;
    StringBodyComplete(t, k + 1, s);
  }

  // ---- What each rejection means --------------------------------------------------------------------

  /** A document that keeps the grammar, whether or not it is admissible. */
  predicate Grammatical(d: Document) { AllWs(d.before) && AllWs(d.after) && Derivation(d.c) }

  /** A text that keeps the grammar is rejected exactly for its first fault, and otherwise accepted. */
  lemma GrammaticalOutcome(num: NumberFormat, d: Document)
    requires Grammatical(d)
    ensures var t := DocumentText(d);
            if Fault(num, d.c).Some? then ParseText(num, t) == Fail(Fault(num, d.c).value)
            else Admissible(num, d.c) && ParseText(num, t) == Ok(Denote(num, d.c), |t|)
  {
    hide At, Yield, ParseValue, SkipWs, AllWs, Denote, Derivation, Admissible, DocumentText, Fault;
    FaultlessIsAdmissible(num, d.c);
    if Fault(num, d.c).Some? {
      DocumentParts(d);
      ValueStops(num, DocumentText(d), |d.before|, d.c);
    } else {
      DocumentAccepted(num, d);
    }
  }

  /** A fault is one of three. */
  lemma {:induction false} FaultKinds(num: NumberFormat, c: Cst)
    requires Derivation(c)
    ensures Fault(num, c) in {None, Some(NonFiniteNumber), Some(LoneSurrogate), Some(DuplicateKey)}
    decreases c
  {
    match c
    case CArr(elems) => ElemsFaultKinds(num, elems);
    case CObj(fields) => FieldsFaultKinds(num, fields, {});
    case _ =>
  }

  lemma {:induction false} ElemsFaultKinds(num: NumberFormat, e: Elems)
    requires DerivationElems(e)
    ensures ElemsFault(num, e) in {None, Some(NonFiniteNumber), Some(LoneSurrogate), Some(DuplicateKey)}
    decreases e
  {
    hide Fault, Derivation;
    FaultKinds(num, e.v);
    if e.MoreElems? { ElemsFaultKinds(num, e.rest); }
  }

  lemma {:induction false} FieldsFaultKinds(num: NumberFormat, f: Fields, seen: set<Text>)
    requires DerivationFields(f)
    ensures FieldsFault(num, f, seen) in {None, Some(NonFiniteNumber), Some(LoneSurrogate), Some(DuplicateKey)}
    decreases f
  {
    hide Fault, Derivation, Decoded, WellFormed;
    FaultKinds(num, f.v);
    if f.MoreFields? { FieldsFaultKinds(num, f.rest, seen + {Decoded(f.key)}); }
  }

  /**
   * The codes for a byte order mark and for an empty input are given exactly for those; any code but
   * the three for faults of content means that the text does not keep the grammar at all.
   */
  lemma RejectionsMean(num: NumberFormat, t: Text)
    ensures ParseText(num, t) == Fail(Bom) <==> t != [] && t[0] == BOM
    ensures ParseText(num, t) == Fail(EmptyInput) <==> AllWs(t)
    ensures ParseText(num, t).Fail? && ParseText(num, t).code !in {NonFiniteNumber, LoneSurrogate, DuplicateKey} ==>
              !exists d :: Grammatical(d) && DocumentText(d) == t
  {
    OuterCodes(num, t);
    forall d | Grammatical(d) && DocumentText(d) == t
      ensures ParseText(num, t).Fail? ==> ParseText(num, t).code in {NonFiniteNumber, LoneSurrogate, DuplicateKey}
    {
      GrammaticalOutcome(num, d);
      FaultKinds(num, d.c);
    }
  }

  /** Codes that are given inside a document. */
  predicate Inner(code: ErrorCode) { code != Bom && code != EmptyInput && code != TrailingTokens }

  lemma {:induction false} StringCodes(t: Text, p: nat)
    requires p <= |t|
    ensures StringBody(t, p).Fail? ==> Inner(StringBody(t, p).code)
    decreases |t| - p
  {
    if p < |t| { StringCodes(t, p + 1); }
    if p + 2 <= |t| { StringCodes(t, p + 2); }
    if p + 6 <= |t| { StringCodes(t, p + 6); }
  }

  lemma {:induction false} ValueCodes(num: NumberFormat, t: Text, start: nat)
    requires start <= |t|
    ensures ParseValue(num, t, start).Fail? ==> Inner(ParseValue(num, t, start).code)
    decreases |t| - start, 2
  {
    hide SkipWs, ParseElements, ParseFields, StringBody, NumberEnd, Keyword, WellFormed;
    var p := SkipWs(t, start);
    if p < |t| {
      StringCodes(t, p + 1);
      ElementsCodes(num, t, SkipWs(t, p + 1));
      FieldsCodes(num, t, SkipWs(t, p + 1), map[]);
      KeywordCodes(t, p);
    }
  }

  lemma KeywordCodes(t: Text, p: nat)
    ensures Keyword(t, p).Fail? ==> Inner(Keyword(t, p).code)
  {
    hide At;
  }

  lemma {:induction false} ElementsCodes(num: NumberFormat, t: Text, start: nat)
    requires start <= |t|
    ensures ParseElements(num, t, start).Fail? ==> Inner(ParseElements(num, t, start).code)
    decreases |t| - start, 3
  {
    hide SkipWs, ParseValue;
    ValueCodes(num, t, SkipWs(t, start));
    var v := ParseValue(num, t, SkipWs(t, start));
    if v.Ok? && Peek(t, SkipWs(t, v.pos), COMMA) { ElementsCodes(num, t, SkipWs(t, v.pos) + 1); }
  }

  lemma {:induction false} FieldsCodes(num: NumberFormat, t: Text, start: nat, m: map<Text, Json>)
    requires start <= |t|
    ensures ParseFields(num, t, start, m).Fail? ==> Inner(ParseFields(num, t, start, m).code)
    decreases |t| - start, 3
  {
    hide SkipWs, ParseValue, ParseFields, StringBody, WellFormed;
    FieldsUnfold(num, t, start, m);
    var p := SkipWs(t, start);
    if Peek(t, p, QUOTE) {
      StringCodes(t, p + 1);
      var name := StringAt(t, p);
      if name.Ok? && name.value !in m && Peek(t, SkipWs(t, name.pos), COLON) {
        var v := SkipWs(t, SkipWs(t, name.pos) + 1);
        ValueCodes(num, t, v);
        var r := ParseValue(num, t, v);
        if r.Ok? && Peek(t, SkipWs(t, r.pos), COMMA) {
          FieldsCodes(num, t, SkipWs(t, r.pos) + 1, m[name.value := r.value]);
        }
      }
    }
  }

  lemma OuterCodes(num: NumberFormat, t: Text)
    ensures ParseText(num, t) == Fail(Bom) <==> t != [] && t[0] == BOM
    ensures ParseText(num, t) == Fail(EmptyInput) <==> AllWs(t)
  {
    hide ParseValue;
    var p := SkipWs(t, 0);
    if p < |t| { ValueCodes(num, t, p); }
  }

  /** Trailing tokens are reported only behind a whole admissible document, and when something is there. */
  lemma TrailingMeans(num: NumberFormat, t: Text) returns (c: Cst, p: nat, i: nat)
    requires ParseText(num, t) == Fail(TrailingTokens)
    ensures Derivation(c) && Admissible(num, c) && p <= |t| && AllWs(t[..p]) && At(t, p, Yield(c))
    ensures p + |Yield(c)| <= i < |t| && !IsWs(t[i])
  {
    hide ParseValue, Yield, Derivation, Admissible;
    p := SkipWs(t, 0);
    if p < |t| { ValueCodes(num, t, p); }
    SkipWsTwice(t, 0);
    c := ValueSound(num, t, p);
    i := SkipWs(t, p + |Yield(c)|);
    SkippedWs(t, 0);
    assert t[..p] == t[0..p];
  }
}
