/** The RFC 8785 printer, and what parsing and printing guarantee about each other. */
module JsonCanonical {
  import opened Options
  import opened Sequences
  import opened Text
  import opened JsonGrammar
  import P = JsonParser

  // ---- Strings --------------------------------------------------------------

  function LowerHex(d: nat): (c: CodeUnit)
    requires d < 16
    ensures IsHex(c) && HexValue(c) == d
  {
    if d < 10 then 0x30 + d else 0x57 + d
  }

  /** How the printer spells one code unit. */
  function JcsPiece(c: CodeUnit): (x: Piece)
    ensures PieceOk(x) && PieceUnit(x) == c
  {
    if c == QUOTE || c == BACKSLASH then Short(c)
    else if c == 0x08 then Short(0x62)
    else if c == 0x09 then Short(0x74)
    else if c == 0x0A then Short(0x6E)
    else if c == 0x0C then Short(0x66)
    else if c == 0x0D then Short(0x72)
    else if c < 0x20 then Hex(ZERO, ZERO, LowerHex(c / 16), LowerHex(c % 16))
    else Plain(c)
  }

  function JcsSpelling(s: Text): (r: Spelling)
    ensures SpellingOk(r) && Decoded(r) == s
  {
    if s == [] then Close else Spell(JcsPiece(s[0]), JcsSpelling(s[1..]))
  }

  predicate IsLowerHex(h: CodeUnit) { 0x30 <= h <= 0x39 || 0x61 <= h <= 0x66 }

  /** The hex digits of an escape are 0-9 or a-f. */
  predicate LowerCase(x: Piece) {
    x.Hex? ==> IsLowerHex(x.h0) && IsLowerHex(x.h1) && IsLowerHex(x.h2) && IsLowerHex(x.h3)
  }

  predicate LowerCased(r: Spelling) { r.Spell? ==> LowerCase(r.x) && LowerCased(r.rest) }

  /** No spelling of a code unit is shorter than the printer's, and a lower-case one of its length is the same. */
  lemma PieceShortest(c: CodeUnit, x: Piece)
    requires PieceOk(x) && PieceUnit(x) == c
    ensures LowerCase(JcsPiece(c)) && |PieceText(JcsPiece(c))| <= |PieceText(x)|
    ensures LowerCase(x) && |PieceText(x)| == |PieceText(JcsPiece(c))| ==> x == JcsPiece(c)
  {
    match x
    case Plain(_) =>
    case Short(_) => ShortShortest(c, x);
    case Hex(h0, h1, h2, h3) =>
      if JcsPiece(c).Hex? {
        SmallHex(h0, h1, h2, h3);
        hide HexValue;
        if LowerCase(x) { OneLowerHex(h0); OneLowerHex(h1); OneLowerHex(h2); OneLowerHex(h3); }
      }
  }

  lemma ShortShortest(c: CodeUnit, x: Piece)
    requires x.Short? && PieceOk(x) && PieceUnit(x) == c
    ensures JcsPiece(c) == x || JcsPiece(c).Plain?
  {}

  lemma SmallHex(h0: CodeUnit, h1: CodeUnit, h2: CodeUnit, h3: CodeUnit)
    requires IsHex(h0) && IsHex(h1) && IsHex(h2) && IsHex(h3) && PieceUnit(Hex(h0, h1, h2, h3)) < 0x20
    ensures HexValue(h0) == 0 && HexValue(h1) == 0
    ensures var c := PieceUnit(Hex(h0, h1, h2, h3)); HexValue(h2) == c / 16 && HexValue(h3) == c % 16
  {
    hide HexValue;
  }

  lemma OneLowerHex(h: CodeUnit)
    requires IsHex(h) && IsLowerHex(h)
    ensures h == LowerHex(HexValue(h)) && (HexValue(h) == 0 ==> h == ZERO)
  {}

  /** Of all ways to spell a string, the printer's is the shortest. */
  lemma {:induction false} JcsShortest(s: Text, r: Spelling)
    requires SpellingOk(r) && Decoded(r) == s
    ensures |SpellingText(JcsSpelling(s))| <= |SpellingText(r)| && LowerCased(JcsSpelling(s))
    ensures LowerCased(r) && |SpellingText(r)| == |SpellingText(JcsSpelling(s))| ==> r == JcsSpelling(s)
    decreases r
  {
    hide JcsPiece, PieceText, PieceUnit, PieceOk, LowerCase;
    if r.Spell? {
      PieceShortest(PieceUnit(r.x), r.x);
      JcsShortest(s[1..], r.rest);
    }
  }

  /** The printer's spelling is the one that is lower-case and no longer than any other. */
  lemma JcsSpellingExactly(s: Text, r: Spelling)
    requires SpellingOk(r) && Decoded(r) == s
    ensures r == JcsSpelling(s) <==>
            LowerCased(r) && forall q :: SpellingOk(q) && Decoded(q) == s ==> |SpellingText(r)| <= |SpellingText(q)|
  {
    hide JcsSpelling, SpellingText, SpellingOk, Decoded, LowerCased;
    JcsShortest(s, r);
    forall q | SpellingOk(q) && Decoded(q) == s
      ensures |SpellingText(JcsSpelling(s))| <= |SpellingText(q)|
    {
      JcsShortest(s, q);
    }
  }

  /** The printed literal, quotes included. */
  function JcsString(s: Text): Text { [QUOTE] + SpellingText(JcsSpelling(s)) }

  function JcsBody(s: Text): Text {
    if s == [] then [] else PieceText(JcsPiece(s[0])) + JcsBody(s[1..])
  }

  lemma {:induction false} JcsBodyAppend(s: Text, c: CodeUnit)
    ensures JcsBody(s + [c]) == JcsBody(s) + PieceText(JcsPiece(c))
  {
    hide JcsPiece, PieceText, JcsBody;
    if s == [] {
      JcsBodyNone();
      JcsBodyCons(c, []);
      assert [] + [c] == [c] + [];
    } else {
      JcsBodyAppend(s[1..], c);
      JcsBodyCons(s[0], s[1..]);
      JcsBodyCons(s[0], s[1..] + [c]);
      assert s == [s[0]] + s[1..] && s + [c] == [s[0]] + (s[1..] + [c]);
    }
  }

  lemma JcsBodyNone()
    ensures JcsBody([]) == []
  {}

  lemma JcsBodyCons(c: CodeUnit, s: Text)
    ensures JcsBody([c] + s) == PieceText(JcsPiece(c)) + JcsBody(s)
  {
    hide JcsPiece, PieceText;
    assert ([c] + s)[1..] == s;
  }

  lemma {:induction false} JcsStringIsBody(s: Text)
    ensures SpellingText(JcsSpelling(s)) == JcsBody(s) + [QUOTE]
  {
    if s != [] { JcsStringIsBody(s[1..]); }
  }

  lemma JcsBodyNext(s: Text, i: nat, spelled: Text)
    requires i < |s| && spelled == PieceText(JcsPiece(s[i]))
    ensures [QUOTE] + JcsBody(s[..i]) + spelled == [QUOTE] + JcsBody(s[..i + 1])
  {
    assert s[..i + 1] == s[..i] + [s[i]];
    JcsBodyAppend(s[..i], s[i]);
  }

  /** A literal printed is a quoted spelling of the string, lower-case and as short as any. */
  ghost predicate IsJcsLiteral(out: Text, s: Text) {
    exists r ::
      && SpellingOk(r) && Decoded(r) == s && LowerCased(r) && out == [QUOTE] + SpellingText(r)
      && forall q :: SpellingOk(q) && Decoded(q) == s ==> |SpellingText(r)| <= |SpellingText(q)|
  }

  lemma OneLiteral(out: Text, s: Text)
    ensures IsJcsLiteral(out, s) <==> out == JcsString(s)
  {
    hide JcsSpelling, SpellingText, SpellingOk, Decoded, LowerCased;
    JcsSpellingExactly(s, JcsSpelling(s));
    forall r | SpellingOk(r) && Decoded(r) == s
      ensures r == JcsSpelling(s) <==>
              LowerCased(r) && forall q :: SpellingOk(q) && Decoded(q) == s ==> |SpellingText(r)| <= |SpellingText(q)|
    {
      JcsSpellingExactly(s, r);
    }
  }

  /** The one literal of the string that is lower-case and as short as any. */
  method EscapeJcsString(s: Text) returns (out: Text)
    ensures out == JcsString(s) && IsJcsLiteral(out, s)
  {
    out := [QUOTE];
    var i := 0;
    while i < |s|
      invariant 0 <= i <= |s|
      invariant out == [QUOTE] + JcsBody(s[..i])
    {
      var code := s[i];
      var spelled: Text;
      if code == QUOTE { spelled := [BACKSLASH, QUOTE]; }
      else if code == BACKSLASH { spelled := [BACKSLASH, BACKSLASH]; }
      else if code == 0x08 { spelled := [BACKSLASH, 0x62]; }
      else if code == 0x09 { spelled := [BACKSLASH, 0x74]; }
      else if code == 0x0A { spelled := [BACKSLASH, 0x6E]; }
      else if code == 0x0C { spelled := [BACKSLASH, 0x66]; }
      else if code == 0x0D { spelled := [BACKSLASH, 0x72]; }
      else if code < 0x20 { spelled := [BACKSLASH, 0x75, ZERO, ZERO, LowerHex(code / 16), LowerHex(code % 16)]; }
      else { spelled := [code]; }
      out := out + spelled;
      JcsBodyNext(s, i, spelled);
      i := i + 1;
    }
    out := out + [QUOTE];
    assert s[..|s|] == s;
    JcsStringIsBody(s);
    OneLiteral(out, s);
  }

  // ---- The printer ----------------------------------------------------------

  /** No string or member name holds an unpaired surrogate, at any depth. */
  ghost predicate Clean(v: Json) {
    match v
    case Str(s) => WellFormed(s)
    case Arr(items) => forall i :: 0 <= i < |items| ==> Clean(items[i])
    case Obj(m) => forall k :: k in m ==> WellFormed(k) && Clean(m[k])
    case _ => true
  }

  ghost function Canon(num: NumberFormat, v: Json): Text
    decreases v, 0
  {
    match v
    case Null => NULL_TEXT
    case Bool(b) => if b then TRUE_TEXT else FALSE_TEXT
    case Num(d) => num.show(d)
    case Str(s) => JcsString(s)
    case Arr(items) => [LBRACKET] + (JoinItems(num, items) + [RBRACKET])
    case Obj(m) => [LBRACE] + (JoinMembers(num, v, SortedKeys(m.Keys)) + [RBRACE])
  }

  ghost function JoinItems(num: NumberFormat, items: seq<Json>): Text
    decreases items, 0
  {
    if items == [] then []
    else if |items| == 1 then Canon(num, items[0])
    else Canon(num, items[0]) + ([COMMA] + JoinItems(num, items[1..]))
  }

  ghost function MemberText(num: NumberFormat, v: Json, k: Text): Text
    requires v.Obj? && k in v.members
    decreases v, 0, 0
  {
    JcsString(k) + ([COLON] + Canon(num, v.members[k]))
  }

  ghost function JoinMembers(num: NumberFormat, v: Json, ks: seq<Text>): Text
    requires v.Obj? && forall k :: k in ks ==> k in v.members
    decreases v, 0, |ks| + 1
  {
    if ks == [] then []
    else if |ks| == 1 then MemberText(num, v, ks[0])
    else MemberText(num, v, ks[0]) + ([COMMA] + JoinMembers(num, v, ks[1..]))
  }

  // ---- The printed text as a derivation ---------------------------------------

  ghost function TokenOf(num: NumberFormat, d: Double): (n: NumTok)
    requires num.Valid()
    ensures NumTokOk(n) && NumText(n) == num.show(d)
  {
    assert num.read(num.show(d)) == Some(d);
    var n :| NumTokOk(n) && NumText(n) == num.show(d);
    n
  }

  ghost function Tree(num: NumberFormat, v: Json): Cst
    requires num.Valid()
    decreases v, 0
  {
    match v
    case Null => CNull
    case Bool(b) => if b then CTrue else CFalse
    case Num(d) => CNum(TokenOf(num, d))
    case Str(s) => CStr(JcsSpelling(s))
    case Arr(items) => if items == [] then CArr0([]) else CArr(ItemTree(num, items))
    case Obj(m) => if SortedKeys(m.Keys) == [] then CObj0([]) else CObj(MemberTree(num, v, SortedKeys(m.Keys)))
  }

  ghost function ItemTree(num: NumberFormat, items: seq<Json>): Elems
    requires num.Valid() && items != []
    decreases items, 0
  {
    if |items| == 1 then LastElem([], Tree(num, items[0]), [])
    else MoreElems([], Tree(num, items[0]), [], ItemTree(num, items[1..]))
  }

  ghost function MemberTree(num: NumberFormat, v: Json, ks: seq<Text>): Fields
    requires num.Valid() && v.Obj? && ks != [] && forall k :: k in ks ==> k in v.members
    decreases v, 0, |ks|
  {
    var k := ks[0];
    if |ks| == 1 then LastField([], JcsSpelling(k), [], [], Tree(num, v.members[k]), [])
    else MoreFields([], JcsSpelling(k), [], [], Tree(num, v.members[k]), [], MemberTree(num, v, ks[1..]))
  }

  /** The printed text is derived by the printed tree, which adds no whitespace. */
  lemma {:induction false} CanonYield(num: NumberFormat, v: Json)
    requires num.Valid()
    ensures Derivation(Tree(num, v)) && Yield(Tree(num, v)) == Canon(num, v)
    decreases v, 0
  {
    match v
    case Arr(items) => if items != [] { ItemsYield(num, items); }
    case Obj(m) => if SortedKeys(m.Keys) != [] { MembersYield(num, v, SortedKeys(m.Keys)); }
    case _ =>
  }

  lemma {:induction false} ItemsYield(num: NumberFormat, items: seq<Json>)
    requires num.Valid() && items != []
    ensures DerivationElems(ItemTree(num, items))
            && YieldElems(ItemTree(num, items)) == JoinItems(num, items) + [RBRACKET]
    decreases items, 0
  {
    hide Canon, Tree, Derivation, Yield;
    CanonYield(num, items[0]);
    CompactElem(ItemTree(num, items));
    if |items| > 1 {
      ItemsYield(num, items[1..]);
      Regroup(Canon(num, items[0]), COMMA, JoinItems(num, items[1..]), RBRACKET);
    }
  }

  lemma Regroup(a: Text, u: CodeUnit, b: Text, w: CodeUnit)
    ensures a + ([u] + (b + [w])) == (a + ([u] + b)) + [w]
  {}

  lemma CompactElem(e: Elems)
    requires e.before == [] == e.after
    ensures YieldElems(e) == Yield(e.v) + P.ElemsTail(e)
  {
    hide Yield;
  }

  lemma CompactField(f: Fields)
    requires f.w0 == [] == f.w1 && f.w2 == [] == f.w3
    ensures YieldFields(f) == ([QUOTE] + SpellingText(f.key)) + ([COLON] + Yield(f.v)) + P.FieldsTail(f)
  {
    hide Yield, SpellingText, P.FieldsTail;
    P.FieldLength(f);
    var s, y, tail := SpellingText(f.key), Yield(f.v), P.FieldsTail(f);
    assert P.FieldValueText(f) == y + tail;
    assert [QUOTE] + (s + ([COLON] + (y + tail))) == ([QUOTE] + s) + ([COLON] + y) + tail;
  }

  lemma {:induction false} MembersYield(num: NumberFormat, v: Json, ks: seq<Text>)
    requires num.Valid() && v.Obj? && ks != [] && forall k :: k in ks ==> k in v.members
    ensures DerivationFields(MemberTree(num, v, ks))
            && YieldFields(MemberTree(num, v, ks)) == JoinMembers(num, v, ks) + [RBRACE]
    decreases v, 0, |ks|
  {
    hide Canon, Tree, Derivation, Yield, SpellingText, SpellingOk, JcsSpelling, YieldFields;
    var k := ks[0];
    CanonYield(num, v.members[k]);
    CompactField(MemberTree(num, v, ks));
    if |ks| > 1 {
      MembersYield(num, v, ks[1..]);
      Regroup(MemberText(num, v, k), COMMA, JoinMembers(num, v, ks[1..]), RBRACE);
    }
  }

  /** The printed tree denotes the printed value, and is admissible when the value is clean. */
  lemma {:induction false} CanonDenotes(num: NumberFormat, v: Json)
    requires num.Valid() && Clean(v)
    ensures Derivation(Tree(num, v)) && Admissible(num, Tree(num, v)) && Denote(num, Tree(num, v)) == v
    decreases v, 0
  {
    hide WellFormed, JcsSpelling, SpellingOk, Canon, Yield, DenoteElems, DenoteFields, DerivationElems,
         DerivationFields, AdmissibleElems, AdmissibleFields, ItemTree, MemberTree, SortedKeys, Ascending, Distinct,
         Decoded, NumText;
    CanonYield(num, v);
    match v
    case Arr(items) => if items != [] { ItemsDenote(num, items); }
    case Obj(m) =>
      var ks := SortedKeys(m.Keys);
      if ks != [] {
        AscendingDistinct(ks);
        MembersDenote(num, v, ks);
      }
    case _ =>
  }

  lemma {:induction false} ItemsDenote(num: NumberFormat, items: seq<Json>)
    requires num.Valid() && items != [] && forall i :: 0 <= i < |items| ==> Clean(items[i])
    ensures DerivationElems(ItemTree(num, items)) && AdmissibleElems(num, ItemTree(num, items))
    ensures DenoteElems(num, ItemTree(num, items)) == items
    decreases items, 0
  {
    CanonDenotes(num, items[0]);
    if |items| > 1 { ItemsDenote(num, items[1..]); }
  }

  lemma {:induction false} MembersDenote(num: NumberFormat, v: Json, ks: seq<Text>)
    requires num.Valid() && v.Obj? && Clean(v) && ks != [] && forall k :: k in ks ==> k in v.members
    ensures DerivationFields(MemberTree(num, v, ks)) && AdmissibleFields(num, MemberTree(num, v, ks))
    ensures Names(MemberTree(num, v, ks)) == ks
    ensures DenoteFields(num, MemberTree(num, v, ks)) == Picked(v, ks)
    decreases v, 0, |ks|
  {
    hide Canon, Tree, Derivation, Denote, Admissible, SpellingOk, JcsSpelling, Decoded, WellFormed, Picked;
    var k := ks[0];
    CanonDenotes(num, v.members[k]);
    PickedCons(v, ks);
    if |ks| > 1 {
      MembersDenote(num, v, ks[1..]);
      assert ks == [k] + ks[1..];
    } else {
      assert ks == [k];
    }
  }

  /** The members of `v` named in `ks`. */
  ghost function Picked(v: Json, ks: seq<Text>): map<Text, Json>
    requires v.Obj? && forall k :: k in ks ==> k in v.members
  {
    map k | k in ks :: v.members[k]
  }

  lemma PickedCons(v: Json, ks: seq<Text>)
    requires v.Obj? && ks != [] && forall k :: k in ks ==> k in v.members
    ensures Picked(v, ks) == map[ks[0] := v.members[ks[0]]] + (if |ks| == 1 then map[] else Picked(v, ks[1..]))
  {
    assert forall j :: j in ks <==> j == ks[0] || j in ks[1..];
  }

  // ---- Round trip and normal form ---------------------------------------------

  /** Parsing the canonical text of a clean value consumes all of it and returns the value. */
  lemma RoundTrip(num: NumberFormat, v: Json)
    requires num.Valid() && Clean(v)
    ensures P.ParseText(num, Canon(num, v)) == P.Ok(v, |Canon(num, v)|)
  {
    CanonYield(num, v);
    CanonDenotes(num, v);
    var d := Document([], Tree(num, v), []);
    assert DocumentText(d) == Canon(num, v);
    P.DocumentAccepted(num, d);
  }

  /** Every value the parser returns is clean, so printing it and parsing again is lossless. */
  lemma {:induction false} DenotationClean(num: NumberFormat, c: Cst)
    requires Derivation(c) && Admissible(num, c)
    ensures Clean(Denote(num, c))
    decreases c
  {
    match c
    case CArr(elems) => ElementsClean(num, elems);
    case CObj(fields) => FieldsClean(num, fields);
    case _ =>
  }

  lemma {:induction false} ElementsClean(num: NumberFormat, e: Elems)
    requires DerivationElems(e) && AdmissibleElems(num, e)
    ensures forall i :: 0 <= i < |DenoteElems(num, e)| ==> Clean(DenoteElems(num, e)[i])
    decreases e
  {
    hide Derivation, Denote, Admissible, Clean;
    DenotationClean(num, e.v);
    if e.MoreElems? { ElementsClean(num, e.rest); }
  }

  lemma {:induction false} FieldsClean(num: NumberFormat, f: Fields)
    requires DerivationFields(f) && AdmissibleFields(num, f)
    ensures var m := DenoteFields(num, f); forall k :: k in m ==> WellFormed(k) && Clean(m[k])
    decreases f
  {
    hide Derivation, Denote, Admissible, Clean, Decoded, WellFormed, SpellingOk, AllWs;
    DenotationClean(num, f.v);
    if f.MoreFields? { FieldsClean(num, f.rest); }
  }

  lemma ParsedClean(num: NumberFormat, t: Text)
    requires P.ParseText(num, t).Ok?
    ensures Clean(P.ParseText(num, t).value)
  {
    var d := P.AcceptedIsDocument(num, t);
    DenotationClean(num, d.c);
  }

  /** Canonical text is a fixed point of parse-then-print, from any accepted text. */
  lemma NormalForm(num: NumberFormat, t: Text)
    requires num.Valid() && P.ParseText(num, t).Ok?
    ensures var c := Canon(num, P.ParseText(num, t).value);
            P.ParseText(num, c) == P.Ok(P.ParseText(num, t).value, |c|) && Canon(num, P.ParseText(num, c).value) == c
  {
    ParsedClean(num, t);
    RoundTrip(num, P.ParseText(num, t).value);
  }

  /** Equal canonical texts come from equal values. */
  lemma CanonInjective(num: NumberFormat, v: Json, w: Json)
    requires num.Valid() && Clean(v) && Clean(w) && Canon(num, v) == Canon(num, w)
    ensures v == w
  {
    RoundTrip(num, v);
    RoundTrip(num, w);
  }

  // ---- The envelope -------------------------------------------------------------

  /** "contract" */
  const CONTRACT_KEY: Text := [0x63, 0x6F, 0x6E, 0x74, 0x72, 0x61, 0x63, 0x74]
  /** "payload" */
  const PAYLOAD_KEY: Text := [0x70, 0x61, 0x79, 0x6C, 0x6F, 0x61, 0x64]
  /** "version" */
  const VERSION_KEY: Text := [0x76, 0x65, 0x72, 0x73, 0x69, 0x6F, 0x6E]
  /** "sangfor.artifact-content" */
  const CONTRACT: Text :=
    [0x73, 0x61, 0x6E, 0x67, 0x66, 0x6F, 0x72, 0x2E,
     0x61, 0x72, 0x74, 0x69, 0x66, 0x61, 0x63, 0x74, 0x2D, 0x63, 0x6F, 0x6E, 0x74, 0x65, 0x6E, 0x74]

  function EnvelopeValue(payload: Json, one: Double): Json {
    Obj(map[CONTRACT_KEY := Str(CONTRACT), PAYLOAD_KEY := payload, VERSION_KEY := Num(one)])
  }

  ghost function Envelope(num: NumberFormat, payload: Json, one: Double): Text {
    Canon(num, EnvelopeValue(payload, one))
  }

  lemma EnvelopeClean(payload: Json, one: Double)
    requires Clean(payload)
    ensures Clean(EnvelopeValue(payload, one))
  {
    AsciiWellFormed(CONTRACT_KEY);
    AsciiWellFormed(PAYLOAD_KEY);
    AsciiWellFormed(VERSION_KEY);
    AsciiWellFormed(CONTRACT);
    hide WellFormed;
  }

  lemma AsciiWellFormed(s: Text)
    requires forall i :: 0 <= i < |s| ==> s[i] < 0x80
    ensures WellFormed(s)
  {}

  /**
   * Two accepted texts have the same envelope exactly when they denote the same value, whatever
   * their whitespace, member order, number spelling or escapes.
   */
  lemma SameEnvelopeSameValue(num: NumberFormat, t: Text, u: Text, one: Double)
    requires num.Valid() && P.ParseText(num, t).Ok? && P.ParseText(num, u).Ok?
    ensures var v, w := P.ParseText(num, t).value, P.ParseText(num, u).value;
            Envelope(num, v, one) == Envelope(num, w, one) <==> v == w
  {
    var v, w := P.ParseText(num, t).value, P.ParseText(num, u).value;
    ParsedClean(num, t);
    ParsedClean(num, u);
    EnvelopeClean(v, one);
    EnvelopeClean(w, one);
    if Envelope(num, v, one) == Envelope(num, w, one) {
      CanonInjective(num, EnvelopeValue(v, one), EnvelopeValue(w, one));
      assert EnvelopeValue(v, one).members[PAYLOAD_KEY] == v;
    }
  }

  /** The envelope's text: the three members in code-unit order around the payload's own canonical text. */
  lemma EnvelopeLayout(num: NumberFormat, payload: Json, one: Double)
    ensures Envelope(num, payload, one) ==
            [LBRACE] + (JcsString(CONTRACT_KEY) + ([COLON] + JcsString(CONTRACT)) +
            ([COMMA] + (JcsString(PAYLOAD_KEY) + ([COLON] + Canon(num, payload)) +
            ([COMMA] + (JcsString(VERSION_KEY) + ([COLON] + num.show(one)))))) + [RBRACE])
  {
    hide JcsString, JoinMembers, SortedKeys;
    var v := EnvelopeValue(payload, one);
    EnvelopeKeys(payload, one);
    JoinThree(num, v, CONTRACT_KEY, PAYLOAD_KEY, VERSION_KEY);
  }

  lemma EnvelopeKeys(payload: Json, one: Double)
    ensures SortedKeys(EnvelopeValue(payload, one).members.Keys) == [CONTRACT_KEY, PAYLOAD_KEY, VERSION_KEY]
  {
    assert Before(CONTRACT_KEY, PAYLOAD_KEY) && Before(PAYLOAD_KEY, VERSION_KEY) && Before(CONTRACT_KEY, VERSION_KEY);
    SortedKeysUnique(EnvelopeValue(payload, one).members.Keys, [CONTRACT_KEY, PAYLOAD_KEY, VERSION_KEY]);
  }

  lemma JoinThree(num: NumberFormat, v: Json, a: Text, b: Text, c: Text)
    requires v.Obj? && a in v.members && b in v.members && c in v.members
    ensures JoinMembers(num, v, [a, b, c]) ==
            MemberText(num, v, a) + ([COMMA] + (MemberText(num, v, b) + ([COMMA] + MemberText(num, v, c))))
  {
    hide MemberText;
    assert [a, b, c][1..] == [b, c] && [b, c][1..] == [c];
    assert JoinMembers(num, v, [c]) == MemberText(num, v, c);
    assert JoinMembers(num, v, [b, c]) == MemberText(num, v, b) + ([COMMA] + MemberText(num, v, c));
  }
}
