/** JSON values, and the concrete syntax of sections 2-7 of RFC 8259 as derivation trees. */
module JsonGrammar {
  import opened Options
  import opened Sequences
  import opened Text

  // ---- Values ---------------------------------------------------------------

  /** A finite double, named by an identity under which -0 and 0 are one number. */
  datatype Double = Double(id: int)

  datatype Json =
    | Null
    | Bool(b: bool)
    | Num(d: Double)
    | Str(s: Text)
    | Arr(items: seq<Json>)
    | Obj(members: map<Text, Json>)

  // ---- Derivation trees -----------------------------------------------------

  predicate IsWs(c: CodeUnit) { c == 0x20 || c == 0x09 || c == 0x0A || c == 0x0D }

  predicate AllWs(w: Text) { forall i :: 0 <= i < |w| ==> IsWs(w[i]) }

  /** Sections 2 and 7 of RFC 8259: the four white space characters and the eight short escapes. */
  lemma GrammarTables(c: CodeUnit)
    ensures IsWs(c) <==> c == 0x20 || c == 0x09 || c == LF || c == CR
    ensures ShortMeaning(c) ==
            if c == 0x22 || c == 0x5C || c == 0x2F then Some(c)
            else if c == 0x62 then Some(0x08)
            else if c == 0x66 then Some(0x0C)
            else if c == 0x6E then Some(LF)
            else if c == 0x72 then Some(CR)
            else if c == 0x74 then Some(0x09)
            else None
  {}

  predicate IsHex(c: CodeUnit) { IsDigit(c) || 0x41 <= c <= 0x46 || 0x61 <= c <= 0x66 }

  function HexValue(c: CodeUnit): (v: nat)
    requires IsHex(c)
    ensures v < 16
  {
    if IsDigit(c) then c - 0x30 else if c <= 0x46 then c - 0x37 else c - 0x57
  }

  /** One spelled character of a string literal. */
  datatype Piece = Plain(c: CodeUnit) | Short(e: CodeUnit) | Hex(h0: CodeUnit, h1: CodeUnit, h2: CodeUnit, h3: CodeUnit)

  /** The two-character escapes and what they stand for. */
  function ShortMeaning(e: CodeUnit): Option<CodeUnit> {
    if e == QUOTE then Some(QUOTE)
    else if e == BACKSLASH then Some(BACKSLASH)
    else if e == SLASH then Some(SLASH)
    else if e == 0x62 then Some(0x08)
    else if e == 0x66 then Some(0x0C)
    else if e == 0x6E then Some(0x0A)
    else if e == 0x72 then Some(0x0D)
    else if e == 0x74 then Some(0x09)
    else None
  }

  predicate PieceOk(x: Piece) {
    match x
    case Plain(c) => c > 0x1F && c != QUOTE && c != BACKSLASH
    case Short(e) => ShortMeaning(e).Some?
    case Hex(h0, h1, h2, h3) => IsHex(h0) && IsHex(h1) && IsHex(h2) && IsHex(h3)
  }

  function PieceText(x: Piece): Text {
    match x
    case Plain(c) => [c]
    case Short(e) => [BACKSLASH, e]
    case Hex(h0, h1, h2, h3) => [BACKSLASH, 0x75, h0, h1, h2, h3]
  }

  function PieceUnit(x: Piece): CodeUnit
    requires PieceOk(x)
  {
    match x
    case Plain(c) => c
    case Short(e) => ShortMeaning(e).value
    case Hex(h0, h1, h2, h3) => HexValue(h0) * 4096 + HexValue(h1) * 256 + HexValue(h2) * 16 + HexValue(h3)
  }

  /** The spelled body of a string literal, up to and including the closing quote. */
  datatype Spelling = Close | Spell(x: Piece, rest: Spelling)

  predicate SpellingOk(s: Spelling) {
    s.Spell? ==> PieceOk(s.x) && SpellingOk(s.rest)
  }

  function SpellingText(s: Spelling): (t: Text)
    ensures |t| > 0
  {
    match s
    case Close => [QUOTE]
    case Spell(x, rest) => PieceText(x) + SpellingText(rest)
  }

  function Decoded(s: Spelling): Text
    requires SpellingOk(s)
  {
    match s
    case Close => []
    case Spell(x, rest) => [PieceUnit(x)] + Decoded(rest)
  }

  /** `frac` is `[]` or the digits after the point; `exp` is `[]` or the digits of the exponent. */
  datatype NumTok = NumTok(minus: bool, whole: Text, frac: Text, e: Text, exp: Text)

  predicate NumTokOk(n: NumTok) {
    && |n.whole| > 0 && AllDigits(n.whole) && (n.whole[0] == ZERO ==> |n.whole| == 1)
    && AllDigits(n.frac)
    && AllDigits(n.exp)
    && (n.exp == [] ==> n.e == [])
    && (n.exp != [] ==> n.e in ExponentMarks())
  }

  /** e, E, e+, e-, E+ and E-. */
  function ExponentMarks(): set<Text> {
    {[0x65], [0x45], [0x65, PLUS], [0x65, MINUS], [0x45, PLUS], [0x45, MINUS]}
  }

  function SignText(n: NumTok): Text { if n.minus then [MINUS] else [] }

  function FracText(n: NumTok): Text { if n.frac == [] then [] else [DOT] + n.frac }

  function NumText(n: NumTok): Text {
    SignText(n) + (n.whole + (FracText(n) + (n.e + n.exp)))
  }

  datatype Cst =
    | CNull
    | CTrue
    | CFalse
    | CNum(n: NumTok)
    | CStr(s: Spelling)
    | CArr0(w: Text)
    | CArr(elems: Elems)
    | CObj0(w: Text)
    | CObj(fields: Fields)

  /** Elements of a non-empty array, up to and including the closing bracket. */
  datatype Elems =
    | LastElem(before: Text, v: Cst, after: Text)
    | MoreElems(before: Text, v: Cst, after: Text, rest: Elems)

  /** Members of a non-empty object, up to and including the closing brace. */
  datatype Fields =
    | LastField(w0: Text, key: Spelling, w1: Text, w2: Text, v: Cst, w3: Text)
    | MoreFields(w0: Text, key: Spelling, w1: Text, w2: Text, v: Cst, w3: Text, rest: Fields)

  const TRUE_TEXT: Text := [0x74, 0x72, 0x75, 0x65]
  const FALSE_TEXT: Text := [0x66, 0x61, 0x6C, 0x73, 0x65]
  const NULL_TEXT: Text := [0x6E, 0x75, 0x6C, 0x6C]

  /** The text a tree derives. */
  function Yield(c: Cst): (t: Text)
    ensures c.CObj0? || c.CObj? ==> |t| > 0 && t[0] == LBRACE
  {
    match c
    case CNull => NULL_TEXT
    case CTrue => TRUE_TEXT
    case CFalse => FALSE_TEXT
    case CNum(n) => NumText(n)
    case CStr(s) => [QUOTE] + SpellingText(s)
    case CArr0(w) => [LBRACKET] + (w + [RBRACKET])
    case CArr(elems) => [LBRACKET] + YieldElems(elems)
    case CObj0(w) => [LBRACE] + (w + [RBRACE])
    case CObj(fields) => [LBRACE] + YieldFields(fields)
  }

  function YieldElems(e: Elems): Text {
    e.before + (Yield(e.v) + (e.after +
      match e
      case LastElem(_, _, _) => [RBRACKET]
      case MoreElems(_, _, _, rest) => [COMMA] + YieldElems(rest)))
  }

  function YieldFields(f: Fields): Text {
    f.w0 + ([QUOTE] + (SpellingText(f.key) + (f.w1 + ([COLON] + (f.w2 + (Yield(f.v) + (f.w3 +
      match f
      case LastField(_, _, _, _, _, _) => [RBRACE]
      case MoreFields(_, _, _, _, _, _, rest) => [COMMA] + YieldFields(rest))))))))
  }

  /** The side conditions of the grammar: what may stand in each terminal position. */
  predicate Derivation(c: Cst) {
    match c
    case CNum(n) => NumTokOk(n)
    case CStr(s) => SpellingOk(s)
    case CArr0(w) => AllWs(w)
    case CArr(elems) => DerivationElems(elems)
    case CObj0(w) => AllWs(w)
    case CObj(fields) => DerivationFields(fields)
    case _ => true
  }

  predicate DerivationElems(e: Elems) {
    AllWs(e.before) && Derivation(e.v) && AllWs(e.after) && (e.MoreElems? ==> DerivationElems(e.rest))
  }

  predicate DerivationFields(f: Fields) {
    && AllWs(f.w0) && SpellingOk(f.key) && AllWs(f.w1) && AllWs(f.w2) && Derivation(f.v) && AllWs(f.w3)
    && (f.MoreFields? ==> DerivationFields(f.rest))
  }

  // ---- Meaning --------------------------------------------------------------

  /**
   * ECMAScript number conversion, as far as the module relies on it: `read` is `Number(token)`,
   * `None` when it overflows to an infinity; `show` is `String(n)`.
   */
  datatype NumberFormat = NumberFormat(read: Text -> Option<Double>, show: Double -> Text)
  {
    /** `String(n)` is a JSON number token, and `Number` reads it back. */
    ghost predicate Valid() {
      forall d: Double {:trigger show(d)} :: read(show(d)) == Some(d) && exists n: NumTok ::
        NumTokOk(n) && NumText(n) == show(d)
    }
  }

  function ShowInteger(d: Double): Text { ShowInt(d.id) }

  function ReadInteger(t: Text): Option<Double> { Some(Double(ReadInt(t))) }

  lemma ReadShowInteger(d: Double)
    ensures ReadInteger(ShowInteger(d)) == Some(d)
  {
    ReadShow(d.id);
  }

  lemma ShownIntegerToken(d: Double) returns (n: NumTok)
    ensures NumTokOk(n) && NumText(n) == ShowInteger(d)
  {
    var digits := Decimal(if d.id < 0 then -d.id else d.id);
    hide Decimal, NumTokOk, NumText, AllDigits;
    n := NumTok(d.id < 0, digits, [], [], []);
  }

  /** What is assumed of the number conversions can be met: integers, written in decimal, meet it. */
  lemma IntegersAreAFormat() returns (num: NumberFormat)
    ensures num.Valid()
  {
    hide ReadInteger, ShowInteger, NumTokOk, NumText;
    num := NumberFormat(ReadInteger, ShowInteger);
    forall d: Double
      ensures num.read(num.show(d)) == Some(d) && exists n: NumTok :: NumTokOk(n) && NumText(n) == num.show(d)
    {
      ReadShowInteger(d);
      var n := ShownIntegerToken(d);
    }
  }

  /** Decoded member names, in text order. */
  function Names(f: Fields): (ks: seq<Text>)
    requires DerivationFields(f)
  {
    [Decoded(f.key)] + (match f case LastField(_, _, _, _, _, _) => []
      case MoreFields(_, _, _, _, _, _, rest) => Names(rest))
  }

  /**
   * What I-JSON asks beyond the grammar: decoded names distinct in every object, no unpaired
   * surrogate in any string or name, every number finite.
   */
  predicate Admissible(num: NumberFormat, c: Cst)
    requires Derivation(c)
  {
    match c
    case CNum(n) => num.read(NumText(n)).Some?
    case CStr(s) => WellFormed(Decoded(s))
    case CArr(elems) => AdmissibleElems(num, elems)
    case CObj(fields) => Distinct(Names(fields)) && AdmissibleFields(num, fields)
    case _ => true
  }

  predicate AdmissibleElems(num: NumberFormat, e: Elems)
    requires DerivationElems(e)
  {
    Admissible(num, e.v) && (e.MoreElems? ==> AdmissibleElems(num, e.rest))
  }

  predicate AdmissibleFields(num: NumberFormat, f: Fields)
    requires DerivationFields(f)
  {
    WellFormed(Decoded(f.key)) && Admissible(num, f.v) && (f.MoreFields? ==> AdmissibleFields(num, f.rest))
  }

  /** The value a tree denotes; objects are maps from decoded names. */
  function Denote(num: NumberFormat, c: Cst): Json
    requires Derivation(c) && Admissible(num, c)
  {
    match c
    case CNull => Null
    case CTrue => Bool(true)
    case CFalse => Bool(false)
    case CNum(n) => Num(num.read(NumText(n)).value)
    case CStr(s) => Str(Decoded(s))
    case CArr0(_) => Arr([])
    case CArr(elems) => Arr(DenoteElems(num, elems))
    case CObj0(_) => Obj(map[])
    case CObj(fields) => Obj(DenoteFields(num, fields))
  }

  function DenoteElems(num: NumberFormat, e: Elems): seq<Json>
    requires DerivationElems(e) && AdmissibleElems(num, e)
  {
    [Denote(num, e.v)] + (match e case LastElem(_, _, _) => [] case MoreElems(_, _, _, rest) => DenoteElems(num, rest))
  }

  function DenoteFields(num: NumberFormat, f: Fields): map<Text, Json>
    requires DerivationFields(f) && AdmissibleFields(num, f)
  {
    map[Decoded(f.key) := Denote(num, f.v)] +
    (match f case LastField(_, _, _, _, _, _) => map[]
      case MoreFields(_, _, _, _, _, _, rest) => DenoteFields(num, rest))
  }

  /** A whole text: one value with whitespace around it. */
  datatype Document = Document(before: Text, c: Cst, after: Text)

  predicate DocumentOk(num: NumberFormat, d: Document) {
    AllWs(d.before) && AllWs(d.after) && Derivation(d.c) && Admissible(num, d.c)
  }

  function DocumentText(d: Document): Text { d.before + (Yield(d.c) + d.after) }
}
