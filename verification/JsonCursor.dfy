/** The scanner as written: one mutable cursor, loops, and mutually recursive methods. */
module JsonCursor {
  import opened Options
  import opened Text
  import opened JsonGrammar
  import P = JsonParser

  class Cursor {
    const text: Text
    var pos: nat

    constructor (text: Text)
      ensures this.text == text && pos == 0
    {
      this.text := text;
      this.pos := 0;
    }

    predicate Valid()
      reads this
    {
      pos <= |text|
    }
  }

  datatype Outcome<+T> = Done(value: T) | Thrown(code: P.ErrorCode)

  /** The outcome and final position `p` promises; after a throw the position is immaterial. */
  predicate Agrees<T(==)>(p: P.Parsed<T>, r: Outcome<T>, pos: nat) {
    match p
    case Ok(v, q) => r == Done(v) && pos == q
    case Fail(code) => r == Thrown(code)
  }

  method SkipWs(cur: Cursor)
    requires cur.Valid()
    modifies cur
    ensures cur.Valid() && cur.pos == P.SkipWs(cur.text, old(cur.pos))
  {
    while cur.pos < |cur.text| && IsWs(cur.text[cur.pos])
      invariant cur.Valid()
      invariant P.SkipWs(cur.text, cur.pos) == P.SkipWs(cur.text, old(cur.pos))
    {
      cur.pos := cur.pos + 1;
    }
  }

  // ---- Strings --------------------------------------------------------------

  /** `out` already collected, then whatever `r` reads. */
  function Collected(out: Text, r: P.Parsed<Text>): P.Parsed<Text> {
    match r
    case Ok(s, q) => P.Ok(out + s, q)
    case Fail(code) => P.Fail(code)
  }

  lemma CollectedNone(r: P.Parsed<Text>)
    ensures Collected([], r) == r
  {
    if r.Ok? { assert [] + r.value == r.value; }
  }

  lemma CollectedStep(out: Text, c: CodeUnit, r: P.Parsed<Text>)
    ensures Collected(out, P.Prepend(c, r)) == Collected(out + [c], r)
  {
    if r.Ok? { assert out + ([c] + r.value) == (out + [c]) + r.value; }
  }

  method ParseString(cur: Cursor) returns (r: Outcome<Text>)
    requires cur.Valid() && P.Peek(cur.text, cur.pos, QUOTE)
    modifies cur
    ensures cur.Valid()
    ensures Agrees(P.StringAt(cur.text, old(cur.pos)), r, cur.pos)
  {
    hide WellFormed, ShortMeaning, IsHex, HexValue, PieceUnit;
    ghost var start := cur.pos + 1;
    cur.pos := cur.pos + 1;
    var out: Text := [];
    CollectedNone(P.StringBody(cur.text, start));
    while true
      invariant cur.Valid() && start <= |cur.text|
      invariant P.StringBody(cur.text, start) == Collected(out, P.StringBody(cur.text, cur.pos))
      decreases |cur.text| - cur.pos
    {
      if cur.pos == |cur.text| { return Thrown(P.Syntax); }
      var ch := cur.text[cur.pos];
      if ch == QUOTE {
        cur.pos := cur.pos + 1;
        break;
      }
      if ch == BACKSLASH {
        ghost var here := cur.pos;
        cur.pos := cur.pos + 1;
        if cur.pos == |cur.text| { return Thrown(P.Syntax); }
        var esc := cur.text[cur.pos];
        if ShortMeaning(esc).Some? {
          CollectedStep(out, ShortMeaning(esc).value, P.StringBody(cur.text, here + 2));
          out := out + [ShortMeaning(esc).value];
          cur.pos := cur.pos + 1;
        } else if esc == 0x75 {
          cur.pos := cur.pos + 1;
          if cur.pos + 4 > |cur.text| { return Thrown(P.InvalidString); }
          var h := Hex(cur.text[cur.pos], cur.text[cur.pos + 1], cur.text[cur.pos + 2], cur.text[cur.pos + 3]);
          if !PieceOk(h) { return Thrown(P.InvalidString); }
          CollectedStep(out, PieceUnit(h), P.StringBody(cur.text, here + 6));
          out := out + [PieceUnit(h)];
          cur.pos := cur.pos + 4;
        } else {
          return Thrown(P.InvalidString);
        }
        continue;
      }
      if ch <= 0x1F { return Thrown(P.InvalidString); }
      CollectedStep(out, ch, P.StringBody(cur.text, cur.pos + 1));
      out := out + [ch];
      cur.pos := cur.pos + 1;
    }
    assert out + [] == out;
    var lone := HasLoneSurrogate(out);
    if lone { return Thrown(P.LoneSurrogate); }
    return Done(out);
  }

  // ---- Numbers --------------------------------------------------------------

  method SkipDigits(cur: Cursor)
    requires cur.Valid()
    modifies cur
    ensures cur.Valid() && cur.pos == P.DigitsEnd(cur.text, old(cur.pos))
  {
    while cur.pos < |cur.text| && IsDigit(cur.text[cur.pos])
      invariant cur.Valid()
      invariant P.DigitsEnd(cur.text, cur.pos) == P.DigitsEnd(cur.text, old(cur.pos))
    {
      cur.pos := cur.pos + 1;
    }
  }

  method ScanInt(cur: Cursor) returns (ok: bool)
    requires cur.Valid()
    modifies cur
    ensures cur.Valid() && ok == P.IntEnd(cur.text, old(cur.pos)).Some?
    ensures ok ==> P.IntEnd(cur.text, old(cur.pos)) == Some(cur.pos)
  {
    if P.Peek(cur.text, cur.pos, ZERO) {
      cur.pos := cur.pos + 1;
    } else if cur.pos < |cur.text| && IsDigit(cur.text[cur.pos]) {
      SkipDigits(cur);
    } else {
      return false;
    }
    return true;
  }

  method ScanFrac(cur: Cursor) returns (ok: bool)
    requires cur.Valid()
    modifies cur
    ensures cur.Valid() && ok == P.FracEnd(cur.text, old(cur.pos)).Some?
    ensures ok ==> P.FracEnd(cur.text, old(cur.pos)) == Some(cur.pos)
  {
    if P.Peek(cur.text, cur.pos, DOT) {
      cur.pos := cur.pos + 1;
      if !(cur.pos < |cur.text| && IsDigit(cur.text[cur.pos])) { return false; }
      SkipDigits(cur);
    }
    return true;
  }

  method ScanExp(cur: Cursor) returns (ok: bool)
    requires cur.Valid()
    modifies cur
    ensures cur.Valid() && ok == P.ExpEnd(cur.text, old(cur.pos)).Some?
    ensures ok ==> P.ExpEnd(cur.text, old(cur.pos)) == Some(cur.pos)
  {
    if P.Peek(cur.text, cur.pos, 0x65) || P.Peek(cur.text, cur.pos, 0x45) {
      cur.pos := cur.pos + 1;
      if P.Peek(cur.text, cur.pos, PLUS) || P.Peek(cur.text, cur.pos, MINUS) { cur.pos := cur.pos + 1; }
      if !(cur.pos < |cur.text| && IsDigit(cur.text[cur.pos])) { return false; }
      SkipDigits(cur);
    }
    return true;
  }

  method ParseNumber(num: NumberFormat, cur: Cursor) returns (r: Outcome<Json>)
    requires cur.Valid()
    modifies cur
    ensures cur.Valid()
    ensures Agrees(P.NumberAt(num, cur.text, old(cur.pos)), r, cur.pos)
  {
    hide P.IntEnd, P.FracEnd, P.ExpEnd;
    var start := cur.pos;
    if P.Peek(cur.text, cur.pos, MINUS) { cur.pos := cur.pos + 1; }
    var ok := ScanInt(cur);
    if !ok { return Thrown(P.InvalidNumber); }
    ok := ScanFrac(cur);
    if !ok { return Thrown(P.InvalidNumber); }
    ok := ScanExp(cur);
    if !ok { return Thrown(P.InvalidNumber); }
    var d := num.read(cur.text[start..cur.pos]);
    if d.None? { return Thrown(P.NonFiniteNumber); }
    return Done(Num(d.value));
  }

  // ---- Values ---------------------------------------------------------------

  /** What an object is once its members are. */
  function Braced(r: P.Parsed<map<Text, Json>>): P.Parsed<Json> {
    match r
    case Ok(m, q) => P.Ok(Obj(m), q)
    case Fail(code) => P.Fail(code)
  }

  lemma ObjectUnfold(num: NumberFormat, t: Text, p: nat)
    requires p < |t|
    ensures var q := P.SkipWs(t, p + 1);
            P.ObjectAt(num, t, p) == if P.Peek(t, q, RBRACE) then P.Ok(Obj(map[]), q + 1)
              else Braced(P.ParseFields(num, t, q, map[]))
  {
    hide P.SkipWs, P.ParseFields;
  }

  /** A member up to its colon: the decoded name, and the position behind the colon. */
  function NameAt(t: Text, start: nat, m: map<Text, Json>): (r: P.Parsed<Text>)
    requires start <= |t|
    ensures r.Ok? ==> start < r.pos <= |t| && P.Peek(t, r.pos - 1, COLON) && r.value !in m
  {
    var p := P.SkipWs(t, start);
    if !P.Peek(t, p, QUOTE) then P.Fail(P.Syntax)
    else
      match P.StringAt(t, p)
      case Fail(code) => P.Fail(code)
      case Ok(key, k) =>
        if key in m then P.Fail(P.DuplicateKey)
        else
          var c := P.SkipWs(t, k);
          if P.Peek(t, c, COLON) then P.Ok(key, c + 1) else P.Fail(P.Syntax)
  }

  lemma NameUnfold(num: NumberFormat, t: Text, start: nat, m: map<Text, Json>)
    requires start <= |t|
    ensures P.ParseFields(num, t, start, m) ==
              match NameAt(t, start, m)
              case Fail(code) => P.Fail(code)
              case Ok(key, v) => P.ParseMemberValue(num, t, v - 1, m, key)
  {
    hide P.SkipWs, P.StringAt, P.ParseMemberValue, P.ParseFields;
    P.FieldsUnfold(num, t, start, m);
  }

  method ParseName(cur: Cursor, m: map<Text, Json>) returns (r: Outcome<Text>)
    requires cur.Valid()
    modifies cur
    ensures cur.Valid()
    ensures Agrees(NameAt(cur.text, old(cur.pos), m), r, cur.pos)
  {
    hide P.StringAt, P.SkipWs;
    SkipWs(cur);
    if !P.Peek(cur.text, cur.pos, QUOTE) { return Thrown(P.Syntax); }
    var key := ParseString(cur);
    if key.Thrown? { return Thrown(key.code); }
    if key.value in m { return Thrown(P.DuplicateKey); }
    SkipWs(cur);
    if !P.Peek(cur.text, cur.pos, COLON) { return Thrown(P.Syntax); }
    cur.pos := cur.pos + 1;
    return Done(key.value);
  }

  method ParseObject(num: NumberFormat, cur: Cursor) returns (r: Outcome<Json>)
    requires cur.Valid() && P.Peek(cur.text, cur.pos, LBRACE)
    modifies cur
    ensures cur.Valid()
    ensures Agrees(P.ObjectAt(num, cur.text, old(cur.pos)), r, cur.pos)
    decreases |cur.text| - cur.pos, 0
  {
    hide P.ParseValue, P.ParseFields, P.SkipWs, P.ObjectAt, P.ParseMemberValue, NameAt;
    ghost var open := cur.pos;
    ObjectUnfold(num, cur.text, cur.pos);
    cur.pos := cur.pos + 1;
    var m: map<Text, Json> := map[];
    SkipWs(cur);
    if P.Peek(cur.text, cur.pos, RBRACE) {
      cur.pos := cur.pos + 1;
      return Done(Obj(map[]));
    }
    ghost var promised := P.ParseFields(num, cur.text, cur.pos, map[]);
    while true
      invariant cur.Valid() && open < cur.pos
      invariant P.ParseFields(num, cur.text, cur.pos, m) == promised
      decreases |cur.text| - cur.pos
    {
      NameUnfold(num, cur.text, cur.pos, m);
      var key := ParseName(cur, m);
      if key.Thrown? { return Thrown(key.code); }
      P.MemberValueUnfold(num, cur.text, cur.pos - 1, m, key.value);
      SkipWs(cur);
      var value := ParseValue(num, cur);
      if value.Thrown? { return Thrown(value.code); }
      m := m[key.value := value.value];
      SkipWs(cur);
      if P.Peek(cur.text, cur.pos, COMMA) {
        cur.pos := cur.pos + 1;
        continue;
      }
      if P.Peek(cur.text, cur.pos, RBRACE) {
        cur.pos := cur.pos + 1;
        break;
      }
      return Thrown(P.Syntax);
    }
    return Done(Obj(m));
  }

  /** `out` already collected, then whatever `r` reads. */
  function Listed(out: seq<Json>, r: P.Parsed<seq<Json>>): P.Parsed<seq<Json>> {
    match r
    case Ok(vs, q) => P.Ok(out + vs, q)
    case Fail(code) => P.Fail(code)
  }

  lemma ListedNone(r: P.Parsed<seq<Json>>)
    ensures Listed([], r) == r
  {
    if r.Ok? { assert [] + r.value == r.value; }
  }

  lemma ListedStep(out: seq<Json>, v: Json, r: P.Parsed<seq<Json>>)
    requires r.Ok?
    ensures Listed(out, P.Ok([v] + r.value, r.pos)) == Listed(out + [v], r)
  {
    assert out + ([v] + r.value) == (out + [v]) + r.value;
  }

  method ParseArray(num: NumberFormat, cur: Cursor) returns (r: Outcome<Json>)
    requires cur.Valid() && P.Peek(cur.text, cur.pos, LBRACKET)
    modifies cur
    ensures cur.Valid()
    ensures Agrees(P.ArrayAt(num, cur.text, old(cur.pos)), r, cur.pos)
    decreases |cur.text| - cur.pos, 0
  {
    hide P.ParseValue, P.ParseElements, P.SkipWs;
    ghost var open := cur.pos;
    cur.pos := cur.pos + 1;
    var out: seq<Json> := [];
    SkipWs(cur);
    if P.Peek(cur.text, cur.pos, RBRACKET) {
      cur.pos := cur.pos + 1;
      return Done(Arr([]));
    }
    ghost var first := cur.pos;
    ListedNone(P.ParseElements(num, cur.text, first));
    while true
      invariant cur.Valid() && open < first <= cur.pos && first <= |cur.text|
      invariant P.ParseElements(num, cur.text, first) == Listed(out, P.ParseElements(num, cur.text, cur.pos))
      decreases |cur.text| - cur.pos
    {
      P.ElementsUnfold(num, cur.text, cur.pos);
      SkipWs(cur);
      var value := ParseValue(num, cur);
      if value.Thrown? { return Thrown(value.code); }
      ghost var before := out;
      out := out + [value.value];
      SkipWs(cur);
      if P.Peek(cur.text, cur.pos, COMMA) {
        cur.pos := cur.pos + 1;
        ghost var rest := P.ParseElements(num, cur.text, cur.pos);
        if rest.Ok? { ListedStep(before, value.value, rest); }
        continue;
      }
      if P.Peek(cur.text, cur.pos, RBRACKET) {
        cur.pos := cur.pos + 1;
        break;
      }
      return Thrown(P.Syntax);
    }
    return Done(Arr(out));
  }

  method ParseValue(num: NumberFormat, cur: Cursor) returns (r: Outcome<Json>)
    requires cur.Valid()
    modifies cur
    ensures cur.Valid()
    ensures Agrees(P.ParseValue(num, cur.text, old(cur.pos)), r, cur.pos)
    decreases |cur.text| - cur.pos, 1
  {
    hide P.ObjectAt, P.ArrayAt, P.StringAt, P.NumberAt, P.SkipWs;
    SkipWs(cur);
    if cur.pos == |cur.text| { return Thrown(P.Syntax); }
    var ch := cur.text[cur.pos];
    if ch == LBRACE { r := ParseObject(num, cur); return; }
    if ch == LBRACKET { r := ParseArray(num, cur); return; }
    if ch == QUOTE {
      var s := ParseString(cur);
      return if s.Done? then Done(Str(s.value)) else Thrown(s.code);
    }
    if ch == MINUS || IsDigit(ch) { r := ParseNumber(num, cur); return; }
    if At(cur.text, cur.pos, TRUE_TEXT) {
      cur.pos := cur.pos + 4;
      return Done(Bool(true));
    }
    if At(cur.text, cur.pos, FALSE_TEXT) {
      cur.pos := cur.pos + 5;
      return Done(Bool(false));
    }
    if At(cur.text, cur.pos, NULL_TEXT) {
      cur.pos := cur.pos + 4;
      return Done(Null);
    }
    return Thrown(P.Syntax);
  }

  /** The untrusted ingress on text input, up to the value it constructs. */
  method ParseDocument(num: NumberFormat, text: Text) returns (r: Outcome<Json>)
    ensures match P.ParseText(num, text)
            case Ok(v, _) => r == Done(v)
            case Fail(code) => r == Thrown(code)
  {
    if P.Peek(text, 0, BOM) { return Thrown(P.Bom); }
    var cur := new Cursor(text);
    SkipWs(cur);
    if cur.pos == |text| { return Thrown(P.EmptyInput); }
    r := ParseValue(num, cur);
    if r.Thrown? { return; }
    SkipWs(cur);
    if cur.pos != |text| { return Thrown(P.TrailingTokens); }
  }
}
