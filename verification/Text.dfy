/** Strings as JavaScript sees them: sequences of 16-bit code units. */
module Text {
  import opened Sequences

  type CodeUnit = c: int | 0 <= c < 0x1_0000

  type Text = seq<CodeUnit>

  const QUOTE: CodeUnit := 0x22
  const BACKSLASH: CodeUnit := 0x5C
  const SLASH: CodeUnit := 0x2F
  const LBRACE: CodeUnit := 0x7B
  const RBRACE: CodeUnit := 0x7D
  const LBRACKET: CodeUnit := 0x5B
  const RBRACKET: CodeUnit := 0x5D
  const COMMA: CodeUnit := 0x2C
  const COLON: CodeUnit := 0x3A
  const MINUS: CodeUnit := 0x2D
  const PLUS: CodeUnit := 0x2B
  const DOT: CodeUnit := 0x2E
  const ZERO: CodeUnit := 0x30
  const BOM: CodeUnit := 0xFEFF
  const LF: CodeUnit := 0x0A
  const CR: CodeUnit := 0x0D

  // ---- Segments -------------------------------------------------------------

  /** `s` occupies positions `p .. p + |s|` of `t`. */
  predicate At(t: Text, p: nat, s: Text) {
    p + |s| <= |t| && t[p..p + |s|] == s
  }

  lemma SlicesMeet(t: Text, a: nat, b: nat, c: nat)
    requires a <= b <= c <= |t|
    ensures t[a..b] + t[b..c] == t[a..c]
  {}

  lemma AtSlice(t: Text, a: nat, b: nat)
    requires a <= b <= |t|
    ensures At(t, a, t[a..b])
  {}

  lemma AtConcat(t: Text, p: nat, a: Text, b: Text)
    ensures At(t, p, a + b) <==> At(t, p, a) && At(t, p + |a|, b)
  {
    if At(t, p, a + b) {
      assert t[p..p + |a|] == (a + b)[..|a|] == a;
      assert t[p + |a|..p + |a| + |b|] == (a + b)[|a|..] == b;
    }
    if At(t, p, a) && At(t, p + |a|, b) {
      assert t[p..p + |a + b|] == t[p..p + |a|] + t[p + |a|..p + |a| + |b|];
    }
  }

  lemma AtUnit(t: Text, p: nat, c: CodeUnit)
    ensures At(t, p, [c]) <==> p < |t| && t[p] == c
  {
    if p < |t| { assert t[p..p + 1] == [t[p]]; }
  }

  /** The units of `s` at the marked positions, in order. */
  function Pick(s: Text, marks: seq<bool>): Text
    requires |marks| == |s|
  {
    if s == [] then [] else (if marks[0] then [s[0]] else []) + Pick(s[1..], marks[1..])
  }

  // ---- Decimal digits -----------------------------------------------------------

  predicate IsDigit(c: CodeUnit) { 0x30 <= c <= 0x39 }

  predicate AllDigits(s: Text) { forall i :: 0 <= i < |s| ==> IsDigit(s[i]) }

  /** `String(n)` for a natural number. */
  function Decimal(n: nat): (t: Text)
    ensures t != [] && AllDigits(t) && (t[0] == ZERO ==> n == 0 && |t| == 1)
  {
    if n < 10 then [ZERO + n] else Decimal(n / 10) + [ZERO + n % 10]
  }

  /** The number decimal digits denote. */
  function Natural(t: Text): nat {
    if t == [] then 0
    else
      var digit: int := t[|t| - 1];
      10 * Natural(t[..|t| - 1]) + if 0x30 <= digit <= 0x39 then digit - 0x30 else 0
  }

  lemma {:induction false} NaturalOfDecimal(n: nat)
    ensures Natural(Decimal(n)) == n
  {
    if n < 10 {
      assert [ZERO + n][..0] == [];
    } else {
      NaturalOfDecimal(n / 10);
      assert Decimal(n)[..|Decimal(n)| - 1] == Decimal(n / 10);
    }
  }

  /** The same for an integer. */
  function ShowInt(n: int): (t: Text)
    ensures t != [] && forall i :: 0 <= i < |t| ==> IsDigit(t[i]) || t[i] == MINUS
  {
    if n < 0 then [MINUS] + Decimal(-n) else Decimal(n)
  }

  function ReadInt(t: Text): int {
    if t != [] && t[0] == MINUS then var size: int := Natural(t[1..]); -size else Natural(t) as int
  }

  lemma ReadShow(n: int)
    ensures ReadInt(ShowInt(n)) == n
  {
    var size: nat := if n < 0 then -n else n;
    NaturalOfDecimal(size);
    var digits := Decimal(size);
    assert digits[0] != MINUS by { assert IsDigit(digits[0]); }
    if n < 0 { assert ShowInt(n)[1..] == digits; }
  }

  // ---- White space ------------------------------------------------------------

  /** What `\s` matches and `trim` strips. */
  predicate IsJsSpace(c: CodeUnit) {
    || 0x09 <= c <= 0x0D || c == 0x20 || c == 0xA0 || c == 0x1680 || 0x2000 <= c <= 0x200A
    || c == 0x2028 || c == 0x2029 || c == 0x202F || c == 0x205F || c == 0x3000 || c == BOM
  }

  // ---- Surrogates -----------------------------------------------------------

  predicate IsHigh(c: CodeUnit) { 0xD800 <= c <= 0xDBFF }

  predicate IsLow(c: CodeUnit) { 0xDC00 <= c <= 0xDFFF }

  /** The unit at `i` is not one half of a broken surrogate pair. */
  predicate PairedAt(s: Text, i: nat)
    requires i < |s|
  {
    && (IsHigh(s[i]) ==> i + 1 < |s| && IsLow(s[i + 1]))
    && (IsLow(s[i]) ==> 0 < i && IsHigh(s[i - 1]))
  }

  /** Well-formed UTF-16: every surrogate is half of a pair. */
  predicate WellFormed(s: Text) {
    forall i :: 0 <= i < |s| ==> PairedAt(s, i)
  }

  /** The one-pass scan that skips over each pair it recognises. */
  method HasLoneSurrogate(s: Text) returns (lone: bool)
    ensures lone <==> !WellFormed(s)
  {
    var i := 0;
    while i < |s|
      invariant 0 <= i <= |s|
      invariant forall j :: 0 <= j < i ==> PairedAt(s, j)
      invariant 0 < i ==> !IsHigh(s[i - 1])
    {
      var code := s[i];
      if IsHigh(code) {
        if i + 1 >= |s| || !IsLow(s[i + 1]) {
          assert !PairedAt(s, i);
          return true;
        }
        i := i + 1;
      } else if IsLow(code) {
        assert !PairedAt(s, i);
        return true;
      }
      i := i + 1;
    }
    return false;
  }

  // ---- Code-unit order (the default order of Array.prototype.sort) -----------

  predicate Before(a: Text, b: Text) {
    |b| > 0 && (|a| == 0 || a[0] < b[0] || (a[0] == b[0] && Before(a[1..], b[1..])))
  }

  lemma {:induction false} BeforeTotal(a: Text, b: Text)
    ensures a == b || Before(a, b) || Before(b, a)
  {
    if |a| > 0 && |b| > 0 && a[0] == b[0] {
      BeforeTotal(a[1..], b[1..]);
      if a[1..] == b[1..] {
        assert a == [a[0]] + a[1..] == b;
      }
    }
  }

  lemma {:induction false} BeforeStrict(a: Text, b: Text)
    requires Before(a, b)
    ensures !Before(b, a) && a != b
  {
    if |a| > 0 && a[0] == b[0] {
      BeforeStrict(a[1..], b[1..]);
    }
  }

  lemma {:induction false} BeforeTransitive(a: Text, b: Text, c: Text)
    requires Before(a, b) && Before(b, c)
    ensures Before(a, c)
  {
    if |a| > 0 && a[0] == b[0] == c[0] {
      BeforeTransitive(a[1..], b[1..], c[1..]);
    }
  }

  ghost predicate IsLeast(m: Text, keys: set<Text>) {
    m in keys && forall k :: k in keys && k != m ==> Before(m, k)
  }

  lemma {:induction false} LeastExists(keys: set<Text>)
    requires keys != {}
    ensures exists m :: IsLeast(m, keys)
    decreases keys
  {
    var k :| k in keys;
    var rest := keys - {k};
    if rest == {} {
      assert forall j :: j in keys ==> j == k || j in rest;
      assert IsLeast(k, keys);
    } else {
      LeastExists(rest);
      var m :| IsLeast(m, rest);
      BeforeTotal(k, m);
      if Before(k, m) {
        forall j | j in keys && j != k ensures Before(k, j) {
          if j != m { BeforeTransitive(k, m, j); }
        }
        assert IsLeast(k, keys);
      } else {
        assert IsLeast(m, keys);
      }
    }
  }

  ghost function Least(keys: set<Text>): (m: Text)
    requires keys != {}
    ensures IsLeast(m, keys)
  {
    LeastExists(keys);
    var m :| IsLeast(m, keys);
    m
  }

  predicate Ascending(ks: seq<Text>) {
    forall i, j :: 0 <= i < j < |ks| ==> Before(ks[i], ks[j])
  }

  lemma AscendingDistinct(ks: seq<Text>)
    requires Ascending(ks)
    ensures Distinct(ks)
  {
    forall i, j | 0 <= i < j < |ks| ensures ks[i] != ks[j] {
      BeforeStrict(ks[i], ks[j]);
    }
  }

  /** `Object.keys(value).sort()` for an object with exactly these member names. */
  ghost function SortedKeys(keys: set<Text>): (ks: seq<Text>)
    ensures Ascending(ks)
    ensures forall k :: k in ks <==> k in keys
    decreases keys
  {
    if keys == {} then []
    else
      var m := Least(keys);
      [m] + SortedKeys(keys - {m})
  }

  /** An ascending enumeration of a set is unique, so `SortedKeys` is not a choice. */
  lemma {:induction false} SortedKeysUnique(keys: set<Text>, ks: seq<Text>)
    requires Ascending(ks)
    requires forall k :: k in ks <==> k in keys
    ensures ks == SortedKeys(keys)
    decreases keys
  {
    if ks == [] {
      assert forall k :: k !in keys;
    } else {
      assert ks[0] in keys;
      var m := Least(keys);
      var i :| 0 <= i < |ks| && ks[i] == m;
      if 0 < i { BeforeStrict(ks[0], m); }
      forall j | 1 <= j < |ks| ensures ks[j] in keys - {m} {
        BeforeStrict(ks[0], ks[j]);
        assert ks[j] in ks;
      }
      forall k | k in keys - {m} ensures k in ks[1..] {
        var j :| 0 <= j < |ks| && ks[j] == k;
        assert ks[1..][j - 1] == k;
      }
      SortedKeysUnique(keys - {m}, ks[1..]);
      assert ks == [ks[0]] + ks[1..];
    }
  }

  // ---- Sorting --------------------------------------------------------------------

  function Insert(x: Text, ts: seq<Text>): seq<Text> {
    if ts == [] || !Before(ts[0], x) then [x] + ts else [ts[0]] + Insert(x, ts[1..])
  }

  /** `[...texts].sort()`, duplicates kept. */
  function SortTexts(ts: seq<Text>): (r: seq<Text>)
    ensures |r| == |ts|
  {
    if ts == [] then [] else InsertSized(ts[0], SortTexts(ts[1..])); Insert(ts[0], SortTexts(ts[1..]))
  }

  lemma {:induction false} InsertSized(x: Text, ts: seq<Text>)
    ensures multiset(Insert(x, ts)) == multiset(ts) + multiset{x}
    ensures |Insert(x, ts)| == |ts| + 1
  {
    if ts != [] && Before(ts[0], x) {
      InsertSized(x, ts[1..]);
      assert ts == [ts[0]] + ts[1..];
    }
  }

  lemma {:induction false} SortPermutes(ts: seq<Text>)
    ensures multiset(SortTexts(ts)) == multiset(ts)
  {
    if ts != [] {
      SortPermutes(ts[1..]);
      InsertSized(ts[0], SortTexts(ts[1..]));
      assert ts == [ts[0]] + ts[1..];
    }
  }

  /** In order, repetitions allowed. */
  predicate InOrder(ts: seq<Text>) {
    forall i, j :: 0 <= i < j < |ts| ==> !Before(ts[j], ts[i])
  }

  lemma {:induction false} SortIsInOrder(ts: seq<Text>)
    ensures InOrder(SortTexts(ts)) && forall x :: x in SortTexts(ts) <==> x in ts
  {
    if ts != [] {
      SortIsInOrder(ts[1..]);
      InsertInOrder(ts[0], SortTexts(ts[1..]));
    }
  }

  lemma {:induction false} InsertInOrder(x: Text, ts: seq<Text>)
    requires InOrder(ts)
    ensures InOrder(Insert(x, ts)) && forall y :: y in Insert(x, ts) <==> y in ts || y == x
  {
    if ts == [] {
    } else if Before(ts[0], x) {
      InsertInOrder(x, ts[1..]);
      BeforeStrict(ts[0], x);
      assert forall y :: y in ts[1..] ==> !Before(y, ts[0]);
    } else {
      forall y | y in ts ensures !Before(y, x) {
        var j :| 0 <= j < |ts| && ts[j] == y;
        if Before(y, x) && j > 0 {
          BeforeTotal(ts[0], y);
          if Before(ts[0], y) { BeforeTransitive(ts[0], y, x); }
        }
      }
    }
  }

  /** Sorting what is in order already changes nothing. */
  lemma {:induction false} SortedStays(ts: seq<Text>)
    requires InOrder(ts)
    ensures SortTexts(ts) == ts
  {
    if ts != [] { SortedStays(ts[1..]); }
  }
}
