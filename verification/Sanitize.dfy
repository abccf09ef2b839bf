/** The surrogate stripper that feeds the canonical boundary well-formed strings. */
module Sanitize {
  import opened Options
  import opened Text
  import opened JsonGrammar
  import P = JsonParser
  import C = JsonCanonical

  /** C0 controls other than tab, line feed and carriage return; and DEL. */
  predicate IsControl(c: CodeUnit) {
    c <= 0x08 || c == 0x0B || c == 0x0C || 0x0E <= c <= 0x1F || c == 0x7F
  }

  /** The controls removed are the ones of ASCII, but for the three that format text. */
  lemma ControlsAre(c: CodeUnit)
    ensures IsControl(c) <==> (c < 0x20 || c == 0x7F) && c != 0x09 && c != LF && c != CR
  {}

  predicate NoControls(s: Text) { forall i :: 0 <= i < |s| ==> !IsControl(s[i]) }

  function DropControls(s: Text): Text {
    if s == [] then []
    else if IsControl(s[0]) then DropControls(s[1..])
    else [s[0]] + DropControls(s[1..])
  }

  /** Removes each high surrogate not followed by a low one. */
  function DropHighs(s: Text): Text {
    if s == [] then []
    else if IsHigh(s[0]) && !(|s| > 1 && IsLow(s[1])) then DropHighs(s[1..])
    else [s[0]] + DropHighs(s[1..])
  }

  /** Removes each low surrogate not preceded by a high one; `high` says whether the unit before `s` is high. */
  function DropLows(high: bool, s: Text): Text
    decreases s
  {
    if s == [] then []
    else if IsLow(s[0]) && !high then DropLows(false, s[1..])
    else [s[0]] + DropLows(IsHigh(s[0]), s[1..])
  }

  function CleanString(s: Text): Text { DropLows(false, DropHighs(DropControls(s))) }

  predicate HighsPaired(s: Text) {
    forall i :: 0 <= i < |s| && IsHigh(s[i]) ==> i + 1 < |s| && IsLow(s[i + 1])
  }

  predicate LowsPaired(high: bool, s: Text) {
    forall i :: 0 <= i < |s| && IsLow(s[i]) ==> HighBefore(high, s, i)
  }

  predicate HighBefore(high: bool, s: Text, i: nat)
    requires i < |s|
  {
    if i == 0 then high else IsHigh(s[i - 1])
  }

  lemma {:induction false} DropControlsResult(s: Text)
    ensures NoControls(DropControls(s))
    ensures NoControls(s) ==> DropControls(s) == s
  {
    if s != [] {
      DropControlsResult(s[1..]);
      assert s == [s[0]] + s[1..];
    }
  }

  lemma {:induction false} DropHighsResult(s: Text)
    ensures HighsPaired(DropHighs(s))
    ensures s != [] && IsLow(s[0]) ==> DropHighs(s) != [] && DropHighs(s)[0] == s[0]
    ensures NoControls(s) ==> NoControls(DropHighs(s))
    ensures HighsPaired(s) ==> DropHighs(s) == s
  {
    hide NoControls, HighsPaired;
    if s == [] {
      NoHighs();
    } else {
      var rest := s[1..];
      assert s == [s[0]] + rest;
      DropHighsResult(rest);
      NoControlsCons(s[0], rest, DropHighs(rest));
      HighsCons(s[0], rest);
      HighsCons(s[0], DropHighs(rest));
    }
  }

  lemma NoHighs()
    ensures HighsPaired([])
  {}

  lemma HighsCons(c: CodeUnit, r: Text)
    ensures HighsPaired([c] + r) <==> HighsPaired(r) && (IsHigh(c) ==> r != [] && IsLow(r[0]))
  {
    var s := [c] + r;
    assert forall i :: 0 <= i < |r| ==> s[i + 1] == r[i];
    if HighsPaired(s) {
      forall i | 0 <= i < |r| && IsHigh(r[i]) ensures i + 1 < |r| && IsLow(r[i + 1]) { assert IsHigh(s[i + 1]); }
      assert IsHigh(s[0]) ==> IsLow(s[1]);
    }
    if HighsPaired(r) && (IsHigh(c) ==> r != [] && IsLow(r[0])) {
      forall i | 0 <= i < |s| && IsHigh(s[i]) ensures i + 1 < |s| && IsLow(s[i + 1]) {
        if i > 0 { assert IsHigh(r[i - 1]); }
      }
    }
  }

  lemma {:induction false} DropLowsResult(high: bool, s: Text)
    requires HighsPaired(s)
    ensures var r := DropLows(high, s);
            HighsPaired(r) && LowsPaired(high, r) && (s != [] && !(IsLow(s[0]) && !high) ==> r != [] && r[0] == s[0])
    ensures NoControls(s) ==> NoControls(DropLows(high, s))
    ensures LowsPaired(high, s) ==> DropLows(high, s) == s
    decreases s
  {
    hide NoControls, HighsPaired, LowsPaired;
    if s == [] {
      LowsPairedEmpty(high);
    } else {
      var rest := s[1..];
      assert s == [s[0]] + rest;
      PairedTail(high, s);
      NoControlsCons(s[0], rest, DropLows(IsHigh(s[0]), rest));
      if IsLow(s[0]) && !high {
        DropLowsResult(false, rest);
        LowsAfterNonHigh(high, DropLows(false, rest));
      } else {
        DropLowsResult(IsHigh(s[0]), rest);
        LowsCons(high, s[0], DropLows(IsHigh(s[0]), rest));
      }
    }
  }

  lemma NoControlsCons(c: CodeUnit, s: Text, r: Text)
    ensures NoControls([c] + s) ==> NoControls(s)
    ensures NoControls([c] + s) && NoControls(r) ==> NoControls([c] + r)
  {
    assert ([c] + s)[0] == c;
    assert forall i :: 0 <= i < |s| ==> s[i] == ([c] + s)[i + 1];
  }

  lemma PairedTail(high: bool, s: Text)
    requires s != [] && HighsPaired(s)
    ensures HighsPaired(s[1..]) && (IsHigh(s[0]) ==> |s| > 1 && IsLow(s[1]) && s[1] == s[1..][0])
    ensures LowsPaired(high, s) ==> LowsPaired(IsHigh(s[0]), s[1..]) && (IsLow(s[0]) ==> high)
  {
    var r := s[1..];
    assert forall i :: 0 <= i < |r| ==> r[i] == s[i + 1];
    forall i | 0 <= i < |r| && IsHigh(r[i]) ensures i + 1 < |r| && IsLow(r[i + 1]) {
      assert IsHigh(s[i + 1]);
    }
    if LowsPaired(high, s) {
      assert IsLow(s[0]) ==> HighBefore(high, s, 0);
      forall i | 0 <= i < |r| && IsLow(r[i]) ensures HighBefore(IsHigh(s[0]), r, i) {
        assert IsLow(s[i + 1]) && HighBefore(high, s, i + 1);
      }
    }
  }

  lemma LowsPairedEmpty(high: bool)
    ensures LowsPaired(high, [])
  {}

  lemma LowsAfterNonHigh(high: bool, r: Text)
    requires LowsPaired(false, r)
    ensures LowsPaired(high, r)
  {
    forall i | 0 <= i < |r| && IsLow(r[i]) ensures HighBefore(high, r, i) {
      assert HighBefore(false, r, i);
    }
  }

  lemma LowsCons(high: bool, c: CodeUnit, r: Text)
    requires LowsPaired(IsHigh(c), r) && HighsPaired(r) && (IsLow(c) ==> high)
    requires IsHigh(c) ==> r != [] && IsLow(r[0])
    ensures LowsPaired(high, [c] + r) && HighsPaired([c] + r)
  {
    var s := [c] + r;
    assert forall i :: 1 <= i < |s| ==> s[i] == r[i - 1];
    forall i | 0 <= i < |s| && IsLow(s[i]) ensures HighBefore(high, s, i) {
      if i > 0 { assert IsLow(r[i - 1]) && HighBefore(IsHigh(c), r, i - 1); }
    }
    forall i | 0 <= i < |s| && IsHigh(s[i]) ensures i + 1 < |s| && IsLow(s[i + 1]) {
      if i > 0 { assert IsHigh(r[i - 1]); }
    }
  }

  /** A cleaned string has no lone surrogate and no control unit, and cleaning it again changes nothing. */
  lemma CleanStringIsClean(s: Text)
    ensures WellFormed(CleanString(s)) && NoControls(CleanString(s))
    ensures CleanString(CleanString(s)) == CleanString(s)
  {
    var a := DropControls(s);
    var b := DropHighs(a);
    DropControlsResult(s);
    DropHighsResult(a);
    DropLowsResult(false, b);
    CleanStringIdentity(CleanString(s));
  }

  /** Strings already clean pass through untouched. */
  lemma CleanStringIdentity(s: Text)
    ensures WellFormed(s) <==> HighsPaired(s) && LowsPaired(false, s)
    ensures WellFormed(s) && NoControls(s) ==> CleanString(s) == s
  {
    if WellFormed(s) {
      forall i | 0 <= i < |s| && IsHigh(s[i]) ensures i + 1 < |s| && IsLow(s[i + 1]) { assert PairedAt(s, i); }
      forall i | 0 <= i < |s| && IsLow(s[i]) ensures HighBefore(false, s, i) { assert PairedAt(s, i); }
    }
    if HighsPaired(s) && LowsPaired(false, s) {
      forall i | 0 <= i < |s| ensures PairedAt(s, i) { assert IsLow(s[i]) ==> HighBefore(false, s, i); }
    }
    DropControlsResult(s);
    DropHighsResult(s);
    if HighsPaired(s) { DropLowsResult(false, s); }
  }

  // ---- What cleaning keeps -------------------------------------------------------

  function NotControls(s: Text): seq<bool> { seq(|s|, i requires 0 <= i < |s| => !IsControl(s[i])) }

  function InPairs(s: Text): seq<bool> { seq(|s|, i requires 0 <= i < |s| => PairedAt(s, i)) }

  /** The same where `high` says whether the unit before `s` is high. */
  function InPairsAfter(high: bool, s: Text): seq<bool> {
    seq(|s|, i requires 0 <= i < |s| =>
      (IsHigh(s[i]) ==> i + 1 < |s| && IsLow(s[i + 1])) && (IsLow(s[i]) ==> HighBefore(high, s, i)))
  }

  lemma {:induction false} ControlsPicked(s: Text)
    ensures DropControls(s) == Pick(s, NotControls(s))
  {
    if s != [] {
      ControlsPicked(s[1..]);
      assert NotControls(s)[1..] == NotControls(s[1..]);
    }
  }

  lemma MarksNext(high: bool, s: Text)
    requires s != []
    ensures InPairsAfter(high, s)[1..] == InPairsAfter(IsHigh(s[0]), s[1..])
    ensures InPairsAfter(high, s)[0] <==>
            (IsHigh(s[0]) ==> |s| > 1 && IsLow(s[1])) && (IsLow(s[0]) ==> high)
    ensures !IsLow(s[0]) ==> InPairsAfter(high, s) == InPairsAfter(!high, s)
  {
    var rest := s[1..];
    assert forall i :: 0 <= i < |rest| ==> rest[i] == s[i + 1];
    assert forall i :: 0 <= i < |rest| ==> (HighBefore(IsHigh(s[0]), rest, i) <==> HighBefore(high, s, i + 1));
  }

  lemma NoMarks()
    ensures InPairsAfter(true, []) == InPairsAfter(false, [])
  {}

  lemma {:induction false} SurrogatesPicked(high: bool, s: Text)
    ensures DropLows(high, DropHighs(s)) == Pick(s, InPairsAfter(high, s))
    decreases s
  {
    hide InPairsAfter;
    if s != [] {
      var c, rest := s[0], s[1..];
      MarksNext(high, s);
      if IsHigh(c) && !(|s| > 1 && IsLow(s[1])) {
        SurrogatesPicked(high, rest);
        if rest == [] { NoMarks(); } else { MarksNext(high, rest); }
      } else {
        var d := DropHighs(s);
        assert d[0] == c && d[1..] == DropHighs(rest);
        SurrogatesPicked(IsHigh(c), rest);
      }
    }
  }

  /** Cleaning keeps exactly the units that are not controls and, the controls gone, not a broken half of a pair. */
  lemma CleanStringKeeps(s: Text)
    ensures var t := Pick(s, NotControls(s)); CleanString(s) == Pick(t, InPairs(t))
  {
    var t := Pick(s, NotControls(s));
    ControlsPicked(s);
    SurrogatesPicked(false, t);
    assert InPairs(t) == InPairsAfter(false, t);
  }

  // ---- Values -----------------------------------------------------------------

  function SanitizeJson(v: Json, maxDepth: int): Json
    decreases v
  {
    if maxDepth < 0 then v
    else
      match v
      case Str(s) => Str(CleanString(s))
      case Arr(items) => Arr(seq(|items|, i requires 0 <= i < |items| => SanitizeJson(items[i], maxDepth - 1)))
      case Obj(m) => Obj(map k | k in m :: SanitizeJson(m[k], maxDepth - 1))
      case _ => v
  }

  const DEFAULT_DEPTH := 10

  /** Names are well-formed at every depth, and strings are wherever the sanitizer does not descend. */
  ghost predicate CleanOutOfReach(v: Json, maxDepth: int)
    decreases v
  {
    if maxDepth < 0 then C.Clean(v)
    else
      match v
      case Arr(items) => forall i :: 0 <= i < |items| ==> CleanOutOfReach(items[i], maxDepth - 1)
      case Obj(m) => forall k :: k in m ==> WellFormed(k) && CleanOutOfReach(m[k], maxDepth - 1)
      case _ => true
  }

  /** Exactly which values the sanitizer makes fit for the canonical boundary. */
  lemma {:induction false} SanitizedCleanIff(v: Json, maxDepth: int)
    ensures C.Clean(SanitizeJson(v, maxDepth)) <==> CleanOutOfReach(v, maxDepth)
    decreases v
  {
    if maxDepth >= 0 {
      match v
      case Str(s) => CleanStringIsClean(s);
      case Arr(items) =>
        var out := SanitizeJson(v, maxDepth).items;
        forall i | 0 <= i < |items| ensures C.Clean(out[i]) <==> CleanOutOfReach(items[i], maxDepth - 1) {
          SanitizedCleanIff(items[i], maxDepth - 1);
        }
        assert |out| == |items|;
      case Obj(m) =>
        var out := SanitizeJson(v, maxDepth).members;
        forall k | k in m ensures C.Clean(out[k]) <==> CleanOutOfReach(m[k], maxDepth - 1) {
          SanitizedCleanIff(m[k], maxDepth - 1);
        }
        assert out.Keys == m.Keys;
      case _ =>
    }
  }

  /** A way into a value: the member of a name, the item at an index. */
  datatype Step = Member(name: Text) | Item(index: nat)

  function Child(v: Json, step: Step): Option<Json> {
    match step
    case Member(name) => if v.Obj? && name in v.members then Some(v.members[name]) else None
    case Item(i) => if v.Arr? && i < |v.items| then Some(v.items[i]) else None
  }

  function Lookup(v: Json, path: seq<Step>): Option<Json> {
    if path == [] then Some(v)
    else match Child(v, path[0]) case None => None case Some(w) => Lookup(w, path[1..])
  }

  /** What stands in a place after sanitizing, given what stood there before. */
  ghost predicate InPlace(before: Option<Json>, after: Option<Json>, reached: bool) {
    match before
    case None => after == None
    case Some(Str(s)) => after == Some(Str(if reached then CleanString(s) else s))
    case Some(Arr(items)) => after.Some? && after.value.Arr? && |after.value.items| == |items|
    case Some(Obj(m)) => after.Some? && after.value.Obj? && after.value.members.Keys == m.Keys
    case Some(scalar) => after == before
  }

  /**
   * Sanitizing adds, removes and moves nothing: at every path there is what there was, strings
   * cleaned at most `maxDepth` levels down and left alone below.
   */
  lemma {:induction false} SanitizedInPlace(v: Json, maxDepth: int, path: seq<Step>)
    ensures InPlace(Lookup(v, path), Lookup(SanitizeJson(v, maxDepth), path), |path| <= maxDepth)
    decreases |path|
  {
    hide CleanString;
    if path != [] {
      var c := Child(v, path[0]);
      if c.Some? && maxDepth >= 0 { SanitizedInPlace(c.value, maxDepth - 1, path[1..]); }
      if maxDepth < 0 { Untouched(Lookup(v, path)); }
    }
  }

  lemma Untouched(before: Option<Json>)
    ensures InPlace(before, before, false)
  {}

  /** Nested at most `depth` deep, with well-formed names. */
  ghost predicate Shallow(v: Json, depth: int)
    decreases v
  {
    && depth >= 0
    && match v
       case Arr(items) => forall i :: 0 <= i < |items| ==> Shallow(items[i], depth - 1)
       case Obj(m) => forall k :: k in m ==> WellFormed(k) && Shallow(m[k], depth - 1)
       case _ => true
  }

  lemma {:induction false} ShallowInReach(v: Json, depth: int)
    requires Shallow(v, depth)
    ensures CleanOutOfReach(v, depth)
    decreases v
  {
    match v
    case Arr(items) =>
      forall i | 0 <= i < |items| ensures CleanOutOfReach(items[i], depth - 1) {
        ShallowInReach(items[i], depth - 1);
      }
    case Obj(m) => forall k | k in m ensures CleanOutOfReach(m[k], depth - 1) { ShallowInReach(m[k], depth - 1); }
    case _ =>
  }

  /** A sanitized value within the default depth survives printing and parsing. */
  lemma SanitizedRoundTrip(num: NumberFormat, v: Json)
    requires num.Valid() && Shallow(v, DEFAULT_DEPTH)
    ensures var w := SanitizeJson(v, DEFAULT_DEPTH);
            P.ParseText(num, C.Canon(num, w)) == P.Ok(w, |C.Canon(num, w)|)
  {
    ShallowInReach(v, DEFAULT_DEPTH);
    SanitizedCleanIff(v, DEFAULT_DEPTH);
    C.RoundTrip(num, SanitizeJson(v, DEFAULT_DEPTH));
  }
}
