/** Base32 over a 32-bit accumulator that is never masked, against its meaning on bit strings. */
module Base32 {
  import opened Options
  import opened Numbers
  import opened Text

  type Bits = seq<bool>

  const WORD: int := 0x1_0000_0000

  // ---- Bit strings, most significant first ------------------------------------------

  function ValueOf(s: Bits): nat {
    if s == [] then 0 else 2 * ValueOf(s[..|s| - 1]) + if s[|s| - 1] then 1 else 0
  }

  function BitsOf(v: nat, k: nat): (s: Bits)
    ensures |s| == k
  {
    if k == 0 then [] else BitsOf(v / 2, k - 1) + [v % 2 == 1]
  }

  function Zeros(k: nat): (s: Bits)
    ensures |s| == k
  {
    seq(k, _ => false)
  }

  lemma {:induction false} ValueOfBits(v: nat, k: nat)
    requires v < Pow2(k)
    ensures ValueOf(BitsOf(v, k)) == v
  {
    if k > 0 { ValueOfBits(v / 2, k - 1); }
  }

  lemma {:induction false} BitsOfValue(s: Bits)
    ensures ValueOf(s) < Pow2(|s|) && BitsOf(ValueOf(s), |s|) == s
  {
    if s != [] { BitsOfValue(s[..|s| - 1]); }
  }

  lemma {:induction false} ValueOfConcat(a: Bits, b: Bits)
    ensures ValueOf(a + b) == ValueOf(a) * Pow2(|b|) + ValueOf(b)
  {
    if b == [] {
      assert a + b == a;
    } else {
      var init := b[..|b| - 1];
      ValueOfConcat(a, init);
      assert (a + b)[..|a + b| - 1] == a + init;
      assert ValueOf(a) * Pow2(|b|) == 2 * (ValueOf(a) * Pow2(|init|));
    }
  }

  lemma {:induction false} ValueOfZeros(k: nat)
    ensures ValueOf(Zeros(k)) == 0
  {
    if k > 0 {
      ValueOfZeros(k - 1);
      assert Zeros(k)[..k - 1] == Zeros(k - 1);
    }
  }

  /** Distinct bit strings of one length have distinct values. */
  lemma SameValueSameBits(a: Bits, b: Bits)
    requires |a| == |b| && ValueOf(a) == ValueOf(b)
    ensures a == b
  {
    BitsOfValue(a);
    BitsOfValue(b);
  }

  // ---- The alphabet ------------------------------------------------------------------

  /** `ABCDEFGHIJKLMNOPQRSTUVWXYZ234567` */
  function Symbol(i: nat): CodeUnit
    requires i < 32
  {
    if i < 26 then 0x41 + i else 0x32 + (i - 26)
  }

  function IndexOf(c: CodeUnit): (i: int)
    ensures -1 <= i < 32 && (i >= 0 ==> Symbol(i) == c)
    ensures i < 0 ==> forall j :: 0 <= j < 32 ==> Symbol(j) != c
  {
    if 0x41 <= c <= 0x5A then c - 0x41 else if 0x32 <= c <= 0x37 then c - 0x32 + 26 else -1
  }

  predicate InAlphabet(t: Text) { forall i :: 0 <= i < |t| ==> IndexOf(t[i]) >= 0 }

  // ---- What the encodings mean ----------------------------------------------------------

  function BytesBits(bs: seq<Byte>): (s: Bits)
    ensures |s| == 8 * |bs|
  {
    if bs == [] then [] else BitsOf(bs[0], 8) + BytesBits(bs[1..])
  }

  /** Five bits a symbol; what a foreign character stands for never matters. */
  function TextBits(t: Text): (s: Bits)
    ensures |s| == 5 * |t|
  {
    if t == [] then [] else BitsOf(if IndexOf(t[0]) < 0 then 0 else IndexOf(t[0]), 5) + TextBits(t[1..])
  }

  /** Five bits to a symbol, the last group filled up with zeros: section 6 of RFC 4648, unpadded. */
  function Symbols(s: Bits): (t: Text)
    ensures |t| == (|s| + 4) / 5 && InAlphabet(t)
    decreases |s|
  {
    if s == [] then []
    else if |s| < 5 then FiveBits(s + Zeros(5 - |s|)); [Symbol(ValueOf(s + Zeros(5 - |s|)))]
    else FiveBits(s[..5]); [Symbol(ValueOf(s[..5]))] + Symbols(s[5..])
  }

  /** Eight bits to a byte, an incomplete last byte dropped. */
  function Bytes(s: Bits): (bs: seq<Byte>)
    ensures |bs| == |s| / 8
    decreases |s|
  {
    if |s| < 8 then [] else EightBits(s[..8]); [ValueOf(s[..8])] + Bytes(s[8..])
  }

  lemma FiveBits(s: Bits)
    requires |s| == 5
    ensures ValueOf(s) < 32
  {
    BitsOfValue(s);
    assert Pow2(5) == 32;
  }

  lemma EightBits(s: Bits)
    requires |s| == 8
    ensures ValueOf(s) < 256
  {
    BitsOfValue(s);
    assert Pow2(8) == 256;
  }

  function Encoded(bs: seq<Byte>): Text { Symbols(BytesBits(bs)) }

  /** What is decoded is the text without white space, dashes and trailing padding, in upper case. */
  function Stripped(t: Text): Text {
    if t == [] then [] else (if IsJsSpace(t[0]) || t[0] == MINUS then [] else [t[0]]) + Stripped(t[1..])
  }

  function Unpadded(t: Text): Text { if t != [] && t[|t| - 1] == 0x3D then Unpadded(t[..|t| - 1]) else t }

  /** Stripping keeps exactly the units that are neither white space nor hyphens. */
  lemma {:induction false} StrippedKeeps(t: Text)
    ensures Stripped(t) == Pick(t, seq(|t|, i requires 0 <= i < |t| => !IsJsSpace(t[i]) && t[i] != MINUS))
  {
    if t != [] {
      StrippedKeeps(t[1..]);
      var marks := seq(|t|, i requires 0 <= i < |t| => !IsJsSpace(t[i]) && t[i] != MINUS);
      assert marks[1..] ==
        seq(|t[1..]|, i requires 0 <= i < |t[1..]| => !IsJsSpace(t[1..][i]) && t[1..][i] != MINUS);
    }
  }

  /** What is cut off the end are equals signs, all of them. */
  lemma {:induction false} UnpaddedCuts(t: Text)
    ensures var u := Unpadded(t);
            && |u| <= |t| && u == t[..|u|] && (forall i :: |u| <= i < |t| ==> t[i] == 0x3D)
            && (u != [] ==> u[|u| - 1] != 0x3D)
    decreases |t|
  {
    if t != [] && t[|t| - 1] == 0x3D {
      var init := t[..|t| - 1];
      UnpaddedCuts(init);
      assert Unpadded(t) == init[..|Unpadded(t)|] == t[..|Unpadded(t)|];
      forall i | |Unpadded(t)| <= i < |t| ensures t[i] == 0x3D { if i < |t| - 1 { assert init[i] == t[i]; } }
    }
  }

  function Normalized(upper: Text -> Text, t: Text): Text { upper(Unpadded(Stripped(t))) }

  /** The bytes, or nothing where the decoder throws: on an empty secret or a foreign character. */
  function Decoded(upper: Text -> Text, t: Text): Option<seq<Byte>> {
    var n := Normalized(upper, t);
    if n == [] || !InAlphabet(n) then None else Some(Bytes(TextBits(n)))
  }

  // ---- The accumulator ------------------------------------------------------------------

  /** `(value << k) | low`, on 32 bits, where `low` fits in the bits vacated. */
  function ShiftIn(value: int, k: nat, low: int): int { (value * Pow2(k) + low) % WORD }

  /** `(value >>> k) & (2^width - 1)` */
  function Extract(value: int, k: nat, width: nat): int { value / Pow2(k) % Pow2(width) }

  /** The low `|pending|` bits of the accumulator are `pending`; what is above them is left-over. */
  ghost predicate Holds(value: int, pending: Bits) {
    0 <= value < WORD && value % Pow2(|pending|) == ValueOf(pending)
  }

  lemma WordIsPow2()
    ensures Pow2(32) == WORD
  {
    assert Pow2(4) == 16;
    Pow2Sum(4, 4);
    Pow2Sum(8, 8);
    Pow2Sum(16, 16);
  }

  /** A divisor of the word size sees through the wrap-around. */
  lemma ModOfMod(x: int, c: nat, p: nat)
    requires c > 0 && p > 0 && c * p > 0
    ensures x % (c * p) % p == x % p
  {
    var q, r := x / (c * p), x % (c * p);
    assert x == q * (c * p) + r;
    Regroup(q, c, p);
    Spread(q * c, r / p, p);
    assert r == r / p * p + r % p;
    DivModUnique(x, p, q * c + r / p, r % p);
  }

  lemma ShiftArithmetic(x: int, p: nat, k: nat, b: nat, low: nat)
    requires p > 0 && low < k && x % p == b && p * k > 0
    ensures b * k + low < p * k && (x * k + low) % (p * k) == b * k + low
  {
    var top := x / p;
    assert x == top * p + b;
    Spread(top * p, b, k);
    Regroup(top, p, k);
    Scaled(b + 1, p, k);
    Spread(b, 1, k);
    assert x * k + low == top * (p * k) + (b * k + low);
    DivModUnique(x * k + low, p * k, top, b * k + low);
  }

  lemma ExtractArithmetic(x: int, w: nat, r: nat, a: nat, b: nat)
    requires a < w && b < r && w * r > 0 && x % (w * r) == a * r + b
    ensures x / r % w == a && x % r == b
  {
    var top := x / (w * r);
    assert x == top * (w * r) + (a * r + b);
    Regroup(top, w, r);
    Spread(top * w, a, r);
    DivModUnique(x, r, top * w + a, b);
    DivModUnique(top * w + a, w, top, a);
  }

  /** Shifting bits in below what is held, whatever falls off the top. */
  lemma ShiftHolds(value: int, pending: Bits, k: nat, low: nat)
    requires Holds(value, pending) && low < Pow2(k) && |pending| + k <= 32
    ensures Holds(ShiftIn(value, k, low), pending + BitsOf(low, k))
  {
    ValueOfConcat(pending, BitsOf(low, k));
    ValueOfBits(low, k);
    var n := |pending|;
    Pow2Sum(n, k);
    Pow2Sum(32 - n - k, n + k);
    WordIsPow2();
    ShiftArithmetic(value, Pow2(n), Pow2(k), ValueOf(pending), low);
    ModOfMod(value * Pow2(k) + low, Pow2(32 - n - k), Pow2(n + k));
  }

  /** The top bits held are what is read out, and the rest stays held. */
  lemma ExtractHolds(value: int, pending: Bits, width: nat)
    requires Holds(value, pending) && width <= |pending|
    ensures Extract(value, |pending| - width, width) == ValueOf(pending[..width])
    ensures Holds(value, pending[width..])
  {
    var first, rest := pending[..width], pending[width..];
    assert pending == first + rest;
    ValueOfConcat(first, rest);
    BitsOfValue(first);
    BitsOfValue(rest);
    Pow2Sum(width, |pending| - width);
    ExtractArithmetic(value, Pow2(width), Pow2(|pending| - width), ValueOf(first), ValueOf(rest));
  }

  /** The final symbol: what is held, moved up to fill five bits. */
  lemma LastSymbol(value: int, pending: Bits)
    requires Holds(value, pending) && 0 < |pending| < 5
    ensures ShiftIn(value, 5 - |pending|, 0) % Pow2(5) == ValueOf(pending + Zeros(5 - |pending|))
  {
    var k := 5 - |pending|;
    ShiftHolds(value, pending, k, 0);
    ValueOfBits(0, k);
    ValueOfZeros(k);
    SameValueSameBits(BitsOf(0, k), Zeros(k));
  }

  // ---- The loops ------------------------------------------------------------------------

  method EncodeBase32(bytes: seq<Byte>) returns (out: Text)
    ensures out == Encoded(bytes)
  {
    hide ValueOf, BitsOf, Pow2, Symbols, Holds;
    var bits, value := 0, 0;
    out := [];
    ghost var pending: Bits := [];
    NothingHeld();
    assert bytes[0..] == bytes && pending + BytesBits(bytes) == BytesBits(bytes);
    for i := 0 to |bytes|
      invariant |pending| == bits < 5 && Holds(value, pending)
      invariant out + Symbols(pending + BytesBits(bytes[i..])) == Encoded(bytes)
    {
      ghost var low, later := BitsOf(bytes[i], 8), BytesBits(bytes[i + 1..]);
      assert bytes[i..][0] == bytes[i] && bytes[i..][1..] == bytes[i + 1..];
      assert pending + BytesBits(bytes[i..]) == (pending + low) + later;
      ByteFits(bytes[i]);
      ShiftHolds(value, pending, 8, bytes[i]);
      value := ShiftIn(value, 8, bytes[i]);
      bits := bits + 8;
      pending := pending + low;
      while bits >= 5
        invariant |pending| == bits <= 12 && Holds(value, pending)
        invariant out + Symbols(pending + later) == Encoded(bytes)
      {
        ExtractHolds(value, pending, 5);
        NextSymbol(out, pending, later);
        out := out + [Symbol(Extract(value, bits - 5, 5))];
        bits := bits - 5;
        pending := pending[5..];
      }
    }
    assert pending + BytesBits(bytes[|bytes|..]) == pending;
    LastGroup(pending);
    if bits > 0 {
      LastSymbol(value, pending);
      out := out + [Symbol(ShiftIn(value, 5 - bits, 0) % Pow2(5))];
    }
  }

  lemma NothingHeld()
    ensures Holds(0, [])
  {}

  lemma ByteFits(b: Byte)
    ensures b < Pow2(8)
  {
    EightBits(Zeros(8));
  }

  lemma NextSymbol(out: Text, pending: Bits, later: Bits)
    requires |pending| >= 5
    ensures ValueOf(pending[..5]) < 32
    ensures out + Symbols(pending + later) == (out + [Symbol(ValueOf(pending[..5]))]) + Symbols(pending[5..] + later)
  {
    var s := pending + later;
    FiveBits(pending[..5]);
    assert s[..5] == pending[..5] && s[5..] == pending[5..] + later;
  }

  lemma LastGroup(pending: Bits)
    requires |pending| < 5
    ensures pending == [] ==> Symbols(pending) == []
    ensures pending != [] ==>
            ValueOf(pending + Zeros(5 - |pending|)) < 32
              && Symbols(pending) == [Symbol(ValueOf(pending + Zeros(5 - |pending|)))]
  {
    FiveBits(pending + Zeros(5 - |pending|));
  }

  /** `None` where the decoder throws. */
  method DecodeBase32(upper: Text -> Text, text: Text) returns (r: Option<seq<Byte>>)
    ensures r == Decoded(upper, text)
  {
    hide ValueOf, BitsOf, Pow2, Bytes, Holds, Normalized;
    var normalized := Normalized(upper, text);
    if |normalized| == 0 { return None; }
    var bits, value := 0, 0;
    var out: seq<Byte> := [];
    ghost var pending: Bits := [];
    NothingHeld();
    assert normalized[0..] == normalized && pending + TextBits(normalized) == TextBits(normalized);
    for i := 0 to |normalized|
      invariant InAlphabet(normalized[..i])
      invariant |pending| == bits < 8 && Holds(value, pending)
      invariant out + Bytes(pending + TextBits(normalized[i..])) == Bytes(TextBits(normalized))
    {
      assert normalized[..i + 1] == normalized[..i] + [normalized[i]];
      var index := IndexOf(normalized[i]);
      if index == -1 { return None; }
      ghost var low, later := BitsOf(index, 5), TextBits(normalized[i + 1..]);
      assert normalized[i..][0] == normalized[i] && normalized[i..][1..] == normalized[i + 1..];
      assert pending + TextBits(normalized[i..]) == (pending + low) + later;
      IndexFits(index);
      ShiftHolds(value, pending, 5, index);
      value := ShiftIn(value, 5, index);
      bits := bits + 5;
      pending := pending + low;
      if bits >= 8 {
        ExtractHolds(value, pending, 8);
        NextByte(out, pending, later);
        out := out + [Extract(value, bits - 8, 8)];
        bits := bits - 8;
        pending := pending[8..];
      }
    }
    assert pending + TextBits(normalized[|normalized|..]) == pending;
    assert normalized[..|normalized|] == normalized;
    assert normalized[|normalized|..] == [] && pending + [] == pending;
    NoByteLeft(pending);
    assert out + [] == out;
    return Some(out);
  }

  lemma IndexFits(i: nat)
    requires i < 32
    ensures i < Pow2(5)
  {
    assert Pow2(5) == 32;
  }

  lemma NextByte(out: seq<Byte>, pending: Bits, later: Bits)
    requires |pending| >= 8
    ensures ValueOf(pending[..8]) < 256
    ensures out + Bytes(pending + later) == (out + [ValueOf(pending[..8])]) + Bytes(pending[8..] + later)
  {
    var s := pending + later;
    EightBits(pending[..8]);
    assert s[..8] == pending[..8] && s[8..] == pending[8..] + later;
  }

  lemma NoByteLeft(pending: Bits)
    requires |pending| < 8
    ensures Bytes(pending) == []
  {}

  // ---- There and back ---------------------------------------------------------------------

  lemma {:induction false} BytesOfBits(bs: seq<Byte>, rest: Bits)
    requires |rest| < 8
    ensures Bytes(BytesBits(bs) + rest) == bs
  {
    if bs == [] {
      assert BytesBits(bs) + rest == rest;
    } else {
      var first, s := BitsOf(bs[0], 8), BytesBits(bs) + rest;
      assert s[..8] == first && s[8..] == BytesBits(bs[1..]) + rest;
      ByteFits(bs[0]);
      ValueOfBits(bs[0], 8);
      BytesOfBits(bs[1..], rest);
    }
  }

  /** The bits of whole bytes. */
  function Whole(n: nat): (w: nat)
    ensures w <= n < w + 8
  {
    n / 8 * 8
  }

  lemma WholeSteps(n: nat)
    ensures n < 8 ==> Whole(n) == 0
    ensures n >= 8 ==> Whole(n) == Whole(n - 8) + 8
  {}

  lemma {:induction false} BitsOfBytes(s: Bits)
    ensures BytesBits(Bytes(s)) == s[..Whole(|s|)]
    decreases |s|
  {
    WholeSteps(|s|);
    hide Whole, ValueOf, BitsOf;
    if |s| < 8 {
      assert s[..Whole(|s|)] == [];
    } else {
      var first, rest := s[..8], s[8..];
      BitsOfBytes(rest);
      EightBits(first);
      BitsOfValue(first);
      BytesBitsCons(ValueOf(first), Bytes(rest));
      Regrouped(s, Whole(|rest|));
    }
  }

  lemma BytesBitsCons(b: Byte, bs: seq<Byte>)
    ensures BytesBits([b] + bs) == BitsOf(b, 8) + BytesBits(bs)
  {
    hide BitsOf;
    assert ([b] + bs)[1..] == bs;
  }

  lemma Regrouped(s: Bits, w: nat)
    requires 8 + w <= |s|
    ensures s[..8 + w] == s[..8] + s[8..][..w]
  {}

  /** The zeros that fill the last group of five. */
  function Fill(n: nat): (k: nat)
    ensures k < 5 && (n + k) % 5 == 0 && (n + k) / 5 == (n + 4) / 5
  {
    (5 - n % 5) % 5
  }

  lemma FillSteps(n: nat)
    ensures n >= 5 ==> Fill(n) == Fill(n - 5)
    ensures 0 < n < 5 ==> Fill(n) == 5 - n
  {}

  lemma NoFill()
    ensures Fill(0) == 0
  {}

  /** How many bits are left over after whole bytes, for a text of `n` symbols. */
  lemma LeftOver(n: nat)
    ensures var q := Whole(n * 5);
            && q <= n * 5 && (n * 5 - q < 5 <==> n % 8 != 1 && n % 8 != 3 && n % 8 != 6)
            && (n * 5 - q < 5 ==> Fill(q) == n * 5 - q) && ((q + 4) / 5 == n ==> n * 5 - q == Fill(q))
  {
    var k, r := n / 8, n % 8;
    Period(k, r * 5);
    assert n * 5 == 40 * k + r * 5 && (n < 8 * k + 8);
    var w := Whole(r * 5);
    assert w == if r < 2 then 0 else if r < 4 then 8 else if r < 5 then 16 else if r < 7 then 24 else 32;
    Period(k, w);
    FillOfWhole(w);
    hide Whole, Fill;
  }

  lemma Period(k: nat, x: nat)
    ensures Whole(40 * k + x) == 40 * k + Whole(x) && Fill(40 * k + x) == Fill(x)
  {
    DivModUnique(40 * k + x, 8, 5 * k + x / 8, x % 8);
    DivModUnique(40 * k + x, 5, 8 * k + x / 5, x % 5);
  }

  lemma FillOfWhole(w: nat)
    ensures w == 0 ==> Fill(w) == 0
    ensures w == 8 ==> Fill(w) == 2
    ensures w == 16 ==> Fill(w) == 4
    ensures w == 24 ==> Fill(w) == 1
    ensures w == 32 ==> Fill(w) == 3
  {}

  lemma {:induction false} BitsOfSymbols(s: Bits)
    ensures TextBits(Symbols(s)) == s + Zeros(Fill(|s|))
    decreases |s|
  {
    FillSteps(|s|);
    hide Fill, ValueOf, BitsOf;
    if s == [] {
      assert |Zeros(Fill(0))| == 0 by { FillSteps(5); NoFill(); }
    } else if |s| < 5 {
      GroupBits(s + Zeros(5 - |s|));
      assert TextBits(Symbols(s)) == BitsOf(ValueOf(s + Zeros(5 - |s|)), 5);
    } else {
      var group, rest := s[..5], s[5..];
      GroupBits(group);
      BitsOfSymbols(rest);
      assert Symbols(s)[1..] == Symbols(rest);
      assert s + Zeros(Fill(|s|)) == group + (rest + Zeros(Fill(|rest|)));
    }
  }

  lemma GroupBits(g: Bits)
    requires |g| == 5
    ensures ValueOf(g) < 32 && IndexOf(Symbol(ValueOf(g))) == ValueOf(g) && TextBits([Symbol(ValueOf(g))]) == g
  {
    FiveBits(g);
    BitsOfValue(g);
    assert [Symbol(ValueOf(g))][1..] == [];
  }

  /** Distinct alphabet texts stand for distinct bits. */
  lemma {:induction false} TextBitsInjective(a: Text, b: Text)
    requires InAlphabet(a) && InAlphabet(b) && TextBits(a) == TextBits(b)
    ensures a == b
  {
    if a != [] {
      assert TextBits(a)[..5] == BitsOf(IndexOf(a[0]), 5) && TextBits(b)[..5] == BitsOf(IndexOf(b[0]), 5);
      assert TextBits(a)[5..] == TextBits(a[1..]) && TextBits(b)[5..] == TextBits(b[1..]);
      IndexFits(IndexOf(a[0]));
      IndexFits(IndexOf(b[0]));
      ValueOfBits(IndexOf(a[0]), 5);
      ValueOfBits(IndexOf(b[0]), 5);
      TextBitsInjective(a[1..], b[1..]);
    }
  }

  /** Upper-casing leaves upper-case letters and digits alone. */
  ghost predicate KeepsAlphabet(upper: Text -> Text) {
    forall t :: InAlphabet(t) ==> upper(t) == t
  }

  lemma {:induction false} StrippedAlphabet(t: Text)
    requires InAlphabet(t)
    ensures Stripped(t) == t && Unpadded(t) == t
  {
    if t != [] {
      assert IndexOf(t[0]) >= 0 && IndexOf(t[|t| - 1]) >= 0;
      StrippedAlphabet(t[1..]);
      assert t == [t[0]] + t[1..];
    }
  }

  /** Decoding what was encoded gives it back; the empty string is the one that cannot be read back. */
  lemma DecodeEncode(upper: Text -> Text, bs: seq<Byte>)
    requires KeepsAlphabet(upper)
    ensures Decoded(upper, Encoded(bs)) == if bs == [] then None else Some(bs)
  {
    var s := BytesBits(bs);
    StrippedAlphabet(Symbols(s));
    BitsOfSymbols(s);
    if bs != [] { BytesOfBits(bs, Zeros(Fill(|s|))); }
  }

  /** A length some byte string encodes to, with nothing in the bits past the last byte. */
  predicate CanonicalText(n: Text) {
    && |n| % 8 != 1 && |n| % 8 != 3 && |n| % 8 != 6
    && forall i :: Whole(|n| * 5) <= i < |n| * 5 ==> !TextBits(n)[i]
  }

  /** Encoding what was decoded gives back the normalised text exactly when that text was canonical. */
  lemma EncodeDecode(upper: Text -> Text, t: Text)
    requires Decoded(upper, t).Some?
    ensures Encoded(Decoded(upper, t).value) == Normalized(upper, t) <==> CanonicalText(Normalized(upper, t))
  {
    var n := Normalized(upper, t);
    var s := TextBits(n);
    var q := Whole(|s|);
    var kept := s[..q];
    BitsOfBytes(s);
    BitsOfSymbols(kept);
    var again := Symbols(kept);
    hide *;
    CanonicalByLength(n, s, kept, again);
  }

  lemma CanonicalByLength(n: Text, s: Bits, kept: Bits, again: Text)
    requires InAlphabet(n) && s == TextBits(n) && kept == s[..Whole(|s|)]
    requires InAlphabet(again) && |again| == (|kept| + 4) / 5 && TextBits(again) == kept + Zeros(Fill(|kept|))
    ensures again == n <==> CanonicalText(n)
  {
    hide TextBits, Fill, Whole, CanonicalText, InAlphabet;
    var q := |kept|;
    LeftOver(|n|);
    CanonicalBits(n, s);
    if |s| - q < 5 && s == kept + Zeros(|s| - q) { TextBitsInjective(again, n); }
  }

  lemma CanonicalBits(n: Text, s: Bits)
    requires s == TextBits(n)
    ensures var q := Whole(|s|);
            CanonicalText(n) <==> |s| - q < 5 && s == s[..q] + Zeros(|s| - q)
  {
    LeftOver(|n|);
    hide TextBits, Fill, Whole;
    var q := Whole(|s|);
    if s == s[..q] + Zeros(|s| - q) {
      forall i | q <= i < |s| ensures !s[i] { assert s[i] == Zeros(|s| - q)[i - q]; }
    }
    if CanonicalText(n) {
      assert s[q..] == Zeros(|s| - q);
      assert s == s[..q] + s[q..];
    }
  }

  /** Table 3 of RFC 4648, in order. */
  const ALPHABET: string := "ABCDEFGHIJKLMNOPQRSTUVWXYZ234567"

  /** The symbols are those of the table. */
  lemma SymbolsAreTheTable(i: nat)
    requires i < 32
    ensures |ALPHABET| == 32 && Symbol(i) == ALPHABET[i] as int
  {}
}
