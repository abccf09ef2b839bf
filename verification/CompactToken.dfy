/** What both token formats share: text segments, the dots between them, and exact integers. */
module CompactToken {
  import opened Text
  import opened Keyring

  function Units(s: string): Text {
    seq(|s|, i requires 0 <= i < |s| => if s[i] < 128 as char then s[i] as int else 0x3F)
  }

  /** `Number.isSafeInteger` */
  predicate SafeInteger(n: int) { -0x1F_FFFF_FFFF_FFFF <= n <= 0x1F_FFFF_FFFF_FFFF }

  /** `[A-Za-z0-9_-]+` */
  predicate IsSegment(t: Text) {
    t != [] && forall i :: 0 <= i < |t| ==> IsAlphaNumeric(t[i]) || t[i] == 0x5F || t[i] == MINUS
  }

  /** `text.split('.')` */
  function Split(t: Text): (parts: seq<Text>)
    ensures |parts| >= 1
  {
    if t == [] then [[]]
    else if t[0] == DOT then [[]] + Split(t[1..])
    else var rest := Split(t[1..]); [[t[0]] + rest[0]] + rest[1..]
  }

  function Join(a: Text, b: Text): Text { a + [DOT] + b }

  lemma {:induction false} SplitJoin(a: Text, b: Text)
    requires DOT !in a
    ensures Split(Join(a, b)) == [a] + Split(b)
  {
    var t := Join(a, b);
    if a == [] {
      assert t[1..] == b;
    } else {
      assert t[1..] == Join(a[1..], b) && t[0] == a[0];
      SplitJoin(a[1..], b);
      var rest := Split(t[1..]);
      assert rest[0] == a[1..] && rest[1..] == Split(b);
      assert [a[0]] + a[1..] == a;
    }
  }

  lemma {:induction false} SplitNone(a: Text)
    requires DOT !in a
    ensures Split(a) == [a]
  {
    if a != [] {
      SplitNone(a[1..]);
      assert [a[0]] + a[1..] == a;
    }
  }

  lemma SplitCompact(h: Text, p: Text, s: Text)
    requires IsSegment(h) && IsSegment(p) && IsSegment(s)
    ensures Split(Join(Join(h, p), s)) == [h, p, s]
  {
    assert Join(Join(h, p), s) == Join(h, Join(p, s));
    SplitJoin(h, Join(p, s));
    SplitJoin(p, s);
    SplitNone(s);
  }
}
