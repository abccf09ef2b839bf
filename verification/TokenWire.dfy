/** What the token formats ask of their segment encodings can be met under any keyed hash. */
module TokenWire {
  import opened Options
  import opened Numbers
  import opened Text
  import opened Keyring
  import opened CompactToken
  import S = SessionTokens
  import I = InternalPrincipal

  const UNDERSCORE: CodeUnit := 0x5F

  // ---- Numbers as segments ----------------------------------------------------------

  /** The numbers in decimal, each with an underscore behind it. */
  function Written(xs: seq<int>): (t: Text)
    ensures xs != [] ==> t != []
    ensures forall i :: 0 <= i < |t| ==> IsAlphaNumeric(t[i]) || t[i] == UNDERSCORE || t[i] == MINUS
  {
    if xs == [] then [] else ShowInt(xs[0]) + [UNDERSCORE] + Written(xs[1..])
  }

  lemma SameBefore(a: Text, r: Text, b: Text, q: Text)
    requires UNDERSCORE !in a && UNDERSCORE !in b && a + [UNDERSCORE] + r == b + [UNDERSCORE] + q
    ensures a == b && r == q
  {
    var s, t := a + [UNDERSCORE] + r, b + [UNDERSCORE] + q;
    assert forall i :: 0 <= i < |a| ==> s[i] == a[i];
    assert forall i :: 0 <= i < |b| ==> t[i] == b[i];
    assert s[|a|] == UNDERSCORE && t[|b|] == UNDERSCORE;
    assert a == s[..|a|] == t[..|b|] == b && r == s[|a| + 1..] == t[|b| + 1..] == q;
  }

  lemma {:induction false} WrittenInjective(xs: seq<int>, ys: seq<int>)
    requires Written(xs) == Written(ys)
    ensures xs == ys
  {
    if xs != [] && ys != [] {
      SameBefore(ShowInt(xs[0]), Written(xs[1..]), ShowInt(ys[0]), Written(ys[1..]));
      ReadShow(xs[0]);
      ReadShow(ys[0]);
      WrittenInjective(xs[1..], ys[1..]);
      assert xs == [xs[0]] + xs[1..] && ys == [ys[0]] + ys[1..];
    }
  }

  // ---- Records as numbers -------------------------------------------------------------

  /** A list of lists in one list, each behind its length. */
  function Flat(fields: seq<seq<int>>): (xs: seq<int>)
    ensures fields != [] ==> xs != []
  {
    if fields == [] then [] else [|fields[0]|] + (fields[0] + Flat(fields[1..]))
  }

  lemma {:induction false} FlatInjective(a: seq<seq<int>>, b: seq<seq<int>>)
    requires Flat(a) == Flat(b)
    ensures a == b
  {
    if a != [] && b != [] {
      var f, g := a[0], b[0];
      var n := |f|;
      assert n == Flat(a)[0] == Flat(b)[0] == |g|;
      assert f + Flat(a[1..]) == Flat(a)[1..] == Flat(b)[1..] == g + Flat(b[1..]);
      assert f == (f + Flat(a[1..]))[..n] == (g + Flat(b[1..]))[..n] == g;
      assert Flat(a[1..]) == (f + Flat(a[1..]))[n..] == (g + Flat(b[1..]))[n..] == Flat(b[1..]);
      FlatInjective(a[1..], b[1..]);
      assert a == [a[0]] + a[1..] && b == [b[0]] + b[1..];
    }
  }

  function Record(fields: seq<seq<int>>): (t: Text)
    requires fields != []
    ensures IsSegment(t)
  {
    Written(Flat(fields))
  }

  lemma RecordInjective(a: seq<seq<int>>, b: seq<seq<int>>)
    requires a != [] && b != [] && Record(a) == Record(b)
    ensures a == b
  {
    WrittenInjective(Flat(a), Flat(b));
    FlatInjective(a, b);
  }

  // ---- Reading back ---------------------------------------------------------------------

  /** Whatever acceptable value `t` was written from. */
  ghost function ReadBack<T(!new)>(write: T -> Text, ok: T -> bool, t: Text): (r: Option<T>)
    ensures r.Some? ==> ok(r.value) && write(r.value) == t
    ensures (exists x :: ok(x) && write(x) == t) ==> r.Some?
  {
    if exists x :: ok(x) && write(x) == t then var x :| ok(x) && write(x) == t; Some(x) else None
  }

  lemma ReadsWritten<T(!new)>(write: T -> Text, ok: T -> bool, x: T)
    requires ok(x)
    ensures var r := ReadBack(write, ok, write(x)); r.Some? && ok(r.value) && write(r.value) == write(x)
  {}

  // ---- The two formats --------------------------------------------------------------------

  function KidText(kid: Text): (t: Text)
    ensures IsSegment(t)
  {
    Record([kid])
  }

  lemma KidInjective(a: Text, b: Text)
    requires KidText(a) == KidText(b)
    ensures a == b
  {
    RecordInjective([a], [b]);
    assert [a][0] == [b][0];
  }

  function OptionField(o: Option<Text>): seq<int> { match o case None => [] case Some(t) => [1] + t }

  lemma OptionInjective(a: Option<Text>, b: Option<Text>)
    requires OptionField(a) == OptionField(b)
    ensures a == b
  {
    if a.Some? && b.Some? { assert a.value == OptionField(a)[1..] == OptionField(b)[1..] == b.value; }
  }

  function RoleField(r: Option<S.Role>): seq<int> {
    match r case None => [] case Some(Admin) => [0] case Some(Operator) => [1] case Some(Viewer) => [2]
  }

  function ClaimFields(c: S.Claims): seq<seq<int>> {
    [c.iss, c.aud, c.ver, c.sub, c.jti, [c.iat], [c.exp], [c.nbf], OptionField(c.facts.tenantId),
      OptionField(c.facts.companyId),
     OptionField(c.facts.projectId), OptionField(c.facts.projectSlug), OptionField(c.facts.personaId),
     OptionField(c.facts.product), RoleField(c.facts.role)]
  }

  function ClaimsText(c: S.Claims): (t: Text)
    ensures IsSegment(t)
  {
    Record(ClaimFields(c))
  }

  lemma ClaimsInjective(a: S.Claims, b: S.Claims)
    requires ClaimsText(a) == ClaimsText(b)
    ensures a == b
  {
    var x, y := ClaimFields(a), ClaimFields(b);
    RecordInjective(x, y);
    hide Record, OptionField;
    assert x[0] == y[0] && x[1] == y[1] && x[2] == y[2] && x[3] == y[3] && x[4] == y[4];
    assert x[5][0] == y[5][0] && x[6][0] == y[6][0] && x[7][0] == y[7][0] && x[14] == y[14];
    assert x[8] == y[8] && x[9] == y[9] && x[10] == y[10] && x[11] == y[11] && x[12] == y[12] && x[13] == y[13];
    OptionInjective(a.facts.tenantId, b.facts.tenantId);
    OptionInjective(a.facts.companyId, b.facts.companyId);
    OptionInjective(a.facts.projectId, b.facts.projectId);
    OptionInjective(a.facts.projectSlug, b.facts.projectSlug);
    OptionInjective(a.facts.personaId, b.facts.personaId);
    OptionInjective(a.facts.product, b.facts.product);
  }

  function BytesText(b: seq<Byte>): (t: Text)
    ensures IsSegment(t)
  {
    Record([b])
  }

  lemma BytesInjective(a: seq<Byte>, b: seq<Byte>)
    requires BytesText(a) == BytesText(b)
    ensures a == b
  {
    RecordInjective([a], [b]);
    assert [a][0] == [b][0];
  }

  /** Under any keyed hash there are segment encodings the session format can be built on. */
  lemma SessionWireExists(mac: (Secret, Text) -> seq<Byte>) returns (w: S.Wire)
    ensures w.Sound() && w.mac == mac
  {
    w := S.Wire(KidText, t => ReadBack(KidText, KidOk, t), ClaimsText, t => ReadBack(ClaimsText, S.WellFormedClaims, t),
                BytesText, t => ReadBack(BytesText, _ => true, t), mac);
    hide KidText, KidOk, ClaimsText, S.WellFormedClaims, BytesText;
    forall kid | KidOk(kid) ensures IsSegment(KidText(kid)) && w.header(KidText(kid)) == Some(kid) {
      ReadsWritten(KidText, KidOk, kid);
      KidInjective(kid, w.header(KidText(kid)).value);
    }
    forall c | S.WellFormedClaims(c) ensures IsSegment(ClaimsText(c)) && w.claims(ClaimsText(c)) == Some(c) {
      ReadsWritten(ClaimsText, S.WellFormedClaims, c);
      ClaimsInjective(c, w.claims(ClaimsText(c)).value);
    }
    forall b: seq<Byte> ensures IsSegment(BytesText(b)) && w.bytes(BytesText(b)) == Some(b) {
      ReadsWritten(BytesText, (_: seq<Byte>) => true, b);
      BytesInjective(b, w.bytes(BytesText(b)).value);
    }
  }

  function ProfileNumber(p: I.Profile): int {
    match p case Finance => 0 case Scheduler => 1 case Workflow => 2 case Engineer => 3
  }

  function BusinessRoleField(r: Option<I.BusinessRole>): seq<int> {
    match r
    case None => []
    case Some(Ceo) => [0] case Some(SalesManager) => [1] case Some(AccountManager) => [2]
    case Some(PresalesEngineer) => [3] case Some(SolutionArchitect) => [4] case Some(FinanceManager) => [5]
    case Some(DeliveryEngineer) => [6] case Some(SupportEngineer) => [7] case Some(SecurityOfficer) => [8]
    case Some(SystemAdmin) => [9]
  }

  lemma BusinessRoleInjective(a: Option<I.BusinessRole>, b: Option<I.BusinessRole>)
    requires BusinessRoleField(a) == BusinessRoleField(b)
    ensures a == b
  {
    if a.Some? && b.Some? { assert BusinessRoleField(a)[0] == BusinessRoleField(b)[0]; }
  }

  function PayloadFields(p: I.Payload): seq<seq<int>> {
    [p.issuer, p.audience, [ProfileNumber(p.profile)], [if p.subject.kind.Service? then 1 else 0], p.subject.id,
     OptionField(p.subject.sessionId), BusinessRoleField(p.subject.businessRole),
     p.scope.tenantId, p.scope.companyId, p.scope.projectId, p.scope.idempotencyKey, Flat(p.capabilities),
     p.verb, p.path, p.queryHash, p.bodyHash, [p.iat], [p.nbf], [p.exp], p.jti, p.nonce]
  }

  function PayloadText(p: I.Payload): (t: Text)
    ensures IsSegment(t)
  {
    Record(PayloadFields(p))
  }

  lemma PayloadInjective(a: I.Payload, b: I.Payload)
    requires PayloadText(a) == PayloadText(b)
    ensures a == b
  {
    var x, y := PayloadFields(a), PayloadFields(b);
    RecordInjective(x, y);
    hide Record, OptionField, BusinessRoleField, Flat;
    assert x[0] == y[0] && x[1] == y[1] && x[2][0] == y[2][0] && x[3][0] == y[3][0] && x[4] == y[4] && x[5] == y[5];
    assert x[6] == y[6] && x[7] == y[7] && x[8] == y[8] && x[9] == y[9] && x[10] == y[10] && x[11] == y[11];
    assert x[12] == y[12] && x[13] == y[13] && x[14] == y[14] && x[15] == y[15];
    assert x[16][0] == y[16][0] && x[17][0] == y[17][0] && x[18][0] == y[18][0] && x[19] == y[19] && x[20] == y[20];
    OptionInjective(a.subject.sessionId, b.subject.sessionId);
    BusinessRoleInjective(a.subject.businessRole, b.subject.businessRole);
    FlatInjective(a.capabilities, b.capabilities);
  }

  /** 16 bytes become 22 characters; other bytes can be read back. */
  function SealText(b: seq<Byte>): (t: Text)
    ensures IsSegment(t)
  {
    if |b| == 16 then seq(22, _ => 0x41) else BytesText(b)
  }

  predicate SealBytes(b: seq<Byte>) { |b| == 32 }

  /** Under any keyed hash of 32 bytes, any digest and any URL parser, so it is for internal principals. */
  lemma PrincipalWireExists(mac: (Secret, Text) -> seq<Byte>, hash: Text -> Text, pathname: Text -> Text)
    returns (w: I.Wire)
    requires forall s, t :: |mac(s, t)| == 32
    requires forall t :: hash(t) != []
    ensures w.Sound() && w.mac == mac && w.hash == hash && w.pathname == pathname
  {
    w := I.Wire(KidText, t => ReadBack(KidText, KidOk, t), PayloadText, t => ReadBack(PayloadText, I.Encodable, t),
                SealText, t => ReadBack(SealText, SealBytes, t), mac, hash, pathname);
    hide KidText, KidOk, PayloadText, I.Encodable, BytesText;
    forall kid | KidOk(kid) ensures IsSegment(KidText(kid)) && w.header(KidText(kid)) == Some(kid) {
      ReadsWritten(KidText, KidOk, kid);
      KidInjective(kid, w.header(KidText(kid)).value);
    }
    forall p | I.Encodable(p) ensures IsSegment(PayloadText(p)) && w.payload(PayloadText(p)) == Some(p) {
      ReadsWritten(PayloadText, I.Encodable, p);
      PayloadInjective(p, w.payload(PayloadText(p)).value);
    }
    forall b: seq<Byte> | SealBytes(b) ensures w.bytes(SealText(b)) == Some(b) {
      ReadsWritten(SealText, SealBytes, b);
      BytesInjective(b, w.bytes(SealText(b)).value);
    }
    forall s, t ensures IsSegment(SealText(mac(s, t))) && w.bytes(SealText(mac(s, t))) == Some(mac(s, t)) {
      assert SealBytes(mac(s, t));
    }
  }
}
