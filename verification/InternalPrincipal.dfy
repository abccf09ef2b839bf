/** Request-bound tokens between services: profiles, keyrings, issuing, verifying, and demotion. */
module InternalPrincipal {
  import opened Options
  import opened Numbers
  import opened Sequences
  import opened Text
  import opened Keyring
  import opened CompactToken

  const TTL_SECONDS := 60

  const CLOCK_SKEW_SECONDS := 5

  const CUTOFF_SECONDS := 65

  // ---- Profiles ---------------------------------------------------------------

  datatype Profile = Finance | Scheduler | Workflow | Engineer

  datatype SubjectType = HumanDelegation | Service

  datatype BusinessRole =
    | Ceo | SalesManager | AccountManager | PresalesEngineer | SolutionArchitect
    | FinanceManager | DeliveryEngineer | SupportEngineer | SecurityOfficer | SystemAdmin

  function Issuer(p: Profile): Text {
    match p
    case Finance => Units("sangfor-web")
    case Scheduler => Units("sangfor-scheduler")
    case Workflow => Units("sangfor-mcp-workflow")
    case Engineer => Units("sangfor-engineer-mcp")
  }

  function Audience(p: Profile): Text {
    match p
    case Finance => Units("sangfor-api-finance")
    case Scheduler => Units("sangfor-web-scheduler")
    case Workflow => Units("sangfor-web-workflow")
    case Engineer => Units("sangfor-web-external-action")
  }

  function SubjectTypeOf(p: Profile): SubjectType { if p == Finance then HumanDelegation else Service }

  /** The one service a service profile speaks for. */
  function ServiceId(p: Profile): Text { Issuer(p) }

  function AllowedCapabilities(p: Profile): set<Text> {
    match p
    case Finance => {Units("finance.read"), Units("finance.write"), Units("finance.approve_margin")}
    case Scheduler => {Units("agent.schedule.tick")}
    case Workflow =>
      {Units("workflow.definition.create"), Units("workflow.definition.read"), Units("workflow.definition.activate"),
       Units("workflow.run.create"), Units("workflow.run.read"), Units("workflow.run.callback")}
    case Engineer => {Units("external_action.receipt.consume")}
  }

  // ---- The keyrings -------------------------------------------------------------

  /** One profile's keyring loop: the configuration, or nothing when any rule is broken. */
  method ParseProfile(rd: Reader, activeKid: Text, ring: seq<Entry>, now: int) returns (r: Option<Config>)
    ensures r.Some? <==> Parses(rd, CUTOFF_SECONDS, now, activeKid, ring)
    ensures r.Some? ==> r.value == ConfigOf(rd, ring)
  {
    hide Consistent, KidOk;
    var seenKids: set<Text> := {};
    var active: Option<ActiveKey> := None;
    var verifyOnly: map<Text, DemotedKey> := map[];
    var retiredKids: set<Text> := {};
    assert Consistent(rd, CUTOFF_SECONDS, now, ring[..0]) by { NoEntries(rd, CUTOFF_SECONDS, now); }
    for n := 0 to |ring|
      invariant Consistent(rd, CUTOFF_SECONDS, now, ring[..n])
      invariant seenKids == Kids(ring[..n]) && active == FindActive(rd, ring[..n])
      invariant verifyOnly == DemotedKeys(rd, ring[..n]) && retiredKids == RetiredKids(ring[..n])
    {
      var e := ring[n];
      NextEntry(rd, CUTOFF_SECONDS, now, ring, n);
      hide FindActive, DemotedKeys, RetiredKids, Kids;
      if !KidOk(e.kid) || e.kid in seenKids { return None; }
      seenKids := seenKids + {e.kid};
      if rd.seconds(e.activatedAt).None? { return None; }
      var activatedAt := rd.seconds(e.activatedAt).value;
      if e.state.Active? {
        if e.secret.None? || e.demotedAt.Some? || e.verifyUntil.Some? || e.retiredAt.Some? { return None; }
        if active.Some? { return None; }
        if rd.secret(e.secret.value).None? { return None; }
        active := Some(ActiveKey(e.kid, rd.secret(e.secret.value).value, activatedAt));
        continue;
      }
      if e.state.VerifyOnly? {
        if e.secret.None? || e.demotedAt.None? || e.verifyUntil.None? || e.retiredAt.Some? { return None; }
        if rd.seconds(e.demotedAt.value).None? || rd.seconds(e.verifyUntil.value).None? { return None; }
        var demotedAt, cutoff := rd.seconds(e.demotedAt.value).value, rd.seconds(e.verifyUntil.value).value;
        if activatedAt >= demotedAt || cutoff != demotedAt + CUTOFF_SECONDS { return None; }
        if now > cutoff { return None; }
        if rd.secret(e.secret.value).None? { return None; }
        verifyOnly := verifyOnly[e.kid :=
          DemotedKey(e.kid, rd.secret(e.secret.value).value, activatedAt, demotedAt, cutoff)];
        continue;
      }
      if e.secret.Some? || e.demotedAt.None? || e.verifyUntil.None? || e.retiredAt.None? { return None; }
      if rd.seconds(e.demotedAt.value).None? || rd.seconds(e.verifyUntil.value).None?
        || rd.seconds(e.retiredAt.value).None? {
        return None;
      }
      var demotedAt, cutoff, retiredAt :=
        rd.seconds(e.demotedAt.value).value, rd.seconds(e.verifyUntil.value).value, rd.seconds(e.retiredAt.value).value;
      if !(demotedAt <= retiredAt <= cutoff) { return None; }
      retiredKids := retiredKids + {e.kid};
    }
    assert ring[..|ring|] == ring;
    if active.None? || active.value.kid != activeKid { return None; }
    return Some(Config(active.value, verifyOnly, retiredKids));
  }

  /** The parsed keyring of each profile. */
  datatype PrincipalConfig = PrincipalConfig(For: Profile -> Config)

  const PROFILES: seq<Profile> := [Finance, Scheduler, Workflow, Engineer]

  lemma EveryProfile(p: Profile)
    ensures p in PROFILES
  {
    assert PROFILES[0] == Finance && PROFILES[1] == Scheduler && PROFILES[2] == Workflow && PROFILES[3] == Engineer;
  }

  /** A key that can verify: a profile's active key, or one of its demoted ones. */
  datatype Slot = ActiveSlot(p: Profile) | DemotedSlot(p: Profile, kid: Text)

  predicate InUse(cfg: PrincipalConfig, s: Slot) { s.DemotedSlot? ==> s.kid in cfg.For(s.p).verifyOnly }

  function SlotKid(cfg: PrincipalConfig, s: Slot): Text {
    if s.ActiveSlot? then cfg.For(s.p).active.kid else if InUse(cfg, s) then cfg.For(s.p).verifyOnly[s.kid].kid else []
  }

  function SlotSecret(cfg: PrincipalConfig, s: Slot): Secret {
    if s.ActiveSlot? then cfg.For(s.p).active.secret else if InUse(cfg, s) then cfg.For(s.p).verifyOnly[s.kid].secret
      else []
  }

  /** These two keys share neither an id nor a secret. */
  predicate Apart(cfg: PrincipalConfig, a: Slot, b: Slot) {
    SlotKid(cfg, a) != SlotKid(cfg, b) && SlotSecret(cfg, a) != SlotSecret(cfg, b)
  }

  ghost predicate NoReuse(cfg: PrincipalConfig) {
    forall a: Slot, b: Slot :: InUse(cfg, a) && InUse(cfg, b) && a != b ==> Apart(cfg, a, b)
  }

  function KeysOf(cfg: PrincipalConfig, p: Profile): set<Slot> {
    {ActiveSlot(p)} + set k | k in cfg.For(p).verifyOnly :: DemotedSlot(p, k)
  }

  /** What the reuse scan has gathered from the keys it has seen. */
  ghost predicate Gathered(cfg: PrincipalConfig, seen: set<Slot>, kids: set<Text>, secrets: set<Secret>) {
    && (forall s: Slot :: s in seen ==> InUse(cfg, s))
    && kids == (set s | s in seen :: SlotKid(cfg, s))
    && secrets == (set s | s in seen :: SlotSecret(cfg, s))
    && (forall a: Slot, b: Slot :: a in seen && b in seen && a != b ==> Apart(cfg, a, b))
  }

  lemma GatherNext(cfg: PrincipalConfig, seen: set<Slot>, kids: set<Text>, secrets: set<Secret>, s: Slot)
    requires Gathered(cfg, seen, kids, secrets) && InUse(cfg, s) && s !in seen
    ensures if SlotKid(cfg, s) in kids || SlotSecret(cfg, s) in secrets then !NoReuse(cfg)
            else Gathered(cfg, seen + {s}, kids + {SlotKid(cfg, s)}, secrets + {SlotSecret(cfg, s)})
  {
    hide SlotKid, SlotSecret, InUse;
    if NoReuse(cfg) {
      forall a | a in seen ensures Apart(cfg, a, s) {}
    }
  }

  /** The scan over all four keyrings together: no key id and no secret is used twice. */
  method RejectReuse(cfg: PrincipalConfig) returns (ok: bool)
    ensures ok <==> NoReuse(cfg)
  {
    var kids: set<Text> := {};
    var secrets: set<Secret> := {};
    ghost var seen: set<Slot> := {};
    for i := 0 to |PROFILES|
      invariant forall s: Slot :: s in seen <==> InUse(cfg, s) && s.p in PROFILES[..i]
      invariant Gathered(cfg, seen, kids, secrets)
    {
      var p := PROFILES[i];
      assert p !in PROFILES[..i] && forall x: Profile :: x in PROFILES[..i + 1] <==> x in PROFILES[..i] || x == p;
      var rest := KeysOf(cfg, p);
      hide InUse, Gathered, NoReuse, KeysOf, SlotKid, SlotSecret;
      while rest != {}
        invariant rest <= KeysOf(cfg, p)
        invariant forall s: Slot :: s in seen <==> InUse(cfg, s) && (s.p in PROFILES[..i] || (s.p == p && s !in rest))
        invariant Gathered(cfg, seen, kids, secrets)
      {
        var s :| s in rest;
        GatherNext(cfg, seen, kids, secrets, s);
        if SlotKid(cfg, s) in kids { return false; }
        if SlotSecret(cfg, s) in secrets { return false; }
        kids, secrets := kids + {SlotKid(cfg, s)}, secrets + {SlotSecret(cfg, s)};
        seen := seen + {s};
        rest := rest - {s};
      }
    }
    assert PROFILES[..|PROFILES|] == PROFILES;
    forall p: Profile ensures p in PROFILES { EveryProfile(p); }
    return true;
  }

  /** What that rules out: two keys of one profile, or of two, with one id or one secret. */
  lemma NoReuseMeans(cfg: PrincipalConfig)
    ensures NoReuse(cfg) <==>
            && (forall p: Profile, q: Profile :: p != q ==>
                  && cfg.For(p).active.kid != cfg.For(q).active.kid
                  && cfg.For(p).active.secret != cfg.For(q).active.secret)
            && (forall p: Profile, q: Profile, k: Text :: k in cfg.For(q).verifyOnly ==>
                  && cfg.For(p).active.kid != cfg.For(q).verifyOnly[k].kid
                  && cfg.For(p).active.secret != cfg.For(q).verifyOnly[k].secret)
            && (forall p: Profile, q: Profile, j: Text, k: Text ::
                  j in cfg.For(p).verifyOnly && k in cfg.For(q).verifyOnly && (p != q || j != k) ==>
                    && cfg.For(p).verifyOnly[j].kid != cfg.For(q).verifyOnly[k].kid
                    && cfg.For(p).verifyOnly[j].secret != cfg.For(q).verifyOnly[k].secret)
  {
    if NoReuse(cfg) {
      forall p: Profile, q: Profile | p != q
        ensures cfg.For(p).active.kid != cfg.For(q).active.kid && cfg.For(p).active.secret != cfg.For(q).active.secret
      {
        assert Apart(cfg, ActiveSlot(p), ActiveSlot(q));
      }
      forall p: Profile, q: Profile, k: Text | k in cfg.For(q).verifyOnly
        ensures cfg.For(p).active.kid != cfg.For(q).verifyOnly[k].kid
        ensures cfg.For(p).active.secret != cfg.For(q).verifyOnly[k].secret
      {
        assert InUse(cfg, DemotedSlot(q, k)) && Apart(cfg, ActiveSlot(p), DemotedSlot(q, k));
      }
      forall p: Profile, q: Profile, j: Text, k: Text |
        j in cfg.For(p).verifyOnly && k in cfg.For(q).verifyOnly && (p != q || j != k)
        ensures cfg.For(p).verifyOnly[j].kid != cfg.For(q).verifyOnly[k].kid
        ensures cfg.For(p).verifyOnly[j].secret != cfg.For(q).verifyOnly[k].secret
      {
        assert InUse(cfg, DemotedSlot(p, j)) && InUse(cfg, DemotedSlot(q, k));
        assert Apart(cfg, DemotedSlot(p, j), DemotedSlot(q, k));
      }
    }
  }

  // ---- Requests -------------------------------------------------------------------

  /** `[A-Z]+`, the methods that equal their upper-case form. */
  predicate MethodOk(m: Text) { m != [] && forall i :: 0 <= i < |m| ==> 0x41 <= m[i] <= 0x5A }

  predicate Contains(s: Text, part: Text) { exists i :: 0 <= i <= |s| && At(s, i, part) }

  predicate PathOk(w: Wire, path: Text) {
    && path != [] && path[0] == SLASH && !(|path| > 1 && path[1] == SLASH) && 0x3F !in path && 0x23 !in path
    && w.pathname(path) == path && !Contains(path, [SLASH, DOT, DOT, SLASH]) && !Contains(path, [SLASH, DOT, SLASH])
  }

  predicate QueryOk(q: Text) { q == [] || (q[0] == 0x3F && 0x23 !in q) }

  datatype Request = Request(profile: Profile, verb: Text, path: Text, query: Text, body: Text)

  predicate RequestOk(w: Wire, r: Request) { MethodOk(r.verb) && PathOk(w, r.path) && QueryOk(r.query) }

  // ---- Tokens ---------------------------------------------------------------------

  datatype Subject = Subject(kind: SubjectType, id: Text, sessionId: Option<Text>, businessRole: Option<BusinessRole>)

  datatype Scope = Scope(tenantId: Text, companyId: Text, projectId: Text, idempotencyKey: Text)

  datatype Payload = Payload(
    issuer: Text, audience: Text, profile: Profile, subject: Subject, scope: Scope, capabilities: seq<Text>,
    verb: Text, path: Text, queryHash: Text, bodyHash: Text, iat: int, nbf: int, exp: int, jti: Text, nonce: Text)

  /** Every string survives the trip through UTF-8 and every instant is exact. */
  predicate Encodable(p: Payload) {
    && WellFormed(p.issuer) && WellFormed(p.audience) && WellFormed(p.subject.id)
    && (p.subject.sessionId.Some? ==> WellFormed(p.subject.sessionId.value))
    && WellFormed(p.scope.tenantId) && WellFormed(p.scope.companyId) && WellFormed(p.scope.projectId)
    && WellFormed(p.scope.idempotencyKey)
    && (forall c :: c in p.capabilities ==> WellFormed(c)) && WellFormed(p.verb) && WellFormed(p.path)
    && WellFormed(p.queryHash) && WellFormed(p.bodyHash) && WellFormed(p.jti) && WellFormed(p.nonce)
    && SafeInteger(p.iat) && SafeInteger(p.nbf) && SafeInteger(p.exp)
  }

  /** 22 base64url characters, which is what 16 bytes are written as. */
  predicate IdentifierOk(t: Text) { |t| == 22 && IsSegment(t) }

  /** Segment encodings, hashing and URL parsing; the readers say `None` for every segment that is not canonical. */
  datatype Wire = Wire(
    headerText: Text -> Text, header: Text -> Option<Text>,
    payloadText: Payload -> Text, payload: Text -> Option<Payload>,
    bytesText: seq<Byte> -> Text, bytes: Text -> Option<seq<Byte>>,
    mac: (Secret, Text) -> seq<Byte>, hash: Text -> Text, pathname: Text -> Text)
  {
    /** Reading undoes writing, and what is written is a segment. */
    ghost predicate Sound() {
      && (forall kid :: KidOk(kid) ==> IsSegment(headerText(kid)) && header(headerText(kid)) == Some(kid))
      && (forall p :: Encodable(p) ==> IsSegment(payloadText(p)) && payload(payloadText(p)) == Some(p))
      && (forall s, t :: IsSegment(bytesText(mac(s, t))) && bytes(bytesText(mac(s, t))) == Some(mac(s, t)))
      && (forall b :: |b| == 16 ==> IdentifierOk(bytesText(b)))
      && (forall t :: hash(t) != [])
    }
  }

  /** Sorted capabilities, when every one is allowed and none is repeated. */
  function CanonicalCapabilities(caps: seq<Text>, p: Profile): Option<seq<Text>> {
    if caps == [] || exists c :: c in caps && c !in AllowedCapabilities(p) then None
    else
      var sorted := SortTexts(caps);
      if |set c | c in sorted| != |sorted| then None
      else if (p == Scheduler || p == Engineer) && |sorted| != 1 then None
      else Some(sorted)
  }

  predicate SubjectOk(p: Profile, s: Subject, caps: seq<Text>) {
    && s.kind == SubjectTypeOf(p) && 0 < |s.id| <= 255 && CanonicalCapabilities(caps, p).Some?
    && match s.kind
       case HumanDelegation => s.sessionId.Some? && s.sessionId.value != [] && s.businessRole.Some?
       case Service => s.sessionId == None && s.businessRole == None && s.id == ServiceId(p)
  }

  predicate ScopeOk(s: Scope) {
    0 < |s.tenantId| <= 255 && 0 < |s.companyId| <= 255 && 0 < |s.projectId| <= 255 && 0 < |s.idempotencyKey| <= 255
  }

  datatype IssueInput = IssueInput(request: Request, subject: Subject, scope: Scope, capabilities: seq<Text>)

  function PayloadFor(w: Wire, x: IssueInput, caps: seq<Text>, now: int, jti: Text, nonce: Text): Payload {
    var r := x.request;
    Payload(Issuer(r.profile), Audience(r.profile), r.profile, x.subject, x.scope, caps, r.verb, r.path,
      w.hash(r.query), w.hash(r.body),
            now, now - CLOCK_SKEW_SECONDS, now + TTL_SECONDS, jti, nonce)
  }

  /**
   * The payload a token issued at `now` carries, when issuing does not throw; `jti` and `nonce` are
   * the bytes drawn.
   */
  function Issued(w: Wire, x: IssueInput, now: int, jti: seq<Byte>, nonce: seq<Byte>): Option<Payload> {
    var caps := CanonicalCapabilities(x.capabilities, x.request.profile);
    if !SafeInteger(now) || !SubjectOk(x.request.profile, x.subject, x.capabilities) || !ScopeOk(x.scope) then None
    else if !RequestOk(w, x.request) || caps.None? || |jti| != 16 || |nonce| != 16 then None
    else Some(PayloadFor(w, x, caps.value, now, w.bytesText(jti), w.bytesText(nonce)))
  }

  function Seal(w: Wire, key: ActiveKey, p: Payload): Text {
    var signed := Join(w.headerText(key.kid), w.payloadText(p));
    Join(signed, w.bytesText(w.mac(key.secret, signed)))
  }

  function IssueInternalPrincipal(
      w: Wire, x: IssueInput, cfg: PrincipalConfig, now: int, jti: seq<Byte>, nonce: seq<Byte>): Option<Text> {
    match Issued(w, x, now, jti, nonce)
    case None => None
    case Some(p) => Some(Seal(w, cfg.For(x.request.profile).active, p))
  }

  // ---- Verifying ------------------------------------------------------------------

  /** Every check on the payload; keys do not come into it. */
  predicate PayloadStands(w: Wire, p: Payload, r: Request, now: int) {
    && p.profile == r.profile
    && p.subject.id != [] && p.scope.tenantId != [] && p.scope.companyId != [] && p.scope.projectId != []
    && p.scope.idempotencyKey != []
    && p.verb != [] && p.path != [] && p.queryHash != [] && p.bodyHash != []
    && p.issuer == Issuer(p.profile) && p.audience == Audience(p.profile)
    && CanonicalCapabilities(p.capabilities, p.profile) == Some(p.capabilities)
    && SubjectOk(p.profile, p.subject, p.capabilities)
    && SafeInteger(p.iat) && SafeInteger(p.nbf) && SafeInteger(p.exp)
    && p.nbf == p.iat - CLOCK_SKEW_SECONDS && p.exp == p.iat + TTL_SECONDS && p.nbf <= now <= p.exp
    && IdentifierOk(p.jti) && IdentifierOk(p.nonce)
    && RequestOk(w, r)
    && p.verb == r.verb && p.path == r.path && p.queryHash == w.hash(r.query) && p.bodyHash == w.hash(r.body)
  }

  /** The secret a key id may be checked against, for a token with these dates at this moment. */
  function VerificationSecret(c: Config, kid: Text, p: Payload, now: int): Option<Secret> {
    if kid == c.active.kid then Some(c.active.secret)
    else if kid !in c.verifyOnly then None
    else
      var k := c.verifyOnly[kid];
      if p.iat < k.demotedAt && p.exp <= k.demotedAt + TTL_SECONDS && now <= k.verifyUntil then Some(k.secret) else None
  }

  function VerifyInternalPrincipal(w: Wire, token: Text, r: Request, cfg: PrincipalConfig, now: int): Option<Payload> {
    var parts := Split(token);
    if !SafeInteger(now) || |parts| != 3 || !IsSegment(parts[0]) || !IsSegment(parts[1]) || !IsSegment(parts[2])
      then None
    else if w.header(parts[0]).None? || w.payload(parts[1]).None? then None
    else
      var p := w.payload(parts[1]).value;
      if !PayloadStands(w, p, r, now) then None
      else
        var secret := VerificationSecret(cfg.For(r.profile), w.header(parts[0]).value, p, now);
        if secret.None? || w.bytes(parts[2]) != Some(w.mac(secret.value, Join(parts[0], parts[1]))) then None
          else Some(p)
  }

  // ---- Capabilities -----------------------------------------------------------------

  /** What the capability check accepts, and that its result is the one listing of that set. */
  lemma CanonicalExactly(caps: seq<Text>, p: Profile)
    ensures CanonicalCapabilities(caps, p).Some? <==>
            && caps != [] && (forall c :: c in caps ==> c in AllowedCapabilities(p))
            && (forall i, j :: 0 <= i < j < |caps| ==> caps[i] != caps[j])
    ensures CanonicalCapabilities(caps, p).Some? ==>
              var r := CanonicalCapabilities(caps, p).value;
              (forall c :: c in r <==> c in caps) && (forall i, j :: 0 <= i < j < |r| ==> Before(r[i], r[j]))
              && CanonicalCapabilities(r, p) == Some(r)
  {
    var r := SortTexts(caps);
    SortIsInOrder(caps);
    SortedStays(r);
    hide SortTexts, InOrder, Before, AllowedCapabilities;
    SortedCapabilities(caps, r);
    OneAllowed(caps, p);
    OneAllowed(r, p);
  }

  lemma SortedCapabilities(caps: seq<Text>, r: seq<Text>)
    requires r == SortTexts(caps)
    ensures |r| == |caps| && (|set c | c in r| == |r| <==> Distinct(caps)) && (Distinct(r) <==> Distinct(caps))
    ensures Distinct(r) ==> Ascending(r)
  {
    hide SortTexts, Before;
    SortIsInOrder(caps);
    DistinctBySize(r);
    DistinctBySize(caps);
    assert (set c | c in r) == (set c | c in caps);
    forall i, j | 0 <= i < j < |r| && r[i] != r[j] ensures Before(r[i], r[j]) { BeforeTotal(r[i], r[j]); }
  }

  /** Two of the profiles have a single capability. */
  lemma OneAllowed(caps: seq<Text>, p: Profile)
    ensures p == Scheduler || p == Engineer ==>
              Distinct(caps) && (forall c :: c in caps ==> c in AllowedCapabilities(p)) ==> |caps| <= 1
  {
    if |caps| > 1 { assert caps[0] in caps && caps[1] in caps; }
  }

  // ---- Issue, then verify -------------------------------------------------------------

  /** The request a token was issued for, as far as hashes tell. */
  predicate SameRequest(w: Wire, a: Request, b: Request) {
    && a.profile == b.profile && a.verb == b.verb && a.path == b.path
    && w.hash(a.query) == w.hash(b.query) && w.hash(a.body) == w.hash(b.body)
  }

  lemma IssuedPayloadStands(w: Wire, x: IssueInput, now: int, jti: seq<Byte>, nonce: seq<Byte>, r: Request, v: int)
    requires w.Sound() && Issued(w, x, now, jti, nonce).Some? && Encodable(Issued(w, x, now, jti, nonce).value)
    ensures PayloadStands(w, Issued(w, x, now, jti, nonce).value, r, v) <==>
            RequestOk(w, r) && SameRequest(w, x.request, r) && now - CLOCK_SKEW_SECONDS <= v <= now + TTL_SECONDS
  {
    CanonicalExactly(x.capabilities, x.request.profile);
    hide CanonicalCapabilities, IdentifierOk, Contains, Issuer, Audience, AllowedCapabilities, WellFormed;
  }

  /** A sealed payload opens to itself; what remains is whether it stands and its key may be used. */
  lemma SealOpens(w: Wire, key: ActiveKey, p: Payload, r: Request, cfg: PrincipalConfig, v: int)
    requires w.Sound() && KidOk(key.kid) && Encodable(p)
    ensures VerifyInternalPrincipal(w, Seal(w, key, p), r, cfg, v) ==
            var secret := VerificationSecret(cfg.For(r.profile), key.kid, p, v);
            var signed := Join(w.headerText(key.kid), w.payloadText(p));
            if SafeInteger(v) && PayloadStands(w, p, r, v) && secret.Some?
              && w.mac(key.secret, signed) == w.mac(secret.value, signed)
            then Some(p) else None
  {
    var h, t := w.headerText(key.kid), w.payloadText(p);
    SplitCompact(h, t, w.bytesText(w.mac(key.secret, Join(h, t))));
    hide Split, Join, IsSegment, PayloadStands, VerificationSecret, Encodable, KidOk;
  }

  /**
   * A token issued at `now`, presented at `v` for request `r` to a configuration in which its key
   * stands as `st`: it yields the issued facts exactly if `r` is the request it was issued for, `v`
   * is from 5 seconds before to 60 seconds after, and its key still signs or was demoted after `now`.
   */
  lemma IssuedVerifiesExactly(
      w: Wire, x: IssueInput, issuer: PrincipalConfig, now: int, jti: seq<Byte>, nonce: seq<Byte>,
                              r: Request, cfg: PrincipalConfig, v: int, st: Standing)
    requires w.Sound() && Issued(w, x, now, jti, nonce).Some? && Encodable(Issued(w, x, now, jti, nonce).value)
    requires KidOk(issuer.For(x.request.profile).active.kid)
    requires StandsAs(cfg.For(x.request.profile), issuer.For(x.request.profile).active, CUTOFF_SECONDS, st)
    ensures var live :=
              && SafeInteger(v) && now - CLOCK_SKEW_SECONDS <= v <= now + TTL_SECONDS && RequestOk(w, r)
              && SameRequest(w, x.request, r)
              && (st.Signing? || (st.Demoted? && now < st.at));
            VerifyInternalPrincipal(w, IssueInternalPrincipal(w, x, issuer, now, jti, nonce).value, r, cfg, v) ==
            if live then Issued(w, x, now, jti, nonce) else None
  {
    var p := Issued(w, x, now, jti, nonce).value;
    var key := issuer.For(x.request.profile).active;
    IssuedPayloadStands(w, x, now, jti, nonce, r, v);
    SealOpens(w, key, p, r, cfg, v);
    assert p.iat == now && p.exp == now + TTL_SECONDS && p.profile == x.request.profile;
    hide PayloadStands, Issued, Seal, Split, VerifyInternalPrincipal, Encodable, RequestOk, Join;
  }

  /**
   * What an issued token verifies to, whenever and wherever it does, is what it was issued for,
   * field by field: the request's digests, the facts given, the moment and the bytes drawn.
   */
  lemma VerifiedSaysWhatWasIssued(
      w: Wire, x: IssueInput, issuer: PrincipalConfig, now: int, jti: seq<Byte>, nonce: seq<Byte>,
                              r: Request, cfg: PrincipalConfig, v: int, st: Standing)
    requires w.Sound() && Issued(w, x, now, jti, nonce).Some? && Encodable(Issued(w, x, now, jti, nonce).value)
    requires KidOk(issuer.For(x.request.profile).active.kid)
    requires StandsAs(cfg.For(x.request.profile), issuer.For(x.request.profile).active, CUTOFF_SECONDS, st)
    ensures var token := IssueInternalPrincipal(w, x, issuer, now, jti, nonce).value;
            var verified := VerifyInternalPrincipal(w, token, r, cfg, v);
            verified.Some? ==>
            var p := verified.value;
            && p.profile == x.request.profile && p.verb == x.request.verb && p.path == x.request.path
            && p.queryHash == w.hash(x.request.query) && p.bodyHash == w.hash(x.request.body)
            && p.subject.kind == x.subject.kind && p.subject.id == x.subject.id
            && p.subject.sessionId == x.subject.sessionId && p.subject.businessRole == x.subject.businessRole
            && p.scope.tenantId == x.scope.tenantId && p.scope.companyId == x.scope.companyId
            && p.scope.projectId == x.scope.projectId && p.scope.idempotencyKey == x.scope.idempotencyKey
            && Ascending(p.capabilities) && (forall c :: c in p.capabilities <==> c in x.capabilities)
            && p.iat == now && p.nbf == now - CLOCK_SKEW_SECONDS && p.exp == now + TTL_SECONDS
            && p.jti == w.bytesText(jti) && p.nonce == w.bytesText(nonce)
  {
    hide VerifyInternalPrincipal, IssueInternalPrincipal, Encodable, RequestOk, SubjectOk, ScopeOk, KidOk, StandsAs,
         CanonicalCapabilities;
    IssuedVerifiesExactly(w, x, issuer, now, jti, nonce, r, cfg, v, st);
    CanonicalExactly(x.capabilities, x.request.profile);
  }

  /** Nothing is issued for a request, a subject or a scope that is out of order. */
  lemma IssuedInOrder(w: Wire, x: IssueInput, now: int, jti: seq<Byte>, nonce: seq<Byte>)
    ensures Issued(w, x, now, jti, nonce).Some? <==>
            && SafeInteger(now) && |jti| == 16 && |nonce| == 16
            && 0 < |x.subject.id| <= 255 && 0 < |x.scope.tenantId| <= 255 && 0 < |x.scope.companyId| <= 255
            && 0 < |x.scope.projectId| <= 255 && 0 < |x.scope.idempotencyKey| <= 255
            && (if x.request.profile == Finance
                then x.subject.kind == HumanDelegation && x.subject.businessRole.Some? &&
                     x.subject.sessionId.Some? && x.subject.sessionId.value != []
                else x.subject.kind == Service && x.subject.businessRole == None && x.subject.sessionId == None &&
                     x.subject.id == ServiceId(x.request.profile))
            && x.capabilities != [] && (forall c :: c in x.capabilities ==> c in AllowedCapabilities(x.request.profile))
            && Distinct(x.capabilities) && RequestOk(w, x.request)
  {
    hide RequestOk, AllowedCapabilities, ServiceId, CanonicalCapabilities;
    CanonicalExactly(x.capabilities, x.request.profile);
  }

  /** A request that differs in any part is refused, unless its query or body hashes like the one issued for. */
  lemma BoundToOneRequest(w: Wire, x: IssueInput, issuer: PrincipalConfig, now: int, jti: seq<Byte>, nonce: seq<Byte>,
                          r: Request, cfg: PrincipalConfig, v: int)
    requires w.Sound() && Issued(w, x, now, jti, nonce).Some? && Encodable(Issued(w, x, now, jti, nonce).value)
    requires KidOk(issuer.For(x.request.profile).active.kid)
    requires w.hash(r.query) == w.hash(x.request.query) ==> r.query == x.request.query
    requires w.hash(r.body) == w.hash(x.request.body) ==> r.body == x.request.body
    ensures r != x.request ==>
            VerifyInternalPrincipal(w, IssueInternalPrincipal(w, x, issuer, now, jti, nonce).value, r, cfg, v) == None
  {
    var p := Issued(w, x, now, jti, nonce).value;
    IssuedPayloadStands(w, x, now, jti, nonce, r, v);
    SealOpens(w, issuer.For(x.request.profile).active, p, r, cfg, v);
    hide PayloadStands, Issued, Seal, Split, VerifyInternalPrincipal, Encodable, RequestOk, Join;
  }

  // ---- Rotation -----------------------------------------------------------------------

  /**
   * Rotation is invisible to live tokens: over any schedule of a profile's keyrings, a token issued
   * under keyring `s` yields its facts under keyring `i` exactly if the request and the moment are
   * right, its key was not demoted when it was issued, and keyring `i` lists its key. A later
   * keyring that no longer lists it has dropped its tombstone, and by then every token issued
   * before the demotion had run out.
   */
  lemma RotationTransparency(
      w: Wire, rd: Reader, run: seq<Install>, s: nat, i: nat, x: IssueInput, issuer: PrincipalConfig, now: int,
                             jti: seq<Byte>, nonce: seq<Byte>, r: Request, cfg: PrincipalConfig, v: int)
    requires w.Sound() && Issued(w, x, now, jti, nonce).Some? && Encodable(Issued(w, x, now, jti, nonce).value)
    requires Schedule(rd, CUTOFF_SECONDS, run) && s < |run| && i < |run| && run[i].at <= v
    requires Parses(rd, CUTOFF_SECONDS, now, run[s].activeKid, run[s].ring)
             && issuer.For(x.request.profile) == ConfigOf(rd, run[s].ring)
    requires Parses(rd, CUTOFF_SECONDS, v, run[i].activeKid, run[i].ring)
             && cfg.For(x.request.profile) == ConfigOf(rd, run[i].ring)
    ensures var kid := ConfigOf(rd, run[s].ring).active.kid;
            var live :=
              && SafeInteger(v) && now - CLOCK_SKEW_SECONDS <= v <= now + TTL_SECONDS && RequestOk(w, r)
              && SameRequest(w, x.request, r)
              && kid in Kids(run[i].ring) && DatedBeforeDemotion(rd, run[i].ring, kid, now);
            && (s <= i && kid !in Kids(run[i].ring) ==>
                 exists d :: Buried(rd, CUTOFF_SECONDS, run, s, i, kid, d) && (now < d ==> now + TTL_SECONDS < v))
            && VerifyInternalPrincipal(w, IssueInternalPrincipal(w, x, issuer, now, jti, nonce).value, r, cfg, v) ==
               if live then Issued(w, x, now, jti, nonce) else None
  {
    var st := KeyStands(rd, CUTOFF_SECONDS, run, s, i);
    ActiveKidOk(rd, CUTOFF_SECONDS, now, run[s].activeKid, run[s].ring);
    var key := ConfigOf(rd, run[s].ring).active;
    DemotionDate(rd, CUTOFF_SECONDS, v, run[i].activeKid, run[i].ring, key, now, st);
    hide *;
    IssuedVerifiesExactly(w, x, issuer, now, jti, nonce, r, cfg, v, st);
  }

  /**
   * Demoting a signing key at `at`, with its cutoff 65 seconds later, changes no verdict on any
   * text naming that key and dated before `at`, and refuses everything dated later.
   */
  lemma DemotionChangesNoVerdict(
      w: Wire, token: Text, r: Request, before: PrincipalConfig, after: PrincipalConfig, at: int, v: int)
    requires StandsAs(after.For(r.profile), before.For(r.profile).active, CUTOFF_SECONDS, Demoted(at))
    requires |Split(token)| == 3 && w.header(Split(token)[0]) == Some(before.For(r.profile).active.kid)
    ensures var p := w.payload(Split(token)[1]);
            VerifyInternalPrincipal(w, token, r, after, v) ==
            if p.Some? && p.value.iat < at then VerifyInternalPrincipal(w, token, r, before, v) else None
  {
    hide Split, Join, IsSegment;
  }

  /**
   * Whatever verifies is three segments sealed with a key its own profile still honours, carries
   * that profile's identity, is bound to this request, and is presented in its lifetime.
   */
  lemma VerifiedIsBound(
      w: Wire, token: Text, r: Request, cfg: PrincipalConfig, v: int) returns (kid: Text, secret: Secret)
    requires VerifyInternalPrincipal(w, token, r, cfg, v).Some?
    ensures var p := VerifyInternalPrincipal(w, token, r, cfg, v).value; var parts := Split(token);
            var c := cfg.For(r.profile);
            && |parts| == 3 && w.header(parts[0]) == Some(kid) && w.payload(parts[1]) == Some(p)
            && w.bytes(parts[2]) == Some(w.mac(secret, Join(parts[0], parts[1])))
            && p.profile == r.profile && p.issuer == Issuer(r.profile) && p.audience == Audience(r.profile)
            && (r.profile != Finance ==> p.subject.id == ServiceId(r.profile) && p.subject.sessionId == None)
            && (forall c :: c in p.capabilities ==> c in AllowedCapabilities(r.profile))
            && Ascending(p.capabilities) && p.capabilities != [] && p.subject.id != []
            && (r.profile == Finance ==> p.subject.sessionId.Some? && p.subject.businessRole.Some?)
            && p.scope.tenantId != [] && p.scope.companyId != [] && p.scope.projectId != []
            && p.verb == r.verb && p.path == r.path && p.queryHash == w.hash(r.query) && p.bodyHash == w.hash(r.body)
            && (forall u :: u in r.verb ==> 0x41 <= u <= 0x5A) && r.path != [] && r.path[0] == SLASH
            && 0x3F !in r.path && 0x23 !in r.path && 0x23 !in r.query && w.pathname(r.path) == r.path
            && (|r.path| > 1 ==> r.path[1] != SLASH) && (r.query != [] ==> r.query[0] == 0x3F)
            && (forall i: nat :: !At(r.path, i, [SLASH, DOT, SLASH]) && !At(r.path, i, [SLASH, DOT, DOT, SLASH]))
            && |p.jti| == 22 && |p.nonce| == 22
            && p.nbf == p.iat - CLOCK_SKEW_SECONDS && p.exp == p.iat + TTL_SECONDS
            && p.iat - CLOCK_SKEW_SECONDS <= v <= p.iat + TTL_SECONDS
            && if kid == c.active.kid then secret == c.active.secret
               else kid in c.verifyOnly && secret == c.verifyOnly[kid].secret && p.iat < c.verifyOnly[kid].demotedAt
                    && v <= c.verifyOnly[kid].verifyUntil
  {
    var parts := Split(token);
    CanonicalExactly(w.payload(parts[1]).value.capabilities, r.profile);
    if PathOk(w, r.path) { NoDots(w, r.path); }
    hide CanonicalCapabilities, AllowedCapabilities, Split, Join, IsSegment, Issuer, Audience;
    kid := w.header(parts[0]).value;
    secret := VerificationSecret(cfg.For(r.profile), kid, w.payload(parts[1]).value, v).value;
  }

  lemma NoDots(w: Wire, path: Text)
    requires PathOk(w, path)
    ensures forall i: nat :: !At(path, i, [SLASH, DOT, SLASH]) && !At(path, i, [SLASH, DOT, DOT, SLASH])
  {
    hide At;
    forall i: nat ensures !At(path, i, [SLASH, DOT, SLASH]) && !At(path, i, [SLASH, DOT, DOT, SLASH]) {
      if i > |path| { Beyond(path, i); }
    }
  }

  lemma Beyond(t: Text, i: nat)
    requires i > |t|
    ensures forall s :: !At(t, i, s)
  {}

  /** With no key id shared between keyrings, one profile's key cannot vouch for another profile. */
  lemma KeysStayInTheirProfile(w: Wire, token: Text, r: Request, cfg: PrincipalConfig, s: Slot, v: int)
    requires NoReuse(cfg) && InUse(cfg, s) && s.p != r.profile
    requires forall p: Profile, k: Text :: k in cfg.For(p).verifyOnly ==> cfg.For(p).verifyOnly[k].kid == k
    requires |Split(token)| == 3 && w.header(Split(token)[0]) == Some(SlotKid(cfg, s))
    ensures VerifyInternalPrincipal(w, token, r, cfg, v) == None
  {
    var kid := SlotKid(cfg, s);
    assert Apart(cfg, s, ActiveSlot(r.profile));
    assert InUse(cfg, DemotedSlot(r.profile, kid)) ==> Apart(cfg, s, DemotedSlot(r.profile, kid));
    hide Split, PayloadStands, IsSegment, Join;
  }
}
