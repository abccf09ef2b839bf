/** Session tokens: the keyring they are signed under, how they are signed, and when they verify. */
module SessionTokens {
  import opened Options
  import opened Numbers
  import opened Text
  import opened Keyring
  import opened CompactToken

  const TTL_SECONDS := 28_800

  const CLOCK_SKEW_SECONDS := 30

  const VERIFY_ONLY_WINDOW_SECONDS := TTL_SECONDS + CLOCK_SKEW_SECONDS

  // ---- The keyring ------------------------------------------------------------

  /** The keyring loop: the configuration, or nothing when any rule is broken. */
  method ParseUserKeyring(rd: Reader, activeKid: Text, ring: seq<Entry>, now: int) returns (r: Option<Config>)
    ensures r.Some? <==> Parses(rd, VERIFY_ONLY_WINDOW_SECONDS, now, activeKid, ring)
    ensures r.Some? ==> r.value == ConfigOf(rd, ring)
  {
    hide Consistent, KidOk;
    var seenKids: set<Text> := {};
    var active: Option<ActiveKey> := None;
    var verifyOnly: map<Text, DemotedKey> := map[];
    var retiredKids: set<Text> := {};
    assert Consistent(rd, VERIFY_ONLY_WINDOW_SECONDS, now, ring[..0])
      by { NoEntries(rd, VERIFY_ONLY_WINDOW_SECONDS, now); }
    for n := 0 to |ring|
      invariant Consistent(rd, VERIFY_ONLY_WINDOW_SECONDS, now, ring[..n])
      invariant seenKids == Kids(ring[..n]) && active == FindActive(rd, ring[..n])
      invariant verifyOnly == DemotedKeys(rd, ring[..n]) && retiredKids == RetiredKids(ring[..n])
    {
      var e := ring[n];
      NextEntry(rd, VERIFY_ONLY_WINDOW_SECONDS, now, ring, n);
      hide FindActive, DemotedKeys, RetiredKids, Kids;
      if !KidOk(e.kid) { return None; }
      if e.kid in seenKids { return None; }
      seenKids := seenKids + {e.kid};
      if rd.seconds(e.activatedAt).None? { return None; }
      var activatedAt := rd.seconds(e.activatedAt).value;
      if e.state.Active? {
        if e.demotedAt.Some? || e.verifyUntil.Some? || e.retiredAt.Some? { return None; }
        if e.secret.None? || rd.secret(e.secret.value).None? { return None; }
        if active.Some? { return None; }
        active := Some(ActiveKey(e.kid, rd.secret(e.secret.value).value, activatedAt));
        continue;
      }
      if e.state.VerifyOnly? {
        if e.retiredAt.Some? || e.secret.None? || e.demotedAt.None? || e.verifyUntil.None? { return None; }
        if rd.secret(e.secret.value).None? { return None; }
        if rd.seconds(e.demotedAt.value).None? || rd.seconds(e.verifyUntil.value).None? { return None; }
        var demotedAt, verifyUntil := rd.seconds(e.demotedAt.value).value, rd.seconds(e.verifyUntil.value).value;
        if demotedAt <= activatedAt { return None; }
        if verifyUntil != demotedAt + VERIFY_ONLY_WINDOW_SECONDS { return None; }
        if verifyUntil < now { return None; }
        verifyOnly := verifyOnly[e.kid :=
          DemotedKey(e.kid, rd.secret(e.secret.value).value, activatedAt, demotedAt, verifyUntil)];
        continue;
      }
      if e.secret.Some? || e.demotedAt.None? || e.retiredAt.None? || e.verifyUntil.None? { return None; }
      if rd.seconds(e.demotedAt.value).None? || rd.seconds(e.retiredAt.value).None?
        || rd.seconds(e.verifyUntil.value).None? {
        return None;
      }
      var demotedAt, retiredAt, verifyUntil :=
        rd.seconds(e.demotedAt.value).value, rd.seconds(e.retiredAt.value).value, rd.seconds(e.verifyUntil.value).value;
      if !(demotedAt <= retiredAt <= verifyUntil) { return None; }
      retiredKids := retiredKids + {e.kid};
    }
    assert ring[..|ring|] == ring;
    if active.None? || active.value.kid != activeKid { return None; }
    return Some(Config(active.value, verifyOnly, retiredKids));
  }

  datatype ResolvedKey = Unrestricted(active: ActiveKey) | Windowed(demoted: DemotedKey)
  {
    function Secret(): Secret { match this case Unrestricted(k) => k.secret case Windowed(k) => k.secret }

    function ActivatedAt(): int { match this case Unrestricted(k) => k.activatedAt case Windowed(k) => k.activatedAt }
  }

  /** Retired ids never resolve, the active one always does, a demoted one through its cutoff. */
  function ResolveVerificationKey(kid: Text, c: Config, now: int): Option<ResolvedKey> {
    if kid in c.retired then None
    else if kid == c.active.kid then Some(Unrestricted(c.active))
    else if kid !in c.verifyOnly then None
    else if c.verifyOnly[kid].verifyUntil < now then None
    else Some(Windowed(c.verifyOnly[kid]))
  }

  // ---- The wire format ----------------------------------------------------------

  const ISSUER := Units("sangfor-os")

  const AUDIENCE := Units("sangfor-os-runtime")

  const CLAIMS_VERSION := Units("sangfor.user-session/v1")

  datatype Role = Admin | Operator | Viewer

  /** Who and what the session is for. */
  datatype Facts = Facts(
    tenantId: Option<Text>, companyId: Option<Text>, projectId: Option<Text>, projectSlug: Option<Text>,
    personaId: Option<Text>, product: Option<Text>, role: Option<Role>)

  datatype Claims = Claims(
    iss: Text, aud: Text, ver: Text, sub: Text, jti: Text, iat: int, exp: int, nbf: int, facts: Facts)

  predicate Filled(t: Option<Text>) { t == None || t.value != [] }

  /** The claims schema. */
  predicate WellFormedClaims(c: Claims) {
    && c.iss == ISSUER && c.aud == AUDIENCE && c.ver == CLAIMS_VERSION && c.sub != [] && c.jti != []
    && SafeInteger(c.iat) && SafeInteger(c.exp) && SafeInteger(c.nbf)
    && Filled(c.facts.tenantId) && Filled(c.facts.companyId) && Filled(c.facts.projectId) && Filled(c.facts.projectSlug)
    && Filled(c.facts.personaId) && Filled(c.facts.product)
  }

  /** Segment encodings and the keyed hash; the readers say `None` for every malformed segment. */
  datatype Wire = Wire(
    headerText: Text -> Text, header: Text -> Option<Text>,
    claimsText: Claims -> Text, claims: Text -> Option<Claims>,
    bytesText: seq<Byte> -> Text, bytes: Text -> Option<seq<Byte>>,
    mac: (Secret, Text) -> seq<Byte>)
  {
    /** Reading undoes writing, and what is written is a segment. */
    ghost predicate Sound() {
      && (forall kid :: KidOk(kid) ==> IsSegment(headerText(kid)) && header(headerText(kid)) == Some(kid))
      && (forall c :: WellFormedClaims(c) ==> IsSegment(claimsText(c)) && claims(claimsText(c)) == Some(c))
      && (forall s, t :: IsSegment(bytesText(mac(s, t))) && bytes(bytesText(mac(s, t))) == Some(mac(s, t)))
      && (forall t, c :: claims(t) == Some(c) ==> WellFormedClaims(c))
    }
  }

  // ---- Signing --------------------------------------------------------------------

  datatype SignInput = SignInput(sub: Text, jti: Option<Text>, facts: Facts)

  function TrimStart(s: Text): Text { if s != [] && IsJsSpace(s[0]) then TrimStart(s[1..]) else s }

  function TrimEnd(s: Text): Text { if s != [] && IsJsSpace(s[|s| - 1]) then TrimEnd(s[..|s| - 1]) else s }

  function Trim(s: Text): Text { TrimEnd(TrimStart(s)) }

  function Present(t: Option<Text>): Option<Text> { if t == Some([]) then None else t }

  function PresentFacts(f: Facts): Facts {
    Facts(Present(f.tenantId), Present(f.companyId), Present(f.projectId), Present(f.projectSlug),
          Present(f.personaId), Present(f.product), f.role)
  }

  /** The claims a token signed at `now` carries; `drawn` is the identifier made up when none is given. */
  function ClaimsFor(input: SignInput, drawn: Text, now: int): Claims {
    var jti := if input.jti.Some? && Trim(input.jti.value) != [] then Trim(input.jti.value) else drawn;
    Claims(ISSUER, AUDIENCE, CLAIMS_VERSION, Trim(input.sub), jti, now, now + TTL_SECONDS, now,
      PresentFacts(input.facts))
  }

  /** A signed token, or nothing when the subject is blank. */
  function SignSessionJwt(w: Wire, input: SignInput, drawn: Text, c: Config, now: int): Option<Text> {
    if Trim(input.sub) == [] then None
    else
      var signed := Join(w.headerText(c.active.kid), w.claimsText(ClaimsFor(input, drawn, now)));
      Some(Join(signed, w.bytesText(w.mac(c.active.secret, signed))))
  }

  // ---- Verifying ------------------------------------------------------------------

  /** The checks on decoded claims, in the order they are made. */
  predicate ClaimsStand(claims: Claims, key: ResolvedKey, now: int) {
    && claims.iss == ISSUER && claims.aud == AUDIENCE && claims.ver == CLAIMS_VERSION
    && claims.exp == claims.iat + TTL_SECONDS
    && claims.iat <= claims.nbf <= claims.exp
    && key.ActivatedAt() <= claims.iat
    && claims.nbf <= now + CLOCK_SKEW_SECONDS
    && now <= claims.exp + CLOCK_SKEW_SECONDS
    && (key.Windowed? ==> claims.iat < key.demoted.demotedAt && claims.exp <= key.demoted.demotedAt + TTL_SECONDS)
  }

  function VerifySessionJwt(w: Wire, token: Text, c: Config, now: int): Option<Claims> {
    var parts := Split(token);
    if |parts| != 3 || !IsSegment(parts[0]) || !IsSegment(parts[1]) || !IsSegment(parts[2]) then None
    else if w.header(parts[0]).None? then None
    else
      var key := ResolveVerificationKey(w.header(parts[0]).value, c, now);
      if key.None? then None
      else if w.bytes(parts[2]) != Some(w.mac(key.value.Secret(), Join(parts[0], parts[1]))) then None
      else if w.claims(parts[1]).None? then None
      else if !ClaimsStand(w.claims(parts[1]).value, key.value, now) then None
      else w.claims(parts[1])
  }

  /**
   * Whatever verifies is three segments sealed with a key the configuration still honours, was
   * dated while that key was signing, and is no older than its lifetime.
   */
  lemma VerifiedWithinKey(w: Wire, token: Text, c: Config, now: int) returns (kid: Text, secret: Secret)
    requires VerifySessionJwt(w, token, c, now).Some?
    ensures var claims := VerifySessionJwt(w, token, c, now).value; var parts := Split(token);
            && |parts| == 3 && w.header(parts[0]) == Some(kid) && kid !in c.retired
            && w.claims(parts[1]) == Some(claims)
            && w.bytes(parts[2]) == Some(w.mac(secret, Join(parts[0], parts[1])))
            && claims.iss == ISSUER && claims.aud == AUDIENCE && claims.ver == CLAIMS_VERSION
            && claims.exp == claims.iat + TTL_SECONDS && claims.iat <= claims.nbf <= now + CLOCK_SKEW_SECONDS
            && claims.iat - CLOCK_SKEW_SECONDS <= now <= claims.iat + TTL_SECONDS + CLOCK_SKEW_SECONDS
            && if kid == c.active.kid then secret == c.active.secret && c.active.activatedAt <= claims.iat
               else kid in c.verifyOnly && secret == c.verifyOnly[kid].secret
                    && c.verifyOnly[kid].activatedAt <= claims.iat < c.verifyOnly[kid].demotedAt
                    && now <= c.verifyOnly[kid].verifyUntil
  {
    kid := w.header(Split(token)[0]).value;
    secret := ResolveVerificationKey(kid, c, now).value.Secret();
  }

  /**
   * A token signed at `t`, presented at `v` to a configuration in which its key stands as `st`: it
   * verifies to the claims it was signed with exactly within its lifetime, for a key activated by
   * `t` that still signs or was demoted after `t`. The cutoff of a demoted key plays no part.
   */
  lemma IssuedVerifiesExactly(
      w: Wire, input: SignInput, drawn: Text, signer: Config, t: int, c: Config, v: int, st: Standing)
    requires w.Sound() && KidOk(signer.active.kid) && drawn != [] && SafeInteger(t) && SafeInteger(t + TTL_SECONDS)
    requires SignSessionJwt(w, input, drawn, signer, t).Some?
    requires StandsAs(c, signer.active, VERIFY_ONLY_WINDOW_SECONDS, st)
    ensures var live :=
              && signer.active.activatedAt <= t && t - CLOCK_SKEW_SECONDS <= v <= t + TTL_SECONDS + CLOCK_SKEW_SECONDS
              && (st.Signing? || (st.Demoted? && t < st.at));
            VerifySessionJwt(w, SignSessionJwt(w, input, drawn, signer, t).value, c, v) ==
            if live then Some(ClaimsFor(input, drawn, t)) else None
  {
    var kid := signer.active.kid;
    var claims := ClaimsFor(input, drawn, t);
    assert WellFormedClaims(claims);
    var h, p := w.headerText(kid), w.claimsText(claims);
    var s := w.bytesText(w.mac(signer.active.secret, Join(h, p)));
    SplitCompact(h, p, s);
    hide Split, Join, IsSegment, WellFormedClaims, ClaimsFor;
    var key := ResolveVerificationKey(kid, c, v);
    assert key.Some? ==>
        key.value.Secret() == signer.active.secret && key.value.ActivatedAt() == signer.active.activatedAt;
  }

  // ---- What a verified token says of the one it was signed for ------------------------

  /** `out` is `s` without the white space at its ends, and nothing else is missing. */
  ghost predicate Trimmed(out: Text, s: Text) {
    exists i, j :: 0 <= i <= j <= |s| && SliceTrims(out, s, i, j)
  }

  ghost predicate SliceTrims(out: Text, s: Text, i: nat, j: nat)
    requires i <= j <= |s|
  {
    && out == s[i..j] && (forall k :: 0 <= k < i || j <= k < |s| ==> IsJsSpace(s[k]))
    && (i < j ==> !IsJsSpace(s[i]) && !IsJsSpace(s[j - 1]))
  }

  predicate Blank(s: Text) { forall k :: 0 <= k < |s| ==> IsJsSpace(s[k]) }

  lemma {:induction false} TrimStartAt(s: Text) returns (i: nat)
    ensures i <= |s| && TrimStart(s) == s[i..] && (forall k :: 0 <= k < i ==> IsJsSpace(s[k]))
    ensures i < |s| ==> !IsJsSpace(s[i])
    decreases |s|
  {
    i := 0;
    if s != [] && IsJsSpace(s[0]) {
      var n := TrimStartAt(s[1..]);
      i := n + 1;
      assert s[1..][n..] == s[i..];
      forall k | 0 <= k < i ensures IsJsSpace(s[k]) { if k > 0 { assert s[1..][k - 1] == s[k]; } }
    }
  }

  lemma {:induction false} TrimEndAt(s: Text) returns (j: nat)
    ensures j <= |s| && TrimEnd(s) == s[..j] && (forall k :: j <= k < |s| ==> IsJsSpace(s[k]))
    ensures j > 0 ==> !IsJsSpace(s[j - 1])
    decreases |s|
  {
    j := |s|;
    if s != [] && IsJsSpace(s[|s| - 1]) {
      var init := s[..|s| - 1];
      j := TrimEndAt(init);
      assert init[..j] == s[..j];
      forall k | j <= k < |s| ensures IsJsSpace(s[k]) { if k < |s| - 1 { assert init[k] == s[k]; } }
    }
  }

  lemma TrimTrims(s: Text)
    ensures Trimmed(Trim(s), s) && (Trim(s) == [] <==> Blank(s))
  {
    var i := TrimStartAt(s);
    var rest := s[i..];
    var n := TrimEndAt(rest);
    var j := i + n;
    assert Trim(s) == rest[..n] == s[i..j];
    forall k | 0 <= k < i || j <= k < |s| ensures IsJsSpace(s[k]) { if k >= i { assert rest[k - i] == s[k]; } }
    if i < j {
      assert rest[0] == s[i] && rest[n - 1] == s[j - 1];
    }
    assert SliceTrims(Trim(s), s, i, j);
    assert i < j ==> !IsJsSpace(s[i]);
  }

  /** A claim is the fact it was signed for, and is missing only where there was none to sign. */
  predicate Carries(claim: Option<Text>, fact: Option<Text>) {
    if claim.Some? then claim == fact && claim.value != [] else fact == None || fact == Some([])
  }

  lemma SignsUnlessBlank(w: Wire, input: SignInput, drawn: Text, signer: Config, t: int)
    ensures SignSessionJwt(w, input, drawn, signer, t).None? <==> Blank(input.sub)
  {
    TrimTrims(input.sub);
    hide Trim, Trimmed, Blank;
  }

  /**
   * Whatever a signed token verifies to, at any time and under any configuration, says field by
   * field what it was signed for.
   */
  lemma VerifiedSaysWhatWasSigned(
      w: Wire, input: SignInput, drawn: Text, signer: Config, t: int, c: Config, v: int, st: Standing)
    requires w.Sound() && KidOk(signer.active.kid) && drawn != [] && SafeInteger(t) && SafeInteger(t + TTL_SECONDS)
    requires SignSessionJwt(w, input, drawn, signer, t).Some?
    requires StandsAs(c, signer.active, VERIFY_ONLY_WINDOW_SECONDS, st)
    requires VerifySessionJwt(w, SignSessionJwt(w, input, drawn, signer, t).value, c, v).Some?
    ensures var k := VerifySessionJwt(w, SignSessionJwt(w, input, drawn, signer, t).value, c, v).value;
            && k.sub != [] && Trimmed(k.sub, input.sub)
            && (if input.jti.Some? && !Blank(input.jti.value) then Trimmed(k.jti, input.jti.value) else k.jti == drawn)
            && k.iat == t && k.nbf == t && k.exp == t + TTL_SECONDS
            && k.iss == ISSUER && k.aud == AUDIENCE && k.ver == CLAIMS_VERSION
    ensures var f := VerifySessionJwt(w, SignSessionJwt(w, input, drawn, signer, t).value, c, v).value.facts;
            && Carries(f.tenantId, input.facts.tenantId) && Carries(f.companyId, input.facts.companyId)
            && Carries(f.projectId, input.facts.projectId) && Carries(f.projectSlug, input.facts.projectSlug)
            && Carries(f.personaId, input.facts.personaId) && Carries(f.product, input.facts.product)
            && f.role == input.facts.role
  {
    TrimTrims(input.sub);
    if input.jti.Some? { TrimTrims(input.jti.value); }
    hide Trim, Trimmed, Blank, VerifySessionJwt, KidOk, StandsAs;
    IssuedVerifiesExactly(w, input, drawn, signer, t, c, v, st);
  }

  // ---- Rotation -------------------------------------------------------------------

  /**
   * Rotation is invisible to live tokens. Over any schedule of keyrings, a token signed at `t`
   * under keyring `s` and presented at `v` to keyring `i`, in force by then: it verifies to the
   * claims it was signed with exactly if `v` is within its lifetime, its key was activated by `t`
   * and not demoted by `t`, and keyring `i` lists its key. A later keyring that no longer lists it
   * has dropped its tombstone, and by then every token dated before the demotion had run out.
   */
  lemma RotationTransparency(
      w: Wire, rd: Reader, run: seq<Install>, s: nat, i: nat, input: SignInput, drawn: Text, t: int, v: int)
    requires w.Sound() && drawn != [] && SafeInteger(t) && SafeInteger(t + TTL_SECONDS)
    requires Schedule(rd, VERIFY_ONLY_WINDOW_SECONDS, run) && s < |run| && i < |run| && run[i].at <= v
    requires Parses(rd, VERIFY_ONLY_WINDOW_SECONDS, t, run[s].activeKid, run[s].ring)
    requires Parses(rd, VERIFY_ONLY_WINDOW_SECONDS, v, run[i].activeKid, run[i].ring)
    requires SignSessionJwt(w, input, drawn, ConfigOf(rd, run[s].ring), t).Some?
    ensures var key := ConfigOf(rd, run[s].ring).active;
            var live :=
              && key.activatedAt <= t && t - CLOCK_SKEW_SECONDS <= v <= t + TTL_SECONDS + CLOCK_SKEW_SECONDS
              && key.kid in Kids(run[i].ring) && DatedBeforeDemotion(rd, run[i].ring, key.kid, t);
            && (s <= i && key.kid !in Kids(run[i].ring) ==>
                 exists d ::
                   && Buried(rd, VERIFY_ONLY_WINDOW_SECONDS, run, s, i, key.kid, d)
                   && (t < d ==> t + TTL_SECONDS + CLOCK_SKEW_SECONDS < v))
            && VerifySessionJwt(w, SignSessionJwt(w, input, drawn, ConfigOf(rd, run[s].ring), t).value,
                 ConfigOf(rd, run[i].ring), v) ==
               if live then Some(ClaimsFor(input, drawn, t)) else None
  {
    var signer, c := ConfigOf(rd, run[s].ring), ConfigOf(rd, run[i].ring);
    var st := KeyStands(rd, VERIFY_ONLY_WINDOW_SECONDS, run, s, i);
    ActiveKidOk(rd, VERIFY_ONLY_WINDOW_SECONDS, t, run[s].activeKid, run[s].ring);
    DemotionDate(rd, VERIFY_ONLY_WINDOW_SECONDS, v, run[i].activeKid, run[i].ring, signer.active, t, st);
    hide *;
    IssuedVerifiesExactly(w, input, drawn, signer, t, c, v, st);
  }

  // ---- Where rotation does show ------------------------------------------------------

  /** Timestamps written as one code unit. */
  function UnitReader(): Reader {
    Reader((t: Text) => if |t| == 1 then Some(t[0]) else None, (t: Text) => Some(seq(32, i => 0)))
  }

  function ActiveEntry(kid: Text, since: CodeUnit): Entry { Entry(kid, Active, Some([]), [since], None, None, None) }

  const KEY_A: Text := [0x61]

  const KEY_B: Text := [0x62]

  lemma TwoEntries(a: Entry, b: Entry, now: int)
    requires a.kid != b.kid && !a.state.Active? && b.state.Active?
    requires EntryOk(UnitReader(), VERIFY_ONLY_WINDOW_SECONDS, now, a)
             && EntryOk(UnitReader(), VERIFY_ONLY_WINDOW_SECONDS, now, b)
    ensures Parses(UnitReader(), VERIFY_ONLY_WINDOW_SECONDS, now, b.kid, [a, b])
    ensures FindActive(UnitReader(), [a, b]) == Some(ActiveOf(UnitReader(), b)) && Kids([a, b]) == {a.kid, b.kid}
  {
    hide EntryOk;
    assert Last([a, b]) == b;
  }

  lemma OneEntry(b: Entry, now: int)
    requires b.state.Active? && EntryOk(UnitReader(), VERIFY_ONLY_WINDOW_SECONDS, now, b)
    ensures Parses(UnitReader(), VERIFY_ONLY_WINDOW_SECONDS, now, b.kid, [b])
    ensures FindActive(UnitReader(), [b]) == Some(ActiveOf(UnitReader(), b)) && Kids([b]) == {b.kid}
  {
    hide EntryOk;
    assert Last([b]) == b;
  }

  /**
   * Inside the skew allowance but before the rotation: a verifier whose clock is one second behind
   * still holds the keyring without the signing key, and rejects a token it should tolerate.
   */
  lemma KeyNotYetInstalled(w: Wire, input: SignInput, drawn: Text) returns (run: seq<Install>)
    requires w.Sound() && drawn != [] && Trim(input.sub) != []
    ensures |run| == 2 && Schedule(UnitReader(), VERIFY_ONLY_WINDOW_SECONDS, run)
    ensures run[0].at <= 9 < run[1].at == 10
            && Parses(UnitReader(), VERIFY_ONLY_WINDOW_SECONDS, 9, run[0].activeKid, run[0].ring)
    ensures var signer := ConfigOf(UnitReader(), run[1].ring); var token := SignSessionJwt(w, input, drawn, signer, 10);
            signer.active.activatedAt == 10 && token.Some?
              && VerifySessionJwt(w, token.value, ConfigOf(UnitReader(), run[0].ring), 9) == None
  {
    var a := Entry(KEY_A, VerifyOnly, Some([]), [0], Some([10]), Some([28_840]), None);
    var b := ActiveEntry(KEY_B, 10);
    var a0 := ActiveEntry(KEY_A, 0);
    run := [Install([a0], KEY_A, 0), Install([a, b], KEY_B, 10)];
    OneEntry(a0, 0);
    OneEntry(a0, 9);
    TwoEntries(a, b, 10);
    assert Follows(UnitReader(), a0, run[1].ring[0], 10);
    assert Rotation(UnitReader(), [a0], [a, b], 10);
    hide Trim, TrimStart, TrimEnd;
    RotationTransparency(w, UnitReader(), run, 1, 0, input, drawn, 10, 9);
  }

  /**
   * The window is enforced on verify-only entries alone. A keyring may turn the active key straight
   * into a tombstone whose own cutoff is its demotion date, and so cut off a token one second old.
   */
  lemma AbruptRetirementCutsTokens(w: Wire, input: SignInput, drawn: Text)
    returns (before: seq<Entry>, after: seq<Entry>)
    requires w.Sound() && drawn != [] && Trim(input.sub) != []
    ensures Parses(UnitReader(), VERIFY_ONLY_WINDOW_SECONDS, 9, KEY_A, before)
            && Parses(UnitReader(), VERIFY_ONLY_WINDOW_SECONDS, 10, KEY_B, after)
    ensures forall e :: e in after && e.kid == KEY_A ==>
            Seconds(UnitReader(), e.verifyUntil) == Seconds(UnitReader(), e.demotedAt) == 10
    ensures var token := SignSessionJwt(w, input, drawn, ConfigOf(UnitReader(), before), 9);
            token.Some? && VerifySessionJwt(w, token.value, ConfigOf(UnitReader(), before), 10).Some?
            && VerifySessionJwt(w, token.value, ConfigOf(UnitReader(), after), 10) == None
  {
    var a0 := ActiveEntry(KEY_A, 0);
    var tomb := Entry(KEY_A, Retired, None, [0], Some([10]), Some([10]), Some([10]));
    var b := ActiveEntry(KEY_B, 10);
    before, after := [a0], [tomb, b];
    OneEntry(a0, 9);
    TwoEntries(tomb, b, 10);
    Knows(UnitReader(), VERIFY_ONLY_WINDOW_SECONDS, 10, after, 0);
    Knows(UnitReader(), VERIFY_ONLY_WINDOW_SECONDS, 9, before, 0);
    hide Trim, TrimStart, TrimEnd, DemotedKeys;
    var signer, c := ConfigOf(UnitReader(), before), ConfigOf(UnitReader(), after);
    IssuedVerifiesExactly(w, input, drawn, signer, 9, signer, 10, Signing);
    IssuedVerifiesExactly(w, input, drawn, signer, 9, c, 10, Gone(10));
  }
}
