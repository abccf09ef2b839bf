/** Signing keyrings, the configurations they parse to, and how one may follow another in time. */
module Keyring {
  import opened Options
  import opened Numbers
  import opened Text

  type Secret = seq<Byte>

  datatype KeyState = Active | VerifyOnly | Retired

  /** An entry as written: timestamps and the secret are still text. */
  datatype Entry = Entry(
    kid: Text, state: KeyState, secret: Option<Text>, activatedAt: Text,
    demotedAt: Option<Text>, verifyUntil: Option<Text>, retiredAt: Option<Text>)

  /** How timestamps and secrets are read; `None` where the reader throws. */
  datatype Reader = Reader(seconds: Text -> Option<int>, secret: Text -> Option<Secret>)

  datatype ActiveKey = ActiveKey(kid: Text, secret: Secret, activatedAt: int)

  datatype DemotedKey = DemotedKey(kid: Text, secret: Secret, activatedAt: int, demotedAt: int, verifyUntil: int)

  datatype Config = Config(active: ActiveKey, verifyOnly: map<Text, DemotedKey>, retired: set<Text>)

  // ---- One entry ------------------------------------------------------------

  predicate IsAlphaNumeric(c: CodeUnit) { 0x30 <= c <= 0x39 || 0x41 <= c <= 0x5A || 0x61 <= c <= 0x7A }

  /** `[A-Za-z0-9][A-Za-z0-9._-]{0,63}` */
  predicate KidOk(s: Text) {
    && 1 <= |s| <= 64 && IsAlphaNumeric(s[0])
    && forall i :: 0 <= i < |s| ==> IsAlphaNumeric(s[i]) || s[i] == DOT || s[i] == 0x5F || s[i] == MINUS
  }

  predicate HasSeconds(rd: Reader, t: Option<Text>) { t.Some? && rd.seconds(t.value).Some? }

  predicate HasSecret(rd: Reader, t: Option<Text>) { t.Some? && rd.secret(t.value).Some? }

  /** The instant a readable timestamp names. */
  function Seconds(rd: Reader, t: Option<Text>): int {
    if HasSeconds(rd, t) then rd.seconds(t.value).value else 0
  }

  function SecretOf(rd: Reader, t: Option<Text>): Secret {
    if HasSecret(rd, t) then rd.secret(t.value).value else []
  }

  /** What an entry of each state must and must not carry, for a verify-only window of `window` seconds. */
  predicate EntryOk(rd: Reader, window: int, now: int, e: Entry) {
    && KidOk(e.kid) && HasSeconds(rd, Some(e.activatedAt))
    && match e.state
       case Active => HasSecret(rd, e.secret) && e.demotedAt == None && e.verifyUntil == None && e.retiredAt == None
       case VerifyOnly =>
         && HasSecret(rd, e.secret) && HasSeconds(rd, e.demotedAt) && HasSeconds(rd, e.verifyUntil)
         && e.retiredAt == None
         && Seconds(rd, Some(e.activatedAt)) < Seconds(rd, e.demotedAt)
         && Seconds(rd, e.verifyUntil) == Seconds(rd, e.demotedAt) + window && now <= Seconds(rd, e.verifyUntil)
       case Retired =>
         && e.secret == None && HasSeconds(rd, e.demotedAt) && HasSeconds(rd, e.verifyUntil)
         && HasSeconds(rd, e.retiredAt)
         && Seconds(rd, e.demotedAt) <= Seconds(rd, e.retiredAt) <= Seconds(rd, e.verifyUntil)
  }

  function ActiveOf(rd: Reader, e: Entry): ActiveKey {
    ActiveKey(e.kid, SecretOf(rd, e.secret), Seconds(rd, Some(e.activatedAt)))
  }

  function DemotedOf(rd: Reader, e: Entry): DemotedKey {
    DemotedKey(e.kid, SecretOf(rd, e.secret), Seconds(rd, Some(e.activatedAt)), Seconds(rd, e.demotedAt),
      Seconds(rd, e.verifyUntil))
  }

  // ---- A whole keyring --------------------------------------------------------

  function Init(ring: seq<Entry>): seq<Entry>
    requires ring != []
  {
    ring[..|ring| - 1]
  }

  function Last(ring: seq<Entry>): Entry
    requires ring != []
  {
    ring[|ring| - 1]
  }

  function Kids(ring: seq<Entry>): set<Text> { set e | e in ring :: e.kid }

  function RetiredKids(ring: seq<Entry>): set<Text> { set e | e in ring && e.state.Retired? :: e.kid }

  function FindActive(rd: Reader, ring: seq<Entry>): Option<ActiveKey> {
    if ring == [] then None
    else if Last(ring).state.Active? then Some(ActiveOf(rd, Last(ring)))
    else FindActive(rd, Init(ring))
  }

  function DemotedKeys(rd: Reader, ring: seq<Entry>): map<Text, DemotedKey> {
    if ring == [] then map[]
    else if Last(ring).state.VerifyOnly? then DemotedKeys(rd, Init(ring))[Last(ring).kid := DemotedOf(rd, Last(ring))]
    else DemotedKeys(rd, Init(ring))
  }

  /** Every entry is in order, no key id appears twice, and at most one entry is active. */
  ghost predicate Consistent(rd: Reader, window: int, now: int, ring: seq<Entry>) {
    && (forall i :: 0 <= i < |ring| ==> EntryOk(rd, window, now, ring[i]))
    && (forall i, j :: 0 <= i < j < |ring| ==> ring[i].kid != ring[j].kid)
    && (forall i, j :: 0 <= i < j < |ring| ==> !(ring[i].state.Active? && ring[j].state.Active?))
  }

  /** The keyring parses at `now`: consistent, and its one active key is the one the environment names. */
  ghost predicate Parses(rd: Reader, window: int, now: int, activeKid: Text, ring: seq<Entry>) {
    && Consistent(rd, window, now, ring)
    && FindActive(rd, ring).Some? && FindActive(rd, ring).value.kid == activeKid
  }

  function ConfigOf(rd: Reader, ring: seq<Entry>): Config
    requires FindActive(rd, ring).Some?
  {
    Config(FindActive(rd, ring).value, DemotedKeys(rd, ring), RetiredKids(ring))
  }

  lemma {:induction false} FindActiveSome(rd: Reader, ring: seq<Entry>)
    ensures FindActive(rd, ring).Some? <==> exists e :: e in ring && e.state.Active?
  {
    if ring != [] {
      FindActiveSome(rd, Init(ring));
      assert ring == Init(ring) + [Last(ring)];
    }
  }

  /** One more entry, in the order the parsers read them. */
  lemma ConsistentNext(rd: Reader, window: int, now: int, ring: seq<Entry>, e: Entry)
    ensures Consistent(rd, window, now, ring + [e]) <==>
            && Consistent(rd, window, now, ring) && EntryOk(rd, window, now, e) && e.kid !in Kids(ring)
            && (e.state.Active? ==> FindActive(rd, ring).None?)
  {
    hide EntryOk;
    FindActiveSome(rd, ring);
    var more := ring + [e];
    assert more[|ring|] == e;
    assert forall i :: 0 <= i < |ring| ==> more[i] == ring[i];
    if Consistent(rd, window, now, more) {
      forall i | 0 <= i < |ring| ensures EntryOk(rd, window, now, ring[i]) && ring[i].kid != e.kid {
        assert EntryOk(rd, window, now, more[i]);
      }
      assert EntryOk(rd, window, now, more[|ring|]);
    }
  }

  lemma CollectedNext(rd: Reader, ring: seq<Entry>, e: Entry)
    ensures Kids(ring + [e]) == Kids(ring) + {e.kid}
    ensures RetiredKids(ring + [e]) == if e.state.Retired? then RetiredKids(ring) + {e.kid} else RetiredKids(ring)
    ensures FindActive(rd, ring + [e]) == if e.state.Active? then Some(ActiveOf(rd, e)) else FindActive(rd, ring)
    ensures DemotedKeys(rd, ring + [e]) ==
            if e.state.VerifyOnly? then DemotedKeys(rd, ring)[e.kid := DemotedOf(rd, e)] else DemotedKeys(rd, ring)
  {
    var more := ring + [e];
    assert Init(more) == ring && Last(more) == e;
    assert forall x :: x in more <==> x in ring || x == e;
  }

  lemma {:induction false} ConsistentPrefix(rd: Reader, window: int, now: int, ring: seq<Entry>, n: nat)
    requires n <= |ring| && Consistent(rd, window, now, ring)
    ensures Consistent(rd, window, now, ring[..n])
  {
    hide EntryOk;
  }

  lemma NoEntries(rd: Reader, window: int, now: int)
    ensures Consistent(rd, window, now, [])
  {}

  /** One round of the loop: what the prefix becomes, and that a broken prefix breaks the keyring. */
  lemma NextEntry(rd: Reader, window: int, now: int, ring: seq<Entry>, n: nat)
    requires n < |ring|
    ensures var next, done, e := ring[..n + 1], ring[..n], ring[n];
            && (Consistent(rd, window, now, next) <==>
                && Consistent(rd, window, now, done) && EntryOk(rd, window, now, e)
                && e.kid !in Kids(done) && (e.state.Active? ==> FindActive(rd, done).None?))
            && Kids(next) == Kids(done) + {e.kid}
            && RetiredKids(next) == (if e.state.Retired? then RetiredKids(done) + {e.kid} else RetiredKids(done))
            && FindActive(rd, next) == (if e.state.Active? then Some(ActiveOf(rd, e)) else FindActive(rd, done))
            && DemotedKeys(rd, next) ==
                (if e.state.VerifyOnly? then DemotedKeys(rd, done)[e.kid := DemotedOf(rd, e)]
                  else DemotedKeys(rd, done))
            && (!Consistent(rd, window, now, next) ==> !Consistent(rd, window, now, ring))
  {
    assert ring[..n + 1] == ring[..n] + [ring[n]];
    hide Consistent, EntryOk, Kids, FindActive, DemotedKeys, RetiredKids, ActiveOf, DemotedOf;
    ConsistentNext(rd, window, now, ring[..n], ring[n]);
    CollectedNext(rd, ring[..n], ring[n]);
    if Consistent(rd, window, now, ring) {
      ConsistentPrefix(rd, window, now, ring, n + 1);
    }
  }

  /** What the configuration answers for each key id. */
  lemma {:induction false} Knows(rd: Reader, window: int, now: int, ring: seq<Entry>, i: nat)
    requires Consistent(rd, window, now, ring) && i < |ring|
    ensures ring[i].state.Active? ==> FindActive(rd, ring) == Some(ActiveOf(rd, ring[i]))
    ensures !ring[i].state.Active? && FindActive(rd, ring).Some? ==> FindActive(rd, ring).value.kid != ring[i].kid
    ensures ring[i].kid in DemotedKeys(rd, ring) <==> ring[i].state.VerifyOnly?
    ensures ring[i].state.VerifyOnly? ==> DemotedKeys(rd, ring)[ring[i].kid] == DemotedOf(rd, ring[i])
    ensures ring[i].kid in RetiredKids(ring) <==> ring[i].state.Retired?
  {
    hide EntryOk;
    assert ring == Init(ring) + [Last(ring)];
    ConsistentNext(rd, window, now, Init(ring), Last(ring));
    CollectedNext(rd, Init(ring), Last(ring));
    KnowsOnlyKids(rd, Init(ring), Last(ring).kid);
    if i < |ring| - 1 {
      Knows(rd, window, now, Init(ring), i);
      assert ring[i].kid != Last(ring).kid;
      FindActiveSome(rd, Init(ring));
      assert Init(ring)[i] in Init(ring);
    }
  }

  lemma {:induction false} KnowsOnlyKids(rd: Reader, ring: seq<Entry>, kid: Text)
    requires kid !in Kids(ring)
    ensures FindActive(rd, ring).Some? ==> FindActive(rd, ring).value.kid != kid
    ensures kid !in DemotedKeys(rd, ring) && kid !in RetiredKids(ring)
  {
    if ring != [] {
      assert ring == Init(ring) + [Last(ring)];
      CollectedNext(rd, Init(ring), Last(ring));
      KnowsOnlyKids(rd, Init(ring), kid);
    }
  }

  /**
   * What a parsed configuration can be relied on for: three disjoint groups of keys; a demoted key
   * was active before, is not overdue and keeps the whole window; a tombstone holds no secret.
   */
  lemma ParsedInOrder(rd: Reader, window: int, now: int, activeKid: Text, ring: seq<Entry>)
    requires Parses(rd, window, now, activeKid, ring)
    ensures var c := ConfigOf(rd, ring);
            && c.active.kid == activeKid && activeKid !in c.verifyOnly && activeKid !in c.retired
            && forall k :: k in c.verifyOnly ==>
                 && k !in c.retired && c.verifyOnly[k].kid == k
                 && c.verifyOnly[k].activatedAt < c.verifyOnly[k].demotedAt
                 && c.verifyOnly[k].verifyUntil == c.verifyOnly[k].demotedAt + window
                 && now <= c.verifyOnly[k].verifyUntil
    ensures forall e :: e in ring ==>
              && 1 <= |e.kid| <= 64 && rd.seconds(e.activatedAt).Some?
              && (forall u :: u in e.kid ==> IsAlphaNumeric(u) || u == DOT || u == 0x5F || u == MINUS)
              && (e.state.Retired? <==> e.secret == None)
              && (e.state.Retired? <==> e.retiredAt.Some?)
              && (e.state.Active? <==> e.demotedAt == None) && (e.state.Active? <==> e.verifyUntil == None)
              && (e.state.Retired? ==>
                    Seconds(rd, e.demotedAt) <= Seconds(rd, e.retiredAt) <= Seconds(rd, e.verifyUntil))
  {
    var c := ConfigOf(rd, ring);
    var a := ActiveIndex(rd, ring);
    Knows(rd, window, now, ring, a);
    forall k | k in c.verifyOnly
      ensures k !in c.retired && c.verifyOnly[k].kid == k && now <= c.verifyOnly[k].verifyUntil
      ensures c.verifyOnly[k].activatedAt < c.verifyOnly[k].demotedAt
      ensures c.verifyOnly[k].verifyUntil == c.verifyOnly[k].demotedAt + window
    {
      if k !in Kids(ring) { KnowsOnlyKids(rd, ring, k); }
      var e :| e in ring && e.kid == k;
      var j :| 0 <= j < |ring| && ring[j] == e;
      Knows(rd, window, now, ring, j);
      assert EntryOk(rd, window, now, ring[j]);
    }
    forall e | e in ring ensures EntryOk(rd, window, now, e) {
      var j :| 0 <= j < |ring| && ring[j] == e;
    }
  }

  // ---- Rotation schedules -----------------------------------------------------

  /** A keyring, the active key id that goes with it, and the instant they came into force. */
  datatype Install = Install(ring: seq<Entry>, activeKid: Text, at: int)

  /** How far a key has come: active, verify-only, retired. */
  function Rank(s: KeyState): nat { match s case Active => 0 case VerifyOnly => 1 case Retired => 2 }

  /** `e'` is the same key in a keyring that came into force at `at`, one step further at most. */
  predicate Follows(rd: Reader, e: Entry, e': Entry, at: int) {
    && e'.kid == e.kid && Seconds(rd, Some(e'.activatedAt)) == Seconds(rd, Some(e.activatedAt))
    && Rank(e.state) <= Rank(e'.state) <= Rank(e.state) + 1
    && (!e'.state.Retired? ==> SecretOf(rd, e'.secret) == SecretOf(rd, e.secret))
    && (!e.state.Active? ==> Seconds(rd, e'.demotedAt) == Seconds(rd, e.demotedAt))
    && (e.state.VerifyOnly? && e'.state.Retired? ==> Seconds(rd, e.verifyUntil) <= at)
  }

  /** Every key takes an allowed step; only a tombstone may be dropped. */
  ghost predicate Rotation(rd: Reader, before: seq<Entry>, after: seq<Entry>, at: int) {
    forall i :: 0 <= i < |before| ==>
      Continues(rd, before[i], after, at) || (before[i].state.Retired? && before[i].kid !in Kids(after))
  }

  ghost predicate Continues(rd: Reader, e: Entry, after: seq<Entry>, at: int) {
    exists j :: 0 <= j < |after| && Follows(rd, e, after[j], at)
  }

  /** A key id once dropped is not used again. */
  ghost predicate NoReturn(run: seq<Install>) {
    forall i, j, k, kid :: 0 <= i < j < k < |run| && kid in Kids(run[i].ring) && kid in Kids(run[k].ring) ==>
      kid in Kids(run[j].ring)
  }

  /** Every keyring parses when it comes into force, and each follows from the one before. */
  ghost predicate Schedule(rd: Reader, window: int, run: seq<Install>) {
    && (forall i :: 0 <= i < |run| ==> Parses(rd, window, run[i].at, run[i].activeKid, run[i].ring))
    && (forall i :: 0 < i < |run| ==>
         run[i - 1].at <= run[i].at && Rotation(rd, run[i - 1].ring, run[i].ring, run[i].at))
    && NoReturn(run)
  }

  /** What any number of steps keeps: `e'` is the key `e` in a keyring in force from `at`. */
  predicate Descends(rd: Reader, window: int, e: Entry, e': Entry, at: int) {
    && e'.kid == e.kid && Seconds(rd, Some(e'.activatedAt)) == Seconds(rd, Some(e.activatedAt))
    && Rank(e.state) <= Rank(e'.state)
    && (!e'.state.Retired? ==> SecretOf(rd, e'.secret) == SecretOf(rd, e.secret))
    && (!e.state.Active? ==> Seconds(rd, e'.demotedAt) == Seconds(rd, e.demotedAt))
    && (!e.state.Retired? && e'.state.Retired? ==> Seconds(rd, e'.demotedAt) + window <= at)
  }

  /** A key listed again later is the same key, with its facts; retired only after its window closed. */
  lemma {:induction false} KeyAlong(rd: Reader, window: int, run: seq<Install>, s: nat, i: nat, j: nat) returns (k: nat)
    requires Schedule(rd, window, run) && s <= i < |run| && j < |run[s].ring|
    requires run[s].ring[j].kid in Kids(run[i].ring)
    ensures k < |run[i].ring| && Descends(rd, window, run[s].ring[j], run[i].ring[k], run[i].at)
    decreases i
  {
    if s == i {
      k := j;
    } else {
      assert run[s].ring[j] in run[s].ring;
      var m := KeyAlong(rd, window, run, s, i - 1, j);
      assert Rotation(rd, run[i - 1].ring, run[i].ring, run[i].at);
      assert Continues(rd, run[i - 1].ring[m], run[i].ring, run[i].at);
      k :| 0 <= k < |run[i].ring| && Follows(rd, run[i - 1].ring[m], run[i].ring[k], run[i].at);
      assert Parses(rd, window, run[i - 1].at, run[i - 1].activeKid, run[i - 1].ring);
      assert EntryOk(rd, window, run[i - 1].at, run[i - 1].ring[m]);
      assert run[i - 1].at <= run[i].at;
    }
  }

  /** Between keyrings `s` and `i` this key was listed as retired from `d` on, and its window closed before `i`. */
  ghost predicate Buried(rd: Reader, window: int, run: seq<Install>, s: nat, i: nat, kid: Text, d: int)
    requires i < |run|
  {
    exists x, e ::
      && s < x < i && e in run[x].ring && e.kid == kid && e.state.Retired?
      && Seconds(rd, e.demotedAt) == d && d + window <= run[i].at
  }

  /** A signing key that is no longer listed was retired first, for good. */
  lemma {:induction false} KeyDropped(rd: Reader, window: int, run: seq<Install>, s: nat, i: nat, j: nat)
    returns (d: int)
    requires Schedule(rd, window, run) && s <= i < |run| && j < |run[s].ring| && run[s].ring[j].state.Active?
    requires run[s].ring[j].kid !in Kids(run[i].ring)
    ensures Buried(rd, window, run, s, i, run[s].ring[j].kid, d)
    decreases i
  {
    var kid := run[s].ring[j].kid;
    assert run[s].ring[j] in run[s].ring;
    assert run[i - 1].at <= run[i].at && Rotation(rd, run[i - 1].ring, run[i].ring, run[i].at);
    if kid in Kids(run[i - 1].ring) {
      var k := KeyAlong(rd, window, run, s, i - 1, j);
      var e := run[i - 1].ring[k];
      NotContinued(rd, e, run[i].ring, run[i].at);
      assert e in run[i - 1].ring && e.state.Retired?;
      d := Seconds(rd, e.demotedAt);
    } else {
      d := KeyDropped(rd, window, run, s, i - 1, j);
      var x, e :| s < x < i - 1 && e in run[x].ring && e.kid == kid && e.state.Retired? &&
                  Seconds(rd, e.demotedAt) == d && d + window <= run[i - 1].at;
    }
  }

  lemma NotContinued(rd: Reader, e: Entry, after: seq<Entry>, at: int)
    requires e.kid !in Kids(after)
    ensures !Continues(rd, e, after, at)
  {
    forall j | 0 <= j < |after| ensures !Follows(rd, e, after[j], at) { assert after[j].kid in Kids(after); }
  }

  /** Where the key that keyring `s` signs with stands in keyring `i`, earlier or later. */
  datatype Standing = Unknown | Signing | Demoted(at: int) | Gone(demotedAt: int)

  predicate StandsAs(c: Config, key: ActiveKey, window: int, st: Standing) {
    match st
    case Unknown => key.kid != c.active.kid && key.kid !in c.verifyOnly && key.kid !in c.retired
    case Signing => c.active == key && key.kid !in c.retired
    case Demoted(at) =>
      && key.kid != c.active.kid && key.kid !in c.retired && key.kid in c.verifyOnly
      && c.verifyOnly[key.kid] == DemotedKey(key.kid, key.secret, key.activatedAt, at, at + window)
    case Gone(_) => key.kid != c.active.kid && key.kid !in c.verifyOnly && key.kid in c.retired
  }

  /**
   * Over any schedule, at any two of its keyrings: the key that one signs with is in the other
   * still signing, demoted with the same secret and the full window, retired after that window
   * closed, or unknown: if the other came first, or if the key's tombstone has been dropped since.
   */
  lemma KeyStands(rd: Reader, window: int, run: seq<Install>, s: nat, i: nat) returns (st: Standing)
    requires Schedule(rd, window, run) && s < |run| && i < |run|
    ensures FindActive(rd, run[s].ring).Some? && FindActive(rd, run[i].ring).Some?
    ensures StandsAs(ConfigOf(rd, run[i].ring), FindActive(rd, run[s].ring).value, window, st)
    ensures st.Unknown? <==> FindActive(rd, run[s].ring).value.kid !in Kids(run[i].ring)
    ensures st.Unknown? && s <= i ==>
              exists d :: Buried(rd, window, run, s, i, FindActive(rd, run[s].ring).value.kid, d)
    ensures st.Gone? ==> st.demotedAt + window <= run[i].at
    ensures st.Gone? || st.Demoted? ==>
              exists e ::
                && e in run[i].ring && e.kid == FindActive(rd, run[s].ring).value.kid
                && Seconds(rd, e.demotedAt) == if st.Gone? then st.demotedAt else st.at
  {
    var ring, other := run[s].ring, run[i].ring;
    assert Parses(rd, window, run[s].at, run[s].activeKid, ring)
      && Parses(rd, window, run[i].at, run[i].activeKid, other);
    var j := ActiveIndex(rd, ring);
    Knows(rd, window, run[s].at, ring, j);
    var kid := ring[j].kid;
    if kid !in Kids(other) {
      st := Unknown;
      KnowsOnlyKids(rd, other, kid);
      if s <= i { var d := KeyDropped(rd, window, run, s, i, j); }
    } else {
      var k: nat;
      if i < s { k := KeyEarlier(rd, window, run, i, s, j); } else { k := KeyAlong(rd, window, run, s, i, j); }
      Knows(rd, window, run[i].at, other, k);
      assert EntryOk(rd, window, run[i].at, other[k]);
      assert other[k] in other;
      var e := other[k];
      st := match e.state case Active => Signing case VerifyOnly => Demoted(Seconds(rd, e.demotedAt))
        case Retired => Gone(Seconds(rd, e.demotedAt));
    }
  }

  lemma ActiveIndex(rd: Reader, ring: seq<Entry>) returns (j: nat)
    requires FindActive(rd, ring).Some?
    ensures j < |ring| && ring[j].state.Active?
  {
    FindActiveSome(rd, ring);
    var e :| e in ring && e.state.Active?;
    j :| 0 <= j < |ring| && ring[j] == e;
  }

  /** A key that signs now was, in any earlier keyring that lists it, already signing. */
  lemma KeyEarlier(rd: Reader, window: int, run: seq<Install>, i: nat, s: nat, j: nat) returns (k: nat)
    requires Schedule(rd, window, run) && i < s < |run| && j < |run[s].ring| && run[s].ring[j].state.Active?
    requires run[s].ring[j].kid in Kids(run[i].ring)
    ensures k < |run[i].ring| && run[i].ring[k].state.Active?
            && Descends(rd, window, run[i].ring[k], run[s].ring[j], run[s].at)
  {
    var e :| e in run[i].ring && e.kid == run[s].ring[j].kid;
    k :| 0 <= k < |run[i].ring| && run[i].ring[k] == e;
    assert run[s].ring[j] in run[s].ring;
    var m := KeyAlong(rd, window, run, i, s, k);
    assert Parses(rd, window, run[s].at, run[s].activeKid, run[s].ring);
    assert m == j;
  }

  lemma ActiveKidOk(rd: Reader, window: int, now: int, activeKid: Text, ring: seq<Entry>)
    requires Parses(rd, window, now, activeKid, ring)
    ensures KidOk(ConfigOf(rd, ring).active.kid)
  {
    var j := ActiveIndex(rd, ring);
    Knows(rd, window, now, ring, j);
    assert EntryOk(rd, window, now, ring[j]);
  }

  /** No entry for this key in the keyring says it was demoted at or before `t`. */
  ghost predicate DatedBeforeDemotion(rd: Reader, ring: seq<Entry>, kid: Text, t: int) {
    forall e :: e in ring && e.kid == kid && !e.state.Active? ==> t < Seconds(rd, e.demotedAt)
  }

  /** The demotion date a keyring gives a key is the one its standing records. */
  lemma DemotionDate(
      rd: Reader, window: int, now: int, activeKid: Text, ring: seq<Entry>, key: ActiveKey, t: int, st: Standing)
    requires Parses(rd, window, now, activeKid, ring) && StandsAs(ConfigOf(rd, ring), key, window, st)
    requires st.Gone? || st.Demoted? ==>
               exists e ::
                 && e in ring && e.kid == key.kid
                 && Seconds(rd, e.demotedAt) == if st.Gone? then st.demotedAt else st.at
    ensures st.Signing? ==> DatedBeforeDemotion(rd, ring, key.kid, t)
    ensures st.Demoted? ==> (DatedBeforeDemotion(rd, ring, key.kid, t) <==> t < st.at)
    ensures st.Gone? ==> (DatedBeforeDemotion(rd, ring, key.kid, t) <==> t < st.demotedAt)
  {
    forall e | e in ring && e.kid == key.kid
      ensures st.Signing? ==> e.state.Active?
      ensures st.Demoted? || st.Gone? ==> !e.state.Active?
    {
      var j :| 0 <= j < |ring| && ring[j] == e;
      Knows(rd, window, now, ring, j);
    }
    assert forall e, e' :: e in ring && e' in ring && e.kid == e'.kid ==> e == e' by {
      forall e, e' | e in ring && e' in ring && e.kid == e'.kid ensures e == e' {
        var j :| 0 <= j < |ring| && ring[j] == e;
        var j' :| 0 <= j' < |ring| && ring[j'] == e';
        assert j == j';
      }
    }
  }
}
