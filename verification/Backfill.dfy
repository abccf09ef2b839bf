/** The reviewed backfill as transitions on database states: one entry, one request, one apply. */
module Backfill {
  import opened Options
  import opened Sequences
  import opened Text

  type Id = Text

  // ---- Manifest and review file ---------------------------------------------------

  datatype Classification = Resolved | Ambiguous | Unmatched

  datatype Decision = Assign | Quarantine

  datatype ManifestFacts = ManifestFacts(
    sourceId: Id, sourceRowHash: Text, sourceFactsDigest: Text, classification: Classification,
    candidateCompanyIds: seq<Id>)

  datatype ManifestEntry = ManifestEntry(
    facts: ManifestFacts, decision: Option<Decision>, selectedCompanyId: Option<Id>, reviewerKey: Option<Text>,
    rationale: Option<Text>)
  {
    function Id(): Id { facts.sourceId }
  }

  datatype Review = Review(
    reviewerKey: Text, dryRunDigest: Text, entries: seq<ManifestEntry>, roleChangeRequestIds: seq<Id>)

  /** `value.trim().length > 0`. */
  predicate NonBlank(s: Text) {
    exists i :: 0 <= i < |s| && !IsJsSpace(s[i])
  }

  predicate FilledIn(s: Option<Text>) { s.Some? && NonBlank(s.value) }

  predicate DecisionOk(e: ManifestEntry) {
    match e.decision
    case Some(Assign) =>
      e.selectedCompanyId.Some? && e.selectedCompanyId.value != [] && FilledIn(e.reviewerKey) && FilledIn(e.rationale)
    case Some(Quarantine) => e.selectedCompanyId == None
    case None => false
  }

  // ---- Stored values ----------------------------------------------------------------

  datatype ReasonCode =
    | RequesterAmbiguous
    | CompanyAmbiguous
    | RequesterUnmatched
    | CompanyUnmatched
    | ProjectAmbiguous
    | ProjectUnmatched
    | ReviewedApply
    | EmptyDatabase

  /** Columns the script does not interpret travel together in `other`. */
  datatype ProjectRow = ProjectRow(company: Option<Id>, other: Text)

  datatype RequestRow = RequestRow(company: Option<Id>, userId: Id, requestedBy: Text, other: Text)

  datatype Counts = Counts(source: nat, resolved: nat, extracted: int, quarantined: nat, alreadyScoped: nat)

  datatype Conservation = Conservation(before: nat, liveAfter: nat, extracted: int)

  datatype ControlMode = ReviewedApplyMode | EmptyDatabaseMode

  /** The JSON documents that are hashed or stored. */
  datatype Payload =
    | ProjectEnvelope(id: Id, project: ProjectRow)
    | RequestEnvelope(id: Id, request: RequestRow)
    | ProjectFacts(id: Id, tuples: seq<Text>)
    | ProjectCandidates(classification: Classification, candidateCompanyIds: seq<Id>, sourceFacts: Payload)
    | RequestCandidates(
        decision: RoleDecision, targetUserId: Id, targetCompanyIds: seq<Id>, requesterCompanyIds: seq<Id>, sourceId: Id)
    | ManifestDigestInput(projection: seq<ManifestFacts>)
    | Manifest(entries: seq<ManifestEntry>)
    | ControlFacts(entryIds: seq<Id>, requestIds: seq<Id>)
    | ControlSource(mode: ControlMode, reviewDigest: Text, sourceFactsDigest: Text, counts: Counts)
    | ProjectResolution(companyId: Id, tenantId: Id, reviewDigest: Text, sourceFactsDigest: Text)
    | ControlResolution(reviewDigest: Text, sourceFactsDigest: Text, sourceRowHash: Text, conservation: Conservation,
        changedCount: nat)

  datatype SourceModel = ProjectModel | RequestModel | ControlModel

  datatype Key = Key(model: SourceModel, id: Id)

  datatype RowId = Generated | ControlReviewedApply | ControlEmptyDatabase

  /** `resolvedAt`, `resolvedBy` and `resolutionJson`, which are always written together. */
  datatype Resolution = Resolution(resolvedBy: Text, json: Payload)

  datatype QuarantineRow = QuarantineRow(
    rowId: RowId, reasonCode: ReasonCode, sourceRowJson: Payload, sourceRowHash: Text, candidateScopeJson: Payload,
    reviewDigest: Option<Text>, resolution: Option<Resolution>)

  /** The tables an apply may write. */
  datatype Db = Db(projects: map<Id, ProjectRow>, requests: map<Id, RequestRow>, quarantine: map<Key, QuarantineRow>)

  /** Everything an apply reads and never writes: the digest, membership facts and companies. */
  datatype World = World(
    digest: Payload -> Text, projectTuples: Id -> seq<Text>, roleFacts: (Id, Text) -> RoleFacts, tenantOf: map<Id, Id>)

  const CONTROL_KEY: Key := Key(ControlModel, [])

  // ---- Role-change classification -----------------------------------------------------

  datatype RoleFacts = RoleFacts(
    idUserIds: seq<Id>, emailUserIds: seq<Id>, targetUserExists: bool,
    requesterCompanyIds: seq<Id>, targetCompanyIds: seq<Id>, missingParentFacts: bool)

  datatype RoleDecision = RoleDecision(
    classification: Classification, reasonCode: Option<ReasonCode>, selectedUserId: Option<Id>,
    candidateCompanyIds: seq<Id>)

  /** Inserts into an ascending list, dropping an id already there. */
  function InsertStable(x: Id, ids: seq<Id>): seq<Id> {
    if ids == [] || Before(x, ids[0]) then [x] + ids
    else if x == ids[0] then ids
    else [ids[0]] + InsertStable(x, ids[1..])
  }

  /** `[...new Set(ids)].sort()`. */
  function SortStableIds(ids: seq<Id>): seq<Id> {
    if ids == [] then [] else InsertStable(ids[0], SortStableIds(ids[1..]))
  }

  lemma {:induction false} InsertStableResult(x: Id, ids: seq<Id>)
    requires Ascending(ids)
    ensures Ascending(InsertStable(x, ids))
    ensures forall k :: k in InsertStable(x, ids) <==> k == x || k in ids
  {
    if ids == [] || x == ids[0] {
    } else if Before(x, ids[0]) {
      var r := [x] + ids;
      forall i, j | 0 <= i < j < |r| ensures Before(r[i], r[j]) {
        if i == 0 && j > 1 { BeforeTransitive(x, ids[0], ids[j - 1]); }
      }
    } else {
      BeforeTotal(x, ids[0]);
      assert Ascending(ids[1..]);
      InsertStableResult(x, ids[1..]);
      var tail := InsertStable(x, ids[1..]);
      var r := [ids[0]] + tail;
      forall i, j | 0 <= i < j < |r| ensures Before(r[i], r[j]) {
        if i == 0 {
          assert tail[j - 1] in tail;
          if tail[j - 1] != x {
            var k :| 0 <= k < |ids[1..]| && ids[1..][k] == tail[j - 1];
            assert Before(ids[0], ids[k + 1]);
          }
        }
      }
    }
  }

  /** The stable sort enumerates the set of ids in code-unit order. */
  lemma {:induction false} SortStableIsSorted(ids: seq<Id>)
    ensures Ascending(SortStableIds(ids))
    ensures forall k :: k in SortStableIds(ids) <==> k in ids
  {
    if ids != [] {
      SortStableIsSorted(ids[1..]);
      InsertStableResult(ids[0], SortStableIds(ids[1..]));
    }
  }

  function Filter(ids: seq<Id>, keep: seq<Id>): seq<Id> {
    if ids == [] then [] else (if ids[0] in keep then [ids[0]] else []) + Filter(ids[1..], keep)
  }

  lemma {:induction false} FilterMembers(ids: seq<Id>, keep: seq<Id>)
    ensures forall k :: k in Filter(ids, keep) <==> k in ids && k in keep
  {
    if ids != [] { FilterMembers(ids[1..], keep); }
  }

  datatype RequesterMatch = RequesterMatch(selectedUserId: Option<Id>, crossKeyConflict: bool)

  /** The id key wins; the email key counts only when it is empty; disagreement is a conflict. */
  function MatchRequester(idUserIds: seq<Id>, emailUserIds: seq<Id>): RequesterMatch {
    var ids, emails := SortStableIds(idUserIds), SortStableIds(emailUserIds);
    if ids != [] && emails != [] then
      if |SortStableIds(ids + emails)| > 1 then RequesterMatch(None, true) else RequesterMatch(Some(ids[0]), false)
    else if ids != [] then RequesterMatch(Some(ids[0]), false)
    else if emails != [] then RequesterMatch(Some(emails[0]), false)
    else RequesterMatch(None, false)
  }

  function ClassifyRoleChange(f: RoleFacts): RoleDecision {
    var m := MatchRequester(f.idUserIds, f.emailUserIds);
    if m.crossKeyConflict || f.missingParentFacts
      then RoleDecision(Ambiguous, Some(RequesterAmbiguous), m.selectedUserId, [])
    else
      var candidates := SortStableIds(Filter(f.requesterCompanyIds, f.targetCompanyIds));
      if |candidates| > 1 then RoleDecision(Ambiguous, Some(CompanyAmbiguous), m.selectedUserId, candidates)
      else if (f.idUserIds == [] && f.emailUserIds == []) || !f.targetUserExists || m.selectedUserId.None?
              || f.requesterCompanyIds == [] || f.targetCompanyIds == [] then
        RoleDecision(Unmatched, Some(RequesterUnmatched), m.selectedUserId, [])
      else if candidates == [] then RoleDecision(Unmatched, Some(CompanyUnmatched), m.selectedUserId, [])
      else RoleDecision(Resolved, None, m.selectedUserId, candidates)
  }

  /** `c` is the one company requester and target share. */
  ghost predicate OnlyShared(f: RoleFacts, c: Id) {
    forall k :: k in f.requesterCompanyIds && k in f.targetCompanyIds <==> k == c
  }

  /** The candidate list is exactly the shared companies. */
  lemma CandidatesShared(f: RoleFacts)
    ensures var cs := SortStableIds(Filter(f.requesterCompanyIds, f.targetCompanyIds));
            && (forall k :: k in cs <==> k in f.requesterCompanyIds && k in f.targetCompanyIds)
            && (|cs| == 1 ==> OnlyShared(f, cs[0]))
            && forall c :: OnlyShared(f, c) ==> cs == [c]
  {
    hide SortStableIds, Filter;
    FilterMembers(f.requesterCompanyIds, f.targetCompanyIds);
    SortStableIsSorted(Filter(f.requesterCompanyIds, f.targetCompanyIds));
    var cs := SortStableIds(Filter(f.requesterCompanyIds, f.targetCompanyIds));
    if |cs| == 1 { assert cs[0] in cs; }
    forall c | OnlyShared(f, c) ensures cs == [c] { SingletonList(cs, c); }
  }

  /** The two keys, both given, do not agree on one user. */
  ghost predicate Conflicting(f: RoleFacts) {
    && f.idUserIds != [] && f.emailUserIds != []
    && exists j, k :: j != k && (j in f.idUserIds || j in f.emailUserIds) && (k in f.idUserIds || k in f.emailUserIds)
  }

  /** The keys name this user: the id key if it is given, the email key otherwise, the least if it has several. */
  ghost predicate Names(f: RoleFacts, u: Id) {
    var key := if f.idUserIds != [] then f.idUserIds else f.emailUserIds;
    !Conflicting(f) && u in key && forall k :: k in key ==> k == u || Before(u, k)
  }

  lemma MatchExactly(f: RoleFacts)
    ensures var m := MatchRequester(f.idUserIds, f.emailUserIds);
            && (m.crossKeyConflict <==> Conflicting(f)) && (forall u :: m.selectedUserId == Some(u) <==> Names(f, u))
            && (m.selectedUserId.Some? <==> !Conflicting(f) && (f.idUserIds != [] || f.emailUserIds != []))
  {
    hide SortStableIds, Before, Ascending, Conflicting, MatchRequester;
    MatchUnfold(f.idUserIds, f.emailUserIds);
    ConflictSeen(f);
    LeastOf(f.idUserIds);
    LeastOf(f.emailUserIds);
    var m := MatchRequester(f.idUserIds, f.emailUserIds);
    forall u ensures m.selectedUserId == Some(u) <==> Names(f, u) {}
  }

  lemma MatchUnfold(idUserIds: seq<Id>, emailUserIds: seq<Id>)
    ensures var ids, emails := SortStableIds(idUserIds), SortStableIds(emailUserIds);
            var key := if ids != [] then ids else emails;
            var conflict := ids != [] && emails != [] && |SortStableIds(ids + emails)| > 1;
            MatchRequester(idUserIds, emailUserIds) ==
              RequesterMatch(if conflict || key == [] then None else Some(key[0]), conflict)
  {
    hide SortStableIds;
  }

  /** The union of two keys in order has several members exactly if the keys, both given, conflict. */
  lemma ConflictSeen(f: RoleFacts)
    ensures var ids, emails := SortStableIds(f.idUserIds), SortStableIds(f.emailUserIds);
            ids != [] && emails != [] && |SortStableIds(ids + emails)| > 1 <==> Conflicting(f)
  {
    hide SortStableIds, Before, Ascending;
    var ids, emails := SortStableIds(f.idUserIds), SortStableIds(f.emailUserIds);
    var both := SortStableIds(ids + emails);
    SortStableIsSorted(f.idUserIds);
    SortStableIsSorted(f.emailUserIds);
    SortStableIsSorted(ids + emails);
    SeveralIn(both);
    SameEmptiness(ids, f.idUserIds);
    SameEmptiness(emails, f.emailUserIds);
    assert forall k :: k in both <==> k in f.idUserIds || k in f.emailUserIds;
  }

  /** The first of a key's ids in order is the least of them. */
  lemma LeastOf(key: seq<Id>)
    ensures SortStableIds(key) == [] <==> key == []
    ensures key != [] ==>
              forall u :: u == SortStableIds(key)[0] <==> u in key && forall k :: k in key ==> k == u || Before(u, k)
  {
    hide SortStableIds, Before, Ascending;
    SortStableIsSorted(key);
    SameEmptiness(SortStableIds(key), key);
    LeastFirst(SortStableIds(key));
  }

  lemma SameEmptiness(xs: seq<Id>, ys: seq<Id>)
    requires forall k :: k in xs <==> k in ys
    ensures xs == [] <==> ys == []
  {
    if xs != [] { assert xs[0] in ys; }
    if ys != [] { assert ys[0] in xs; }
  }

  lemma LeastFirst(xs: seq<Id>)
    requires Ascending(xs)
    ensures xs != [] ==> forall u :: u == xs[0] <==> u in xs && forall k :: k in xs ==> k == u || Before(u, k)
  {
    if xs != [] {
      forall u | u in xs && u != xs[0] ensures Before(xs[0], u) && !Before(u, xs[0]) {
        var i :| 0 <= i < |xs| && xs[i] == u;
        if Before(u, xs[0]) {
          BeforeTransitive(u, xs[0], u);
          BeforeStrict(u, u);
        }
      }
      assert xs[0] in xs;
    }
  }

  lemma SeveralIn(xs: seq<Id>)
    requires Ascending(xs)
    ensures |xs| > 1 <==> exists j, k :: j != k && j in xs && k in xs
  {
    if |xs| > 1 {
      assert Before(xs[0], xs[1]);
      BeforeStrict(xs[0], xs[1]);
      assert xs[0] in xs && xs[1] in xs;
    }
  }

  /** Two different companies are shared. */
  ghost predicate SeveralShared(f: RoleFacts) {
    exists j, k :: j != k && Shares(f, j) && Shares(f, k)
  }

  predicate Shares(f: RoleFacts, k: Id) { k in f.requesterCompanyIds && k in f.targetCompanyIds }

  /** The requester, the target and their memberships are all there. */
  predicate AllPresent(f: RoleFacts) {
    && (f.idUserIds != [] || f.emailUserIds != []) && f.targetUserExists
    && f.requesterCompanyIds != [] && f.targetCompanyIds != []
  }

  /** Each reason is given exactly under its own conditions, in this order. */
  lemma ClassifiedExactly(f: RoleFacts)
    ensures var d := ClassifyRoleChange(f);
            && (d.reasonCode == Some(RequesterAmbiguous) <==> Conflicting(f) || f.missingParentFacts)
            && (d.reasonCode == Some(CompanyAmbiguous) <==>
                  !Conflicting(f) && !f.missingParentFacts && SeveralShared(f))
            && (d.reasonCode == Some(RequesterUnmatched) <==>
                  !Conflicting(f) && !f.missingParentFacts && !SeveralShared(f) && !AllPresent(f))
            && (d.reasonCode == Some(CompanyUnmatched) <==>
                  !Conflicting(f) && !f.missingParentFacts && AllPresent(f) && forall k :: !Shares(f, k))
            && (d.classification == Resolved <==> d.reasonCode == None)
            && (d.classification == Ambiguous <==>
                  d.reasonCode == Some(RequesterAmbiguous) || d.reasonCode == Some(CompanyAmbiguous))
    ensures var d := ClassifyRoleChange(f);
            && (forall u :: d.selectedUserId == Some(u) <==> Names(f, u))
            && Ascending(d.candidateCompanyIds)
            && forall k :: k in d.candidateCompanyIds <==>
                 Shares(f, k) && (d.classification == Resolved || d.reasonCode == Some(CompanyAmbiguous))
  {
    hide SortStableIds, Filter, MatchRequester, Conflicting, Names;
    var cs := SortStableIds(Filter(f.requesterCompanyIds, f.targetCompanyIds));
    MatchExactly(f);
    CandidatesShared(f);
    SortStableIsSorted(Filter(f.requesterCompanyIds, f.targetCompanyIds));
    SeveralIn(cs);
    assert forall k :: k in cs <==> Shares(f, k);
    if cs == [] { assert forall k :: !Shares(f, k); } else { assert cs[0] in cs; }
    assert SeveralShared(f) <==> |cs| > 1;
  }

  /**
   * A request is resolved exactly when the keys do not conflict, no parent is missing, everyone is
   * there, and requester and target share exactly one company, which is the one chosen.
   */
  lemma ResolvedExactly(f: RoleFacts)
    ensures ClassifyRoleChange(f).classification == Resolved <==>
              && !Conflicting(f) && (f.idUserIds != [] || f.emailUserIds != [])
              && !f.missingParentFacts && f.targetUserExists && exists c :: OnlyShared(f, c)
    ensures var d := ClassifyRoleChange(f);
            d.classification == Resolved ==> |d.candidateCompanyIds| == 1 && OnlyShared(f, d.candidateCompanyIds[0])
    ensures var d := ClassifyRoleChange(f); d.classification != Resolved <==> d.reasonCode.Some?
  {
    hide SortStableIds, Filter, MatchRequester, OnlyShared, Conflicting;
    CandidatesShared(f);
    MatchExactly(f);
    if exists c :: OnlyShared(f, c) {
      var c :| OnlyShared(f, c);
      SharedIn(f, c);
    }
  }

  lemma SharedIn(f: RoleFacts, c: Id)
    requires OnlyShared(f, c)
    ensures c in f.requesterCompanyIds && c in f.targetCompanyIds
  {}

  lemma SingletonList(xs: seq<Id>, c: Id)
    requires Ascending(xs) && forall k :: k in xs <==> k == c
    ensures xs == [c]
  {
    assert c in xs;
    assert forall i :: 0 <= i < |xs| ==> xs[i] in xs;
    if |xs| > 1 {
      assert Before(xs[0], xs[1]);
      BeforeStrict(xs[0], xs[1]);
    }
  }

  // ---- Manifest digest ----------------------------------------------------------------

  function InsertFacts(x: ManifestFacts, fs: seq<ManifestFacts>): seq<ManifestFacts> {
    if fs == [] || !Before(fs[0].sourceId, x.sourceId) then [x] + fs else [fs[0]] + InsertFacts(x, fs[1..])
  }

  /** Objective facts only, sorted by id: what the manifest digest covers. */
  function Projection(entries: seq<ManifestEntry>): seq<ManifestFacts> {
    if entries == [] then []
    else
      var f := entries[0].facts;
      InsertFacts(f.(candidateCompanyIds := SortStableIds(f.candidateCompanyIds)), Projection(entries[1..]))
  }

  function ManifestDigest(w: World, entries: seq<ManifestEntry>): Text {
    w.digest(ManifestDigestInput(Projection(entries)))
  }

  function EntryIds(entries: seq<ManifestEntry>): (ids: seq<Id>)
    ensures |ids| == |entries|
    ensures forall i :: 0 <= i < |ids| ==> ids[i] == entries[i].Id()
  {
    if entries == [] then [] else [entries[0].Id()] + EntryIds(entries[1..])
  }

  // ---- One manifest entry -----------------------------------------------------------------

  datatype Failure =
    | BadReviewFile
    | InvalidDecision
    | StaleManifestDigest
    | CasFailed
    | MissingExtractionRecord
    | HashVerifyFailed
    | ExtractionFailed
    | ControlRowConflict
    | ControlHashMismatch
    | ControlDigestMismatch
    | Unexpected

  datatype Attempt<+T> = Committed(value: T) | Thrown(failure: Failure)

  datatype ProjectKind = Missing | AlreadyConsistent | StaleManifest | AlreadyQuarantined | Quarantined | Assigned
    | Conflict

  datatype ProjectOutcome = ProjectOutcome(sourceId: Id, kind: ProjectKind, company: Option<Id>)

  datatype ProjectStep = ProjectStep(db: Db, outcome: ProjectOutcome)

  /** Who signs off the review, and the digest of the manifest being applied. */
  datatype Context = Context(reviewerKey: Text, selfDigest: Text)

  function RowHash(w: World, id: Id, p: ProjectRow): Text { w.digest(ProjectEnvelope(id, p)) }

  function FactsDigest(w: World, id: Id): Text { w.digest(ProjectFacts(id, w.projectTuples(id))) }

  /** The row or its membership facts differ from what was reviewed. */
  predicate Drifted(w: World, db: Db, e: ManifestEntry)
    requires e.Id() in db.projects
  {
    RowHash(w, e.Id(), db.projects[e.Id()]) != e.facts.sourceRowHash
      || FactsDigest(w, e.Id()) != e.facts.sourceFactsDigest
  }

  function ProjectReason(e: ManifestEntry): ReasonCode {
    if e.facts.classification == Ambiguous then ProjectAmbiguous else ProjectUnmatched
  }

  function ProjectCandidateJson(w: World, e: ManifestEntry): Payload {
    ProjectCandidates(e.facts.classification, e.facts.candidateCompanyIds,
      ProjectFacts(e.Id(), w.projectTuples(e.Id())))
  }

  function ProjectKey(id: Id): Key { Key(ProjectModel, id) }

  function RequestKey(id: Id): Key { Key(RequestModel, id) }

  /** `upsert`: an existing row keeps the columns the update does not name. */
  function Upsert(
      q: map<Key, QuarantineRow>, k: Key, reason: ReasonCode, source: Payload, hash: Text,
      candidates: Payload): map<Key, QuarantineRow> {
    q[k := if k in q
           then q[k].(reasonCode := reason, sourceRowJson := source, sourceRowHash := hash,
             candidateScopeJson := candidates)
           else QuarantineRow(Generated, reason, source, hash, candidates, None, None)]
  }

  predicate IdenticalQuarantine(w: World, db: Db, e: ManifestEntry)
    requires e.Id() in db.projects
  {
    var k := ProjectKey(e.Id());
    && k in db.quarantine
    && db.quarantine[k].reasonCode == ProjectReason(e)
    && db.quarantine[k].sourceRowHash == RowHash(w, e.Id(), db.projects[e.Id()])
    && db.quarantine[k].candidateScopeJson == ProjectCandidateJson(w, e)
  }

  function QuarantineProject(w: World, db: Db, e: ManifestEntry): Attempt<ProjectStep>
    requires e.Id() in db.projects
  {
    var id := e.Id();
    if e.facts.classification == Resolved then Thrown(Unexpected)
    else if IdenticalQuarantine(w, db, e) then Committed(ProjectStep(db, ProjectOutcome(id, AlreadyQuarantined, None)))
    else
      var live := db.projects[id];
      var q := Upsert(db.quarantine, ProjectKey(id), ProjectReason(e), ProjectEnvelope(id, live), RowHash(w, id, live),
        ProjectCandidateJson(w, e));
      Committed(ProjectStep(db.(quarantine := q), ProjectOutcome(id, Quarantined, None)))
  }

  function AssignProject(w: World, ctx: Context, db: Db, e: ManifestEntry): Attempt<ProjectStep>
    requires e.Id() in db.projects && e.selectedCompanyId.Some?
  {
    var id, c := e.Id(), e.selectedCompanyId.value;
    var live := db.projects[id];
    if live.company == Some(c) then Committed(ProjectStep(db, ProjectOutcome(id, AlreadyConsistent, live.company)))
    else if live.company.Some? then Committed(ProjectStep(db, ProjectOutcome(id, Conflict, live.company)))
    else if c !in w.tenantOf then Thrown(BadReviewFile)
    else
      var json := ProjectResolution(c, w.tenantOf[c], ctx.selfDigest, e.facts.sourceFactsDigest);
      var k := ProjectKey(id);
      var q := if k in db.quarantine
               then db.quarantine[k := db.quarantine[k].(resolution := Some(Resolution(ctx.reviewerKey, json)))]
               else db.quarantine;
      Committed(ProjectStep(db.(projects := db.projects[id := live.(company := Some(c))], quarantine := q),
        ProjectOutcome(id, Assigned, Some(c))))
  }

  function StepProject(w: World, ctx: Context, db: Db, e: ManifestEntry): Attempt<ProjectStep> {
    var id := e.Id();
    if id !in db.projects then Committed(ProjectStep(db, ProjectOutcome(id, Missing, None)))
    else
      var live := db.projects[id];
      if e.decision == Some(Assign) && live.company.Some? && live.company == e.selectedCompanyId then
        Committed(ProjectStep(db, ProjectOutcome(id, AlreadyConsistent, live.company)))
      else if Drifted(w, db, e) then Committed(ProjectStep(db, ProjectOutcome(id, StaleManifest, live.company)))
      else if e.decision == Some(Quarantine) then QuarantineProject(w, db, e)
      else if e.decision != Some(Assign) || e.selectedCompanyId.None? then Thrown(BadReviewFile)
      else AssignProject(w, ctx, db, e)
  }

  datatype ProjectRun = ProjectRun(db: Db, outcomes: seq<ProjectOutcome>)

  function ApplyProjects(w: World, ctx: Context, run: ProjectRun, entries: seq<ManifestEntry>): Attempt<ProjectRun>
    decreases entries
  {
    if entries == [] then Committed(run)
    else
      match StepProject(w, ctx, run.db, entries[0])
      case Thrown(f) => Thrown(f)
      case Committed(s) => ApplyProjects(w, ctx, ProjectRun(s.db, run.outcomes + [s.outcome]), entries[1..])
  }

  // ---- One role-change request --------------------------------------------------------------

  datatype RequestKind = RequestResolved | RequestExtracted | AlreadyResolved | AlreadyExtracted

  datatype RequestOutcome = RequestOutcome(sourceId: Id, kind: RequestKind, company: Option<Id>)

  datatype RequestStep = RequestStep(db: Db, outcome: RequestOutcome)

  function RequestDecision(w: World, r: RequestRow): RoleDecision {
    ClassifyRoleChange(w.roleFacts(r.userId, r.requestedBy))
  }

  function RequestCandidateJson(w: World, id: Id, r: RequestRow): Payload {
    var facts := w.roleFacts(r.userId, r.requestedBy);
    RequestCandidates(ClassifyRoleChange(facts), r.userId, SortStableIds(facts.targetCompanyIds),
                      SortStableIds(facts.requesterCompanyIds), id)
  }

  /** Snapshot into quarantine, then delete the live row. */
  function ExtractRequest(w: World, db: Db, id: Id): Db
    requires id in db.requests
  {
    var r := db.requests[id];
    var d := RequestDecision(w, r);
    var reason := if d.reasonCode.Some? then d.reasonCode.value else RequesterUnmatched;
    var q := Upsert(db.quarantine, RequestKey(id), reason, RequestEnvelope(id, r), w.digest(RequestEnvelope(id, r)),
                    RequestCandidateJson(w, id, r));
    Db(db.projects, db.requests - {id}, q)
  }

  function StepRequest(w: World, db: Db, id: Id): Attempt<RequestStep> {
    if id !in db.requests then
      if RequestKey(id) !in db.quarantine then Thrown(MissingExtractionRecord)
      else Committed(RequestStep(db, RequestOutcome(id, AlreadyExtracted, None)))
    else
      var r := db.requests[id];
      if r.company.Some? then Committed(RequestStep(db, RequestOutcome(id, AlreadyResolved, r.company)))
      else
        var d := RequestDecision(w, r);
        if d.classification == Resolved then
          ResolvedExactly(w.roleFacts(r.userId, r.requestedBy));
          var c := d.candidateCompanyIds[0];
          Committed(RequestStep(db.(requests := db.requests[id := r.(company := Some(c))]),
            RequestOutcome(id, RequestResolved, Some(c))))
        else Committed(RequestStep(ExtractRequest(w, db, id), RequestOutcome(id, RequestExtracted, None)))
  }

  datatype RequestRun = RequestRun(db: Db, outcomes: seq<RequestOutcome>)

  function ApplyRequests(w: World, run: RequestRun, ids: seq<Id>): Attempt<RequestRun>
    decreases ids
  {
    if ids == [] then Committed(run)
    else
      match StepRequest(w, run.db, ids[0])
      case Thrown(f) => Thrown(f)
      case Committed(s) => ApplyRequests(w, RequestRun(s.db, run.outcomes + [s.outcome]), ids[1..])
  }

  // ---- Counts and the control row -------------------------------------------------------------

  function ProjectChanges(os: seq<ProjectOutcome>): nat {
    if os == [] then 0
    else ProjectChanges(os[..|os| - 1]) +
         if os[|os| - 1].kind == Assigned || os[|os| - 1].kind == Quarantined then 1 else 0
  }

  function RequestChanges(os: seq<RequestOutcome>): nat {
    if os == [] then 0
    else RequestChanges(os[..|os| - 1]) +
         if os[|os| - 1].kind == RequestResolved || os[|os| - 1].kind == RequestExtracted then 1 else 0
  }

  lemma ProjectChangesNext(os: seq<ProjectOutcome>, o: ProjectOutcome)
    ensures ProjectChanges(os + [o]) == ProjectChanges(os) +
            if o.kind == Assigned || o.kind == Quarantined then 1 else 0
  {
    assert (os + [o])[..|os|] == os;
  }

  lemma RequestChangesNext(os: seq<RequestOutcome>, o: RequestOutcome)
    ensures RequestChanges(os + [o]) == RequestChanges(os) +
            if o.kind == RequestResolved || o.kind == RequestExtracted then 1 else 0
  {
    assert (os + [o])[..|os|] == os;
  }

  function CountDecisions(entries: seq<ManifestEntry>, d: Decision): nat {
    if entries == [] then 0 else (if entries[0].decision == Some(d) then 1 else 0) + CountDecisions(entries[1..], d)
  }

  /** `count(*) ... WHERE id = ANY(ids)`. */
  function LiveAmong(db: Db, ids: seq<Id>): nat { |set id | id in db.requests && id in ids| }

  datatype ControlOutcome = Insert | IdenticalNoop

  datatype Report = Report(
    reviewDigest: Text, counts: Counts, conservation: Conservation, changedCount: nat, controlOutcome: ControlOutcome,
    controlSourceRowHash: Text, projectOutcomes: seq<ProjectOutcome>, requestOutcomes: seq<RequestOutcome>)

  function ConservationOf(db: Db, ids: seq<Id>): Conservation {
    Conservation(|ids|, LiveAmong(db, ids), |ids| - LiveAmong(db, ids))
  }

  function CountsOf(review: Review, c: Conservation): Counts {
    Counts(|review.entries| + c.before, CountDecisions(review.entries, Assign) + c.liveAfter, c.extracted,
           CountDecisions(review.entries, Quarantine), 0)
  }

  function ControlFactsDigest(w: World, review: Review): Text {
    w.digest(ControlFacts(SortTexts(EntryIds(review.entries)), SortTexts(review.roleChangeRequestIds)))
  }

  function ControlSourceOf(w: World, review: Review, selfDigest: Text, db: Db): Payload {
    ControlSource(ReviewedApplyMode, selfDigest, ControlFactsDigest(w, review),
                  CountsOf(review, ConservationOf(db, SortTexts(review.roleChangeRequestIds))))
  }

  function ControlRowOf(w: World, review: Review, selfDigest: Text, db: Db, changed: nat): QuarantineRow {
    var source := ControlSourceOf(w, review, selfDigest, db);
    var conservation := ConservationOf(db, SortTexts(review.roleChangeRequestIds));
    var resolution :=
      ControlResolution(selfDigest, ControlFactsDigest(w, review), w.digest(source), conservation, changed);
    QuarantineRow(ControlReviewedApply, ReviewedApply, source, w.digest(source), Manifest(review.entries),
                  Some(selfDigest), Some(Resolution(review.reviewerKey, resolution)))
  }

  datatype ControlStep = ControlStep(db: Db, outcome: ControlOutcome, hash: Text)

  /** Insert the control row, recognise an identical one, or refuse to overwrite a different one. */
  function StepControl(w: World, review: Review, selfDigest: Text, db: Db, changed: nat): Attempt<ControlStep> {
    var row := ControlRowOf(w, review, selfDigest, db, changed);
    if CONTROL_KEY !in db.quarantine then
      Committed(ControlStep(db.(quarantine := db.quarantine[CONTROL_KEY := row]), Insert, row.sourceRowHash))
    else
      var found := db.quarantine[CONTROL_KEY];
      if found.reasonCode == row.reasonCode && found.sourceRowJson == row.sourceRowJson
        && found.candidateScopeJson == row.candidateScopeJson then
        if w.digest(found.sourceRowJson) != found.sourceRowHash then Thrown(ControlHashMismatch)
        else Committed(ControlStep(db, IdenticalNoop, found.sourceRowHash))
      else Thrown(ControlRowConflict)
  }

  // ---- One apply ---------------------------------------------------------------------------------

  predicate ReviewLoads(review: Review) { NonBlank(review.reviewerKey) && review.dryRunDigest != [] }

  predicate AllDecisionsOk(entries: seq<ManifestEntry>) { forall i :: 0 <= i < |entries| ==> DecisionOk(entries[i]) }

  datatype Applied = Applied(db: Db, report: Report)

  /** One `APPLY=1` run: the whole new state and report, or the failure that rolled it back. */
  function Apply(w: World, db: Db, review: Review): Attempt<Applied> {
    var selfDigest := ManifestDigest(w, review.entries);
    var ids := SortTexts(review.roleChangeRequestIds);
    if !ReviewLoads(review) then Thrown(BadReviewFile)
    else if !AllDecisionsOk(review.entries) then Thrown(InvalidDecision)
    else if selfDigest != review.dryRunDigest then Thrown(StaleManifestDigest)
    else
      match ApplyProjects(w, Context(review.reviewerKey, selfDigest), ProjectRun(db, []), review.entries)
      case Thrown(f) => Thrown(f)
      case Committed(p) =>
        match ApplyRequests(w, RequestRun(p.db, []), ids)
        case Thrown(f) => Thrown(f)
        case Committed(r) =>
          var changed := ProjectChanges(p.outcomes) + RequestChanges(r.outcomes);
          match StepControl(w, review, selfDigest, r.db, changed)
          case Thrown(f) => Thrown(f)
          case Committed(c) =>
            var conservation := ConservationOf(r.db, ids);
            var counts := CountsOf(review, conservation);
            Committed(Applied(c.db, Report(selfDigest, counts, conservation, changed, c.outcome, c.hash,
                                           p.outcomes, r.outcomes)))
  }

  /** The table contents after an attempt: a throw aborts the transaction. */
  function After(w: World, db: Db, review: Review): Db {
    match Apply(w, db, review)
    case Committed(a) => a.db
    case Thrown(_) => db
  }
}
