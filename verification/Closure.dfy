/** The closure verifiers, and what a successful apply guarantees about their reports. */
module Closure {
  import opened Options
  import opened Sequences
  import opened Text
  import opened Backfill
  import opened BackfillRuns

  predicate IsHexDigit(c: CodeUnit) { 0x30 <= c <= 0x39 || 0x61 <= c <= 0x66 }

  predicate IsHex64(s: Text) { |s| == 64 && forall i :: 0 <= i < |s| ==> IsHexDigit(s[i]) }

  datatype BlockerCode =
    | ControlRowMissing
    | ControlRowMalformed
    | ControlRowHandInserted
    | ControlRowDigestNotHex64
    | ControlRowHashMismatch
    | ControlRowFieldsDisagree
    | ControlRowConservationViolated
    | ControlRowEmptyModeOnNonempty
    | ControlRowReviewDigestTampered
    | ProjectUnmapped
    | ProjectCandidateFactsMalformed
    | ProjectUnreviewedOverride
    | QuarantineStale
    | RoleChangeLiveNullCompany
    | RoleChangeUnrepresentedSource
    | RoleChangeExtractionMismatch

  // ---- Control row ------------------------------------------------------------------------

  datatype ControlInput = ControlInput(
    key: Key, row: QuarantineRow, recomputedSourceRowHash: Option<Text>, recomputedReviewDigest: Option<Text>,
    liveProjectsCount: nat, liveRequestsCount: nat)

  function ExpectedReason(mode: ControlMode): ReasonCode {
    match mode case ReviewedApplyMode => ReviewedApply case EmptyDatabaseMode => EmptyDatabase
  }

  predicate ResolutionAgrees(row: QuarantineRow)
    requires row.sourceRowJson.ControlSource?
  {
    && row.resolution.Some? && row.resolution.value.json.ControlResolution?
    && var json := row.resolution.value.json;
       json.reviewDigest == row.sourceRowJson.reviewDigest
         && json.sourceFactsDigest == row.sourceRowJson.sourceFactsDigest &&
       json.sourceRowHash == row.sourceRowHash
  }

  predicate Conserves(c: Conservation) { c.before == c.liveAfter + c.extracted }

  /** When each code is reported for a control row that is present. */
  predicate ControlReports(input: ControlInput, b: BlockerCode) {
    var row := input.row;
    var src := row.sourceRowJson;
    match b
    case ControlRowHandInserted => input.key != CONTROL_KEY || row.rowId == Generated
    case ControlRowMalformed =>
      || !src.ControlSource?
      || (src.mode == EmptyDatabaseMode && row.candidateScopeJson != Manifest([]))
      || row.resolution.None? || !NonBlank(row.resolution.value.resolvedBy)
    case ControlRowFieldsDisagree =>
      src.ControlSource? && (row.reasonCode != ExpectedReason(src.mode) || row.reviewDigest != Some(src.reviewDigest)
        || !ResolutionAgrees(row))
    case ControlRowDigestNotHex64 =>
      src.ControlSource? && !(IsHex64(src.reviewDigest) && IsHex64(src.sourceFactsDigest) && IsHex64(row.sourceRowHash))
    case ControlRowHashMismatch =>
      src.ControlSource? && input.recomputedSourceRowHash.Some?
        && input.recomputedSourceRowHash.value != row.sourceRowHash
    case ControlRowReviewDigestTampered =>
      && src.ControlSource? && src.mode == ReviewedApplyMode
      && input.recomputedReviewDigest.Some? && input.recomputedReviewDigest.value != src.reviewDigest
    case ControlRowConservationViolated =>
      src.ControlSource? && ResolutionAgrees(row) && !Conserves(row.resolution.value.json.conservation)
    case ControlRowEmptyModeOnNonempty =>
      src.ControlSource? && src.mode == EmptyDatabaseMode
        && (input.liveProjectsCount != 0 || input.liveRequestsCount != 0)
    case _ => false
  }

  /** The part of that which `sourceRowJson`, the digests and the columns beside it decide. */
  predicate EnvelopeReports(v: ControlInput, b: BlockerCode)
    requires v.row.sourceRowJson.ControlSource?
  {
    match b
    case ControlRowFieldsDisagree =>
      || v.row.reasonCode != ExpectedReason(v.row.sourceRowJson.mode)
      || v.row.reviewDigest != Some(v.row.sourceRowJson.reviewDigest)
    case ControlRowDigestNotHex64 => ControlReports(v, b)
    case ControlRowHashMismatch => ControlReports(v, b)
    case ControlRowReviewDigestTampered => ControlReports(v, b)
    case _ => false
  }

  /** The part that `resolutionJson`, the mode and the provenance decide. */
  predicate ResolutionReports(v: ControlInput, b: BlockerCode)
    requires v.row.sourceRowJson.ControlSource?
  {
    match b
    case ControlRowFieldsDisagree => !ResolutionAgrees(v.row)
    case ControlRowConservationViolated => ControlReports(v, b)
    case ControlRowEmptyModeOnNonempty => ControlReports(v, b)
    case ControlRowMalformed => ControlReports(v, b)
    case _ => false
  }

  lemma ReportsSplit(v: ControlInput)
    requires v.row.sourceRowJson.ControlSource?
    ensures forall b :: ControlReports(v, b) <==>
              || (b == ControlRowHandInserted && (v.key != CONTROL_KEY || v.row.rowId == Generated))
              || EnvelopeReports(v, b) || ResolutionReports(v, b)
  {
    hide IsHex64, NonBlank, ResolutionAgrees, Conserves, ExpectedReason;
  }

  method DigestBlockers(review: Text, facts: Text, hash: Text) returns (blockers: seq<BlockerCode>)
    ensures forall b :: b in blockers <==>
              b == ControlRowDigestNotHex64 && !(IsHex64(review) && IsHex64(facts) && IsHex64(hash))
  {
    hide IsHex64;
    blockers := [];
    if !IsHex64(review) { blockers := blockers + [ControlRowDigestNotHex64]; }
    if !IsHex64(facts) { blockers := blockers + [ControlRowDigestNotHex64]; }
    if !IsHex64(hash) { blockers := blockers + [ControlRowDigestNotHex64]; }
  }

  method EnvelopeBlockers(v: ControlInput) returns (blockers: seq<BlockerCode>)
    requires v.row.sourceRowJson.ControlSource?
    ensures forall b :: b in blockers <==> EnvelopeReports(v, b)
  {
    hide IsHex64, ExpectedReason;
    var row, src := v.row, v.row.sourceRowJson;
    blockers := [];
    if row.reasonCode != ExpectedReason(src.mode) { blockers := blockers + [ControlRowFieldsDisagree]; }
    var digests := DigestBlockers(src.reviewDigest, src.sourceFactsDigest, row.sourceRowHash);
    blockers := blockers + digests;
    if v.recomputedSourceRowHash.Some? && v.recomputedSourceRowHash.value != row.sourceRowHash {
      blockers := blockers + [ControlRowHashMismatch];
    }
    if row.reviewDigest != Some(src.reviewDigest) { blockers := blockers + [ControlRowFieldsDisagree]; }
    if v.recomputedReviewDigest.Some? && src.mode == ReviewedApplyMode
      && v.recomputedReviewDigest.value != src.reviewDigest {
      blockers := blockers + [ControlRowReviewDigestTampered];
    }
  }

  method ResolutionBlockers(v: ControlInput) returns (blockers: seq<BlockerCode>)
    requires v.row.sourceRowJson.ControlSource?
    ensures forall b :: b in blockers <==> ResolutionReports(v, b)
  {
    hide NonBlank;
    var row, src := v.row, v.row.sourceRowJson;
    blockers := [];
    if !ResolutionAgrees(row) {
      blockers := blockers + [ControlRowFieldsDisagree];
    } else if !Conserves(row.resolution.value.json.conservation) {
      blockers := blockers + [ControlRowConservationViolated];
    }
    if src.mode == EmptyDatabaseMode {
      if v.liveProjectsCount != 0 || v.liveRequestsCount != 0 {
        blockers := blockers + [ControlRowEmptyModeOnNonempty];
      }
      if row.candidateScopeJson != Manifest([]) { blockers := blockers + [ControlRowMalformed]; }
    }
    if row.resolution.None? || !NonBlank(row.resolution.value.resolvedBy) {
      blockers := blockers + [ControlRowMalformed];
    }
  }

  /** A code is reported exactly when its condition holds; a malformed envelope ends the checks early. */
  method VerifyControlRow(input: Option<ControlInput>) returns (blockers: seq<BlockerCode>)
    ensures input.None? ==> blockers == [ControlRowMissing]
    ensures input.Some? && !input.value.row.sourceRowJson.ControlSource? ==>
              ControlRowMalformed in blockers && forall b :: b in blockers ==>
                b == ControlRowMalformed || b == ControlRowHandInserted
    ensures input.Some? && input.value.row.sourceRowJson.ControlSource? ==>
              forall b :: b in blockers <==> ControlReports(input.value, b)
  {
    if input.None? { return [ControlRowMissing]; }
    hide ControlReports, EnvelopeReports, ResolutionReports;
    var v := input.value;
    blockers := [];
    if v.key != CONTROL_KEY { blockers := blockers + [ControlRowHandInserted]; }
    if v.row.rowId == Generated { blockers := blockers + [ControlRowHandInserted]; }
    if !v.row.sourceRowJson.ControlSource? {
      blockers := blockers + [ControlRowMalformed];
      return;
    }
    ReportsSplit(v);
    var envelope := EnvelopeBlockers(v);
    var resolution := ResolutionBlockers(v);
    blockers := blockers + envelope + resolution;
  }

  /** The control row as read back, with both digests recomputed. */
  function FetchControl(w: World, db: Db): Option<ControlInput> {
    if CONTROL_KEY !in db.quarantine then None
    else
      var row := db.quarantine[CONTROL_KEY];
      var src := row.sourceRowJson;
      var review :=
        if src.ControlSource? && src.mode == ReviewedApplyMode && row.candidateScopeJson.Manifest?
        then Some(ManifestDigest(w, row.candidateScopeJson.entries)) else None;
      Some(ControlInput(CONTROL_KEY, row, Some(w.digest(src)), review, |db.projects|, |db.requests|))
  }

  // ---- Projects -----------------------------------------------------------------------------

  /** `new Map(entries.map(e => [e.sourceId, e]))`: the last entry for an id counts. */
  function EntryFor(entries: seq<ManifestEntry>, id: Id): (e: Option<ManifestEntry>)
    ensures e.Some? ==> e.value in entries && e.value.Id() == id
  {
    if entries == [] then None
    else if entries[|entries| - 1].Id() == id then Some(entries[|entries| - 1])
    else EntryFor(entries[..|entries| - 1], id)
  }

  predicate CandidateJsonOk(p: Payload) {
    p.ProjectCandidates? && (p.classification == Ambiguous || p.classification == Unmatched)
  }

  /** The verdict on one live project, if there is a complaint. */
  function ProjectBlocker(
      id: Id, company: Option<Id>, entries: seq<ManifestEntry>,
      quarantine: map<Key, QuarantineRow>): Option<BlockerCode> {
    var e := EntryFor(entries, id);
    if company == None then
      if e.None? || e.value.decision != Some(Quarantine) then Some(ProjectUnmapped)
      else if ProjectKey(id) !in quarantine || !CandidateJsonOk(quarantine[ProjectKey(id)].candidateScopeJson)
           then Some(ProjectCandidateFactsMalformed)
      else None
    else if e.None? then None
    else if e.value.decision == Some(Assign) && e.value.selectedCompanyId == company && FilledIn(e.value.reviewerKey)
         then None
    else Some(ProjectUnreviewedOverride)
  }

  datatype ProjectClosureRow = ProjectClosureRow(id: Id, company: Option<Id>)

  /** The manifest the verifier reads back from the control row. */
  function ManifestOf(db: Db): seq<ManifestEntry> {
    if CONTROL_KEY in db.quarantine && db.quarantine[CONTROL_KEY].candidateScopeJson.Manifest?
    then db.quarantine[CONTROL_KEY].candidateScopeJson.entries else []
  }

  lemma EntryForSnoc(entries: seq<ManifestEntry>, e: ManifestEntry, id: Id)
    ensures EntryFor(entries + [e], id) == if e.Id() == id then Some(e) else EntryFor(entries, id)
  {
    assert (entries + [e])[..|entries|] == entries;
  }

  method VerifyProjectClosure(
      projects: seq<ProjectClosureRow>, entries: seq<ManifestEntry>, quarantine: map<Key, QuarantineRow>)
    returns (blockers: seq<(Id, BlockerCode)>)
    ensures forall id, b :: (id, b) in blockers <==>
              exists i :: 0 <= i < |projects| && projects[i].id == id
                && ProjectBlocker(id, projects[i].company, entries, quarantine) == Some(b)
  {
    var manifest: map<Id, ManifestEntry> := map[];
    var j := 0;
    while j < |entries|
      invariant 0 <= j <= |entries|
      invariant forall id :: id in manifest <==> EntryFor(entries[..j], id).Some?
      invariant forall id :: id in manifest ==> EntryFor(entries[..j], id) == Some(manifest[id])
    {
      assert entries[..j + 1] == entries[..j] + [entries[j]];
      forall id
        ensures EntryFor(entries[..j + 1], id) ==
                if entries[j].Id() == id then Some(entries[j]) else EntryFor(entries[..j], id)
      {
        EntryForSnoc(entries[..j], entries[j], id);
      }
      manifest := manifest[entries[j].Id() := entries[j]];
      j := j + 1;
    }
    assert entries[..j] == entries;
    hide EntryFor;
    blockers := [];
    var i := 0;
    while i < |projects|
      invariant 0 <= i <= |projects|
      invariant forall id, b :: (id, b) in blockers <==>
                  exists k :: 0 <= k < i && projects[k].id == id
                    && ProjectBlocker(id, projects[k].company, entries, quarantine) == Some(b)
    {
      var project := projects[i];
      assert project.id in manifest <==> EntryFor(entries, project.id).Some?;
      var before := blockers;
      if project.company == None {
        if project.id !in manifest {
          blockers := blockers + [(project.id, ProjectUnmapped)];
        } else if manifest[project.id].decision != Some(Quarantine) {
          blockers := blockers + [(project.id, ProjectUnmapped)];
        } else if ProjectKey(project.id) !in quarantine
          || !CandidateJsonOk(quarantine[ProjectKey(project.id)].candidateScopeJson) {
          blockers := blockers + [(project.id, ProjectCandidateFactsMalformed)];
        }
      } else if project.id in manifest {
        var entry := manifest[project.id];
        var consistent := entry.decision == Some(Assign) && entry.selectedCompanyId == project.company
          && FilledIn(entry.reviewerKey);
        if !consistent { blockers := blockers + [(project.id, ProjectUnreviewedOverride)]; }
      }
      i := i + 1;
    }
  }

  // ---- Role-change requests --------------------------------------------------------------------

  datatype RequestInput = RequestInput(
    liveNullCompany: nat, liveTotal: nat, quarantined: nat, staleOverlap: nat, conservation: Option<Conservation>)

  predicate RequestReports(i: RequestInput, b: BlockerCode) {
    match b
    case RoleChangeLiveNullCompany => i.liveNullCompany != 0
    case QuarantineStale => i.staleOverlap != 0
    case RoleChangeUnrepresentedSource => i.conservation.Some? && i.liveTotal != i.conservation.value.liveAfter
    case RoleChangeExtractionMismatch => i.conservation.Some? && i.quarantined != i.conservation.value.extracted
    case _ => false
  }

  method VerifyRequestClosure(i: RequestInput) returns (blockers: seq<BlockerCode>)
    ensures forall b :: b in blockers <==> RequestReports(i, b)
  {
    blockers := [];
    if i.liveNullCompany != 0 { blockers := blockers + [RoleChangeLiveNullCompany]; }
    if i.staleOverlap != 0 { blockers := blockers + [QuarantineStale]; }
    if i.conservation.Some? {
      if i.liveTotal != i.conservation.value.liveAfter { blockers := blockers + [RoleChangeUnrepresentedSource]; }
      if i.quarantined != i.conservation.value.extracted { blockers := blockers + [RoleChangeExtractionMismatch]; }
    }
  }

  function NullRequests(db: Db): set<Id> { set id | id in db.requests && db.requests[id].company == None }

  function RecordedRequests(db: Db): set<Key> { set k | k in db.quarantine && k.model == RequestModel }

  function OverlappingRequests(db: Db): set<Key> {
    set k | k in db.quarantine && k.model == RequestModel && k.id in db.requests
  }

  function FetchRequests(db: Db): RequestInput {
    var conservation :=
      if CONTROL_KEY in db.quarantine && db.quarantine[CONTROL_KEY].resolution.Some?
        && db.quarantine[CONTROL_KEY].resolution.value.json.ControlResolution?
      then Some(db.quarantine[CONTROL_KEY].resolution.value.json.conservation) else None;
    RequestInput(|NullRequests(db)|, |db.requests|, |RecordedRequests(db)|, |OverlappingRequests(db)|, conservation)
  }

  // ---- What a successful apply establishes --------------------------------------------------------

  /** `sqlJsonDigestHex` returns 64 lower-case hex digits or throws. */
  ghost predicate HexDigests(w: World) { forall p :: IsHex64(w.digest(p)) }

  /** From an empty quarantine table the apply writes its own control row. */
  lemma FreshControlRow(w: World, db: Db, review: Review)
    requires Apply(w, db, review).Committed? && CONTROL_KEY !in db.quarantine
    ensures var a := Apply(w, db, review).value;
            && CONTROL_KEY in a.db.quarantine
            && a.db.quarantine[CONTROL_KEY] == ControlRowOf(w, review, review.dryRunDigest, a.db, a.report.changedCount)
            && a.report.conservation == ConservationOf(a.db, SortTexts(review.roleChangeRequestIds))
  {
    hide Apply, ApplyProjects, ApplyRequests, Advances, ConservationOf, NonBlank, AllDecisionsOk, ControlFactsDigest,
         ManifestDigest, CountsOf;
    var a := Apply(w, db, review).value;
    var p, r := ApplyStages(w, db, review);
    var ctx := Context(review.reviewerKey, ManifestDigest(w, review.entries));
    ProjectsFrame(w, ctx, ProjectRun(db, []), review.entries);
    RequestsFrame(w, RequestRun(p.db, []), SortTexts(review.roleChangeRequestIds));
    SameSource(w, review, ctx.selfDigest, r.db, a.db);
  }

  /** The control row of a first apply passes every check. */
  lemma ControlRowClean(w: World, db: Db, review: Review)
    requires Apply(w, db, review).Committed? && CONTROL_KEY !in db.quarantine && HexDigests(w)
    ensures var input := FetchControl(w, Apply(w, db, review).value.db);
            input.Some? && input.value.row.sourceRowJson.ControlSource? && forall b :: !ControlReports(input.value, b)
  {
    hide IsHex64, NonBlank, ConservationOf, CountsOf, Projection, SortTexts, EntryIds, AllDecisionsOk, Apply,
         ManifestDigest;
    FreshControlRow(w, db, review);
    var p, r := ApplyStages(w, db, review);
    ConservationConserves(Apply(w, db, review).value.db, SortTexts(review.roleChangeRequestIds));
    ManifestDigestHex(w, review.entries);
  }

  lemma ManifestDigestHex(w: World, entries: seq<ManifestEntry>)
    requires HexDigests(w)
    ensures IsHex64(ManifestDigest(w, entries))
  {}

  lemma ConservationConserves(db: Db, ids: seq<Id>)
    ensures Conserves(ConservationOf(db, ids))
  {}

  // ---- Projects after a successful apply -------------------------------------------------------------

  /** This entry speaks for project `id`, and the row is as it was reviewed. */
  predicate Fresh(w: World, db: Db, e: ManifestEntry, id: Id) {
    e.Id() == id && id in db.projects && !Drifted(w, db, e)
  }

  /** The company the first fresh assignment in the list gives the project. */
  function FirstAssigned(w: World, db: Db, entries: seq<ManifestEntry>, id: Id): Option<Id> {
    if entries == [] then None
    else
      var before, last := FirstAssigned(w, db, entries[..|entries| - 1], id), entries[|entries| - 1];
      if before.Some? then before
      else if last.decision == Some(Assign) && Fresh(w, db, last, id) then last.selectedCompanyId
      else None
  }

  ghost predicate FreshlyQuarantined(w: World, db: Db, entries: seq<ManifestEntry>, id: Id) {
    exists e :: e in entries && e.decision == Some(Quarantine) && Fresh(w, db, e, id)
  }

  /** The company the project has once these entries are through. */
  function CompanyAfter(w: World, db: Db, entries: seq<ManifestEntry>, id: Id): Option<Id>
    requires id in db.projects
  {
    if db.projects[id].company.Some? then db.projects[id].company else FirstAssigned(w, db, entries, id)
  }

  /** What the entries processed so far, `done`, have made of project `id`. */
  ghost predicate Traced(w: World, db: Db, now: Db, done: seq<ManifestEntry>, id: Id) {
    && id in db.projects && id in now.projects
    && now.projects[id] == db.projects[id].(company := CompanyAfter(w, db, done, id))
    && (now.projects[id].company == None ==>
          && (ProjectKey(id) in now.quarantine <==> FreshlyQuarantined(w, db, done, id))
          && (ProjectKey(id) in now.quarantine ==> CandidateJsonOk(now.quarantine[ProjectKey(id)].candidateScopeJson)))
  }

  lemma TracedNext(w: World, ctx: Context, db: Db, now: Db, done: seq<ManifestEntry>, e: ManifestEntry, id: Id)
    requires Traced(w, db, now, done, id) && StepProject(w, ctx, now, e).Committed? && DecisionOk(e)
    ensures Traced(w, db, StepProject(w, ctx, now, e).value.db, done + [e], id)
  {
    hide RowHash, FactsDigest, NonBlank, FirstAssigned, FreshlyQuarantined;
    AssignedNext(w, db, done, e, id);
    QuarantinedNext(w, db, done, e, id);
    if e.Id() != id {
      StepProjectFrame(w, ctx, now, e);
      hide StepProject;
      assert SameAt(now, StepProject(w, ctx, now, e).value.db, id);
    } else if now.projects[id].company == None {
      assert now.projects[id] == db.projects[id];
    }
  }

  lemma AssignedNext(w: World, db: Db, done: seq<ManifestEntry>, e: ManifestEntry, id: Id)
    ensures FirstAssigned(w, db, done + [e], id) ==
            if FirstAssigned(w, db, done, id).Some? then FirstAssigned(w, db, done, id)
            else if e.decision == Some(Assign) && Fresh(w, db, e, id) then e.selectedCompanyId else None
  {
    hide Fresh;
    assert (done + [e])[..|done|] == done;
  }

  lemma QuarantinedNext(w: World, db: Db, done: seq<ManifestEntry>, e: ManifestEntry, id: Id)
    ensures FreshlyQuarantined(w, db, done + [e], id) <==>
            FreshlyQuarantined(w, db, done, id) || (e.decision == Some(Quarantine) && Fresh(w, db, e, id))
  {
    hide Fresh;
    if FreshlyQuarantined(w, db, done, id) {
      var f :| f in done && f.decision == Some(Quarantine) && Fresh(w, db, f, id);
      assert f in done + [e];
    }
    assert e in done + [e];
  }

  lemma {:induction false} ProjectsTraced(
    w: World, ctx: Context, db: Db, run: ProjectRun, done: seq<ManifestEntry>, entries: seq<ManifestEntry>, id: Id)
    requires ApplyProjects(w, ctx, run, entries).Committed? && forall e :: e in entries ==> DecisionOk(e)
    requires Traced(w, db, run.db, done, id)
    ensures Traced(w, db, ApplyProjects(w, ctx, run, entries).value.db, done + entries, id)
    decreases entries
  {
    hide StepProject, Traced, DecisionOk;
    if entries == [] {
      assert done + entries == done;
    } else {
      var s := StepProject(w, ctx, run.db, entries[0]).value;
      TracedNext(w, ctx, db, run.db, done, entries[0], id);
      ProjectsTraced(w, ctx, db, ProjectRun(s.db, run.outcomes + [s.outcome]), done + [entries[0]], entries[1..], id);
      assert done + entries == (done + [entries[0]]) + entries[1..];
    }
  }

  /**
   * One project is in order before the apply: the last entry for it, the one the verifier reads,
   * assigns the company it will have, or quarantines it where nothing assigns it and some fresh
   * entry records it; a project that has a company already needs no entry.
   */
  ghost predicate ProjectReady(w: World, db: Db, entries: seq<ManifestEntry>, id: Id)
    requires id in db.projects
  {
    var e, company := EntryFor(entries, id), CompanyAfter(w, db, entries, id);
    if company == None then e.Some? && e.value.decision == Some(Quarantine) && FreshlyQuarantined(w, db, entries, id)
    else e.None? || (e.value.decision == Some(Assign) && e.value.selectedCompanyId == company)
  }

  lemma ProjectVerdict(w: World, db: Db, review: Review, id: Id)
    requires Apply(w, db, review).Committed? && db.quarantine == map[] && id in db.projects
    ensures var a := Apply(w, db, review).value;
            && id in a.db.projects
            && (ProjectBlocker(id, a.db.projects[id].company, review.entries, a.db.quarantine) == None <==>
                ProjectReady(w, db, review.entries, id))
  {
    hide Apply, ApplyProjects, ApplyRequests, StepControl, ManifestDigest, ConservationOf, CountsOf, NonBlank, Advances,
         Fresh, SameRequestAt, EntryFor, CandidateJsonOk, DecisionOk;
    var a := Apply(w, db, review).value;
    var p, r := ApplyStages(w, db, review);
    var ctx := Context(review.reviewerKey, ManifestDigest(w, review.entries));
    ProjectsTraced(w, ctx, db, ProjectRun(db, []), [], review.entries, id);
    RequestsFrame(w, RequestRun(p.db, []), SortTexts(review.roleChangeRequestIds));
    ControlFrame(w, review, ctx.selfDigest, r.db, a.report.changedCount);
    assert [] + review.entries == review.entries;
    assert SameAt(p.db, r.db, id) && SameAt(r.db, a.db, id);
    LastDecides(review.entries, id);
  }

  lemma LastDecides(entries: seq<ManifestEntry>, id: Id)
    requires forall e :: e in entries ==> DecisionOk(e)
    ensures var e := EntryFor(entries, id);
            e.Some? && e.value.decision == Some(Assign) ==> FilledIn(e.value.reviewerKey)
  {
    hide EntryFor, NonBlank;
  }

  /** With one entry for each project: a project without a company needs a fresh one. */
  lemma ReadyWhenDistinct(w: World, db: Db, entries: seq<ManifestEntry>, id: Id)
    requires Distinct(EntryIds(entries)) && id in db.projects && forall e :: e in entries ==> DecisionOk(e)
    ensures var e := EntryFor(entries, id);
            ProjectReady(w, db, entries, id) <==>
            if db.projects[id].company == None then e.Some? && Fresh(w, db, e.value, id)
            else e.None? || (e.value.decision == Some(Assign) && e.value.selectedCompanyId == db.projects[id].company)
  {
    hide Drifted, NonBlank, FirstAssigned, EntryFor;
    var e := EntryFor(entries, id);
    forall f | f in entries && f.Id() == id ensures e == Some(f) { OnlyEntryFor(entries, f); }
    FirstAssignedIs(w, db, entries, id);
  }

  lemma {:induction false} OnlyEntryFor(entries: seq<ManifestEntry>, f: ManifestEntry)
    requires Distinct(EntryIds(entries)) && f in entries
    ensures EntryFor(entries, f.Id()) == Some(f)
    decreases |entries|
  {
    var n := |entries| - 1;
    if entries[n] != f {
      var i :| 0 <= i < |entries| && entries[i] == f;
      assert EntryIds(entries)[i] != EntryIds(entries)[n];
      assert entries[..n][i] == f;
      FewerEntries(entries);
      OnlyEntryFor(entries[..n], f);
    }
  }

  lemma FewerEntries(entries: seq<ManifestEntry>)
    requires entries != [] && Distinct(EntryIds(entries))
    ensures Distinct(EntryIds(entries[..|entries| - 1]))
  {
    var all, fewer := EntryIds(entries), EntryIds(entries[..|entries| - 1]);
    forall i, j | 0 <= i < j < |fewer| ensures fewer[i] != fewer[j] {
      assert all[i] != all[j];
    }
  }

  lemma {:induction false} FirstAssignedIs(w: World, db: Db, entries: seq<ManifestEntry>, id: Id)
    requires forall e :: e in entries ==> DecisionOk(e)
    ensures var c := FirstAssigned(w, db, entries, id);
            if c.Some?
            then exists e ::
              e in entries && e.decision == Some(Assign) && Fresh(w, db, e, id) && e.selectedCompanyId == c
            else forall e :: e in entries && e.decision == Some(Assign) ==> !Fresh(w, db, e, id)
    decreases |entries|
  {
    hide Fresh, NonBlank;
    if entries != [] {
      var init := entries[..|entries| - 1];
      assert entries == init + [entries[|entries| - 1]];
      FirstAssignedIs(w, db, init, id);
    }
  }

  // ---- Requests after a successful apply ---------------------------------------------------------------

  lemma OnlyExtractedRecorded(w: World, db: Db, review: Review)
    requires Apply(w, db, review).Committed? && db.quarantine == map[]
    ensures var a := Apply(w, db, review).value;
            && (forall id :: RequestKey(id) in a.db.quarantine <==>
                 id in review.roleChangeRequestIds && id !in a.db.requests)
            && (forall id :: id in review.roleChangeRequestIds && id in a.db.requests ==>
                 a.db.requests[id].company.Some?)
            && (forall id :: id !in review.roleChangeRequestIds ==> (id in a.db.requests <==> id in db.requests))
            && (forall id :: id !in review.roleChangeRequestIds && id in a.db.requests ==>
                 a.db.requests[id] == db.requests[id])
            && a.report.conservation.before == |review.roleChangeRequestIds|
  {
    hide Apply, ApplyProjects, ApplyRequests, StepControl, ManifestDigest, CountsOf, NonBlank, Distinct, Advances,
         SameAt, RequestSettled;
    var a := Apply(w, db, review).value;
    var p, r := ApplyStages(w, db, review);
    var ctx := Context(review.reviewerKey, ManifestDigest(w, review.entries));
    var ids := SortTexts(review.roleChangeRequestIds);
    ProjectsFrame(w, ctx, ProjectRun(db, []), review.entries);
    RequestsFrame(w, RequestRun(p.db, []), ids);
    RequestsSettle(w, RequestRun(p.db, []), ids, {});
    RequestsKeepLive(w, RequestRun(p.db, []), ids);
    ControlFrame(w, review, ctx.selfDigest, r.db, a.report.changedCount);
    SortIdsKeeps(review.roleChangeRequestIds);
    forall id ensures RequestKey(id) in a.db.quarantine <==> id in review.roleChangeRequestIds && id !in a.db.requests {
      assert SameRequestAt(r.db, a.db, id) && SameRequestAt(db, p.db, id);
      if id in ids { SettledMeans(w, r.db, id); } else { assert SameRequestAt(p.db, r.db, id); }
    }
    forall id | id in review.roleChangeRequestIds && id in a.db.requests ensures a.db.requests[id].company.Some? {
      assert SameRequestAt(r.db, a.db, id);
      SettledMeans(w, r.db, id);
    }
    forall id | id !in review.roleChangeRequestIds
      ensures (id in a.db.requests <==> id in db.requests)
              && (id in a.db.requests ==> a.db.requests[id] == db.requests[id])
    {
      assert SameRequestAt(r.db, a.db, id) && SameRequestAt(db, p.db, id) && SameRequestAt(p.db, r.db, id);
    }
  }

  /** The ids the review lists cover every role-change request, scoped or not. */
  predicate RequestsCovered(db: Db, review: Review) {
    forall id :: id in db.requests ==> id in review.roleChangeRequestIds
  }

  /** What the verifier reads back is what the apply reported. */
  lemma FetchedConservation(w: World, db: Db, review: Review)
    requires Apply(w, db, review).Committed? && CONTROL_KEY !in db.quarantine
    ensures FetchRequests(Apply(w, db, review).value.db).conservation ==
            Some(Apply(w, db, review).value.report.conservation)
  {
    hide Apply, ConservationOf, CountsOf, ControlFactsDigest;
    FreshControlRow(w, db, review);
  }

  /**
   * After a first apply the request verifier is silent if and only if the review listed every
   * request, scoped or not, and listed none of them twice.
   */
  lemma RequestVerdict(w: World, db: Db, review: Review)
    requires Apply(w, db, review).Committed? && db.quarantine == map[]
    ensures (forall b :: !RequestReports(FetchRequests(Apply(w, db, review).value.db), b)) <==>
            RequestsCovered(db, review) && Distinct(review.roleChangeRequestIds)
  {
    hide Apply, ConservationOf, Distinct, CountsOf, NonBlank, ManifestDigest, ControlFactsDigest;
    var a := Apply(w, db, review).value;
    var i := FetchRequests(a.db);
    FetchedConservation(w, db, review);
    OnlyExtractedRecorded(w, db, review);
    ExtractedCount(w, db, review);
    assert OverlappingRequests(a.db) == {} by { NoOverlap(a.db); }
    LiveCount(w, db, review);
    assert !RequestReports(i, QuarantineStale);
    assert RequestReports(i, RoleChangeExtractionMismatch) <==> !Distinct(review.roleChangeRequestIds);
    assert RequestReports(i, RoleChangeUnrepresentedSource) <==> !RequestsCovered(db, review);
    if RequestsCovered(db, review) { NullsCovered(w, db, review); }
  }

  lemma NoOverlap(db: Db)
    requires forall id :: RequestKey(id) in db.quarantine ==> id !in db.requests
    ensures OverlappingRequests(db) == {}
  {
    forall k | k in db.quarantine && k.model == RequestModel ensures k.id !in db.requests {
      assert k == RequestKey(k.id);
    }
  }

  lemma NullsCovered(w: World, db: Db, review: Review)
    requires Apply(w, db, review).Committed? && db.quarantine == map[] && RequestsCovered(db, review)
    ensures NullRequests(Apply(w, db, review).value.db) == {}
  {
    hide Apply;
    OnlyExtractedRecorded(w, db, review);
  }

  /** There are as many records as the apply says it extracted exactly when no id is repeated. */
  lemma ExtractedCount(w: World, db: Db, review: Review)
    requires Apply(w, db, review).Committed? && db.quarantine == map[]
    ensures var a := Apply(w, db, review).value;
            |RecordedRequests(a.db)| == a.report.conservation.extracted <==> Distinct(review.roleChangeRequestIds)
  {
    hide Apply, Distinct;
    var a := Apply(w, db, review).value;
    OnlyExtractedRecorded(w, db, review);
    ConservationIsReal(w, db, review);
    var gone := set id | id in review.roleChangeRequestIds && id !in a.db.requests;
    KeysOf(gone);
    assert RecordedRequests(a.db) == set id | id in gone :: RequestKey(id) by {
      forall k | k in RecordedRequests(a.db) ensures k.id in gone && k == RequestKey(k.id) {
        assert k == RequestKey(k.id);
      }
    }
  }

  lemma {:induction false} KeysOf(ids: set<Id>)
    ensures |set id | id in ids :: RequestKey(id)| == |ids|
    decreases ids
  {
    var keys := set id | id in ids :: RequestKey(id);
    if ids == {} {
      assert keys == {};
    } else {
      var x :| x in ids;
      KeysOf(ids - {x});
      var smaller := set id | id in ids - {x} :: RequestKey(id);
      assert keys == smaller + {RequestKey(x)} && RequestKey(x) !in smaller;
    }
  }

  /** The live table is as large as the control row says exactly when no live request was left out of the review. */
  lemma LiveCount(w: World, db: Db, review: Review)
    requires Apply(w, db, review).Committed? && db.quarantine == map[]
    ensures var a := Apply(w, db, review).value;
            |a.db.requests| == a.report.conservation.liveAfter <==> RequestsCovered(db, review)
  {
    hide Apply, Distinct;
    var a := Apply(w, db, review).value;
    FreshControlRow(w, db, review);
    OnlyExtractedRecorded(w, db, review);
    SortIdsKeeps(review.roleChangeRequestIds);
    LivePart(a.db, SortTexts(review.roleChangeRequestIds));
  }

  lemma LivePart(db: Db, ids: seq<Id>)
    ensures |db.requests| == LiveAmong(db, ids) <==> forall id :: id in db.requests ==> id in ids
  {
    var listed := set id | id in db.requests && id in ids;
    var others := db.requests.Keys - listed;
    assert db.requests.Keys == listed + others && |db.requests| == |db.requests.Keys| == |listed| + |others|;
    assert others == {} <==> forall id :: id in db.requests ==> id in ids;
  }

  /**
   * A first apply that succeeds always leaves a clean control row. The project verifier is silent
   * exactly when every project was ready, and the request verifier exactly when the review lists
   * every request, scoped ones included, and none twice.
   */
  lemma ApplyEstablishesClosure(w: World, db: Db, review: Review)
    requires HexDigests(w) && db.quarantine == map[] && Apply(w, db, review).Committed?
    ensures var a := Apply(w, db, review).value;
            var control := FetchControl(w, a.db);
            && control.Some? && (forall b :: !ControlReports(control.value, b))
            && a.db.projects.Keys == db.projects.Keys && ManifestOf(a.db) == review.entries
            && ((forall id :: id in a.db.projects ==>
                   ProjectBlocker(id, a.db.projects[id].company, ManifestOf(a.db), a.db.quarantine) == None) <==>
                (forall id :: id in db.projects ==> ProjectReady(w, db, review.entries, id)))
            && ((forall b :: !RequestReports(FetchRequests(a.db), b)) <==>
                RequestsCovered(db, review) && Distinct(review.roleChangeRequestIds))
  {
    hide Apply, ProjectBlocker, ProjectReady, RequestReports, RequestsCovered, FetchRequests, ControlReports,
         FetchControl, Distinct, HexDigests;
    var a := Apply(w, db, review).value;
    FreshControlRow(w, db, review);
    ControlRowClean(w, db, review);
    ApplyAdvances(w, db, review);
    AfterCommitted(w, db, review);
    forall id | id in db.projects
      ensures ProjectBlocker(id, a.db.projects[id].company, review.entries, a.db.quarantine) == None <==>
              ProjectReady(w, db, review.entries, id)
    {
      ProjectVerdict(w, db, review, id);
    }
    RequestVerdict(w, db, review);
  }

  lemma AfterCommitted(w: World, db: Db, review: Review)
    requires Apply(w, db, review).Committed?
    ensures After(w, db, review) == Apply(w, db, review).value.db
  {}

  // ---- Request ids listed twice, and as the dry run lists them --------------------------------

  /**
   * The request verifier fails on a review that covers every request but names one twice: the apply
   * commits, subtracts two from nothing left alive, and has one record to show for it.
   */
  lemma RepeatedIdMismatch(w: World, id: Id, row: RequestRow, reviewerKey: Text) returns (review: Review, db: Db)
    requires NonBlank(reviewerKey) && row.company == None && RequestDecision(w, row).classification != Resolved
    requires forall p :: w.digest(p) != []
    ensures db.quarantine == map[] && Apply(w, db, review).Committed? && RequestsCovered(db, review)
    ensures var a := Apply(w, db, review).value;
            && a.report.conservation == Conservation(2, 0, 2) && |RecordedRequests(a.db)| == 1
            && RequestReports(FetchRequests(a.db), RoleChangeExtractionMismatch)
  {
    hide RequestDecision, NonBlank, ControlRowOf, ManifestDigest, ApplyRequests, SortTexts, CountsOf, RequestChanges;
    review := Review(reviewerKey, ManifestDigest(w, []), [], [id, id]);
    db := Db(map[], map[id := row], map[]);
    DigestNonEmpty(w, []);
    SameTwice(id);
    ExtractedOnce(w, id, row, db);
    var a := Apply(w, db, review).value;
    FetchedConservation(w, db, review);
    assert a.db.requests == map[];
    assert RecordedRequests(a.db) == {RequestKey(id)};
    assert LiveAmong(a.db, [id, id]) == 0 by { assert (set k | k in a.db.requests && k in [id, id]) == {}; }
  }

  lemma SameTwice(id: Id)
    ensures SortTexts([id, id]) == [id, id]
  {
    BeforeIrreflexive(id);
    SortedStays([id, id]);
  }

  lemma BeforeIrreflexive(a: Text)
    ensures !Before(a, a)
  {
    if Before(a, a) { BeforeStrict(a, a); }
  }

  lemma ExtractedOnce(w: World, id: Id, row: RequestRow, db: Db)
    requires db == Db(map[], map[id := row], map[]) && row.company == None
             && RequestDecision(w, row).classification != Resolved
    ensures var r := ApplyRequests(w, RequestRun(db, []), [id, id]);
            && r.Committed? && r.value.db.projects == map[] && r.value.db.requests == map[]
            && r.value.db.quarantine.Keys == {RequestKey(id)}
  {
    hide RequestDecision, ApplyRequests;
    var s := StepRequest(w, db, id).value;
    assert s.db.requests == map[] && s.db.quarantine.Keys == {RequestKey(id)};
    var t := StepRequest(w, s.db, id).value;
    assert t.db == s.db;
    assert [id, id][1..] == [id] && [id][1..] == [];
    OneRequest(w, RequestRun(db, []), [id, id]);
    OneRequest(w, RequestRun(s.db, [] + [s.outcome]), [id]);
    OneRequest(w, RequestRun(t.db, [] + [s.outcome] + [t.outcome]), []);
  }

  lemma OneRequest(w: World, run: RequestRun, ids: seq<Id>)
    ensures ids == [] ==> ApplyRequests(w, run, ids) == Committed(run)
    ensures ids != [] && StepRequest(w, run.db, ids[0]).Committed? ==>
              var s := StepRequest(w, run.db, ids[0]).value;
              ApplyRequests(w, run, ids) == ApplyRequests(w, RequestRun(s.db, run.outcomes + [s.outcome]), ids[1..])
  {
    hide StepRequest;
  }

  /** The requests of one classification, in the order of `ids`. */
  function OfClass(w: World, db: Db, ids: seq<Id>, c: Classification): (r: seq<Id>)
    requires forall id :: id in ids ==> id in db.requests
  {
    if ids == [] then []
    else
      var last := ids[|ids| - 1];
      OfClass(w, db, ids[..|ids| - 1], c) +
        if RequestDecision(w, db.requests[last]).classification == c then [last] else []
  }

  /** `SELECT id ... WHERE company_id IS NULL ORDER BY id` */
  ghost function NullIds(db: Db): (ids: seq<Id>)
    ensures Ascending(ids) && forall id :: id in ids <==> id in NullRequests(db)
  {
    SortedKeys(NullRequests(db))
  }

  /** The dry run's summary: the requests without a company, by classification. */
  method SummarizeRoleChangeRequests(w: World, db: Db, rows: seq<Id>)
    returns (resolved: seq<Id>, ambiguous: seq<Id>, unmatched: seq<Id>)
    requires forall id :: id in rows ==> id in db.requests
    ensures resolved == OfClass(w, db, rows, Resolved)
    ensures ambiguous == OfClass(w, db, rows, Ambiguous)
    ensures unmatched == OfClass(w, db, rows, Unmatched)
  {
    hide RequestDecision;
    resolved, ambiguous, unmatched := [], [], [];
    for i := 0 to |rows|
      invariant resolved == OfClass(w, db, rows[..i], Resolved)
      invariant ambiguous == OfClass(w, db, rows[..i], Ambiguous)
      invariant unmatched == OfClass(w, db, rows[..i], Unmatched)
    {
      assert rows[..i + 1][..i] == rows[..i];
      match RequestDecision(w, db.requests[rows[i]]).classification
      case Resolved => resolved := resolved + [rows[i]];
      case Ambiguous => ambiguous := ambiguous + [rows[i]];
      case Unmatched => unmatched := unmatched + [rows[i]];
    }
    assert rows[..|rows|] == rows;
  }

  /** Every id the dry run lists. */
  ghost function DryRunIds(w: World, db: Db): seq<Id> {
    var ids := NullIds(db);
    OfClass(w, db, ids, Resolved) + OfClass(w, db, ids, Ambiguous) + OfClass(w, db, ids, Unmatched)
  }

  lemma {:induction false} OfClassSelects(w: World, db: Db, ids: seq<Id>, c: Classification)
    requires (forall id :: id in ids ==> id in db.requests) && Distinct(ids)
    ensures var r := OfClass(w, db, ids, c);
            Distinct(r) && forall id :: id in r <==>
              id in ids && RequestDecision(w, db.requests[id]).classification == c
  {
    hide RequestDecision;
    if ids != [] {
      var init, last := ids[..|ids| - 1], ids[|ids| - 1];
      assert ids == init + [last];
      assert Distinct(init) && last !in init;
      OfClassSelects(w, db, init, c);
    }
  }

  /** The dry run lists each request without a company once, and no other. */
  lemma DryRunListsNulls(w: World, db: Db)
    ensures Distinct(DryRunIds(w, db)) && forall id :: id in DryRunIds(w, db) <==> id in NullRequests(db)
  {
    hide OfClass, RequestDecision;
    var ids := NullIds(db);
    AscendingDistinct(ids);
    assert forall id :: id in ids ==> id in db.requests;
    OfClassSelects(w, db, ids, Resolved);
    OfClassSelects(w, db, ids, Ambiguous);
    OfClassSelects(w, db, ids, Unmatched);
    DistinctConcat(OfClass(w, db, ids, Resolved), OfClass(w, db, ids, Ambiguous));
    DistinctConcat(OfClass(w, db, ids, Resolved) + OfClass(w, db, ids, Ambiguous), OfClass(w, db, ids, Unmatched));
  }

  /**
   * A first apply of exactly the ids the dry run listed satisfies the request verifier if and only
   * if no request had a company to begin with.
   */
  lemma DryRunVerdict(w: World, db: Db, review: Review)
    requires Apply(w, db, review).Committed? && db.quarantine == map[]
             && review.roleChangeRequestIds == DryRunIds(w, db)
    ensures (forall b :: !RequestReports(FetchRequests(Apply(w, db, review).value.db), b)) <==>
            forall id :: id in db.requests ==> db.requests[id].company == None
  {
    hide Apply, RequestReports, FetchRequests, DryRunIds;
    DryRunListsNulls(w, db);
    RequestVerdict(w, db, review);
  }
}
