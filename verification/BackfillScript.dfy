/** The apply as written: rows updated in place, counters and outcome lists filled entry by entry. */
module BackfillScript {
  import opened Options
  import opened Text
  import opened Backfill

  class Database {
    var projects: map<Id, ProjectRow>
    var requests: map<Id, RequestRow>
    var quarantine: map<Key, QuarantineRow>

    constructor (db: Db)
      ensures State() == db
    {
      projects, requests, quarantine := db.projects, db.requests, db.quarantine;
    }

    function State(): Db
      reads this
    {
      Db(projects, requests, quarantine)
    }

    /** `UPDATE projects SET company_id = c WHERE id = i AND company_id IS NULL`, with the row count. */
    method UpdateProjectCompany(id: Id, c: Id) returns (updated: nat)
      modifies this`projects
      ensures if id in old(projects) && old(projects)[id].company == None
              then updated == 1 && projects == old(projects)[id := old(projects)[id].(company := Some(c))]
              else updated == 0 && projects == old(projects)
    {
      updated := 0;
      if id in projects && projects[id].company == None {
        projects := projects[id := projects[id].(company := Some(c))];
        updated := 1;
      }
    }

    method UpdateRequestCompany(id: Id, c: Id) returns (updated: nat)
      modifies this`requests
      ensures if id in old(requests) && old(requests)[id].company == None
              then updated == 1 && requests == old(requests)[id := old(requests)[id].(company := Some(c))]
              else updated == 0 && requests == old(requests)
    {
      updated := 0;
      if id in requests && requests[id].company == None {
        requests := requests[id := requests[id].(company := Some(c))];
        updated := 1;
      }
    }

    method DeleteRequest(id: Id) returns (deleted: nat)
      modifies this`requests
      ensures requests == old(requests) - {id} && deleted == if id in old(requests) then 1 else 0
    {
      deleted := if id in requests then 1 else 0;
      requests := requests - {id};
    }

    method ProjectEntry(w: World, ctx: Context, e: ManifestEntry) returns (r: Attempt<ProjectOutcome>)
      modifies this
      ensures match StepProject(w, ctx, old(State()), e)
              case Committed(s) => r == Committed(s.outcome) && State() == s.db
              case Thrown(f) => r == Thrown(f)
    {
      hide RowHash, FactsDigest, ProjectCandidateJson, ProjectReason;
      var id := e.Id();
      if id !in projects { return Committed(ProjectOutcome(id, Missing, None)); }
      var live := projects[id];
      if e.decision == Some(Assign) && live.company.Some? && live.company == e.selectedCompanyId {
        return Committed(ProjectOutcome(id, AlreadyConsistent, live.company));
      }
      var liveSourceRowHash := RowHash(w, id, live);
      var liveSourceFactsDigest := FactsDigest(w, id);
      if liveSourceRowHash != e.facts.sourceRowHash || liveSourceFactsDigest != e.facts.sourceFactsDigest {
        return Committed(ProjectOutcome(id, StaleManifest, live.company));
      }
      if e.decision == Some(Quarantine) {
        if e.facts.classification == Resolved { return Thrown(Unexpected); }
        var candidates := ProjectCandidateJson(w, e);
        var k := ProjectKey(id);
        var alreadyIdentical :=
          k in quarantine && quarantine[k].reasonCode == ProjectReason(e)
            && quarantine[k].sourceRowHash == liveSourceRowHash
          && quarantine[k].candidateScopeJson == candidates;
        if alreadyIdentical { return Committed(ProjectOutcome(id, AlreadyQuarantined, None)); }
        quarantine := Upsert(quarantine, k, ProjectReason(e), ProjectEnvelope(id, live), liveSourceRowHash, candidates);
        return Committed(ProjectOutcome(id, Quarantined, None));
      }
      if e.decision != Some(Assign) || e.selectedCompanyId.None? { return Thrown(BadReviewFile); }
      var selected := e.selectedCompanyId.value;
      if live.company.Some? { return Committed(ProjectOutcome(id, Conflict, live.company)); }
      if selected !in w.tenantOf { return Thrown(BadReviewFile); }
      var updated := UpdateProjectCompany(id, selected);
      if updated != 1 { return Thrown(CasFailed); }
      var k := ProjectKey(id);
      if k in quarantine {
        var json := ProjectResolution(selected, w.tenantOf[selected], ctx.selfDigest, e.facts.sourceFactsDigest);
        quarantine := quarantine[k := quarantine[k].(resolution := Some(Resolution(ctx.reviewerKey, json)))];
      }
      return Committed(ProjectOutcome(id, Assigned, Some(selected)));
    }

    method RequestId(w: World, id: Id) returns (r: Attempt<RequestOutcome>)
      modifies this
      ensures match StepRequest(w, old(State()), id)
              case Committed(s) => r == Committed(s.outcome) && State() == s.db
              case Thrown(f) => r == Thrown(f)
    {
      hide ClassifyRoleChange;
      if id !in requests {
        if RequestKey(id) !in quarantine { return Thrown(MissingExtractionRecord); }
        return Committed(RequestOutcome(id, AlreadyExtracted, None));
      }
      var live := requests[id];
      if live.company.Some? { return Committed(RequestOutcome(id, AlreadyResolved, live.company)); }
      var facts := w.roleFacts(live.userId, live.requestedBy);
      var decision := ClassifyRoleChange(facts);
      ResolvedExactly(facts);
      if decision.classification == Resolved {
        var company := decision.candidateCompanyIds[0];
        var updated := UpdateRequestCompany(id, company);
        if updated != 1 { return Thrown(CasFailed); }
        return Committed(RequestOutcome(id, RequestResolved, Some(company)));
      }
      var envelope := RequestEnvelope(id, live);
      var sourceRowHash := w.digest(envelope);
      quarantine := Upsert(quarantine, RequestKey(id), decision.reasonCode.value, envelope, sourceRowHash,
                           RequestCandidates(decision, live.userId, SortStableIds(facts.targetCompanyIds),
                                             SortStableIds(facts.requesterCompanyIds), id));
      if quarantine[RequestKey(id)].sourceRowHash != sourceRowHash { return Thrown(HashVerifyFailed); }
      var deleted := DeleteRequest(id);
      if deleted != 1 { return Thrown(ExtractionFailed); }
      return Committed(RequestOutcome(id, RequestExtracted, None));
    }

    method ControlRow(
        w: World, review: Review, selfDigest: Text, changedCount: nat)
      returns (r: Attempt<(ControlOutcome, Text)>)
      modifies this
      ensures match StepControl(w, review, selfDigest, old(State()), changedCount)
              case Committed(s) => r == Committed((s.outcome, s.hash)) && State() == s.db
              case Thrown(f) => r == Thrown(f)
    {
      hide ControlSourceOf, ConservationOf, ControlFactsDigest;
      var row := ControlRowOf(w, review, selfDigest, State(), changedCount);
      var outcome := Insert;
      if CONTROL_KEY in quarantine {
        var existing := quarantine[CONTROL_KEY];
        var identical := existing.reasonCode == row.reasonCode && existing.sourceRowJson == row.sourceRowJson
                         && existing.candidateScopeJson == row.candidateScopeJson;
        if !identical { return Thrown(ControlRowConflict); }
        outcome := IdenticalNoop;
      } else {
        quarantine := quarantine[CONTROL_KEY := row];
      }
      var stored := quarantine[CONTROL_KEY];
      if w.digest(stored.sourceRowJson) != stored.sourceRowHash { return Thrown(ControlHashMismatch); }
      if stored.reviewDigest != Some(selfDigest) && outcome == Insert { return Thrown(ControlDigestMismatch); }
      return Committed((outcome, stored.sourceRowHash));
    }

    /** What the loop over the entries still owes from entry `i` on. */
    lemma ProjectsFrom(w: World, ctx: Context, run: ProjectRun, entries: seq<ManifestEntry>, i: nat)
      requires i < |entries|
      ensures ApplyProjects(w, ctx, run, entries[i..]) ==
              match StepProject(w, ctx, run.db, entries[i])
              case Thrown(f) => Thrown(f)
              case Committed(s) => ApplyProjects(w, ctx, ProjectRun(s.db, run.outcomes + [s.outcome]), entries[i + 1..])
    {
      hide StepProject;
      assert entries[i..][0] == entries[i] && entries[i..][1..] == entries[i + 1..];
    }

    /** What the loop over the request ids still owes from id `i` on. */
    lemma RequestsFrom(w: World, run: RequestRun, ids: seq<Id>, i: nat)
      requires i < |ids|
      ensures ApplyRequests(w, run, ids[i..]) ==
              match StepRequest(w, run.db, ids[i])
              case Thrown(f) => Thrown(f)
              case Committed(s) => ApplyRequests(w, RequestRun(s.db, run.outcomes + [s.outcome]), ids[i + 1..])
    {
      hide StepRequest;
      assert ids[i..][0] == ids[i] && ids[i..][1..] == ids[i + 1..];
    }

    lemma NothingLeft(w: World, ctx: Context, p: ProjectRun, r: RequestRun)
      ensures ApplyProjects(w, ctx, p, []) == Committed(p) && ApplyRequests(w, r, []) == Committed(r)
    {}

    lemma NothingCounted()
      ensures ProjectChanges([]) == 0 && RequestChanges([]) == 0
    {}

    /** What is refused before anything is written. */
    lemma Refused(w: World, db: Db, review: Review)
      ensures !ReviewLoads(review) ==> Apply(w, db, review) == Thrown(BadReviewFile)
      ensures ReviewLoads(review) && !AllDecisionsOk(review.entries) ==> Apply(w, db, review) == Thrown(InvalidDecision)
      ensures ReviewLoads(review) && AllDecisionsOk(review.entries) ==>
                ManifestDigest(w, review.entries) != review.dryRunDigest ==>
                  Apply(w, db, review) == Thrown(StaleManifestDigest)
    {
      hide ApplyProjects, ApplyRequests, StepControl, ManifestDigest, ConservationOf, CountsOf, NonBlank, DecisionOk;
    }

    /** The stages after that, each given the outcome of the one before. */
    lemma Stages(w: World, db: Db, review: Review, p: ProjectRun, r: RequestRun)
      requires ReviewLoads(review) && AllDecisionsOk(review.entries)
      requires ManifestDigest(w, review.entries) == review.dryRunDigest
      ensures var ids, digest := SortTexts(review.roleChangeRequestIds), ManifestDigest(w, review.entries);
              var projects := ApplyProjects(w, Context(review.reviewerKey, digest), ProjectRun(db, []), review.entries);
              && (projects.Thrown? ==> Apply(w, db, review) == Thrown(projects.failure))
              && (projects == Committed(p) ==>
                    var requests := ApplyRequests(w, RequestRun(p.db, []), ids);
                    && (requests.Thrown? ==> Apply(w, db, review) == Thrown(requests.failure))
                    && (requests == Committed(r) ==>
                          var changed := ProjectChanges(p.outcomes) + RequestChanges(r.outcomes);
                          var c := StepControl(w, review, digest, r.db, changed);
                          var conservation := ConservationOf(r.db, ids);
                          var counts := CountsOf(review, conservation);
                          Apply(w, db, review) ==
                            if c.Thrown? then Thrown(c.failure)
                            else Committed(Applied(c.value.db,
                                   Report(digest, counts, conservation, changed, c.value.outcome, c.value.hash,
                                          p.outcomes, r.outcomes)))))
    {
      hide ApplyProjects, ApplyRequests, StepControl, ManifestDigest, ConservationOf, CountsOf, NonBlank, DecisionOk,
           ProjectChanges, RequestChanges, SortTexts;
    }

    /** The body of the transaction; what a throw leaves behind is rolled back by the caller. */
    method Transaction(w: World, review: Review) returns (r: Attempt<Report>)
      modifies this
      ensures match Apply(w, old(State()), review)
              case Committed(a) => r == Committed(a.report) && State() == a.db
              case Thrown(f) => r == Thrown(f)
    {
      hide StepProject, StepRequest, StepControl, ManifestDigest, ConservationOf, CountsOf, NonBlank, ApplyProjects,
           ApplyRequests, Apply, ProjectChanges, RequestChanges, SortTexts;
      ghost var before := State();
      Refused(w, before, review);
      NothingCounted();
      if !ReviewLoads(review) { return Thrown(BadReviewFile); }
      var i := 0;
      while i < |review.entries|
        invariant 0 <= i <= |review.entries| && State() == old(State())
        invariant forall j :: 0 <= j < i ==> DecisionOk(review.entries[j])
      {
        if !DecisionOk(review.entries[i]) { return Thrown(InvalidDecision); }
        i := i + 1;
      }
      hide DecisionOk;
      var selfDigest := ManifestDigest(w, review.entries);
      if selfDigest != review.dryRunDigest { return Thrown(StaleManifestDigest); }

      var ctx := Context(review.reviewerKey, selfDigest);
      var projectOutcomes: seq<ProjectOutcome> := [];
      var projectAssigned, projectQuarantined := 0, 0;
      i := 0;
      assert review.entries[0..] == review.entries;
      ghost var promisedProjects := ApplyProjects(w, ctx, ProjectRun(State(), []), review.entries);
      while i < |review.entries|
        invariant 0 <= i <= |review.entries|
        invariant projectAssigned + projectQuarantined == ProjectChanges(projectOutcomes)
        invariant ApplyProjects(w, ctx, ProjectRun(State(), projectOutcomes), review.entries[i..]) == promisedProjects
      {
        var entry := review.entries[i];
        ProjectsFrom(w, ctx, ProjectRun(State(), projectOutcomes), review.entries, i);
        var step := ProjectEntry(w, ctx, entry);
        if step.Thrown? {
          Stages(w, before, review, ProjectRun(before, []), RequestRun(before, []));
          return Thrown(step.failure);
        }
        ProjectChangesNext(projectOutcomes, step.value);
        if step.value.kind == Assigned { projectAssigned := projectAssigned + 1; }
        else if step.value.kind == Quarantined { projectQuarantined := projectQuarantined + 1; }
        projectOutcomes := projectOutcomes + [step.value];
        i := i + 1;
      }
      ghost var afterProjects := State();
      NothingLeft(w, ctx, ProjectRun(afterProjects, projectOutcomes), RequestRun(afterProjects, []));
      assert review.entries[i..] == [];
      assert promisedProjects == Committed(ProjectRun(afterProjects, projectOutcomes));

      var ids := SortTexts(review.roleChangeRequestIds);
      var requestOutcomes: seq<RequestOutcome> := [];
      var resolved, extracted := 0, 0;
      i := 0;
      assert ids[0..] == ids;
      ghost var promisedRequests := ApplyRequests(w, RequestRun(State(), []), ids);
      while i < |ids|
        invariant 0 <= i <= |ids|
        invariant resolved + extracted == RequestChanges(requestOutcomes)
        invariant ApplyRequests(w, RequestRun(State(), requestOutcomes), ids[i..]) == promisedRequests
      {
        RequestsFrom(w, RequestRun(State(), requestOutcomes), ids, i);
        var step := RequestId(w, ids[i]);
        if step.Thrown? {
          Stages(w, before, review, ProjectRun(afterProjects, projectOutcomes), RequestRun(before, []));
          return Thrown(step.failure);
        }
        RequestChangesNext(requestOutcomes, step.value);
        if step.value.kind == RequestResolved { resolved := resolved + 1; }
        else if step.value.kind == RequestExtracted { extracted := extracted + 1; }
        requestOutcomes := requestOutcomes + [step.value];
        i := i + 1;
      }
      ghost var afterRequests := State();
      NothingLeft(w, ctx, ProjectRun(afterProjects, projectOutcomes), RequestRun(afterRequests, requestOutcomes));
      assert ids[i..] == [];
      assert promisedRequests == Committed(RequestRun(afterRequests, requestOutcomes));

      Stages(w, before, review, ProjectRun(afterProjects, projectOutcomes), RequestRun(afterRequests, requestOutcomes));
      var conservation := ConservationOf(State(), ids);
      var counts := CountsOf(review, conservation);
      var changedCount := projectAssigned + resolved + extracted + projectQuarantined;
      var control := ControlRow(w, review, selfDigest, changedCount);
      if control.Thrown? { return Thrown(control.failure); }
      return Committed(Report(selfDigest, counts, conservation, changedCount, control.value.0, control.value.1,
        projectOutcomes, requestOutcomes));
    }

    /** One apply: the new state and report, or a failure that leaves every table as it was. */
    method RunApply(w: World, review: Review) returns (r: Attempt<Report>)
      modifies this
      ensures State() == After(w, old(State()), review)
      ensures match Apply(w, old(State()), review)
              case Committed(a) => r == Committed(a.report)
              case Thrown(f) => r == Thrown(f)
    {
      hide Apply;
      var before := State();
      r := Transaction(w, review);
      if r.Thrown? { projects, requests, quarantine := before.projects, before.requests, before.quarantine; }
    }
  }
}
