/** What a successful apply leaves in the tables and in its report, column by column. */
module BackfillTables {
  import opened Options
  import opened Sequences
  import opened Text
  import opened Backfill
  import opened BackfillRuns

  // ---- One listed request -------------------------------------------------------------------

  /** The columns of a quarantine row that an upsert leaves alone, or the ones a new row starts with. */
  ghost predicate Carried(before: Db, after: Db, k: Key)
    requires k in after.quarantine
  {
    var row := after.quarantine[k];
    if k in before.quarantine
    then row.rowId == before.quarantine[k].rowId && row.reviewDigest == before.quarantine[k].reviewDigest
         && row.resolution == before.quarantine[k].resolution
    else row.rowId == Generated && row.reviewDigest == None && row.resolution == None
  }

  /** The quarantine record of a request that is gone holds the whole row, its hash and why it had to go. */
  ghost predicate Extracted(w: World, before: Db, after: Db, id: Id)
    requires id in before.requests
  {
    var r, k := before.requests[id], Key(RequestModel, id);
    var f := w.roleFacts(r.userId, r.requestedBy);
    && id !in after.requests && k in after.quarantine && Carried(before, after, k)
    && var row := after.quarantine[k];
       && row.sourceRowJson == RequestEnvelope(id, r) && row.sourceRowHash == w.digest(RequestEnvelope(id, r))
       && Some(row.reasonCode) == ClassifyRoleChange(f).reasonCode
       && row.candidateScopeJson ==
            RequestCandidates(ClassifyRoleChange(f), r.userId, SortStableIds(f.targetCompanyIds),
                              SortStableIds(f.requesterCompanyIds), id)
  }

  /** What has become of a request that was live when the apply began. */
  ghost predicate RequestLeft(w: World, before: Db, after: Db, id: Id)
    requires id in before.requests
  {
    var r := before.requests[id];
    var f := w.roleFacts(r.userId, r.requestedBy);
    if r.company.Some? then SameRequestAt(before, after, id)
    else if ClassifyRoleChange(f).classification == Resolved then
      && id in after.requests && after.requests[id].company.Some? && OnlyShared(f, after.requests[id].company.value)
      && after.requests[id].userId == r.userId && after.requests[id].requestedBy == r.requestedBy
      && after.requests[id].other == r.other
      && SameRequestAt(before, after.(requests := before.requests), id)
    else Extracted(w, before, after, id)
  }

  lemma StepRequestLeft(w: World, db: Db, id: Id)
    requires id in db.requests && StepRequest(w, db, id).Committed?
    ensures RequestLeft(w, db, StepRequest(w, db, id).value.db, id)
  {
    hide ClassifyRoleChange, SortStableIds, OnlyShared;
    ResolvedExactly(w.roleFacts(db.requests[id].userId, db.requests[id].requestedBy));
  }

  lemma RequestLeftLocal(w: World, before: Db, after: Db, b: Db, a: Db, id: Id)
    requires id in before.requests && RequestLeft(w, before, after, id)
    requires SameRequestAt(before, b, id) && SameRequestAt(after, a, id)
    ensures RequestLeft(w, b, a, id)
  {
    hide ClassifyRoleChange, SortStableIds, OnlyShared;
  }

  /** A settled request is not touched again. */
  lemma {:induction false} SettledUntouched(w: World, run: RequestRun, ids: seq<Id>, id: Id)
    requires ApplyRequests(w, run, ids).Committed? && RequestSettled(w, run.db, id)
    ensures SameRequestAt(run.db, ApplyRequests(w, run, ids).value.db, id)
    decreases ids
  {
    hide StepRequest;
    if ids != [] {
      var s := StepRequest(w, run.db, ids[0]).value;
      StepRequestFrame(w, run.db, ids[0]);
      RequestStaysSettled(w, run.db, id, ids[0]);
      SettledUntouched(w, RequestRun(s.db, run.outcomes + [s.outcome]), ids[1..], id);
      assert SameRequestAt(run.db, s.db, id);
    }
  }

  lemma {:induction false} RequestsLeft(w: World, run: RequestRun, ids: seq<Id>, id: Id)
    requires ApplyRequests(w, run, ids).Committed? && id in ids && id in run.db.requests
    ensures RequestLeft(w, run.db, ApplyRequests(w, run, ids).value.db, id)
    decreases ids
  {
    hide StepRequest, RequestLeft, RequestSettled;
    var s := StepRequest(w, run.db, ids[0]).value;
    var next := RequestRun(s.db, run.outcomes + [s.outcome]);
    var after := ApplyRequests(w, run, ids).value.db;
    if ids[0] == id {
      StepRequestLeft(w, run.db, id);
      RequestStepSettles(w, run.db, id);
      SettledUntouched(w, next, ids[1..], id);
      RequestLeftLocal(w, run.db, s.db, run.db, after, id);
    } else {
      StepRequestFrame(w, run.db, ids[0]);
      assert SameRequestAt(run.db, s.db, id);
      RequestsLeft(w, next, ids[1..], id);
      RequestLeftLocal(w, s.db, after, run.db, after, id);
    }
  }

  /**
   * After a successful apply every listed request that was live is as its decision says: left as it
   * was, given the one company its people share, or gone with a record of the whole row. Requests
   * not listed are untouched, and none appears.
   */
  lemma RequestsAsDecided(w: World, db: Db, review: Review)
    requires Apply(w, db, review).Committed?
    ensures var a := Apply(w, db, review).value;
            forall id ::
              if id in review.roleChangeRequestIds && id in db.requests then RequestLeft(w, db, a.db, id)
              else SameRequestAt(db, a.db, id)
  {
    hide Apply, ApplyProjects, ApplyRequests, StepControl, ManifestDigest, ConservationOf, CountsOf, NonBlank, Advances,
         RequestLeft, RequestSettled, SameAt, DecisionOk;
    var a := Apply(w, db, review).value;
    var p, r := ApplyStages(w, db, review);
    var ctx := Context(review.reviewerKey, ManifestDigest(w, review.entries));
    var ids := SortTexts(review.roleChangeRequestIds);
    ProjectsFrame(w, ctx, ProjectRun(db, []), review.entries);
    RequestsFrame(w, RequestRun(p.db, []), ids);
    ControlFrame(w, review, ctx.selfDigest, r.db, a.report.changedCount);
    SortIdsKeeps(review.roleChangeRequestIds);
    forall id
      ensures if id in review.roleChangeRequestIds && id in db.requests then RequestLeft(w, db, a.db, id)
              else SameRequestAt(db, a.db, id)
    {
      assert SameRequestAt(db, p.db, id) && SameRequestAt(r.db, a.db, id);
      if id in ids && id in db.requests {
        RequestsLeft(w, RequestRun(p.db, []), ids, id);
        RequestLeftLocal(w, p.db, r.db, db, a.db, id);
      } else if id in ids {
        GoneSettled(w, RequestRun(p.db, []), ids, id);
        SettledUntouched(w, RequestRun(p.db, []), ids, id);
      }
    }
  }

  /** A request that is gone already has its record, or the apply would have thrown. */
  lemma {:induction false} GoneSettled(w: World, run: RequestRun, ids: seq<Id>, id: Id)
    requires ApplyRequests(w, run, ids).Committed? && id in ids && id !in run.db.requests
    ensures RequestSettled(w, run.db, id)
    decreases ids
  {
    hide RequestDecision, ExtractRequest;
    if ids[0] != id {
      var s := StepRequest(w, run.db, ids[0]).value;
      StepRequestFrame(w, run.db, ids[0]);
      hide StepRequest, RequestSettled;
      assert SameRequestAt(run.db, s.db, id);
      GoneSettled(w, RequestRun(s.db, run.outcomes + [s.outcome]), ids[1..], id);
      RequestSettledLocal(w, s.db, run.db, id);
    }
  }

  /** What the report says of a listed request, given how it stood before. */
  ghost predicate RequestTold(w: World, before: Db, id: Id, o: RequestOutcome) {
    && o.sourceId == id
    && if id !in before.requests then o.kind == AlreadyExtracted && o.company == None
       else
         var r := before.requests[id];
         var f := w.roleFacts(r.userId, r.requestedBy);
         if r.company.Some? then o.kind == AlreadyResolved && o.company == r.company
         else if ClassifyRoleChange(f).classification == Resolved then
           o.kind == RequestResolved && o.company.Some? && OnlyShared(f, o.company.value)
         else o.kind == RequestExtracted && o.company == None
  }

  lemma StepTold(w: World, db: Db, id: Id)
    requires StepRequest(w, db, id).Committed?
    ensures RequestTold(w, db, id, StepRequest(w, db, id).value.outcome)
  {
    hide ClassifyRoleChange, SortStableIds, OnlyShared;
    if id in db.requests { ResolvedExactly(w.roleFacts(db.requests[id].userId, db.requests[id].requestedBy)); }
  }

  lemma {:induction false} RequestOutcomesGrow(w: World, run: RequestRun, ids: seq<Id>)
    requires ApplyRequests(w, run, ids).Committed?
    ensures var r := ApplyRequests(w, run, ids).value;
            |r.outcomes| == |run.outcomes| + |ids| && r.outcomes[..|run.outcomes|] == run.outcomes
    decreases ids
  {
    hide StepRequest;
    if ids != [] {
      var s := StepRequest(w, run.db, ids[0]).value;
      var next := RequestRun(s.db, run.outcomes + [s.outcome]);
      RequestOutcomesGrow(w, next, ids[1..]);
      var r := ApplyRequests(w, run, ids).value;
      assert r.outcomes[..|run.outcomes|] == r.outcomes[..|next.outcomes|][..|run.outcomes|];
    }
  }

  lemma {:induction false} RequestsTold(w: World, run: RequestRun, ids: seq<Id>, i: nat)
    requires ApplyRequests(w, run, ids).Committed? && i < |ids| && forall j :: 0 <= j < i ==> ids[j] != ids[i]
    ensures var r := ApplyRequests(w, run, ids).value;
            && |r.outcomes| == |run.outcomes| + |ids|
            && RequestTold(w, run.db, ids[i], r.outcomes[|run.outcomes| + i])
    decreases ids
  {
    hide StepRequest, RequestTold;
    var s := StepRequest(w, run.db, ids[0]).value;
    var next := RequestRun(s.db, run.outcomes + [s.outcome]);
    var r := ApplyRequests(w, run, ids).value;
    RequestOutcomesGrow(w, next, ids[1..]);
    if i == 0 {
      StepTold(w, run.db, ids[0]);
      assert r.outcomes[|run.outcomes|] == r.outcomes[..|next.outcomes|][|run.outcomes|];
    } else {
      assert ids[0] != ids[i] && ids[1..][i - 1] == ids[i];
      forall j | 0 <= j < i - 1 ensures ids[1..][j] != ids[1..][i - 1] { assert ids[j + 1] != ids[i]; }
      StepRequestFrame(w, run.db, ids[0]);
      RequestsTold(w, next, ids[1..], i - 1);
      assert SameRequestAt(run.db, s.db, ids[i]);
      ToldLocal(w, s.db, run.db, ids[i], r.outcomes[|run.outcomes| + i]);
    }
  }

  lemma ToldLocal(w: World, a: Db, b: Db, id: Id, o: RequestOutcome)
    requires RequestTold(w, a, id, o) && SameRequestAt(a, b, id)
    ensures RequestTold(w, b, id, o)
  {
    hide ClassifyRoleChange, OnlyShared;
  }

  /** The report tells of the listed requests in the order of their ids, truly where an id is told of first. */
  lemma RequestsReported(w: World, db: Db, review: Review)
    requires Apply(w, db, review).Committed?
    ensures var told, ids := Apply(w, db, review).value.report.requestOutcomes, SortTexts(review.roleChangeRequestIds);
            && |told| == |ids|
            && forall i :: 0 <= i < |ids| && (forall j :: 0 <= j < i ==> ids[j] != ids[i]) ==>
                 RequestTold(w, db, ids[i], told[i])
  {
    hide Apply, ApplyProjects, ApplyRequests, StepControl, ManifestDigest, ConservationOf, CountsOf, NonBlank, Advances,
         RequestTold, DecisionOk;
    var p, r := ApplyStages(w, db, review);
    var ctx := Context(review.reviewerKey, ManifestDigest(w, review.entries));
    var ids := SortTexts(review.roleChangeRequestIds);
    ProjectsFrame(w, ctx, ProjectRun(db, []), review.entries);
    RequestOutcomesGrow(w, RequestRun(p.db, []), ids);
    forall i | 0 <= i < |ids| && (forall j :: 0 <= j < i ==> ids[j] != ids[i])
      ensures RequestTold(w, db, ids[i], r.outcomes[i])
    {
      RequestsTold(w, RequestRun(p.db, []), ids, i);
      assert SameRequestAt(db, p.db, ids[i]);
      ToldLocal(w, p.db, db, ids[i], r.outcomes[i]);
    }
  }

  // ---- One manifest entry ---------------------------------------------------------------------

  /** The row, or what the membership tables say of it, is no longer what was reviewed. */
  predicate Changed(w: World, p: ProjectRow, f: ManifestFacts) {
    || w.digest(ProjectEnvelope(f.sourceId, p)) != f.sourceRowHash
    || w.digest(ProjectFacts(f.sourceId, w.projectTuples(f.sourceId))) != f.sourceFactsDigest
  }

  /** This quarantine row says what the entry's verdict is, of the row as it stands. */
  predicate SaysVerdict(w: World, row: QuarantineRow, p: ProjectRow, f: ManifestFacts) {
    && row.reasonCode == (if f.classification == Ambiguous then ProjectAmbiguous else ProjectUnmatched)
    && row.sourceRowHash == w.digest(ProjectEnvelope(f.sourceId, p))
    && row.candidateScopeJson ==
         ProjectCandidates(f.classification, f.candidateCompanyIds,
                           ProjectFacts(f.sourceId, w.projectTuples(f.sourceId)))
  }

  /** What has become of the project one entry speaks for, and what the report says of it. */
  ghost predicate ProjectLeft(w: World, ctx: Context, before: Db, after: Db, e: ManifestEntry, kind: ProjectKind) {
    var id, k := e.facts.sourceId, Key(ProjectModel, e.facts.sourceId);
    if id !in before.projects then SameAt(before, after, id) && kind == Missing
    else
      var p := before.projects[id];
      if e.decision == Some(Assign) && p.company.Some? && p.company == e.selectedCompanyId then
        SameAt(before, after, id) && kind == AlreadyConsistent
      else if Changed(w, p, e.facts) then SameAt(before, after, id) && kind == StaleManifest
      else if e.decision == Some(Assign) && p.company.Some? then SameAt(before, after, id) && kind == Conflict
      else if e.decision == Some(Assign) then AssignedLeft(w, ctx, before, after, e) && kind == Assigned
      else
        && e.facts.classification != Resolved && id in after.projects && after.projects[id] == p
        && k in after.quarantine && SaysVerdict(w, after.quarantine[k], p, e.facts)
        && if k in before.quarantine && SaysVerdict(w, before.quarantine[k], p, e.facts)
           then after.quarantine[k] == before.quarantine[k] && kind == AlreadyQuarantined
           else after.quarantine[k].sourceRowJson == ProjectEnvelope(id, p) && Carried(before, after, k)
                && kind == Quarantined
  }

  /** The company is filled in and nothing else of the row; an open quarantine record is resolved. */
  ghost predicate AssignedLeft(w: World, ctx: Context, before: Db, after: Db, e: ManifestEntry) {
    var id, k := e.facts.sourceId, Key(ProjectModel, e.facts.sourceId);
    && e.selectedCompanyId.Some? && e.selectedCompanyId.value in w.tenantOf
    && var c := e.selectedCompanyId.value;
       && id in before.projects && id in after.projects
       && after.projects[id] == ProjectRow(Some(c), before.projects[id].other)
       && (k in after.quarantine <==> k in before.quarantine)
       && (k in before.quarantine ==>
             after.quarantine[k] ==
               before.quarantine[k].(resolution :=
                 Some(Resolution(ctx.reviewerKey,
                      ProjectResolution(c, w.tenantOf[c], ctx.selfDigest, e.facts.sourceFactsDigest)))))
  }

  lemma StepProjectLeft(w: World, ctx: Context, db: Db, e: ManifestEntry)
    requires StepProject(w, ctx, db, e).Committed? && DecisionOk(e)
    ensures var s := StepProject(w, ctx, db, e).value;
            ProjectLeft(w, ctx, db, s.db, e, s.outcome.kind) && s.outcome.sourceId == e.facts.sourceId
  {
    hide NonBlank;
  }

  lemma ProjectLeftLocal(
      w: World, ctx: Context, before: Db, after: Db, b: Db, a: Db, e: ManifestEntry, kind: ProjectKind)
    requires ProjectLeft(w, ctx, before, after, e, kind)
    requires SameAt(before, b, e.facts.sourceId) && SameAt(after, a, e.facts.sourceId)
    ensures ProjectLeft(w, ctx, b, a, e, kind)
  {}

  lemma {:induction false} OutcomesGrow(w: World, ctx: Context, run: ProjectRun, entries: seq<ManifestEntry>)
    requires ApplyProjects(w, ctx, run, entries).Committed?
    ensures var r := ApplyProjects(w, ctx, run, entries).value;
            |r.outcomes| == |run.outcomes| + |entries| && r.outcomes[..|run.outcomes|] == run.outcomes
    decreases entries
  {
    hide StepProject;
    if entries != [] {
      var s := StepProject(w, ctx, run.db, entries[0]).value;
      var next := ProjectRun(s.db, run.outcomes + [s.outcome]);
      OutcomesGrow(w, ctx, next, entries[1..]);
      var r := ApplyProjects(w, ctx, run, entries).value;
      assert r.outcomes[..|run.outcomes|] == r.outcomes[..|next.outcomes|][..|run.outcomes|];
    }
  }

  lemma {:induction false} ProjectsLeft(w: World, ctx: Context, run: ProjectRun, entries: seq<ManifestEntry>, i: nat)
    requires ApplyProjects(w, ctx, run, entries).Committed? && i < |entries| && Distinct(EntryIds(entries))
    requires forall e :: e in entries ==> DecisionOk(e)
    ensures var r := ApplyProjects(w, ctx, run, entries).value;
            && |r.outcomes| == |run.outcomes| + |entries|
            && r.outcomes[|run.outcomes| + i].sourceId == entries[i].facts.sourceId
            && ProjectLeft(w, ctx, run.db, r.db, entries[i], r.outcomes[|run.outcomes| + i].kind)
    decreases entries
  {
    hide StepProject, ProjectLeft, DecisionOk, Advances, SameAt, EntryIds, Distinct;
    var s := StepProject(w, ctx, run.db, entries[0]).value;
    var next := ProjectRun(s.db, run.outcomes + [s.outcome]);
    var r := ApplyProjects(w, ctx, run, entries).value;
    OutcomesGrow(w, ctx, next, entries[1..]);
    RestDistinct(entries);
    if i == 0 {
      StepProjectLeft(w, ctx, run.db, entries[0]);
      ProjectsFrame(w, ctx, next, entries[1..]);
      assert r.outcomes[|run.outcomes|] == r.outcomes[..|next.outcomes|][|run.outcomes|];
      SameBack(run.db, run.db, s.db, entries[0].facts.sourceId);
      ProjectLeftLocal(w, ctx, run.db, s.db, run.db, r.db, entries[0], s.outcome.kind);
    } else {
      StepProjectFrame(w, ctx, run.db, entries[0]);
      ProjectsLeft(w, ctx, next, entries[1..], i - 1);
      OtherEntry(entries, i);
      SameBack(run.db, s.db, r.db, entries[i].facts.sourceId);
      ProjectLeftLocal(w, ctx, s.db, r.db, run.db, r.db, entries[i], r.outcomes[|run.outcomes| + i].kind);
    }
  }

  lemma SameBack(a: Db, b: Db, c: Db, id: Id)
    ensures SameAt(a, a, id) && SameAt(c, c, id) && (SameAt(a, b, id) ==> SameAt(b, a, id))
  {}

  lemma RestDistinct(entries: seq<ManifestEntry>)
    requires entries != [] && Distinct(EntryIds(entries))
    ensures Distinct(EntryIds(entries[1..])) && entries[0].Id() !in EntryIds(entries[1..])
  {
    assert EntryIds(entries) == [entries[0].Id()] + EntryIds(entries[1..]);
    var all, rest := EntryIds(entries), EntryIds(entries[1..]);
    forall i, j | 0 <= i < j < |rest| ensures rest[i] != rest[j] { assert all[i + 1] != all[j + 1]; }
    forall i | 0 <= i < |rest| ensures rest[i] != all[0] { assert all[0] != all[i + 1]; }
  }

  lemma OtherEntry(entries: seq<ManifestEntry>, i: nat)
    requires Distinct(EntryIds(entries)) && 0 < i < |entries|
    ensures entries[0].facts.sourceId != entries[i].facts.sourceId
  {
    hide EntryIds;
    var ids := EntryIds(entries);
    assert ids[0] != ids[i];
  }

  /**
   * After a successful apply of a review file with one entry for each project, every project is as
   * its entry says and the report lists what became of each in order; others are untouched.
   */
  lemma ProjectsAsReviewed(w: World, db: Db, review: Review)
    requires Apply(w, db, review).Committed? && Distinct(EntryIds(review.entries))
    ensures var a := Apply(w, db, review).value;
            && |a.report.projectOutcomes| == |review.entries|
            && (forall i :: 0 <= i < |review.entries| ==>
                  && a.report.projectOutcomes[i].sourceId == review.entries[i].facts.sourceId
                  && ProjectLeft(w, Context(review.reviewerKey, review.dryRunDigest), db, a.db, review.entries[i],
                                 a.report.projectOutcomes[i].kind))
            && forall id :: id !in EntryIds(review.entries) ==> SameAt(db, a.db, id)
  {
    hide Apply, ApplyProjects, ApplyRequests, StepControl, ManifestDigest, ConservationOf, CountsOf, NonBlank, Advances,
         ProjectLeft, DecisionOk, Distinct;
    var a := Apply(w, db, review).value;
    var p, r := ApplyStages(w, db, review);
    var ctx := Context(review.reviewerKey, ManifestDigest(w, review.entries));
    ProjectsFrame(w, ctx, ProjectRun(db, []), review.entries);
    RequestsFrame(w, RequestRun(p.db, []), SortTexts(review.roleChangeRequestIds));
    ControlFrame(w, review, ctx.selfDigest, r.db, a.report.changedCount);
    OutcomesGrow(w, ctx, ProjectRun(db, []), review.entries);
    forall i | 0 <= i < |review.entries|
      ensures a.report.projectOutcomes[i].sourceId == review.entries[i].facts.sourceId
      ensures ProjectLeft(w, ctx, db, a.db, review.entries[i], a.report.projectOutcomes[i].kind)
    {
      var e := review.entries[i];
      ProjectsLeft(w, ctx, ProjectRun(db, []), review.entries, i);
      assert SameAt(p.db, r.db, e.facts.sourceId) && SameAt(r.db, a.db, e.facts.sourceId);
      ProjectLeftLocal(w, ctx, db, p.db, db, a.db, e, p.outcomes[i].kind);
    }
    forall id | id !in EntryIds(review.entries) ensures SameAt(db, a.db, id) {
      assert SameAt(db, p.db, id) && SameAt(p.db, r.db, id) && SameAt(r.db, a.db, id);
    }
  }

  // ---- Entries repeated: what a record that was written holds ----------------------------------------

  /** The row as it was when this record was written: as at the start, or with the company it ended with. */
  ghost predicate RowThen(before: Db, after: Db, id: Id, p: ProjectRow) {
    id in before.projects && id in after.projects && (p == before.projects[id] || p == after.projects[id])
  }

  /** The record says of the project what it said before, or what some entry quarantining it says. */
  ghost predicate RecordLeft(w: World, before: Db, after: Db, entries: seq<ManifestEntry>, id: Id) {
    var k := Key(ProjectModel, id);
    && (k in before.quarantine ==> k in after.quarantine)
    && (k in after.quarantine ==>
          || (k in before.quarantine &&
                after.quarantine[k].(resolution := None) == before.quarantine[k].(resolution := None))
          || exists e, p ::
               && e in entries && e.facts.sourceId == id && e.decision == Some(Quarantine)
               && e.facts.classification != Resolved && RowThen(before, after, id, p) && !Changed(w, p, e.facts)
               && SaysVerdict(w, after.quarantine[k], p, e.facts)
               && after.quarantine[k].sourceRowJson == ProjectEnvelope(id, p))
  }

  lemma StepRecordLeft(w: World, ctx: Context, db: Db, e: ManifestEntry)
    requires StepProject(w, ctx, db, e).Committed? && DecisionOk(e)
    ensures RecordLeft(w, db, StepProject(w, ctx, db, e).value.db, [e], e.facts.sourceId)
  {
    StepProjectLeft(w, ctx, db, e);
    hide StepProject, NonBlank, Changed;
    assert e in [e];
  }

  lemma RecordThen(w: World, a: Db, b: Db, c: Db, e: ManifestEntry, rest: seq<ManifestEntry>, id: Id)
    requires RecordLeft(w, a, b, [e], id) && RecordLeft(w, b, c, rest, id)
    requires Advances(a, b, [e]) && Advances(b, c, rest)
    ensures RecordLeft(w, a, c, [e] + rest, id)
  {
    hide Changed, Reviewed;
    forall p | RowThen(b, c, id, p) ensures RowThen(a, c, id, p) {}
    forall p | RowThen(a, b, id, p) ensures RowThen(a, c, id, p) {}
    assert forall f :: f in rest ==> f in [e] + rest;
    assert e in [e] + rest;
  }

  lemma RecordUntouched(w: World, a: Db, b: Db, entries: seq<ManifestEntry>, id: Id)
    requires SameAt(a, b, id)
    ensures RecordLeft(w, a, b, entries, id)
  {}

  lemma {:induction false} RecordsLeft(w: World, ctx: Context, run: ProjectRun, entries: seq<ManifestEntry>, id: Id)
    requires ApplyProjects(w, ctx, run, entries).Committed? && forall e :: e in entries ==> DecisionOk(e)
    ensures RecordLeft(w, run.db, ApplyProjects(w, ctx, run, entries).value.db, entries, id)
    decreases entries
  {
    hide StepProject, RecordLeft, DecisionOk, Advances;
    if entries == [] {
      RecordUntouched(w, run.db, run.db, [], id);
    } else {
      var e, rest := entries[0], entries[1..];
      var s := StepProject(w, ctx, run.db, e).value;
      var next := ProjectRun(s.db, run.outcomes + [s.outcome]);
      StepProjectFrame(w, ctx, run.db, e);
      if e.facts.sourceId == id {
        StepRecordLeft(w, ctx, run.db, e);
      } else {
        RecordUntouched(w, run.db, s.db, [e], id);
      }
      ProjectsFrame(w, ctx, next, rest);
      RecordsLeft(w, ctx, next, rest, id);
      RecordThen(w, run.db, s.db, ApplyProjects(w, ctx, run, entries).value.db, e, rest, id);
      assert entries == [e] + rest;
    }
  }

  /**
   * Whatever the review file repeats: after a successful apply a project's quarantine record is the
   * one it had, or holds the project's row, its hash, and the reason and candidates of an entry that
   * quarantines it.
   */
  lemma RecordsAsReviewed(w: World, db: Db, review: Review, id: Id)
    requires Apply(w, db, review).Committed?
    ensures RecordLeft(w, db, Apply(w, db, review).value.db, review.entries, id)
  {
    hide Apply, ApplyProjects, ApplyRequests, StepControl, ManifestDigest, ConservationOf, CountsOf, NonBlank, Advances,
         DecisionOk, Changed, SaysVerdict;
    var a := Apply(w, db, review).value;
    var p, r := ApplyStages(w, db, review);
    var ctx := Context(review.reviewerKey, ManifestDigest(w, review.entries));
    RecordsLeft(w, ctx, ProjectRun(db, []), review.entries, id);
    RequestsFrame(w, RequestRun(p.db, []), SortTexts(review.roleChangeRequestIds));
    ControlFrame(w, review, ctx.selfDigest, r.db, a.report.changedCount);
    assert SameAt(p.db, r.db, id) && SameAt(r.db, a.db, id);
  }
}
