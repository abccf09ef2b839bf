/** Whole runs of the backfill: what is never overwritten, what a rerun does, what is conserved. */
module BackfillRuns {
  import opened Options
  import opened Sequences
  import opened Text
  import opened Backfill

  // ---- What one entry can touch ----------------------------------------------------------

  /** The two states agree on everything an entry for project `id` reads or writes. */
  ghost predicate SameAt(a: Db, b: Db, id: Id) {
    && (id in a.projects <==> id in b.projects)
    && (id in a.projects ==> a.projects[id] == b.projects[id])
    && (ProjectKey(id) in a.quarantine <==> ProjectKey(id) in b.quarantine)
    && (ProjectKey(id) in a.quarantine ==> a.quarantine[ProjectKey(id)] == b.quarantine[ProjectKey(id)])
  }

  ghost predicate SameRequestAt(a: Db, b: Db, id: Id) {
    && (id in a.requests <==> id in b.requests)
    && (id in a.requests ==> a.requests[id] == b.requests[id])
    && (RequestKey(id) in a.quarantine <==> RequestKey(id) in b.quarantine)
    && (RequestKey(id) in a.quarantine ==> a.quarantine[RequestKey(id)] == b.quarantine[RequestKey(id)])
  }

  ghost predicate SameControl(a: Db, b: Db) {
    && (CONTROL_KEY in a.quarantine <==> CONTROL_KEY in b.quarantine)
    && (CONTROL_KEY in a.quarantine ==> a.quarantine[CONTROL_KEY] == b.quarantine[CONTROL_KEY])
  }

  /** Some reviewed entry assigns exactly this company to exactly this project. */
  ghost predicate Reviewed(entries: seq<ManifestEntry>, id: Id, c: Id) {
    exists i :: 0 <= i < |entries| && entries[i].Id() == id && entries[i].decision == Some(Assign)
      && entries[i].selectedCompanyId == Some(c)
  }

  /**
   * From `a` to `b` no project appears, disappears or loses a column; companies only go from null
   * to a reviewed value.
   */
  ghost predicate Advances(a: Db, b: Db, entries: seq<ManifestEntry>) {
    && a.projects.Keys == b.projects.Keys
    && forall id :: id in a.projects ==>
         && b.projects[id].other == a.projects[id].other
         && (b.projects[id].company == a.projects[id].company ||
             (a.projects[id].company == None && b.projects[id].company.Some?
               && Reviewed(entries, id, b.projects[id].company.value)))
  }

  /** What one entry's step leaves alone, and the little it may change. */
  ghost predicate ProjectFrame(db: Db, e: ManifestEntry, s: ProjectStep) {
    && s.db.requests == db.requests && Advances(db, s.db, [e])
    && (forall id :: id != e.Id() ==> SameAt(db, s.db, id))
    && (forall id :: SameRequestAt(db, s.db, id)) && SameControl(db, s.db)
    && (s.outcome.kind != Assigned && s.outcome.kind != Quarantined ==> s.db == db)
  }

  lemma QuarantineFrame(w: World, db: Db, e: ManifestEntry)
    requires e.Id() in db.projects && QuarantineProject(w, db, e).Committed?
    ensures ProjectFrame(db, e, QuarantineProject(w, db, e).value)
  {
    hide IdenticalQuarantine, RowHash, ProjectCandidateJson, ProjectReason;
  }

  lemma AssignFrame(w: World, ctx: Context, db: Db, e: ManifestEntry)
    requires e.Id() in db.projects && e.decision == Some(Assign) && e.selectedCompanyId.Some?
    requires AssignProject(w, ctx, db, e).Committed?
    ensures ProjectFrame(db, e, AssignProject(w, ctx, db, e).value)
  {
    assert [e][0].Id() == e.Id();
    assert Reviewed([e], e.Id(), e.selectedCompanyId.value);
  }

  lemma NothingMoves(db: Db, e: ManifestEntry, o: ProjectOutcome)
    requires o.kind != Assigned && o.kind != Quarantined
    ensures ProjectFrame(db, e, ProjectStep(db, o))
  {}

  lemma StepProjectFrame(w: World, ctx: Context, db: Db, e: ManifestEntry)
    requires StepProject(w, ctx, db, e).Committed?
    ensures ProjectFrame(db, e, StepProject(w, ctx, db, e).value)
  {
    hide Drifted, QuarantineProject, AssignProject, ProjectFrame;
    var s := StepProject(w, ctx, db, e).value;
    if s.db == db && s.outcome.kind != Assigned && s.outcome.kind != Quarantined {
      NothingMoves(db, e, s.outcome);
    } else if e.decision == Some(Quarantine) {
      QuarantineFrame(w, db, e);
    } else {
      AssignFrame(w, ctx, db, e);
    }
  }

  lemma AdvancesThen(a: Db, b: Db, c: Db, es: seq<ManifestEntry>, fs: seq<ManifestEntry>)
    requires Advances(a, b, es) && Advances(b, c, fs)
    ensures Advances(a, c, es + fs)
  {
    forall id, k | Reviewed(es, id, k) ensures Reviewed(es + fs, id, k) {
      var i :| 0 <= i < |es| && es[i].Id() == id && es[i].decision == Some(Assign)
        && es[i].selectedCompanyId == Some(k);
      assert (es + fs)[i] == es[i];
    }
    forall id, k | Reviewed(fs, id, k) ensures Reviewed(es + fs, id, k) {
      var i :| 0 <= i < |fs| && fs[i].Id() == id && fs[i].decision == Some(Assign)
        && fs[i].selectedCompanyId == Some(k);
      assert (es + fs)[|es| + i] == fs[i];
    }
    hide Reviewed;
  }

  lemma AdvancesRefl(a: Db)
    ensures Advances(a, a, [])
  {}

  lemma {:induction false} ProjectsFrame(w: World, ctx: Context, run: ProjectRun, entries: seq<ManifestEntry>)
    requires ApplyProjects(w, ctx, run, entries).Committed?
    ensures var r := ApplyProjects(w, ctx, run, entries).value;
            && r.db.requests == run.db.requests && Advances(run.db, r.db, entries)
            && (forall id :: id !in EntryIds(entries) ==> SameAt(run.db, r.db, id))
            && (forall id :: SameRequestAt(run.db, r.db, id)) && SameControl(run.db, r.db)
    decreases entries
  {
    hide StepProject, Advances;
    if entries == [] {
      AdvancesRefl(run.db);
    } else {
      var s := StepProject(w, ctx, run.db, entries[0]).value;
      StepProjectFrame(w, ctx, run.db, entries[0]);
      ProjectsFrame(w, ctx, ProjectRun(s.db, run.outcomes + [s.outcome]), entries[1..]);
      var r := ApplyProjects(w, ctx, run, entries).value;
      AdvancesThen(run.db, s.db, r.db, [entries[0]], entries[1..]);
      assert [entries[0]] + entries[1..] == entries;
      forall id | id !in EntryIds(entries) ensures SameAt(run.db, r.db, id) {
        assert id != EntryIds(entries)[0] && id !in EntryIds(entries[1..]);
        assert SameAt(run.db, s.db, id) && SameAt(s.db, r.db, id);
      }
      forall id ensures SameRequestAt(run.db, r.db, id) {
        assert SameRequestAt(run.db, s.db, id) && SameRequestAt(s.db, r.db, id);
      }
    }
  }

  lemma StepRequestFrame(w: World, db: Db, id: Id)
    requires StepRequest(w, db, id).Committed?
    ensures var s := StepRequest(w, db, id).value;
            && s.db.projects == db.projects && (forall k :: SameAt(db, s.db, k)) && SameControl(db, s.db)
            && (forall k :: k != id ==> SameRequestAt(db, s.db, k))
            && (s.outcome.kind != RequestResolved && s.outcome.kind != RequestExtracted ==> s.db == db)
  {
    hide RequestDecision;
    if id in db.requests { ResolvedExactly(w.roleFacts(db.requests[id].userId, db.requests[id].requestedBy)); }
  }

  lemma {:induction false} RequestsFrame(w: World, run: RequestRun, ids: seq<Id>)
    requires ApplyRequests(w, run, ids).Committed?
    ensures var r := ApplyRequests(w, run, ids).value;
            && r.db.projects == run.db.projects && (forall k :: SameAt(run.db, r.db, k)) && SameControl(run.db, r.db)
            && (forall k :: k !in ids ==> SameRequestAt(run.db, r.db, k))
    decreases ids
  {
    hide StepRequest;
    if ids != [] {
      StepRequestFrame(w, run.db, ids[0]);
      var s := StepRequest(w, run.db, ids[0]).value;
      RequestsFrame(w, RequestRun(s.db, run.outcomes + [s.outcome]), ids[1..]);
      var r := ApplyRequests(w, run, ids).value;
      forall k ensures SameAt(run.db, r.db, k) {
        assert SameAt(run.db, s.db, k) && SameAt(s.db, r.db, k);
      }
      forall k | k !in ids ensures SameRequestAt(run.db, r.db, k) {
        assert SameRequestAt(run.db, s.db, k) && SameRequestAt(s.db, r.db, k);
      }
    }
  }

  // ---- The stages of a successful apply -------------------------------------------------------

  /** States after the project loop and after the request loop. */
  ghost predicate Stages(w: World, db: Db, review: Review, p: ProjectRun, r: RequestRun, a: Applied) {
    var ctx := Context(review.reviewerKey, ManifestDigest(w, review.entries));
    var ids := SortTexts(review.roleChangeRequestIds);
    && ApplyProjects(w, ctx, ProjectRun(db, []), review.entries) == Committed(p)
    && ApplyRequests(w, RequestRun(p.db, []), ids) == Committed(r)
    && a.report.changedCount == ProjectChanges(p.outcomes) + RequestChanges(r.outcomes)
    && a.report.conservation == ConservationOf(r.db, ids) && a.report.counts == CountsOf(review, a.report.conservation)
    && StepControl(w, review, ctx.selfDigest, r.db, a.report.changedCount) ==
         Committed(ControlStep(a.db, a.report.controlOutcome, a.report.controlSourceRowHash))
    && a.report.reviewDigest == ctx.selfDigest
    && a.report.projectOutcomes == p.outcomes && a.report.requestOutcomes == r.outcomes
  }

  lemma ApplyStages(w: World, db: Db, review: Review) returns (p: ProjectRun, r: RequestRun)
    requires Apply(w, db, review).Committed?
    ensures Stages(w, db, review, p, r, Apply(w, db, review).value)
    ensures ReviewLoads(review) && AllDecisionsOk(review.entries)
            && ManifestDigest(w, review.entries) == review.dryRunDigest
  {
    hide ApplyProjects, ApplyRequests, StepControl, ManifestDigest, ConservationOf, CountsOf, NonBlank, AllDecisionsOk;
    p := ApplyProjects(w, Context(review.reviewerKey, ManifestDigest(w, review.entries)), ProjectRun(db, []),
      review.entries).value;
    r := ApplyRequests(w, RequestRun(p.db, []), SortTexts(review.roleChangeRequestIds)).value;
  }

  lemma ControlFrame(w: World, review: Review, selfDigest: Text, db: Db, changed: nat)
    requires StepControl(w, review, selfDigest, db, changed).Committed?
    ensures var c := StepControl(w, review, selfDigest, db, changed).value;
            c.db.projects == db.projects && c.db.requests == db.requests &&
            (forall id :: SameAt(db, c.db, id)) && (forall id :: SameRequestAt(db, c.db, id))
  {
    hide ControlRowOf;
  }

  // ---- Companies are only ever filled in, never overwritten -------------------------------------

  lemma ApplyAdvances(w: World, db: Db, review: Review)
    ensures Advances(db, After(w, db, review), review.entries)
  {
    hide Apply, ApplyProjects, ApplyRequests, StepControl, Reviewed;
    if Apply(w, db, review).Committed? {
      var p, r := ApplyStages(w, db, review);
      var ctx := Context(review.reviewerKey, ManifestDigest(w, review.entries));
      ProjectsFrame(w, ctx, ProjectRun(db, []), review.entries);
      RequestsFrame(w, RequestRun(p.db, []), SortTexts(review.roleChangeRequestIds));
      ControlFrame(w, review, ctx.selfDigest, r.db, Apply(w, db, review).value.report.changedCount);
    }
  }

  /** The state after a whole sequence of attempts, the world changing freely in between. */
  ghost function AfterAll(ws: seq<World>, db: Db, reviews: seq<Review>): Db
    requires |ws| == |reviews|
  {
    if reviews == [] then db else AfterAll(ws[1..], After(ws[0], db, reviews[0]), reviews[1..])
  }

  ghost function AllEntries(reviews: seq<Review>): seq<ManifestEntry> {
    if reviews == [] then [] else reviews[0].entries + AllEntries(reviews[1..])
  }

  /**
   * Over any sequence of applies, successful or not, a project's company moves at most once, from
   * null to a value some review assigned to that project.
   */
  lemma {:induction false} CompanyNeverOverwritten(ws: seq<World>, db: Db, reviews: seq<Review>)
    requires |ws| == |reviews|
    ensures Advances(db, AfterAll(ws, db, reviews), AllEntries(reviews))
    decreases reviews
  {
    hide After, Advances;
    if reviews == [] {
      AdvancesRefl(db);
    } else {
      ApplyAdvances(ws[0], db, reviews[0]);
      CompanyNeverOverwritten(ws[1..], After(ws[0], db, reviews[0]), reviews[1..]);
      AdvancesThen(db, After(ws[0], db, reviews[0]), AfterAll(ws, db, reviews), reviews[0].entries,
        AllEntries(reviews[1..]));
    }
  }

  // ---- Rerun idempotence ----------------------------------------------------------------------

  /** Applying this entry to this state changes nothing and counts nothing. */
  ghost predicate Settled(w: World, ctx: Context, db: Db, e: ManifestEntry) {
    var s := StepProject(w, ctx, db, e);
    s.Committed? && s.value.db == db && s.value.outcome.kind != Assigned && s.value.outcome.kind != Quarantined
  }

  lemma {:induction false} SettledRun(w: World, ctx: Context, run: ProjectRun, entries: seq<ManifestEntry>)
    requires forall e :: e in entries ==> Settled(w, ctx, run.db, e)
    ensures var r := ApplyProjects(w, ctx, run, entries);
            r.Committed? && r.value.db == run.db && ProjectChanges(r.value.outcomes) == ProjectChanges(run.outcomes)
    decreases entries
  {
    hide StepProject;
    if entries != [] {
      assert Settled(w, ctx, run.db, entries[0]);
      var s := StepProject(w, ctx, run.db, entries[0]).value;
      var os := run.outcomes + [s.outcome];
      assert os[..|os| - 1] == run.outcomes;
      SettledRun(w, ctx, ProjectRun(s.db, os), entries[1..]);
    }
  }

  ghost predicate RequestSettled(w: World, db: Db, id: Id) {
    var s := StepRequest(w, db, id);
    s.Committed? && s.value.db == db && s.value.outcome.kind != RequestResolved
      && s.value.outcome.kind != RequestExtracted
  }

  lemma RequestStepSettles(w: World, db: Db, id: Id)
    requires StepRequest(w, db, id).Committed?
    ensures RequestSettled(w, StepRequest(w, db, id).value.db, id)
  {
    hide RequestDecision;
    if id in db.requests { ResolvedExactly(w.roleFacts(db.requests[id].userId, db.requests[id].requestedBy)); }
  }

  lemma RequestSettledLocal(w: World, a: Db, b: Db, id: Id)
    requires RequestSettled(w, a, id) && SameRequestAt(a, b, id)
    ensures RequestSettled(w, b, id)
  {
    hide RequestDecision;
  }

  /** A settled request stays settled whatever request is processed next. */
  lemma RequestStaysSettled(w: World, db: Db, id: Id, next: Id)
    requires RequestSettled(w, db, id) && StepRequest(w, db, next).Committed?
    ensures RequestSettled(w, StepRequest(w, db, next).value.db, id)
  {
    hide StepRequest;
    StepRequestFrame(w, db, next);
    if id != next { RequestSettledLocal(w, db, StepRequest(w, db, next).value.db, id); }
  }

  lemma {:induction false} RequestsSettle(w: World, run: RequestRun, ids: seq<Id>, done: set<Id>)
    requires ApplyRequests(w, run, ids).Committed?
    requires forall id :: id in done ==> RequestSettled(w, run.db, id)
    ensures forall id :: id in done || id in ids ==> RequestSettled(w, ApplyRequests(w, run, ids).value.db, id)
    decreases ids
  {
    hide StepRequest, RequestSettled;
    if ids != [] {
      var s := StepRequest(w, run.db, ids[0]).value;
      RequestStepSettles(w, run.db, ids[0]);
      forall id | id in done ensures RequestSettled(w, s.db, id) { RequestStaysSettled(w, run.db, id, ids[0]); }
      RequestsSettle(w, RequestRun(s.db, run.outcomes + [s.outcome]), ids[1..], done + {ids[0]});
    }
  }

  lemma {:induction false} RequestSettledRun(w: World, run: RequestRun, ids: seq<Id>)
    requires forall id :: id in ids ==> RequestSettled(w, run.db, id)
    ensures var r := ApplyRequests(w, run, ids);
            r.Committed? && r.value.db == run.db && RequestChanges(r.value.outcomes) == RequestChanges(run.outcomes)
    decreases ids
  {
    hide StepRequest;
    if ids != [] {
      assert RequestSettled(w, run.db, ids[0]);
      var s := StepRequest(w, run.db, ids[0]).value;
      var os := run.outcomes + [s.outcome];
      assert os[..|os| - 1] == run.outcomes;
      RequestSettledRun(w, RequestRun(s.db, os), ids[1..]);
    }
  }

  lemma ControlSettles(w: World, review: Review, selfDigest: Text, db: Db, changed: nat)
    requires StepControl(w, review, selfDigest, db, changed).Committed?
    ensures var c := StepControl(w, review, selfDigest, db, changed).value;
            forall again: nat :: StepControl(w, review, selfDigest, c.db, again) ==
              Committed(ControlStep(c.db, IdenticalNoop, c.hash))
  {
    var c := StepControl(w, review, selfDigest, db, changed).value;
    SameSource(w, review, selfDigest, db, c.db);
    hide ControlSourceOf, ControlFactsDigest, ConservationOf;
  }

  lemma SameSource(w: World, review: Review, selfDigest: Text, a: Db, b: Db)
    ensures a.requests == b.requests ==>
            ControlSourceOf(w, review, selfDigest, a) == ControlSourceOf(w, review, selfDigest, b)
    ensures a.requests == b.requests ==>
              ConservationOf(a, SortTexts(review.roleChangeRequestIds)) ==
                ConservationOf(b, SortTexts(review.roleChangeRequestIds))
  {}

  /** Where this entry quarantines, that is what the quarantine table says already. */
  predicate OnRecord(w: World, db: Db, e: ManifestEntry) {
    e.decision == Some(Quarantine) && e.Id() in db.projects && !Drifted(w, db, e) ==>
      e.facts.classification != Resolved && IdenticalQuarantine(w, db, e)
  }

  /** Where this entry assigns, there is nothing left to assign. */
  predicate AssignDone(w: World, db: Db, e: ManifestEntry) {
    e.decision == Some(Assign) && e.Id() in db.projects && db.projects[e.Id()].company == None ==> Drifted(w, db, e)
  }

  lemma SettledExactly(w: World, ctx: Context, db: Db, e: ManifestEntry)
    requires DecisionOk(e)
    ensures Settled(w, ctx, db, e) <==> OnRecord(w, db, e) && AssignDone(w, db, e)
  {
    hide RowHash, FactsDigest, ProjectCandidateJson, ProjectReason, NonBlank;
  }

  lemma AssignAfterStep(w: World, ctx: Context, db: Db, e: ManifestEntry)
    requires StepProject(w, ctx, db, e).Committed? && DecisionOk(e)
    ensures AssignDone(w, StepProject(w, ctx, db, e).value.db, e)
  {
    hide RowHash, FactsDigest, ProjectCandidateJson, ProjectReason, NonBlank;
  }

  lemma AssignStays(w: World, ctx: Context, db: Db, e: ManifestEntry, next: ManifestEntry)
    requires StepProject(w, ctx, db, next).Committed? && AssignDone(w, db, e)
    ensures AssignDone(w, StepProject(w, ctx, db, next).value.db, e)
  {
    StepProjectFrame(w, ctx, db, next);
    hide StepProject, RowHash, FactsDigest, Reviewed;
    var after := StepProject(w, ctx, db, next).value.db;
    assert e.Id() in db.projects && after.projects[e.Id()].company == None ==>
      after.projects[e.Id()] == db.projects[e.Id()];
  }

  lemma {:induction false} AssignsDone(
      w: World, ctx: Context, run: ProjectRun, entries: seq<ManifestEntry>, done: seq<ManifestEntry>)
    requires ApplyProjects(w, ctx, run, entries).Committed? && forall e :: e in entries ==> DecisionOk(e)
    requires forall e :: e in done ==> AssignDone(w, run.db, e)
    ensures forall e :: e in done || e in entries ==> AssignDone(w, ApplyProjects(w, ctx, run, entries).value.db, e)
    decreases entries
  {
    hide StepProject, AssignDone, DecisionOk;
    if entries != [] {
      var s := StepProject(w, ctx, run.db, entries[0]).value;
      AssignAfterStep(w, ctx, run.db, entries[0]);
      forall e | e in done ensures AssignDone(w, s.db, e) { AssignStays(w, ctx, run.db, e, entries[0]); }
      AssignsDone(w, ctx, ProjectRun(s.db, run.outcomes + [s.outcome]), entries[1..], done + [entries[0]]);
    }
  }

  /** A run that counts no change had nothing to change. */
  lemma {:induction false} UnchangedSettled(w: World, ctx: Context, run: ProjectRun, entries: seq<ManifestEntry>)
    requires ApplyProjects(w, ctx, run, entries).Committed?
    ensures var r := ApplyProjects(w, ctx, run, entries).value;
            && ProjectChanges(run.outcomes) <= ProjectChanges(r.outcomes)
            && (ProjectChanges(run.outcomes) == ProjectChanges(r.outcomes) ==> forall e :: e in entries ==>
                 Settled(w, ctx, run.db, e))
    decreases entries
  {
    hide StepProject, ProjectChanges;
    if entries != [] {
      var s := StepProject(w, ctx, run.db, entries[0]).value;
      StepProjectFrame(w, ctx, run.db, entries[0]);
      ProjectChangesNext(run.outcomes, s.outcome);
      UnchangedSettled(w, ctx, ProjectRun(s.db, run.outcomes + [s.outcome]), entries[1..]);
    }
  }

  /** Applying once more succeeds, changes no table and counts no change, and everything reported is as it was. */
  ghost predicate Noop(w: World, first: Applied, review: Review) {
    var again := Apply(w, first.db, review);
    && again.Committed? && again.value.db == first.db
    && again.value.report.changedCount == 0
    && again.value.report.counts == first.report.counts && again.value.report.conservation == first.report.conservation
    && again.value.report.controlOutcome == IdenticalNoop
    && again.value.report.controlSourceRowHash == first.report.controlSourceRowHash
  }

  /**
   * After any successful apply, applying the same review with nothing changed in between does
   * nothing if and only if every quarantine verdict that would be recorded again is already on
   * record; assignments and requests never stand in the way.
   */
  lemma RerunIsNoop(w: World, db: Db, review: Review)
    requires Apply(w, db, review).Committed?
    ensures var first := Apply(w, db, review).value;
            Noop(w, first, review) <==> forall e :: e in review.entries ==> OnRecord(w, first.db, e)
  {
    hide ApplyProjects, ApplyRequests, StepControl, ManifestDigest, ConservationOf, CountsOf, NonBlank, AllDecisionsOk,
         Distinct, SameAt, SameRequestAt, Advances, Settled, RequestSettled, OnRecord, AssignDone, DecisionOk;
    var a := Apply(w, db, review).value;
    var ctx := Context(review.reviewerKey, ManifestDigest(w, review.entries));
    AppliedAssigns(w, db, review);
    forall e | e in review.entries ensures Settled(w, ctx, a.db, e) <==> OnRecord(w, a.db, e) {
      SettledExactly(w, ctx, a.db, e);
    }
    if Noop(w, a, review) {
      var p, r := ApplyStages(w, a.db, review);
      NoChangeCounted();
      UnchangedSettled(w, ctx, ProjectRun(a.db, []), review.entries);
    }
    if forall e :: e in review.entries ==> OnRecord(w, a.db, e) { SettledRerun(w, db, review); }
  }

  lemma NoChangeCounted()
    ensures ProjectChanges([]) == 0 && RequestChanges([]) == 0
  {}

  lemma AppliedAssigns(w: World, db: Db, review: Review)
    requires Apply(w, db, review).Committed?
    ensures forall e :: e in review.entries ==> DecisionOk(e) && AssignDone(w, Apply(w, db, review).value.db, e)
  {
    hide ApplyProjects, ApplyRequests, StepControl, ManifestDigest, ConservationOf, CountsOf, NonBlank, SameAt,
         SameRequestAt, Advances, DecisionOk;
    var a := Apply(w, db, review).value;
    var p, r := ApplyStages(w, db, review);
    var ctx := Context(review.reviewerKey, ManifestDigest(w, review.entries));
    AssignsDone(w, ctx, ProjectRun(db, []), review.entries, []);
    RequestsFrame(w, RequestRun(p.db, []), SortTexts(review.roleChangeRequestIds));
    ControlFrame(w, review, ctx.selfDigest, r.db, a.report.changedCount);
    assert a.db.projects == p.db.projects;
  }

  lemma SettledRerun(w: World, db: Db, review: Review)
    requires Apply(w, db, review).Committed?
    requires var ctx := Context(review.reviewerKey, ManifestDigest(w, review.entries));
             forall e :: e in review.entries ==> Settled(w, ctx, Apply(w, db, review).value.db, e)
    ensures Noop(w, Apply(w, db, review).value, review)
  {
    hide ApplyProjects, ApplyRequests, StepControl, ManifestDigest, ConservationOf, CountsOf, NonBlank, AllDecisionsOk,
         Distinct, SameAt, SameRequestAt, Advances, Settled, RequestSettled;
    var a := Apply(w, db, review).value;
    var p, r := ApplyStages(w, db, review);
    var ctx := Context(review.reviewerKey, ManifestDigest(w, review.entries));
    var ids := SortTexts(review.roleChangeRequestIds);
    RequestsSettle(w, RequestRun(p.db, []), ids, {});
    ControlFrame(w, review, ctx.selfDigest, r.db, a.report.changedCount);
    ControlSettles(w, review, ctx.selfDigest, r.db, a.report.changedCount);
    SameSource(w, review, ctx.selfDigest, r.db, a.db);
    forall id | id in ids ensures RequestSettled(w, a.db, id) { RequestSettledLocal(w, r.db, a.db, id); }
    SettledRun(w, ctx, ProjectRun(a.db, []), review.entries);
    RequestSettledRun(w, RequestRun(a.db, []), ids);
  }

  /** Entries for one project say the same, wherever one of them quarantines it. */
  predicate Agree(e: ManifestEntry, f: ManifestEntry) {
    e.Id() == f.Id() && e.decision == Some(Quarantine) ==>
      && f.decision == Some(Quarantine) && f.facts.classification == e.facts.classification
      && f.facts.candidateCompanyIds == e.facts.candidateCompanyIds
  }

  ghost predicate QuarantinesAgree(entries: seq<ManifestEntry>) {
    forall e, f :: e in entries && f in entries ==> Agree(e, f)
  }

  lemma OnRecordAfterStep(w: World, ctx: Context, db: Db, e: ManifestEntry)
    requires StepProject(w, ctx, db, e).Committed? && DecisionOk(e)
    ensures OnRecord(w, StepProject(w, ctx, db, e).value.db, e)
  {
    hide RowHash, FactsDigest, ProjectCandidateJson, ProjectReason, NonBlank;
  }

  /** A recorded verdict is not disturbed by an entry that agrees with it. */
  lemma OnRecordStays(w: World, ctx: Context, db: Db, e: ManifestEntry, next: ManifestEntry)
    requires StepProject(w, ctx, db, next).Committed? && OnRecord(w, db, e) && Agree(e, next)
    ensures OnRecord(w, StepProject(w, ctx, db, next).value.db, e)
  {
    hide RowHash, FactsDigest;
    if e.decision == Some(Quarantine) && e.Id() != next.Id() {
      StepProjectFrame(w, ctx, db, next);
      assert SameAt(db, StepProject(w, ctx, db, next).value.db, e.Id());
    }
  }

  lemma {:induction false} RecordsStay(
      w: World, ctx: Context, run: ProjectRun, entries: seq<ManifestEntry>, done: seq<ManifestEntry>)
    requires ApplyProjects(w, ctx, run, entries).Committed? && QuarantinesAgree(done + entries)
    requires forall e :: e in entries ==> DecisionOk(e)
    requires forall e :: e in done ==> OnRecord(w, run.db, e)
    ensures forall e :: e in done || e in entries ==> OnRecord(w, ApplyProjects(w, ctx, run, entries).value.db, e)
    decreases entries
  {
    hide StepProject, OnRecord, DecisionOk, Agree;
    if entries != [] {
      var s := StepProject(w, ctx, run.db, entries[0]).value;
      OnRecordAfterStep(w, ctx, run.db, entries[0]);
      forall e | e in done ensures OnRecord(w, s.db, e) { OnRecordStays(w, ctx, run.db, e, entries[0]); }
      assert done + entries == (done + [entries[0]]) + entries[1..];
      RecordsStay(w, ctx, ProjectRun(s.db, run.outcomes + [s.outcome]), entries[1..], done + [entries[0]]);
    }
  }

  /**
   * Read off the review file alone: a rerun does nothing when, for every project some entry
   * quarantines, all its entries do, with the same classification and candidates.
   */
  lemma AgreeingRerunIsNoop(w: World, db: Db, review: Review)
    requires Apply(w, db, review).Committed? && QuarantinesAgree(review.entries)
    ensures Noop(w, Apply(w, db, review).value, review)
  {
    hide ApplyProjects, ApplyRequests, StepControl, ManifestDigest, ConservationOf, CountsOf, NonBlank, Noop, Apply,
         DecisionOk, Advances, QuarantinesAgree, SameAt, SameRequestAt, OnRecord;
    var a := Apply(w, db, review).value;
    var p, r := ApplyStages(w, db, review);
    var ctx := Context(review.reviewerKey, ManifestDigest(w, review.entries));
    assert [] + review.entries == review.entries;
    RecordsStay(w, ctx, ProjectRun(db, []), review.entries, []);
    RequestsFrame(w, RequestRun(p.db, []), SortTexts(review.roleChangeRequestIds));
    ControlFrame(w, review, ctx.selfDigest, r.db, a.report.changedCount);
    forall e | e in review.entries ensures OnRecord(w, a.db, e) {
      assert SameAt(p.db, r.db, e.Id()) && SameAt(r.db, a.db, e.Id());
      OnRecordLocal(w, p.db, r.db, e);
      OnRecordLocal(w, r.db, a.db, e);
    }
    RerunIsNoop(w, db, review);
  }

  lemma OnRecordLocal(w: World, a: Db, b: Db, e: ManifestEntry)
    requires OnRecord(w, a, e) && SameAt(a, b, e.Id())
    ensures OnRecord(w, b, e)
  {
    hide RowHash, FactsDigest, ProjectCandidateJson, ProjectReason;
  }

  /** With distinct entries a rerun always does nothing. */
  lemma DistinctRerunIsNoop(w: World, db: Db, review: Review)
    requires Apply(w, db, review).Committed? && Distinct(EntryIds(review.entries))
    ensures Noop(w, Apply(w, db, review).value, review)
  {
    hide Apply, Noop, Agree;
    var entries := review.entries;
    forall e, f | e in entries && f in entries ensures Agree(e, f) {
      var i :| 0 <= i < |entries| && entries[i] == e;
      var j :| 0 <= j < |entries| && entries[j] == f;
      assert EntryIds(entries)[i] == e.Id() && EntryIds(entries)[j] == f.Id();
      EntriesAgree(entries, i, j);
    }
    AgreeingRerunIsNoop(w, db, review);
  }

  lemma EntriesAgree(entries: seq<ManifestEntry>, i: nat, j: nat)
    requires i < |entries| && j < |entries| && Distinct(EntryIds(entries))
    ensures Agree(entries[i], entries[j])
  {
    var ids := EntryIds(entries);
    assert ids[i] == ids[j] ==> i == j;
  }

  /** Two different quarantine verdicts for one project overwrite each other on every run. */
  lemma RerunFlipsDuplicates(w: World, id: Id, row: ProjectRow, reviewerKey: Text) returns (review: Review, db: Db)
    requires NonBlank(reviewerKey) && row.company == None && forall p :: w.digest(p) != []
    ensures Apply(w, db, review).Committed?
    ensures var again := Apply(w, Apply(w, db, review).value.db, review);
            again.Committed? && again.value.report.changedCount == 2
  {
    hide Apply, RowHash, FactsDigest, NonBlank, StepControl, ManifestDigest;
    review := FlipReview(w, id, row, reviewerKey);
    db := Db(map[id := row], map[], map[]);
    DigestNonEmpty(w, review.entries);
    FreshFlips(w, id, row, review, db);
    FlipApply(w, id, row, reviewerKey, db);
    FlipApply(w, id, row, reviewerKey, Apply(w, db, review).value.db);
  }

  function FlipReview(w: World, id: Id, row: ProjectRow, reviewerKey: Text): Review {
    var entries := [QuarantineEntry(w, id, row, Ambiguous), QuarantineEntry(w, id, row, Unmatched)];
    Review(reviewerKey, ManifestDigest(w, entries), entries, [])
  }

  /**
   * The project is as reviewed, its second verdict is the one recorded if any, and the control row
   * is not in the way.
   */
  ghost predicate Flips(w: World, id: Id, row: ProjectRow, review: Review, db: Db) {
    && id in db.projects && db.projects[id] == row
    && (ProjectKey(id) in db.quarantine ==> db.quarantine[ProjectKey(id)].reasonCode == ProjectUnmatched)
    && StepControl(w, review, review.dryRunDigest, db, 2).Committed?
  }

  lemma FreshFlips(w: World, id: Id, row: ProjectRow, review: Review, db: Db)
    requires db == Db(map[id := row], map[], map[])
    ensures Flips(w, id, row, review, db)
  {
    hide ControlRowOf;
  }

  /** One apply of that review: two changes, and all is set for the next. */
  lemma FlipApply(w: World, id: Id, row: ProjectRow, reviewerKey: Text, db: Db)
    requires NonBlank(reviewerKey) && ManifestDigest(w, FlipReview(w, id, row, reviewerKey).entries) != []
    requires Flips(w, id, row, FlipReview(w, id, row, reviewerKey), db)
    ensures var review := FlipReview(w, id, row, reviewerKey); var a := Apply(w, db, review);
            a.Committed? && a.value.report.changedCount == 2 && Flips(w, id, row, review, a.value.db)
  {
    hide RowHash, FactsDigest, NonBlank, SortTexts, ControlRowOf, ManifestDigest, ApplyProjects, StepControl, CountsOf,
         ConservationOf;
    var review := FlipReview(w, id, row, reviewerKey);
    var ctx := Context(reviewerKey, review.dryRunDigest);
    NoRequests();
    NoChangeCounted();
    FlipTwice(w, ctx, id, row, review.entries[0], review.entries[1], db);
    var p := ApplyProjects(w, ctx, ProjectRun(db, []), review.entries).value;
    ControlLocal(w, review, review.dryRunDigest, db, p.db, 2);
    var c := StepControl(w, review, review.dryRunDigest, p.db, 2).value;
    ControlFrame(w, review, review.dryRunDigest, p.db, 2);
    ControlSettles(w, review, review.dryRunDigest, p.db, 2);
    assert SameAt(p.db, c.db, id);
    assert AllDecisionsOk(review.entries);
  }

  /** A reviewed entry that quarantines project `id`, recorded from its present row. */
  function QuarantineEntry(w: World, id: Id, row: ProjectRow, c: Classification): ManifestEntry {
    ManifestEntry(ManifestFacts(id, RowHash(w, id, row), FactsDigest(w, id), c, []), Some(Quarantine), None, None, None)
  }

  lemma DigestNonEmpty(w: World, entries: seq<ManifestEntry>)
    requires forall p :: w.digest(p) != []
    ensures ManifestDigest(w, entries) != []
  {}

  lemma NoRequests()
    ensures SortTexts([]) == []
  {}

  /** Whether the control row stands in the way depends on it and on the requests alone. */
  lemma ControlLocal(w: World, review: Review, selfDigest: Text, a: Db, b: Db, changed: nat)
    requires a.requests == b.requests && SameControl(a, b) && StepControl(w, review, selfDigest, a, changed).Committed?
    ensures StepControl(w, review, selfDigest, b, changed).Committed?
  {
    hide ControlSourceOf, ConservationOf, ControlFactsDigest;
    SameSource(w, review, selfDigest, a, b);
  }

  lemma FlipTwice(w: World, ctx: Context, id: Id, row: ProjectRow, e1: ManifestEntry, e2: ManifestEntry, db: Db)
    requires e1 == QuarantineEntry(w, id, row, Ambiguous) && e2 == QuarantineEntry(w, id, row, Unmatched)
    requires id in db.projects && db.projects[id] == row
    requires ProjectKey(id) in db.quarantine ==> db.quarantine[ProjectKey(id)].reasonCode == ProjectUnmatched
    ensures var p := ApplyProjects(w, ctx, ProjectRun(db, []), [e1, e2]);
            && p.Committed? && ProjectChanges(p.value.outcomes) == 2
            && p.value.db.projects == db.projects && p.value.db.requests == db.requests && SameControl(db, p.value.db)
            && ProjectKey(id) in p.value.db.quarantine
            && p.value.db.quarantine[ProjectKey(id)].reasonCode == ProjectUnmatched
  {
    hide StepProject;
    FlipStep(w, ctx, id, row, Ambiguous, db);
    var s1 := StepProject(w, ctx, db, e1).value;
    FlipStep(w, ctx, id, row, Unmatched, s1.db);
    var s2 := StepProject(w, ctx, s1.db, e2).value;
    assert [e1, e2][1..] == [e2] && [e2][1..] == [];
    assert [] + [s1.outcome] == [s1.outcome] && [s1.outcome] + [s2.outcome] == [s1.outcome, s2.outcome];
    assert ApplyProjects(w, ctx, ProjectRun(s2.db, [s1.outcome, s2.outcome]), []) ==
      Committed(ProjectRun(s2.db, [s1.outcome, s2.outcome]));
    assert ApplyProjects(w, ctx, ProjectRun(s1.db, [s1.outcome]), [e2]) ==
      Committed(ProjectRun(s2.db, [s1.outcome, s2.outcome]));
    TwoChanges(s1.outcome, s2.outcome);
  }

  lemma TwoChanges(a: ProjectOutcome, b: ProjectOutcome)
    requires a.kind == Quarantined == b.kind
    ensures ProjectChanges([a, b]) == 2
  {
    assert [a, b][..1] == [a] && [a][..0] == [];
    assert ProjectChanges([a]) == 1;
  }

  lemma FlipStep(w: World, ctx: Context, id: Id, row: ProjectRow, c: Classification, db: Db)
    requires c != Resolved && id in db.projects && db.projects[id] == row
    requires ProjectKey(id) in db.quarantine ==>
               db.quarantine[ProjectKey(id)].reasonCode != ProjectReason(QuarantineEntry(w, id, row, c))
    ensures var e := QuarantineEntry(w, id, row, c);
            var s := StepProject(w, ctx, db, e);
            && s.Committed? && s.value.outcome.kind == Quarantined
            && s.value.db.projects == db.projects && s.value.db.requests == db.requests && SameControl(db, s.value.db)
            && ProjectKey(id) in s.value.db.quarantine
            && s.value.db.quarantine[ProjectKey(id)].reasonCode == ProjectReason(e)
  {
    hide RowHash, FactsDigest, ProjectCandidateJson;
  }

  // ---- Conservation -----------------------------------------------------------------------------

  /** Settled requests are exactly those with a company, or gone with a record. */
  lemma SettledMeans(w: World, db: Db, id: Id)
    requires RequestSettled(w, db, id)
    ensures if id in db.requests then db.requests[id].company.Some? else RequestKey(id) in db.quarantine
  {
    hide RequestDecision;
  }

  /** A request still live was live before, and its quarantine record neither came nor went. */
  ghost predicate LiveKept(a: Db, b: Db) {
    forall id :: id in b.requests ==>
      id in a.requests && (RequestKey(id) in a.quarantine <==> RequestKey(id) in b.quarantine)
  }

  lemma {:induction false} RequestsKeepLive(w: World, run: RequestRun, ids: seq<Id>)
    requires ApplyRequests(w, run, ids).Committed?
    ensures LiveKept(run.db, ApplyRequests(w, run, ids).value.db)
    decreases ids
  {
    if ids != [] {
      var s := StepRequest(w, run.db, ids[0]).value;
      StepKeepsLive(w, run.db, ids[0]);
      hide StepRequest;
      RequestsKeepLive(w, RequestRun(s.db, run.outcomes + [s.outcome]), ids[1..]);
    }
  }

  lemma StepKeepsLive(w: World, db: Db, id: Id)
    requires StepRequest(w, db, id).Committed?
    ensures LiveKept(db, StepRequest(w, db, id).value.db)
  {
    hide RequestDecision;
    StepRequestFrame(w, db, id);
    var b := StepRequest(w, db, id).value.db;
    forall k | k in b.requests
      ensures k in db.requests && (RequestKey(k) in db.quarantine <==> RequestKey(k) in b.quarantine)
    {
      if k != id { assert SameRequestAt(db, b, k); }
    }
  }

  lemma SortIdsKeeps(ids: seq<Id>)
    ensures forall k :: k in SortTexts(ids) <==> k in ids
    ensures Distinct(SortTexts(ids)) <==> Distinct(ids)
  {
    var r := SortTexts(ids);
    SortPermutes(ids);
    forall k ensures k in r <==> k in ids { assert k in multiset(r) <==> k in multiset(ids); }
    assert (set k | k in r) == (set k | k in ids);
    DistinctBySize(r);
    DistinctBySize(ids);
  }

  /**
   * Nothing is lost: after a successful apply every listed request is either live with a company
   * or gone with a quarantine record, never both unless it was both before. The `extracted` number
   * the apply subtracts is the number that are gone if and only if the review repeats no id.
   */
  lemma ConservationIsReal(w: World, db: Db, review: Review)
    requires Apply(w, db, review).Committed?
    ensures var a := Apply(w, db, review).value;
            forall id :: id in review.roleChangeRequestIds ==>
              if id in a.db.requests
              then a.db.requests[id].company.Some?
                && (RequestKey(id) in a.db.quarantine <==> RequestKey(id) in db.quarantine)
              else RequestKey(id) in a.db.quarantine
    ensures var a := Apply(w, db, review).value;
            a.report.conservation.extracted == |set id | id in review.roleChangeRequestIds && id !in a.db.requests| <==>
            Distinct(review.roleChangeRequestIds)
  {
    hide ApplyProjects, ApplyRequests, StepControl, ManifestDigest, CountsOf, NonBlank, AllDecisionsOk, Distinct,
         SameAt, Advances, RequestSettled, Apply;
    var a := Apply(w, db, review).value;
    var p, r := ApplyStages(w, db, review);
    var ctx := Context(review.reviewerKey, ManifestDigest(w, review.entries));
    var ids := SortTexts(review.roleChangeRequestIds);
    ProjectsFrame(w, ctx, ProjectRun(db, []), review.entries);
    RequestsSettle(w, RequestRun(p.db, []), ids, {});
    RequestsKeepLive(w, RequestRun(p.db, []), ids);
    ControlFrame(w, review, ctx.selfDigest, r.db, a.report.changedCount);
    SortIdsKeeps(review.roleChangeRequestIds);
    forall id | id in review.roleChangeRequestIds
      ensures if id in a.db.requests
              then a.db.requests[id].company.Some?
                && (RequestKey(id) in a.db.quarantine <==> RequestKey(id) in db.quarantine)
              else RequestKey(id) in a.db.quarantine
    {
      SettledMeans(w, r.db, id);
      assert SameRequestAt(r.db, a.db, id) && SameRequestAt(db, p.db, id);
    }
    CountGone(r.db, a.db, review.roleChangeRequestIds, ids);
  }

  lemma CountGone(a: Db, b: Db, ids: seq<Id>, sorted: seq<Id>)
    requires a.requests == b.requests && (forall k :: k in sorted <==> k in ids)
    ensures |sorted| - LiveAmong(a, sorted) == |set id | id in ids && id !in b.requests| <==> Distinct(sorted)
  {
    DistinctBySize(sorted);
    var all := set x | x in sorted;
    var live := set id | id in a.requests && id in sorted;
    var gone := set id | id in ids && id !in b.requests;
    assert all == live + gone && live * gone == {};
  }

  // ---- The manifest digest covers facts, not decisions --------------------------------------------

  /** The decisions taken in a review do not change the digest the review file is checked against. */
  lemma {:induction false} DigestIgnoresDecisions(w: World, es: seq<ManifestEntry>, fs: seq<ManifestEntry>)
    requires |es| == |fs| && forall i :: 0 <= i < |es| ==> es[i].facts == fs[i].facts
    ensures ManifestDigest(w, es) == ManifestDigest(w, fs)
  {
    SameProjection(es, fs);
  }

  lemma {:induction false} SameProjection(es: seq<ManifestEntry>, fs: seq<ManifestEntry>)
    requires |es| == |fs| && forall i :: 0 <= i < |es| ==> es[i].facts == fs[i].facts
    ensures Projection(es) == Projection(fs)
  {
    if es != [] {
      SameProjection(es[1..], fs[1..]);
      assert es[0].facts == fs[0].facts;
    }
  }
}
