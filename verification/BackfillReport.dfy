/** What a successful apply counts and signs: changes, control row, and what its digest covers. */
module BackfillReport {
  import opened Options
  import opened Sequences
  import opened Text
  import opened Backfill
  import opened BackfillRuns
  import opened BackfillTables

  // ---- Changes ----------------------------------------------------------------------------------

  /** Projects that have been given a company. */
  ghost function Scoped(a: Db, b: Db): set<Id> {
    set id | id in a.projects && id in b.projects && a.projects[id].company != b.projects[id].company
  }

  /** The verdict a quarantine row records. */
  ghost predicate SameVerdict(a: QuarantineRow, b: QuarantineRow) {
    a.reasonCode == b.reasonCode && a.sourceRowHash == b.sourceRowHash && a.candidateScopeJson == b.candidateScopeJson
  }

  /** Projects whose quarantine verdict is new or another one. */
  ghost function Requarantined(a: Db, b: Db): set<Id> {
    set k | k in b.quarantine && k.model == ProjectModel &&
            (k !in a.quarantine || !SameVerdict(a.quarantine[k], b.quarantine[k])) :: k.id
  }

  /** Requests that have been given a company, or are gone. */
  ghost function Moved(a: Db, b: Db): set<Id> {
    set id | id in a.requests && (id !in b.requests || a.requests[id] != b.requests[id])
  }

  /** `id` is in the whole exactly if it is in the part before or in the part after. */
  ghost predicate Splits(whole: set<Id>, first: set<Id>, rest: set<Id>, id: Id) {
    first <= {id} && id !in rest && whole == first + rest
  }

  lemma SplitSize(whole: set<Id>, first: set<Id>, rest: set<Id>, id: Id)
    requires Splits(whole, first, rest, id)
    ensures |whole| == |first| + |rest| && |first| == if id in first then 1 else 0
  {
    if id in first { assert first == {id}; } else { assert first == {}; }
  }

  lemma RequarantinedIs(a: Db, b: Db, id: Id)
    ensures var k := Key(ProjectModel, id);
            id in Requarantined(a, b) <==>
            k in b.quarantine && (k !in a.quarantine || !SameVerdict(a.quarantine[k], b.quarantine[k]))
  {
    var k := Key(ProjectModel, id);
    if k in b.quarantine && (k !in a.quarantine || !SameVerdict(a.quarantine[k], b.quarantine[k])) {
      assert k.model == ProjectModel && k.id == id;
    }
  }

  /** An entry touches one project only, and the entries after it another. */
  lemma ProjectSplits(a: Db, b: Db, c: Db, id: Id)
    requires a.projects.Keys == b.projects.Keys == c.projects.Keys
    requires (forall j :: j != id ==> SameAt(a, b, j)) && SameAt(b, c, id)
    ensures Splits(Scoped(a, c), Scoped(a, b), Scoped(b, c), id)
    ensures Splits(Requarantined(a, c), Requarantined(a, b), Requarantined(b, c), id)
  {
    forall j ensures j in Scoped(a, c) <==> j in Scoped(a, b) || j in Scoped(b, c) {
      if j != id { assert SameAt(a, b, j); }
    }
    forall j | j != id ensures j !in Scoped(a, b) { assert SameAt(a, b, j); }
    hide Requarantined, Scoped;
    forall j
      ensures j in Requarantined(a, c) <==> j in Requarantined(a, b) || j in Requarantined(b, c)
      ensures j in Requarantined(a, b) ==> j == id
      ensures j == id ==> j !in Requarantined(b, c)
    {
      RequarantinedIs(a, c, j);
      RequarantinedIs(a, b, j);
      RequarantinedIs(b, c, j);
      if j != id { assert SameAt(a, b, j); }
    }
  }

  lemma StepChanges(w: World, ctx: Context, db: Db, e: ManifestEntry)
    requires StepProject(w, ctx, db, e).Committed? && DecisionOk(e)
    ensures var s := StepProject(w, ctx, db, e).value;
            && (s.outcome.kind == Assigned <==> e.facts.sourceId in Scoped(db, s.db))
            && (s.outcome.kind == Quarantined <==> e.facts.sourceId in Requarantined(db, s.db))
  {
    var s := StepProject(w, ctx, db, e).value;
    StepProjectLeft(w, ctx, db, e);
    RequarantinedIs(db, s.db, e.facts.sourceId);
    hide StepProject, NonBlank, Changed, Requarantined;
  }

  /** With one entry for each project, the changes counted are the projects scoped and the verdicts recorded. */
  lemma {:induction false} ProjectChangesReal(w: World, ctx: Context, run: ProjectRun, entries: seq<ManifestEntry>)
    requires ApplyProjects(w, ctx, run, entries).Committed? && Distinct(EntryIds(entries))
    requires forall e :: e in entries ==> DecisionOk(e)
    ensures var r := ApplyProjects(w, ctx, run, entries).value;
            ProjectChanges(r.outcomes) ==
              ProjectChanges(run.outcomes) + |Scoped(run.db, r.db)| + |Requarantined(run.db, r.db)|
    decreases entries
  {
    hide StepProject, DecisionOk, ProjectChanges, Advances, Scoped, Requarantined, Splits, SameAt;
    if entries == [] {
      NothingScoped(run.db);
    } else {
      var e, rest := entries[0], entries[1..];
      var s := StepProject(w, ctx, run.db, e).value;
      var next := ProjectRun(s.db, run.outcomes + [s.outcome]);
      var r := ApplyProjects(w, ctx, run, entries).value;
      RestDistinct(entries);
      StepProjectFrame(w, ctx, run.db, e);
      ProjectsFrame(w, ctx, next, rest);
      StepChanges(w, ctx, run.db, e);
      ProjectChangesReal(w, ctx, next, rest);
      ProjectChangesNext(run.outcomes, s.outcome);
      SameProjects(run.db, s.db, [e]);
      SameProjects(s.db, r.db, rest);
      ProjectSplits(run.db, s.db, r.db, e.facts.sourceId);
      SplitSize(Scoped(run.db, r.db), Scoped(run.db, s.db), Scoped(s.db, r.db), e.facts.sourceId);
      SplitSize(Requarantined(run.db, r.db), Requarantined(run.db, s.db), Requarantined(s.db, r.db), e.facts.sourceId);
    }
  }

  lemma SameProjects(a: Db, b: Db, entries: seq<ManifestEntry>)
    requires Advances(a, b, entries)
    ensures a.projects.Keys == b.projects.Keys
  {}

  lemma NothingScoped(db: Db)
    ensures Scoped(db, db) == {} && Requarantined(db, db) == {} && Moved(db, db) == {}
  {}

  lemma RequestSplits(a: Db, b: Db, c: Db, id: Id)
    requires (forall j :: j != id ==> SameRequestAt(a, b, j)) && SameRequestAt(b, c, id)
    ensures Splits(Moved(a, c), Moved(a, b), Moved(b, c), id)
  {
    forall j
      ensures j in Moved(a, c) <==> j in Moved(a, b) || j in Moved(b, c)
      ensures j in Moved(a, b) ==> j == id
    {
      if j != id { assert SameRequestAt(a, b, j); }
    }
  }

  lemma StepMoves(w: World, db: Db, id: Id)
    requires StepRequest(w, db, id).Committed?
    ensures var s := StepRequest(w, db, id).value;
            s.outcome.kind == RequestResolved || s.outcome.kind == RequestExtracted <==> id in Moved(db, s.db)
  {
    hide RequestDecision;
    if id in db.requests { ResolvedExactly(w.roleFacts(db.requests[id].userId, db.requests[id].requestedBy)); }
  }

  /** The changes counted are the requests scoped or extracted, each once even if its id is listed twice. */
  lemma {:induction false} RequestChangesReal(w: World, run: RequestRun, ids: seq<Id>)
    requires ApplyRequests(w, run, ids).Committed?
    ensures var r := ApplyRequests(w, run, ids).value;
            RequestChanges(r.outcomes) == RequestChanges(run.outcomes) + |Moved(run.db, r.db)|
    decreases ids
  {
    hide StepRequest, RequestChanges, Moved, Splits, SameRequestAt, RequestSettled;
    if ids == [] {
      NothingScoped(run.db);
    } else {
      var s := StepRequest(w, run.db, ids[0]).value;
      var next := RequestRun(s.db, run.outcomes + [s.outcome]);
      var r := ApplyRequests(w, run, ids).value;
      StepRequestFrame(w, run.db, ids[0]);
      RequestStepSettles(w, run.db, ids[0]);
      SettledUntouched(w, next, ids[1..], ids[0]);
      StepMoves(w, run.db, ids[0]);
      RequestChangesReal(w, next, ids[1..]);
      RequestChangesNext(run.outcomes, s.outcome);
      RequestSplits(run.db, s.db, r.db, ids[0]);
      SplitSize(Moved(run.db, r.db), Moved(run.db, s.db), Moved(s.db, r.db), ids[0]);
    }
  }

  lemma SameCounts(a: Db, b: Db, c: Db, d: Db)
    requires (forall id :: SameAt(a, c, id)) && (forall id :: SameAt(b, d, id))
    ensures Scoped(a, b) == Scoped(c, d) && Requarantined(a, b) == Requarantined(c, d)
  {
    forall id ensures id in Scoped(a, b) <==> id in Scoped(c, d) { assert SameAt(a, c, id) && SameAt(b, d, id); }
    hide Scoped, Requarantined;
    forall id ensures id in Requarantined(a, b) <==> id in Requarantined(c, d) {
      RequarantinedIs(a, b, id);
      RequarantinedIs(c, d, id);
      assert SameAt(a, c, id) && SameAt(b, d, id);
    }
  }

  /**
   * The change count an apply reports is the number of projects it scoped, of quarantine verdicts it
   * recorded anew, and of requests it scoped or extracted.
   */
  lemma ChangesAreReal(w: World, db: Db, review: Review)
    requires Apply(w, db, review).Committed? && Distinct(EntryIds(review.entries))
    ensures var a := Apply(w, db, review).value;
            a.report.changedCount == |Scoped(db, a.db)| + |Requarantined(db, a.db)| + |Moved(db, a.db)|
  {
    hide Apply, ApplyProjects, ApplyRequests, StepControl, ManifestDigest, ConservationOf, CountsOf, NonBlank, Advances,
         DecisionOk, Distinct, ProjectChanges, RequestChanges, Scoped, Requarantined, Moved, SameAt;
    var a := Apply(w, db, review).value;
    var p, r := ApplyStages(w, db, review);
    var ctx := Context(review.reviewerKey, ManifestDigest(w, review.entries));
    var ids := SortTexts(review.roleChangeRequestIds);
    NoChangeCounted();
    ProjectsFrame(w, ctx, ProjectRun(db, []), review.entries);
    ProjectChangesReal(w, ctx, ProjectRun(db, []), review.entries);
    RequestsFrame(w, RequestRun(p.db, []), ids);
    RequestChangesReal(w, RequestRun(p.db, []), ids);
    ControlFrame(w, review, ctx.selfDigest, r.db, a.report.changedCount);
    forall id ensures SameAt(db, db, id) && SameAt(p.db, a.db, id) { SameTwiceAt(db, p.db, r.db, a.db, id); }
    SameCounts(db, p.db, db, a.db);
    MovedIs(db, p.db, r.db, a.db);
  }

  lemma SameTwiceAt(db: Db, p: Db, r: Db, a: Db, id: Id)
    requires SameAt(p, r, id) && SameAt(r, a, id)
    ensures SameAt(db, db, id) && SameAt(p, a, id)
  {}

  lemma MovedIs(db: Db, p: Db, r: Db, a: Db)
    requires p.requests == db.requests && a.requests == r.requests
    ensures Moved(p, r) == Moved(db, a)
  {}

  // ---- The control row ------------------------------------------------------------------------------

  ghost function Decided(entries: seq<ManifestEntry>, from: nat, d: Decision): set<nat> {
    set i: nat | from <= i < |entries| && entries[i].decision == Some(d)
  }

  lemma {:induction false} CountIs(entries: seq<ManifestEntry>, from: nat, d: Decision)
    requires from <= |entries|
    ensures CountDecisions(entries[from..], d) == |Decided(entries, from, d)|
    decreases |entries| - from
  {
    if from == |entries| {
      assert Decided(entries, from, d) == {};
    } else {
      CountIs(entries, from + 1, d);
      assert entries[from..][1..] == entries[from + 1..];
      var here: set<nat> := if entries[from].decision == Some(d) then {from} else {};
      assert Decided(entries, from, d) == here + Decided(entries, from + 1, d);
    }
  }

  lemma {:induction false} AllDecided(entries: seq<ManifestEntry>)
    requires forall e :: e in entries ==> DecisionOk(e)
    ensures CountDecisions(entries, Assign) + CountDecisions(entries, Quarantine) == |entries|
  {
    hide NonBlank;
    if entries != [] {
      assert DecisionOk(entries[0]);
      AllDecided(entries[1..]);
    }
  }

  /**
   * The counts an apply signs: every entry and every listed request is in exactly one of them, a
   * request in the live or the extracted ones, an entry in the assigned or the quarantined ones.
   */
  lemma CountsAddUp(w: World, db: Db, review: Review)
    requires Apply(w, db, review).Committed?
    ensures var a := Apply(w, db, review).value;
            var n, c := a.report.counts, a.report.conservation;
            && n.source == |review.entries| + |review.roleChangeRequestIds|
            && n.source == n.resolved + n.extracted + n.quarantined && n.alreadyScoped == 0
            && n.quarantined == |Decided(review.entries, 0, Quarantine)|
            && n.extracted == c.extracted && c.before == c.liveAfter + c.extracted
            && c.before == |review.roleChangeRequestIds|
            && c.liveAfter == |set id | id in a.db.requests && id in review.roleChangeRequestIds|
  {
    hide Apply, ApplyProjects, ApplyRequests, StepControl, ManifestDigest, NonBlank, DecisionOk;
    var a := Apply(w, db, review).value;
    var p, r := ApplyStages(w, db, review);
    var ctx := Context(review.reviewerKey, ManifestDigest(w, review.entries));
    ControlFrame(w, review, ctx.selfDigest, r.db, a.report.changedCount);
    SortIdsKeeps(review.roleChangeRequestIds);
    AllDecided(review.entries);
    CountIs(review.entries, 0, Quarantine);
    assert review.entries[0..] == review.entries;
    var ids := SortTexts(review.roleChangeRequestIds);
    assert (set id | id in r.db.requests && id in ids) ==
           (set id | id in a.db.requests && id in review.roleChangeRequestIds);
  }

  /** Every column of the control row a first apply writes; `es` and `rs` are the ids it covers, in order. */
  lemma ControlWritten(w: World, db: Db, review: Review) returns (es: seq<Id>, rs: seq<Id>)
    requires Apply(w, db, review).Committed? && CONTROL_KEY !in db.quarantine
    ensures InOrder(es) && multiset(es) == multiset(EntryIds(review.entries))
    ensures InOrder(rs) && multiset(rs) == multiset(review.roleChangeRequestIds)
    ensures var a := Apply(w, db, review).value;
            && CONTROL_KEY in a.db.quarantine
            && var row, facts := a.db.quarantine[CONTROL_KEY], w.digest(ControlFacts(es, rs));
               && row.rowId == ControlReviewedApply && row.reasonCode == ReviewedApply
               && row.sourceRowJson == ControlSource(ReviewedApplyMode, review.dryRunDigest, facts, a.report.counts)
               && row.sourceRowHash == w.digest(row.sourceRowJson)
               && row.candidateScopeJson == Manifest(review.entries)
               && row.reviewDigest == Some(review.dryRunDigest)
               && row.resolution ==
                    Some(Resolution(review.reviewerKey,
                         ControlResolution(review.dryRunDigest, facts, row.sourceRowHash, a.report.conservation,
                                           a.report.changedCount)))
  {
    hide Apply, ApplyProjects, ApplyRequests, ManifestDigest, NonBlank, AllDecisionsOk, Advances, ConservationOf,
         CountsOf;
    var p, r := ApplyStages(w, db, review);
    var ctx := Context(review.reviewerKey, ManifestDigest(w, review.entries));
    ProjectsFrame(w, ctx, ProjectRun(db, []), review.entries);
    RequestsFrame(w, RequestRun(p.db, []), SortTexts(review.roleChangeRequestIds));
    es, rs := SortTexts(EntryIds(review.entries)), SortTexts(review.roleChangeRequestIds);
    SortPermutes(EntryIds(review.entries));
    SortIsInOrder(EntryIds(review.entries));
    SortPermutes(review.roleChangeRequestIds);
    SortIsInOrder(review.roleChangeRequestIds);
  }

  // ---- What the manifest digest covers -------------------------------------------------------------------

  /** The facts a reviewer was shown, one by one, candidates in order. */
  function Shown(e: ManifestEntry): ManifestFacts {
    ManifestFacts(e.facts.sourceId, e.facts.sourceRowHash, e.facts.sourceFactsDigest, e.facts.classification,
                  SortStableIds(e.facts.candidateCompanyIds))
  }

  function AllShown(entries: seq<ManifestEntry>): seq<ManifestFacts> {
    if entries == [] then [] else [Shown(entries[0])] + AllShown(entries[1..])
  }

  /** No fact stands before one with a smaller id. */
  ghost predicate ById(fs: seq<ManifestFacts>) {
    forall i, j :: 0 <= i < j < |fs| ==> !Before(fs[j].sourceId, fs[i].sourceId)
  }

  lemma {:induction false} InsertPermutes(x: ManifestFacts, fs: seq<ManifestFacts>)
    ensures multiset(InsertFacts(x, fs)) == multiset(fs) + multiset{x}
  {
    hide Before;
    if fs != [] {
      assert fs == [fs[0]] + fs[1..];
      if Before(fs[0].sourceId, x.sourceId) { InsertPermutes(x, fs[1..]); }
    }
  }

  lemma {:induction false} InsertById(x: ManifestFacts, fs: seq<ManifestFacts>)
    requires ById(fs)
    ensures ById(InsertFacts(x, fs))
  {
    hide Before;
    if fs != [] && Before(fs[0].sourceId, x.sourceId) {
      var rest := InsertFacts(x, fs[1..]);
      InsertById(x, fs[1..]);
      InsertPermutes(x, fs[1..]);
      BeforeStrict(fs[0].sourceId, x.sourceId);
      forall g | g in rest ensures !Before(g.sourceId, fs[0].sourceId) {
        assert g in multiset(rest);
        if g != x { assert g in fs[1..]; }
      }
    } else if fs != [] {
      forall g | g in fs ensures !Before(g.sourceId, x.sourceId) {
        if Before(g.sourceId, x.sourceId) {
          BeforeTotal(fs[0].sourceId, x.sourceId);
          if fs[0].sourceId != x.sourceId { BeforeTransitive(g.sourceId, x.sourceId, fs[0].sourceId); }
        }
      }
    }
  }

  /** The projection lists exactly the facts shown, in the order of their ids. */
  lemma {:induction false} ProjectionKeeps(entries: seq<ManifestEntry>)
    ensures multiset(Projection(entries)) == multiset(AllShown(entries)) && ById(Projection(entries))
  {
    if entries != [] {
      var f := Shown(entries[0]);
      ProjectionKeeps(entries[1..]);
      InsertPermutes(f, Projection(entries[1..]));
      InsertById(f, Projection(entries[1..]));
    }
  }

  ghost predicate IdsDiffer(fs: seq<ManifestFacts>) {
    forall i, j :: 0 <= i < j < |fs| ==> fs[i].sourceId != fs[j].sourceId
  }

  lemma {:induction false} InsertDiffers(x: ManifestFacts, fs: seq<ManifestFacts>)
    requires IdsDiffer(fs) && forall f :: f in fs ==> f.sourceId != x.sourceId
    ensures IdsDiffer(InsertFacts(x, fs))
  {
    hide Before;
    if fs != [] && Before(fs[0].sourceId, x.sourceId) {
      var rest := InsertFacts(x, fs[1..]);
      InsertDiffers(x, fs[1..]);
      InsertPermutes(x, fs[1..]);
      forall g | g in rest ensures g.sourceId != fs[0].sourceId {
        assert g in multiset(rest);
        if g != x { assert g in fs[1..]; }
      }
    }
  }

  lemma {:induction false} ShownIds(entries: seq<ManifestEntry>)
    ensures forall f :: f in AllShown(entries) ==> f.sourceId in EntryIds(entries)
  {
    if entries != [] { ShownIds(entries[1..]); }
  }

  lemma {:induction false} ProjectionDiffers(entries: seq<ManifestEntry>)
    requires Distinct(EntryIds(entries))
    ensures IdsDiffer(Projection(entries))
  {
    if entries != [] {
      var rest := entries[1..];
      RestDistinct(entries);
      ProjectionDiffers(rest);
      ProjectionKeeps(rest);
      ShownIds(rest);
      forall f | f in Projection(rest) ensures f.sourceId != entries[0].Id() {
        assert f in multiset(Projection(rest));
        assert f in AllShown(rest);
      }
      InsertDiffers(Shown(entries[0]), Projection(rest));
    }
  }

  /** Lists in the order of their ids, no id twice, with the same members are the same. */
  lemma {:induction false} OneListing(xs: seq<ManifestFacts>, ys: seq<ManifestFacts>)
    requires ById(xs) && ById(ys) && multiset(xs) == multiset(ys)
    requires IdsDiffer(xs)
    ensures xs == ys
    decreases |xs|
  {
    SameSize(xs, ys);
    if xs != [] {
      SameHead(xs, ys);
      var x, xr, yr := xs[0], xs[1..], ys[1..];
      assert xs == [x] + xr && ys == [x] + yr;
      hide ById, IdsDiffer;
      TailsById(x, xr);
      TailsById(x, yr);
      SameTails(x, xr, yr);
      OneListing(xr, yr);
    }
  }

  lemma TailsById(x: ManifestFacts, fs: seq<ManifestFacts>)
    ensures ById([x] + fs) ==> ById(fs)
    ensures IdsDiffer([x] + fs) ==> IdsDiffer(fs)
  {
    hide Before;
    assert forall i :: 0 <= i < |fs| ==> ([x] + fs)[i + 1] == fs[i];
  }

  lemma SameHead(xs: seq<ManifestFacts>, ys: seq<ManifestFacts>)
    requires ById(xs) && ById(ys) && multiset(xs) == multiset(ys) && IdsDiffer(xs) && xs != [] && ys != []
    ensures xs[0] == ys[0]
  {
    hide Before;
    assert xs[0] in multiset(ys) && ys[0] in multiset(xs);
    var j :| 0 <= j < |xs| && xs[j] == ys[0];
    var i :| 0 <= i < |ys| && ys[i] == xs[0];
    BeforeTotal(xs[0].sourceId, ys[0].sourceId);
  }

  /**
   * The manifest digest covers every fact shown and nothing else: two manifests with the same digest
   * input show the same facts, and if no project is listed twice the converse holds as well.
   */
  lemma DigestCoversFacts(xs: seq<ManifestEntry>, ys: seq<ManifestEntry>)
    ensures Projection(xs) == Projection(ys) ==> multiset(AllShown(xs)) == multiset(AllShown(ys))
    ensures Distinct(EntryIds(xs)) && multiset(AllShown(xs)) == multiset(AllShown(ys)) ==>
              Projection(xs) == Projection(ys)
  {
    ProjectionKeeps(xs);
    ProjectionKeeps(ys);
    if Distinct(EntryIds(xs)) && multiset(AllShown(xs)) == multiset(AllShown(ys)) {
      ProjectionDiffers(xs);
      OneListing(Projection(xs), Projection(ys));
    }
  }

  /**
   * A manifest edited after the dry run is refused: where the hash tells the two digest inputs apart,
   * an apply that carries the dry run's digest goes through only with the facts of the dry run.
   */
  lemma EditedManifestRefused(w: World, db: Db, review: Review, dry: seq<ManifestEntry>)
    requires review.dryRunDigest == w.digest(ManifestDigestInput(Projection(dry)))
    requires w.digest(ManifestDigestInput(Projection(review.entries))) == review.dryRunDigest ==>
               Projection(review.entries) == Projection(dry)
    ensures Apply(w, db, review).Committed? ==> multiset(AllShown(review.entries)) == multiset(AllShown(dry))
    ensures ReviewLoads(review) && AllDecisionsOk(review.entries) &&
            multiset(AllShown(review.entries)) != multiset(AllShown(dry)) ==>
              Apply(w, db, review) == Thrown(StaleManifestDigest)
  {
    hide ApplyProjects, ApplyRequests, StepControl, NonBlank, DecisionOk, Projection, AllShown;
    DigestCoversFacts(review.entries, dry);
  }

  // ---- What is refused ---------------------------------------------------------------------------------------

  ghost predicate Written(t: Option<Text>) {
    t.Some? && exists i :: 0 <= i < |t.value| && !IsJsSpace(t.value[i])
  }

  /** An assignment names a company, a reviewer and a reason; a quarantine names no company. */
  ghost predicate Signed(e: ManifestEntry) {
    || (e.decision == Some(Assign) && e.selectedCompanyId.Some? && e.selectedCompanyId.value != []
        && Written(e.reviewerKey) && Written(e.rationale))
    || (e.decision == Some(Quarantine) && e.selectedCompanyId == None)
  }

  /** Nothing is written for a review file that is not signed, entry by entry, or not attested by its digest. */
  lemma UnsignedRefused(w: World, db: Db, review: Review)
    ensures Apply(w, db, review).Committed? ==>
              && Written(Some(review.reviewerKey)) && review.dryRunDigest != []
              && (forall e :: e in review.entries ==> Signed(e))
              && w.digest(ManifestDigestInput(Projection(review.entries))) == review.dryRunDigest
    ensures Written(Some(review.reviewerKey)) && review.dryRunDigest != [] &&
            (exists e :: e in review.entries && !Signed(e)) ==>
              Apply(w, db, review) == Thrown(InvalidDecision)
  {
    hide ApplyProjects, ApplyRequests, StepControl, Projection;
    forall e ensures Signed(e) <==> DecisionOk(e) {}
    hide DecisionOk, Signed;
    assert Written(Some(review.reviewerKey)) <==> NonBlank(review.reviewerKey);
    if Apply(w, db, review).Committed? {
      var p, r := ApplyStages(w, db, review);
    }
  }

  /**
   * A database takes one review only: once an apply has gone through from an empty control row,
   * another review goes through only with the same manifest, decisions included, the same digest and
   * the same counts.
   */
  lemma OneReviewOnly(w: World, db: Db, first: Review, w': World, second: Review, a: Applied, b: Applied)
    requires Apply(w, db, first) == Committed(a) && CONTROL_KEY !in db.quarantine
    requires Apply(w', a.db, second) == Committed(b)
    ensures second.entries == first.entries && second.dryRunDigest == first.dryRunDigest
    ensures b.report.counts == a.report.counts && b.report.controlOutcome == IdenticalNoop
    ensures CONTROL_KEY in a.db.quarantine && CONTROL_KEY in b.db.quarantine
    ensures b.db.quarantine[CONTROL_KEY] == a.db.quarantine[CONTROL_KEY]
    ensures w'.digest(a.db.quarantine[CONTROL_KEY].sourceRowJson) == a.db.quarantine[CONTROL_KEY].sourceRowHash
  {
    hide Apply, ApplyProjects, ApplyRequests, ManifestDigest, NonBlank, AllDecisionsOk, Advances, ConservationOf,
         CountsOf;
    var es, rs := ControlWritten(w, db, first);
    var p, r := ApplyStages(w', a.db, second);
    var ctx := Context(second.reviewerKey, ManifestDigest(w', second.entries));
    ProjectsFrame(w', ctx, ProjectRun(a.db, []), second.entries);
    RequestsFrame(w', RequestRun(p.db, []), SortTexts(second.roleChangeRequestIds));
  }
}
