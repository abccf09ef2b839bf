/** What the closure verifiers catch: the states they pass, and how each edit is reported. */
module ClosureDetects {
  import opened Options
  import opened Sequences
  import opened Text
  import opened Backfill
  import opened BackfillRuns
  import opened BackfillTables
  import opened BackfillReport
  import opened Closure

  // ---- The control row ----------------------------------------------------------------------

  /** The control row of this state is reported for `b`. */
  ghost predicate Reported(w: World, db: Db, b: BlockerCode) {
    FetchControl(w, db).Some? && ControlReports(FetchControl(w, db).value, b)
  }

  ghost predicate Passes(w: World, db: Db) {
    FetchControl(w, db).Some? && forall b :: !Reported(w, db, b)
  }

  /** The resolution repeats the three digests, adds up, and somebody signed it. */
  predicate Signs(x: Option<Resolution>, reviewDigest: Text, factsDigest: Text, rowHash: Text) {
    && x.Some? && (exists i :: 0 <= i < |x.value.resolvedBy| && !IsJsSpace(x.value.resolvedBy[i]))
    && x.value.json.ControlResolution? && x.value.json.reviewDigest == reviewDigest
    && x.value.json.sourceFactsDigest == factsDigest && x.value.json.sourceRowHash == rowHash
    && x.value.json.conservation.before == x.value.json.conservation.liveAfter + x.value.json.conservation.extracted
  }

  predicate LowerHex64(s: Text) {
    |s| == 64 && forall i :: 0 <= i < 64 ==> 0x30 <= s[i] <= 0x39 || 0x61 <= s[i] <= 0x66
  }

  /** The stored row agrees with itself, its manifest and, if it claims an empty database, the tables. */
  ghost predicate Genuine(w: World, db: Db, row: QuarantineRow) {
    && row.rowId != Generated && row.sourceRowJson.ControlSource?
    && var src := row.sourceRowJson;
       && row.sourceRowHash == w.digest(src) && row.reviewDigest == Some(src.reviewDigest)
       && LowerHex64(src.reviewDigest) && LowerHex64(src.sourceFactsDigest) && LowerHex64(row.sourceRowHash)
       && Signs(row.resolution, src.reviewDigest, src.sourceFactsDigest, row.sourceRowHash)
       && (src.mode == ReviewedApplyMode ==>
             && row.reasonCode == ReviewedApply
             && (row.candidateScopeJson.Manifest? ==>
                   w.digest(ManifestDigestInput(Projection(row.candidateScopeJson.entries))) == src.reviewDigest))
       && (src.mode == EmptyDatabaseMode ==>
             && row.reasonCode == EmptyDatabase && row.candidateScopeJson == Manifest([])
             && db.projects == map[] && db.requests == map[])
  }

  lemma HexSame(s: Text)
    ensures LowerHex64(s) <==> IsHex64(s)
  {}

  lemma EmptySizes(db: Db)
    ensures (|db.projects| == 0 <==> db.projects == map[]) && (|db.requests| == 0 <==> db.requests == map[])
  {}

  /** In any state whatever, the control row passes exactly if it is there and genuine. */
  lemma PassesExactly(w: World, db: Db)
    ensures Passes(w, db) <==> CONTROL_KEY in db.quarantine && Genuine(w, db, db.quarantine[CONTROL_KEY])
  {
    hide Projection, LowerHex64, IsHex64;
    EmptySizes(db);
    if CONTROL_KEY in db.quarantine {
      var row := db.quarantine[CONTROL_KEY];
      if row.sourceRowJson.ControlSource? {
        HexSame(row.sourceRowJson.reviewDigest);
        HexSame(row.sourceRowJson.sourceFactsDigest);
        HexSame(row.sourceRowHash);
      }
      if Genuine(w, db, row) { GenuinePasses(w, db, row); } else { NotGenuine(w, db, row); }
    }
  }

  lemma GenuinePasses(w: World, db: Db, row: QuarantineRow)
    requires CONTROL_KEY in db.quarantine && db.quarantine[CONTROL_KEY] == row && Genuine(w, db, row)
    ensures Passes(w, db)
  {
    hide Projection;
    EmptySizes(db);
    HexSame(row.sourceRowJson.reviewDigest);
    HexSame(row.sourceRowJson.sourceFactsDigest);
    HexSame(row.sourceRowHash);
    hide LowerHex64, IsHex64;
  }

  /** Which code each disagreement is reported under. */
  lemma NotGenuine(w: World, db: Db, row: QuarantineRow)
    requires CONTROL_KEY in db.quarantine && db.quarantine[CONTROL_KEY] == row
    ensures !row.sourceRowJson.ControlSource? ==> Reported(w, db, ControlRowMalformed)
    ensures row.rowId == Generated ==> Reported(w, db, ControlRowHandInserted)
    ensures row.sourceRowJson.ControlSource? ==>
              var src := row.sourceRowJson;
              && (row.sourceRowHash != w.digest(src) ==> Reported(w, db, ControlRowHashMismatch))
              && (row.reviewDigest != Some(src.reviewDigest) ==> Reported(w, db, ControlRowFieldsDisagree))
              && (!LowerHex64(src.reviewDigest) ==> Reported(w, db, ControlRowDigestNotHex64))
              && (!LowerHex64(src.sourceFactsDigest) ==> Reported(w, db, ControlRowDigestNotHex64))
              && (!LowerHex64(row.sourceRowHash) ==> Reported(w, db, ControlRowDigestNotHex64))
              && (src.mode == ReviewedApplyMode && row.candidateScopeJson.Manifest? &&
                    w.digest(ManifestDigestInput(Projection(row.candidateScopeJson.entries))) != src.reviewDigest ==>
                    Reported(w, db, ControlRowReviewDigestTampered))
              && (row.reasonCode != (if src.mode == ReviewedApplyMode then ReviewedApply else EmptyDatabase) ==>
                    Reported(w, db, ControlRowFieldsDisagree))
              && (src.mode == EmptyDatabaseMode && (db.projects != map[] || db.requests != map[]) ==>
                    Reported(w, db, ControlRowEmptyModeOnNonempty))
              && (src.mode == EmptyDatabaseMode && row.candidateScopeJson != Manifest([]) ==>
                    Reported(w, db, ControlRowMalformed))
              && (!Signs(row.resolution, src.reviewDigest, src.sourceFactsDigest, row.sourceRowHash) ==>
                    || Reported(w, db, ControlRowFieldsDisagree) || Reported(w, db, ControlRowMalformed)
                    || Reported(w, db, ControlRowConservationViolated))
  {
    hide Projection;
    EmptySizes(db);
    if row.sourceRowJson.ControlSource? {
      HexSame(row.sourceRowJson.reviewDigest);
      HexSame(row.sourceRowJson.sourceFactsDigest);
      HexSame(row.sourceRowHash);
    }
    hide LowerHex64, IsHex64;
  }

  // ---- Edits of the row an apply wrote -----------------------------------------------------------

  /** The state with another control row. */
  function WithControl(db: Db, row: QuarantineRow): Db { db.(quarantine := db.quarantine[CONTROL_KEY := row]) }

  /** The control row of a first apply passes, and any one column changed afterwards is reported. */
  lemma EditsReported(w: World, db: Db, review: Review)
    requires Apply(w, db, review).Committed? && CONTROL_KEY !in db.quarantine && HexDigests(w)
    ensures var a := Apply(w, db, review).value.db;
            CONTROL_KEY in a.quarantine && Passes(w, a) &&
            var o := a.quarantine[CONTROL_KEY];
            && (forall src: Payload :: src.ControlSource? && w.digest(src) != o.sourceRowHash ==>
                  Reported(w, WithControl(a, o.(sourceRowJson := src)), ControlRowHashMismatch))
            && (forall h :: h != o.sourceRowHash ==>
                  Reported(w, WithControl(a, o.(sourceRowHash := h)), ControlRowHashMismatch))
            && (forall d :: d != o.reviewDigest ==>
                  Reported(w, WithControl(a, o.(reviewDigest := d)), ControlRowFieldsDisagree))
            && (forall c :: c != o.reasonCode ==>
                  Reported(w, WithControl(a, o.(reasonCode := c)), ControlRowFieldsDisagree))
            && (forall es :: w.digest(ManifestDigestInput(Projection(es))) != review.dryRunDigest ==>
                  Reported(w, WithControl(a, o.(candidateScopeJson := Manifest(es))), ControlRowReviewDigestTampered))
            && Reported(w, WithControl(a, o.(rowId := Generated)), ControlRowHandInserted)
  {
    hide Apply, Projection, LowerHex64, Signs, IsHex64, Reported, Passes;
    var a := Apply(w, db, review).value.db;
    var es, rs := ControlWritten(w, db, review);
    var o := a.quarantine[CONTROL_KEY];
    ControlRowClean(w, db, review);
    CleanPasses(w, a);
    PassesExactly(w, a);
    forall src: Payload | src.ControlSource? && w.digest(src) != o.sourceRowHash
      ensures Reported(w, WithControl(a, o.(sourceRowJson := src)), ControlRowHashMismatch)
    {
      NotGenuine(w, WithControl(a, o.(sourceRowJson := src)), o.(sourceRowJson := src));
    }
    forall h | h != o.sourceRowHash
      ensures Reported(w, WithControl(a, o.(sourceRowHash := h)), ControlRowHashMismatch)
    {
      NotGenuine(w, WithControl(a, o.(sourceRowHash := h)), o.(sourceRowHash := h));
    }
    forall d | d != o.reviewDigest
      ensures Reported(w, WithControl(a, o.(reviewDigest := d)), ControlRowFieldsDisagree)
    {
      NotGenuine(w, WithControl(a, o.(reviewDigest := d)), o.(reviewDigest := d));
    }
    forall c | c != o.reasonCode
      ensures Reported(w, WithControl(a, o.(reasonCode := c)), ControlRowFieldsDisagree)
    {
      NotGenuine(w, WithControl(a, o.(reasonCode := c)), o.(reasonCode := c));
    }
    forall es | w.digest(ManifestDigestInput(Projection(es))) != review.dryRunDigest
      ensures Reported(w, WithControl(a, o.(candidateScopeJson := Manifest(es))), ControlRowReviewDigestTampered)
    {
      var row := o.(candidateScopeJson := Manifest(es));
      NotGenuine(w, WithControl(a, row), row);
    }
    NotGenuine(w, WithControl(a, o.(rowId := Generated)), o.(rowId := Generated));
  }

  /**
   * What may be exchanged in that row without a report: the manifest for one with the same digest,
   * and the resolution for one that repeats the digests, adds up and is signed.
   */
  lemma EditsPassing(w: World, db: Db, review: Review)
    requires Apply(w, db, review).Committed? && CONTROL_KEY !in db.quarantine && HexDigests(w)
    ensures var a := Apply(w, db, review).value.db;
            CONTROL_KEY in a.quarantine && a.quarantine[CONTROL_KEY].sourceRowJson.ControlSource? &&
            var o := a.quarantine[CONTROL_KEY];
            && (forall x :: Passes(w, WithControl(a, o.(resolution := x))) <==>
                  Signs(x, review.dryRunDigest, o.sourceRowJson.sourceFactsDigest, o.sourceRowHash))
            && (forall es :: Passes(w, WithControl(a, o.(candidateScopeJson := Manifest(es)))) <==>
                  w.digest(ManifestDigestInput(Projection(es))) == review.dryRunDigest)
  {
    hide Apply, Projection, LowerHex64, Signs, IsHex64, Reported, Passes;
    var a := Apply(w, db, review).value.db;
    var es, rs := ControlWritten(w, db, review);
    var o := a.quarantine[CONTROL_KEY];
    ControlRowClean(w, db, review);
    CleanPasses(w, a);
    PassesExactly(w, a);
    forall x
      ensures Passes(w, WithControl(a, o.(resolution := x))) <==>
                Signs(x, review.dryRunDigest, o.sourceRowJson.sourceFactsDigest, o.sourceRowHash)
    {
      PassesExactly(w, WithControl(a, o.(resolution := x)));
    }
    forall es
      ensures Passes(w, WithControl(a, o.(candidateScopeJson := Manifest(es)))) <==>
                w.digest(ManifestDigestInput(Projection(es))) == review.dryRunDigest
    {
      PassesExactly(w, WithControl(a, o.(candidateScopeJson := Manifest(es))));
    }
  }

  lemma CleanPasses(w: World, db: Db)
    requires FetchControl(w, db).Some? && forall b :: !ControlReports(FetchControl(w, db).value, b)
    ensures Passes(w, db)
  {
    hide FetchControl, ControlReports;
  }

  // ---- Role-change requests ------------------------------------------------------------------------

  /** In any state the first two codes are reported exactly for a request with no company, and for one with a record. */
  lemma LiveCodesExactly(db: Db)
    ensures RequestReports(FetchRequests(db), RoleChangeLiveNullCompany) <==>
            exists id :: id in db.requests && db.requests[id].company == None
    ensures RequestReports(FetchRequests(db), QuarantineStale) <==>
            exists id :: id in db.requests && Key(RequestModel, id) in db.quarantine
  {
    EmptyMeans(NullRequests(db));
    EmptyMeans(OverlappingRequests(db));
    assert forall id :: id in NullRequests(db) <==> id in db.requests && db.requests[id].company == None;
    hide NullRequests;
    forall id | id in db.requests && Key(RequestModel, id) in db.quarantine
      ensures Key(RequestModel, id) in OverlappingRequests(db)
    {}
    forall k | k in OverlappingRequests(db) ensures k.id in db.requests && Key(RequestModel, k.id) in db.quarantine {
      assert k == Key(RequestModel, k.id);
    }
  }

  lemma EmptyMeans<T>(s: set<T>)
    ensures |s| == 0 <==> s == {}
    ensures s == {} <==> !exists x :: x in s
  {}

  /** The request records there are. */
  function Records(db: Db): set<Key> { set k | k in db.quarantine && k.model == RequestModel }

  /** The control row of this state conserves `c`. */
  predicate Conserving(db: Db, c: Conservation) {
    && CONTROL_KEY in db.quarantine && db.quarantine[CONTROL_KEY].resolution.Some?
    && db.quarantine[CONTROL_KEY].resolution.value.json.ControlResolution?
    && db.quarantine[CONTROL_KEY].resolution.value.json.conservation == c
  }

  /** The other two are reported exactly for a table that is not of the size conserved. */
  lemma CountCodesExactly(db: Db, c: Conservation)
    requires Conserving(db, c)
    ensures RequestReports(FetchRequests(db), RoleChangeUnrepresentedSource) <==> |db.requests| != c.liveAfter
    ensures RequestReports(FetchRequests(db), RoleChangeExtractionMismatch) <==> |Records(db)| != c.extracted
  {
    assert RecordedRequests(db) == Records(db);
  }

  /** None of the four codes is reported. */
  ghost predicate RequestsPass(db: Db) { forall b :: !RequestReports(FetchRequests(db), b) }

  /** A later state that still has the resolution a first apply wrote. */
  ghost predicate KeepsControl(w: World, db: Db, review: Review, later: Db) {
    && Apply(w, db, review).Committed? && CONTROL_KEY !in db.quarantine
    && var a := Apply(w, db, review).value.db;
       && CONTROL_KEY in later.quarantine && CONTROL_KEY in a.quarantine
       && later.quarantine[CONTROL_KEY].resolution == a.quarantine[CONTROL_KEY].resolution
  }

  /**
   * A later state that keeps the control row of a first apply and passes has lost no listed request:
   * every request is live with a company or has a record, never both, and there are as many as the
   * review listed.
   */
  lemma PassingConserves(w: World, db: Db, review: Review, later: Db)
    requires KeepsControl(w, db, review, later) && RequestsPass(later)
    ensures |later.requests| + |Records(later)| == |review.roleChangeRequestIds|
    ensures forall id :: id in later.requests ==>
              later.requests[id].company.Some? && Key(RequestModel, id) !in later.quarantine
    ensures Accounted(later, Apply(w, db, review).value.report.conservation)
  {
    hide Apply, FetchRequests, RequestReports;
    var es, rs := ControlWritten(w, db, review);
    CountsAddUp(w, db, review);
    CountCodesExactly(later, Apply(w, db, review).value.report.conservation);
    LiveCodesExactly(later);
  }

  /** Both tables are of the size conserved. */
  predicate Accounted(db: Db, c: Conservation) {
    Conserving(db, c) && |db.requests| == c.liveAfter && |Records(db)| == c.extracted
  }

  function WithRequest(db: Db, id: Id, row: RequestRow): Db { db.(requests := db.requests[id := row]) }

  function WithoutRequest(db: Db, id: Id): Db { db.(requests := db.requests - {id}) }

  function WithoutRecord(db: Db, id: Id): Db { db.(quarantine := db.quarantine - {Key(RequestModel, id)}) }

  /**
   * Where the tables are accounted for, as they are in any state that passes, each single change to
   * the requests is reported: one loses its company, one disappears, one appears, one that was
   * extracted comes back, a record disappears.
   */
  lemma RequestEditsReported(db: Db, c: Conservation, id: Id, row: RequestRow)
    requires Accounted(db, c)
    ensures row.company == None ==> RequestReports(FetchRequests(WithRequest(db, id, row)), RoleChangeLiveNullCompany)
    ensures id in db.requests ==>
              RequestReports(FetchRequests(WithoutRequest(db, id)), RoleChangeUnrepresentedSource)
    ensures id !in db.requests ==>
              RequestReports(FetchRequests(WithRequest(db, id, row)), RoleChangeUnrepresentedSource)
    ensures Key(RequestModel, id) in db.quarantine ==>
              && RequestReports(FetchRequests(WithRequest(db, id, row)), QuarantineStale)
              && RequestReports(FetchRequests(WithoutRecord(db, id)), RoleChangeExtractionMismatch)
  {
    hide FetchRequests, RequestReports;
    RequestPut(db, c, id, row);
    var fewer := WithoutRequest(db, id);
    CountCodesExactly(fewer, c);
    assert fewer.requests.Keys == db.requests.Keys - {id};
    if Key(RequestModel, id) in db.quarantine { RecordDropped(db, c, id); }
  }

  lemma RequestPut(db: Db, c: Conservation, id: Id, row: RequestRow)
    requires Accounted(db, c)
    ensures var i := FetchRequests(WithRequest(db, id, row));
            && (row.company == None ==> RequestReports(i, RoleChangeLiveNullCompany))
            && (id !in db.requests ==> RequestReports(i, RoleChangeUnrepresentedSource))
            && (Key(RequestModel, id) in db.quarantine ==> RequestReports(i, QuarantineStale))
  {
    hide FetchRequests, RequestReports, Records;
    var more := WithRequest(db, id, row);
    LiveCodesExactly(more);
    CountCodesExactly(more, c);
    assert id in more.requests && more.requests[id] == row;
    assert more.requests.Keys == db.requests.Keys + {id};
  }

  lemma RecordDropped(db: Db, c: Conservation, id: Id)
    requires Accounted(db, c) && Key(RequestModel, id) in db.quarantine
    ensures RequestReports(FetchRequests(WithoutRecord(db, id)), RoleChangeExtractionMismatch)
  {
    hide FetchRequests, RequestReports;
    var fewer := WithoutRecord(db, id);
    assert fewer.quarantine[CONTROL_KEY] == db.quarantine[CONTROL_KEY];
    assert Records(fewer) == Records(db) - {Key(RequestModel, id)};
    CountCodesExactly(fewer, c);
  }

  // ---- Projects ------------------------------------------------------------------------------------

  /** The entry at `i` is the last one for its project. */
  ghost predicate LastFor(entries: seq<ManifestEntry>, i: nat, id: Id) {
    && i < |entries| && entries[i].facts.sourceId == id
    && forall j :: i < j < |entries| ==> entries[j].facts.sourceId != id
  }

  lemma {:induction false} LastForIs(entries: seq<ManifestEntry>, i: nat, id: Id)
    requires LastFor(entries, i, id)
    ensures EntryFor(entries, id) == Some(entries[i])
    decreases |entries|
  {
    var n := |entries| - 1;
    if i < n {
      assert entries[n].facts.sourceId != id;
      LastForIs(entries[..n], i, id);
    }
  }

  lemma {:induction false} NoneFor(entries: seq<ManifestEntry>, id: Id)
    requires forall e :: e in entries ==> e.facts.sourceId != id
    ensures EntryFor(entries, id) == None
    decreases |entries|
  {
    if entries != [] { NoneFor(entries[..|entries| - 1], id); }
  }

  /**
   * What any later company of a project, with any later quarantine table, is reported as: only the
   * company its last entry assigned passes, or none where that entry quarantines it and the record
   * is there; a project never listed passes with any company, and only with one.
   */
  lemma ProjectCodesExactly(
      entries: seq<ManifestEntry>, id: Id, i: nat, company: Option<Id>, q: map<Key, QuarantineRow>)
    ensures LastFor(entries, i, id) && entries[i].decision != Some(Quarantine) ==>
              var e := entries[i];
              ProjectBlocker(id, company, entries, q) ==
                if company == None then Some(ProjectUnmapped)
                else if e.decision == Some(Assign) && company == e.selectedCompanyId && e.reviewerKey.Some? &&
                        exists k :: 0 <= k < |e.reviewerKey.value| && !IsJsSpace(e.reviewerKey.value[k]) then None
                else Some(ProjectUnreviewedOverride)
    ensures LastFor(entries, i, id) && entries[i].decision == Some(Quarantine) ==>
              var k := Key(ProjectModel, id);
              ProjectBlocker(id, company, entries, q) ==
                if company.Some? then Some(ProjectUnreviewedOverride)
                else if k in q && q[k].candidateScopeJson.ProjectCandidates? &&
                        q[k].candidateScopeJson.classification != Resolved then None
                else Some(ProjectCandidateFactsMalformed)
    ensures (forall e :: e in entries ==> e.facts.sourceId != id) ==>
              ProjectBlocker(id, company, entries, q) == if company == None then Some(ProjectUnmapped) else None
  {
    hide EntryFor;
    if LastFor(entries, i, id) { LastForIs(entries, i, id); }
    if forall e :: e in entries ==> e.facts.sourceId != id { NoneFor(entries, id); }
  }
}
