/** The scope root each model inherits: a memoised depth-first search that marks what it is in. */
module ScopeRoots {
  import opened Options
  type Model = string

  datatype RootCategory = TenantRoot | CompanyRoot | ProjectRoot

  datatype Category =
    | Root(root: RootCategory)
    | GlobalShared
    | CompanyDirect
    | ChildViaFk(relationField: string, additionalRequiredRelationFields: seq<string>)

  datatype Entry = Entry(model: Model, category: Category)

  datatype Relation = Relation(model: Model, relationField: string, targetModel: Model, mandatory: bool)

  datatype Verdict = Rooted(root: RootCategory) | Shared | Ambiguous | DeadEnd

  datatype Graph = Graph(entries: seq<Entry>, relations: seq<Relation>)

  const USER_COMPANY_ROLE: Model := "UserCompanyRole"

  const NON_SCOPE_PARENT_MODELS: set<Model> := {"UserCompanyRole", "EngineerCertification", "SupportSlaPolicyVersion"}

  // ---- Reading the declarations -------------------------------------------------

  /** The declaration in force for a model: the last one listed. */
  function Declared(entries: seq<Entry>, m: Model): (r: Option<Entry>)
    ensures r.Some? ==> r.value in entries && r.value.model == m
  {
    if entries == [] then None
    else if entries[|entries| - 1].model == m then Some(entries[|entries| - 1])
    else Declared(entries[..|entries| - 1], m)
  }

  /** The root category of a model, when any of its declarations gives one. */
  function DeclaredRoot(entries: seq<Entry>, m: Model): Option<RootCategory> {
    if entries == [] then None
    else
      var e := entries[|entries| - 1];
      if e.model == m && e.category.Root? then Some(e.category.root) else DeclaredRoot(entries[..|entries| - 1], m)
  }

  /** The relations of one model, in schema order. */
  function RelationsOf(relations: seq<Relation>, m: Model): (rs: seq<Relation>)
    ensures forall r :: r in rs ==> r in relations && r.model == m
  {
    if relations == [] then []
    else
      var r := relations[|relations| - 1];
      RelationsOf(relations[..|relations| - 1], m) + if r.model == m then [r] else []
  }

  function Mandatory(rs: seq<Relation>): (es: seq<Relation>)
    ensures forall r :: r in es ==> r in rs && r.mandatory
  {
    if rs == [] then []
    else Mandatory(rs[..|rs| - 1]) + if rs[|rs| - 1].mandatory then [rs[|rs| - 1]] else []
  }

  function EdgesOf(g: Graph, m: Model): (es: seq<Relation>)
    ensures forall r :: r in es ==> r in g.relations && r.model == m
  {
    Mandatory(RelationsOf(g.relations, m))
  }

  /** Verdicts that need no traversal. */
  function Leaf(g: Graph, m: Model): Option<Verdict> {
    var root := DeclaredRoot(g.entries, m);
    var d := Declared(g.entries, m);
    if root.Some? then Some(Rooted(root.value))
    else if d.Some? && d.value.category.GlobalShared? then Some(Shared)
    else if d.Some? && d.value.category.CompanyDirect? then Some(Rooted(CompanyRoot))
    else None
  }

  function RefFields(g: Graph, m: Model): seq<string> {
    var d := Declared(g.entries, m);
    if d.Some? && d.value.category.ChildViaFk? then d.value.category.additionalRequiredRelationFields else []
  }

  /** The declared scope edge to `UserCompanyRole`, which stands for a company root. */
  predicate IsAuthority(g: Graph, m: Model, r: Relation) {
    var d := Declared(g.entries, m);
    && r.targetModel == USER_COMPANY_ROLE
    && d.Some? && d.value.category.ChildViaFk? && d.value.category.relationField == r.relationField
  }

  /** An edge the search follows. */
  predicate IsFollowed(g: Graph, m: Model, r: Relation) {
    r.targetModel !in NON_SCOPE_PARENT_MODELS && r.relationField !in RefFields(g, m)
  }

  function Outcome(roots: set<RootCategory>, sawGlobalOnly: bool): Verdict {
    if roots == {TenantRoot} then Rooted(TenantRoot)
    else if roots == {CompanyRoot} then Rooted(CompanyRoot)
    else if roots == {ProjectRoot} then Rooted(ProjectRoot)
    else if roots != {} then Ambiguous
    else if sawGlobalOnly then Shared
    else DeadEnd
  }

  /** `roots.size` decides the outcome. */
  lemma OutcomeBySize(roots: set<RootCategory>, saw: bool)
    ensures |roots| == 1 <==> Outcome(roots, saw).Rooted?
    ensures |roots| == 1 ==> roots == {Outcome(roots, saw).root}
    ensures |roots| > 1 <==> Outcome(roots, saw) == Ambiguous
    ensures |roots| == 0 ==> Outcome(roots, saw) == if saw then Shared else DeadEnd
  {
    assert |{TenantRoot}| == |{CompanyRoot}| == |{ProjectRoot}| == 1;
    if roots != {} {
      var c :| c in roots;
      assert roots == {c} + (roots - {c}) && |roots| == 1 + |roots - {c}|;
      if |roots| == 1 {
        assert roots == {c};
        assert c == TenantRoot || c == CompanyRoot || c == ProjectRoot;
      }
    }
  }

  // ---- The search, with its memo made explicit --------------------------------------

  type Memo = map<Model, Verdict>

  datatype Resolved = Resolved(v: Verdict, memo: Memo)

  datatype Gathered = Gathered(roots: set<RootCategory>, saw: bool, memo: Memo)

  /** Models with any relation; only these are traversed. */
  function Sources(g: Graph): set<Model> { set r | r in g.relations :: r.model }

  function Resolution(g: Graph, m: Model, memo: Memo, resolving: set<Model>): Resolved
    decreases |Sources(g) - resolving|, 0, 0
  {
    if m in memo then Resolved(memo[m], memo)
    else if Leaf(g, m).Some? then Resolved(Leaf(g, m).value, memo[m := Leaf(g, m).value])
    else if m in resolving then Resolved(DeadEnd, memo[m := DeadEnd])
    else if EdgesOf(g, m) == [] then Resolved(Outcome({}, true), memo[m := Outcome({}, true)])
    else
      MarkedSmaller(g, m, resolving);
      var s := Gather(g, m, 0, {}, false, memo, resolving + {m});
      Resolved(Outcome(s.roots, s.saw), s.memo[m := Outcome(s.roots, s.saw)])
  }

  /** The edge loop from edge `i`. */
  function Gather(
      g: Graph, m: Model, i: nat, roots: set<RootCategory>, saw: bool, memo: Memo, resolving: set<Model>): Gathered
    requires i <= |EdgesOf(g, m)|
    decreases |Sources(g) - resolving|, 1, |EdgesOf(g, m)| - i
  {
    if i == |EdgesOf(g, m)| then Gathered(roots, saw, memo)
    else
      var r := EdgesOf(g, m)[i];
      if r.targetModel in NON_SCOPE_PARENT_MODELS then
        Gather(g, m, i + 1, if IsAuthority(g, m, r) then roots + {CompanyRoot} else roots, saw, memo, resolving)
      else if r.relationField in RefFields(g, m) then Gather(g, m, i + 1, roots, saw, memo, resolving)
      else
        var t := Resolution(g, r.targetModel, memo, resolving);
        Gather(g, m, i + 1, if t.v.Rooted? then roots + {t.v.root} else roots, saw || t.v.Shared?, t.memo, resolving)
  }

  lemma MarkedSmaller(g: Graph, m: Model, resolving: set<Model>)
    requires m !in resolving && EdgesOf(g, m) != []
    ensures |Sources(g) - (resolving + {m})| < |Sources(g) - resolving|
  {
    var r := EdgesOf(g, m)[0];
    assert r in EdgesOf(g, m);
    assert m in Sources(g) - resolving;
    assert Sources(g) - (resolving + {m}) == Sources(g) - resolving - {m};
  }

  // ---- Paths and acyclicity ---------------------------------------------------------

  /** One followed step; only models that are not leaves take steps. */
  ghost predicate Step(g: Graph, a: Model, b: Model) {
    Leaf(g, a).None? && exists r :: r in EdgesOf(g, a) && IsFollowed(g, a, r) && r.targetModel == b
  }

  ghost predicate IsPath(g: Graph, p: seq<Model>) {
    |p| > 0 && forall i :: 0 <= i < |p| - 1 ==> Step(g, p[i], p[i + 1])
  }

  /** `p` is a followed path from `m` to `n`. */
  ghost predicate Links(g: Graph, p: seq<Model>, m: Model, n: Model) {
    IsPath(g, p) && p[0] == m && p[|p| - 1] == n
  }

  ghost predicate Reaches(g: Graph, m: Model, n: Model) {
    exists p :: Links(g, p, m, n) && |p| > 1
  }

  /** The followed edges have no cycle. */
  ghost predicate Acyclic(g: Graph) {
    forall m :: !Reaches(g, m, m)
  }

  function Targets(g: Graph): set<Model> { set r | r in g.relations :: r.targetModel }

  ghost function ReachSet(g: Graph, m: Model): set<Model> {
    set n | n in Targets(g) && Reaches(g, m, n)
  }

  lemma PathCons(g: Graph, a: Model, b: Model, p: seq<Model>, n: Model)
    requires Step(g, a, b) && Links(g, p, b, n)
    ensures Links(g, [a] + p, a, n)
  {
    var q := [a] + p;
    forall i | 0 <= i < |q| - 1 ensures Step(g, q[i], q[i + 1]) {
      if i > 0 { assert Step(g, p[i - 1], p[i]); }
    }
  }

  lemma StepReaches(g: Graph, a: Model, b: Model)
    requires Step(g, a, b)
    ensures Reaches(g, a, b) && b in ReachSet(g, a)
    ensures forall n :: Reaches(g, b, n) ==> Reaches(g, a, n)
  {
    StepLink(g, a, b);
    forall n | Reaches(g, b, n) ensures Reaches(g, a, n) {
      var p :| Links(g, p, b, n) && |p| > 1;
      hide IsPath, Step;
      PathCons(g, a, b, p, n);
      assert |[a] + p| > 1;
    }
  }

  lemma PathHere(g: Graph, m: Model)
    ensures Links(g, [m], m, m)
  {}

  lemma StepLink(g: Graph, a: Model, b: Model)
    requires Step(g, a, b)
    ensures Reaches(g, a, b) && b in ReachSet(g, a)
  {
    hide RelationsOf, Mandatory, Leaf, IsFollowed, IsPath;
    var r :| r in EdgesOf(g, a) && IsFollowed(g, a, r) && r.targetModel == b;
    PathHere(g, b);
    PathCons(g, a, b, [b], b);
    assert |[a] + [b]| > 1;
  }

  /** In an acyclic graph each step strictly shrinks what can still be reached. */
  lemma StepDescends(g: Graph, a: Model, b: Model)
    requires Acyclic(g) && Step(g, a, b)
    ensures |ReachSet(g, b)| < |ReachSet(g, a)|
  {
    StepReaches(g, a, b);
    assert ReachSet(g, b) <= ReachSet(g, a) - {b};
    Smaller(ReachSet(g, b), ReachSet(g, a) - {b});
  }

  lemma {:induction false} Smaller(a: set<Model>, b: set<Model>)
    requires a <= b
    ensures |a| <= |b|
  {
    if a != {} {
      var x :| x in a;
      Smaller(a - {x}, b - {x});
    }
  }

  lemma EdgesDescend(g: Graph, m: Model)
    requires Acyclic(g) && Leaf(g, m).None?
    ensures forall r :: r in EdgesOf(g, m) && IsFollowed(g, m, r) ==> |ReachSet(g, r.targetModel)| < |ReachSet(g, m)|
  {
    forall r | r in EdgesOf(g, m) && IsFollowed(g, m, r) ensures |ReachSet(g, r.targetModel)| < |ReachSet(g, m)| {
      assert Step(g, m, r.targetModel);
      StepDescends(g, m, r.targetModel);
    }
  }

  // ---- The plain recursive definition -------------------------------------------------

  /** The verdict of a model from those of its followed targets; no memo, no marking, no order. */
  ghost function Plain(g: Graph, m: Model): Verdict
    requires Acyclic(g)
    decreases |ReachSet(g, m)|
  {
    if Leaf(g, m).Some? then Leaf(g, m).value
    else
      EdgesDescend(g, m);
      var es := EdgesOf(g, m);
      var roots :=
        (set r | r in es && IsFollowed(g, m, r) && Plain(g, r.targetModel).Rooted? :: Plain(g, r.targetModel).root) +
        (set r | r in es && IsAuthority(g, m, r) :: CompanyRoot);
      var saw := es == [] || exists r :: r in es && IsFollowed(g, m, r) && Plain(g, r.targetModel) == Shared;
      Outcome(roots, saw)
  }

  /** What the first `i` edges contribute. */
  ghost function PlainRoots(g: Graph, m: Model, i: nat): set<RootCategory>
    requires Acyclic(g) && i <= |EdgesOf(g, m)|
  {
    var es := EdgesOf(g, m)[..i];
    (set r | r in es && IsFollowed(g, m, r) && Plain(g, r.targetModel).Rooted? :: Plain(g, r.targetModel).root) +
    (set r | r in es && IsAuthority(g, m, r) :: CompanyRoot)
  }

  ghost predicate PlainSaw(g: Graph, m: Model, i: nat)
    requires Acyclic(g) && i <= |EdgesOf(g, m)|
  {
    exists r :: r in EdgesOf(g, m)[..i] && IsFollowed(g, m, r) && Plain(g, r.targetModel) == Shared
  }

  lemma PlainStep(g: Graph, m: Model, i: nat)
    requires Acyclic(g) && i < |EdgesOf(g, m)|
    ensures var r := EdgesOf(g, m)[i];
            var roots := PlainRoots(g, m, i);
            PlainRoots(g, m, i + 1) ==
              if IsAuthority(g, m, r) then roots + {CompanyRoot}
              else if IsFollowed(g, m, r) && Plain(g, r.targetModel).Rooted? then roots + {Plain(g, r.targetModel).root}
              else roots
    ensures var r := EdgesOf(g, m)[i];
            PlainSaw(g, m, i + 1) == (PlainSaw(g, m, i) || (IsFollowed(g, m, r) && Plain(g, r.targetModel) == Shared))
    ensures IsAuthority(g, m, EdgesOf(g, m)[i]) ==> EdgesOf(g, m)[i].targetModel in NON_SCOPE_PARENT_MODELS
  {
    hide Plain, RelationsOf, Mandatory, RefFields, Declared, EdgesOf, Acyclic;
    var es, r := EdgesOf(g, m), EdgesOf(g, m)[i];
    assert es[..i + 1] == es[..i] + [r];
  }

  ghost predicate AgreesWithPlain(g: Graph, memo: Memo)
    requires Acyclic(g)
  {
    forall k :: k in memo ==> memo[k] == Plain(g, k)
  }

  /** Everything being resolved has a followed path to `m`. */
  ghost predicate AllReach(g: Graph, resolving: set<Model>, m: Model) {
    forall k :: k in resolving ==> Reaches(g, k, m)
  }

  /**
   * On an acyclic graph the memoised search returns the plain verdict, whatever has been memoised
   * before, and memoises only plain verdicts.
   */
  lemma {:induction false} ResolveIsPlain(g: Graph, m: Model, memo: Memo, resolving: set<Model>)
    requires Acyclic(g) && AgreesWithPlain(g, memo) && AllReach(g, resolving, m)
    ensures var s := Resolution(g, m, memo, resolving);
            s.v == Plain(g, m) && AgreesWithPlain(g, s.memo) && m in s.memo && forall k :: k in memo ==> k in s.memo
    decreases |Sources(g) - resolving|, 0, 0
  {
    hide Gather, EdgesOf, IsFollowed, IsAuthority, Reaches, Outcome, Plain, PlainRoots, PlainSaw;
    if Leaf(g, m).Some? {
      PlainLeaf(g, m);
    } else if m !in memo {
      assert m !in resolving;
      var es := EdgesOf(g, m);
      PlainWhole(g, m);
      if es != [] {
        MarkedSmaller(g, m, resolving);
        GatherIsPlain(g, m, 0, memo, resolving + {m});
      }
    }
  }

  lemma PlainLeaf(g: Graph, m: Model)
    requires Acyclic(g) && Leaf(g, m).Some?
    ensures Plain(g, m) == Leaf(g, m).value
  {}

  lemma PlainWhole(g: Graph, m: Model)
    requires Acyclic(g) && Leaf(g, m).None?
    ensures var n := |EdgesOf(g, m)|;
            Plain(g, m) == Outcome(PlainRoots(g, m, n), EdgesOf(g, m) == [] || PlainSaw(g, m, n))
    ensures PlainRoots(g, m, 0) == {} && !PlainSaw(g, m, 0)
  {
    var es := EdgesOf(g, m);
    assert es[..|es|] == es;
    assert es[..0] == [];
  }

  lemma {:induction false} GatherIsPlain(g: Graph, m: Model, i: nat, memo: Memo, resolving: set<Model>)
    requires Acyclic(g) && AgreesWithPlain(g, memo) && i <= |EdgesOf(g, m)| && Leaf(g, m).None?
    requires forall k :: k in resolving ==> k == m || Reaches(g, k, m)
    ensures var n := |EdgesOf(g, m)|;
            var s := Gather(g, m, i, PlainRoots(g, m, i), PlainSaw(g, m, i), memo, resolving);
            && s.roots == PlainRoots(g, m, n) && s.saw == PlainSaw(g, m, n) && AgreesWithPlain(g, s.memo)
            && forall k :: k in memo ==> k in s.memo
    decreases |Sources(g) - resolving|, 1, |EdgesOf(g, m)| - i
  {
    hide Resolution, EdgesOf, Plain, PlainRoots, PlainSaw, Reaches, IsAuthority, AgreesWithPlain, Leaf;
    if i < |EdgesOf(g, m)| {
      var r := EdgesOf(g, m)[i];
      PlainStep(g, m, i);
      if IsFollowed(g, m, r) {
        TargetReached(g, m, r, resolving);
        ResolveIsPlain(g, r.targetModel, memo, resolving);
        GatherIsPlain(g, m, i + 1, Resolution(g, r.targetModel, memo, resolving).memo, resolving);
      } else {
        GatherIsPlain(g, m, i + 1, memo, resolving);
      }
    }
  }

  lemma TargetReached(g: Graph, m: Model, r: Relation, resolving: set<Model>)
    requires r in EdgesOf(g, m) && IsFollowed(g, m, r) && Leaf(g, m).None?
    requires forall k :: k in resolving ==> k == m || Reaches(g, k, m)
    ensures AllReach(g, resolving, r.targetModel)
  {
    hide EdgesOf, Leaf, IsFollowed;
    assert Step(g, m, r.targetModel);
    forall k | k in resolving ensures Reaches(g, k, r.targetModel) {
      StepReaches(g, m, r.targetModel);
      if k != m { ReachesThen(g, k, m, r.targetModel); }
    }
  }

  lemma ReachesThen(g: Graph, k: Model, m: Model, n: Model)
    requires Reaches(g, k, m) && Step(g, m, n)
    ensures Reaches(g, k, n)
  {
    hide Step;
    var p :| Links(g, p, k, m) && |p| > 1;
    var q := p + [n];
    forall i | 0 <= i < |q| - 1 ensures Step(g, q[i], q[i + 1]) {
      if i < |p| - 1 { assert Step(g, p[i], p[i + 1]); }
    }
    assert Links(g, q, k, n);
  }

  // ---- Every graph: a root verdict has a real path ---------------------------------------

  /** `n` is a root of category `c`, or carries the declared authority edge. */
  ghost predicate EndsAt(g: Graph, n: Model, c: RootCategory) {
    || Leaf(g, n) == Some(Rooted(c))
    || (Leaf(g, n).None? && c == CompanyRoot && exists r :: r in EdgesOf(g, n) && IsAuthority(g, n, r))
  }

  /** Some followed path from `m` ends in a root of category `c`. */
  ghost predicate Witness(g: Graph, m: Model, c: RootCategory) {
    exists p, n :: Links(g, p, m, n) && EndsAt(g, n, c)
  }

  lemma WitnessHere(g: Graph, m: Model, c: RootCategory)
    requires EndsAt(g, m, c)
    ensures Witness(g, m, c)
  {
    PathHere(g, m);
  }

  lemma WitnessStep(g: Graph, a: Model, b: Model, c: RootCategory)
    requires Step(g, a, b) && Witness(g, b, c)
    ensures Witness(g, a, c)
  {
    hide Step, EndsAt;
    var p, n :| Links(g, p, b, n) && EndsAt(g, n, c);
    PathCons(g, a, b, p, n);
  }

  /** A path to a root either ends at once or starts with a step. */
  lemma WitnessCases(g: Graph, m: Model, c: RootCategory)
    requires Witness(g, m, c)
    ensures EndsAt(g, m, c) || exists b :: Step(g, m, b) && Witness(g, b, c)
  {
    hide EndsAt, Step;
    var p, n :| Links(g, p, m, n) && EndsAt(g, n, c);
    if |p| > 1 {
      assert Step(g, p[0], p[1]);
      var q := p[1..];
      forall i | 0 <= i < |q| - 1 ensures Step(g, q[i], q[i + 1]) {
        assert Step(g, p[i + 1], p[i + 2]);
      }
      assert Links(g, q, p[1], n);
      assert Step(g, m, p[1]) && Witness(g, p[1], c);
    }
  }

  /** Such a path on which none of these models lies. */
  ghost predicate WitnessOff(g: Graph, m: Model, c: RootCategory, avoid: set<Model>) {
    exists p, n :: Links(g, p, m, n) && EndsAt(g, n, c) && Avoids(p, avoid)
  }

  predicate Avoids(p: seq<Model>, avoid: set<Model>) { forall i :: 0 <= i < |p| ==> p[i] !in avoid }

  lemma OffHere(g: Graph, m: Model, c: RootCategory, avoid: set<Model>)
    requires EndsAt(g, m, c) && m !in avoid
    ensures WitnessOff(g, m, c, avoid)
  {
    PathHere(g, m);
    assert Avoids([m], avoid);
  }

  lemma OffStep(g: Graph, a: Model, b: Model, c: RootCategory, avoid: set<Model>)
    requires Step(g, a, b) && WitnessOff(g, b, c, avoid) && a !in avoid
    ensures WitnessOff(g, a, c, avoid)
  {
    hide Step, EndsAt, Links;
    var p, n :| Links(g, p, b, n) && EndsAt(g, n, c) && Avoids(p, avoid);
    PathCons(g, a, b, p, n);
    assert Avoids([a] + p, avoid);
  }

  lemma OffNothing(g: Graph, m: Model, c: RootCategory)
    ensures WitnessOff(g, m, c, {}) <==> Witness(g, m, c)
  {
    hide Links, EndsAt;
    if Witness(g, m, c) {
      var p, n :| Links(g, p, m, n) && EndsAt(g, n, c);
      assert Avoids(p, {});
    }
  }

  ghost predicate TwoOff(g: Graph, m: Model, avoid: set<Model>) {
    exists c, d :: c != d && WitnessOff(g, m, c, avoid) && WitnessOff(g, m, d, avoid)
  }

  /** A root verdict has a path to such a root, an ambiguous one has paths to two different ones. */
  ghost predicate Backed(g: Graph, m: Model, v: Verdict, avoid: set<Model>) {
    (v.Rooted? ==> WitnessOff(g, m, v.root, avoid)) && (v == Ambiguous ==> TwoOff(g, m, avoid))
  }

  ghost predicate SoundMemo(g: Graph, memo: Memo, avoid: set<Model>) {
    forall k :: k in memo ==> Backed(g, k, memo[k], avoid)
  }

  /** None of these models is a leaf. */
  ghost predicate NoLeaves(g: Graph, ms: set<Model>) { forall k :: k in ms ==> Leaf(g, k).None? }

  /**
   * On any graph, cyclic included: every root or ambiguous verdict, returned or memoised, has the
   * paths that justify it, and they keep off any models that were on the stack all along.
   */
  lemma {:induction false} ResolveSound(g: Graph, m: Model, memo: Memo, resolving: set<Model>, avoid: set<Model>)
    requires SoundMemo(g, memo, avoid) && avoid <= resolving && NoLeaves(g, avoid)
    ensures var s := Resolution(g, m, memo, resolving);
            SoundMemo(g, s.memo, avoid) && Backed(g, m, s.v, avoid)
    decreases |Sources(g) - resolving|, 0, 0
  {
    hide Gather, EdgesOf, WitnessOff, EndsAt, TwoOff, Leaf, Outcome, Resolution;
    ResolutionCases(g, m, memo, resolving);
    if m !in memo {
      if Leaf(g, m).Some? {
        LeafBacked(g, m, avoid);
      } else if m !in resolving {
        if EdgesOf(g, m) == [] {
          GatherDone(g, m, {}, true, memo, resolving + {m});
        } else {
          MarkedSmaller(g, m, resolving);
          GatherSound(g, m, 0, {}, false, memo, resolving + {m}, avoid);
        }
        var s := Gather(g, m, 0, {}, EdgesOf(g, m) == [], memo, resolving + {m});
        OutcomeBacked(g, m, s.roots, s.saw, avoid);
      }
    }
  }

  lemma LeafBacked(g: Graph, m: Model, avoid: set<Model>)
    requires Leaf(g, m).Some? && m !in avoid
    ensures Backed(g, m, Leaf(g, m).value, avoid)
  {
    hide EdgesOf, WitnessOff, TwoOff;
    if Leaf(g, m).value.Rooted? { OffHere(g, m, Leaf(g, m).value.root, avoid); }
  }

  lemma OutcomeBacked(g: Graph, m: Model, roots: set<RootCategory>, saw: bool, avoid: set<Model>)
    requires forall c :: c in roots ==> WitnessOff(g, m, c, avoid)
    ensures Backed(g, m, Outcome(roots, saw), avoid)
  {
    hide WitnessOff;
    OutcomeBySize(roots, saw);
    if |roots| > 1 {
      var c :| c in roots;
      assert |roots| == |{c}| + |roots - {c}|;
      var d :| d in roots - {c};
      assert c != d && WitnessOff(g, m, c, avoid) && WitnessOff(g, m, d, avoid);
    }
  }

  lemma {:induction false} GatherSound(
      g: Graph, m: Model, i: nat, roots: set<RootCategory>, saw: bool, memo: Memo, resolving: set<Model>,
      avoid: set<Model>)
    requires SoundMemo(g, memo, avoid) && avoid <= resolving && NoLeaves(g, avoid)
    requires i <= |EdgesOf(g, m)| && Leaf(g, m).None? && m !in avoid
    requires forall c :: c in roots ==> WitnessOff(g, m, c, avoid)
    ensures var s := Gather(g, m, i, roots, saw, memo, resolving);
            SoundMemo(g, s.memo, avoid) && forall c :: c in s.roots ==> WitnessOff(g, m, c, avoid)
    decreases |Sources(g) - resolving|, 1, |EdgesOf(g, m)| - i
  {
    hide Resolution, EdgesOf, WitnessOff, TwoOff, IsAuthority, RefFields, Leaf, SoundMemo;
    if i < |EdgesOf(g, m)| {
      var r := EdgesOf(g, m)[i];
      if IsAuthority(g, m, r) {
        assert EndsAt(g, m, CompanyRoot);
        OffHere(g, m, CompanyRoot, avoid);
      }
      if r.targetModel in NON_SCOPE_PARENT_MODELS {
        var next := if IsAuthority(g, m, r) then roots + {CompanyRoot} else roots;
        GatherSound(g, m, i + 1, next, saw, memo, resolving, avoid);
      } else if r.relationField in RefFields(g, m) {
        GatherSound(g, m, i + 1, roots, saw, memo, resolving, avoid);
      } else {
        ResolveSound(g, r.targetModel, memo, resolving, avoid);
        var t := Resolution(g, r.targetModel, memo, resolving);
        if t.v.Rooted? {
          assert Step(g, m, r.targetModel);
          OffStep(g, m, r.targetModel, t.v.root, avoid);
        }
        var next := if t.v.Rooted? then roots + {t.v.root} else roots;
        GatherSound(g, m, i + 1, next, saw || t.v.Shared?, t.memo, resolving, avoid);
      }
    }
  }

  // ---- The error list -------------------------------------------------------------------

  datatype ErrorCode = AmbiguousRoot | DeadEndChain

  datatype ScopeError = ScopeError(code: ErrorCode, model: Model)

  function Judge(m: Model, v: Verdict): seq<ScopeError> {
    match v
    case Ambiguous => [ScopeError(AmbiguousRoot, m)]
    case DeadEnd => [ScopeError(DeadEndChain, m)]
    case Shared => [ScopeError(DeadEndChain, m)]
    case Rooted(_) => []
  }

  /** Errors from entry `i` on, with the memo left by the entries before it. */
  function Mismatches(g: Graph, i: nat, memo: Memo): seq<ScopeError>
    requires i <= |g.entries|
    decreases |g.entries| - i
  {
    if i == |g.entries| then []
    else if !g.entries[i].category.ChildViaFk? then Mismatches(g, i + 1, memo)
    else
      var s := Resolution(g, g.entries[i].model, memo, {});
      Judge(g.entries[i].model, s.v) + Mismatches(g, i + 1, s.memo)
  }

  ghost function PlainMismatches(g: Graph, i: nat): seq<ScopeError>
    requires Acyclic(g) && i <= |g.entries|
    decreases |g.entries| - i
  {
    if i == |g.entries| then []
    else
      var e := g.entries[i];
      (if e.category.ChildViaFk? then Judge(e.model, Plain(g, e.model)) else []) + PlainMismatches(g, i + 1)
  }

  /** On an acyclic graph each entry is judged by its plain verdict, however the memo was filled. */
  lemma {:induction false} MismatchesArePlain(g: Graph, i: nat, memo: Memo)
    requires Acyclic(g) && AgreesWithPlain(g, memo) && i <= |g.entries|
    ensures Mismatches(g, i, memo) == PlainMismatches(g, i)
    decreases |g.entries| - i
  {
    hide Resolution, Plain, AgreesWithPlain, Acyclic;
    if i < |g.entries| {
      var e := g.entries[i];
      if e.category.ChildViaFk? {
        NothingResolving(g, e.model);
        ResolveIsPlain(g, e.model, memo, {});
        MismatchesArePlain(g, i + 1, Resolution(g, e.model, memo, {}).memo);
      } else {
        MismatchesArePlain(g, i + 1, memo);
      }
    }
  }

  lemma NothingResolving(g: Graph, m: Model)
    ensures AllReach(g, {}, m)
  {}

  lemma EmptyMemoPlain(g: Graph)
    requires Acyclic(g)
    ensures AgreesWithPlain(g, map[])
  {}

  // ---- One step of each recursion ---------------------------------------------------------

  lemma DeclaredNone(m: Model)
    ensures Declared([], m) == None && DeclaredRoot([], m) == None
  {}

  lemma RelationsNone(m: Model)
    ensures RelationsOf([], m) == []
  {}

  lemma DeclaredSnoc(entries: seq<Entry>, e: Entry, m: Model)
    ensures Declared(entries + [e], m) == if e.model == m then Some(e) else Declared(entries, m)
    ensures DeclaredRoot(entries + [e], m) ==
            if e.model == m && e.category.Root? then Some(e.category.root) else DeclaredRoot(entries, m)
  {
    assert (entries + [e])[..|entries|] == entries;
  }

  lemma RelationsSnoc(relations: seq<Relation>, r: Relation, m: Model)
    ensures RelationsOf(relations + [r], m) == RelationsOf(relations, m) + if r.model == m then [r] else []
  {
    assert (relations + [r])[..|relations|] == relations;
  }

  lemma MandatoryNone()
    ensures Mandatory([]) == []
  {}

  lemma MandatorySnoc(rs: seq<Relation>, r: Relation)
    ensures Mandatory(rs + [r]) == Mandatory(rs) + if r.mandatory then [r] else []
  {
    assert (rs + [r])[..|rs|] == rs;
  }

  /** One edge of the loop. */
  lemma GatherStep(g: Graph, m: Model, i: nat, roots: set<RootCategory>, saw: bool, memo: Memo, resolving: set<Model>)
    requires i < |EdgesOf(g, m)|
    ensures var r := EdgesOf(g, m)[i];
            var t := Resolution(g, r.targetModel, memo, resolving);
            Gather(g, m, i, roots, saw, memo, resolving) ==
              if r.targetModel in NON_SCOPE_PARENT_MODELS then
                Gather(g, m, i + 1, if IsAuthority(g, m, r) then roots + {CompanyRoot} else roots, saw, memo, resolving)
              else if r.relationField in RefFields(g, m) then Gather(g, m, i + 1, roots, saw, memo, resolving)
              else Gather(g, m, i + 1, if t.v.Rooted? then roots + {t.v.root} else roots,
                          saw || t.v.Shared?, t.memo, resolving)
  {
    hide Resolution, EdgesOf;
  }

  lemma GatherDone(g: Graph, m: Model, roots: set<RootCategory>, saw: bool, memo: Memo, resolving: set<Model>)
    ensures Gather(g, m, |EdgesOf(g, m)|, roots, saw, memo, resolving) == Gathered(roots, saw, memo)
  {}

  lemma ResolutionCases(g: Graph, m: Model, memo: Memo, resolving: set<Model>)
    ensures m in memo ==> Resolution(g, m, memo, resolving) == Resolved(memo[m], memo)
    ensures m !in memo && Leaf(g, m).Some? ==>
              Resolution(g, m, memo, resolving) == Resolved(Leaf(g, m).value, memo[m := Leaf(g, m).value])
    ensures m !in memo && Leaf(g, m).None? && m in resolving ==>
              Resolution(g, m, memo, resolving) == Resolved(DeadEnd, memo[m := DeadEnd])
    ensures m !in memo && Leaf(g, m).None? && m !in resolving ==>
              var s := Gather(g, m, 0, {}, EdgesOf(g, m) == [], memo, resolving + {m});
              Resolution(g, m, memo, resolving) ==
                Resolved(Outcome(s.roots, s.saw), s.memo[m := Outcome(s.roots, s.saw)])
  {
    hide EdgesOf, Leaf;
  }
}
