/** The memoised search of `deriveStructuralMismatches`, with its tables and sets as mutable fields. */
module ScopeSearch {
  import opened Options
  import opened ScopeRoots

  /** The two tables of declarations say what the list of entries says. */
  ghost predicate Tabled(entries: seq<Entry>, declared: map<Model, Entry>, roots: map<Model, RootCategory>) {
    && (forall m :: m in declared <==> Declared(entries, m).Some?)
    && (forall m :: m in declared ==> Declared(entries, m) == Some(declared[m]))
    && (forall m :: m in roots <==> DeclaredRoot(entries, m).Some?)
    && (forall m :: m in roots ==> DeclaredRoot(entries, m) == Some(roots[m]))
  }

  /** The table of relations groups the schema's relations by model, in order. */
  ghost predicate Grouped(relations: seq<Relation>, byModel: map<Model, seq<Relation>>) {
    && (forall m :: m in byModel <==> RelationsOf(relations, m) != [])
    && (forall m :: m in byModel ==> byModel[m] == RelationsOf(relations, m))
  }

  lemma TabledNext(entries: seq<Entry>, e: Entry, declared: map<Model, Entry>, roots: map<Model, RootCategory>)
    requires Tabled(entries, declared, roots)
    ensures Tabled(entries + [e], declared[e.model := e],
            if e.category.Root? then roots[e.model := e.category.root] else roots)
  {
    hide Declared, DeclaredRoot;
    forall m
      ensures Declared(entries + [e], m) == if e.model == m then Some(e) else Declared(entries, m)
      ensures DeclaredRoot(entries + [e], m) ==
              if e.model == m && e.category.Root? then Some(e.category.root) else DeclaredRoot(entries, m)
    {
      DeclaredSnoc(entries, e, m);
    }
  }

  lemma GroupedNext(relations: seq<Relation>, r: Relation, byModel: map<Model, seq<Relation>>)
    requires Grouped(relations, byModel)
    ensures Grouped(relations + [r], byModel[r.model := (if r.model in byModel then byModel[r.model] else []) + [r]])
  {
    hide RelationsOf;
    forall m ensures RelationsOf(relations + [r], m) == RelationsOf(relations, m) + if r.model == m then [r] else [] {
      RelationsSnoc(relations, r, m);
    }
  }

  class Resolver {
    const g: Graph
    const declared: map<Model, Entry>
    const relationsByModel: map<Model, seq<Relation>>
    const declaredRootCategory: map<Model, RootCategory>
    var resolved: Memo
    var resolving: set<Model>

    /** The three lookup tables say what the declarations and the schema say. */
    ghost predicate Valid() {
      Tabled(g.entries, declared, declaredRootCategory) && Grouped(g.relations, relationsByModel)
    }

    constructor (g: Graph)
      ensures Valid() && this.g == g && resolved == map[] && resolving == {}
    {
      hide Tabled, Grouped;
      NothingTabled();
      var byName, roots := map[], map[];
      var i := 0;
      assert g.entries[..0] == [];
      while i < |g.entries|
        invariant 0 <= i <= |g.entries| && Tabled(g.entries[..i], byName, roots)
      {
        var e := g.entries[i];
        assert g.entries[..i + 1] == g.entries[..i] + [e];
        TabledNext(g.entries[..i], e, byName, roots);
        byName := byName[e.model := e];
        if e.category.Root? { roots := roots[e.model := e.category.root]; }
        i := i + 1;
      }
      assert g.entries[..i] == g.entries;
      var byModel := map[];
      i := 0;
      assert g.relations[..0] == [];
      while i < |g.relations|
        invariant 0 <= i <= |g.relations| && Grouped(g.relations[..i], byModel)
      {
        var r := g.relations[i];
        assert g.relations[..i + 1] == g.relations[..i] + [r];
        GroupedNext(g.relations[..i], r, byModel);
        var list := if r.model in byModel then byModel[r.model] else [];
        byModel := byModel[r.model := list + [r]];
        i := i + 1;
      }
      assert g.relations[..i] == g.relations;
      this.g := g;
      declared, declaredRootCategory, relationsByModel := byName, roots, byModel;
      resolved, resolving := map[], {};
    }

    static lemma NothingTabled()
      ensures Tabled([], map[], map[]) && Grouped([], map[])
    {}

    /** The lookups of one visit, in terms of the declarations. */
    lemma TablesAt(m: Model)
      requires Valid()
      ensures Leaf(g, m) == if m in declaredRootCategory then Some(Rooted(declaredRootCategory[m]))
                            else if m in declared && declared[m].category.GlobalShared? then Some(Shared)
                            else if m in declared && declared[m].category.CompanyDirect? then Some(Rooted(CompanyRoot))
                            else None
      ensures RefFields(g, m) == if m in declared && declared[m].category.ChildViaFk?
                                 then declared[m].category.additionalRequiredRelationFields else []
      ensures forall r :: IsAuthority(g, m, r) <==>
                          m in declared && declared[m].category.ChildViaFk? &&
                          declared[m].category.relationField == r.relationField && r.targetModel == USER_COMPANY_ROLE
    {}

    method MandatoryEdges(m: Model) returns (es: seq<Relation>)
      requires Valid()
      ensures es == EdgesOf(g, m)
    {
      hide Mandatory, RelationsOf, Declared, DeclaredRoot;
      var rs := if m in relationsByModel then relationsByModel[m] else [];
      assert rs == RelationsOf(g.relations, m);
      es := [];
      MandatoryNone();
      assert rs[..0] == [];
      var i := 0;
      while i < |rs|
        invariant 0 <= i <= |rs| && es == Mandatory(rs[..i])
      {
        assert rs[..i + 1] == rs[..i] + [rs[i]];
        MandatorySnoc(rs[..i], rs[i]);
        if rs[i].mandatory { es := es + [rs[i]]; }
        i := i + 1;
      }
      assert rs[..i] == rs;
    }

    method Resolve(m: Model) returns (v: Verdict)
      requires Valid()
      modifies this`resolved, this`resolving
      ensures Valid() && resolving == old(resolving)
      ensures Resolution(g, m, old(resolved), old(resolving)) == Resolved(v, resolved)
      decreases |Sources(g) - resolving|
    {
      hide Gather, EdgesOf, IsAuthority, Sources, Leaf, RefFields, Resolution, Valid, Tabled, Grouped, Declared,
           DeclaredRoot, Outcome;
      TablesAt(m);
      ResolutionCases(g, m, resolved, resolving);
      if m in resolved { return resolved[m]; }
      if m in declaredRootCategory {
        resolved := resolved[m := Rooted(declaredRootCategory[m])];
        return Rooted(declaredRootCategory[m]);
      }
      if m in declared && declared[m].category.GlobalShared? {
        resolved := resolved[m := Shared];
        return Shared;
      }
      if m in declared && declared[m].category.CompanyDirect? {
        resolved := resolved[m := Rooted(CompanyRoot)];
        return Rooted(CompanyRoot);
      }
      if m in resolving {
        resolved := resolved[m := DeadEnd];
        return DeadEnd;
      }
      ghost var before := resolving;
      var mandatoryEdges := MandatoryEdges(m);
      if mandatoryEdges != [] { MarkedSmaller(g, m, resolving); }
      resolving := resolving + {m};
      var roots: set<RootCategory> := {};
      var sawGlobalOnly := |mandatoryEdges| == 0;
      var i := 0;
      while i < |mandatoryEdges|
        invariant 0 <= i <= |mandatoryEdges| && Valid() && resolving == before + {m}
        invariant mandatoryEdges == EdgesOf(g, m)
        invariant mandatoryEdges == [] ==> roots == {} && sawGlobalOnly && resolved == old(resolved)
        invariant Gather(g, m, i, roots, sawGlobalOnly, resolved, resolving) ==
                  Gather(g, m, 0, {}, |mandatoryEdges| == 0, old(resolved), before + {m})
      {
        var edge := mandatoryEdges[i];
        GatherStep(g, m, i, roots, sawGlobalOnly, resolved, resolving);
        if edge.targetModel in NON_SCOPE_PARENT_MODELS {
          if m in declared && declared[m].category.ChildViaFk?
            && declared[m].category.relationField == edge.relationField
             && edge.targetModel == USER_COMPANY_ROLE {
            roots := roots + {CompanyRoot};
          }
        } else if m in declared && declared[m].category.ChildViaFk?
                  && edge.relationField in declared[m].category.additionalRequiredRelationFields {
        } else {
          var target := Resolve(edge.targetModel);
          if target.Shared? { sawGlobalOnly := true; }
          else if target.Rooted? { roots := roots + {target.root}; }
        }
        i := i + 1;
      }
      GatherDone(g, m, roots, sawGlobalOnly, resolved, resolving);
      resolving := resolving - {m};
      assert resolving == before;
      OutcomeBySize(roots, sawGlobalOnly);
      if |roots| == 1 {
        var c :| c in roots;
        v := Rooted(c);
      } else if |roots| > 1 {
        v := Ambiguous;
      } else {
        v := if sawGlobalOnly then Shared else DeadEnd;
      }
      assert v == Outcome(roots, sawGlobalOnly);
      resolved := resolved[m := v];
    }
  }

  /** The errors so far, and what one more entry adds. */
  lemma MismatchesStep(g: Graph, i: nat, memo: Memo, errors: seq<ScopeError>)
    requires i < |g.entries|
    ensures var e := g.entries[i];
            var s := Resolution(g, e.model, memo, {});
            errors + Mismatches(g, i, memo) ==
              if e.category.ChildViaFk? then (errors + Judge(e.model, s.v)) + Mismatches(g, i + 1, s.memo)
              else errors + Mismatches(g, i + 1, memo)
  {
    hide Resolution;
  }

  method DeriveStructuralMismatches(g: Graph) returns (errors: seq<ScopeError>)
    ensures errors == Mismatches(g, 0, map[])
  {
    hide Resolution, Mismatches, Resolver.Valid;
    var search := new Resolver(g);
    errors := [];
    assert [] + Mismatches(g, 0, map[]) == Mismatches(g, 0, map[]);
    var i := 0;
    while i < |g.entries|
      invariant 0 <= i <= |g.entries| && search.Valid() && search.g == g && search.resolving == {}
      invariant Mismatches(g, 0, map[]) == errors + Mismatches(g, i, search.resolved)
    {
      var entry := g.entries[i];
      MismatchesStep(g, i, search.resolved, errors);
      if entry.category.ChildViaFk? {
        var structural := search.Resolve(entry.model);
        if structural == Ambiguous {
          errors := errors + [ScopeError(AmbiguousRoot, entry.model)];
        } else if structural == DeadEnd || structural == Shared {
          errors := errors + [ScopeError(DeadEndChain, entry.model)];
        } else {
          assert errors + [] == errors;
        }
      }
      i := i + 1;
    }
    assert Mismatches(g, i, search.resolved) == [] by { MismatchesEnd(g, search.resolved); }
  }

  lemma MismatchesEnd(g: Graph, memo: Memo)
    ensures Mismatches(g, |g.entries|, memo) == []
  {}
}
