/** What an empty error list means on every graph, and what makes it certain to be empty. */
module ScopeErrorFree {
  import opened Options
  import opened Sequences
  import opened ScopeRoots

  /** Every followed edge leads to a declared model. */
  ghost predicate TargetsDeclared(g: Graph) {
    forall a, b :: Step(g, a, b) ==> Declared(g.entries, b).Some?
  }

  /** `c` is the one and only category reachable from `m`. */
  ghost predicate SingleRoot(g: Graph, m: Model, c: RootCategory) {
    forall d :: Witness(g, m, d) <==> d == c
  }

  predicate IsChildEntry(g: Graph, e: Entry) { e in g.entries && e.category.ChildViaFk? }

  /** Every child entry reaches roots of exactly one category. */
  ghost predicate ChildrenSingle(g: Graph) {
    forall e :: IsChildEntry(g, e) ==> exists c :: SingleRoot(g, e.model, c)
  }

  lemma DeclaredRootSome(entries: seq<Entry>, e: Entry)
    requires e in entries && e.category.Root?
    ensures DeclaredRoot(entries, e.model).Some?
  {
    if entries[|entries| - 1] != e {
      assert e in entries[..|entries| - 1];
      DeclaredRootSome(entries[..|entries| - 1], e);
    }
  }

  /** A declared model that is not a leaf is a child entry. */
  lemma NonLeafIsChild(g: Graph, m: Model)
    requires Leaf(g, m).None? && Declared(g.entries, m).Some?
    ensures IsChildEntry(g, Declared(g.entries, m).value)
  {
    var e := Declared(g.entries, m).value;
    if e.category.Root? { DeclaredRootSome(g.entries, e); }
  }

  lemma ListedIsDeclared(entries: seq<Entry>, e: Entry)
    requires e in entries
    ensures Declared(entries, e.model).Some?
  {
    if entries[|entries| - 1].model != e.model {
      assert e in entries[..|entries| - 1];
      ListedIsDeclared(entries[..|entries| - 1], e);
    }
  }

  lemma LeafWitness(g: Graph, m: Model, c: RootCategory)
    requires Leaf(g, m).Some?
    ensures Witness(g, m, c) <==> Leaf(g, m) == Some(Rooted(c))
  {
    hide Leaf, EdgesOf, IsFollowed;
    if Witness(g, m, c) { WitnessCases(g, m, c); }
    if Leaf(g, m) == Some(Rooted(c)) { WitnessHere(g, m, c); }
  }

  lemma LeafKinds(g: Graph, n: Model)
    ensures Leaf(g, n).Some? ==> Leaf(g, n).value == Shared || Leaf(g, n).value.Rooted?
  {}

  lemma {:induction false} WitnessThrough(g: Graph, p: seq<Model>, i: nat, c: RootCategory)
    requires IsPath(g, p) && i < |p| && Witness(g, p[|p| - 1], c)
    ensures Witness(g, p[i], c)
    decreases |p| - i
  {
    hide Step, Witness;
    if i < |p| - 1 {
      WitnessThrough(g, p, i + 1, c);
      WitnessStep(g, p[i], p[i + 1], c);
    }
  }

  // ---- What the memo keeps ----------------------------------------------------------------

  /** A verdict once reached stays, unless its model is still being resolved. */
  lemma {:induction false} ResolutionKeeps(g: Graph, m: Model, memo: Memo, resolving: set<Model>)
    ensures var s := Resolution(g, m, memo, resolving);
            && m in s.memo && s.memo[m] == s.v
            && forall k :: k in memo && k !in resolving ==> k in s.memo && s.memo[k] == memo[k]
    decreases |Sources(g) - resolving|, 0, 0
  {
    hide Gather, EdgesOf, Leaf;
    if m !in memo && Leaf(g, m).None? && m !in resolving && EdgesOf(g, m) != [] {
      MarkedSmaller(g, m, resolving);
      GatherKeeps(g, m, 0, {}, false, memo, resolving + {m});
    }
  }

  lemma {:induction false} GatherKeeps(
    g: Graph, m: Model, i: nat, roots: set<RootCategory>, saw: bool, memo: Memo, resolving: set<Model>)
    requires i <= |EdgesOf(g, m)|
    ensures var s := Gather(g, m, i, roots, saw, memo, resolving);
            && roots <= s.roots
            && forall k :: k in memo && k !in resolving ==> k in s.memo && s.memo[k] == memo[k]
    decreases |Sources(g) - resolving|, 1, |EdgesOf(g, m)| - i
  {
    hide Resolution, EdgesOf, IsAuthority, RefFields;
    if i < |EdgesOf(g, m)| {
      var r := EdgesOf(g, m)[i];
      if r.targetModel in NON_SCOPE_PARENT_MODELS {
        GatherKeeps(g, m, i + 1, if IsAuthority(g, m, r) then roots + {CompanyRoot} else roots, saw, memo, resolving);
      } else if r.relationField in RefFields(g, m) {
        GatherKeeps(g, m, i + 1, roots, saw, memo, resolving);
      } else {
        var t := Resolution(g, r.targetModel, memo, resolving);
        ResolutionKeeps(g, r.targetModel, memo, resolving);
        var next := if t.v.Rooted? then roots + {t.v.root} else roots;
        GatherKeeps(g, m, i + 1, next, saw || t.v.Shared?, t.memo, resolving);
      }
    }
  }

  // ---- The final memo as an oracle -----------------------------------------------------------

  /** The final memo `f` says every declared model that is not a leaf is rooted. */
  ghost predicate AllRooted(g: Graph, f: Memo) {
    forall k :: Leaf(g, k).None? && Declared(g.entries, k).Some? ==> k in f && f[k].Rooted?
  }

  /** What a verdict reached for good says, the final memo says too. */
  ghost predicate Foretells(f: Memo, memo: Memo, resolving: set<Model>) {
    forall k :: k in memo && k !in resolving ==> k in f && f[k] == memo[k]
  }

  /** As far as category `c` is concerned, nothing stands against an edge to `b`. */
  ghost predicate Fits(g: Graph, f: Memo, b: Model, c: RootCategory) {
    if Leaf(g, b).Some? then Leaf(g, b) == Some(Shared) || Leaf(g, b) == Some(Rooted(c))
    else b in f && f[b] == Rooted(c)
  }

  /** This edge of `m` leads nowhere else than to category `c`. */
  ghost predicate EdgeFits(g: Graph, f: Memo, m: Model, r: Relation, c: RootCategory) {
    (IsAuthority(g, m, r) ==> c == CompanyRoot) && (IsFollowed(g, m, r) ==> Fits(g, f, r.targetModel, c))
  }

  ghost predicate EdgesFit(g: Graph, f: Memo, m: Model, n: nat, c: RootCategory)
    requires n <= |EdgesOf(g, m)|
  {
    forall i :: 0 <= i < n ==> EdgeFits(g, f, m, EdgesOf(g, m)[i], c)
  }

  /** A leaf's verdict is its own; any other model's edges all fit its verdict. */
  ghost predicate Consistent(g: Graph, f: Memo, k: Model) {
    if Leaf(g, k).Some? then k in f && f[k] == Leaf(g, k).value
    else k in f && f[k].Rooted? && EdgesFit(g, f, k, |EdgesOf(g, k)|, f[k].root)
  }

  ghost predicate AllConsistent(g: Graph, f: Memo, memo: Memo, resolving: set<Model>) {
    forall k :: k in memo && k !in resolving ==> Consistent(g, f, k)
  }

  /** Everything on the stack ends up with one and the same category. */
  ghost predicate StackAgrees(g: Graph, f: Memo, resolving: set<Model>, c: RootCategory) {
    forall k :: k in resolving ==> Leaf(g, k).None? && k in f && f[k] == Rooted(c)
  }

  /**
   * One call, seen from the end: if the final memo roots every child and everything on the stack
   * ends with category `c`, every model the call finishes is consistent.
   */
  lemma {:induction false} ResolutionConsistent(
    g: Graph, f: Memo, m: Model, memo: Memo, resolving: set<Model>, c: RootCategory)
    requires AllRooted(g, f) && TargetsDeclared(g) && StackAgrees(g, f, resolving, c)
    requires Leaf(g, m).Some? || (m in f && f[m] == Rooted(c))
    requires Foretells(f, Resolution(g, m, memo, resolving).memo, resolving) && AllConsistent(g, f, memo, resolving)
    ensures AllConsistent(g, f, Resolution(g, m, memo, resolving).memo, resolving)
    decreases |Sources(g) - resolving|, 0, 0
  {
    hide Gather, Resolution, EdgesOf, Leaf, Declared, TargetsDeclared, Consistent, AllRooted, EdgesFit;
    ResolutionCases(g, m, memo, resolving);
    ResolutionKeeps(g, m, memo, resolving);
    if m !in memo && m !in resolving {
      if Leaf(g, m).Some? {
        LeafConsistent(g, f, m);
      } else {
        NoEdgesShared(g, m, memo, resolving);
        if EdgesOf(g, m) != [] {
          MarkedSmaller(g, m, resolving);
          var stack := resolving + {m};
          var s := Gather(g, m, 0, {}, false, memo, stack);
          assert s == Gather(g, m, 0, {}, EdgesOf(g, m) == [], memo, stack);
          assert f[m] == Outcome(s.roots, s.saw);
          OutcomeSingle(s.roots, s.saw, c);
          NothingYet(g, f, m, c);
          GatherConsistent(g, f, m, 0, {}, false, memo, stack, c);
          FitsThroughout(g, f, m, c);
        }
      }
    }
  }

  lemma LeafConsistent(g: Graph, f: Memo, m: Model)
    requires Leaf(g, m).Some? && m in f && f[m] == Leaf(g, m).value
    ensures Consistent(g, f, m)
  {}

  lemma NoEdgesShared(g: Graph, m: Model, memo: Memo, resolving: set<Model>)
    requires m !in memo && Leaf(g, m).None? && m !in resolving
    ensures EdgesOf(g, m) == [] ==> Resolution(g, m, memo, resolving).v == Shared
  {
    hide EdgesOf, Leaf;
  }

  lemma OutcomeSingle(roots: set<RootCategory>, saw: bool, c: RootCategory)
    requires Outcome(roots, saw) == Rooted(c)
    ensures roots == {c}
  {}

  lemma NothingYet(g: Graph, f: Memo, m: Model, c: RootCategory)
    ensures EdgesFit(g, f, m, 0, c)
  {}

  lemma FitsThroughout(g: Graph, f: Memo, m: Model, c: RootCategory)
    requires Leaf(g, m).None? && m in f && f[m] == Rooted(c) && EdgesFit(g, f, m, |EdgesOf(g, m)|, c)
    ensures Consistent(g, f, m)
  {}

  lemma FitsNext(g: Graph, f: Memo, m: Model, i: nat, c: RootCategory)
    requires i < |EdgesOf(g, m)| && EdgesFit(g, f, m, i, c) && EdgeFits(g, f, m, EdgesOf(g, m)[i], c)
    ensures EdgesFit(g, f, m, i + 1, c)
  {
    hide EdgesOf, EdgeFits;
  }

  lemma {:induction false} GatherConsistent(
    g: Graph, f: Memo, m: Model, i: nat, roots: set<RootCategory>, saw: bool, memo: Memo, stack: set<Model>,
    c: RootCategory)
    requires AllRooted(g, f) && TargetsDeclared(g) && StackAgrees(g, f, stack, c)
    requires i <= |EdgesOf(g, m)| && Leaf(g, m).None? && EdgesFit(g, f, m, i, c) && AllConsistent(g, f, memo, stack)
    requires var s := Gather(g, m, i, roots, saw, memo, stack); s.roots == {c} && Foretells(f, s.memo, stack)
    ensures EdgesFit(g, f, m, |EdgesOf(g, m)|, c)
            && AllConsistent(g, f, Gather(g, m, i, roots, saw, memo, stack).memo, stack)
    decreases |Sources(g) - stack|, 1, |EdgesOf(g, m)| - i
  {
    hide Gather, Resolution, EdgesOf, Leaf, Declared, TargetsDeclared, AllConsistent, AllRooted, EdgesFit, IsAuthority,
         RefFields, StackAgrees, Foretells;
    if i == |EdgesOf(g, m)| {
      GatherDone(g, m, roots, saw, memo, stack);
    } else {
      var r := EdgesOf(g, m)[i];
      var t := Resolution(g, r.targetModel, memo, stack);
      GatherStep(g, m, i, roots, saw, memo, stack);
      if r.targetModel in NON_SCOPE_PARENT_MODELS {
        var more := if IsAuthority(g, m, r) then roots + {CompanyRoot} else roots;
        GatherKeeps(g, m, i + 1, more, saw, memo, stack);
        FitsNext(g, f, m, i, c);
        GatherConsistent(g, f, m, i + 1, more, saw, memo, stack, c);
      } else {
        AuthorityExcluded(g, m, r);
        if r.relationField in RefFields(g, m) {
          FitsNext(g, f, m, i, c);
          GatherConsistent(g, f, m, i + 1, roots, saw, memo, stack, c);
        } else {
          var more := if t.v.Rooted? then roots + {t.v.root} else roots;
          GatherKeeps(g, m, i + 1, more, saw || t.v.Shared?, t.memo, stack);
          ForetellsEarlier(f, t.memo, Gather(g, m, i + 1, more, saw || t.v.Shared?, t.memo, stack).memo, stack);
          FollowedIsDeclared(g, m, r);
          TargetFits(g, f, r.targetModel, memo, stack, c);
          ResolutionConsistent(g, f, r.targetModel, memo, stack, c);
          FitsNext(g, f, m, i, c);
          GatherConsistent(g, f, m, i + 1, more, saw || t.v.Shared?, t.memo, stack, c);
        }
      }
    }
  }

  lemma AuthorityExcluded(g: Graph, m: Model, r: Relation)
    requires r.targetModel !in NON_SCOPE_PARENT_MODELS
    ensures !IsAuthority(g, m, r)
  {}

  lemma ForetellsEarlier(f: Memo, memo: Memo, later: Memo, resolving: set<Model>)
    requires Foretells(f, later, resolving)
    requires forall k :: k in memo && k !in resolving ==> k in later && later[k] == memo[k]
    ensures Foretells(f, memo, resolving)
  {}

  lemma FollowedIsDeclared(g: Graph, m: Model, r: Relation)
    requires TargetsDeclared(g) && r in EdgesOf(g, m) && IsFollowed(g, m, r) && Leaf(g, m).None?
    ensures Declared(g.entries, r.targetModel).Some?
  {
    hide EdgesOf, IsFollowed, Leaf, Declared;
    assert Step(g, m, r.targetModel);
  }

  /** The target of a followed edge fits, finished or still on the stack. */
  lemma TargetFits(g: Graph, f: Memo, b: Model, memo: Memo, stack: set<Model>, c: RootCategory)
    requires AllRooted(g, f) && Declared(g.entries, b).Some? && StackAgrees(g, f, stack, c)
             && AllConsistent(g, f, memo, stack)
    requires var t := Resolution(g, b, memo, stack);
             Foretells(f, t.memo, stack) && (t.v.Rooted? ==> t.v.root == c)
    ensures Fits(g, f, b, c)
  {
    hide Resolution, EdgesOf, Leaf, Declared, EdgesFit;
    ResolutionCases(g, b, memo, stack);
    ResolutionKeeps(g, b, memo, stack);
    LeafKinds(g, b);
  }

  // ---- The whole pass ------------------------------------------------------------------------

  /** The memo after every entry has been judged. */
  ghost function FinalMemo(g: Graph, i: nat, memo: Memo): Memo
    requires i <= |g.entries|
    decreases |g.entries| - i
  {
    if i == |g.entries| then memo
    else if !g.entries[i].category.ChildViaFk? then FinalMemo(g, i + 1, memo)
    else FinalMemo(g, i + 1, Resolution(g, g.entries[i].model, memo, {}).memo)
  }

  /** With no errors every child entry is rooted in the final memo, which keeps all it was given. */
  lemma {:induction false} ErrorFreeMemo(g: Graph, i: nat, memo: Memo)
    requires i <= |g.entries| && Mismatches(g, i, memo) == []
    ensures var f := FinalMemo(g, i, memo);
            && (forall k :: k in memo ==> k in f && f[k] == memo[k])
            && forall j :: i <= j < |g.entries| && g.entries[j].category.ChildViaFk? ==>
                 g.entries[j].model in f && f[g.entries[j].model].Rooted?
    decreases |g.entries| - i
  {
    hide Resolution;
    if i < |g.entries| {
      var e := g.entries[i];
      if e.category.ChildViaFk? {
        ResolutionKeeps(g, e.model, memo, {});
        ErrorFreeMemo(g, i + 1, Resolution(g, e.model, memo, {}).memo);
      } else {
        ErrorFreeMemo(g, i + 1, memo);
      }
    }
  }

  lemma FinalRootsAll(g: Graph)
    requires Mismatches(g, 0, map[]) == []
    ensures AllRooted(g, FinalMemo(g, 0, map[]))
    ensures forall e :: IsChildEntry(g, e) ==>
            e.model in FinalMemo(g, 0, map[]) && FinalMemo(g, 0, map[])[e.model].Rooted?
  {
    hide Mismatches, FinalMemo, Leaf, Declared;
    var f := FinalMemo(g, 0, map[]);
    ErrorFreeMemo(g, 0, map[]);
    forall e | IsChildEntry(g, e) ensures e.model in f && f[e.model].Rooted? {
      var j :| 0 <= j < |g.entries| && g.entries[j] == e;
    }
    forall k | Leaf(g, k).None? && Declared(g.entries, k).Some? ensures k in f && f[k].Rooted? { NonLeafIsChild(g, k); }
  }

  lemma {:induction false} EntriesConsistent(g: Graph, f: Memo, i: nat, memo: Memo)
    requires i <= |g.entries| && Mismatches(g, i, memo) == [] && FinalMemo(g, i, memo) == f
    requires AllRooted(g, f) && TargetsDeclared(g) && AllConsistent(g, f, memo, {}) && SoundMemo(g, memo, {})
    ensures AllConsistent(g, f, f, {}) && SoundMemo(g, f, {})
    decreases |g.entries| - i
  {
    hide Resolution, AllConsistent, AllRooted, TargetsDeclared, SoundMemo, Leaf;
    if i < |g.entries| {
      var e := g.entries[i];
      if e.category.ChildViaFk? {
        var s := Resolution(g, e.model, memo, {});
        ResolveSound(g, e.model, memo, {}, {});
        ResolutionKeeps(g, e.model, memo, {});
        ErrorFreeMemo(g, i + 1, s.memo);
        ResolutionConsistent(g, f, e.model, memo, {}, f[e.model].root);
        EntriesConsistent(g, f, i + 1, s.memo);
      } else {
        EntriesConsistent(g, f, i + 1, memo);
      }
    }
  }

  // ---- Along paths ---------------------------------------------------------------------------

  lemma StepFits(g: Graph, f: Memo, a: Model, b: Model, c: RootCategory)
    requires AllConsistent(g, f, f, {}) && Step(g, a, b) && Fits(g, f, a, c)
    ensures Fits(g, f, b, c)
  {
    hide Leaf, EdgesOf, IsAuthority, IsFollowed;
    assert Consistent(g, f, a);
    var r :| r in EdgesOf(g, a) && IsFollowed(g, a, r) && r.targetModel == b;
    var i :| 0 <= i < |EdgesOf(g, a)| && EdgesOf(g, a)[i] == r;
    assert EdgeFits(g, f, a, EdgesOf(g, a)[i], c);
  }

  lemma {:induction false} PathFits(g: Graph, f: Memo, p: seq<Model>, i: nat, c: RootCategory)
    requires AllConsistent(g, f, f, {}) && IsPath(g, p) && i < |p| && Fits(g, f, p[0], c)
    ensures Fits(g, f, p[i], c)
  {
    hide AllConsistent, Fits, Step;
    if i > 0 {
      PathFits(g, f, p, i - 1, c);
      assert Step(g, p[i - 1], p[i - 1 + 1]);
      StepFits(g, f, p[i - 1], p[i], c);
    }
  }

  lemma EndFits(g: Graph, f: Memo, n: Model, c: RootCategory, d: RootCategory)
    requires AllConsistent(g, f, f, {}) && Fits(g, f, n, c) && EndsAt(g, n, d)
    ensures d == c
  {
    hide Leaf, EdgesOf, IsAuthority, IsFollowed;
    if Leaf(g, n).None? {
      assert Consistent(g, f, n);
      var r :| r in EdgesOf(g, n) && IsAuthority(g, n, r);
      var i :| 0 <= i < |EdgesOf(g, n)| && EdgesOf(g, n)[i] == r;
      assert EdgeFits(g, f, n, EdgesOf(g, n)[i], c);
    }
  }

  /** A model that fits category `c` reaches roots of no other. */
  lemma OnlyRoot(g: Graph, f: Memo, m: Model, c: RootCategory, d: RootCategory)
    requires AllConsistent(g, f, f, {}) && Fits(g, f, m, c) && Witness(g, m, d)
    ensures d == c
  {
    hide AllConsistent, Fits, EndsAt, Step;
    var p, n :| Links(g, p, m, n) && EndsAt(g, n, d);
    PathFits(g, f, p, |p| - 1, c);
    EndFits(g, f, n, c, d);
  }

  /**
   * On every graph, cyclic included, whose followed targets are declared: an empty error list means
   * that every child model reaches a root, and roots of one single category.
   */
  lemma ErrorFreeMeansSingleRooted(g: Graph)
    requires TargetsDeclared(g) && Mismatches(g, 0, map[]) == []
    ensures ChildrenSingle(g)
    ensures forall e :: IsChildEntry(g, e) ==>
              var f := FinalMemo(g, 0, map[]);
                e.model in f && f[e.model].Rooted? && SingleRoot(g, e.model, f[e.model].root)
  {
    hide Mismatches, FinalMemo, TargetsDeclared, Leaf, Witness, AllRooted, EdgesOf, EdgesFit;
    var f := FinalMemo(g, 0, map[]);
    FinalRootsAll(g);
    EntriesConsistent(g, f, 0, map[]);
    forall e | IsChildEntry(g, e) ensures f[e.model].Rooted? && SingleRoot(g, e.model, f[e.model].root) {
      var c := f[e.model].root;
      assert Consistent(g, f, e.model) && Fits(g, f, e.model, c);
      assert Backed(g, e.model, f[e.model], {});
      OffNothing(g, e.model, c);
      forall d | Witness(g, e.model, d) ensures d == c { OnlyRoot(g, f, e.model, c, d); }
    }
  }

  /**
   * With no errors, nothing a child can reach lies outside its one category: every reachable
   * model is global, a root of that category, or a child with the same single category.
   */
  lemma ErrorFreePathsAgree(g: Graph, e: Entry, n: Model) returns (c: RootCategory)
    requires TargetsDeclared(g) && Mismatches(g, 0, map[]) == []
    requires IsChildEntry(g, e) && Reaches(g, e.model, n)
    ensures SingleRoot(g, e.model, c)
    ensures Leaf(g, n) == Some(Shared) || Leaf(g, n) == Some(Rooted(c)) || (Leaf(g, n).None? && SingleRoot(g, n, c))
  {
    hide Mismatches, Declared, Leaf, Step, Witness, EndsAt, FinalMemo;
    ErrorFreeMeansSingleRooted(g);
    c :| SingleRoot(g, e.model, c);
    var p :| Links(g, p, e.model, n) && |p| > 1;
    assert Step(g, p[|p| - 2], p[|p| - 2 + 1]);
    if Leaf(g, n).Some? {
      LeafKinds(g, n);
      if Leaf(g, n).value.Rooted? {
        LeafWitness(g, n, Leaf(g, n).value.root);
        WitnessThrough(g, p, 0, Leaf(g, n).value.root);
      }
    } else {
      NonLeafIsChild(g, n);
      assert IsChildEntry(g, Declared(g.entries, n).value);
      var d :| SingleRoot(g, n, d);
      WitnessThrough(g, p, 0, d);
    }
  }

  // ---- What an ambiguity means -------------------------------------------------------------------

  lemma {:induction false} AmbiguitiesReal(g: Graph, i: nat, memo: Memo)
    requires i <= |g.entries| && SoundMemo(g, memo, {})
    ensures forall e :: e in Mismatches(g, i, memo) && e.code == AmbiguousRoot ==> TwoOff(g, e.model, {})
    decreases |g.entries| - i
  {
    hide Resolution, SoundMemo, TwoOff;
    if i < |g.entries| {
      var e := g.entries[i];
      if e.category.ChildViaFk? {
        ResolveSound(g, e.model, memo, {}, {});
        AmbiguitiesReal(g, i + 1, Resolution(g, e.model, memo, {}).memo);
      } else {
        AmbiguitiesReal(g, i + 1, memo);
      }
    }
  }

  /**
   * On every graph, cyclic or with undeclared targets: a model reported as ambiguous does reach
   * roots of two different categories. Only the other code can be reported in error.
   */
  lemma AmbiguousIsReal(g: Graph, e: ScopeError) returns (c: RootCategory, d: RootCategory)
    requires e in Mismatches(g, 0, map[]) && e.code == AmbiguousRoot
    ensures c != d && Witness(g, e.model, c) && Witness(g, e.model, d)
  {
    hide Mismatches, WitnessOff, Witness;
    AmbiguitiesReal(g, 0, map[]);
    c, d :| c != d && WitnessOff(g, e.model, c, {}) && WitnessOff(g, e.model, d, {});
    OffNothing(g, e.model, c);
    OffNothing(g, e.model, d);
  }

  // ---- What makes an empty list certain -----------------------------------------------------------

  function Members(q: seq<Model>): set<Model> { set x | x in q }

  /** A followed path without repetition from a declared model, over `q`, to a model that needs resolving. */
  ghost predicate OpenPath(g: Graph, q: seq<Model>, m: Model) {
    IsPath(g, q + [m]) && Distinct(q + [m]) && Declared(g.entries, (q + [m])[0]).Some? && Leaf(g, m).None?
  }

  /** From `m` some root can be reached without coming back to `q`. */
  ghost predicate Escapes(g: Graph, q: seq<Model>, m: Model) {
    exists c :: WitnessOff(g, m, c, Members(q))
  }

  /** Wherever a followed path leads, a root can be reached from its end off the path itself. */
  ghost predicate Unblocked(g: Graph) {
    forall q, m :: OpenPath(g, q, m) ==> Escapes(g, q, m)
  }

  /** The verdict a model ends with when nothing goes wrong. */
  ghost predicate Settled(g: Graph, k: Model, v: Verdict) {
    if Leaf(g, k).Some? then v == Leaf(g, k).value else Declared(g.entries, k).Some? ==> v.Rooted?
  }

  ghost predicate SettledMemo(g: Graph, memo: Memo, stack: set<Model>) {
    forall k :: k in memo && k !in stack ==> Settled(g, k, memo[k])
  }

  /** This edge of `m` gives a root, whatever is on this stack. */
  ghost predicate Contributes(g: Graph, m: Model, r: Relation, stack: set<Model>) {
    || IsAuthority(g, m, r)
    || (IsFollowed(g, m, r) &&
        if Leaf(g, r.targetModel).Some? then Leaf(g, r.targetModel).value.Rooted? else r.targetModel !in stack)
  }

  lemma {:induction false} LastVisit(p: seq<Model>, m: Model) returns (j: nat)
    requires m in p
    ensures j < |p| && p[j] == m && forall i :: j < i < |p| ==> p[i] != m
  {
    j := |p| - 1;
    if p[j] != m {
      assert m in p[..j];
      j := LastVisit(p[..j], m);
      assert p[..|p| - 1][j] == p[j] && forall i :: j < i < |p| - 1 ==> p[..|p| - 1][i] == p[i];
    }
  }

  /** At the end of an open path some edge gives a root although the path is on the stack. */
  lemma WayOut(g: Graph, q: seq<Model>, m: Model) returns (k: nat)
    requires Unblocked(g) && OpenPath(g, q, m)
    ensures k < |EdgesOf(g, m)| && Contributes(g, m, EdgesOf(g, m)[k], Members(q) + {m})
  {
    hide Leaf, EdgesOf, IsAuthority, IsFollowed, OpenPath, IsPath;
    assert Leaf(g, m).None? by { OpenEnd(g, q, m); }
    var c :| WitnessOff(g, m, c, Members(q));
    var p, n :| Links(g, p, m, n) && EndsAt(g, n, c) && Avoids(p, Members(q));
    LinkStart(g, p, m, n);
    var j := LastVisit(p, m);
    if j == |p| - 1 {
      var r :| r in EdgesOf(g, m) && IsAuthority(g, m, r);
      k :| 0 <= k < |EdgesOf(g, m)| && EdgesOf(g, m)[k] == r;
    } else {
      var b := p[j + 1];
      assert b !in Members(q) + {m};
      NextStep(g, p, j);
      var r :| r in EdgesOf(g, m) && IsFollowed(g, m, r) && r.targetModel == b;
      k :| 0 <= k < |EdgesOf(g, m)| && EdgesOf(g, m)[k] == r;
      if Leaf(g, b).Some? { assert b == n; }
    }
  }

  lemma LinkStart(g: Graph, p: seq<Model>, m: Model, n: Model)
    requires Links(g, p, m, n)
    ensures IsPath(g, p) && p[0] == m && p[|p| - 1] == n && m in p
  {
    hide Step;
  }

  lemma OpenEnd(g: Graph, q: seq<Model>, m: Model)
    requires OpenPath(g, q, m)
    ensures IsPath(g, q + [m]) && Leaf(g, m).None? && m !in q
    ensures forall b :: b in q + [m] ==> Leaf(g, b).None?
  {
    hide Leaf, EdgesOf, IsFollowed;
    var w := q + [m];
    assert w[|q|] == m && forall i :: 0 <= i < |q| ==> q[i] == w[i];
    forall i | 0 <= i < |w| ensures Leaf(g, w[i]).None? {
      if i < |q| { assert Step(g, w[i], w[i + 1]); }
    }
  }

  lemma NextStep(g: Graph, p: seq<Model>, j: nat)
    requires IsPath(g, p) && j < |p| - 1
    ensures Step(g, p[j], p[j + 1])
    ensures Leaf(g, p[j + 1]).Some? ==> j + 1 == |p| - 1
  {
    hide Leaf, EdgesOf, IsFollowed;
    assert Step(g, p[j], p[j + 1]);
    if j + 1 < |p| - 1 { assert Step(g, p[j + 1], p[j + 1 + 1]); }
  }

  lemma OpenFurther(g: Graph, q: seq<Model>, m: Model, b: Model)
    requires OpenPath(g, q, m) && Step(g, m, b) && b !in Members(q) + {m} && Leaf(g, b).None?
    ensures OpenPath(g, q + [m], b)
  {
    hide Leaf, Step, Declared;
    var w := q + [m];
    var v := w + [b];
    forall i | 0 <= i < |v| - 1 ensures Step(g, v[i], v[i + 1]) {
      if i < |w| - 1 { assert Step(g, w[i], w[i + 1]); }
    }
    assert v[0] == w[0];
    forall i, j | 0 <= i < j < |v| ensures v[i] != v[j] {
      assert v[i] == w[i];
      if j < |w| {
        assert w[i] != w[j];
      } else if i < |q| {
        assert q[i] in Members(q);
      }
    }
  }

  lemma OpenDeclared(g: Graph, q: seq<Model>, m: Model)
    requires TargetsDeclared(g) && OpenPath(g, q, m)
    ensures Declared(g.entries, m).Some?
  {
    hide Leaf, Step, Declared;
    var w := q + [m];
    if q != [] { assert Step(g, w[|q| - 1], w[|q| - 1 + 1]); }
  }

  lemma Pushed(q: seq<Model>, m: Model)
    ensures Members(q + [m]) == Members(q) + {m}
  {}

  /** Whatever is resolved at the end of an open path gets a root, and the memo stays settled. */
  lemma {:induction false} ResolveSettles(g: Graph, q: seq<Model>, m: Model, memo: Memo)
    requires TargetsDeclared(g) && ChildrenSingle(g) && Unblocked(g)
    requires SoundMemo(g, memo, {}) && SettledMemo(g, memo, Members(q))
    requires m !in q && Leaf(g, m).None? ==> OpenPath(g, q, m)
    ensures var s := Resolution(g, m, memo, Members(q));
            SettledMemo(g, s.memo, Members(q)) && (m !in q ==> Settled(g, m, s.v))
    decreases |Sources(g) - Members(q)|, 0, 0
  {
    hide Gather, EdgesOf, Leaf, Resolution, TargetsDeclared, ChildrenSingle, Unblocked, OpenPath, SoundMemo, Declared;
    ResolutionCases(g, m, memo, Members(q));
    if m !in memo && m !in q && Leaf(g, m).None? {
      var k := WayOut(g, q, m);
      var s := Gather(g, m, 0, {}, EdgesOf(g, m) == [], memo, Members(q) + {m});
      MarkedSmaller(g, m, Members(q));
      Pushed(q, m);
      SettledMore(g, memo, Members(q), m);
      GatherSettles(g, q, m, 0, {}, false, memo, k);
      EmptyStack(g);
      GatherSound(g, m, 0, {}, false, memo, Members(q) + {m}, {});
      OpenDeclared(g, q, m);
      OneRoot(g, m, s.roots, s.saw);
    }
  }

  lemma EmptyStack(g: Graph)
    ensures NoLeaves(g, {})
  {}

  lemma SettledMore(g: Graph, memo: Memo, stack: set<Model>, m: Model)
    requires SettledMemo(g, memo, stack)
    ensures SettledMemo(g, memo, stack + {m})
  {
    hide Settled;
  }

  /** A child's categories are all one, so one contribution decides. */
  lemma OneRoot(g: Graph, m: Model, roots: set<RootCategory>, saw: bool)
    requires ChildrenSingle(g) && Leaf(g, m).None? && Declared(g.entries, m).Some?
    requires roots != {} && forall c :: c in roots ==> WitnessOff(g, m, c, {})
    ensures Outcome(roots, saw).Rooted?
  {
    hide Leaf, Declared, WitnessOff, Witness;
    NonLeafIsChild(g, m);
    var c :| SingleRoot(g, Declared(g.entries, m).value.model, c);
    forall d | d in roots ensures d == c { OffNothing(g, m, d); }
    assert roots == {c};
  }

  lemma {:induction false} GatherSettles(
      g: Graph, q: seq<Model>, m: Model, i: nat, roots: set<RootCategory>, saw: bool, memo: Memo, k: nat)
    requires TargetsDeclared(g) && ChildrenSingle(g) && Unblocked(g) && OpenPath(g, q, m)
    requires SoundMemo(g, memo, {}) && SettledMemo(g, memo, Members(q + [m]))
    requires i <= |EdgesOf(g, m)| && k < |EdgesOf(g, m)| && (roots != {} || i <= k)
    requires Contributes(g, m, EdgesOf(g, m)[k], Members(q + [m]))
    ensures var s := Gather(g, m, i, roots, saw, memo, Members(q + [m]));
            SettledMemo(g, s.memo, Members(q + [m])) && s.roots != {}
    decreases |Sources(g) - Members(q + [m])|, 1, |EdgesOf(g, m)| - i
  {
    hide Gather, EdgesOf, Leaf, Resolution, TargetsDeclared, ChildrenSingle, Unblocked, OpenPath, SoundMemo, Declared,
         IsAuthority, RefFields, SettledMemo, Members;
    var stack := Members(q + [m]);
    if i == |EdgesOf(g, m)| {
      GatherDone(g, m, roots, saw, memo, stack);
    } else {
      var r := EdgesOf(g, m)[i];
      GatherStep(g, m, i, roots, saw, memo, stack);
      if r.targetModel in NON_SCOPE_PARENT_MODELS {
        var next := if IsAuthority(g, m, r) then roots + {CompanyRoot} else roots;
        GatherSettles(g, q, m, i + 1, next, saw, memo, k);
      } else {
        AuthorityExcluded(g, m, r);
        if r.relationField in RefFields(g, m) {
          GatherSettles(g, q, m, i + 1, roots, saw, memo, k);
        } else {
          var t := Resolution(g, r.targetModel, memo, stack);
          EmptyStack(g);
          ResolveSound(g, r.targetModel, memo, stack, {});
          TargetOpen(g, q, m, r);
          ResolveSettles(g, q + [m], r.targetModel, memo);
          var next := if t.v.Rooted? then roots + {t.v.root} else roots;
          if i == k { GivesRoot(g, q, m, r, t.v); }
          GatherSettles(g, q, m, i + 1, next, saw || t.v.Shared?, t.memo, k);
        }
      }
    }
  }

  lemma TargetOpen(g: Graph, q: seq<Model>, m: Model, r: Relation)
    requires OpenPath(g, q, m) && r in EdgesOf(g, m) && IsFollowed(g, m, r)
    ensures r.targetModel !in q + [m] && Leaf(g, r.targetModel).None? ==> OpenPath(g, q + [m], r.targetModel)
  {
    hide EdgesOf, Leaf, IsFollowed;
    OpenEnd(g, q, m);
    assert Step(g, m, r.targetModel);
    if r.targetModel !in q + [m] && Leaf(g, r.targetModel).None? {
      Pushed(q, m);
      OpenFurther(g, q, m, r.targetModel);
    }
  }

  lemma GivesRoot(g: Graph, q: seq<Model>, m: Model, r: Relation, v: Verdict)
    requires TargetsDeclared(g) && OpenPath(g, q, m) && r in EdgesOf(g, m) && IsFollowed(g, m, r)
    requires Contributes(g, m, r, Members(q + [m])) && !IsAuthority(g, m, r)
    requires r.targetModel !in q + [m] ==> Settled(g, r.targetModel, v)
    ensures v.Rooted?
  {
    hide EdgesOf, Leaf, IsFollowed, IsAuthority, TargetsDeclared, Declared;
    OpenEnd(g, q, m);
    FollowedIsDeclared(g, m, r);
  }

  lemma {:induction false} EntriesSettle(g: Graph, i: nat, memo: Memo)
    requires TargetsDeclared(g) && ChildrenSingle(g) && Unblocked(g)
    requires i <= |g.entries| && SoundMemo(g, memo, {}) && SettledMemo(g, memo, {})
    ensures Mismatches(g, i, memo) == []
    decreases |g.entries| - i
  {
    hide Resolution, TargetsDeclared, ChildrenSingle, Unblocked, SoundMemo, SettledMemo, Leaf;
    if i < |g.entries| {
      var e := g.entries[i];
      if e.category.ChildViaFk? {
        var s := Resolution(g, e.model, memo, {});
        EmptyStack(g);
        ResolveSound(g, e.model, memo, {}, {});
        assert Members([]) == {};
        ChildOpen(g, e);
        ResolveSettles(g, [], e.model, memo);
        ChildSettled(g, e, s.v);
        EntriesSettle(g, i + 1, s.memo);
      } else {
        EntriesSettle(g, i + 1, memo);
      }
    }
  }

  lemma ChildOpen(g: Graph, e: Entry)
    requires IsChildEntry(g, e)
    ensures Leaf(g, e.model).None? ==> OpenPath(g, [], e.model)
  {
    hide Leaf, Declared;
    ListedIsDeclared(g.entries, e);
    assert [] + [e.model] == [e.model];
    PathHere(g, e.model);
  }

  lemma ChildSettled(g: Graph, e: Entry, v: Verdict)
    requires ChildrenSingle(g) && IsChildEntry(g, e) && Settled(g, e.model, v)
    ensures v.Rooted?
  {
    hide Leaf, Declared, Witness;
    ListedIsDeclared(g.entries, e);
    var c :| SingleRoot(g, e.model, c);
    if Leaf(g, e.model).Some? { LeafWitness(g, e.model, c); }
  }

  /**
   * If every child model reaches roots of one single category and no path is blocked, there are no
   * errors, cyclic or not and in whatever order the schema is listed.
   */
  lemma UnblockedMeansErrorFree(g: Graph)
    requires TargetsDeclared(g) && ChildrenSingle(g) && Unblocked(g)
    ensures Mismatches(g, 0, map[]) == []
  {
    EntriesSettle(g, 0, map[]);
  }

  // ---- Acyclic graphs -------------------------------------------------------------------------------

  /** Without a cycle no way to a root can come back to the path it starts from. */
  lemma AcyclicIsUnblocked(g: Graph)
    requires Acyclic(g) && TargetsDeclared(g) && ChildrenSingle(g)
    ensures Unblocked(g)
  {
    hide Leaf, Declared, Step, EndsAt, IsPath, TargetsDeclared, Acyclic, Reaches, OpenPath;
    forall q, m | OpenPath(g, q, m) ensures Escapes(g, q, m) {
      OpenDeclared(g, q, m);
      OpenEnd(g, q, m);
      NonLeafIsChild(g, m);
      var c :| SingleRoot(g, Declared(g.entries, m).value.model, c);
      assert Witness(g, m, c);
      var p, n :| Links(g, p, m, n) && EndsAt(g, n, c);
      forall j | 0 <= j < |p| ensures p[j] !in Members(q) {
        if p[j] in q {
          var i :| 0 <= i < |q| && q[i] == p[j];
          RoundTrip(g, q, m, i, p, j);
        }
      }
      assert WitnessOff(g, m, c, Members(q));
    }
  }

  lemma RoundTrip(g: Graph, q: seq<Model>, m: Model, i: nat, p: seq<Model>, j: nat)
    requires IsPath(g, q + [m]) && i < |q| && IsPath(g, p) && p[0] == m && j < |p| && q[i] == p[j]
    ensures !Acyclic(g)
  {
    hide Step;
    var w := q[i..] + p[..j + 1];
    forall k | 0 <= k < |w| - 1 ensures Step(g, w[k], w[k + 1]) {
      if k < |q| - i {
        assert Step(g, (q + [m])[i + k], (q + [m])[i + k + 1]);
      } else {
        var l := k - (|q| - i);
        assert w[k] == p[l] && w[k + 1] == p[l + 1];
        assert Step(g, p[l], p[l + 1]);
      }
    }
    assert Links(g, w, q[i], q[i]) && |w| > 1;
    assert Reaches(g, q[i], q[i]);
  }

  /** On an acyclic graph that every child reaches roots of one single category is enough. */
  lemma SingleRootedMeansErrorFree(g: Graph)
    requires Acyclic(g) && TargetsDeclared(g) && ChildrenSingle(g)
    ensures Mismatches(g, 0, map[]) == []
  {
    AcyclicIsUnblocked(g);
    UnblockedMeansErrorFree(g);
  }

  /**
   * What an empty error list means, where every followed target is declared: on every graph, that
   * each child model reaches roots of one single category; on an acyclic graph, exactly that.
   */
  lemma ErrorFreeIffSingleRooted(g: Graph)
    requires TargetsDeclared(g)
    ensures Mismatches(g, 0, map[]) == [] ==> ChildrenSingle(g)
    ensures Acyclic(g) ==> (Mismatches(g, 0, map[]) == [] <==> ChildrenSingle(g))
  {
    hide Acyclic, TargetsDeclared, Mismatches, ChildrenSingle, FinalMemo;
    if Mismatches(g, 0, map[]) == [] { ErrorFreeMeansSingleRooted(g); }
    if Acyclic(g) && ChildrenSingle(g) { SingleRootedMeansErrorFree(g); }
  }
}
