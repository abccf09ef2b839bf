/** Does the order of declarations matter? Only on cyclic graphs, where it can raise an error. */
module ScopeOrder {
  import opened Options
  import opened ScopeRoots
  import opened ScopeErrorFree

  /** The same entries and relations in any order, and model by model the same declaration in force. */
  ghost predicate SameSchema(g: Graph, h: Graph) {
    && multiset(g.entries) == multiset(h.entries)
    && (forall r :: r in g.relations <==> r in h.relations)
    && (forall m :: Declared(g.entries, m) == Declared(h.entries, m))
    && (forall m :: DeclaredRoot(g.entries, m) == DeclaredRoot(h.entries, m))
  }

  /** No model is declared twice. */
  predicate DeclaredOnce(entries: seq<Entry>) {
    forall i, j :: 0 <= i < j < |entries| ==> entries[i].model != entries[j].model
  }

  lemma {:induction false} DeclaredOnceIs(entries: seq<Entry>, m: Model)
    requires DeclaredOnce(entries)
    ensures forall e :: e in entries && e.model == m ==> Declared(entries, m) == Some(e)
    ensures (forall e :: e in entries ==> e.model != m) ==> Declared(entries, m) == None
    ensures DeclaredRoot(entries, m) ==
            if Declared(entries, m).Some? && Declared(entries, m).value.category.Root?
            then Some(Declared(entries, m).value.category.root) else None
    decreases |entries|
  {
    if entries != [] {
      var init, last := entries[..|entries| - 1], entries[|entries| - 1];
      assert entries == init + [last];
      DeclaredOnceIs(init, m);
      forall e | e in init ensures e.model != last.model {
        var i :| 0 <= i < |init| && init[i] == e;
        assert entries[i].model != entries[|entries| - 1].model;
      }
    }
  }

  /** Where no model is declared twice, any rearrangement of entries and relations is the same schema. */
  lemma Rearranged(g: Graph, h: Graph)
    requires DeclaredOnce(g.entries) && DeclaredOnce(h.entries) && multiset(g.entries) == multiset(h.entries)
    requires forall r :: r in g.relations <==> r in h.relations
    ensures SameSchema(g, h)
  {
    hide Declared, DeclaredRoot;
    assert forall e :: e in g.entries <==> e in h.entries by {
      forall e ensures e in g.entries <==> e in h.entries {
        assert e in multiset(g.entries) <==> e in multiset(h.entries);
      }
    }
    forall m
      ensures Declared(g.entries, m) == Declared(h.entries, m)
              && DeclaredRoot(g.entries, m) == DeclaredRoot(h.entries, m)
    {
      DeclaredOnceIs(g.entries, m);
      DeclaredOnceIs(h.entries, m);
    }
  }

  // ---- Acyclic: no ----------------------------------------------------------------

  lemma {:induction false} RelationsOfAre(relations: seq<Relation>, m: Model)
    ensures forall r :: r in RelationsOf(relations, m) <==> r in relations && r.model == m
    decreases |relations|
  {
    if relations != [] {
      var init := relations[..|relations| - 1];
      assert relations == init + [relations[|relations| - 1]];
      RelationsOfAre(init, m);
    }
  }

  lemma {:induction false} MandatoryAre(rs: seq<Relation>)
    ensures forall r :: r in Mandatory(rs) <==> r in rs && r.mandatory
    decreases |rs|
  {
    if rs != [] {
      var init := rs[..|rs| - 1];
      assert rs == init + [rs[|rs| - 1]];
      MandatoryAre(init);
    }
  }

  lemma SameLocally(g: Graph, h: Graph, m: Model)
    requires SameSchema(g, h)
    ensures Leaf(g, m) == Leaf(h, m) && forall r :: r in EdgesOf(g, m) <==> r in EdgesOf(h, m)
    ensures forall r ::
              (IsFollowed(g, m, r) <==> IsFollowed(h, m, r)) && (IsAuthority(g, m, r) <==> IsAuthority(h, m, r))
  {
    hide DeclaredRoot, Mandatory, RelationsOf;
    RelationsOfAre(g.relations, m);
    RelationsOfAre(h.relations, m);
    MandatoryAre(RelationsOf(g.relations, m));
    MandatoryAre(RelationsOf(h.relations, m));
    assert Declared(g.entries, m) == Declared(h.entries, m);
    assert DeclaredRoot(g.entries, m) == DeclaredRoot(h.entries, m);
  }

  lemma SameSteps(g: Graph, h: Graph)
    requires SameSchema(g, h)
    ensures forall a, b :: Step(g, a, b) <==> Step(h, a, b)
    ensures forall p, a, b :: Links(g, p, a, b) <==> Links(h, p, a, b)
  {
    hide EdgesOf, Leaf, IsFollowed, SameSchema;
    forall a, b ensures Step(g, a, b) <==> Step(h, a, b) { SameLocally(g, h, a); }
    assert forall p :: IsPath(g, p) <==> IsPath(h, p);
  }

  lemma SameReach(g: Graph, h: Graph, m: Model)
    requires SameSchema(g, h)
    ensures ReachSet(g, m) == ReachSet(h, m) && (Acyclic(g) <==> Acyclic(h))
  {
    hide Links, SameSchema, Step;
    SameSteps(g, h);
    SameTargets(g, h);
    assert forall a, b :: Reaches(g, a, b) <==> Reaches(h, a, b);
  }

  lemma SameTargets(g: Graph, h: Graph)
    requires SameSchema(g, h)
    ensures Targets(g) == Targets(h)
  {
    hide Declared, DeclaredRoot;
    forall t ensures t in Targets(g) <==> t in Targets(h) {
      if t in Targets(g) { var r :| r in g.relations && r.targetModel == t; assert r in h.relations; }
      if t in Targets(h) { var r :| r in h.relations && r.targetModel == t; assert r in g.relations; }
    }
  }

  lemma {:induction false} PlainSameSchema(g: Graph, h: Graph, m: Model)
    requires SameSchema(g, h) && Acyclic(g) && Acyclic(h)
    ensures Plain(g, m) == Plain(h, m)
    decreases |ReachSet(g, m)|
  {
    hide EdgesOf, IsFollowed, IsAuthority, Leaf, ReachSet, Acyclic, SameSchema, Plain, Outcome;
    SameLocally(g, h, m);
    if Leaf(g, m).Some? {
      PlainLeaf(g, m);
      PlainLeaf(h, m);
    } else {
      EdgesDescend(g, m);
      forall r | r in EdgesOf(g, m) && IsFollowed(g, m, r) ensures Plain(g, r.targetModel) == Plain(h, r.targetModel) {
        PlainSameSchema(g, h, r.targetModel);
      }
      SameParts(g, h, m);
    }
  }

  lemma SameParts(g: Graph, h: Graph, m: Model)
    requires Acyclic(g) && Acyclic(h) && Leaf(g, m).None? && Leaf(h, m).None?
    requires forall r :: r in EdgesOf(g, m) <==> r in EdgesOf(h, m)
    requires forall r ::
               (IsFollowed(g, m, r) <==> IsFollowed(h, m, r)) && (IsAuthority(g, m, r) <==> IsAuthority(h, m, r))
    requires forall r :: r in EdgesOf(g, m) && IsFollowed(g, m, r) ==>
             Plain(g, r.targetModel) == Plain(h, r.targetModel)
    ensures Plain(g, m) == Plain(h, m)
  {
    hide EdgesOf, IsFollowed, IsAuthority, Leaf, Acyclic, Plain, Outcome;
    PlainWhole(g, m);
    PlainWhole(h, m);
    var n, k := |EdgesOf(g, m)|, |EdgesOf(h, m)|;
    assert EdgesOf(g, m)[..n] == EdgesOf(g, m) && EdgesOf(h, m)[..k] == EdgesOf(h, m);
    if EdgesOf(g, m) != [] { assert EdgesOf(g, m)[0] in EdgesOf(h, m); }
    if EdgesOf(h, m) != [] { assert EdgesOf(h, m)[0] in EdgesOf(g, m); }
    assert PlainRoots(g, m, n) == PlainRoots(h, m, k);
    assert PlainSaw(g, m, n) == PlainSaw(h, m, k);
  }

  /** The errors of a list of entries, each judged by its plain verdict. */
  ghost function Judged(g: Graph, entries: seq<Entry>): seq<ScopeError>
    requires Acyclic(g)
  {
    if entries == [] then []
    else (if entries[0].category.ChildViaFk? then Judge(entries[0].model, Plain(g, entries[0].model)) else []) +
         Judged(g, entries[1..])
  }

  lemma {:induction false} MismatchesJudged(g: Graph, i: nat)
    requires Acyclic(g) && i <= |g.entries|
    ensures PlainMismatches(g, i) == Judged(g, g.entries[i..])
    decreases |g.entries| - i
  {
    hide Plain, Acyclic;
    if i < |g.entries| {
      MismatchesJudged(g, i + 1);
      assert g.entries[i..][1..] == g.entries[i + 1..];
    }
  }

  lemma {:induction false} JudgedConcat(g: Graph, xs: seq<Entry>, ys: seq<Entry>)
    requires Acyclic(g)
    ensures Judged(g, xs + ys) == Judged(g, xs) + Judged(g, ys)
  {
    hide Plain, Acyclic;
    if xs == [] {
      assert xs + ys == ys;
    } else {
      JudgedConcat(g, xs[1..], ys);
      assert (xs + ys)[1..] == xs[1..] + ys;
    }
  }

  lemma TakenOut<T>(front: seq<T>, x: T, back: seq<T>)
    ensures multiset(front + ([x] + back)) == multiset(front + back) + multiset{x}
  {}

  /** The first element of a list, found and taken out of a rearrangement of it. */
  lemma WithoutFirst<T>(xs: seq<T>, ys: seq<T>) returns (front: seq<T>, back: seq<T>)
    requires xs != [] && multiset(xs) == multiset(ys)
    ensures ys == front + ([xs[0]] + back) && xs == [xs[0]] + xs[1..]
    ensures multiset(xs[1..]) == multiset(front + back)
  {
    assert xs[0] in multiset(xs);
    var j :| 0 <= j < |ys| && ys[j] == xs[0];
    front, back := ys[..j], ys[j + 1..];
    assert ys == front + ([xs[0]] + back);
    TakenOut(front, xs[0], back);
    assert xs == [xs[0]] + xs[1..];
    assert multiset(xs) == multiset(xs[1..]) + multiset{xs[0]};
    Cancelled(multiset(xs[1..]), multiset(front + back), xs[0]);
  }

  lemma Cancelled<T>(a: multiset<T>, b: multiset<T>, x: T)
    requires a + multiset{x} == b + multiset{x}
    ensures a == b
  {
    assert a == (a + multiset{x}) - multiset{x};
    assert b == (b + multiset{x}) - multiset{x};
  }

  /** Rearranging the entries rearranges the errors. */
  lemma {:induction false} JudgedPermuted(g: Graph, h: Graph, xs: seq<Entry>, ys: seq<Entry>)
    requires Acyclic(g) && Acyclic(h) && (forall m :: Plain(g, m) == Plain(h, m)) && multiset(xs) == multiset(ys)
    ensures multiset(Judged(g, xs)) == multiset(Judged(h, ys))
    decreases |xs|
  {
    hide Plain, Acyclic, Judged, Judge;
    if xs == [] {
      assert ys == [] by { assert |multiset(ys)| == 0; }
      JudgedNone(g);
      JudgedNone(h);
    } else {
      var x := xs[0];
      var front, back := WithoutFirst(xs, ys);
      JudgedPermuted(g, h, xs[1..], front + back);
      JudgedConcat(g, [x], xs[1..]);
      JudgedConcat(h, front, [x] + back);
      JudgedConcat(h, [x], back);
      JudgedConcat(h, front, back);
      JudgedOne(g, h, x);
    }
  }

  lemma JudgedNone(g: Graph)
    requires Acyclic(g)
    ensures Judged(g, []) == []
  {}

  lemma JudgedOne(g: Graph, h: Graph, x: Entry)
    requires Acyclic(g) && Acyclic(h) && Plain(g, x.model) == Plain(h, x.model)
    ensures Judged(g, [x]) == Judged(h, [x])
  {
    hide Plain, Acyclic;
    assert [x][1..] == [];
  }

  /**
   * On an acyclic graph neither the order of the entries, nor that of the relations, nor what was
   * asked before changes any verdict; the errors come in another order, and that is all.
   */
  lemma OrderDoesNotMatter(g: Graph, h: Graph, m: Model, memo: Memo, memo': Memo)
    requires SameSchema(g, h) && Acyclic(g)
    requires AgreesWithPlain(g, memo)
    ensures Acyclic(h)
    ensures AgreesWithPlain(h, memo') ==> Resolution(g, m, memo, {}).v == Resolution(h, m, memo', {}).v
    ensures multiset(Mismatches(g, 0, map[])) == multiset(Mismatches(h, 0, map[]))
  {
    hide Acyclic, Plain, Resolution, AgreesWithPlain, SameSchema, Mismatches, PlainMismatches;
    SameReach(g, h, m);
    forall k ensures Plain(g, k) == Plain(h, k) { PlainSameSchema(g, h, k); }
    NothingResolving(g, m);
    NothingResolving(h, m);
    ResolveIsPlain(g, m, memo, {});
    if AgreesWithPlain(h, memo') { ResolveIsPlain(h, m, memo', {}); }
    MismatchesAre(g);
    MismatchesAre(h);
    SameEntries(g, h);
    JudgedPermuted(g, h, g.entries, h.entries);
  }

  lemma SameEntries(g: Graph, h: Graph)
    requires SameSchema(g, h)
    ensures multiset(g.entries) == multiset(h.entries)
  {}

  lemma MismatchesAre(g: Graph)
    requires Acyclic(g)
    ensures Mismatches(g, 0, map[]) == Judged(g, g.entries)
  {
    hide Acyclic, Plain, AgreesWithPlain, Mismatches, PlainMismatches, Judged;
    EmptyMemoPlain(g);
    MismatchesArePlain(g, 0, map[]);
    MismatchesJudged(g, 0);
    assert g.entries[0..] == g.entries;
  }

  // ---- Every graph: two listings without errors agree ---------------------------------------

  lemma SameWitnesses(g: Graph, h: Graph, m: Model, c: RootCategory)
    requires SameSchema(g, h)
    ensures Witness(g, m, c) <==> Witness(h, m, c)
  {
    hide Links, SameSchema, EdgesOf, IsAuthority, Leaf;
    SameSteps(g, h);
    forall n ensures EndsAt(g, n, c) <==> EndsAt(h, n, c) { SameLocally(g, h, n); }
  }

  lemma SameSingles(g: Graph, h: Graph)
    requires SameSchema(g, h)
    ensures forall m, c :: SingleRoot(g, m, c) <==> SingleRoot(h, m, c)
    ensures forall e :: IsChildEntry(g, e) <==> IsChildEntry(h, e)
    ensures ChildrenSingle(g) <==> ChildrenSingle(h)
    ensures TargetsDeclared(g) <==> TargetsDeclared(h)
  {
    hide Witness, Step, Declared, DeclaredRoot;
    forall m, c ensures Witness(g, m, c) <==> Witness(h, m, c) { SameWitnesses(g, h, m, c); }
    forall e ensures IsChildEntry(g, e) <==> IsChildEntry(h, e) {
      assert e in multiset(g.entries) <==> e in multiset(h.entries);
    }
    SameSteps(g, h);
  }

  /**
   * On any graph, cyclic included: two listings of one schema that both come out without errors
   * give every child the same root category.
   */
  lemma ErrorFreeListingsAgree(g: Graph, h: Graph, e: Entry)
    requires SameSchema(g, h) && TargetsDeclared(g) && IsChildEntry(g, e)
    requires Mismatches(g, 0, map[]) == [] && Mismatches(h, 0, map[]) == []
    ensures var f, k := FinalMemo(g, 0, map[]), FinalMemo(h, 0, map[]);
            e.model in f && e.model in k && f[e.model].Rooted? && f[e.model] == k[e.model]
  {
    hide SameSchema, TargetsDeclared, Mismatches, FinalMemo, Witness;
    SameSingles(g, h);
    ErrorFreeMeansSingleRooted(g);
    ErrorFreeMeansSingleRooted(h);
    var c := FinalMemo(g, 0, map[])[e.model].root;
    assert SingleRoot(h, e.model, c) && Witness(h, e.model, c);
  }

  // ---- Cyclic: it can -------------------------------------------------------------

  /** Three different models, none of them excluded from scoping. */
  predicate Distinct3(a: Model, b: Model, t: Model) {
    a != b && a != t && b != t && {a, b, t} !! NON_SCOPE_PARENT_MODELS
  }

  function Child(m: Model): Entry { Entry(m, ChildViaFk("parent", [])) }

  function Edge(m: Model, n: Model): Relation { Relation(m, "parent", n, true) }

  /**
   * `a` points at `b`; `b` points back at `a` and at the tenant root `t`. The entries may be listed
   * either way round.
   */
  function LoopGraph(a: Model, b: Model, t: Model, aFirst: bool): Graph {
    Graph((if aFirst then [Child(a)] + [Child(b)] else [Child(b)] + [Child(a)]) + [Entry(t, Root(TenantRoot))],
          [Edge(a, b)] + [Edge(b, a)] + [Edge(b, t)])
  }

  lemma LoopEntries(a: Model, b: Model, t: Model, aFirst: bool)
    requires Distinct3(a, b, t)
    ensures var g := LoopGraph(a, b, t, aFirst);
            && Declared(g.entries, a) == Some(Child(a)) && Declared(g.entries, b) == Some(Child(b))
            && Leaf(g, a) == None && Leaf(g, b) == None && Leaf(g, t) == Some(Rooted(TenantRoot))
  {
    hide Declared, DeclaredRoot;
    var x, y := if aFirst then Child(a) else Child(b), if aFirst then Child(b) else Child(a);
    var r := Entry(t, Root(TenantRoot));
    assert [x] == [] + [x];
    forall m | m in {a, b, t} ensures Declared([x] + [y] + [r], m) == Last3(x, y, r, m)
      && DeclaredRoot([x] + [y] + [r], m) ==
      if m == t then Some(TenantRoot) else None
    {
      DeclaredNone(m);
      DeclaredSnoc([], x, m);
      DeclaredSnoc([x], y, m);
      DeclaredSnoc([x] + [y], r, m);
    }
  }

  function Last3(x: Entry, y: Entry, r: Entry, m: Model): Option<Entry> {
    if r.model == m then Some(r) else if y.model == m then Some(y) else if x.model == m then Some(x) else None
  }

  lemma LoopEdges(a: Model, b: Model, t: Model, aFirst: bool)
    requires Distinct3(a, b, t)
    ensures EdgesOf(LoopGraph(a, b, t, aFirst), a) == [Edge(a, b)]
    ensures EdgesOf(LoopGraph(a, b, t, aFirst), b) == [Edge(b, a), Edge(b, t)]
  {
    hide RelationsOf, Mandatory;
    var x, y, z := Edge(a, b), Edge(b, a), Edge(b, t);
    assert [x] == [] + [x] && [y] == [] + [y] && [y] + [z] == [y, z];
    forall m ensures RelationsOf([x] + [y] + [z], m) == (if m == a then [x] else if m == b then [y, z] else []) {
      RelationsNone(m);
      RelationsSnoc([], x, m);
      RelationsSnoc([x], y, m);
      RelationsSnoc([x] + [y], z, m);
    }
    MandatoryNone();
    MandatorySnoc([], x);
    MandatorySnoc([], y);
    MandatorySnoc([y], z);
  }

  lemma LoopFollowed(a: Model, b: Model, t: Model, aFirst: bool, m: Model, n: Model)
    requires Distinct3(a, b, t) && m in {a, b} && n in {a, b, t}
    ensures IsFollowed(LoopGraph(a, b, t, aFirst), m, Edge(m, n))
    ensures n !in NON_SCOPE_PARENT_MODELS && "parent" !in RefFields(LoopGraph(a, b, t, aFirst), m)
  {
    hide Declared;
    LoopEntries(a, b, t, aFirst);
  }

  /** Starting at `a`, the back edge from `b` is the dead end, and both verdicts are the tenant root. */
  lemma LoopFromA(a: Model, b: Model, t: Model, aFirst: bool)
    requires Distinct3(a, b, t)
    ensures var s := Resolution(LoopGraph(a, b, t, aFirst), a, map[], {});
            s.v == Rooted(TenantRoot) && b in s.memo && s.memo[b] == Rooted(TenantRoot)
  {
    hide EdgesOf, IsFollowed, Declared, Leaf, RefFields, LoopGraph, Gather, Resolution;
    var g := LoopGraph(a, b, t, aFirst);
    LoopEntries(a, b, t, aFirst);
    LoopEdges(a, b, t, aFirst);
    LoopFollowed(a, b, t, aFirst, a, b);
    ResolutionCases(g, a, map[], {});
    GatherStep(g, a, 0, {}, false, map[], {} + {a});
    InnerB(a, b, t, aFirst, {} + {a});
    var m2 := map[a := DeadEnd][t := Rooted(TenantRoot)][b := Rooted(TenantRoot)];
    GatherDone(g, a, {} + {TenantRoot}, false || false, m2, {} + {a});
  }

  lemma InnerB(a: Model, b: Model, t: Model, aFirst: bool, rs: set<Model>)
    requires Distinct3(a, b, t) && rs == {a}
    ensures Resolution(LoopGraph(a, b, t, aFirst), b, map[], rs) ==
            Resolved(Rooted(TenantRoot), map[a := DeadEnd][t := Rooted(TenantRoot)][b := Rooted(TenantRoot)])
  {
    hide EdgesOf, IsFollowed, Declared, Leaf, RefFields, LoopGraph, Gather, Resolution;
    var g := LoopGraph(a, b, t, aFirst);
    LoopEntries(a, b, t, aFirst);
    LoopEdges(a, b, t, aFirst);
    LoopFollowed(a, b, t, aFirst, b, a);
    LoopFollowed(a, b, t, aFirst, b, t);
    ResolutionCases(g, b, map[], rs);
    GatherStep(g, b, 0, {}, false, map[], rs + {b});
    ResolutionCases(g, a, map[], rs + {b});
    var m1 := map[a := DeadEnd];
    GatherStep(g, b, 1, {}, false || false, m1, rs + {b});
    ResolutionCases(g, t, m1, rs + {b});
    GatherDone(g, b, {} + {TenantRoot}, false || false || false, m1[t := Rooted(TenantRoot)], rs + {b});
  }

  /** Starting at `b`, the memo keeps the dead end for `a`. */
  lemma LoopFromB(a: Model, b: Model, t: Model, aFirst: bool)
    requires Distinct3(a, b, t)
    ensures var s := Resolution(LoopGraph(a, b, t, aFirst), b, map[], {});
            s.v == Rooted(TenantRoot) && a in s.memo && s.memo[a] == DeadEnd
  {
    hide EdgesOf, IsFollowed, Declared, Leaf, RefFields, LoopGraph, Gather, Resolution;
    var g := LoopGraph(a, b, t, aFirst);
    LoopEntries(a, b, t, aFirst);
    LoopEdges(a, b, t, aFirst);
    LoopFollowed(a, b, t, aFirst, b, a);
    LoopFollowed(a, b, t, aFirst, b, t);
    var rs := {} + {b};
    ResolutionCases(g, b, map[], {});
    GatherStep(g, b, 0, {}, false, map[], rs);
    InnerA(a, b, t, aFirst, rs);
    var m1 := map[b := DeadEnd][a := DeadEnd];
    GatherStep(g, b, 1, {}, false || false, m1, rs);
    ResolutionCases(g, t, m1, rs);
    GatherDone(g, b, {} + {TenantRoot}, false || false || false, m1[t := Rooted(TenantRoot)], rs);
  }

  lemma InnerA(a: Model, b: Model, t: Model, aFirst: bool, rs: set<Model>)
    requires Distinct3(a, b, t) && rs == {b}
    ensures Resolution(LoopGraph(a, b, t, aFirst), a, map[], rs) == Resolved(DeadEnd, map[b := DeadEnd][a := DeadEnd])
  {
    hide EdgesOf, IsFollowed, Declared, Leaf, RefFields, LoopGraph, Gather, Resolution;
    var g := LoopGraph(a, b, t, aFirst);
    LoopEntries(a, b, t, aFirst);
    LoopEdges(a, b, t, aFirst);
    LoopFollowed(a, b, t, aFirst, a, b);
    ResolutionCases(g, a, map[], rs);
    GatherStep(g, a, 0, {}, false, map[], rs + {a});
    ResolutionCases(g, b, map[], rs + {a});
    GatherDone(g, a, {}, false || false, map[b := DeadEnd], rs + {a});
  }

  /**
   * Order independence fails on a cycle: the same schema and declarations are error-free listed
   * one way and report a dead end for `a` listed the other way.
   */
  lemma CyclicOrderMatters(a: Model, b: Model, t: Model)
    requires Distinct3(a, b, t)
    ensures Mismatches(LoopGraph(a, b, t, true), 0, map[]) == []
    ensures Mismatches(LoopGraph(a, b, t, false), 0, map[]) == [ScopeError(DeadEndChain, a)]
    ensures !Acyclic(LoopGraph(a, b, t, true)) && !Acyclic(LoopGraph(a, b, t, false))
  {
    hide Resolution, Acyclic;
    var g, h := LoopGraph(a, b, t, true), LoopGraph(a, b, t, false);
    LoopFromA(a, b, t, true);
    LoopFromB(a, b, t, false);
    LoopIsCycle(a, b, t, true);
    LoopIsCycle(a, b, t, false);
    var s, u := Resolution(g, a, map[], {}), Resolution(h, b, map[], {});
    ResolutionCases(g, b, s.memo, {});
    ResolutionCases(h, a, u.memo, {});
    assert Mismatches(g, 2, s.memo) == [] && Mismatches(h, 2, u.memo) == [];
    assert Mismatches(g, 1, s.memo) == Judge(b, s.memo[b]) + [];
    assert Mismatches(h, 1, u.memo) == Judge(a, u.memo[a]) + [];
  }

  /** The error of the second listing is a false one: both children reach one single category in either. */
  lemma FalseErrorOnCycle(a: Model, b: Model, t: Model)
    requires Distinct3(a, b, t)
    ensures var h := LoopGraph(a, b, t, false); TargetsDeclared(h) && ChildrenSingle(h) && Mismatches(h, 0, map[]) != []
  {
    hide Mismatches, ChildrenSingle, Declared, DeclaredRoot, SameSchema, FinalMemo;
    var g, h := LoopGraph(a, b, t, true), LoopGraph(a, b, t, false);
    CyclicOrderMatters(a, b, t);
    LoopTargets(a, b, t);
    LoopRearranged(a, b, t);
    ErrorFreeMeansSingleRooted(g);
    SameSingles(g, h);
  }

  lemma LoopRearranged(a: Model, b: Model, t: Model)
    requires Distinct3(a, b, t)
    ensures SameSchema(LoopGraph(a, b, t, true), LoopGraph(a, b, t, false))
  {
    hide Declared, DeclaredRoot, SameSchema;
    Rearranged(LoopGraph(a, b, t, true), LoopGraph(a, b, t, false));
  }

  lemma LoopTargets(a: Model, b: Model, t: Model)
    requires Distinct3(a, b, t)
    ensures TargetsDeclared(LoopGraph(a, b, t, true))
  {
    hide Declared, DeclaredRoot, Leaf, IsFollowed, Mandatory, RelationsOf;
    var g := LoopGraph(a, b, t, true);
    forall x, y | Step(g, x, y) ensures Declared(g.entries, y).Some? {
      var r :| r in EdgesOf(g, x) && IsFollowed(g, x, r) && r.targetModel == y;
      assert r in g.relations;
      assert Child(a) in g.entries && Child(b) in g.entries && Entry(t, Root(TenantRoot)) in g.entries;
      ListedIsDeclared(g.entries, Child(a));
      ListedIsDeclared(g.entries, Child(b));
      ListedIsDeclared(g.entries, Entry(t, Root(TenantRoot)));
    }
  }

  lemma LoopIsCycle(a: Model, b: Model, t: Model, aFirst: bool)
    requires Distinct3(a, b, t)
    ensures !Acyclic(LoopGraph(a, b, t, aFirst))
  {
    hide EdgesOf, IsFollowed, Declared, Leaf, LoopGraph, Reaches;
    var g := LoopGraph(a, b, t, aFirst);
    LoopEntries(a, b, t, aFirst);
    LoopEdges(a, b, t, aFirst);
    LoopFollowed(a, b, t, aFirst, a, b);
    LoopFollowed(a, b, t, aFirst, b, a);
    assert Edge(a, b) in EdgesOf(g, a) && Edge(b, a) in EdgesOf(g, b);
    assert Step(g, a, b) && Step(g, b, a);
    StepReaches(g, a, b);
    StepReaches(g, b, a);
    assert Reaches(g, a, a);
  }
}
