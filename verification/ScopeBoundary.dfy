/** Which schemas no listing of raises an error, and why every target must be declared. */
module ScopeBoundary {
  import opened Options
  import opened Sequences
  import opened ScopeRoots
  import opened ScopeErrorFree
  import opened ScopeOrder

  /** The same schema, each entry and each relation listed as often, in other orders. */
  ghost predicate Reordered(g: Graph, h: Graph) {
    SameSchema(g, h) && multiset(g.relations) == multiset(h.relations)
  }

  // ---- Listing some things first ------------------------------------------------------------

  /** What is kept, or what is not, in order. */
  function Sift<T(!new)>(xs: seq<T>, keep: T -> bool, want: bool): (r: seq<T>)
    ensures forall x :: x in r <==> x in xs && keep(x) == want
    decreases |xs|
  {
    if xs == [] then []
    else
      var init, last := xs[..|xs| - 1], xs[|xs| - 1];
      assert xs == init + [last];
      Sift(init, keep, want) + if keep(last) == want then [last] else []
  }

  function ToFront<T(!new)>(xs: seq<T>, keep: T -> bool): seq<T> { Sift(xs, keep, true) + Sift(xs, keep, false) }

  lemma {:induction false} ToFrontPermutes<T(!new)>(xs: seq<T>, keep: T -> bool)
    ensures multiset(ToFront(xs, keep)) == multiset(xs)
    decreases |xs|
  {
    if xs != [] {
      var init, last := xs[..|xs| - 1], xs[|xs| - 1];
      assert xs == init + [last];
      ToFrontPermutes(init, keep);
    }
  }

  lemma {:induction false} DeclaredConcat(xs: seq<Entry>, ys: seq<Entry>, m: Model)
    ensures Declared(xs + ys, m) == if Declared(ys, m).Some? then Declared(ys, m) else Declared(xs, m)
    ensures DeclaredRoot(xs + ys, m) == if DeclaredRoot(ys, m).Some? then DeclaredRoot(ys, m) else DeclaredRoot(xs, m)
    decreases |ys|
  {
    if ys == [] {
      assert xs + ys == xs;
    } else {
      var init, last := ys[..|ys| - 1], ys[|ys| - 1];
      assert ys == init + [last] && xs + ys == (xs + init) + [last];
      DeclaredConcat(xs, init, m);
      DeclaredSnoc(xs + init, last, m);
    }
  }

  lemma SiftNone<T(!new)>(keep: T -> bool, want: bool)
    ensures Sift([], keep, want) == []
  {}

  lemma SiftSnoc<T(!new)>(init: seq<T>, last: T, keep: T -> bool, want: bool)
    ensures Sift(init + [last], keep, want) == Sift(init, keep, want) + if keep(last) == want then [last] else []
  {
    assert (init + [last])[..|init|] == init;
  }

  lemma {:induction false} DeclaredSift(xs: seq<Entry>, keep: Entry -> bool, want: bool, x: Model, m: Model)
    requires forall e :: keep(e) <==> e.model == x
    ensures Declared(Sift(xs, keep, want), m) == if (m == x) == want then Declared(xs, m) else None
    ensures DeclaredRoot(Sift(xs, keep, want), m) == if (m == x) == want then DeclaredRoot(xs, m) else None
    decreases |xs|
  {
    hide Declared, DeclaredRoot, Sift;
    if xs == [] {
      SiftNone(keep, want);
      DeclaredNone(m);
    } else {
      var init, last := xs[..|xs| - 1], xs[|xs| - 1];
      assert xs == init + [last];
      DeclaredSift(init, keep, want, x, m);
      SiftSnoc(init, last, keep, want);
      DeclaredSnoc(init, last, m);
      DeclaredSnoc(Sift(init, keep, want), last, m);
      assert Sift(init, keep, want) + [] == Sift(init, keep, want);
    }
  }

  /** Listing the entries of one model first changes no declaration. */
  lemma SameDeclarations(xs: seq<Entry>, keep: Entry -> bool, x: Model, m: Model)
    requires forall e :: keep(e) <==> e.model == x
    ensures Declared(ToFront(xs, keep), m) == Declared(xs, m)
    ensures DeclaredRoot(ToFront(xs, keep), m) == DeclaredRoot(xs, m)
  {
    DeclaredSift(xs, keep, true, x, m);
    DeclaredSift(xs, keep, false, x, m);
    DeclaredConcat(Sift(xs, keep, true), Sift(xs, keep, false), m);
  }

  lemma {:induction false} RelationsConcat(xs: seq<Relation>, ys: seq<Relation>, m: Model)
    ensures RelationsOf(xs + ys, m) == RelationsOf(xs, m) + RelationsOf(ys, m)
    decreases |ys|
  {
    hide RelationsOf;
    if ys == [] {
      assert xs + ys == xs;
      RelationsNone(m);
    } else {
      var init, last := ys[..|ys| - 1], ys[|ys| - 1];
      assert ys == init + [last] && xs + ys == (xs + init) + [last];
      RelationsConcat(xs, init, m);
      RelationsSnoc(xs + init, last, m);
      RelationsSnoc(init, last, m);
    }
  }

  lemma {:induction false} MandatoryConcat(xs: seq<Relation>, ys: seq<Relation>)
    ensures Mandatory(xs + ys) == Mandatory(xs) + Mandatory(ys)
    decreases |ys|
  {
    hide Mandatory;
    if ys == [] {
      assert xs + ys == xs;
      MandatoryNone();
    } else {
      var init, last := ys[..|ys| - 1], ys[|ys| - 1];
      assert ys == init + [last] && xs + ys == (xs + init) + [last];
      MandatoryConcat(xs, init);
      MandatorySnoc(xs + init, last);
      MandatorySnoc(init, last);
    }
  }

  /** When the relations listed first hold just one of a model's edges, it becomes that model's first edge. */
  lemma FirstEdge(relations: seq<Relation>, keep: Relation -> bool, m: Model, r: Relation)
    requires r in relations && r.model == m && r.mandatory && keep(r)
    requires forall s :: keep(s) && s.model == m ==> s == r
    ensures var es := Mandatory(RelationsOf(ToFront(relations, keep), m)); es != [] && es[0] == r
  {
    hide Mandatory, RelationsOf, Sift;
    var front, back := Sift(relations, keep, true), Sift(relations, keep, false);
    RelationsConcat(front, back, m);
    MandatoryConcat(RelationsOf(front, m), RelationsOf(back, m));
    RelationsOfAre(front, m);
    MandatoryAre(RelationsOf(front, m));
    var es := Mandatory(RelationsOf(front, m));
    assert r in es;
    assert es[0] in es;
  }

  // ---- A listing that runs into a blocked path ------------------------------------------------

  ghost function EdgeTo(g: Graph, a: Model, b: Model): (r: Relation)
    requires Step(g, a, b)
    ensures r in EdgesOf(g, a) && IsFollowed(g, a, r) && r.targetModel == b && r.mandatory
  {
    var r :| r in EdgesOf(g, a) && IsFollowed(g, a, r) && r.targetModel == b;
    r
  }

  /** The edges `rs` lead along `w`. */
  ghost predicate Along(g: Graph, w: seq<Model>, rs: seq<Relation>) {
    && |rs| + 1 == |w|
    && forall i :: 0 <= i < |rs| ==>
         rs[i] in EdgesOf(g, w[i]) && IsFollowed(g, w[i], rs[i]) && rs[i].targetModel == w[i + 1] && rs[i].mandatory
  }

  lemma {:induction false} PathEdges(g: Graph, w: seq<Model>) returns (rs: seq<Relation>)
    requires IsPath(g, w)
    ensures Along(g, w, rs)
    decreases |w|
  {
    hide Step, EdgesOf, IsFollowed;
    rs := [];
    if |w| > 1 {
      var n := |w| - 1;
      var v := w[..n];
      forall i | 0 <= i < |v| - 1 ensures Step(g, v[i], v[i + 1]) { assert Step(g, w[i], w[i + 1]); }
      rs := PathEdges(g, v);
      assert Step(g, w[n - 1], w[n - 1 + 1]);
      rs := rs + [EdgeTo(g, w[n - 1], w[n])];
    }
  }

  /** The entries of `x` first, and these relations first. */
  function Listed(g: Graph, x: Model, rs: seq<Relation>): Graph {
    Graph(ToFront(g.entries, (e: Entry) => e.model == x), ToFront(g.relations, (r: Relation) => r in rs))
  }

  lemma ListedReordered(g: Graph, x: Model, rs: seq<Relation>)
    ensures Reordered(g, Listed(g, x, rs))
  {
    hide Declared, DeclaredRoot, ToFront;
    var h := Listed(g, x, rs);
    var ofX, first := (e: Entry) => e.model == x, (r: Relation) => r in rs;
    ToFrontPermutes(g.entries, ofX);
    ToFrontPermutes(g.relations, first);
    forall r ensures r in g.relations <==> r in h.relations {
      assert r in multiset(g.relations) <==> r in multiset(h.relations);
    }
    forall m
      ensures Declared(g.entries, m) == Declared(h.entries, m)
              && DeclaredRoot(g.entries, m) == DeclaredRoot(h.entries, m)
    {
      SameDeclarations(g.entries, ofX, x, m);
    }
  }

  /** Each model of the path tries its next model first. */
  ghost predicate Descends(h: Graph, w: seq<Model>) {
    forall i :: 0 <= i < |w| - 1 ==>
      EdgesOf(h, w[i]) != [] && IsFollowed(h, w[i], EdgesOf(h, w[i])[0]) && EdgesOf(h, w[i])[0].targetModel == w[i + 1]
  }

  lemma SamePlace(w: seq<Model>, i: nat, j: nat)
    requires Distinct(w) && i < |w| && j < |w| && w[i] == w[j]
    ensures i == j
  {}

  lemma ListedDescends(g: Graph, w: seq<Model>, rs: seq<Relation>, x: Model)
    requires Along(g, w, rs) && Distinct(w)
    ensures Descends(Listed(g, x, rs), w)
  {
    hide Declared, DeclaredRoot, Mandatory, RelationsOf, ToFront, IsFollowed;
    var h := Listed(g, x, rs);
    var first := (r: Relation) => r in rs;
    ListedReordered(g, x, rs);
    forall i | 0 <= i < |w| - 1
      ensures EdgesOf(h, w[i]) != [] && EdgesOf(h, w[i])[0] == rs[i] && IsFollowed(h, w[i], rs[i])
    {
      assert rs[i] in EdgesOf(g, w[i]);
      forall s | s in rs && s.model == w[i] ensures s == rs[i] {
        var j :| 0 <= j < |rs| && rs[j] == s;
        assert rs[j] in EdgesOf(g, w[j]);
        SamePlace(w, i, j);
      }
      FirstEdge(g.relations, first, w[i], rs[i]);
      SameLocally(g, h, w[i]);
    }
  }

  lemma {:induction false} FirstChild(entries: seq<Entry>, k: nat) returns (n: nat)
    requires k < |entries| && entries[k].category.ChildViaFk?
    ensures n <= k && entries[n].category.ChildViaFk? && forall j :: 0 <= j < n ==> !entries[j].category.ChildViaFk?
  {
    if j :| 0 <= j < k && entries[j].category.ChildViaFk? { n := FirstChild(entries, j); } else { n := k; }
  }

  /** The first model the search is asked about is `x`. */
  ghost predicate StartsAt(h: Graph, x: Model) {
    exists n :: 0 <= n < |h.entries| && h.entries[n].category.ChildViaFk? && h.entries[n].model == x &&
                forall j :: 0 <= j < n ==> !h.entries[j].category.ChildViaFk?
  }

  lemma ListedStarts(g: Graph, x: Model, rs: seq<Relation>)
    requires Leaf(g, x).None? && Declared(g.entries, x).Some?
    ensures StartsAt(Listed(g, x, rs), x)
  {
    hide Leaf, Declared, Sift;
    NonLeafIsChild(g, x);
    var e, h := Declared(g.entries, x).value, Listed(g, x, rs);
    var ofX := (e: Entry) => e.model == x;
    var front := Sift(g.entries, ofX, true);
    var k :| 0 <= k < |front| && front[k] == e;
    assert h.entries[k] == e;
    var n := FirstChild(h.entries, k);
    assert h.entries[n] == front[n] && front[n] in front;
  }

  /** From each model of the path the search comes to its end with the path on the stack, and finds no root. */
  lemma {:induction false} RunsIntoEnd(h: Graph, q: seq<Model>, m: Model, i: nat)
    requires OpenPath(h, q, m) && !Escapes(h, q, m) && Descends(h, q + [m]) && i <= |q|
    ensures var s := Resolution(h, (q + [m])[i], map[], Members((q + [m])[..i])); m in s.memo && !s.memo[m].Rooted?
    decreases |q| - i
  {
    hide Resolution, Gather, EdgesOf, IsFollowed, Leaf, OpenPath, Declared, Escapes, WitnessOff;
    var w := q + [m];
    OpenEnd(h, q, m);
    if i == |q| {
      assert w[..i] == q && w[i] == m;
      EndUnrooted(h, q, m);
    } else {
      var a, stack := w[i], Members(w[..i]);
      OffStack(h, q, m, i);
      RunsIntoEnd(h, q, m, i + 1);
      Pushed(w[..i], a);
      assert w[..i + 1] == w[..i] + [a];
      PassedOn(h, a, m, stack);
    }
  }

  /** What the first edge leaves in the memo about a model off the stack, the whole call leaves there. */
  lemma PassedOn(h: Graph, a: Model, m: Model, stack: set<Model>)
    requires Leaf(h, a).None? && a !in stack && m !in stack && m != a
    requires EdgesOf(h, a) != [] && IsFollowed(h, a, EdgesOf(h, a)[0])
    requires m in Resolution(h, EdgesOf(h, a)[0].targetModel, map[], stack + {a}).memo
    ensures m in Resolution(h, a, map[], stack).memo
    ensures Resolution(h, a, map[], stack).memo[m] ==
            Resolution(h, EdgesOf(h, a)[0].targetModel, map[], stack + {a}).memo[m]
  {
    hide Resolution, Gather, EdgesOf, IsFollowed, Leaf;
    var r := EdgesOf(h, a)[0];
    FollowedGoes(h, a, r);
    ResolutionCases(h, a, map[], stack);
    GatherStep(h, a, 0, {}, false, map[], stack + {a});
    var t := Resolution(h, r.targetModel, map[], stack + {a});
    var roots := if t.v.Rooted? then {} + {t.v.root} else {};
    GatherKeeps(h, a, 1, roots, false || t.v.Shared?, t.memo, stack + {a});
  }

  lemma FollowedGoes(g: Graph, m: Model, r: Relation)
    requires IsFollowed(g, m, r)
    ensures r.targetModel !in NON_SCOPE_PARENT_MODELS && r.relationField !in RefFields(g, m)
  {}

  lemma OffStack(g: Graph, q: seq<Model>, m: Model, i: nat)
    requires OpenPath(g, q, m) && i < |q|
    ensures var w := q + [m]; w[i] !in w[..i] && m !in w[..i] && m != w[i]
  {
    hide Leaf, IsPath, Declared;
    var w := q + [m];
    assert w[|q|] == m;
    forall j | 0 <= j < i ensures w[j] != w[i] && w[j] != m { assert w[j] != w[i] && w[j] != w[|q|]; }
  }

  lemma EndUnrooted(h: Graph, q: seq<Model>, m: Model)
    requires OpenPath(h, q, m) && !Escapes(h, q, m)
    ensures var s := Resolution(h, m, map[], Members(q)); m in s.memo && !s.memo[m].Rooted?
  {
    hide Resolution, Leaf, OpenPath, WitnessOff, TwoOff;
    OpenEnd(h, q, m);
    ResolveSound(h, m, map[], Members(q), Members(q));
    ResolutionKeeps(h, m, map[], Members(q));
  }

  lemma {:induction false} SkipEntries(h: Graph, i: nat, n: nat)
    requires i <= n <= |h.entries| && forall j :: i <= j < n ==> !h.entries[j].category.ChildViaFk?
    ensures Mismatches(h, i, map[]) == Mismatches(h, n, map[]) && FinalMemo(h, i, map[]) == FinalMemo(h, n, map[])
    decreases n - i
  {
    hide Resolution;
    if i < n { SkipEntries(h, i + 1, n); }
  }

  /** A listing that starts at a blocked path and tries the path first comes out with errors. */
  lemma BlockedErrs(h: Graph, q: seq<Model>, m: Model)
    requires TargetsDeclared(h) && OpenPath(h, q, m) && !Escapes(h, q, m)
    requires Descends(h, q + [m]) && StartsAt(h, (q + [m])[0])
    ensures Mismatches(h, 0, map[]) != []
  {
    hide Resolution, Leaf, OpenPath, Escapes, Descends, TargetsDeclared, Declared;
    var w := q + [m];
    var n :| 0 <= n < |h.entries| && h.entries[n].category.ChildViaFk? && h.entries[n].model == w[0] &&
             forall j :: 0 <= j < n ==> !h.entries[j].category.ChildViaFk?;
    SkipEntries(h, 0, n);
    RunsIntoEnd(h, q, m, 0);
    assert Members(w[..0]) == {};
    OpenEnd(h, q, m);
    OpenDeclared(h, q, m);
    if Mismatches(h, 0, map[]) == [] { RootedFirst(h, n, m); }
  }

  lemma RootedFirst(h: Graph, n: nat, m: Model)
    requires n < |h.entries| && h.entries[n].category.ChildViaFk? && Mismatches(h, 0, map[]) == []
    requires Mismatches(h, n, map[]) == [] && FinalMemo(h, n, map[]) == FinalMemo(h, 0, map[])
    requires m in Resolution(h, h.entries[n].model, map[], {}).memo && Leaf(h, m).None? && Declared(h.entries, m).Some?
    ensures Resolution(h, h.entries[n].model, map[], {}).memo[m].Rooted?
  {
    hide Resolution, Leaf, Declared;
    ErrorFreeMemo(h, n + 1, Resolution(h, h.entries[n].model, map[], {}).memo);
    FinalRootsAll(h);
  }

  // ---- The boundary ---------------------------------------------------------------------------

  lemma SameOpen(g: Graph, h: Graph, q: seq<Model>, m: Model)
    requires SameSchema(g, h)
    ensures OpenPath(g, q, m) <==> OpenPath(h, q, m)
    ensures Escapes(g, q, m) <==> Escapes(h, q, m)
  {
    hide Links, Step, EdgesOf, IsAuthority, Leaf, Declared, DeclaredRoot;
    SameSteps(g, h);
    SameLocally(g, h, m);
    forall n, c ensures EndsAt(g, n, c) <==> EndsAt(h, n, c) { SameLocally(g, h, n); }
    forall c ensures WitnessOff(g, m, c, Members(q)) <==> WitnessOff(h, m, c, Members(q)) {}
    assert Declared(g.entries, (q + [m])[0]) == Declared(h.entries, (q + [m])[0]);
  }

  lemma SameUnblocked(g: Graph, h: Graph)
    requires SameSchema(g, h) && Unblocked(g)
    ensures Unblocked(h)
  {
    hide OpenPath, Escapes, SameSchema;
    forall q, m | OpenPath(h, q, m) ensures Escapes(h, q, m) { SameOpen(g, h, q, m); }
  }

  /** A blocked path is run into by some listing of the same entries and relations. */
  lemma BlockedListing(g: Graph, q: seq<Model>, m: Model) returns (h: Graph)
    requires TargetsDeclared(g) && OpenPath(g, q, m) && !Escapes(g, q, m)
    ensures Reordered(g, h) && Mismatches(h, 0, map[]) != []
  {
    hide Leaf, Declared, DeclaredRoot, Step, Escapes, TargetsDeclared, Descends, StartsAt, Mismatches, Along, Listed;
    var w := q + [m];
    OpenEnd(g, q, m);
    var rs := PathEdges(g, w);
    h := Listed(g, w[0], rs);
    ListedReordered(g, w[0], rs);
    ListedDescends(g, w, rs, w[0]);
    assert w[0] in w;
    ListedStarts(g, w[0], rs);
    SameOpen(g, h, q, m);
    SameSingles(g, h);
    BlockedErrs(h, q, m);
  }

  /**
   * Where every followed target is declared, no listing of a schema comes out with errors exactly
   * when every child model reaches roots of one single category and no path is blocked; and
   * rearranging the entries and relations as they stand already tells.
   */
  lemma AlwaysErrorFreeIff(g: Graph)
    requires TargetsDeclared(g)
    ensures (forall h :: SameSchema(g, h) ==> Mismatches(h, 0, map[]) == []) <==> ChildrenSingle(g) && Unblocked(g)
    ensures (forall h :: Reordered(g, h) ==> Mismatches(h, 0, map[]) == []) <==> ChildrenSingle(g) && Unblocked(g)
  {
    hide TargetsDeclared, ChildrenSingle, OpenPath, Escapes, Mismatches, Declared, DeclaredRoot, FinalMemo;
    if ChildrenSingle(g) && Unblocked(g) {
      forall h | SameSchema(g, h) ensures Mismatches(h, 0, map[]) == [] {
        SameSingles(g, h);
        SameUnblocked(g, h);
        UnblockedMeansErrorFree(h);
      }
    }
    if forall h :: Reordered(g, h) ==> Mismatches(h, 0, map[]) == [] {
      assert Reordered(g, g);
      ErrorFreeMeansSingleRooted(g);
      forall q, m | OpenPath(g, q, m) ensures Escapes(g, q, m) {
        if !Escapes(g, q, m) { var h := BlockedListing(g, q, m); }
      }
    }
  }

  /** A listing that came out without errors can be rearranged freely exactly when no path is blocked. */
  lemma CleanStaysCleanIff(g: Graph)
    requires TargetsDeclared(g) && Mismatches(g, 0, map[]) == []
    ensures (forall h :: Reordered(g, h) ==> Mismatches(h, 0, map[]) == []) <==> Unblocked(g)
  {
    hide TargetsDeclared, ChildrenSingle, Unblocked, Mismatches, Reordered, FinalMemo;
    ErrorFreeMeansSingleRooted(g);
    AlwaysErrorFreeIff(g);
  }

  // ---- What the declaration of targets is needed for ------------------------------------------

  predicate Distinct4(a: Model, u: Model, t: Model, p: Model) {
    Distinct([a, u, t, p]) && {a, u, t, p} !! NON_SCOPE_PARENT_MODELS
  }

  /**
   * The child `a` points at the tenant root `t` and at `u`, which nobody declared; `u` points at `t`
   * and at a project root `p`.
   */
  function ForkGraph(a: Model, u: Model, t: Model, p: Model): Graph {
    Graph([Child(a)] + [Entry(t, Root(TenantRoot))] + [Entry(p, Root(ProjectRoot))],
          [Edge(a, t)] + [Edge(a, u)] + [Edge(u, t)] + [Edge(u, p)])
  }

  lemma ForkDifferent(a: Model, u: Model, t: Model, p: Model)
    requires Distinct4(a, u, t, p)
    ensures a != u && a != t && a != p && u != t && u != p && t != p
    ensures forall m :: m in {a, u, t, p} ==> m !in NON_SCOPE_PARENT_MODELS
  {
    var xs := [a, u, t, p];
    assert xs[0] != xs[1] && xs[0] != xs[2] && xs[0] != xs[3] && xs[1] != xs[2] && xs[1] != xs[3] && xs[2] != xs[3];
  }

  lemma ForkEntries(a: Model, u: Model, t: Model, p: Model)
    requires Distinct4(a, u, t, p)
    ensures var g := ForkGraph(a, u, t, p);
            && Declared(g.entries, a) == Some(Child(a)) && Declared(g.entries, u) == None
            && Leaf(g, a) == None && Leaf(g, u) == None
            && Leaf(g, t) == Some(Rooted(TenantRoot)) && Leaf(g, p) == Some(Rooted(ProjectRoot))
            && RefFields(g, a) == [] && RefFields(g, u) == []
  {
    hide Declared, DeclaredRoot;
    ForkDifferent(a, u, t, p);
    var x, y, z := Child(a), Entry(t, Root(TenantRoot)), Entry(p, Root(ProjectRoot));
    assert [x] == [] + [x];
    forall m | m in {a, u, t, p}
      ensures Declared([x] + [y] + [z], m) == Last3(x, y, z, m)
      ensures DeclaredRoot([x] + [y] + [z], m) ==
              if m == t then Some(TenantRoot) else if m == p then Some(ProjectRoot) else None
    {
      DeclaredNone(m);
      DeclaredSnoc([], x, m);
      DeclaredSnoc([x], y, m);
      DeclaredSnoc([x] + [y], z, m);
    }
  }

  lemma ForkEdges(a: Model, u: Model, t: Model, p: Model)
    requires Distinct4(a, u, t, p)
    ensures EdgesOf(ForkGraph(a, u, t, p), a) == [Edge(a, t), Edge(a, u)]
    ensures EdgesOf(ForkGraph(a, u, t, p), u) == [Edge(u, t), Edge(u, p)]
  {
    hide RelationsOf, Mandatory;
    ForkDifferent(a, u, t, p);
    var x, y, z, v := Edge(a, t), Edge(a, u), Edge(u, t), Edge(u, p);
    assert [x] == [] + [x] && [z] == [] + [z] && [x] + [y] == [x, y] && [z] + [v] == [z, v];
    forall m | m in {a, u}
      ensures RelationsOf([x] + [y] + [z] + [v], m) == if m == a then [x] + [y] else [z] + [v]
    {
      RelationsNone(m);
      RelationsSnoc([], x, m);
      RelationsSnoc([x], y, m);
      RelationsSnoc([x] + [y], z, m);
      RelationsSnoc([x] + [y] + [z], v, m);
    }
    MandatoryNone();
    MandatorySnoc([], x);
    MandatorySnoc([x], y);
    MandatorySnoc([], z);
    MandatorySnoc([z], v);
  }

  lemma ForkAmbiguous(a: Model, u: Model, t: Model, p: Model)
    requires Distinct4(a, u, t, p)
    ensures var s := Resolution(ForkGraph(a, u, t, p), u, map[t := Rooted(TenantRoot)], {} + {a}); s.v == Ambiguous
  {
    hide EdgesOf, IsFollowed, Declared, Leaf, RefFields, ForkGraph, Gather, Resolution;
    var g := ForkGraph(a, u, t, p);
    ForkDifferent(a, u, t, p);
    ForkEntries(a, u, t, p);
    ForkEdges(a, u, t, p);
    var memo, stack := map[t := Rooted(TenantRoot)], {} + {a};
    ResolutionCases(g, u, memo, stack);
    GatherStep(g, u, 0, {}, false, memo, stack + {u});
    ResolutionCases(g, t, memo, stack + {u});
    GatherStep(g, u, 1, {} + {TenantRoot}, false || false, memo, stack + {u});
    ResolutionCases(g, p, memo, stack + {u});
    GatherDone(g, u, {} + {TenantRoot} + {ProjectRoot}, false || false || false,
               memo[p := Rooted(ProjectRoot)], stack + {u});
  }

  /**
   * An undeclared target can hide a second category: its own ambiguity is nobody's error and gives
   * its child nothing, so the list is empty although the child reaches roots of two categories.
   */
  lemma UndeclaredTargetHides(a: Model, u: Model, t: Model, p: Model)
    requires Distinct4(a, u, t, p)
    ensures var g := ForkGraph(a, u, t, p);
            && Mismatches(g, 0, map[]) == [] && IsChildEntry(g, Child(a)) && !TargetsDeclared(g)
            && Witness(g, a, TenantRoot) && Witness(g, a, ProjectRoot) && !ChildrenSingle(g)
  {
    hide EdgesOf, Declared, Leaf, RefFields, Gather, Resolution, Witness;
    var g := ForkGraph(a, u, t, p);
    ForkDifferent(a, u, t, p);
    ForkEntries(a, u, t, p);
    ForkEdges(a, u, t, p);
    ResolutionCases(g, a, map[], {});
    GatherStep(g, a, 0, {}, false, map[], {} + {a});
    ResolutionCases(g, t, map[], {} + {a});
    var memo := map[t := Rooted(TenantRoot)];
    GatherStep(g, a, 1, {} + {TenantRoot}, false || false, memo, {} + {a});
    ForkAmbiguous(a, u, t, p);
    var d := Resolution(g, u, memo, {} + {a});
    GatherDone(g, a, {} + {TenantRoot}, false || false || false, d.memo, {} + {a});
    var s := Resolution(g, a, map[], {});
    assert s.v == Rooted(TenantRoot);
    assert Mismatches(g, 2, s.memo) == [];
    assert Mismatches(g, 1, s.memo) == [];
    ForkReaches(a, u, t, p);
    assert g.entries[0] == Child(a);
    TwoAreNotSingle(g, Child(a), TenantRoot, ProjectRoot);
  }

  lemma TwoAreNotSingle(g: Graph, e: Entry, c: RootCategory, d: RootCategory)
    requires IsChildEntry(g, e) && c != d && Witness(g, e.model, c) && Witness(g, e.model, d)
    ensures !ChildrenSingle(g)
  {
    hide Witness;
    forall k ensures !SingleRoot(g, e.model, k) { assert c != k || d != k; }
  }

  lemma ForkReaches(a: Model, u: Model, t: Model, p: Model)
    requires Distinct4(a, u, t, p)
    ensures var g := ForkGraph(a, u, t, p);
            Witness(g, a, TenantRoot) && Witness(g, a, ProjectRoot) && !TargetsDeclared(g)
  {
    hide EdgesOf, Declared, Leaf, RefFields, ForkGraph, Witness;
    var g := ForkGraph(a, u, t, p);
    ForkDifferent(a, u, t, p);
    ForkEntries(a, u, t, p);
    ForkEdges(a, u, t, p);
    assert Edge(a, t) in EdgesOf(g, a) && Edge(a, u) in EdgesOf(g, a) && Edge(u, p) in EdgesOf(g, u);
    assert Step(g, a, t) && Step(g, a, u) && Step(g, u, p);
    WitnessHere(g, t, TenantRoot);
    WitnessHere(g, p, ProjectRoot);
    WitnessStep(g, a, t, TenantRoot);
    WitnessStep(g, u, p, ProjectRoot);
    WitnessStep(g, a, u, ProjectRoot);
  }
}
