/** The order in which workspace crates are published: every crate after those it depends on. */
module PublishOrder {

  /** An entry of the dependency graph: a crate, where its manifest is, and what it depends on. */
  datatype Package = Package(name: string, manifest: string, deps: seq<string>)

  datatype Outcome =
    | Sorted(packages: seq<Package>)
    | DirectCycle
    | CycleSuspected(remaining: seq<Package>)

  ghost function Names(g: seq<Package>): (s: set<string>) {
    set p | p in g :: p.name
  }

  /** The keys of a dictionary are distinct. */
  ghost predicate DistinctNames(g: seq<Package>) {
    forall i: nat, j: nat :: i < j < |g| ==> g[i].name != g[j].name
  }

  /** Crate a of the graph depends on crate b of the graph. */
  ghost predicate DependsOn(g: seq<Package>, a: string, b: string) {
    b in Names(g) && exists p :: p in g && p.name == a && b in p.deps
  }

  /** A non-empty sequence of crates each of which depends on the next, and the last on the first. */
  ghost predicate IsCycle(g: seq<Package>, c: seq<string>) {
    && c != []
    && (forall i: nat :: i + 1 < |c| ==> DependsOn(g, c[i], c[i + 1]))
    && DependsOn(g, c[|c| - 1], c[0])
  }

  ghost predicate Cyclic(g: seq<Package>) {
    exists c :: IsCycle(g, c)
  }

  /** Every dependency inside the workspace comes earlier. */
  ghost predicate InOrder(g: seq<Package>, sorted: seq<Package>) {
    forall i: nat, dep :: i < |sorted| && dep in sorted[i].deps && dep in Names(g) ==> dep in Names(sorted[..i])
  }

  /** The package still waits for another one. */
  ghost predicate Blocked(p: Package, names: set<string>) {
    exists dep :: dep in p.deps && dep in names
  }

  ghost function Ready(g: seq<Package>, names: set<string>): (r: seq<Package>)
    ensures forall p :: p in r <==> p in g && !Blocked(p, names)
  {
    if g == [] then []
    else
      var rest, last := Ready(g[..|g| - 1], names), g[|g| - 1];
      assert g == g[..|g| - 1] + [last];
      if Blocked(last, names) then rest else rest + [last]
  }

  ghost function Waiting(g: seq<Package>, names: set<string>): (r: seq<Package>)
    ensures forall p :: p in r <==> p in g && Blocked(p, names)
    ensures |r| <= |g|
  {
    if g == [] then []
    else
      var rest, last := Waiting(g[..|g| - 1], names), g[|g| - 1];
      assert g == g[..|g| - 1] + [last];
      if Blocked(last, names) then rest + [last] else rest
  }

  lemma {:induction false} RoundSplits(g: seq<Package>, names: set<string>)
    ensures multiset(Ready(g, names)) + multiset(Waiting(g, names)) == multiset(g)
    ensures |Ready(g, names)| + |Waiting(g, names)| == |g|
  {
    hide Blocked;
    if g != [] {
      RoundSplits(g[..|g| - 1], names);
      assert g == g[..|g| - 1] + [g[|g| - 1]];
    }
  }

  lemma {:induction false} WaitingDistinct(g: seq<Package>, names: set<string>)
    requires DistinctNames(g)
    ensures DistinctNames(Waiting(g, names))
  {
    if g != [] {
      var prefix := g[..|g| - 1];
      WaitingDistinct(prefix, names);
      var r := Waiting(prefix, names);
      forall i: nat | i < |r|
        ensures r[i].name != g[|g| - 1].name
      {
        assert r[i] in prefix;
      }
    }
  }

  // ---------------------------------------------------------------------------
  // The program

  /** The position of a crate in the dictionary, or the size of the dictionary. */
  function Find(g: seq<Package>, name: string): (i: nat)
    ensures i <= |g| && (i < |g| ==> g[i].name == name)
    ensures i == |g| ==> forall p :: p in g ==> p.name != name
  {
    if g == [] then 0
    else if g[0].name == name then 0
    else
      assert g == [g[0]] + g[1..];
      1 + Find(g[1..], name)
  }

  lemma FindNames(g: seq<Package>, name: string)
    ensures Find(g, name) < |g| <==> name in Names(g)
  {
  }

  /** The crates at both ends depend on each other directly. */
  ghost predicate Mutual(g: seq<Package>, p: Package, q: Package) {
    p in g && q in g && q.name in p.deps && p.name in q.deps
  }

  /** Looks for two crates of the workspace, or one, that depend on each other directly. */
  method FindDirectCycle(g: seq<Package>) returns (found: bool)
    requires DistinctNames(g)
    ensures found <==> exists p, q :: Mutual(g, p, q)
  {
    found := false;
    for i := 0 to |g|
      invariant found ==> exists p, q :: Mutual(g, p, q)
      invariant !found ==> forall p, q :: p in g[..i] ==> !Mutual(g, p, q)
    {
      assert g[..i + 1] == g[..i] + [g[i]];
      for k := 0 to |g[i].deps|
        invariant found ==> exists p, q :: Mutual(g, p, q)
        invariant !found ==> forall p, q :: p in g[..i] ==> !Mutual(g, p, q)
        invariant !found ==> forall q: Package :: q.name in g[i].deps[..k] ==> !Mutual(g, g[i], q)
      {
        assert g[i].deps[..k + 1] == g[i].deps[..k] + [g[i].deps[k]];
        var j := Find(g, g[i].deps[k]);
        if j < |g| && g[i].name in g[j].deps {
          assert Mutual(g, g[i], g[j]);
          found := true;
        }
      }
      assert g[i].deps[..|g[i].deps|] == g[i].deps;
    }
    assert g[..|g|] == g;
  }

  /** The package has a dependency in the graph. */
  method IsBlocked(g: seq<Package>, p: Package) returns (blocked: bool)
    ensures blocked <==> Blocked(p, Names(g))
  {
    for k := 0 to |p.deps|
      invariant forall dep :: dep in p.deps[..k] ==> dep !in Names(g)
    {
      assert p.deps[..k + 1] == p.deps[..k] + [p.deps[k]];
      FindNames(g, p.deps[k]);
      if Find(g, p.deps[k]) < |g| {
        return true;
      }
    }
    assert p.deps[..|p.deps|] == p.deps;
    return false;
  }

  /** One round: the packages that wait for none of the remaining ones, and those that still do. */
  method Round(g: seq<Package>) returns (ready: seq<Package>, waiting: seq<Package>)
    requires DistinctNames(g)
    ensures ready == Ready(g, Names(g)) && waiting == Waiting(g, Names(g))
  {
    hide Blocked, Names, DistinctNames;
    ghost var names := Names(g);
    var deleted: seq<string> := [];
    ready := [];
    for i := 0 to |g|
      invariant ready == Ready(g[..i], names)
      invariant |deleted| == |ready| && forall j: nat :: j < |ready| ==> deleted[j] == ready[j].name
    {
      assert g[..i + 1][..i] == g[..i];
      var blocked := IsBlocked(g, g[i]);
      if !blocked {
        deleted := deleted + [g[i].name];
        ready := ready + [g[i]];
      }
    }
    assert g[..|g|] == g;
    waiting := NotDeleted(g, ready, deleted);
  }

  /** The packages whose names have not been deleted. */
  method NotDeleted(g: seq<Package>, ghost ready: seq<Package>, deleted: seq<string>) returns (waiting: seq<Package>)
    requires DistinctNames(g) && ready == Ready(g, Names(g))
    requires |deleted| == |ready| && forall j: nat :: j < |ready| ==> deleted[j] == ready[j].name
    ensures waiting == Waiting(g, Names(g))
  {
    hide Blocked, Names, DistinctNames, Ready;
    waiting := [];
    for i := 0 to |g|
      invariant waiting == Waiting(g[..i], Names(g))
    {
      assert g[..i + 1][..i] == g[..i];
      DeletedIsReady(g, ready, deleted, i);
      if g[i].name !in deleted {
        waiting := waiting + [g[i]];
      }
    }
    assert g[..|g|] == g;
  }

  lemma DeletedIsReady(g: seq<Package>, ready: seq<Package>, deleted: seq<string>, i: nat)
    requires DistinctNames(g) && i < |g| && ready == Ready(g, Names(g))
    requires |deleted| == |ready| && forall j: nat :: j < |ready| ==> deleted[j] == ready[j].name
    ensures g[i].name in deleted <==> !Blocked(g[i], Names(g))
  {
    hide Blocked, Names, Ready, DistinctNames;
    if g[i].name in deleted {
      var j: nat :| j < |deleted| && deleted[j] == g[i].name;
      SameName(g, ready[j], i);
    }
    if g[i] in ready {
      var j: nat :| j < |ready| && ready[j] == g[i];
      assert deleted[j] == g[i].name;
    }
  }

  lemma SameName(g: seq<Package>, p: Package, i: nat)
    requires DistinctNames(g) && p in g && i < |g| && p.name == g[i].name
    ensures p == g[i]
  {
  }

  // ---------------------------------------------------------------------------
  // Cycles

  /** A walk along dependencies. */
  ghost predicate IsWalk(g: seq<Package>, w: seq<string>) {
    forall i: nat :: i + 1 < |w| ==> DependsOn(g, w[i], w[i + 1])
  }

  /** If every package waits for another one, walks can be as long as one likes. */
  lemma {:induction false} LongWalk(g: seq<Package>, n: nat) returns (w: seq<string>)
    requires g != [] && forall p :: p in g ==> Blocked(p, Names(g))
    ensures |w| == n + 1 && IsWalk(g, w) && forall x :: x in w ==> x in Names(g)
  {
    if n == 0 {
      assert g[0] in g;
      w := [g[0].name];
    } else {
      var v := LongWalk(g, n - 1);
      var last := v[|v| - 1];
      assert last in v;
      var p :| p in g && p.name == last;
      var dep :| dep in p.deps && dep in Names(g);
      assert DependsOn(g, last, dep);
      w := v + [dep];
    }
  }

  /** A sequence longer than the set its elements are from repeats one of them. */
  lemma {:induction false} Repeats(w: seq<string>, names: set<string>) returns (i: nat, j: nat)
    requires |w| > |names| && forall x :: x in w ==> x in names
    ensures i < j < |w| && w[i] == w[j]
  {
    var last := |w| - 1;
    if k: nat :| k < last && w[k] == w[last] {
      i, j := k, last;
    } else {
      assert w[last] in w;
      forall x | x in w[..last]
        ensures x in names - {w[last]}
      {
        assert x in w;
      }
      i, j := Repeats(w[..last], names - {w[last]});
    }
  }

  /** If every package waits for another one, there is a cycle. */
  lemma StuckIsCyclic(g: seq<Package>)
    requires g != [] && forall p :: p in g ==> Blocked(p, Names(g))
    ensures Cyclic(g)
  {
    var w := LongWalk(g, |Names(g)|);
    var i, j := Repeats(w, Names(g));
    var c := w[i..j];
    assert DependsOn(g, w[j - 1], w[j - 1 + 1]);
    forall k: nat | k + 1 < |c|
      ensures DependsOn(g, c[k], c[k + 1])
    {
      assert DependsOn(g, w[i + k], w[i + k + 1]);
    }
    assert IsCycle(g, c);
  }

  lemma CyclicMonotone(g: seq<Package>, h: seq<Package>)
    requires Cyclic(g) && forall p :: p in g ==> p in h
    ensures Cyclic(h)
  {
    var c :| IsCycle(g, c);
    forall a, b | DependsOn(g, a, b)
      ensures DependsOn(h, a, b)
    {
    }
    assert IsCycle(h, c);
  }

  /** A cycle survives every round: none of its members is ever ready. */
  lemma CycleSurvives(g: seq<Package>, c: seq<string>)
    requires DistinctNames(g) && IsCycle(g, c)
    ensures IsCycle(Waiting(g, Names(g)), c)
  {
    var h := Waiting(g, Names(g));
    forall a, b, d | DependsOn(g, a, b) && DependsOn(g, b, d)
      ensures DependsOn(h, a, b)
    {
      var p :| p in g && p.name == a && b in p.deps;
      var q :| q in g && q.name == b && d in q.deps;
      assert Blocked(p, Names(g)) && Blocked(q, Names(g));
      assert p in h && q in h;
    }
    var n := |c|;
    forall i: nat | i + 1 < n
      ensures DependsOn(h, c[i], c[i + 1])
    {
      assert DependsOn(g, c[i], c[i + 1]);
      assert DependsOn(g, c[i + 1], if i + 2 < n then c[i + 2] else c[0]);
    }
    assert DependsOn(g, c[n - 1], c[0]) && DependsOn(g, c[0], if n > 1 then c[1] else c[0]);
  }

  // ---------------------------------------------------------------------------
  // The whole script

  ghost predicate Stuck(g: seq<Package>) {
    forall p :: p in g ==> Blocked(p, Names(g))
  }

  lemma {:induction false} NothingReady(g: seq<Package>, names: set<string>)
    requires forall p :: p in g ==> Blocked(p, names)
    ensures Waiting(g, names) == g
  {
    if g != [] {
      var prefix := g[..|g| - 1];
      assert g == prefix + [g[|g| - 1]];
      NothingReady(prefix, names);
    }
  }

  /** A round either sorts at least one package or changes nothing. */
  lemma RoundProgress(g: seq<Package>)
    ensures Stuck(g) ==> Waiting(g, Names(g)) == g && Ready(g, Names(g)) == []
    ensures !Stuck(g) ==> |Waiting(g, Names(g))| < |g|
  {
    RoundSplits(g, Names(g));
    if Stuck(g) {
      NothingReady(g, Names(g));
    } else {
      var p :| p in g && !Blocked(p, Names(g));
      assert p in Ready(g, Names(g));
    }
  }

  lemma NamesSplit(g: seq<Package>, a: seq<Package>, b: seq<Package>)
    requires multiset(a) + multiset(b) == multiset(g)
    ensures Names(g) == Names(a) + Names(b)
  {
    forall p
      ensures p in g <==> p in a || p in b
    {
      assert p in multiset(g) <==> p in multiset(a) || p in multiset(b);
    }
  }

  /** The packages that become ready may be appended. */
  lemma AppendInOrder(g: seq<Package>, sorted: seq<Package>, remaining: seq<Package>)
    requires InOrder(g, sorted) && multiset(sorted) + multiset(remaining) == multiset(g)
    ensures InOrder(g, sorted + Ready(remaining, Names(remaining)))
  {
    var ready := Ready(remaining, Names(remaining));
    var all := sorted + ready;
    NamesSplit(g, sorted, remaining);
    forall i: nat, dep | i < |all| && dep in all[i].deps && dep in Names(g)
      ensures dep in Names(all[..i])
    {
      if i < |sorted| {
        assert all[..i] == sorted[..i];
      } else {
        assert all[i] in ready;
        assert dep in Names(sorted);
        var p :| p in sorted && p.name == dep;
        assert all[..i] == sorted + ready[..i - |sorted|];
        assert p in all[..i];
      }
    }
  }

  /** Layer by layer: first what waits for nothing, then what waits for nothing else, and so on. */
  ghost function Layers(g: seq<Package>): (r: seq<Package>)
    decreases |g|
  {
    if Stuck(g) then []
    else
      RoundProgress(g);
      Ready(g, Names(g)) + Layers(Waiting(g, Names(g)))
  }

  /** What remains when no more crate is free of dependencies. */
  ghost function Remainder(g: seq<Package>): (r: seq<Package>)
    decreases |g|
  {
    if Stuck(g) then g
    else
      RoundProgress(g);
      Remainder(Waiting(g, Names(g)))
  }

  lemma NothingRemains(g: seq<Package>)
    requires Stuck(g)
    ensures Layers(g) == [] && Remainder(g) == g
  {
  }

  /** One round is one layer. */
  lemma NextLayer(g: seq<Package>)
    ensures Layers(g) == Ready(g, Names(g)) + Layers(Waiting(g, Names(g)))
    ensures Remainder(g) == Remainder(Waiting(g, Names(g)))
  {
    RoundProgress(g);
  }

  /** Crates all of which wait for one another are never sorted. */
  lemma {:induction false} StuckRemains(g: seq<Package>, h: seq<Package>)
    requires Stuck(h) && forall p :: p in h ==> p in g
    ensures forall p :: p in h ==> p in Remainder(g)
    decreases |g|
  {
    if !Stuck(g) {
      RoundProgress(g);
      hide Stuck, Remainder;
      forall p | p in h
        ensures p in Waiting(g, Names(g))
      {
        BlockedInside(g, h, p);
      }
      StuckRemains(Waiting(g, Names(g)), h);
      NextLayer(g);
    }
  }

  lemma BlockedInside(g: seq<Package>, h: seq<Package>, p: Package)
    requires Stuck(h) && p in h && forall q :: q in h ==> q in g
    ensures Blocked(p, Names(g))
  {
    assert Blocked(p, Names(h));
    var dep :| dep in p.deps && dep in Names(h);
    var q :| q in h && q.name == dep;
    assert q in g;
  }

  /**
    Every crate is as early as can be: behind the first layer, each waits for some crate of the
    layer before its own.
   */
  lemma EarliestLayer(g: seq<Package>, p: Package)
    requires p in Ready(Waiting(g, Names(g)), Names(Waiting(g, Names(g))))
    ensures exists q :: q in Ready(g, Names(g)) && q.name in p.deps
  {
    var h := Waiting(g, Names(g));
    assert Blocked(p, Names(g)) && !Blocked(p, Names(h));
    var dep :| dep in p.deps && dep in Names(g);
    var q :| q in g && q.name == dep;
    assert q in h ==> dep in Names(h);
    assert q in Ready(g, Names(g));
  }

  /**
    The crates in an order in which each comes after all it depends on, or an error. The order is
    found exactly when the dependencies have no cycle; the budget of n^2 rounds never runs out
    without one.
   */
  method OrderPackages(g: seq<Package>) returns (r: Outcome)
    requires DistinctNames(g)
    ensures r.Sorted? <==> !Cyclic(g)
    ensures r.Sorted? ==> multiset(r.packages) == multiset(g) && InOrder(g, r.packages) && r.packages == Layers(g)
    ensures r.DirectCycle? <==> exists p, q :: Mutual(g, p, q)
    ensures r.CycleSuspected? ==> r.remaining != [] && Stuck(r.remaining) && multiset(r.remaining) <= multiset(g)
    ensures r.CycleSuspected? ==> r.remaining == Remainder(g)
  {
    hide Ready, Waiting, Cyclic, InOrder, DistinctNames, Blocked, Names, Stuck, Layers, Remainder, Partway;
    var direct := FindDirectCycle(g);
    if direct {
      MutualIsCyclic(g);
      return DirectCycle;
    }
    var remaining, sorted := g, [];
    var rounds := |g| * |g|;
    SquareAtLeast(|g|);
    var budget := rounds;
    StartPartway(g);
    while remaining != []
      invariant DistinctNames(remaining) && Partway(g, sorted, remaining)
      invariant 0 <= budget <= rounds && |remaining| <= |g| <= rounds
      invariant Stuck(remaining) || rounds - budget <= |g| - |remaining|
      decreases budget
    {
      if budget == 0 {
        EndStuck(g, sorted, remaining);
        return CycleSuspected(remaining);
      }
      budget := budget - 1;
      RoundProgress(remaining);
      WaitingDistinct(remaining, Names(remaining));
      PartwayNext(g, sorted, remaining);
      var ready, waiting := Round(remaining);
      sorted := sorted + ready;
      remaining := waiting;
    }
    EndSorted(g, sorted);
    r := Sorted(sorted);
  }

  /** Between two rounds: what is sorted is in order, nothing is lost, and every cycle remains. */
  ghost predicate Partway(g: seq<Package>, sorted: seq<Package>, remaining: seq<Package>) {
    && InOrder(g, sorted)
    && multiset(sorted) + multiset(remaining) == multiset(g)
    && (Cyclic(g) ==> Cyclic(remaining))
    && Layers(g) == sorted + Layers(remaining) && Remainder(g) == Remainder(remaining)
  }

  lemma StartPartway(g: seq<Package>)
    ensures Partway(g, [], g)
  {
    hide Layers, Remainder, Cyclic;
    assert [] + Layers(g) == Layers(g);
  }

  lemma PartwayNext(g: seq<Package>, sorted: seq<Package>, remaining: seq<Package>)
    requires DistinctNames(remaining) && Partway(g, sorted, remaining)
    ensures Partway(g, sorted + Ready(remaining, Names(remaining)), Waiting(remaining, Names(remaining)))
  {
    hide Ready, Waiting, Cyclic, InOrder, DistinctNames, Names, Layers, Remainder;
    RoundSplits(remaining, Names(remaining));
    AppendInOrder(g, sorted, remaining);
    RoundKeepsCycles(remaining);
    NextLayer(remaining);
  }

  lemma EndStuck(g: seq<Package>, sorted: seq<Package>, remaining: seq<Package>)
    requires Partway(g, sorted, remaining) && remaining != [] && Stuck(remaining)
    ensures Cyclic(g) && remaining == Remainder(g) && multiset(remaining) <= multiset(g)
  {
    hide InOrder, Layers, Cyclic, Stuck, Remainder;
    StuckInside(g, remaining, sorted);
    NothingRemains(remaining);
  }

  lemma EndSorted(g: seq<Package>, sorted: seq<Package>)
    requires Partway(g, sorted, [])
    ensures !Cyclic(g) && multiset(sorted) == multiset(g) && InOrder(g, sorted) && sorted == Layers(g)
  {
    hide InOrder, Layers, Cyclic, Remainder;
    EmptyNotCyclic();
    NothingRemains([]);
  }

  lemma MutualIsCyclic(g: seq<Package>)
    requires exists p, q :: Mutual(g, p, q)
    ensures Cyclic(g)
  {
    var p, q :| Mutual(g, p, q);
    assert DependsOn(g, p.name, q.name) && DependsOn(g, q.name, p.name);
    assert IsCycle(g, [p.name, q.name]);
  }

  lemma EmptyNotCyclic()
    ensures !Cyclic([]) && Stuck([])
  {
  }

  lemma SquareAtLeast(n: nat)
    ensures n * n >= n
  {
  }

  lemma StuckInside(g: seq<Package>, remaining: seq<Package>, sorted: seq<Package>)
    requires remaining != [] && Stuck(remaining) && multiset(sorted) + multiset(remaining) == multiset(g)
    ensures Cyclic(g)
  {
    StuckIsCyclic(remaining);
    forall p | p in remaining
      ensures p in g
    {
      assert p in multiset(g);
    }
    CyclicMonotone(remaining, g);
  }

  lemma RoundKeepsCycles(g: seq<Package>)
    requires DistinctNames(g)
    ensures Cyclic(g) ==> Cyclic(Waiting(g, Names(g)))
  {
    if Cyclic(g) {
      var c :| IsCycle(g, c);
      CycleSurvives(g, c);
    }
  }
}
