/** Directed graphs by key: cycles, and the layers in which a topological sort releases them. */
module Graphs {
  import opened Collections

  /** The children of every key, in the order the edges were added. */
  type Graph<K> = map<K, seq<K>>

  ghost predicate Closed<K>(g: Graph<K>) {
    forall k, c | k in g && c in g[k] :: c in g
  }

  ghost predicate Edge<K>(g: Graph<K>, a: K, b: K) {
    a in g && b in g[a]
  }

  ghost predicate IsPath<K>(g: Graph<K>, p: seq<K>) {
    forall i | 0 <= i < |p| - 1 :: Edge(g, p[i], p[i + 1])
  }

  ghost predicate IsCycle<K>(g: Graph<K>, p: seq<K>) {
    2 <= |p| && p[0] == p[|p| - 1] && IsPath(g, p)
  }

  ghost predicate HasCycle<K(!new)>(g: Graph<K>) {
    exists p: seq<K> :: IsCycle(g, p)
  }

  lemma ElementsConcat<K>(a: seq<K>, b: seq<K>)
    ensures Elements(a + b) == Elements(a) + Elements(b)
  {
  }

  lemma {:induction false} DistinctSize<K>(s: seq<K>)
    requires Distinct(s)
    ensures |Elements(s)| == |s|
  {
    if s != [] {
      var t, x := s[..|s| - 1], s[|s| - 1];
      DistinctSize(t);
      assert s == t + [x];
      ElementsConcat(t, [x]);
      assert Elements([x]) == {x};
      assert x !in Elements(t);
    }
  }

  /** As many elements as places: nothing occurs twice. */
  lemma {:induction false} SizeDistinct<K>(s: seq<K>)
    ensures |Elements(s)| <= |s|
    ensures |Elements(s)| == |s| ==> Distinct(s)
  {
    if s != [] {
      var t, x := s[..|s| - 1], s[|s| - 1];
      SizeDistinct(t);
      assert s == t + [x];
      ElementsConcat(t, [x]);
      assert Elements([x]) == {x};
      if x in Elements(t) { assert Elements(s) == Elements(t); }
    }
  }

  // ---- no long paths, no cycle ------------------------------------------------------------

  /** Every path from `v` takes at most `n` steps. */
  ghost predicate Bounded<K>(g: Graph<K>, v: K, n: nat)
    decreases n
  {
    v in g && forall i | 0 <= i < |g[v]| :: 0 < n && Bounded(g, g[v][i], n - 1)
  }

  lemma {:induction false} BoundedMore<K>(g: Graph<K>, v: K, n: nat, m: nat)
    requires Bounded(g, v, n) && n <= m
    ensures Bounded(g, v, m)
    decreases n
  {
    forall i | 0 <= i < |g[v]|
      ensures Bounded(g, g[v][i], m - 1)
    {
      BoundedMore(g, g[v][i], n - 1, m - 1);
    }
  }

  /** A cycle through `v` would be a path without end. */
  lemma {:induction false} BoundedNotOnCycle<K>(g: Graph<K>, p: seq<K>, n: nat)
    requires IsCycle(g, p)
    ensures !Bounded(g, p[0], n)
    decreases n
  {
    assert Edge(g, p[0], p[1]);
    if Bounded(g, p[0], n) {
      var q := p[1..] + [p[1]];
      forall i | 0 <= i < |q| - 1
        ensures Edge(g, q[i], q[i + 1])
      {
        if i + 1 < |p| - 1 { assert Edge(g, p[i + 1], p[i + 2]); }
      }
      BoundedNotOnCycle(g, q, n - 1);
    }
  }

  /** Some number bounds all paths from `v`. */
  ghost predicate Finite<K>(g: Graph<K>, v: K) {
    exists n: nat :: Bounded(g, v, n)
  }

  lemma FiniteFromChildren<K>(g: Graph<K>, v: K)
    requires v in g && forall i | 0 <= i < |g[v]| :: Finite(g, g[v][i])
    ensures Finite(g, v)
  {
    var n := CommonBound(g, g[v]);
    assert Bounded(g, v, n + 1);
  }

  lemma {:induction false} CommonBound<K>(g: Graph<K>, vs: seq<K>) returns (n: nat)
    requires forall i | 0 <= i < |vs| :: Finite(g, vs[i])
    ensures forall i | 0 <= i < |vs| :: Bounded(g, vs[i], n)
  {
    n := 0;
    if vs != [] {
      var last := |vs| - 1;
      var a := CommonBound(g, vs[..last]);
      var b: nat :| Bounded(g, vs[last], b);
      n := if a < b then b else a;
      forall i | 0 <= i < |vs|
        ensures Bounded(g, vs[i], n)
      {
        if i < last { assert vs[..last][i] == vs[i]; }
        BoundedMore(g, vs[i], if i < last then a else b, n);
      }
    }
  }

  lemma FiniteNoCycle<K(!new)>(g: Graph<K>)
    requires forall k | k in g :: Finite(g, k)
    ensures !HasCycle(g)
  {
    forall p: seq<K> | IsCycle(g, p)
      ensures false
    {
      assert Edge(g, p[0], p[1]);
      var n: nat :| Bounded(g, p[0], n);
      BoundedNotOnCycle(g, p, n);
    }
  }

  // ---- the search path ----------------------------------------------------------------------

  /** The path a depth-first search stands on: its keys are the ones coloured 1. */
  ghost predicate OnStack<K>(g: Graph<K>, visited: map<K, int>, stack: seq<K>) {
    visited.Keys == g.Keys && Distinct(stack) && IsPath(g, stack) &&
    (forall k | k in stack :: k in g) &&
    forall k | k in g :: visited[k] == 1 <==> k in stack
  }

  lemma Coloured<K>(g: Graph<K>, visited: map<K, int>, stack: seq<K>)
    requires OnStack(g, visited, stack)
    ensures visited.Keys == g.Keys && IsPath(g, stack)
    ensures forall k | k in g :: visited[k] == 1 <==> k in stack
  {
  }

  lemma Enter<K>(g: Graph<K>, visited: map<K, int>, stack: seq<K>, k: K)
    requires OnStack(g, visited, stack) && k in g && k !in stack
    requires stack == [] || Edge(g, stack[|stack| - 1], k)
    ensures |stack| < |g|
    ensures OnStack(g, visited[k := 1], stack + [k])
  {
    var here := stack + [k];
    DistinctSize(here);
    SubsetSize(Elements(here), g.Keys);
    PathSnoc(g, stack, k);
  }

  lemma Leave<K>(g: Graph<K>, visited: map<K, int>, stack: seq<K>, k: K)
    requires OnStack(g, visited, stack + [k])
    ensures k in g && OnStack(g, visited[k := 2], stack)
  {
    var here := stack + [k];
    assert here[|stack|] == k;
    PathPrefix(g, here, |stack|);
    assert here[..|stack|] == stack;
    assert forall j | j in here :: j in stack || j == k;
  }

  lemma PathSnoc<K>(g: Graph<K>, p: seq<K>, k: K)
    requires IsPath(g, p) && (p == [] || Edge(g, p[|p| - 1], k))
    ensures IsPath(g, p + [k])
  {
    var q := p + [k];
    forall i | 0 <= i < |q| - 1
      ensures Edge(g, q[i], q[i + 1])
    {
      if i < |p| - 1 { assert Edge(g, p[i], p[i + 1]); }
    }
  }

  lemma BackEdge<K(!new)>(g: Graph<K>, path: seq<K>, k: K)
    requires path != [] && IsPath(g, path) && k in path && Edge(g, path[|path| - 1], k)
    ensures HasCycle(g)
  {
    var j :| 0 <= j < |path| && path[j] == k;
    PathSuffix(g, path, j);
    PathSnoc(g, path[j..], k);
    assert IsCycle(g, path[j..] + [k]);
  }

  // ---- releasing keys layer by layer --------------------------------------------------------

  ghost function Parents<K>(g: Graph<K>, k: K): (ps: set<K>) {
    set p | p in g && k in g[p]
  }

  /** The keys outside `done` whose parents are all in `done`. */
  ghost function Frontier<K>(g: Graph<K>, done: set<K>): (f: set<K>) {
    set k | k in g && k !in done && Parents(g, k) <= done
  }

  ghost predicate ByWeight<K>(w: map<K, int>, s: seq<K>) {
    forall i, j | 0 <= i < j < |s| && s[i] in w && s[j] in w :: w[s[i]] <= w[s[j]]
  }

  /** `layer` lists the frontier of `done`, each key once, lighter keys first. */
  ghost predicate IsLayer<K>(g: Graph<K>, w: map<K, int>, done: set<K>, layer: seq<K>) {
    layer != [] && Distinct(layer) && Elements(layer) == Frontier(g, done) && ByWeight(w, layer)
  }

  /** From `done` on, `layers` are the successive frontiers, up to an empty one. */
  ghost predicate Layers<K>(g: Graph<K>, w: map<K, int>, done: set<K>, layers: seq<seq<K>>)
    decreases |layers|
  {
    if layers == [] then Frontier(g, done) == {}
    else IsLayer(g, w, done, layers[0]) && Layers(g, w, done + Elements(layers[0]), layers[1..])
  }

  ghost function Flatten<K>(layers: seq<seq<K>>): (s: seq<K>) {
    if layers == [] then [] else layers[0] + Flatten(layers[1..])
  }

  /** The keys all of whose parents are in `done`. */
  ghost function Zero<K>(g: Graph<K>, done: set<K>): (z: set<K>) {
    set k | k in g && Parents(g, k) <= done
  }

  /** How many parents of `k` are outside `done`. */
  ghost function Open<K>(g: Graph<K>, done: set<K>, k: K): (n: nat) {
    |Parents(g, k) - done|
  }

  lemma OpenAdd<K>(g: Graph<K>, done: set<K>, n: K, k: K)
    requires n in g && n !in done
    ensures Open(g, done, k) == Open(g, done + {n}, k) + if k in g[n] then 1 else 0
  {
    var rest := Parents(g, k) - (done + {n});
    assert Parents(g, k) - done == if k in g[n] then rest + {n} else rest;
  }

  lemma OpenZero<K>(g: Graph<K>, done: set<K>, k: K)
    requires k in g
    ensures Open(g, done, k) == 0 <==> k in Zero(g, done)
  {
    var rest := Parents(g, k) - done;
    if rest == {} {
      forall p | p in Parents(g, k)
        ensures p in done
      {
        assert p !in rest;
      }
    }
  }

  /** `pNum` counts the parents outside `done`, and one more for the keys in `pending`. */
  ghost predicate Counts<K>(g: Graph<K>, p: map<K, int>, done: set<K>, pending: set<K>) {
    p.Keys == g.Keys &&
    forall k | k in g :: p[k] == Open(g, done, k) + if k in pending then 1 else 0
  }

  /** Before its children are counted down, a released key is still counted for each of them. */
  lemma StartRelease<K>(g: Graph<K>, p: map<K, int>, done: set<K>, n: K)
    requires Counts(g, p, done, {}) && n in g && n !in done
    ensures Counts(g, p, done + {n}, Elements(g[n]))
  {
    hide Open;
    forall k | k in g
      ensures p[k] == Open(g, done + {n}, k) + if k in Elements(g[n]) then 1 else 0
    {
      OpenAdd(g, done, n, k);
    }
  }

  lemma StepRelease<K>(g: Graph<K>, p: map<K, int>, done: set<K>, cs: seq<K>)
    requires Counts(g, p, done, Elements(cs)) && cs != [] && cs[0] in g && Distinct(cs)
    ensures Counts(g, p[cs[0] := p[cs[0]] - 1], done, Elements(cs[1..]))
    ensures p[cs[0]] - 1 == 0 <==> cs[0] in Zero(g, done)
  {
    hide Open, Zero;
    OpenZero(g, done, cs[0]);
    ElementsConcat([cs[0]], cs[1..]);
    assert [cs[0]] + cs[1..] == cs;
  }

  /** The keys outside `todo` whose counter is zero. */
  ghost function Zeros<K>(p: map<K, int>, todo: set<K>): (s: set<K>) {
    set k | k in p && k !in todo && p[k] == 0
  }

  lemma ZerosStep<K>(p: map<K, int>, todo: set<K>, k: K)
    requires k in p && k in todo
    ensures k !in Zeros(p, todo)
    ensures Zeros(p, todo - {k}) == if p[k] == 0 then Zeros(p, todo) + {k} else Zeros(p, todo)
  {
  }

  lemma RootKeys<K>(g: Graph<K>, p: map<K, int>)
    requires Counts(g, p, {}, {})
    ensures p.Keys == g.Keys && Frontier(g, {}) == Zeros(p, {})
  {
    hide Open;
    forall k | k in g
      ensures p[k] == 0 <==> k in Frontier(g, {})
    {
      OpenZero(g, {}, k);
    }
  }

  lemma OpenNewKey<K>(g: Graph<K>, n: K, k: K)
    requires Closed(g) && n !in g
    ensures Open(g[n := []], {}, k) == if k == n then 0 else Open(g, {}, k)
  {
    assert Parents(g[n := []], k) == Parents(g, k);
    if k == n { assert Parents(g, k) == {}; }
  }

  lemma NewKeyCounts<K>(g: Graph<K>, p: map<K, int>, n: K)
    requires Closed(g) && n !in g && Counts(g, p, {}, {})
    ensures Counts(g[n := []], p[n := 0], {}, {})
  {
    hide Open, Closed;
    var g', p' := g[n := []], p[n := 0];
    forall k | k in g'
      ensures p'[k] == Open(g', {}, k)
    {
      OpenNewKey(g, n, k);
    }
  }

  lemma OpenNewEdge<K>(g: Graph<K>, f: K, t: K, k: K)
    requires f in g && t !in g[f]
    ensures Open(g[f := g[f] + [t]], {}, k) == Open(g, {}, k) + if k == t then 1 else 0
  {
    var g' := g[f := g[f] + [t]];
    if k == t {
      assert Parents(g', k) - {} == (Parents(g, k) - {}) + {f};
    } else {
      assert Parents(g', k) == Parents(g, k);
    }
  }

  lemma NewEdgeCounts<K>(g: Graph<K>, p: map<K, int>, f: K, t: K)
    requires f in g && t in g && t !in g[f] && Counts(g, p, {}, {})
    ensures Counts(g[f := g[f] + [t]], p[t := p[t] + 1], {}, {})
  {
    hide Open;
    var g', p' := g[f := g[f] + [t]], p[t := p[t] + 1];
    forall k | k in g'
      ensures p'[k] == Open(g', {}, k)
    {
      OpenNewEdge(g, f, t, k);
    }
  }

  /** Releasing `n` frees exactly those of its children that have no other parent left. */
  lemma NewZeros<K>(g: Graph<K>, done: set<K>, n: K)
    requires Closed(g) && n in g && n !in done
    ensures Zero(g, done + {n}) - Zero(g, done) == Elements(g[n]) * Zero(g, done + {n})
    ensures Zero(g, done) <= Zero(g, done + {n})
    ensures Elements(g[n]) !! Zero(g, done)
  {
    forall k | k in g[n]
      ensures k in g && n in Parents(g, k)
    {
    }
    forall k | k in Zero(g, done + {n}) && k !in g[n]
      ensures k in Zero(g, done)
    {
      assert n !in Parents(g, k);
    }
  }

  /** The `i`-th key of a frontier is ready, and new, when its turn comes. */
  lemma KeyReady<K>(g: Graph<K>, p: map<K, int>, done: set<K>, ks: seq<K>, i: nat)
    requires Distinct(ks) && i < |ks| && Elements(ks) == Frontier(g, done)
    requires Counts(g, p, done + Elements(ks[..i]), {})
    ensures var done_i := done + Elements(ks[..i]);
            ks[i] in p && p[ks[i]] == 0 && ks[i] !in done_i &&
            done + Elements(ks[..i + 1]) == done_i + {ks[i]} && Zero(g, done_i) <= Zero(g, done_i + {ks[i]})
  {
    hide Open;
    var k, done_i := ks[i], done + Elements(ks[..i]);
    assert k in Elements(ks);
    OpenZero(g, done_i, k);
    assert ks[..i + 1] == ks[..i] + [k];
    ElementsConcat(ks[..i], [k]);
    ElementsOne(k);
    assert k !in ks[..i];
  }

  lemma FrontierShrinks<K>(g: Graph<K>, done: set<K>, ks: seq<K>)
    requires ks != [] && Elements(ks) == Frontier(g, done)
    ensures |g.Keys - (done + Elements(ks))| < |g.Keys - done|
  {
    assert ks[0] in Elements(ks);
    var a, b := g.Keys - (done + Elements(ks)), g.Keys - done;
    assert ks[0] in b && ks[0] !in a;
    SubsetSize(a, b - {ks[0]});
  }

  /** Once a frontier is released, the keys it freed are the next frontier. */
  lemma NextFrontier<K>(g: Graph<K>, done: set<K>)
    requires done <= Zero(g, done)
    ensures var done' := done + Frontier(g, done);
            Zero(g, done') - Zero(g, done) == Frontier(g, done') && done' <= Zero(g, done') <= g.Keys
  {
    assert Zero(g, done) == done + Frontier(g, done);
  }

  lemma NoLayers<K>(g: Graph<K>, w: map<K, int>, done: set<K>)
    ensures Layers(g, w, done, []) <==> Frontier(g, done) == {}
    ensures Flatten<K>([]) == []
  {
  }

  lemma LayersCons<K>(g: Graph<K>, w: map<K, int>, done: set<K>, layer: seq<K>, layers: seq<seq<K>>)
    requires IsLayer(g, w, done, layer) && Layers(g, w, done + Elements(layer), layers)
    ensures Layers(g, w, done, [layer] + layers)
    ensures Flatten([layer] + layers) == layer + Flatten(layers)
  {
    assert ([layer] + layers)[1..] == layers;
  }

  /** In `s`, released after `done`, every key is new, and follows all of its parents. */
  ghost predicate Topological<K>(g: Graph<K>, done: set<K>, s: seq<K>) {
    Distinct(s) &&
    forall j | 0 <= j < |s| :: s[j] in g && s[j] !in done && Parents(g, s[j]) <= done + Elements(s[..j])
  }

  lemma {:induction false} LayersTopological<K>(g: Graph<K>, w: map<K, int>, done: set<K>, layers: seq<seq<K>>)
    requires Layers(g, w, done, layers)
    ensures Topological(g, done, Flatten(layers))
    ensures Frontier(g, done + Elements(Flatten(layers))) == {}
    decreases |layers|
  {
    if layers == [] {
      assert done + Elements(Flatten(layers)) == done;
    } else {
      var layer, next := layers[0], done + Elements(layers[0]);
      LayersTopological(g, w, next, layers[1..]);
      AppendTopological(g, done, layer, Flatten(layers[1..]));
      ElementsConcat(layer, Flatten(layers[1..]));
      assert done + Elements(layer + Flatten(layers[1..])) == next + Elements(Flatten(layers[1..]));
    }
  }

  lemma AppendTopological<K>(g: Graph<K>, done: set<K>, a: seq<K>, b: seq<K>)
    requires Distinct(a) && Elements(a) <= Frontier(g, done)
    requires Topological(g, done + Elements(a), b)
    ensures Topological(g, done, a + b)
  {
    var s := a + b;
    forall j | 0 <= j < |s|
      ensures s[j] in g && s[j] !in done && Parents(g, s[j]) <= done + Elements(s[..j])
    {
      if j < |a| {
        assert s[j] in Elements(a);
      } else {
        assert b[j - |a|] == s[j];
        assert s[..j] == a + b[..j - |a|];
        ElementsConcat(a, b[..j - |a|]);
      }
    }
    assert forall i, j | 0 <= i < |a| && 0 <= j < |b| :: a[i] in Elements(a) && b[j] !in Elements(a);
  }

  /** The sort releases every key exactly when there is no cycle. */
  lemma LayersComplete<K(!new)>(g: Graph<K>, w: map<K, int>, layers: seq<seq<K>>)
    requires Closed(g) && Layers(g, w, {}, layers)
    ensures Elements(Flatten(layers)) == g.Keys <==> !HasCycle(g)
  {
    var s := Flatten(layers);
    LayersTopological(g, w, {}, layers);
    if Elements(s) == g.Keys {
      forall p: seq<K> | IsCycle(g, p)
        ensures false
      {
        OrderNoCycle(g, s, p);
      }
    } else {
      assert Elements(s) <= g.Keys;
      var left := g.Keys - Elements(s);
      assert Elements(s) == {} + Elements(s);
      StuckHasCycle(g, left);
    }
  }

  /** Along a path inside a topological order the positions go up. */
  lemma {:induction false} PathGoesUp<K>(g: Graph<K>, s: seq<K>, p: seq<K>, i: nat, j: nat)
    requires Topological(g, {}, s) && IsPath(g, p) && p != []
    requires i < |s| && s[i] == p[0] && j < |s| && s[j] == p[|p| - 1]
    requires forall k | 0 <= k < |p| :: p[k] in s
    ensures i + |p| - 1 <= j
    decreases |p|
  {
    if |p| > 1 {
      var q := p[..|p| - 1];
      var k :| 0 <= k < |s| && s[k] == q[|q| - 1];
      assert Edge(g, p[|p| - 2], p[|p| - 1]);
      assert s[k] in Parents(g, s[j]);
      var m :| 0 <= m < j && s[m] == s[k];
      PathPrefix(g, p, |p| - 1);
      PathGoesUp(g, s, q, i, k);
    }
  }

  lemma OrderNoCycle<K>(g: Graph<K>, s: seq<K>, p: seq<K>)
    requires Closed(g) && Topological(g, {}, s) && Elements(s) == g.Keys
    ensures !IsCycle(g, p)
  {
    if IsCycle(g, p) {
      forall k | 0 <= k < |p|
        ensures p[k] in s
      {
        if k < |p| - 1 { assert Edge(g, p[k], p[k + 1]); } else { assert Edge(g, p[k - 1], p[k]); }
        assert p[k] in Elements(s);
      }
      var i :| 0 <= i < |s| && s[i] == p[0];
      PathGoesUp(g, s, p, i, i);
    }
  }

  /** If every key of a nonempty set has a parent in it, walking back closes a cycle. */
  lemma StuckHasCycle<K(!new)>(g: Graph<K>, left: set<K>)
    requires left != {} && left <= g.Keys
    requires Frontier(g, g.Keys - left) == {}
    ensures HasCycle(g)
  {
    var v :| v in left;
    WalkBack(g, left, [v]);
  }

  lemma {:induction false} WalkBack<K(!new)>(g: Graph<K>, left: set<K>, p: seq<K>)
    requires p != [] && Distinct(p) && IsPath(g, p) && Elements(p) <= left <= g.Keys
    requires Frontier(g, g.Keys - left) == {}
    ensures HasCycle(g)
    decreases |left| - |p|
  {
    hide Frontier, Elements;
    assert p[0] in left by { assert p[0] in Elements(p) by { ElementsHas(p, 0); } }
    var u := ParentIn(g, left, p[0]);
    var q := [u] + p;
    PathCons(g, u, p);
    if u in p {
      var k :| 0 <= k < |p| && p[k] == u;
      PathPrefix(g, q, k + 2);
      assert IsCycle(g, q[..k + 2]);
    } else {
      ElementsConcat([u], p);
      assert Elements([u]) == {u} by { ElementsOne(u); }
      DistinctSize(q);
      SubsetSize(Elements(q), left);
      WalkBack(g, left, q);
    }
  }

  lemma ElementsHas<K>(s: seq<K>, i: nat)
    requires i < |s|
    ensures s[i] in Elements(s)
  {
  }

  lemma ElementsOne<K>(x: K)
    ensures Elements([x]) == {x}
  {
  }

  lemma ParentIn<K>(g: Graph<K>, left: set<K>, v: K) returns (u: K)
    requires v in left && left <= g.Keys && Frontier(g, g.Keys - left) == {}
    ensures u in left && Edge(g, u, v)
  {
    assert v !in Frontier(g, g.Keys - left);
    u :| u in Parents(g, v) && u !in g.Keys - left;
  }

  lemma PathCons<K>(g: Graph<K>, u: K, p: seq<K>)
    requires p != [] && IsPath(g, p) && Edge(g, u, p[0])
    ensures IsPath(g, [u] + p)
  {
    var q := [u] + p;
    forall i | 0 <= i < |q| - 1
      ensures Edge(g, q[i], q[i + 1])
    {
      if i > 0 { assert Edge(g, p[i - 1], p[i]); }
    }
  }

  lemma PathPrefix<K>(g: Graph<K>, p: seq<K>, n: nat)
    requires IsPath(g, p) && n <= |p|
    ensures IsPath(g, p[..n])
  {
    forall i | 0 <= i < n - 1
      ensures Edge(g, p[..n][i], p[..n][i + 1])
    {
      assert Edge(g, p[i], p[i + 1]);
    }
  }

  lemma PathSuffix<K>(g: Graph<K>, p: seq<K>, n: nat)
    requires IsPath(g, p) && n <= |p|
    ensures IsPath(g, p[n..])
  {
    forall i | 0 <= i < |p| - n - 1
      ensures Edge(g, p[n..][i], p[n..][i + 1])
    {
      assert Edge(g, p[n + i], p[n + i + 1]);
    }
  }

}
