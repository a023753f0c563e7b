/** `util/dag.go`: the graph that orders the transactions of a new block. */
module TxDag {
  import opened Collections
  import opened Graphs

  class Node<K(==)> {
    const key: K
    const index: nat
    const weight: int
    var children: seq<Node<K>>
    var pNum: int

    constructor (key: K, index: nat, weight: int)
      ensures this.key == key && this.index == index && this.weight == weight
      ensures children == [] && pNum == 0
    {
      this.key, this.index, this.weight := key, index, weight;
      children, pNum := [], 0;
    }
  }

  function KeysOf<K(==)>(ns: seq<Node<K>>): (ks: seq<K>)
    ensures |ks| == |ns| && forall i | 0 <= i < |ns| :: ks[i] == ns[i].key
  {
    seq(|ns|, i requires 0 <= i < |ns| => ns[i].key)
  }

  class Dag<K(==,!new)> {
    var nodes: map<K, Node<K>>
    var indexs: map<int, K>

    /** The children of `n` are nodes of the graph, each once. */
    ghost predicate ChildrenOk(n: Node<K>)
      reads this, n
    {
      InGraph(n.children) && Distinct(n.children)
    }

    /** Nodes sit under their own key, with children that are nodes of the graph. */
    ghost predicate Shaped()
      reads this, nodes.Values
    {
      forall k | k in nodes :: nodes[k].key == k && ChildrenOk(nodes[k])
    }

    ghost predicate InGraph(ns: seq<Node<K>>)
      reads this
    {
      forall i | 0 <= i < |ns| :: ns[i].key in nodes && nodes[ns[i].key] == ns[i]
    }

    ghost function Graph(): (g: Graph<K>)
      reads this, nodes.Values
    {
      map k | k in nodes :: KeysOf(nodes[k].children)
    }

    ghost function Weights(): (w: map<K, int>)
      reads this
    {
      map k | k in nodes :: nodes[k].weight
    }

    ghost function PNums(): (p: map<K, int>)
      reads this, nodes.Values
    {
      map k | k in nodes :: nodes[k].pNum
    }

    /** A graph as `AddNode` and `AddEdge` leave it: `pNum` is the number of parents. */
    ghost predicate Valid()
      reads this, nodes.Values
    {
      Shaped() && Counts(Graph(), PNums(), {}, {})
    }

    constructor ()
      ensures Valid() && nodes == map[]
    {
      nodes, indexs := map[], map[];
    }

    /** `AddNode`: false for a key that is already there. */
    method AddNode(key: K, weight: int) returns (ok: bool)
      requires Valid()
      modifies this
      ensures ok <==> key !in old(nodes)
      ensures !ok ==> nodes == old(nodes) && indexs == old(indexs)
      ensures ok ==> Valid() && Graph() == old(Graph())[key := []]
    {
      hide Counts, Graph, PNums, Shaped, Closed;
      if key in nodes { return false; }
      GraphClosed();
      GraphKeys();
      NewKeyCounts(Graph(), PNums(), key);
      var node := new Node(key, |nodes|, weight);
      indexs := indexs[|nodes| := key];
      nodes := nodes[key := node];
      NodeAdded(key, node);
      ok := true;
    }

    lemma GraphKeys()
      ensures Graph().Keys == nodes.Keys == PNums().Keys
    {
    }

    twostate lemma NodeAdded(key: K, new node: Node<K>)
      requires old(Shaped()) && key !in old(nodes) && nodes == old(nodes)[key := node]
      requires node.key == key && node.children == [] && node.pNum == 0
      requires forall k | k in old(nodes) :: unchanged(nodes[k])
      ensures Shaped() && Graph() == old(Graph())[key := []] && PNums() == old(PNums())[key := 0]
    {
      assert forall k | k in old(nodes) :: nodes[k] == old(nodes[k]);
    }

    method HasChild(from: Node<K>, to: Node<K>) returns (r: bool)
      requires Shaped() && from.key in nodes && nodes[from.key] == from && to.key in nodes && nodes[to.key] == to
      ensures r <==> to.key in Graph()[from.key]
    {
      ghost var ks := KeysOf(from.children);
      for i := 0 to |from.children|
        invariant forall j | 0 <= j < i :: ks[j] != to.key
      {
        if from.children[i] == to {
          assert ks[i] in ks;
          return true;
        }
      }
      r := false;
    }

    /** `AddEdge`: false when an end is missing or the edge exists. */
    method AddEdge(fkey: K, tkey: K) returns (ok: bool)
      requires Valid()
      modifies nodes.Values
      ensures ok <==> fkey in nodes && tkey in nodes && tkey !in old(Graph())[fkey]
      ensures !ok ==> Graph() == old(Graph()) && PNums() == old(PNums())
      ensures ok ==> Valid() && Graph() == old(Graph())[fkey := old(Graph())[fkey] + [tkey]]
    {
      hide Counts, Graph, PNums, Shaped;
      if fkey !in nodes || tkey !in nodes { return false; }
      GraphKeys();
      KeyOf(fkey);
      KeyOf(tkey);
      var from, to := nodes[fkey], nodes[tkey];
      var linked := HasChild(from, to);
      if linked { return false; }
      NewEdgeCounts(Graph(), PNums(), fkey, tkey);
      SetPNum(to, to.pNum + 1);
      AppendChild(from, to);
      ok := true;
    }

    method AppendChild(from: Node<K>, to: Node<K>)
      requires Shaped() && from.key in nodes && nodes[from.key] == from && to.key in nodes && nodes[to.key] == to
      requires to.key !in Graph()[from.key]
      modifies from`children
      ensures Shaped() && Graph() == old(Graph())[from.key := old(Graph())[from.key] + [to.key]]
      ensures PNums() == old(PNums())
    {
      hide Distinct, InGraph, KeysOf;
      assert InGraph([to]) by { AtHome(to); }
      Appendable(from.children, to);
      from.children := from.children + [to];
      assert ChildrenOk(from);
    }

    lemma AtHome(n: Node<K>)
      requires n.key in nodes && nodes[n.key] == n
      ensures InGraph([n])
    {
    }

    lemma Appendable(ns: seq<Node<K>>, to: Node<K>)
      requires InGraph(ns) && Distinct(ns) && InGraph([to]) && to.key !in KeysOf(ns)
      ensures InGraph(ns + [to]) && Distinct(ns + [to]) && KeysOf(ns + [to]) == KeysOf(ns) + [to.key]
    {
      assert [to][0] == to;
      var ks := KeysOf(ns);
      assert forall i | 0 <= i < |ks| :: ks[i] in ks;
    }

    method SetPNum(node: Node<K>, n: int)
      requires Shaped() && node.key in nodes && nodes[node.key] == node
      modifies node`pNum
      ensures Shaped() && Graph() == old(Graph())
      ensures PNums() == old(PNums())[node.key := n] && node.pNum == n
    {
      node.pNum := n;
    }

    lemma GraphClosed()
      requires Shaped()
      ensures Closed(Graph())
    {
      var g := Graph();
      forall k, c | k in g && c in g[k]
        ensures c in g
      {
        var i :| 0 <= i < |g[k]| && g[k][i] == c;
        assert nodes[k].children[i].key == c;
      }
    }

    // ---- cycles -----------------------------------------------------------------------------

    lemma ChildOf(n: Node<K>, i: nat)
      requires Shaped() && n.key in nodes && nodes[n.key] == n && i < |n.children|
      ensures var c := n.children[i];
              c.key in nodes && nodes[c.key] == c && Graph()[n.key][i] == c.key && Edge(Graph(), n.key, c.key)
    {
      var ks := KeysOf(n.children);
      assert ks[i] in ks;
    }

    lemma GraphSize(n: Node<K>)
      requires n.key in nodes && nodes[n.key] == n
      ensures Graph().Keys == nodes.Keys && |Graph()[n.key]| == |n.children|
    {
    }

    /** `IsCirclular`: true exactly when the graph has a cycle. */
    method IsCircular() returns (r: bool)
      requires Shaped()
      ensures r <==> HasCycle(Graph())
    {
      hide HasCycle, Finite, Shaped, IsPath;
      ghost var g := Graph();
      var visited: map<K, int> := map k | k in nodes :: 0;
      assert OnStack(g, visited, []) by { EmptyStack(g, visited); }
      var todo := nodes.Keys;
      while todo != {}
        invariant todo <= nodes.Keys && OnStack(g, visited, [])
        invariant forall k | k in nodes && k !in todo :: visited[k] != 0 && Finite(g, k)
        decreases |todo|
      {
        var k :| k in todo;
        assert nodes[k].key == k by { KeyOf(k); }
        var found;
        found, visited := HasCircularDep(nodes[k], visited, g, []);
        if found { return true; }
        todo := todo - {k};
      }
      FiniteNoCycle(g);
      r := exists k | k in nodes :: visited[k] == 0;
    }

    lemma KeyOf(k: K)
      requires Shaped() && k in nodes
      ensures nodes[k].key == k && PNums()[k] == nodes[k].pNum
    {
    }

    lemma EmptyStack(g: Graph<K>, visited: map<K, int>)
      requires visited.Keys == g.Keys && forall k | k in g :: visited[k] == 0
      ensures OnStack(g, visited, [])
    {
    }

    /** `hasCirclularDep` from `current`, reached along `stack`. */
    method HasCircularDep(current: Node<K>, visited: map<K, int>, ghost g: Graph<K>, ghost stack: seq<K>)
      returns (found: bool, visited': map<K, int>)
      requires Shaped() && current.key in nodes && nodes[current.key] == current && g == Graph()
      requires OnStack(g, visited, stack) && current.key !in stack
      requires stack == [] || Edge(g, stack[|stack| - 1], current.key)
      ensures found ==> HasCycle(g)
      ensures !found ==> OnStack(g, visited', stack) && visited'[current.key] != 0 && Finite(g, current.key)
      ensures !found ==> forall k | k in g && visited[k] != 0 :: visited'[k] != 0
      decreases |g| - |stack|
    {
      hide HasCycle, Finite, Shaped, IsPath, Edge, Distinct, OnStack, Graph;
      GraphSize(current);
      Coloured(g, visited, stack);
      Enter(g, visited, stack, current.key);
      visited' := visited[current.key := 1];
      ghost var here := stack + [current.key];
      for i := 0 to |current.children|
        invariant OnStack(g, visited', here) && visited'.Keys == g.Keys
        invariant forall k | k in g && visited[k] != 0 :: visited'[k] != 0
        invariant forall j | 0 <= j < i :: Finite(g, g[current.key][j])
      {
        var child := current.children[i];
        ChildOf(current, i);
        Coloured(g, visited', here);
        if visited'[child.key] == 1 {
          BackEdge(g, here, child.key);
          return true, visited';
        }
        found, visited' := HasCircularDep(child, visited', g, here);
        if found { return; }
        Coloured(g, visited', here);
      }
      Leave(g, visited', stack, current.key);
      FiniteFromChildren(g, current.key);
      visited' := visited'[current.key := 2];
      found := false;
    }

    // ---- the layered sort ---------------------------------------------------------------------

    /** `TopoSort`: the frontiers of the graph one after the other, lighter nodes first in each. */
    method TopoSort() returns (sorted: seq<Node<K>>, ghost layers: seq<seq<K>>)
      requires Valid()
      modifies nodes.Values`pNum
      ensures Graph() == old(Graph())
      ensures Layers(Graph(), Weights(), {}, layers) && KeysOf(sorted) == Flatten(layers)
      ensures Topological(Graph(), {}, KeysOf(sorted))
      ensures Elements(KeysOf(sorted)) == nodes.Keys <==> !HasCycle(Graph())
    {
      hide Shaped, Graph, PNums, Counts, Layers, Flatten, Frontier, Zero, Closed, HasCycle, Topological, Elements;
      ghost var g := Graph();
      var roots := GetRootNodes();
      ghost var rest;
      sorted, rest, layers := SortRest(roots, g, {}, []);
      assert [] + rest == rest;
      GraphClosed();
      GraphKeys();
      LayersTopological(g, Weights(), {}, layers);
      LayersComplete(g, Weights(), layers);
    }

    method GetRootNodes() returns (roots: seq<Node<K>>)
      requires Valid()
      ensures InGraph(roots) && Distinct(roots) && Elements(KeysOf(roots)) == Frontier(Graph(), {})
    {
      hide Shaped, Graph, Counts, PNums, Elements, Distinct, KeysOf, Zeros;
      roots := [];
      ghost var p := PNums();
      GraphKeys();
      RootKeys(Graph(), p);
      var todo := nodes.Keys;
      NoRoots(p);
      while todo != {}
        invariant todo <= nodes.Keys && InGraph(roots) && Distinct(roots)
        invariant Elements(KeysOf(roots)) == Zeros(p, todo)
        decreases |todo|
      {
        var k :| k in todo;
        KeyOf(k);
        ZerosStep(p, todo, k);
        if nodes[k].pNum == 0 {
          AddRoot(roots, nodes[k]);
          roots := roots + [nodes[k]];
        }
        todo := todo - {k};
      }
    }

    lemma NoRoots(p: map<K, int>)
      ensures Distinct<Node<K>>([]) && Elements(KeysOf([])) == Zeros(p, p.Keys)
    {
    }

    lemma AddRoot(ns: seq<Node<K>>, n: Node<K>)
      requires Distinct(ns) && n.key !in Elements(KeysOf(ns))
      ensures Distinct(ns + [n]) && Elements(KeysOf(ns + [n])) == Elements(KeysOf(ns)) + {n.key}
    {
      assert KeysOf(ns + [n]) == KeysOf(ns) + [n.key];
      forall i | 0 <= i < |ns|
        ensures ns[i] != n
      {
        assert KeysOf(ns)[i] in KeysOf(ns);
      }
    }

    /** The loop of `sortNodes` over the children of a released node. */
    method Release(node: Node<K>, ghost g: Graph<K>, ghost done: set<K>, temp: seq<Node<K>>)
      returns (temp': seq<Node<K>>)
      requires Shaped() && g == Graph() && node.key in nodes && nodes[node.key] == node
      requires node.key !in done && Counts(g, PNums(), done, {})
      requires InGraph(temp) && Distinct(temp) && Elements(KeysOf(temp)) <= Zero(g, done)
      modifies nodes.Values`pNum
      ensures Shaped() && g == Graph() && Counts(g, PNums(), done + {node.key}, {})
      ensures InGraph(temp') && Distinct(temp')
      ensures Elements(KeysOf(temp')) == Elements(KeysOf(temp)) + (Zero(g, done + {node.key}) - Zero(g, done))
    {
      hide Shaped, Graph, PNums, Counts, Zero, Elements, Closed;
      GraphSize(node);
      ghost var done' := done + {node.key};
      ghost var cs := g[node.key];
      assert Closed(g) by { GraphClosed(); }
      assert Distinct(cs) by { ChildKeysDistinct(node); }
      NewZeros(g, done, node.key);
      StartRelease(g, PNums(), done, node.key);
      temp' := temp;
      ghost var base := Elements(KeysOf(temp));
      assert cs[0..] == cs;
      assert base == base + Elements(cs[..0]) * Zero(g, done') by { ElementsNone(cs[..0]); }
      for i := 0 to |node.children|
        invariant Shaped() && g == Graph()
        invariant Counts(g, PNums(), done', Elements(cs[i..]))
        invariant InGraph(temp') && Distinct(temp')
        invariant Elements(KeysOf(temp')) == base + Elements(cs[..i]) * Zero(g, done')
      {
        var child := node.children[i];
        ChildOf(node, i);
        assert cs[i..][1..] == cs[i + 1..];
        StepRelease(g, PNums(), done', cs[i..]);
        KeyOf(child.key);
        SetPNum(child, child.pNum - 1);
        Gathered(base, temp', cs, Zero(g, done'), i, child);
        if child.pNum == 0 {
          temp' := temp' + [child];
        }
      }
      assert cs[..|cs|] == cs;
      ElementsNone(cs[|cs|..]);
    }

    /** `sortNodes`: releases the frontier `roots` of `done`, then everything after it. */
    method SortNodes(roots: seq<Node<K>>, ghost g: Graph<K>, ghost done: set<K>, sorted: seq<Node<K>>)
      returns (sorted': seq<Node<K>>, ghost rest: seq<Node<K>>, ghost layers: seq<seq<K>>)
      requires Shaped() && g == Graph() && Counts(g, PNums(), done, {})
      requires done <= Zero(g, done)
      requires roots != [] && InGraph(roots) && Distinct(roots) && Elements(KeysOf(roots)) == Frontier(g, done)
      modifies nodes.Values`pNum
      ensures Shaped() && g == Graph()
      ensures Layers(g, Weights(), done, layers) && sorted' == sorted + rest && KeysOf(rest) == Flatten(layers)
      decreases |g.Keys - done|, 0
    {
      hide Shaped, Graph, PNums, Counts, Zero, Frontier, IsLayer, Layers, Flatten, Distinct, Elements, Weights,
        InGraph, KeysOf;
      var tempNodes, out := OutputLayer(roots, g, done);
      sorted', rest, layers := SortRest(tempNodes, g, done + Elements(KeysOf(out)), sorted + out);
      LayersCons(g, Weights(), done, KeysOf(out), layers);
      KeysConcat(out, rest);
      assert sorted + out + rest == sorted + (out + rest);
      rest, layers := out + rest, [KeysOf(out)] + layers;
    }

    /** The rest of the sort: over when no node was freed. */
    method SortRest(roots: seq<Node<K>>, ghost g: Graph<K>, ghost done: set<K>, sorted: seq<Node<K>>)
      returns (sorted': seq<Node<K>>, ghost rest: seq<Node<K>>, ghost layers: seq<seq<K>>)
      requires Shaped() && g == Graph() && Counts(g, PNums(), done, {})
      requires done <= Zero(g, done)
      requires InGraph(roots) && Distinct(roots) && Elements(KeysOf(roots)) == Frontier(g, done)
      modifies nodes.Values`pNum
      ensures Shaped() && g == Graph()
      ensures Layers(g, Weights(), done, layers) && sorted' == sorted + rest && KeysOf(rest) == Flatten(layers)
      decreases |g.Keys - done|, 1
    {
      hide Shaped, Graph, PNums, Counts, Zero, Frontier, IsLayer, Layers, Flatten, Distinct, Elements, Weights, InGraph;
      if |roots| > 0 {
        sorted', rest, layers := SortNodes(roots, g, done, sorted);
      } else {
        ElementsNone(KeysOf(roots));
        NoLayers(g, Weights(), done);
        sorted', rest, layers := sorted, [], [];
      }
    }

    /** Both loops of `sortNodes`: one layer out, and the next one gathered. */
    method OutputLayer(roots: seq<Node<K>>, ghost g: Graph<K>, ghost done: set<K>)
      returns (temp: seq<Node<K>>, out: seq<Node<K>>)
      requires Shaped() && g == Graph() && Counts(g, PNums(), done, {}) && done <= Zero(g, done)
      requires roots != [] && InGraph(roots) && Distinct(roots) && Elements(KeysOf(roots)) == Frontier(g, done)
      modifies nodes.Values`pNum
      ensures Shaped() && g == Graph() && IsLayer(g, Weights(), done, KeysOf(out))
      ensures var done' := done + Elements(KeysOf(out));
              Counts(g, PNums(), done', {}) && done' <= Zero(g, done') && |g.Keys - done'| < |g.Keys - done| &&
              InGraph(temp) && Distinct(temp) && Elements(KeysOf(temp)) == Frontier(g, done')
    {
      hide Shaped, Graph, PNums, Counts, Zero, Frontier, IsLayer, Ascending, Distinct, Elements, Weights, InGraph;
      var queue;
      temp, queue := ReleaseAll(roots, g, done);
      NextFrontier(g, done);
      FrontierShrinks(g, done, KeysOf(roots));
      out := Drain(queue);
      LayerDrained(g, done, roots, out);
    }

    /** The first loop of `sortNodes`. */
    method ReleaseAll(roots: seq<Node<K>>, ghost g: Graph<K>, ghost done: set<K>)
      returns (temp: seq<Node<K>>, queue: seq<Node<K>>)
      requires Shaped() && g == Graph() && Counts(g, PNums(), done, {})
      requires InGraph(roots) && Distinct(roots) && Elements(KeysOf(roots)) == Frontier(g, done)
      modifies nodes.Values`pNum
      ensures Shaped() && g == Graph()
      ensures Counts(g, PNums(), done + Elements(KeysOf(roots)), {})
      ensures queue == roots && InGraph(temp) && Distinct(temp)
      ensures Elements(KeysOf(temp)) == Zero(g, done + Elements(KeysOf(roots))) - Zero(g, done)
    {
      hide Shaped, Graph, PNums, Counts, Zero, Elements;
      temp, queue := [], [];
      ElementsNone(KeysOf(temp));
      assert done + Elements(KeysOf(roots[..0])) == done by { ElementsNone(KeysOf(roots[..0])); }
      for i := 0 to |roots|
        invariant Shaped() && g == Graph()
        invariant Counts(g, PNums(), done + Elements(KeysOf(roots[..i])), {})
        invariant queue == roots[..i] && InGraph(temp) && Distinct(temp)
        invariant Elements(KeysOf(temp)) == Zero(g, done + Elements(KeysOf(roots[..i]))) - Zero(g, done)
        invariant Zero(g, done) <= Zero(g, done + Elements(KeysOf(roots[..i])))
      {
        var node := roots[i];
        ghost var done_i := done + Elements(KeysOf(roots[..i]));
        RootReady(g, done, roots, i);
        if node.pNum == 0 {
          queue := queue + [node];
          temp := Release(node, g, done_i, temp);
        }
      }
      assert roots[..|roots|] == roots;
    }

    lemma RootReady(g: Graph<K>, done: set<K>, roots: seq<Node<K>>, i: nat)
      requires g == Graph() && InGraph(roots) && Distinct(roots) && i < |roots|
      requires Elements(KeysOf(roots)) == Frontier(g, done)
      requires Counts(g, PNums(), done + Elements(KeysOf(roots[..i])), {})
      ensures var done_i := done + Elements(KeysOf(roots[..i]));
              roots[i].pNum == 0 && roots[i].key !in done_i &&
              done + Elements(KeysOf(roots[..i + 1])) == done_i + {roots[i].key} &&
              Zero(g, done_i) <= Zero(g, done_i + {roots[i].key})
    {
      hide Counts, Zero, Frontier, Elements;
      var ks := KeysOf(roots);
      forall j, m | 0 <= j < m < |roots|
        ensures ks[j] != ks[m]
      {
        assert roots[j] != roots[m];
      }
      assert KeysOf(roots[..i]) == ks[..i] && KeysOf(roots[..i + 1]) == ks[..i + 1];
      KeyReady(g, PNums(), done, ks, i);
    }

    lemma LayerDrained(g: Graph<K>, done: set<K>, roots: seq<Node<K>>, out: seq<Node<K>>)
      requires g == Graph() && InGraph(roots) && roots != []
      requires Elements(KeysOf(roots)) == Frontier(g, done)
      requires Distinct(out) && Elements(out) == Elements(roots) && |out| == |roots| && Ascending(out)
      ensures IsLayer(g, Weights(), done, KeysOf(out)) && Elements(KeysOf(out)) == Elements(KeysOf(roots))
    {
      forall i | 0 <= i < |out|
        ensures out[i].key in nodes && nodes[out[i].key] == out[i]
      {
        assert out[i] in Elements(roots);
      }
      KeySets(out, roots);
    }

    lemma ChildKeysDistinct(n: Node<K>)
      requires Shaped() && n.key in nodes && nodes[n.key] == n
      ensures Distinct(Graph()[n.key])
    {
      forall i, j | 0 <= i < j < |n.children|
        ensures n.children[i].key != n.children[j].key
      {
        assert n.children[i] != n.children[j];
      }
    }
  }

  lemma KeysConcat<K>(a: seq<Node<K>>, b: seq<Node<K>>)
    ensures KeysOf(a + b) == KeysOf(a) + KeysOf(b)
  {
  }

  lemma ElementsNone<K>(s: seq<K>)
    requires s == []
    ensures Elements(s) == {}
  {
  }

  /** One more child gathered, or passed over, by the release loop. */
  lemma Gathered<K>(base: set<K>, ns: seq<Node<K>>, cs: seq<K>, z: set<K>, i: nat, child: Node<K>)
    requires Distinct(cs) && base !! Elements(cs) && i < |cs| && cs[i] == child.key && Distinct(ns)
    requires Elements(KeysOf(ns)) == base + Elements(cs[..i]) * z
    ensures child.key !in z ==> Elements(KeysOf(ns)) == base + Elements(cs[..i + 1]) * z
    ensures child.key in z ==>
              Distinct(ns + [child]) && Elements(KeysOf(ns + [child])) == base + Elements(cs[..i + 1]) * z
  {
    assert cs[..i + 1] == cs[..i] + [child.key];
    assert child.key !in KeysOf(ns) by {
      assert child.key in Elements(cs);
      assert child.key !in Elements(KeysOf(ns));
    }
    forall j | 0 <= j < |ns|
      ensures ns[j] != child
    {
      assert KeysOf(ns)[j] in KeysOf(ns);
    }
    assert KeysOf(ns + [child]) == KeysOf(ns) + [child.key];
  }

  lemma KeySets<K>(a: seq<Node<K>>, b: seq<Node<K>>)
    requires Elements(a) == Elements(b)
    ensures Elements(KeysOf(a)) == Elements(KeysOf(b))
  {
    forall k
      ensures k in KeysOf(a) <==> k in KeysOf(b)
    {
      if k in KeysOf(a) {
        var i :| 0 <= i < |a| && a[i].key == k;
        assert a[i] in Elements(b);
      }
      if k in KeysOf(b) {
        var i :| 0 <= i < |b| && b[i].key == k;
        assert b[i] in Elements(a);
      }
    }
  }

  // ---- the priority queue -------------------------------------------------------------------

  ghost predicate Lightest<K>(n: Node<K>, ns: seq<Node<K>>) {
    forall i | 0 <= i < |ns| :: n.weight <= ns[i].weight
  }

  /** `heap.Pop`: takes an entry of least weight out of the queue. */
  method PopLightest<K(==)>(queue: seq<Node<K>>) returns (n: Node<K>, rest: seq<Node<K>>, ghost at: nat)
    requires queue != []
    ensures at < |queue| && n == queue[at] && rest == queue[..at] + queue[at + 1..]
    ensures Lightest(n, queue)
  {
    var best := 0;
    for i := 1 to |queue|
      invariant 0 <= best < i
      invariant forall j | 0 <= j < i :: queue[best].weight <= queue[j].weight
    {
      if queue[i].weight < queue[best].weight { best := i; }
    }
    n, rest, at := queue[best], queue[..best] + queue[best + 1..], best;
  }

  ghost predicate Ascending<K>(ns: seq<Node<K>>) {
    forall i, j | 0 <= i < j < |ns| :: ns[i].weight <= ns[j].weight
  }

  /** Popping until empty: the same nodes, lighter ones first. */
  method Drain<K(==)>(queue: seq<Node<K>>) returns (out: seq<Node<K>>)
    requires Distinct(queue)
    ensures Distinct(out) && Elements(out) == Elements(queue) && |out| == |queue| && Ascending(out)
  {
    var q := queue;
    out := [];
    while q != []
      invariant |out| + |q| == |queue| && Distinct(out + q) && Elements(out + q) == Elements(queue)
      invariant Ascending(out) && forall i | 0 <= i < |out| :: Lightest(out[i], q)
      decreases |q|
    {
      ghost var q0 := q;
      var n; ghost var at;
      n, q, at := PopLightest(q);
      MoveOut(out, q0, at);
      out := out + [n];
    }
    assert out + [] == out;
  }

  lemma MoveOut<T>(out: seq<T>, q: seq<T>, at: nat)
    requires at < |q| && Distinct(out + q)
    ensures var out', q' := out + [q[at]], q[..at] + q[at + 1..];
            Distinct(out' + q') && Elements(out' + q') == Elements(out + q)
  {
    var a, b := out + q, out + [q[at]] + (q[..at] + q[at + 1..]);
    forall x
      ensures x in a <==> x in b
    {
      assert q == q[..at] + [q[at]] + q[at + 1..];
    }
    DistinctSize(a);
    assert Elements(a) == Elements(b);
    SizeDistinct(b);
  }
}
