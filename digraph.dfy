/**
 * The dependency graph as a value: the vertices in the order they were
 * registered, and for every vertex the set of its predecessors.  An edge
 * `u -> v` ("u must precede v") is recorded as `u in preds[v]`.
 */
module Digraph {
  import opened Seqs

  type Vertex = string

  datatype Graph = Graph(vertices: seq<Vertex>, preds: map<Vertex, set<Vertex>>) {

    /** Every vertex is registered once, and every predecessor is itself a vertex. */
    ghost predicate Valid() {
      && NoDuplicates(vertices)
      && (forall v :: v in vertices <==> v in preds)
      && (forall v :: v in preds ==> preds[v] <= preds.Keys)
    }

    /** `u` is a recorded predecessor of `v`, so `u` must come before `v`. */
    predicate Edge(u: Vertex, v: Vertex) {
      v in preds && u in preds[v]
    }

    /** `v` is not yet output but all of its predecessors are. */
    predicate Ready(v: Vertex, done: set<Vertex>) {
      v in preds && v !in done && preds[v] <= done
    }

    /** Makes `v` known, with no predecessors, unless it is known already. */
    function Register(v: Vertex): (r: Graph)
      ensures r.preds.Keys == preds.Keys + {v}
      ensures |r.vertices| <= |vertices| + 1
    {
      if v in preds then this else Graph(vertices + [v], preds[v := {}])
    }

    /** Registers `p` and records it as a predecessor of `node`. */
    function AddPred(node: Vertex, p: Vertex): (r: Graph)
      requires node in preds
      ensures r.preds.Keys == preds.Keys + {p}
      ensures |r.vertices| <= |vertices| + 1
    {
      var g := Register(p);
      Graph(g.vertices, g.preds[node := g.preds[node] + {p}])
    }

    /** Registers each of `xs` in turn and records it as a predecessor of `node`. */
    function AddPreds(node: Vertex, xs: seq<Vertex>): (r: Graph)
      requires node in preds
      ensures r.preds.Keys == preds.Keys + Elements(xs)
      ensures |r.vertices| <= |vertices| + |xs|
      decreases |xs|
    {
      if xs == [] then this
      else
        assert Elements(xs) == {xs[0]} + Elements(xs[1..]);
        AddPred(node, xs[0]).AddPreds(node, xs[1..])
    }

    /**
     * The graph after `add(node, *xs)`: `node` is registered first, then each
     * of `xs` in order, and every one of `xs` becomes a predecessor of `node`.
     */
    function Add(node: Vertex, xs: seq<Vertex>): (r: Graph)
      ensures r.preds.Keys == preds.Keys + {node} + Elements(xs)
      ensures |r.vertices| <= |vertices| + 1 + |xs|
    {
      Register(node).AddPreds(node, xs)
    }

    /** No vertex has a predecessor. */
    ghost predicate NoEdges() {
      forall u, v :: !Edge(u, v)
    }

    /** A closed walk along edges: each vertex must precede the next, and it ends where it starts. */
    ghost predicate IsCycle(c: seq<Vertex>) {
      && |c| >= 2
      && c[0] == c[|c| - 1]
      && forall k :: 0 <= k < |c| - 1 ==> Edge(c[k], c[k + 1])
    }

    ghost predicate HasCycle() {
      exists c :: IsCycle(c)
    }

    /** `order` is a duplicate-free list of vertices, each after all of its predecessors. */
    ghost predicate IsPartialLinearization(order: seq<Vertex>) {
      && NoDuplicates(order)
      && (forall k :: 0 <= k < |order| ==> order[k] in preds && preds[order[k]] <= Elements(order))
      && (forall i, j :: 0 <= i < |order| && 0 <= j < |order| && Edge(order[i], order[j]) ==> i < j)
    }

    /** `order` lists every vertex exactly once, and nothing else, with every predecessor first. */
    ghost predicate IsLinearization(order: seq<Vertex>) {
      && NoDuplicates(order)
      && (forall v :: v in order <==> v in preds)
      && (forall i, j :: 0 <= i < |order| && 0 <= j < |order| && Edge(order[i], order[j]) ==> i < j)
    }
  }

  /** Registering a vertex keeps the graph well formed, adds no edge and appends at most that vertex. */
  lemma RegisterEffect(g: Graph, v: Vertex)
    ensures g.Valid() ==> g.Register(v).Valid()
    ensures forall a, b :: g.Register(v).Edge(a, b) <==> g.Edge(a, b)
    ensures g.Valid() ==> forall x :: x in g.Register(v).vertices <==> x in g.vertices || x == v
    ensures |g.vertices| <= |g.Register(v).vertices| && g.Register(v).vertices[..|g.vertices|] == g.vertices
  {
  }

  /** Recording one predecessor registers it and adds exactly the edge `p -> node`. */
  lemma AddPredEffect(g: Graph, node: Vertex, p: Vertex)
    requires node in g.preds
    ensures g.Valid() ==> g.AddPred(node, p).Valid()
    ensures forall a, b :: g.AddPred(node, p).Edge(a, b) <==> g.Edge(a, b) || (a == p && b == node)
    ensures g.Valid() ==> forall x :: x in g.AddPred(node, p).vertices <==> x in g.vertices || x == p
    ensures |g.vertices| <= |g.AddPred(node, p).vertices| && g.AddPred(node, p).vertices[..|g.vertices|] == g.vertices
  {
    RegisterEffect(g, p);
  }

  /** Recording predecessors `xs` of `node` registers them and adds exactly the edges `x -> node`. */
  lemma {:induction false} AddPredsEffect(g: Graph, node: Vertex, xs: seq<Vertex>)
    requires node in g.preds
    ensures node in g.AddPreds(node, xs).preds
    ensures g.Valid() ==> g.AddPreds(node, xs).Valid()
    ensures forall a, b :: g.AddPreds(node, xs).Edge(a, b) <==> g.Edge(a, b) || (a in xs && b == node)
    ensures g.Valid() ==> forall x :: x in g.AddPreds(node, xs).vertices <==> x in g.vertices || x in xs
    ensures |g.vertices| <= |g.AddPreds(node, xs).vertices| && g.AddPreds(node, xs).vertices[..|g.vertices|] == g.vertices
    decreases |xs|
  {
    if xs != [] {
      var h := g.AddPred(node, xs[0]);
      AddPredEffect(g, node, xs[0]);
      AddPredsEffect(h, node, xs[1..]);
      assert forall x :: x in xs <==> x == xs[0] || x in xs[1..];
      assert h.vertices[..|g.vertices|] == g.vertices;
      assert h.AddPreds(node, xs[1..]).vertices[..|h.vertices|][..|g.vertices|] == g.vertices;
    }
  }

  /**
   * `add(node, *xs)` keeps the graph well formed; afterwards the edges are the
   * old ones and `x -> node` for every `x` in `xs`, and the vertices are the
   * old ones, in the same places, followed by whichever of `node` and `xs`
   * were new.
   */
  lemma AddEffect(g: Graph, node: Vertex, xs: seq<Vertex>)
    ensures g.Valid() ==> g.Add(node, xs).Valid()
    ensures forall a, b :: g.Add(node, xs).Edge(a, b) <==> g.Edge(a, b) || (a in xs && b == node)
    ensures g.Valid() ==> forall x :: x in g.Add(node, xs).vertices <==> x in g.vertices || x == node || x in xs
    ensures |g.vertices| <= |g.Add(node, xs).vertices| && g.Add(node, xs).vertices[..|g.vertices|] == g.vertices
  {
    var h := g.Register(node);
    RegisterEffect(g, node);
    AddPredsEffect(h, node, xs);
    assert h.AddPreds(node, xs).vertices[..|h.vertices|][..|g.vertices|] == g.vertices;
  }

  /** Outputting a ready vertex extends a partial linearization. */
  lemma EmitReady(g: Graph, order: seq<Vertex>, v: Vertex)
    requires g.IsPartialLinearization(order) && g.Ready(v, Elements(order))
    ensures g.IsPartialLinearization(order + [v])
    ensures Elements(order + [v]) == Elements(order) + {v}
  {
    var order' := order + [v];
    assert Elements(order') == Elements(order) + {v};
    forall i, j | 0 <= i < |order'| && 0 <= j < |order'| && g.Edge(order'[i], order'[j])
      ensures i < j
    {
      if j == |order| {
        assert i != j;
      } else {
        assert order'[j] == order[j];
        assert order'[i] in Elements(order);
        if i == |order| {
          assert false;
        }
        assert order'[i] == order[i];
      }
    }
  }

  /** A partial linearization that covers every vertex is a linearization, and a permutation of the vertices. */
  lemma CompleteIsLinearization(g: Graph, order: seq<Vertex>)
    requires g.Valid() && g.IsPartialLinearization(order)
    requires forall k :: 0 <= k < |g.vertices| ==> g.vertices[k] in order
    ensures g.IsLinearization(order)
    ensures multiset(order) == multiset(g.vertices)
    ensures !g.HasCycle()
  {
    forall v | v in g.preds ensures v in order {
      var k := IndexOf(g.vertices, v);
    }
    DistinctPermutation(order, g.vertices);
    LinearizationExcludesCycle(g, order);
  }

  /** If vertices remain but none of them is ready, the graph has a cycle. */
  lemma NoneReadyMeansCycle(g: Graph, done: set<Vertex>)
    requires g.Valid() && done <= g.preds.Keys
    requires exists k :: 0 <= k < |g.vertices| && g.vertices[k] !in done
    requires forall k :: 0 <= k < |g.vertices| ==> !g.Ready(g.vertices[k], done)
    ensures g.HasCycle()
  {
    var stuck := g.preds.Keys - done;
    forall v | v in stuck ensures HasPredIn(g, stuck, v) {
      var k := IndexOf(g.vertices, v);
      assert !g.Ready(g.vertices[k], done);
      var u :| u in g.preds[v] && u !in done;
      assert u in stuck && g.Edge(u, v);
    }
    var k :| 0 <= k < |g.vertices| && g.vertices[k] !in done;
    assert g.vertices[k] in stuck;
    StuckSetHasCycle(g, stuck);
  }

  /** Along a cycle, positions in a linearization would have to increase strictly. */
  lemma {:induction false} PositionsIncreaseAlongCycle(g: Graph, order: seq<Vertex>, c: seq<Vertex>, k: nat)
    requires g.IsLinearization(order) && g.IsCycle(c)
    requires 1 <= k < |c|
    ensures c[0] in order && c[k] in order
    ensures IndexOf(order, c[0]) < IndexOf(order, c[k])
  {
    assert g.Edge(c[k - 1], c[k]);
    assert g.Edge(c[|c| - 2], c[|c| - 1]);
    if k > 1 {
      PositionsIncreaseAlongCycle(g, order, c, k - 1);
    }
    var i, j := IndexOf(order, c[k - 1]), IndexOf(order, c[k]);
    assert g.Edge(order[i], order[j]);
  }

  /** A graph that has a linearization has no cycle. */
  lemma LinearizationExcludesCycle(g: Graph, order: seq<Vertex>)
    requires g.IsLinearization(order)
    ensures !g.HasCycle()
  {
    if g.HasCycle() {
      var c :| g.IsCycle(c);
      PositionsIncreaseAlongCycle(g, order, c, |c| - 1);
    }
  }

  /** Some member of `r` is a predecessor of `v`. */
  ghost predicate HasPredIn(g: Graph, r: set<Vertex>, v: Vertex) {
    exists u :: u in r && g.Edge(u, v)
  }

  /**
   * In a set of vertices where each member has a predecessor inside the set,
   * one can walk backwards along edges for as long as one likes.
   */
  lemma {:induction false} BackwardWalk(g: Graph, r: set<Vertex>, n: nat) returns (w: seq<Vertex>)
    requires r != {}
    requires forall v {:trigger HasPredIn(g, r, v)} :: v in r ==> HasPredIn(g, r, v)
    ensures |w| == n + 1
    ensures forall k :: 0 <= k < |w| ==> w[k] in r
    ensures forall k :: 0 <= k < |w| - 1 ==> g.Edge(w[k], w[k + 1])
  {
    if n == 0 {
      var v :| v in r;
      w := [v];
    } else {
      var rest := BackwardWalk(g, r, n - 1);
      assert HasPredIn(g, r, rest[0]);
      var u :| u in r && g.Edge(u, rest[0]);
      w := [u] + rest;
    }
  }

  /** A non-empty set of vertices each of which has a predecessor in the set contains a cycle. */
  lemma StuckSetHasCycle(g: Graph, r: set<Vertex>)
    requires r != {}
    requires forall v {:trigger HasPredIn(g, r, v)} :: v in r ==> HasPredIn(g, r, v)
    ensures g.HasCycle()
  {
    var w := BackwardWalk(g, r, |r|);
    Pigeonhole(w, r);
    var i, j :| 0 <= i < j < |w| && w[i] == w[j];
    var c := w[i..j + 1];
    forall k | 0 <= k < |c| - 1
      ensures g.Edge(c[k], c[k + 1])
    {
      assert c[k] == w[i + k] && c[k + 1] == w[i + k + 1];
    }
    assert g.IsCycle(c);
  }
}
