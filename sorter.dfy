/**
 * The sorter object that `run()` fills with `add` calls and then asks for a
 * static order.  Its state is the registered vertices, in registration order,
 * and a predecessor set per vertex; `Model()` is that state as a `Graph` value.
 */
module Sorting {
  import opened Seqs
  import opened Digraph

  class TopologicalSorter {
    var vertices: seq<Vertex>
    var preds: map<Vertex, set<Vertex>>

    ghost function Model(): Graph
      reads this
    {
      Graph(vertices, preds)
    }

    ghost predicate Valid()
      reads this
    {
      Model().Valid()
    }

    /** A sorter with no vertices. */
    constructor ()
      ensures Valid()
      ensures vertices == [] && preds == map[]
    {
      vertices := [];
      preds := map[];
    }

    /**
     * `add(node, *xs)`: registers `node`, then each of `xs`, and records
     * every one of `xs` as a predecessor of `node`.
     */
    method Add(node: Vertex, xs: seq<Vertex>)
      requires Valid()
      modifies this
      ensures Valid()
      ensures Model() == old(Model()).Add(node, xs)
    {
      ghost var goal := old(Model()).Add(node, xs);
      AddEffect(old(Model()), node, xs);
      if node !in preds {
        vertices := vertices + [node];
        preds := preds[node := {}];
      }
      for i := 0 to |xs|
        invariant node in preds
        invariant Model().AddPreds(node, xs[i..]) == goal
      {
        assert xs[i..][1..] == xs[i + 1..];
        var p := xs[i];
        if p !in preds {
          vertices := vertices + [p];
          preds := preds[p := {}];
        }
        preds := preds[node := preds[node] + {p}];
      }
      assert xs[|xs|..] == [];
    }

    /**
     * The index of the first registered vertex that is not in `done` and whose
     * predecessors all are, or `|vertices|` when there is none.
     */
    method FirstReady(done: set<Vertex>) returns (i: nat)
      requires Valid()
      ensures i <= |vertices|
      ensures i < |vertices| ==> Model().Ready(vertices[i], done)
      ensures forall k :: 0 <= k < i ==> !Model().Ready(vertices[k], done)
    {
      i := 0;
      while i < |vertices|
        invariant i <= |vertices|
        invariant forall k :: 0 <= k < i ==> !Model().Ready(vertices[k], done)
      {
        var v := vertices[i];
        if v !in done && preds[v] <= done {
          return;
        }
        i := i + 1;
      }
    }

    /**
     * Without edges, once the first `|order|` registered vertices are output,
     * the next one registered is the first ready one.
     */
    lemma NextInRegistrationOrder(order: seq<Vertex>, done: set<Vertex>, i: nat)
      requires Valid() && Model().NoEdges()
      requires |order| < |vertices| && order == vertices[..|order|] && done == Elements(order)
      requires i <= |vertices|
      requires i < |vertices| ==> Model().Ready(vertices[i], done)
      requires forall k :: 0 <= k < i ==> !Model().Ready(vertices[k], done)
      ensures i == |order|
    {
      var v := vertices[|order|];
      assert preds[v] == {} by {
        if u :| u in preds[v] {
          assert Model().Edge(u, v);
        }
      }
      assert Model().Ready(v, done);
    }

    /**
     * `static_order()`: every vertex once, each after all of its predecessors,
     * or `None` when, and only when, the recorded edges contain a cycle.
     * Among the vertices whose predecessors are all output, the one registered
     * first is output next.
     */
    method StaticOrder() returns (r: Option<seq<Vertex>>)
      requires Valid()
      ensures r.Some? ==> Model().IsLinearization(r.value)
      ensures r.Some? ==> multiset(r.value) == multiset(vertices)
      ensures r.None? <==> Model().HasCycle()
      ensures Model().NoEdges() ==> r == Some(vertices)
    {
      var order: seq<Vertex> := [];
      var done: set<Vertex> := {};
      while true
        invariant Model().IsPartialLinearization(order)
        invariant done == Elements(order)
        invariant Model().NoEdges() ==> |order| <= |vertices| && order == vertices[..|order|]
        decreases preds.Keys - done
      {
        var i := FirstReady(done);
        if Model().NoEdges() && |order| < |vertices| {
          NextInRegistrationOrder(order, done, i);
        }
        if i == |vertices| {
          if forall k | 0 <= k < |vertices| :: vertices[k] in done {
            CompleteIsLinearization(Model(), order);
            assert Model().NoEdges() ==> vertices[..|vertices|] == vertices;
            return Some(order);
          }
          NoneReadyMeansCycle(Model(), done);
          return None;
        }
        var v := vertices[i];
        EmitReady(Model(), order, v);
        order := order + [v];
        done := done + {v};
      }
    }
  }
}
