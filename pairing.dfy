/**
 * How the token stream is read as pairs and what each pair does to the graph,
 * following the INPUT FILES section of the POSIX tsort utility
 * (IEEE Std 1003.1-2017): `a a` declares that `a` exists, `a b` with distinct
 * items declares that `a` precedes `b`.
 */
module Pairing {
  import opened Seqs
  import opened Digraph

  datatype Pair = Pair(src: Vertex, dest: Vertex)

  /**
   * The consecutive, non-overlapping pairs of `tokens` in input order.  A
   * leftover last token belongs to no pair.
   */
  function Chunk(tokens: seq<Vertex>): (ps: seq<Pair>)
    ensures 2 * |ps| <= |tokens| <= 2 * |ps| + 1
    decreases |tokens|
  {
    if |tokens| < 2 then [] else [Pair(tokens[0], tokens[1])] + Chunk(tokens[2..])
  }

  /** Pair `k` is made of tokens `2 * k` and `2 * k + 1`. */
  lemma {:induction false} ChunkAt(tokens: seq<Vertex>, k: nat)
    requires 2 * k + 1 < |tokens|
    ensures k < |Chunk(tokens)| && Chunk(tokens)[k] == Pair(tokens[2 * k], tokens[2 * k + 1])
    decreases k
  {
    if k > 0 {
      ChunkAt(tokens[2..], k - 1);
    }
  }

  /** The graph update for one pair: `add(dest)` for `a a`, `add(dest, src)` otherwise. */
  function Step(g: Graph, p: Pair): (r: Graph)
    ensures r.preds.Keys == g.preds.Keys + {p.src, p.dest}
    ensures |r.vertices| <= |g.vertices| + 2
  {
    if p.src == p.dest then g.Add(p.dest, []) else g.Add(p.dest, [p.src])
  }

  /** The graph after feeding `ps` to an empty sorter, one pair after another. */
  function Build(ps: seq<Pair>): (r: Graph)
    ensures |r.vertices| <= 2 * |ps|
    decreases |ps|
  {
    if ps == [] then Graph([], map[]) else Step(Build(ps[..|ps| - 1]), ps[|ps| - 1])
  }

  /** Building from one more pair is one more step. */
  lemma BuildPrefixStep(ps: seq<Pair>, k: nat, g: Graph, p: Pair)
    requires k < |ps| && g == Build(ps[..k]) && p == ps[k]
    ensures Build(ps[..k + 1]) == Step(g, p)
  {
    assert ps[..k + 1][..k] == ps[..k];
  }

  /** `v` is one of the items of `p`. */
  predicate Mentions(p: Pair, v: Vertex) {
    p.src == v || p.dest == v
  }

  /** `v` is one of the items of some pair. */
  ghost predicate Mentioned(ps: seq<Pair>, v: Vertex) {
    exists k :: 0 <= k < |ps| && Mentions(ps[k], v)
  }

  /** Some pair of distinct items declares that `u` precedes `v`. */
  ghost predicate Precedes(ps: seq<Pair>, u: Vertex, v: Vertex) {
    u != v && exists k :: 0 <= k < |ps| && ps[k] == Pair(u, v)
  }

  /**
   * One pair keeps the graph well formed, registers its items after the
   * vertices already known, and records `src -> dest` when the items differ.
   */
  lemma StepEffect(g: Graph, p: Pair)
    ensures g.Valid() ==> Step(g, p).Valid()
    ensures g.Valid() ==> forall x :: x in Step(g, p).vertices <==> x in g.vertices || Mentions(p, x)
    ensures forall u, v :: Step(g, p).Edge(u, v) <==> g.Edge(u, v) || (p.src != p.dest && u == p.src && v == p.dest)
    ensures |g.vertices| <= |Step(g, p).vertices| && Step(g, p).vertices[..|g.vertices|] == g.vertices
  {
    if p.src == p.dest {
      AddEffect(g, p.dest, []);
    } else {
      AddEffect(g, p.dest, [p.src]);
    }
  }

  /** Within a pair `a b` of distinct items not seen before, `b` is registered first, then `a`. */
  lemma PairRegistrationOrder(g: Graph, a: Vertex, b: Vertex)
    requires a != b && a !in g.preds && b !in g.preds
    ensures Step(g, Pair(a, b)).vertices == g.vertices + [b, a]
  {
    var h := g.Register(b);
    assert Step(g, Pair(a, b)) == h.AddPred(b, a).AddPreds(b, []);
    assert h.vertices == g.vertices + [b];
  }

  /** A pair `a a` registers `a` and records no edge. */
  lemma SelfPairRegistersOnly(g: Graph, a: Vertex)
    requires g.Valid()
    ensures Step(g, Pair(a, a)).Valid()
    ensures forall x :: x in Step(g, Pair(a, a)).vertices <==> x in g.vertices || x == a
    ensures forall u, v :: Step(g, Pair(a, a)).Edge(u, v) <==> g.Edge(u, v)
  {
    StepEffect(g, Pair(a, a));
  }

  /** A pair `a b` of distinct items registers both and records `a` as a predecessor of `b`, and nothing more. */
  lemma DistinctPairAddsEdge(g: Graph, a: Vertex, b: Vertex)
    requires g.Valid() && a != b
    ensures Step(g, Pair(a, b)).Valid()
    ensures forall x :: x in Step(g, Pair(a, b)).vertices <==> x in g.vertices || x == a || x == b
    ensures forall u, v :: Step(g, Pair(a, b)).Edge(u, v) <==> g.Edge(u, v) || (u == a && v == b)
  {
    StepEffect(g, Pair(a, b));
  }

  /** Input made only of pairs `a a` builds a graph without edges. */
  lemma SelfPairsBuildNoEdges(ps: seq<Pair>)
    requires forall k :: 0 <= k < |ps| ==> ps[k].src == ps[k].dest
    ensures Build(ps).NoEdges()
  {
    BuildMatchesPairs(ps);
  }

  lemma MentionedSnoc(init: seq<Pair>, last: Pair, v: Vertex)
    ensures Mentioned(init + [last], v) <==> Mentioned(init, v) || last.src == v || last.dest == v
  {
    var ps := init + [last];
    assert ps[|init|] == last;
    if Mentioned(ps, v) {
      var k :| 0 <= k < |ps| && Mentions(ps[k], v);
      if k < |init| { assert init[k] == ps[k]; }
    }
    if Mentioned(init, v) {
      var k :| 0 <= k < |init| && Mentions(init[k], v);
      assert ps[k] == init[k];
    }
  }

  lemma PrecedesSnoc(init: seq<Pair>, last: Pair, u: Vertex, v: Vertex)
    ensures Precedes(init + [last], u, v) <==> Precedes(init, u, v) || (u != v && last == Pair(u, v))
  {
    var ps := init + [last];
    assert ps[|init|] == last;
    if Precedes(ps, u, v) {
      var k :| 0 <= k < |ps| && ps[k] == Pair(u, v);
      if k < |init| { assert init[k] == ps[k]; }
    }
    if Precedes(init, u, v) {
      var k :| 0 <= k < |init| && init[k] == Pair(u, v);
      assert ps[k] == init[k];
    }
  }

  /**
   * The graph built from `ps` is well formed, its vertices are exactly the
   * items of the pairs, and its edges are exactly the precedences they declare.
   */
  lemma {:induction false} BuildMatchesPairs(ps: seq<Pair>)
    ensures Build(ps).Valid()
    ensures forall v :: v in Build(ps).vertices <==> Mentioned(ps, v)
    ensures forall u, v :: Build(ps).Edge(u, v) <==> Precedes(ps, u, v)
    decreases |ps|
  {
    if ps != [] {
      var init, last := ps[..|ps| - 1], ps[|ps| - 1];
      BuildMatchesPairs(init);
      assert ps == init + [last];
      var g := Build(init);
      var h := Step(g, last);
      assert Build(ps) == h;
      StepEffect(g, last);
      assert h.Valid();
      forall v ensures v in h.vertices <==> Mentioned(ps, v) {
        MentionedSnoc(init, last, v);
      }
      forall u, v ensures h.Edge(u, v) <==> Precedes(ps, u, v) {
        PrecedesSnoc(init, last, u, v);
      }
    }
  }

  /**
   * `vs` lists vertices in order of first mention in `ps`: a pair that
   * mentions a vertex comes no earlier than the first pair that mentions any
   * vertex listed before it.
   */
  ghost predicate InFirstMentionOrder(ps: seq<Pair>, vs: seq<Vertex>) {
    forall i, j, m :: 0 <= i < j < |vs| && 0 <= m < |ps| && Mentions(ps[m], vs[j]) ==> Mentioned(ps[..m + 1], vs[i])
  }

  /** The inductive step of `BuildFollowsFirstMention`, for one triple of positions. */
  lemma FirstMentionStep(init: seq<Pair>, last: Pair, old_vs: seq<Vertex>, vs: seq<Vertex>, i: nat, j: nat, m: nat)
    requires InFirstMentionOrder(init, old_vs)
    requires forall v :: Mentioned(init, v) ==> v in old_vs
    requires forall v :: v in vs ==> Mentioned(init + [last], v)
    requires |old_vs| <= |vs| && vs[..|old_vs|] == old_vs && NoDuplicates(vs)
    requires i < j < |vs| && m <= |init| && Mentions((init + [last])[m], vs[j])
    ensures Mentioned((init + [last])[..m + 1], vs[i])
  {
    var ps := init + [last];
    if m < |init| {
      assert ps[m] == init[m] && ps[..m + 1] == init[..m + 1];
      assert Mentioned(init, vs[j]);
      var j' := IndexOf(old_vs, vs[j]);
      assert vs[j'] == vs[j];
      assert vs[i] == old_vs[i];
    } else {
      assert ps[..m + 1] == ps;
      assert vs[i] in vs;
    }
  }

  /**
   * The vertices are registered in order of first mention.  (Within one pair
   * `a b`, `b` is registered before `a`, as `PairRegistrationOrder` states.)
   */
  lemma {:induction false} BuildFollowsFirstMention(ps: seq<Pair>)
    ensures InFirstMentionOrder(ps, Build(ps).vertices)
    decreases |ps|
  {
    if ps != [] {
      var init, last := ps[..|ps| - 1], ps[|ps| - 1];
      assert ps == init + [last];
      BuildFollowsFirstMention(init);
      BuildMatchesPairs(init);
      BuildMatchesPairs(ps);
      StepEffect(Build(init), last);
      var old_vs := Build(init).vertices;
      var vs := Build(ps).vertices;
      assert vs[..|old_vs|] == old_vs && |old_vs| <= |vs|;
      assert NoDuplicates(vs);
      assert forall v :: Mentioned(init, v) ==> v in old_vs;
      assert forall v :: v in vs ==> Mentioned(init + [last], v);
      forall i, j, m | 0 <= i < j < |vs| && 0 <= m < |ps| && Mentions(ps[m], vs[j])
        ensures Mentioned(ps[..m + 1], vs[i])
      {
        FirstMentionStep(init, last, old_vs, vs, i, j, m);
      }
    }
  }
}
