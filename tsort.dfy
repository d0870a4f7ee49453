/**
 * The `run()` pipeline of the tsort command: pair the tokens, feed the pairs
 * to a sorter, and produce a total order consistent with the declared
 * precedences, as the DESCRIPTION section of the POSIX tsort utility asks.
 * Reading the input and printing the result are outside the model: the input
 * is the token sequence, and the outcome says what would be printed and with
 * which exit status the process would end.
 */
module Tsort {
  import opened Seqs
  import opened Digraph
  import opened Pairing
  import opened Sorting

  /** Success with the vertices to print, one per line, or one of the two failures. */
  datatype Outcome = Ok(ordering: seq<Vertex>) | Cyclic | Malformed

  /** The `Status` values for the failures; success is the normal exit status 0. */
  const CYCLIC: nat := 1
  const MALFORMED: nat := 2

  /** The process exit status for an outcome. */
  function ExitStatus(o: Outcome): (s: nat)
    ensures s == 0 <==> o.Ok?
    ensures s == CYCLIC <==> o.Cyclic?
    ensures s == MALFORMED <==> o.Malformed?
  {
    match o
    case Ok(_) => 0
    case Cyclic => CYCLIC
    case Malformed => MALFORMED
  }

  /**
   * `order` prints every item of the pairs exactly once and nothing else, and
   * for every pair `a b` of distinct items, `a` before `b`.
   */
  ghost predicate IsOrdering(ps: seq<Pair>, order: seq<Vertex>) {
    && NoDuplicates(order)
    && (forall v :: v in order <==> Mentioned(ps, v))
    && (forall i, j :: 0 <= i < |order| && 0 <= j < |order| && Precedes(ps, order[i], order[j]) ==> i < j)
  }

  /** `c` starts and ends at the same item, each of its items declared to precede the next. */
  ghost predicate IsPairCycle(ps: seq<Pair>, c: seq<Vertex>) {
    && |c| >= 2
    && c[0] == c[|c| - 1]
    && forall k :: 0 <= k < |c| - 1 ==> Precedes(ps, c[k], c[k + 1])
  }

  ghost predicate HasPairCycle(ps: seq<Pair>) {
    exists c :: IsPairCycle(ps, c)
  }

  /** A graph whose vertices and edges are those the pairs declare. */
  ghost predicate Represents(g: Graph, ps: seq<Pair>) {
    && (forall v :: v in g.preds <==> Mentioned(ps, v))
    && (forall u, v :: g.Edge(u, v) <==> Precedes(ps, u, v))
  }

  lemma LinearizationIsOrdering(g: Graph, ps: seq<Pair>, order: seq<Vertex>)
    requires Represents(g, ps)
    ensures g.IsLinearization(order) <==> IsOrdering(ps, order)
  {
    assert (forall v :: v in order <==> v in g.preds) <==> (forall v :: v in order <==> Mentioned(ps, v));
    assert (forall i, j :: 0 <= i < |order| && 0 <= j < |order| && g.Edge(order[i], order[j]) ==> i < j)
      <==> (forall i, j :: 0 <= i < |order| && 0 <= j < |order| && Precedes(ps, order[i], order[j]) ==> i < j);
  }

  lemma CycleIsPairCycle(g: Graph, ps: seq<Pair>)
    requires Represents(g, ps)
    ensures g.HasCycle() <==> HasPairCycle(ps)
  {
    if g.HasCycle() {
      var c :| g.IsCycle(c);
      assert IsPairCycle(ps, c);
    }
    if HasPairCycle(ps) {
      var c :| IsPairCycle(ps, c);
      assert g.IsCycle(c);
    }
  }

  /** The graph-level notions agree with the pair-level ones for the graph built from `ps`. */
  lemma BuiltGraphAgrees(ps: seq<Pair>)
    ensures Build(ps).Valid()
    ensures forall order :: Build(ps).IsLinearization(order) <==> IsOrdering(ps, order)
    ensures Build(ps).HasCycle() <==> HasPairCycle(ps)
  {
    BuildMatchesPairs(ps);
    var g := Build(ps);
    assert Represents(g, ps);
    forall order ensures g.IsLinearization(order) <==> IsOrdering(ps, order) {
      LinearizationIsOrdering(g, ps, order);
    }
    CycleIsPairCycle(g, ps);
  }

  /** What the sorter's answer on the built graph means for the pairs. */
  lemma SortOutcomeForPairs(ps: seq<Pair>, r: Option<seq<Vertex>>)
    requires r.Some? ==> Build(ps).IsLinearization(r.value)
    requires r.None? <==> Build(ps).HasCycle()
    requires Build(ps).NoEdges() ==> r == Some(Build(ps).vertices)
    ensures r.Some? ==> IsOrdering(ps, r.value)
    ensures r.None? <==> HasPairCycle(ps)
    ensures (forall k :: 0 <= k < |ps| ==> ps[k].src == ps[k].dest) ==> r == Some(Build(ps).vertices)
  {
    BuiltGraphAgrees(ps);
    if forall k :: 0 <= k < |ps| ==> ps[k].src == ps[k].dest {
      SelfPairsBuildNoEdges(ps);
    }
  }

  /** The parity of a token count, stated without nonlinear arithmetic in the caller. */
  lemma Parity(n: nat, k: nat)
    ensures n == 2 * k ==> n % 2 == 0
    ensures n == 2 * k + 1 ==> n % 2 == 1
  {
  }

  /**
   * `run()`: an odd number of tokens is malformed, whatever the complete pairs
   * say; otherwise the outcome is cyclic exactly when the declared precedences
   * contain a cycle, and is an ordering of all items respecting every
   * precedence otherwise.
   */
  method Run(tokens: seq<Vertex>) returns (o: Outcome)
    ensures o.Malformed? <==> |tokens| % 2 == 1
    ensures o.Cyclic? <==> |tokens| % 2 == 0 && HasPairCycle(Chunk(tokens))
    ensures o.Ok? ==> IsOrdering(Chunk(tokens), o.ordering)
    ensures |tokens| % 2 == 0 && (forall k :: 0 <= k < |Chunk(tokens)| ==> Chunk(tokens)[k].src == Chunk(tokens)[k].dest)
      ==> o == Ok(Build(Chunk(tokens)).vertices)
  {
    ghost var ps := Chunk(tokens);
    var sorter := new TopologicalSorter();
    var i := 0;
    ghost var k := 0;
    while i + 1 < |tokens|
      invariant i == 2 * k && i <= |tokens| && k <= |ps|
      invariant sorter.Valid()
      invariant sorter.Model() == Build(ps[..k])
    {
      var src, dest := tokens[i], tokens[i + 1];
      ChunkAt(tokens, k);
      ghost var before := sorter.Model();
      BuildPrefixStep(ps, k, before, Pair(src, dest));
      if src == dest {
        sorter.Add(dest, []);
        assert sorter.Model() == before.Add(dest, []);
      } else {
        sorter.Add(dest, [src]);
        assert sorter.Model() == before.Add(dest, [src]);
      }
      assert sorter.Model() == Step(before, Pair(src, dest));
      i, k := i + 2, k + 1;
    }
    if i < |tokens| {
      // the last chunk holds a single token and cannot be unpacked as a pair
      Parity(|tokens|, k);
      return Malformed;
    }
    Parity(|tokens|, k);
    assert k == |ps| && ps[..k] == ps;
    var r := sorter.StaticOrder();
    SortOutcomeForPairs(ps, r);
    if r.None? {
      return Cyclic;
    }
    o := Ok(r.value);
  }
}
