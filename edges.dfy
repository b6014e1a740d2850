/** The edge list of `group_students` in grouping.py: a second pass over
    the rows that emits one `(a, b, tier)` edge per key, oriented as the key
    is first met, with the tier read off the key's weight. */
module Edges {
  import opened Wrappers
  import opened Pairs
  import opened Weights

  /** One entry of `G`. */
  datatype Edge = Edge(a: nat, b: nat, tier: nat)

  /** The two ways the pass can fail: the dictionary lookup of a key that
      has no weight, and the bare `raise` for a weight below every band. */
  datatype EdgeError = MissingWeight(key: Pair) | NoTier(key: Pair, weight: nat)

  /** The priority of a weight of `w2` half-units: 3.0 and up is 1, 2.0 and
      up is 2, 1.0 and up is 3, exactly 0.5 is 4; nothing else has one. */
  function Tier(w2: nat): (r: Option<nat>)
    ensures r == Some(1) <==> w2 >= 6
    ensures r == Some(2) <==> 4 <= w2 < 6
    ensures r == Some(3) <==> 2 <= w2 < 4
    ensures r == Some(4) <==> w2 == 1
    ensures r == None <==> w2 == 0
  {
    if w2 >= 6 then Some(1)
    else if w2 >= 4 then Some(2)
    else if w2 >= 2 then Some(3)
    else if w2 == 1 then Some(4)
    else None
  }

  /** A heavier edge never gets a worse (larger) tier. */
  lemma TierMonotone(v: nat, w: nat)
    requires 1 <= v <= w
    ensures Tier(v).Some? && Tier(w).Some? && Tier(w).value <= Tier(v).value
  {
  }

  function EdgeKey(e: Edge): Pair
  {
    Key(e.a, e.b)
  }

  /** The keys already in `visited`: those of the edges emitted so far. */
  function EdgeKeys(es: seq<Edge>): set<Pair>
  {
    set e | e in es :: EdgeKey(e)
  }

  /** The pairs of every row, row after row, as the two loops meet them. */
  function AllPairs(graph: seq<seq<nat>>): seq<Pair>
    decreases |graph|
  {
    if graph == [] then [] else AllPairs(graph[..|graph| - 1]) + Combinations(graph[|graph| - 1])
  }

  /** One pair of the inner loop: a self-pair or an already visited key is
      skipped; otherwise the key's weight is looked up and its edge emitted. */
  function EdgeStep(acc: Result<seq<Edge>, EdgeError>, p: Pair, w: WeightMap): Result<seq<Edge>, EdgeError>
  {
    if acc.Err? || p.0 == p.1 || Key(p.0, p.1) in EdgeKeys(acc.value) then acc
    else
      var k := Key(p.0, p.1);
      if k !in w then Err(MissingWeight(k))
      else match Tier(w[k])
        case None => Err(NoTier(k, w[k]))
        case Some(t) => Ok(acc.value + [Edge(p.0, p.1, t)])
  }

  /** The edge list after the pairs `ps`. */
  function FirstEdges(ps: seq<Pair>, w: WeightMap): Result<seq<Edge>, EdgeError>
    decreases |ps|
  {
    if ps == [] then Ok([]) else EdgeStep(FirstEdges(ps[..|ps| - 1], w), ps[|ps| - 1], w)
  }

  lemma EdgeKeysSnoc(es: seq<Edge>, e: Edge)
    ensures EdgeKeys(es + [e]) == EdgeKeys(es) + {EdgeKey(e)}
  {
    assert forall x :: x in es + [e] <==> x in es || x == e;
  }

  lemma FirstEdgesSnoc(ps: seq<Pair>, p: Pair, w: WeightMap)
    ensures FirstEdges(ps + [p], w) == EdgeStep(FirstEdges(ps, w), p, w)
  {
    assert (ps + [p])[..|ps|] == ps;
  }

  /** Once the pass has failed it stays failed, with the same error. */
  lemma {:induction false} FirstEdgesErrStays(ps: seq<Pair>, n: nat, w: WeightMap)
    requires n <= |ps| && FirstEdges(ps[..n], w).Err?
    ensures FirstEdges(ps, w) == FirstEdges(ps[..n], w)
    decreases |ps|
  {
    if n < |ps| {
      assert ps[..|ps| - 1][..n] == ps[..n];
      FirstEdgesErrStays(ps[..|ps| - 1], n, w);
    } else {
      assert ps[..n] == ps;
    }
  }

  /** A pair whose key was not yet visited. */
  predicate FirstOfKey(ps: seq<Pair>, n: nat)
    requires n < |ps|
  {
    && ps[n].0 != ps[n].1
    && forall m :: 0 <= m < n ==> ps[m].0 == ps[m].1 || Key(ps[m].0, ps[m].1) != Key(ps[n].0, ps[n].1)
  }

  /** Every pair of distinct ids has a weight of at least 0.5. */
  ghost predicate Weighed(ps: seq<Pair>, w: WeightMap)
  {
    forall n :: 0 <= n < |ps| && ps[n].0 != ps[n].1 ==>
      Key(ps[n].0, ps[n].1) in w && w[Key(ps[n].0, ps[n].1)] >= 1
  }

  /** The pass fails exactly when some pair of distinct ids has a key with
      no weight of at least 0.5. */
  lemma {:induction false} FirstEdgesOk(ps: seq<Pair>, w: WeightMap)
    ensures FirstEdges(ps, w).Ok? <==> Weighed(ps, w)
    decreases |ps|
  {
    if ps != [] {
      var init := ps[..|ps| - 1];
      FirstEdgesOk(init, w);
      WeighedSnoc(ps, w);
      var p := ps[|ps| - 1];
      if FirstEdges(init, w).Ok? && p.0 != p.1 {
        var es := FirstEdges(init, w).value;
        if Key(p.0, p.1) in EdgeKeys(es) {
          FirstEdgesUnique(init, w);
          var e :| e in es && EdgeKey(e) == Key(p.0, p.1);
          var i :| 0 <= i < |es| && es[i] == e;
        }
      }
    }
  }

  /** Every key of a pair of distinct ids is emitted. */
  lemma {:induction false} FirstEdgesCover(ps: seq<Pair>, w: WeightMap)
    requires FirstEdges(ps, w).Ok?
    ensures forall n :: 0 <= n < |ps| && ps[n].0 != ps[n].1 ==> Key(ps[n].0, ps[n].1) in EdgeKeys(FirstEdges(ps, w).value)
    decreases |ps|
  {
    if ps != [] {
      var init := ps[..|ps| - 1];
      var p := ps[|ps| - 1];
      FirstEdgesCover(init, w);
      var es := FirstEdges(init, w).value;
      assert forall n :: 0 <= n < |init| ==> ps[n] == init[n];
      if p.0 != p.1 && Key(p.0, p.1) !in EdgeKeys(es) {
        EdgeKeysSnoc(es, FirstEdges(ps, w).value[|es|]);
      }
    }
  }

  /** No key is emitted twice, and each edge carries the tier of its key. */
  lemma {:induction false} FirstEdgesUnique(ps: seq<Pair>, w: WeightMap)
    requires FirstEdges(ps, w).Ok?
    ensures var es := FirstEdges(ps, w).value;
      forall i, j :: 0 <= i < j < |es| ==> EdgeKey(es[i]) != EdgeKey(es[j])
    ensures var es := FirstEdges(ps, w).value;
      forall i :: 0 <= i < |es| ==> EdgeKey(es[i]) in w && Tier(w[EdgeKey(es[i])]) == Some(es[i].tier)
    decreases |ps|
  {
    if ps != [] {
      FirstEdgesUnique(ps[..|ps| - 1], w);
    }
  }

  /** `e` is the first pair of its key in `ps`, as it was met. */
  ghost predicate FirstIn(ps: seq<Pair>, e: Edge)
  {
    exists n :: 0 <= n < |ps| && FirstOfKey(ps, n) && ps[n] == (e.a, e.b)
  }

  lemma FirstInSnoc(ps: seq<Pair>, e: Edge)
    requires ps != [] && FirstIn(ps[..|ps| - 1], e)
    ensures FirstIn(ps, e)
  {
    var init := ps[..|ps| - 1];
    var n :| 0 <= n < |init| && FirstOfKey(init, n) && init[n] == (e.a, e.b);
    assert FirstOfKey(ps, n);
  }

  /** Every edge is the first pair of its key, in the orientation met. */
  lemma {:induction false} FirstEdgesFirst(ps: seq<Pair>, w: WeightMap)
    requires FirstEdges(ps, w).Ok?
    ensures var es := FirstEdges(ps, w).value;
      forall i :: 0 <= i < |es| ==> FirstIn(ps, es[i])
    decreases |ps|
  {
    if ps != [] {
      var init := ps[..|ps| - 1];
      var p := ps[|ps| - 1];
      FirstEdgesFirst(init, w);
      var es := FirstEdges(init, w).value;
      forall i | 0 <= i < |es| ensures FirstIn(ps, es[i]) {
        FirstInSnoc(ps, es[i]);
      }
      if p.0 != p.1 && Key(p.0, p.1) !in EdgeKeys(es) {
        FirstEdgesCover(init, w);
        NewKeyIsFirst(ps, es, w);
        assert FirstIn(ps, FirstEdges(ps, w).value[|es|]);
      }
    }
  }

  /** Weighing the pairs one at a time. */
  lemma WeighedSnoc(ps: seq<Pair>, w: WeightMap)
    requires ps != []
    ensures var p := ps[|ps| - 1];
      Weighed(ps, w) <==>
        Weighed(ps[..|ps| - 1], w) && (p.0 != p.1 ==> Key(p.0, p.1) in w && w[Key(p.0, p.1)] >= 1)
  {
    var init := ps[..|ps| - 1];
    assert forall n :: 0 <= n < |init| ==> ps[n] == init[n];
  }

  /** A key not yet visited is new to every pair before it. */
  lemma NewKeyIsFirst(ps: seq<Pair>, es: seq<Edge>, w: WeightMap)
    requires ps != []
    requires FirstEdges(ps[..|ps| - 1], w) == Ok(es)
    requires forall n :: 0 <= n < |ps| - 1 && ps[n].0 != ps[n].1 ==> Key(ps[n].0, ps[n].1) in EdgeKeys(es)
    requires ps[|ps| - 1].0 != ps[|ps| - 1].1 && Key(ps[|ps| - 1].0, ps[|ps| - 1].1) !in EdgeKeys(es)
    ensures FirstOfKey(ps, |ps| - 1)
  {
  }

  // ----- The edges of the finished weights -----

  /** Every pair the second pass meets was met by the first. */
  lemma {:induction false} AllPairsFrom(graph: seq<seq<nat>>, n: nat)
    requires n < |AllPairs(graph)|
    ensures exists r, m ::
      0 <= r < |graph| && 0 <= m < |Combinations(graph[r])| && AllPairs(graph)[n] == Combinations(graph[r])[m]
    decreases |graph|
  {
    var init := graph[..|graph| - 1];
    if n < |AllPairs(init)| {
      AllPairsFrom(init, n);
      var r, m :| 0 <= r < |init| && 0 <= m < |Combinations(init[r])| &&
        AllPairs(init)[n] == Combinations(init[r])[m];
      assert init[r] == graph[r];
    } else {
      var m := n - |AllPairs(init)|;
      assert AllPairs(graph)[n] == Combinations(graph[|graph| - 1])[m];
    }
  }

  /** With the weights the first pass computed, every key the second pass
      looks up has a weight of at least 0.5, so neither the lookup nor the
      bare `raise` can fail. */
  lemma NeverRaises(graph: seq<seq<nat>>)
    requires NonEmptyRows(graph)
    ensures FirstEdges(AllPairs(graph), EdgeWeights(graph)).Ok?
  {
    var ps := AllPairs(graph);
    forall n | 0 <= n < |ps| && ps[n].0 != ps[n].1
      ensures Key(ps[n].0, ps[n].1) in EdgeWeights(graph) && EdgeWeights(graph)[Key(ps[n].0, ps[n].1)] >= 1
    {
      AllPairsFrom(graph, n);
      var r, m :| 0 <= r < |graph| && 0 <= m < |Combinations(graph[r])| &&
        ps[n] == Combinations(graph[r])[m];
      PairWeighed(graph, r, m);
    }
    FirstEdgesOk(ps, EdgeWeights(graph));
  }

  /** A key with weight, other than a student's ask for themself, comes from
      a pair of two distinct ids in some row. */
  lemma {:induction false} WeighedKeyMet(graph: seq<seq<nat>>, k: Pair)
    requires NonEmptyRows(graph) && TotalWeight(graph, k) > 0 && k.0 != k.1
    ensures exists n ::
      0 <= n < |AllPairs(graph)| && AllPairs(graph)[n].0 != AllPairs(graph)[n].1 && Key(AllPairs(graph)[n].0, AllPairs(graph)[n].1) == k
    decreases |graph|
  {
    var init := graph[..|graph| - 1];
    var row := graph[|graph| - 1];
    var ps := AllPairs(graph);
    assert NonEmptyRows(init);
    if TotalWeight(init, k) > 0 {
      WeighedKeyMet(init, k);
      var n :| 0 <= n < |AllPairs(init)| && AllPairs(init)[n].0 != AllPairs(init)[n].1 &&
        Key(AllPairs(init)[n].0, AllPairs(init)[n].1) == k;
      assert ps[n] == AllPairs(init)[n];
    } else {
      var m := RowPairWithKey(row, k);
      assert ps[|AllPairs(init)| + m] == Combinations(row)[m];
    }
  }

  /** A row that gives a key of two distinct ids some weight holds a pair
      with that key. */
  lemma RowPairWithKey(row: seq<nat>, k: Pair) returns (m: nat)
    requires row != [] && RowWeight(row, k) > 0 && k.0 != k.1
    ensures m < |Combinations(row)| && Combinations(row)[m].0 != Combinations(row)[m].1
    ensures Key(Combinations(row)[m].0, Combinations(row)[m].1) == k
  {
    var ps := Combinations(row);
    if CountPairs(ps, k) > 0 {
      m := CountedPair(ps, k);
    } else {
      var j := CountedAsk(row[0], row[1..], k);
      CombinationsMember(row, (row[0], row[j + 1]));
      var n :| 0 <= n < |ps| && ps[n] == (row[0], row[j + 1]);
      m := n;
    }
  }

  /** The edge list holds one edge for every weighed key, except the key of
      a student asking for themself. */
  lemma EdgeKeysOfWeights(graph: seq<seq<nat>>, k: Pair)
    requires NonEmptyRows(graph)
    ensures var es := FirstEdges(AllPairs(graph), EdgeWeights(graph));
      es.Ok? && (k in EdgeKeys(es.value) <==> k in EdgeWeights(graph) && k.0 != k.1)
  {
    var ps := AllPairs(graph);
    var w := EdgeWeights(graph);
    NeverRaises(graph);
    var es := FirstEdges(ps, w).value;
    WeightsKeys(graph);
    if k in EdgeKeys(es) {
      FirstEdgesUnique(ps, w);
      FirstEdgesFirst(ps, w);
      var e :| e in es && EdgeKey(e) == k;
      var i :| 0 <= i < |es| && es[i] == e;
      assert FirstIn(ps, es[i]);
    }
    if k in w && k.0 != k.1 {
      WeighedKeyMet(graph, k);
      FirstEdgesCover(ps, w);
    }
  }

  // ----- The loop -----

  /** The inner loop over one row's pairs, continuing from the edges and
      `visited` keys of the pairs met before. */
  method RowEdges(ghost seen: seq<Pair>, ps: seq<Pair>, w: WeightMap, es: seq<Edge>, visited: set<Pair>)
    returns (r: Result<seq<Edge>, EdgeError>, visited': set<Pair>)
    requires FirstEdges(seen, w) == Ok(es) && visited == EdgeKeys(es)
    ensures r == FirstEdges(seen + ps, w)
    ensures r.Ok? ==> visited' == EdgeKeys(r.value)
  {
    var g := es;
    visited' := visited;
    var j := 0;
    assert seen + ps[..0] == seen;
    while j < |ps|
      invariant 0 <= j <= |ps|
      invariant FirstEdges(seen + ps[..j], w) == Ok(g) && visited' == EdgeKeys(g)
    {
      var edge := ps[j];
      FirstEdgesSnoc(seen + ps[..j], edge, w);
      assert seen + ps[..j + 1] == (seen + ps[..j]) + [edge];
      if edge.0 != edge.1 {
        var key := Key(edge.0, edge.1);
        if key !in visited' {
          if key !in w {
            ErrInRow(seen, ps, j + 1, w);
            return Err(MissingWeight(key)), visited';
          }
          var weight := w[key];
          var priority;
          if weight >= 6 {
            priority := 1;
          } else if weight >= 4 {
            priority := 2;
          } else if weight >= 2 {
            priority := 3;
          } else if weight == 1 {
            priority := 4;
          } else {
            ErrInRow(seen, ps, j + 1, w);
            return Err(NoTier(key, weight)), visited';
          }
          EdgeKeysSnoc(g, Edge(edge.0, edge.1, priority));
          g := g + [Edge(edge.0, edge.1, priority)];
          visited' := visited' + {key};
        }
      }
      j := j + 1;
    }
    assert ps[..j] == ps;
    r := Ok(g);
  }

  lemma ErrInRow(seen: seq<Pair>, ps: seq<Pair>, j: nat, w: WeightMap)
    requires j <= |ps| && FirstEdges(seen + ps[..j], w).Err?
    ensures FirstEdges(seen + ps, w) == FirstEdges(seen + ps[..j], w)
  {
    assert (seen + ps)[..|seen| + j] == seen + ps[..j];
    FirstEdgesErrStays(seen + ps, |seen| + j, w);
  }

  /** "Run it again but this time create edges": the second pass over the
      rows, with `edge_weights` from the first. */
  method BuildEdges(graph: seq<seq<nat>>, w: WeightMap) returns (r: Result<seq<Edge>, EdgeError>)
    ensures r == FirstEdges(AllPairs(graph), w)
  {
    var g: seq<Edge> := [];
    var visited: set<Pair> := {};
    var i := 0;
    while i < |graph|
      invariant 0 <= i <= |graph|
      invariant FirstEdges(AllPairs(graph[..i]), w) == Ok(g) && visited == EdgeKeys(g)
    {
      assert graph[..i + 1][..i] == graph[..i];
      var row := graph[i];
      var res;
      res, visited := RowEdges(AllPairs(graph[..i]), Combinations(row), w, g, visited);
      if res.Err? {
        ErrAfterRows(graph, i + 1, w);
        return res;
      }
      g := res.value;
      i := i + 1;
    }
    assert graph[..i] == graph;
    r := Ok(g);
  }

  lemma ErrAfterRows(graph: seq<seq<nat>>, i: nat, w: WeightMap)
    requires i <= |graph| && FirstEdges(AllPairs(graph[..i]), w).Err?
    ensures FirstEdges(AllPairs(graph), w) == FirstEdges(AllPairs(graph[..i]), w)
  {
    AllPairsPrefix(graph, i);
    FirstEdgesErrStays(AllPairs(graph), |AllPairs(graph[..i])|, w);
  }

  lemma {:induction false} AllPairsPrefix(graph: seq<seq<nat>>, i: nat)
    requires i <= |graph|
    ensures |AllPairs(graph[..i])| <= |AllPairs(graph)|
    ensures AllPairs(graph)[..|AllPairs(graph[..i])|] == AllPairs(graph[..i])
    decreases |graph|
  {
    if i == |graph| {
      assert graph[..i] == graph;
    } else {
      var init := graph[..|graph| - 1];
      assert init[..i] == graph[..i];
      AllPairsPrefix(init, i);
    }
  }

  /** Without self-asks the edge list holds exactly one edge per key of the
      weights. */
  lemma EdgesMatchWeights(graph: seq<seq<nat>>)
    requires NonEmptyRows(graph) && NoSelfAsks(graph)
    ensures FirstEdges(AllPairs(graph), EdgeWeights(graph)).Ok?
    ensures forall k :: k in EdgeKeys(FirstEdges(AllPairs(graph), EdgeWeights(graph)).value) <==> k in EdgeWeights(graph)
  {
    NeverRaises(graph);
    NoSelfKeys(graph);
    forall k ensures k in EdgeKeys(FirstEdges(AllPairs(graph), EdgeWeights(graph)).value) <==> k in EdgeWeights(graph) {
      EdgeKeysOfWeights(graph, k);
    }
  }
}
