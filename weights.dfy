/** The edge weights of `group_students` in grouping.py. Every pair of
    distinct ids that share a row adds 0.5, and every ask from a row's first
    student to one of the others adds another 0.5. Weights are kept in
    half-units, so 0.5 is 1 and 1.0 is 2. */
module Weights {
  import opened Pairs
  import Graph

  /** `edge_weights`: key to weight, in half-units. */
  type WeightMap = map<Pair, nat>

  /** `edge_weights.get(k, 0)`. */
  function Get(w: WeightMap, k: Pair): nat
  {
    if k in w then w[k] else 0
  }

  /** `edge_weights[k] = edge_weights.get(k, 0) + 0.5`. */
  function Bump(w: WeightMap, k: Pair): WeightMap
  {
    w[k := Get(w, k) + 1]
  }

  lemma GetBump(w: WeightMap, k: Pair, k': Pair)
    ensures Get(Bump(w, k), k') == Get(w, k') + (if k' == k then 1 else 0)
  {
  }

  /** The loop over `combinations`: every pair of distinct ids bumps its key. */
  function AddPairs(w: WeightMap, ps: seq<Pair>): WeightMap
    decreases |ps|
  {
    if ps == [] then w
    else
      var p := ps[|ps| - 1];
      var prev := AddPairs(w, ps[..|ps| - 1]);
      if p.0 == p.1 then prev else Bump(prev, Key(p.0, p.1))
  }

  /** The loop over `row[1:]`: every ask of `main` bumps its key, with no
      check that the two ids differ. */
  function AddAsks(w: WeightMap, main: nat, ys: seq<nat>): WeightMap
    decreases |ys|
  {
    if ys == [] then w else Bump(AddAsks(w, main, ys[..|ys| - 1]), Key(main, ys[|ys| - 1]))
  }

  /** `row[0]` is read for every row, so every row must have one. */
  predicate NonEmptyRows(graph: seq<seq<nat>>)
  {
    forall r :: 0 <= r < |graph| ==> graph[r] != []
  }

  /** What one row adds to the weights. */
  function AddRow(w: WeightMap, row: seq<nat>): WeightMap
    requires row != []
  {
    AddAsks(AddPairs(w, Combinations(row)), row[0], row[1..])
  }

  /** The weights after all rows, starting from the empty dictionary. */
  function EdgeWeights(graph: seq<seq<nat>>): WeightMap
    requires NonEmptyRows(graph)
    decreases |graph|
  {
    if graph == [] then map[] else AddRow(EdgeWeights(graph[..|graph| - 1]), graph[|graph| - 1])
  }

  // ----- An independent count of the same weights -----

  /** How many pairs of `ps` join two distinct ids with key `k`. */
  function CountPairs(ps: seq<Pair>, k: Pair): nat
    decreases |ps|
  {
    if ps == [] then 0
    else
      var p := ps[|ps| - 1];
      CountPairs(ps[..|ps| - 1], k) + (if p.0 != p.1 && Key(p.0, p.1) == k then 1 else 0)
  }

  /** How many asks of `main` to one of `ys` have key `k`. */
  function CountAsks(main: nat, ys: seq<nat>, k: Pair): nat
    decreases |ys|
  {
    if ys == [] then 0
    else CountAsks(main, ys[..|ys| - 1], k) + (if Key(main, ys[|ys| - 1]) == k then 1 else 0)
  }

  /** The half-units one row gives key `k`. */
  function RowWeight(row: seq<nat>, k: Pair): nat
    requires row != []
  {
    CountPairs(Combinations(row), k) + CountAsks(row[0], row[1..], k)
  }

  /** The half-units all rows give key `k`. */
  function TotalWeight(graph: seq<seq<nat>>, k: Pair): nat
    requires NonEmptyRows(graph)
    decreases |graph|
  {
    if graph == [] then 0
    else TotalWeight(graph[..|graph| - 1], k) + RowWeight(graph[|graph| - 1], k)
  }

  lemma {:induction false} AddPairsCount(w: WeightMap, ps: seq<Pair>, k: Pair)
    ensures Get(AddPairs(w, ps), k) == Get(w, k) + CountPairs(ps, k)
    decreases |ps|
  {
    if ps != [] {
      var p := ps[|ps| - 1];
      AddPairsCount(w, ps[..|ps| - 1], k);
      if p.0 != p.1 {
        GetBump(AddPairs(w, ps[..|ps| - 1]), Key(p.0, p.1), k);
      }
    }
  }

  lemma {:induction false} AddAsksCount(w: WeightMap, main: nat, ys: seq<nat>, k: Pair)
    ensures Get(AddAsks(w, main, ys), k) == Get(w, k) + CountAsks(main, ys, k)
    decreases |ys|
  {
    if ys != [] {
      AddAsksCount(w, main, ys[..|ys| - 1], k);
      GetBump(AddAsks(w, main, ys[..|ys| - 1]), Key(main, ys[|ys| - 1]), k);
    }
  }

  /** The weight of every key is the sum, over the rows, of what each row
      gives it. */
  lemma {:induction false} WeightsCount(graph: seq<seq<nat>>, k: Pair)
    requires NonEmptyRows(graph)
    ensures Get(EdgeWeights(graph), k) == TotalWeight(graph, k)
    decreases |graph|
  {
    if graph != [] {
      var init := graph[..|graph| - 1];
      var row := graph[|graph| - 1];
      WeightsCount(init, k);
      AddPairsCount(EdgeWeights(init), Combinations(row), k);
      AddAsksCount(AddPairs(EdgeWeights(init), Combinations(row)), row[0], row[1..], k);
    }
  }

  // ----- Shape of the dictionary -----

  /** Every stored key is sorted and every stored weight is at least 0.5. */
  ghost predicate WellFormed(w: WeightMap)
  {
    forall k :: k in w ==> k.0 <= k.1 && w[k] > 0
  }

  lemma {:induction false} AddPairsWellFormed(w: WeightMap, ps: seq<Pair>)
    requires WellFormed(w)
    ensures WellFormed(AddPairs(w, ps))
    decreases |ps|
  {
    if ps != [] {
      AddPairsWellFormed(w, ps[..|ps| - 1]);
    }
  }

  lemma {:induction false} AddAsksWellFormed(w: WeightMap, main: nat, ys: seq<nat>)
    requires WellFormed(w)
    ensures WellFormed(AddAsks(w, main, ys))
    decreases |ys|
  {
    if ys != [] {
      AddAsksWellFormed(w, main, ys[..|ys| - 1]);
    }
  }

  /** The finished dictionary holds sorted keys with positive weights, and a
      key is present exactly when some row gives it weight. */
  lemma {:induction false} WeightsKeys(graph: seq<seq<nat>>)
    requires NonEmptyRows(graph)
    ensures WellFormed(EdgeWeights(graph))
    ensures forall k :: k in EdgeWeights(graph) <==> TotalWeight(graph, k) > 0
    decreases |graph|
  {
    if graph != [] {
      var init := graph[..|graph| - 1];
      var row := graph[|graph| - 1];
      WeightsKeys(init);
      AddPairsWellFormed(EdgeWeights(init), Combinations(row));
      AddAsksWellFormed(AddPairs(EdgeWeights(init), Combinations(row)), row[0], row[1..]);
    }
    forall k ensures k in EdgeWeights(graph) <==> TotalWeight(graph, k) > 0 {
      WeightsCount(graph, k);
    }
  }

  /** Processing more rows never lowers a weight. */
  lemma WeightsGrow(graph: seq<seq<nat>>, i: nat, k: Pair)
    requires NonEmptyRows(graph) && i <= |graph|
    ensures Get(EdgeWeights(graph[..i]), k) <= Get(EdgeWeights(graph), k)
  {
    assert NonEmptyRows(graph[..i]);
    WeightsCount(graph[..i], k);
    WeightsCount(graph, k);
    TotalWeightPrefix(graph, i, k);
  }

  lemma {:induction false} TotalWeightPrefix(graph: seq<seq<nat>>, i: nat, k: Pair)
    requires NonEmptyRows(graph) && i <= |graph|
    ensures NonEmptyRows(graph[..i]) && TotalWeight(graph[..i], k) <= TotalWeight(graph, k)
    decreases |graph|
  {
    if i == |graph| {
      assert graph[..i] == graph;
    } else {
      var init := graph[..|graph| - 1];
      assert init[..i] == graph[..i];
      TotalWeightPrefix(init, i, k);
    }
  }

  // ----- What one row adds when its ids are distinct -----

  /** `k` is the key of an ask from `main` to one of `ys`. */
  predicate AskedBy(main: nat, ys: seq<nat>, k: Pair)
  {
    exists j :: 0 <= j < |ys| && Key(main, ys[j]) == k
  }

  /** `k` is the key of two ids that both appear in `ys`. */
  predicate Together(ys: seq<nat>, k: Pair)
  {
    exists i, j :: 0 <= i < j < |ys| && Key(ys[i], ys[j]) == k
  }

  lemma {:induction false} CountAsksDistinct(main: nat, ys: seq<nat>, k: Pair)
    requires Graph.Distinct(ys)
    ensures CountAsks(main, ys, k) == if AskedBy(main, ys, k) then 1 else 0
    decreases |ys|
  {
    if ys != [] {
      var init := ys[..|ys| - 1];
      var y := ys[|ys| - 1];
      CountAsksDistinct(main, init, k);
      if Key(main, y) == k {
        if AskedBy(main, init, k) {
          var j :| 0 <= j < |init| && Key(main, init[j]) == k;
          KeyIff(main, y, main, init[j]);
          assert false;
        }
      }
      if AskedBy(main, ys, k) {
        var j :| 0 <= j < |ys| && Key(main, ys[j]) == k;
        if j < |init| {
          assert Key(main, init[j]) == k;
        }
      }
    }
  }

  lemma {:induction false} CountPairsAppend(ps: seq<Pair>, qs: seq<Pair>, k: Pair)
    ensures CountPairs(ps + qs, k) == CountPairs(ps, k) + CountPairs(qs, k)
    decreases |qs|
  {
    if qs != [] {
      CountPairsAppend(ps, qs[..|qs| - 1], k);
      assert (ps + qs)[..|ps + qs| - 1] == ps + qs[..|qs| - 1];
      assert (ps + qs)[|ps + qs| - 1] == qs[|qs| - 1];
    } else {
      assert ps + qs == ps;
    }
  }

  /** When `x` is not among `ys`, the pairs `(x, y)` count as the asks of `x`. */
  lemma {:induction false} FanCount(x: nat, ys: seq<nat>, k: Pair)
    requires x !in ys
    ensures CountPairs(Fan(x, ys), k) == CountAsks(x, ys, k)
    decreases |ys|
  {
    if ys != [] {
      var init := ys[..|ys| - 1];
      FanCount(x, init, k);
      assert Fan(x, ys)[..|ys| - 1] == Fan(x, init);
    }
  }

  /** With distinct ids, each pair of them is counted once. */
  lemma {:induction false} CombinationsCountDistinct(row: seq<nat>, k: Pair)
    requires Graph.Distinct(row)
    ensures CountPairs(Combinations(row), k) == if Together(row, k) then 1 else 0
    decreases |row|
  {
    if row != [] {
      var rest := row[1..];
      assert Graph.Distinct(rest) by {
        forall i, j | 0 <= i < j < |rest| ensures rest[i] != rest[j] {
          assert rest[i] == row[i + 1] && rest[j] == row[j + 1];
        }
      }
      assert row[0] !in rest by {
        forall j | 0 <= j < |rest| ensures rest[j] != row[0] {
          assert rest[j] == row[j + 1];
        }
      }
      CountPairsAppend(Fan(row[0], rest), Combinations(rest), k);
      FanCount(row[0], rest, k);
      CountAsksDistinct(row[0], rest, k);
      CombinationsCountDistinct(rest, k);
      TogetherSplit(row, k);
    }
  }

  /** A pair within a row either involves its first id or lies within the
      rest, and with distinct ids not both. */
  lemma TogetherSplit(row: seq<nat>, k: Pair)
    requires row != [] && Graph.Distinct(row)
    ensures Together(row, k) <==> AskedBy(row[0], row[1..], k) || Together(row[1..], k)
    ensures !(AskedBy(row[0], row[1..], k) && Together(row[1..], k))
  {
    if AskedBy(row[0], row[1..], k) || Together(row[1..], k) {
      TogetherFromParts(row, k);
    }
    if Together(row, k) {
      TogetherToParts(row, k);
    }
    FirstNotTogether(row, k);
  }

  lemma TogetherToParts(row: seq<nat>, k: Pair)
    requires row != [] && Together(row, k)
    ensures AskedBy(row[0], row[1..], k) || Together(row[1..], k)
  {
    var rest := row[1..];
    var i, j :| 0 <= i < j < |row| && Key(row[i], row[j]) == k;
    if i == 0 {
      assert Key(row[0], rest[j - 1]) == k;
    } else {
      assert Key(rest[i - 1], rest[j - 1]) == k;
    }
  }

  lemma TogetherFromParts(row: seq<nat>, k: Pair)
    requires row != [] && (AskedBy(row[0], row[1..], k) || Together(row[1..], k))
    ensures Together(row, k)
  {
    var rest := row[1..];
    if AskedBy(row[0], rest, k) {
      var j :| 0 <= j < |rest| && Key(row[0], rest[j]) == k;
      assert Key(row[0], row[j + 1]) == k;
    } else {
      var i, j :| 0 <= i < j < |rest| && Key(rest[i], rest[j]) == k;
      assert Key(row[i + 1], row[j + 1]) == k;
    }
  }

  lemma FirstNotTogether(row: seq<nat>, k: Pair)
    requires row != [] && Graph.Distinct(row)
    ensures !(AskedBy(row[0], row[1..], k) && Together(row[1..], k))
  {
  }

  /** For a row of distinct ids, a key gets 1.0 when the first student asks
      for the other, 0.5 when both were asked for by the same student, and
      nothing otherwise. */
  lemma RowWeightDistinct(row: seq<nat>, k: Pair)
    requires row != [] && Graph.Distinct(row)
    ensures RowWeight(row, k) ==
      if AskedBy(row[0], row[1..], k) then 2
      else if Together(row[1..], k) then 1
      else 0
  {
    CombinationsCountDistinct(row, k);
    CountAsksDistinct(row[0], row[1..], k);
    TogetherSplit(row, k);
  }

  // ----- Every counted pair is in the dictionary -----

  lemma {:induction false} CountPairsMember(ps: seq<Pair>, n: nat)
    requires n < |ps| && ps[n].0 != ps[n].1
    ensures CountPairs(ps, Key(ps[n].0, ps[n].1)) >= 1
    decreases |ps|
  {
    if n < |ps| - 1 {
      CountPairsMember(ps[..|ps| - 1], n);
    }
  }

  lemma {:induction false} TotalWeightAtLeast(graph: seq<seq<nat>>, r: nat, k: Pair)
    requires NonEmptyRows(graph) && r < |graph|
    ensures TotalWeight(graph, k) >= RowWeight(graph[r], k)
    decreases |graph|
  {
    if r < |graph| - 1 {
      TotalWeightAtLeast(graph[..|graph| - 1], r, k);
    }
  }

  /** Every pair of distinct ids produced by `combinations` on some row has
      a weight of at least 0.5. */
  lemma PairWeighed(graph: seq<seq<nat>>, r: nat, n: nat)
    requires NonEmptyRows(graph) && r < |graph| && n < |Combinations(graph[r])|
    requires Combinations(graph[r])[n].0 != Combinations(graph[r])[n].1
    ensures var p := Combinations(graph[r])[n];
      Key(p.0, p.1) in EdgeWeights(graph) && EdgeWeights(graph)[Key(p.0, p.1)] >= 1
  {
    var p := Combinations(graph[r])[n];
    CountPairsMember(Combinations(graph[r]), n);
    TotalWeightAtLeast(graph, r, Key(p.0, p.1));
    WeightsCount(graph, Key(p.0, p.1));
  }

  // ----- Where a weight comes from -----

  /** A counted pair is a pair of distinct ids with that key. */
  lemma {:induction false} CountedPair(ps: seq<Pair>, k: Pair) returns (m: nat)
    requires CountPairs(ps, k) > 0
    ensures m < |ps| && ps[m].0 != ps[m].1 && Key(ps[m].0, ps[m].1) == k
    decreases |ps|
  {
    var p := ps[|ps| - 1];
    if p.0 != p.1 && Key(p.0, p.1) == k {
      m := |ps| - 1;
    } else {
      m := CountedPair(ps[..|ps| - 1], k);
    }
  }

  /** A counted ask is an ask with that key. */
  lemma {:induction false} CountedAsk(main: nat, ys: seq<nat>, k: Pair) returns (j: nat)
    requires CountAsks(main, ys, k) > 0
    ensures j < |ys| && Key(main, ys[j]) == k
    decreases |ys|
  {
    if Key(main, ys[|ys| - 1]) == k {
      j := |ys| - 1;
    } else {
      j := CountedAsk(main, ys[..|ys| - 1], k);
    }
  }

  /** No row lists its first student again. */
  predicate NoSelfAsks(graph: seq<seq<nat>>)
  {
    forall r, j :: 0 <= r < |graph| && 1 <= j < |graph[r]| ==> graph[r][j] != graph[r][0]
  }

  /** Without self-asks no key joins an id to itself, so every key in the
      dictionary joins two distinct ids, the smaller first. */
  lemma {:induction false} NoSelfKeys(graph: seq<seq<nat>>)
    requires NonEmptyRows(graph) && NoSelfAsks(graph)
    ensures forall k :: k in EdgeWeights(graph) ==> k.0 < k.1
  {
    WeightsKeys(graph);
    forall k: Pair | k.0 == k.1 ensures TotalWeight(graph, k) == 0 {
      SelfKeyUnweighed(graph, k);
    }
  }

  lemma {:induction false} SelfKeyUnweighed(graph: seq<seq<nat>>, k: Pair)
    requires NonEmptyRows(graph) && NoSelfAsks(graph) && k.0 == k.1
    ensures TotalWeight(graph, k) == 0
    decreases |graph|
  {
    if graph != [] {
      var init := graph[..|graph| - 1];
      var row := graph[|graph| - 1];
      assert NonEmptyRows(init) && NoSelfAsks(init) by {
        assert forall r :: 0 <= r < |init| ==> init[r] == graph[r];
      }
      SelfKeyUnweighed(init, k);
      if CountPairs(Combinations(row), k) > 0 {
        var m := CountedPair(Combinations(row), k);
        assert false;
      }
      if CountAsks(row[0], row[1..], k) > 0 {
        var j := CountedAsk(row[0], row[1..], k);
        assert false;
      }
    }
  }

  // ----- Two small cases -----

  /** A student who names the same classmate twice: both asks count, so the
      pair weighs 2.0 (4 half-units) from a single row. */
  lemma RepeatedAskCountsTwice()
    ensures Get(EdgeWeights([[0, 1, 1]]), (0, 1)) == 4
    ensures (1, 1) !in EdgeWeights([[0, 1, 1]])
  {
    RepeatedAskRow();
    assert [[0, 1, 1]][..0] == [];
    WeightsCount([[0, 1, 1]], (0, 1));
    WeightsCount([[0, 1, 1]], (1, 1));
    WeightsKeys([[0, 1, 1]]);
  }

  lemma RepeatedAskRow()
    ensures RowWeight([0, 1, 1], (0, 1)) == 4 && RowWeight([0, 1, 1], (1, 1)) == 0
  {
    var row := [0, 1, 1];
    RepeatedAskPairs();
    assert row[1..] == [1, 1] && row[1..][..1] == [1];
    assert CountAsks(0, [1, 1], (0, 1)) == 2 && CountAsks(0, [1, 1], (1, 1)) == 0;
  }

  lemma RepeatedAskPairs()
    ensures CountPairs(Combinations([0, 1, 1]), (0, 1)) == 2
    ensures CountPairs(Combinations([0, 1, 1]), (1, 1)) == 0
  {
    var row := [0, 1, 1];
    assert Combinations(row[2..]) == [];
    assert Combinations(row[1..]) == [(1, 1)];
    var ps := Combinations(row);
    assert ps == [(0, 1), (0, 1), (1, 1)];
    var p1: seq<Pair>, p2: seq<Pair> := [(0, 1)], [(0, 1), (0, 1)];
    assert p2[..1] == p1 && ps[..2] == p2;
    assert CountPairs(p1, (0, 1)) == 1 && CountPairs(p1, (1, 1)) == 0;
    assert CountPairs(p2, (0, 1)) == 2 && CountPairs(p2, (1, 1)) == 0;
  }

  /** Two students who ask for each other: 1.0 from each row. */
  lemma MutualAsk()
    ensures Get(EdgeWeights([[0, 1], [1, 0]]), (0, 1)) == 4
  {
    var g := [[0, 1], [1, 0]];
    assert g[..1] == [[0, 1]];
    RowWeightDistinct([0, 1], (0, 1));
    RowWeightDistinct([1, 0], (0, 1));
    assert AskedBy(0, [1], (0, 1));
    assert AskedBy(1, [0], (0, 1));
    WeightsCount(g, (0, 1));
  }

  // ----- The loops -----

  method BumpPairs(w: WeightMap, ps: seq<Pair>) returns (w': WeightMap)
    ensures w' == AddPairs(w, ps)
  {
    w' := w;
    var j := 0;
    while j < |ps|
      invariant 0 <= j <= |ps|
      invariant w' == AddPairs(w, ps[..j])
    {
      assert ps[..j + 1][..j] == ps[..j];
      var edge := ps[j];
      if edge.0 != edge.1 {
        var key := Key(edge.0, edge.1);
        w' := w'[key := Get(w', key) + 1];
      }
      j := j + 1;
    }
    assert ps[..j] == ps;
  }

  method BumpAsks(w: WeightMap, main: nat, ys: seq<nat>) returns (w': WeightMap)
    ensures w' == AddAsks(w, main, ys)
  {
    w' := w;
    var j := 0;
    while j < |ys|
      invariant 0 <= j <= |ys|
      invariant w' == AddAsks(w, main, ys[..j])
    {
      assert ys[..j + 1][..j] == ys[..j];
      var key := Key(main, ys[j]);
      w' := w'[key := Get(w', key) + 1];
      j := j + 1;
    }
    assert ys[..j] == ys;
  }

  /** "Find edge weights": both loops over every row. */
  method FindEdgeWeights(graph: seq<seq<nat>>) returns (w: WeightMap)
    requires NonEmptyRows(graph)
    ensures w == EdgeWeights(graph)
  {
    w := map[];
    var i := 0;
    while i < |graph|
      invariant 0 <= i <= |graph|
      invariant w == EdgeWeights(graph[..i])
    {
      var row := graph[i];
      assert graph[..i + 1][..i] == graph[..i];
      w := BumpPairs(w, Combinations(row));
      w := BumpAsks(w, row[0], row[1..]);
      i := i + 1;
    }
    assert graph[..i] == graph;
  }
}
