/** `group_students` of grouping.py, with the clustering call left to the
    caller: the groups it would return are a parameter. */
module Grouping {
  import opened Wrappers
  import opened Names
  import opened Rows
  import opened Graph
  import opened Pairs
  import opened Weights
  import opened Edges
  import opened Report

  /** Every row has a first student, and no later student of the row has
      that student's full name. */
  ghost predicate RequesterFirst(names: seq<seq<string>>)
  {
    forall r :: 0 <= r < |names| ==>
      names[r] != [] && forall j :: 1 <= j < |names[r]| ==> names[r][j] != names[r][0]
  }

  /** The rows `parse_data` returns have that shape. */
  lemma ParsedRequesterFirst(rows: seq<FormRow>)
    requires ParseRows(rows).Ok?
    ensures RequesterFirst(NameRows(ParseRows(rows).value))
  {
    var students := ParseRows(rows).value;
    var names := NameRows(students);
    forall r | 0 <= r < |names|
      ensures names[r] != [] && forall j :: 1 <= j < |names[r]| ==> names[r][j] != names[r][0]
    {
      ParsedRowShape(rows, r);
    }
  }

  /** Graph rows inherit the shape: no row asks for its own first student. */
  lemma NoSelfAsksFromNames(students: seq<seq<Student>>, graph: seq<seq<nat>>, ids: map<string, nat>, rev: map<nat, string>)
    requires RequesterFirst(NameRows(students))
    requires Numbering(FirstSeen(Flatten(NameRows(students))), ids, rev)
    requires |graph| == |students|
    requires forall i :: 0 <= i < |students| ==> RowIds(NameRows(students)[i], ids, graph[i])
    ensures NonEmptyRows(graph) && NoSelfAsks(graph)
  {
    var names := NameRows(students);
    forall r | 0 <= r < |graph| ensures graph[r] != [] {
      assert RowIds(names[r], ids, graph[r]);
    }
    forall r, j | 0 <= r < |graph| && 1 <= j < |graph[r]| ensures graph[r][j] != graph[r][0] {
      SameIdSameName(FirstSeen(Flatten(names)), ids, rev, names[r], graph[r]);
    }
  }

  /** The stages of `group_students` in order: ids, weights, edges, and the
      report of unmet asks against the groups `comps`. */
  method GroupStudents(students: seq<seq<Student>>, comps: seq<seq<nat>>)
    returns (graph: seq<seq<nat>>, ids: map<string, nat>, rev: map<nat, string>,
             weights: WeightMap, edges: seq<Edge>, unmet: seq<Pair>)
    requires forall r :: 0 <= r < |students| ==> students[r] != []
    ensures |graph| == |students|
    ensures forall i :: 0 <= i < |students| ==> RowIds(NameRows(students)[i], ids, graph[i])
    ensures Numbering(FirstSeen(Flatten(NameRows(students))), ids, rev)
    ensures NonEmptyRows(graph) && weights == EdgeWeights(graph)
    ensures FirstEdges(AllPairs(graph), weights) == Ok(edges)
    ensures unmet == Unmet(graph, Matches(comps))
    ensures RequesterFirst(NameRows(students)) ==>
      NoSelfAsks(graph) && forall k :: k in EdgeKeys(edges) <==> k in weights
  {
    graph, ids, rev := MakeGraph(students);
    assert NonEmptyRows(graph) by {
      forall r | 0 <= r < |graph| ensures graph[r] != [] {
        assert RowIds(NameRows(students)[r], ids, graph[r]);
      }
    }
    weights := FindEdgeWeights(graph);
    var res := BuildEdges(graph, weights);
    NeverRaises(graph);
    edges := res.value;
    unmet := UnmetRequests(graph, comps);
    if RequesterFirst(NameRows(students)) {
      NoSelfAsksFromNames(students, graph, ids, rev);
      EdgesMatchWeights(graph);
    }
  }
}
