/** The end of `group_students` in grouping.py: the ordered pairs of
    students placed in the same group, and the asks that no group met. The
    groups come from the clustering library, which is not part of this
    model; they are a parameter here. */
module Report {
  import opened Pairs
  import opened Weights

  /** Both orientations of every pair of `ps`, added to `m`. */
  function BothWays(m: set<Pair>, ps: seq<Pair>): set<Pair>
    decreases |ps|
  {
    if ps == [] then m
    else
      var p := ps[|ps| - 1];
      BothWays(m, ps[..|ps| - 1]) + {p, (p.1, p.0)}
  }

  /** `student_matches`: the keys `"a-b"` of the loop over the groups. */
  function Matches(comps: seq<seq<nat>>): set<Pair>
    decreases |comps|
  {
    if comps == [] then {} else BothWays(Matches(comps[..|comps| - 1]), Combinations(comps[|comps| - 1]))
  }

  /** `a` and `b` sit at two different places of one group. */
  ghost predicate Grouped(comps: seq<seq<nat>>, a: nat, b: nat)
  {
    exists c, i, j :: 0 <= c < |comps| && 0 <= i < |comps[c]| && 0 <= j < |comps[c]| && i != j &&
      comps[c][i] == a && comps[c][j] == b
  }

  lemma {:induction false} BothWaysIff(m: set<Pair>, ps: seq<Pair>, a: nat, b: nat)
    ensures (a, b) in BothWays(m, ps) <==> (a, b) in m || (a, b) in ps || (b, a) in ps
    decreases |ps|
  {
    if ps != [] {
      var init := ps[..|ps| - 1];
      BothWaysIff(m, init, a, b);
      assert ps == init + [ps[|ps| - 1]];
    }
  }

  /** An ordered pair is a match exactly when both students are in one
      group. */
  lemma {:induction false} MatchesIff(comps: seq<seq<nat>>, a: nat, b: nat)
    ensures (a, b) in Matches(comps) <==> Grouped(comps, a, b)
    decreases |comps|
  {
    if comps != [] {
      var init := comps[..|comps| - 1];
      var c := comps[|comps| - 1];
      MatchesIff(init, a, b);
      BothWaysIff(Matches(init), Combinations(c), a, b);
      CombinationsMember(c, (a, b));
      CombinationsMember(c, (b, a));
      if Grouped(comps, a, b) {
        var r, i, j :| 0 <= r < |comps| && 0 <= i < |comps[r]| && 0 <= j < |comps[r]| && i != j &&
          comps[r][i] == a && comps[r][j] == b;
        if r < |init| {
          assert init[r] == comps[r];
        } else if i < j {
          assert (a, b) == (c[i], c[j]);
        } else {
          assert (b, a) == (c[j], c[i]);
        }
      }
      if Grouped(init, a, b) {
        var r, i, j :| 0 <= r < |init| && 0 <= i < |init[r]| && 0 <= j < |init[r]| && i != j &&
          init[r][i] == a && init[r][j] == b;
        assert comps[r] == init[r];
      }
      if (a, b) in Combinations(c) {
        var i, j :| 0 <= i < j < |c| && (a, b) == (c[i], c[j]);
        assert comps[|comps| - 1][i] == a && comps[|comps| - 1][j] == b;
      }
      if (b, a) in Combinations(c) {
        var i, j :| 0 <= i < j < |c| && (b, a) == (c[i], c[j]);
        assert comps[|comps| - 1][j] == a && comps[|comps| - 1][i] == b;
      }
    }
  }

  /** The pairs of `ps` that are not in `m`, in order and with repeats. */
  function Missing(ps: seq<Pair>, m: set<Pair>): seq<Pair>
    decreases |ps|
  {
    if ps == [] then []
    else
      var p := ps[|ps| - 1];
      Missing(ps[..|ps| - 1], m) + (if p in m then [] else [p])
  }

  /** The asks of every row, `(row[0], student)` for each later student. */
  function Asks(graph: seq<seq<nat>>): seq<Pair>
    requires NonEmptyRows(graph)
    decreases |graph|
  {
    if graph == [] then []
    else
      var row := graph[|graph| - 1];
      Asks(graph[..|graph| - 1]) + Fan(row[0], row[1..])
  }

  /** The report: every ask whose ordered pair is not a match, row by row. */
  function Unmet(graph: seq<seq<nat>>, m: set<Pair>): seq<Pair>
    requires NonEmptyRows(graph)
    decreases |graph|
  {
    if graph == [] then []
    else
      var row := graph[|graph| - 1];
      Unmet(graph[..|graph| - 1], m) + Missing(Fan(row[0], row[1..]), m)
  }

  lemma {:induction false} MissingAppend(ps: seq<Pair>, qs: seq<Pair>, m: set<Pair>)
    ensures Missing(ps + qs, m) == Missing(ps, m) + Missing(qs, m)
    decreases |qs|
  {
    if qs == [] {
      assert ps + qs == ps;
    } else {
      MissingAppend(ps, qs[..|qs| - 1], m);
      assert (ps + qs)[..|ps + qs| - 1] == ps + qs[..|qs| - 1];
      assert (ps + qs)[|ps + qs| - 1] == qs[|qs| - 1];
    }
  }

  /** The report is the asks with the matched ones filtered out. */
  lemma {:induction false} UnmetFilters(graph: seq<seq<nat>>, m: set<Pair>)
    requires NonEmptyRows(graph)
    ensures Unmet(graph, m) == Missing(Asks(graph), m)
    decreases |graph|
  {
    if graph != [] {
      var init := graph[..|graph| - 1];
      var row := graph[|graph| - 1];
      UnmetFilters(init, m);
      MissingAppend(Asks(init), Fan(row[0], row[1..]), m);
    }
  }

  /** Filtering keeps each unmatched pair as many times as it occurs and
      drops each matched one entirely. */
  lemma {:induction false} MissingCount(ps: seq<Pair>, m: set<Pair>, p: Pair)
    ensures multiset(Missing(ps, m))[p] == if p in m then 0 else multiset(ps)[p]
    decreases |ps|
  {
    if ps != [] {
      var init := ps[..|ps| - 1];
      var q := ps[|ps| - 1];
      MissingCount(init, m, p);
      assert ps == init + [q];
      assert multiset(ps) == multiset(init) + multiset{q};
      assert multiset(Missing(ps, m)) == multiset(Missing(init, m)) + (if q in m then multiset{} else multiset{q});
    }
  }

  /** `(a, b)` is the ask of some row's first student `a` for `b`. */
  ghost predicate Asked(graph: seq<seq<nat>>, a: nat, b: nat)
  {
    exists r, j :: 0 <= r < |graph| && 1 <= j < |graph[r]| && graph[r][0] == a && graph[r][j] == b
  }

  lemma {:induction false} AsksIff(graph: seq<seq<nat>>, a: nat, b: nat)
    requires NonEmptyRows(graph)
    ensures (a, b) in Asks(graph) <==> Asked(graph, a, b)
    decreases |graph|
  {
    if graph != [] {
      var init := graph[..|graph| - 1];
      var row := graph[|graph| - 1];
      AsksIff(init, a, b);
      if (a, b) in Fan(row[0], row[1..]) {
        var j :| 0 <= j < |row[1..]| && Fan(row[0], row[1..])[j] == (a, b);
        assert graph[|graph| - 1][j + 1] == b;
      }
      if Asked(graph, a, b) {
        var r, j :| 0 <= r < |graph| && 1 <= j < |graph[r]| && graph[r][0] == a && graph[r][j] == b;
        if r < |init| {
          assert init[r] == graph[r];
        } else {
          assert Fan(row[0], row[1..])[j - 1] == (a, b);
        }
      }
      if Asked(init, a, b) {
        var r, j :| 0 <= r < |init| && 1 <= j < |init[r]| && init[r][0] == a && init[r][j] == b;
        assert graph[r] == init[r];
      }
    }
  }

  /** An ask is reported exactly when its two students share no group, and
      it is reported as many times as it was asked. */
  lemma UnmetSpec(graph: seq<seq<nat>>, comps: seq<seq<nat>>, a: nat, b: nat)
    requires NonEmptyRows(graph)
    ensures (a, b) in Unmet(graph, Matches(comps)) <==> Asked(graph, a, b) && !Grouped(comps, a, b)
    ensures multiset(Unmet(graph, Matches(comps)))[(a, b)] ==
      if Grouped(comps, a, b) then 0 else multiset(Asks(graph))[(a, b)]
  {
    UnmetFilters(graph, Matches(comps));
    MissingCount(Asks(graph), Matches(comps), (a, b));
    MatchesIff(comps, a, b);
    AsksIff(graph, a, b);
  }

  /** A student who names the same classmate twice, with no groups formed,
      is reported twice. */
  lemma RepeatedAskReportedTwice()
    ensures Unmet([[0, 1, 1]], Matches([])) == [(0, 1), (0, 1)]
  {
    var fan := Fan(0, [0, 1, 1][1..]);
    assert fan == [(0, 1), (0, 1)];
    assert fan[..1] == [(0, 1)];
    assert Matches([]) == {};
    assert Missing([(0, 1)], {}) == [(0, 1)];
    assert Missing(fan, {}) == fan;
    assert [[0, 1, 1]][..0] == [];
  }

  // ----- The loops -----

  method AddMatches(m: set<Pair>, ps: seq<Pair>) returns (m': set<Pair>)
    ensures m' == BothWays(m, ps)
  {
    m' := m;
    var j := 0;
    while j < |ps|
      invariant 0 <= j <= |ps|
      invariant m' == BothWays(m, ps[..j])
    {
      assert ps[..j + 1][..j] == ps[..j];
      var edge := ps[j];
      m' := m' + {(edge.0, edge.1)};
      m' := m' + {(edge.1, edge.0)};
      j := j + 1;
    }
    assert ps[..j] == ps;
  }

  /** "Get all student matches". */
  method StudentMatches(comps: seq<seq<nat>>) returns (m: set<Pair>)
    ensures m == Matches(comps)
  {
    m := {};
    var i := 0;
    while i < |comps|
      invariant 0 <= i <= |comps|
      invariant m == Matches(comps[..i])
    {
      assert comps[..i + 1][..i] == comps[..i];
      m := AddMatches(m, Combinations(comps[i]));
      i := i + 1;
    }
    assert comps[..i] == comps;
  }

  /** The asks of one row that are not matches. */
  method RowUnmet(row: seq<nat>, m: set<Pair>) returns (out: seq<Pair>)
    requires row != []
    ensures out == Missing(Fan(row[0], row[1..]), m)
  {
    out := [];
    if |row| == 1 {
      assert Fan(row[0], row[1..]) == [];
      return;
    }
    var main := row[0];
    var ys := row[1..];
    var j := 0;
    while j < |ys|
      invariant 0 <= j <= |ys|
      invariant out == Missing(Fan(main, ys[..j]), m)
    {
      assert Fan(main, ys[..j + 1])[..j] == Fan(main, ys[..j]);
      var key := (main, ys[j]);
      if key !in m {
        out := out + [key];
      }
      j := j + 1;
    }
    assert ys[..j] == ys;
  }

  /** "Students whose asks were not met": the report, as pairs of ids. */
  method UnmetRequests(graph: seq<seq<nat>>, comps: seq<seq<nat>>) returns (report: seq<Pair>)
    requires NonEmptyRows(graph)
    ensures report == Unmet(graph, Matches(comps))
  {
    var m := StudentMatches(comps);
    report := [];
    var i := 0;
    while i < |graph|
      invariant 0 <= i <= |graph|
      invariant report == Unmet(graph[..i], m)
    {
      assert graph[..i + 1][..i] == graph[..i];
      var out := RowUnmet(graph[i], m);
      report := report + out;
      i := i + 1;
    }
    assert graph[..i] == graph;
  }
}
