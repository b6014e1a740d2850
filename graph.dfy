/** `make_graph` of grouping.py: dense integer ids for the students, handed
    out in first-seen order, and the rows rewritten as ids. */
module Graph {
  import opened Names

  /** The full name of every student, row by row. */
  function NameRows(students: seq<seq<Student>>): (r: seq<seq<string>>)
    ensures |r| == |students|
    ensures forall i :: 0 <= i < |students| ==> |r[i]| == |students[i]|
  {
    seq(|students|, i requires 0 <= i < |students| =>
      seq(|students[i]|, j requires 0 <= j < |students[i]| => FullName(students[i][j])))
  }

  /** The rows laid end to end, in order. */
  function Flatten<T>(rows: seq<seq<T>>): seq<T>
    decreases |rows|
  {
    if rows == [] then [] else Flatten(rows[..|rows| - 1]) + rows[|rows| - 1]
  }

  /** The distinct elements of `xs`, each at its first occurrence. */
  function FirstSeen<T(==)>(xs: seq<T>): (r: seq<T>)
    decreases |xs|
  {
    if xs == [] then []
    else
      var prev := FirstSeen(xs[..|xs| - 1]);
      if xs[|xs| - 1] in xs[..|xs| - 1] then prev else prev + [xs[|xs| - 1]]
  }

  /** No element occurs twice. */
  predicate Distinct<T(==)>(xs: seq<T>) {
    forall k, l :: 0 <= k < l < |xs| ==> xs[k] != xs[l]
  }

  /** `FirstSeen` keeps every element once and nothing else. */
  lemma {:induction false} FirstSeenSpec<T>(xs: seq<T>)
    ensures forall x :: x in FirstSeen(xs) <==> x in xs
    ensures Distinct(FirstSeen(xs))
    decreases |xs|
  {
    if xs != [] {
      var init := xs[..|xs| - 1];
      FirstSeenSpec(init);
      assert xs == init + [xs[|xs| - 1]];
    }
  }

  /** The first-seen order of a sequence is unaffected by a repeated element
      and grows by one for a new element. */
  lemma FirstSeenSnoc<T>(xs: seq<T>, x: T)
    ensures x in xs ==> FirstSeen(xs + [x]) == FirstSeen(xs)
    ensures x !in xs ==> FirstSeen(xs + [x]) == FirstSeen(xs) + [x]
  {
    assert (xs + [x])[..|xs|] == xs;
  }

  /** `ids` and `rev` number the names of `order` by their position. */
  ghost predicate Numbering(order: seq<string>, ids: map<string, nat>, rev: map<nat, string>)
  {
    && |ids| == |rev| == |order|
    && (forall x :: x in ids <==> x in order)
    && (forall k :: k in rev <==> 0 <= k < |order|)
    && (forall k :: 0 <= k < |order| ==> rev[k] == order[k] && ids[order[k]] == k)
  }

  /** Allocating the next id to a new name keeps the numbering. */
  lemma NumberingAdd(order: seq<string>, ids: map<string, nat>, rev: map<nat, string>, x: string)
    requires Numbering(order, ids, rev) && x !in order
    ensures Numbering(order + [x], ids[x := |order|], rev[|order| := x])
  {
    AddSizes(order, ids, rev, x);
    AddKeys(order, ids, rev, x, ids[x := |order|], rev[|order| := x]);
    AddPositions(order, ids, rev, x);
  }

  lemma AddSizes(order: seq<string>, ids: map<string, nat>, rev: map<nat, string>, x: string)
    requires Numbering(order, ids, rev) && x !in order
    ensures |ids[x := |order|]| == |rev[|order| := x]| == |order + [x]|
  {
    assert x !in ids && |order| !in rev;
  }

  lemma AddKeys(order: seq<string>, ids: map<string, nat>, rev: map<nat, string>, x: string,
                 ids': map<string, nat>, rev': map<nat, string>)
    requires Numbering(order, ids, rev)
    requires ids' == ids[x := |order|] && rev' == rev[|order| := x]
    ensures forall y :: y in ids' <==> y in order + [x]
    ensures forall k :: k in rev' <==> 0 <= k < |order| + 1
  {
    assert forall y :: y in order + [x] <==> y in order || y == x;
  }

  lemma AddPositions(order: seq<string>, ids: map<string, nat>, rev: map<nat, string>, x: string)
    requires Numbering(order, ids, rev) && x !in order
    ensures var order', ids', rev' := order + [x], ids[x := |order|], rev[|order| := x];
      forall k :: 0 <= k < |order'| ==> rev'[k] == order'[k] && ids'[order'[k]] == k
  {
    var order', ids', rev' := order + [x], ids[x := |order|], rev[|order| := x];
    forall k | 0 <= k < |order'| ensures rev'[k] == order'[k] && ids'[order'[k]] == k {
      if k < |order| {
        assert order'[k] == order[k] != x;
      }
    }
  }

  /** A numbering by first-seen order makes `ids` and `rev` mutual inverses
      over the ids `0 .. n-1`, where `n` is the number of distinct names. */
  lemma {:induction false} NumberingInverse(order: seq<string>, ids: map<string, nat>, rev: map<nat, string>)
    requires Numbering(order, ids, rev)
    ensures |ids| == |rev| == |order|
    ensures forall x :: x in ids ==> ids[x] < |order| && ids[x] in rev && rev[ids[x]] == x
    ensures forall k :: k in rev ==> rev[k] in ids && ids[rev[k]] == k
  {
    forall x | x in ids ensures ids[x] < |order| && ids[x] in rev && rev[ids[x]] == x {
      var k :| 0 <= k < |order| && order[k] == x;
    }
  }

  /** Two places of a row get the same id exactly when their students have
      the same full name. */
  lemma SameIdSameName(order: seq<string>, ids: map<string, nat>, rev: map<nat, string>, names: seq<string>, g: seq<nat>)
    requires Numbering(order, ids, rev) && RowIds(names, ids, g)
    ensures forall a, b :: 0 <= a < |names| && 0 <= b < |names| ==> (g[a] == g[b] <==> names[a] == names[b])
  {
    NumberingInverse(order, ids, rev);
  }

  /** The ids of a graph row are those of its students' full names. */
  ghost predicate RowIds(names: seq<string>, ids: map<string, nat>, g: seq<nat>)
  {
    |g| == |names| && forall b :: 0 <= b < |names| ==> names[b] in ids && g[b] == ids[names[b]]
  }

  /** The state `make_graph` keeps after seeing the names `seen`: the next
      id, and both maps numbering the distinct names in first-seen order. */
  ghost predicate Allocated(seen: seq<string>, ids: map<string, nat>, rev: map<nat, string>, maxId: nat)
  {
    maxId == |FirstSeen(seen)| && Numbering(FirstSeen(seen), ids, rev)
  }

  /** One step of `make_graph`: a known name keeps its id, a new one gets
      the next id in both maps. */
  lemma Allocate(seen: seq<string>, ids: map<string, nat>, rev: map<nat, string>, maxId: nat, name: string)
    requires Allocated(seen, ids, rev, maxId)
    ensures name in ids ==> Allocated(seen + [name], ids, rev, maxId)
    ensures name !in ids ==> Allocated(seen + [name], ids[name := maxId], rev[maxId := name], maxId + 1)
  {
    FirstSeenSpec(seen);
    FirstSeenSnoc(seen, name);
    if name !in ids {
      NumberingAdd(FirstSeen(seen), ids, rev, name);
    }
  }

  /** `ids2` keeps every id of `ids`. */
  ghost predicate Extends(ids: map<string, nat>, ids2: map<string, nat>)
  {
    forall x :: x in ids ==> x in ids2 && ids2[x] == ids[x]
  }

  /** Extending a prefix of `row` by one element, after `seen`. */
  lemma PrefixSnoc<T>(seen: seq<T>, row: seq<T>, j: nat)
    requires j < |row|
    ensures seen + row[..j + 1] == (seen + row[..j]) + [row[j]]
  {
    assert row[..j + 1] == row[..j] + [row[j]];
  }

  /** One name of a row: its id is looked up, or allocated when new. */
  method NumberName(row: seq<string>, j: nat, ghost seen: seq<string>, gRow: seq<nat>,
                    ghost ids0: map<string, nat>, ids: map<string, nat>, rev: map<nat, string>, maxId: nat)
    returns (gRow': seq<nat>, ids': map<string, nat>, rev': map<nat, string>, maxId': nat)
    requires j < |row|
    requires Allocated(seen + row[..j], ids, rev, maxId)
    requires RowIds(row[..j], ids, gRow)
    requires Extends(ids0, ids)
    ensures Allocated(seen + row[..j + 1], ids', rev', maxId')
    ensures RowIds(row[..j + 1], ids', gRow')
    ensures Extends(ids0, ids')
  {
    var name := row[j];
    var sid: nat;
    Allocate(seen + row[..j], ids, rev, maxId, name);
    ids', rev', maxId' := ids, rev, maxId;
    if name in ids {
      sid := ids[name];
    } else {
      RowIdsGrow(row[..j], ids, gRow, name, maxId);
      ids' := ids[name := maxId];
      rev' := rev[maxId := name];
      sid := maxId;
      maxId' := maxId + 1;
    }
    RowIdsSnoc(row, j, ids', gRow, sid);
    gRow' := gRow + [sid];
    PrefixSnoc(seen, row, j);
  }

  /** The inner loop of `make_graph`: the ids of one row, allocating the
      next id for every full name not seen before. */
  method NumberRow(row: seq<string>, ghost seen: seq<string>,
                   ids: map<string, nat>, rev: map<nat, string>, maxId: nat)
    returns (gRow: seq<nat>, ids': map<string, nat>, rev': map<nat, string>, maxId': nat)
    requires Allocated(seen, ids, rev, maxId)
    ensures Allocated(seen + row, ids', rev', maxId')
    ensures RowIds(row, ids', gRow)
    ensures Extends(ids, ids')
  {
    gRow, ids', rev', maxId' := [], ids, rev, maxId;
    var j := 0;
    assert seen + row[..j] == seen;
    while j < |row|
      invariant 0 <= j <= |row|
      invariant Allocated(seen + row[..j], ids', rev', maxId')
      invariant RowIds(row[..j], ids', gRow)
      invariant Extends(ids, ids')
    {
      gRow, ids', rev', maxId' := NumberName(row, j, seen, gRow, ids, ids', rev', maxId');
      j := j + 1;
    }
    assert row[..j] == row;
  }

  /** The state of `make_graph` after its first `i` rows. */
  ghost predicate Built(names: seq<seq<string>>, i: nat, graph: seq<seq<nat>>,
                        ids: map<string, nat>, rev: map<nat, string>, maxId: nat)
    requires i <= |names|
  {
    && Allocated(Flatten(names[..i]), ids, rev, maxId)
    && |graph| == i
    && forall a :: 0 <= a < i ==> RowIds(names[a], ids, graph[a])
  }

  lemma FlattenSnoc<T>(rows: seq<seq<T>>, i: nat)
    requires i < |rows|
    ensures Flatten(rows[..i + 1]) == Flatten(rows[..i]) + rows[i]
  {
    assert rows[..i + 1][..i] == rows[..i];
  }

  /** One row of the outer loop of `make_graph`. */
  method GraphRow(names: seq<seq<string>>, i: nat, graph: seq<seq<nat>>,
                  ids: map<string, nat>, rev: map<nat, string>, maxId: nat)
    returns (graph': seq<seq<nat>>, ids': map<string, nat>, rev': map<nat, string>, maxId': nat)
    requires i < |names| && Built(names, i, graph, ids, rev, maxId)
    ensures Built(names, i + 1, graph', ids', rev', maxId')
  {
    var gRow;
    gRow, ids', rev', maxId' := NumberRow(names[i], Flatten(names[..i]), ids, rev, maxId);
    BuiltStep(names, i, graph, ids, rev, maxId, gRow, ids', rev', maxId');
    graph' := graph + [gRow];
  }

  lemma BuiltStep(names: seq<seq<string>>, i: nat, graph: seq<seq<nat>>,
                  ids: map<string, nat>, rev: map<nat, string>, maxId: nat,
                  gRow: seq<nat>, ids': map<string, nat>, rev': map<nat, string>, maxId': nat)
    requires i < |names| && Built(names, i, graph, ids, rev, maxId)
    requires Allocated(Flatten(names[..i]) + names[i], ids', rev', maxId')
    requires RowIds(names[i], ids', gRow) && Extends(ids, ids')
    ensures Built(names, i + 1, graph + [gRow], ids', rev', maxId')
  {
    FlattenSnoc(names, i);
    GraphIdsExtend(names, i, ids, ids', graph);
    var graph' := graph + [gRow];
    forall a | 0 <= a < i + 1 ensures RowIds(names[a], ids', graph'[a]) {
      if a < i {
        assert graph'[a] == graph[a];
      }
    }
  }

  /** `make_graph`: walks the students row by row, giving each new full name
      the next id, and rewrites every row as ids. */
  method MakeGraph(students: seq<seq<Student>>)
    returns (graph: seq<seq<nat>>, ids: map<string, nat>, rev: map<nat, string>)
    ensures |graph| == |students|
    ensures forall i :: 0 <= i < |students| ==> RowIds(NameRows(students)[i], ids, graph[i])
    ensures Numbering(FirstSeen(Flatten(NameRows(students))), ids, rev)
  {
    var names := NameRows(students);
    ids, rev, graph := map[], map[], [];
    var maxId: nat := 0;
    var i := 0;
    assert names[..0] == [];
    while i < |names|
      invariant 0 <= i <= |names|
      invariant Built(names, i, graph, ids, rev, maxId)
    {
      graph, ids, rev, maxId := GraphRow(names, i, graph, ids, rev, maxId);
      i := i + 1;
    }
    assert names[..i] == names;
  }

  lemma GraphIdsExtend(names: seq<seq<string>>, i: int, ids: map<string, nat>, ids2: map<string, nat>, graph: seq<seq<nat>>)
    requires 0 <= i <= |names| && i <= |graph| && Extends(ids, ids2)
    requires forall a :: 0 <= a < i ==> RowIds(names[a], ids, graph[a])
    ensures forall a :: 0 <= a < i ==> RowIds(names[a], ids2, graph[a])
  {
  }

  lemma RowIdsGrow(names: seq<string>, ids: map<string, nat>, g: seq<nat>, x: string, v: nat)
    requires RowIds(names, ids, g) && x !in ids
    ensures RowIds(names, ids[x := v], g)
  {
  }

  lemma RowIdsSnoc(row: seq<string>, j: nat, ids: map<string, nat>, g: seq<nat>, v: nat)
    requires j < |row| && RowIds(row[..j], ids, g) && row[j] in ids && ids[row[j]] == v
    ensures RowIds(row[..j + 1], ids, g + [v])
  {
    assert row[..j + 1] == row[..j] + [row[j]];
  }
}
