/** The pairs of ids grouping.py works with: `itertools.combinations(row, 2)`
    and the order-free key `sorted(edge)` under which an edge is counted. */
module Pairs {
  type Pair = (nat, nat)

  /** `sorted(edge)`: the smaller id first. */
  function Key(a: nat, b: nat): (k: Pair)
    ensures k.0 <= k.1
    ensures (k.0 == a && k.1 == b) || (k.0 == b && k.1 == a)
  {
    if a <= b then (a, b) else (b, a)
  }

  /** Two edges share a key exactly when they join the same two ids. */
  lemma KeyIff(a: nat, b: nat, c: nat, d: nat)
    ensures Key(a, b) == Key(c, d) <==> (a == c && b == d) || (a == d && b == c)
  {
  }

  /** `x` paired with each of `ys`, in order. */
  function Fan(x: nat, ys: seq<nat>): seq<Pair>
  {
    seq(|ys|, k requires 0 <= k < |ys| => (x, ys[k]))
  }

  /** `itertools.combinations(row, 2)`: every pair of positions `i < j`,
      first by `i`, then by `j`. */
  function Combinations(row: seq<nat>): seq<Pair>
    decreases |row|
  {
    if row == [] then [] else Fan(row[0], row[1..]) + Combinations(row[1..])
  }

  /** A pair is produced exactly when it is `(row[i], row[j])` for two
      positions `i < j`. */
  lemma {:induction false} CombinationsMember(row: seq<nat>, p: Pair)
    ensures p in Combinations(row) <==> exists i, j :: 0 <= i < j < |row| && p == (row[i], row[j])
    decreases |row|
  {
    if row != [] {
      var rest := row[1..];
      CombinationsMember(rest, p);
      if p in Combinations(row) {
        if p in Fan(row[0], rest) {
          var k :| 0 <= k < |rest| && Fan(row[0], rest)[k] == p;
          assert p == (row[0], row[k + 1]);
        } else {
          assert p in Combinations(rest);
          var i, j :| 0 <= i < j < |rest| && p == (rest[i], rest[j]);
          assert p == (row[i + 1], row[j + 1]);
        }
      }
      if exists i, j :: 0 <= i < j < |row| && p == (row[i], row[j]) {
        var i, j :| 0 <= i < j < |row| && p == (row[i], row[j]);
        if i == 0 {
          assert Fan(row[0], rest)[j - 1] == p;
        } else {
          assert p == (rest[i - 1], rest[j - 1]);
        }
      }
    }
  }

  /** The index at which `combinations` emits the positions `i < j` of a
      row of length `n`: all pairs starting before `i` come first. */
  function Pos(n: nat, i: nat, j: nat): nat
    requires i < j < n
    decreases i
  {
    if i == 0 then j - 1 else (n - 1) + Pos(n - 1, i - 1, j - 1)
  }

  /** The pair of positions `i < j` sits at index `Pos(|row|, i, j)`. */
  lemma {:induction false} CombinationsAt(row: seq<nat>, i: nat, j: nat)
    requires i < j < |row|
    ensures Pos(|row|, i, j) < |Combinations(row)|
    ensures Combinations(row)[Pos(|row|, i, j)] == (row[i], row[j])
    decreases |row|
  {
    var rest := row[1..];
    var fan := Fan(row[0], rest);
    if i == 0 {
      assert fan[j - 1] == (row[0], row[j]);
    } else {
      CombinationsAt(rest, i - 1, j - 1);
      assert rest[i - 1] == row[i] && rest[j - 1] == row[j];
      assert Combinations(row)[Pos(|row|, i, j)] == Combinations(rest)[Pos(|rest|, i - 1, j - 1)];
    }
  }

  /** `Pos` orders the position pairs lexicographically, first by `i`,
      then by `j`; so distinct position pairs get distinct indices. */
  lemma {:induction false} PosLex(n: nat, i: nat, j: nat, k: nat, l: nat)
    requires i < j < n && k < l < n
    ensures Pos(n, i, j) < Pos(n, k, l) <==> i < k || (i == k && j < l)
    decreases i + k
  {
    if i > 0 && k > 0 {
      PosLex(n - 1, i - 1, j - 1, k - 1, l - 1);
    } else if i > 0 {
      PosFirstRow(n, i, j);
    } else if k > 0 {
      PosFirstRow(n, k, l);
    }
  }

  /** Pairs starting after position 0 come after the `n - 1` pairs that
      start at position 0. */
  lemma PosFirstRow(n: nat, i: nat, j: nat)
    requires 0 < i < j < n
    ensures Pos(n, i, j) >= n - 1
  {
  }

  /** There are `n (n - 1) / 2` pairs of `n` positions. */
  lemma {:induction false} CombinationsLength(row: seq<nat>)
    ensures 2 * |Combinations(row)| == |row| * (|row| - 1)
    decreases |row|
  {
    if row != [] {
      CombinationsLength(row[1..]);
    }
  }
}
