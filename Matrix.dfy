/** Boolean adjacency matrices stored as rows of `vector<bool>`, and the ways the
    graph store grows and updates them. */
module Matrix {

  type Matrix = seq<seq<bool>>

  /** Every row has `n` entries and there are `n` rows. */
  predicate Square(m: Matrix, n: nat)
  {
    |m| == n && forall i :: 0 <= i < n ==> |m[i]| == n
  }

  /** `n` entries, all false: `std::vector<bool>(n, false)`. */
  function Falses(n: nat): (r: seq<bool>)
    ensures |r| == n && forall j :: 0 <= j < n ==> !r[j]
  {
    seq(n, _ => false)
  }

  /** A row padded with `false` up to length `n`. */
  function Pad(row: seq<bool>, n: nat): (r: seq<bool>)
    requires |row| <= n
    ensures |r| == n
    ensures forall j :: 0 <= j < n ==> r[j] == (j < |row| && row[j])
  {
    row + Falses(n - |row|)
  }

  /** The matrix after registering nodes up to `n` and padding (nfa.hpp:149-167):
      old rows padded with false, new rows all false. */
  function Resize(m: Matrix, n: nat): (r: Matrix)
    requires |m| <= n && forall i :: 0 <= i < |m| ==> |m[i]| <= n
    ensures Square(r, n)
  {
    seq(n, i requires 0 <= i < n => if i < |m| then Pad(m[i], n) else Falses(n))
  }

  /** The matrix with entry (i, j) set. */
  function WithEdge(m: Matrix, i: nat, j: nat): (r: Matrix)
    requires i < |m| && j < |m[i]|
    ensures |r| == |m| && forall k :: 0 <= k < |m| ==> |r[k]| == |m[k]|
  {
    m[i := m[i][j := true]]
  }

  /** What `connect` does to a matrix: entry (i, j) becomes true, every other
      old entry is kept, and every new entry is false. */
  lemma ResizedEdgeEntries(m: Matrix, n: nat, i: nat, j: nat)
    requires |m| <= n && forall k :: 0 <= k < |m| ==> |m[k]| <= n
    requires i < n && j < n
    ensures Square(WithEdge(Resize(m, n), i, j), n)
    ensures forall a, b :: 0 <= a < n && 0 <= b < n ==>
      WithEdge(Resize(m, n), i, j)[a][b] == ((a == i && b == j) || (a < |m| && b < |m[a]| && m[a][b]))
  {
  }

  /** Setting an edge that is already present in a square matrix changes nothing:
      the matrix half of the idempotence of `connect`. */
  lemma {:induction false} ResizedEdgeIdempotent(m: Matrix, n: nat, i: nat, j: nat)
    requires Square(m, n) && i < n && j < n && m[i][j]
    ensures WithEdge(Resize(m, n), i, j) == m
  {
    var r := WithEdge(Resize(m, n), i, j);
    ResizedEdgeEntries(m, n, i, j);
    forall a | 0 <= a < n
      ensures r[a] == m[a]
    {
      assert |r[a]| == |m[a]|;
      forall b | 0 <= b < n
        ensures r[a][b] == m[a][b]
      {
      }
    }
  }

  /** `m` is `m0` after registering nodes: the old rows kept and, for each new id
      `i`, a row of `i + 1` false entries (the node count right after the push). */
  predicate Grown(m0: Matrix, m: Matrix)
  {
    |m0| <= |m| &&
    (forall i :: 0 <= i < |m0| ==> m[i] == m0[i]) &&
    (forall i :: |m0| <= i < |m| ==> m[i] == Falses(i + 1))
  }

  lemma GrownTrans(m0: Matrix, m1: Matrix, m2: Matrix)
    requires Grown(m0, m1) && Grown(m1, m2)
    ensures Grown(m0, m2)
  {
  }

  /** Padding every row of a grown matrix to `n` yields exactly the resized matrix. */
  lemma PaddedGrowth(m0: Matrix, m: Matrix, padded: Matrix, n: nat)
    requires Grown(m0, m) && |m| == |padded| == n
    requires forall i :: 0 <= i < |m0| ==> |m0[i]| <= n
    requires forall i :: 0 <= i < n ==> |m[i]| <= n && padded[i] == Pad(m[i], n)
    ensures padded == Resize(m0, n)
  {
    forall i | 0 <= i < n
      ensures padded[i] == Resize(m0, n)[i]
    {
      if i >= |m0| {
        assert Pad(Falses(i + 1), n) == Falses(n);
      }
    }
  }

  /** `_update`: pad every row in place with `false` up to `n` entries. */
  method PadRows(rows: Matrix, n: nat) returns (padded: Matrix)
    requires forall i :: 0 <= i < |rows| ==> |rows[i]| <= n
    ensures |padded| == |rows|
    ensures forall i :: 0 <= i < |rows| ==> padded[i] == Pad(rows[i], n)
  {
    padded := rows;
    var i := 0;
    while i < |padded|
      invariant 0 <= i <= |padded| == |rows|
      invariant forall k :: 0 <= k < i ==> padded[k] == Pad(rows[k], n)
      invariant forall k :: i <= k < |rows| ==> padded[k] == rows[k]
    {
      var r := n - |padded[i]|;
      var row := padded[i];
      var j := 0;
      while j < r
        invariant 0 <= j <= r
        invariant row == rows[i] + Falses(j)
      {
        row := row + [false];
        j := j + 1;
      }
      padded := padded[i := row];
      i := i + 1;
    }
  }
}
