/** The evaluator's meaning: how `test(src)` and `test(src, dst)` walk the stored
    ways shortest first, evaluating each node once, stopping a way at its first
    unmet node and stopping altogether at the first way that succeeds. The methods
    of the graph store are proved to compute exactly these functions. */
module Eval {
  import Node
  import opened Matrix
  import opened Paths

  /** What evaluation depends on: the nodes, the outcome each node's test callback
      returns, and the `reverse` flag of the configuration. */
  datatype Env = Env(nodes: seq<Node.Status>, raw: nat -> bool, reverse: bool)

  /** The result of `status_test_run(id)` (for a node with a test). */
  predicate Met(e: Env, id: nat)
  {
    id < |e.nodes| && e.nodes[id].hasTest && Node.Test(e.nodes[id], e.raw(id), e.reverse)
  }

  /** Where a way succeeds: at its last node (`test(src)`) or at the first
      occurrence of `dst` (`test(src, dst)`). */
  datatype Target = Last | Reach(dst: int)

  predicate IsGoal(t: Target, w: Way, i: nat)
    requires i < |w|
  {
    match t
    case Last => i == |w| - 1
    case Reach(d) => w[i] == d
  }

  /** The index of the first occurrence of `d`, or `|w|` when there is none. */
  function IndexOf(w: Way, d: int): (k: nat)
    ensures k <= |w|
    ensures k < |w| ==> w[k] == d
    ensures forall i :: 0 <= i < k ==> w[i] != d
  {
    if w == [] then 0
    else if w[0] == d then 0
    else 1 + IndexOf(w[1..], d)
  }

  /** The index at which the way succeeds, or `|w|` when it has no goal. */
  function GoalIndex(t: Target, w: Way): (g: nat)
    ensures g <= |w|
    ensures g < |w| ==> IsGoal(t, w, g)
    ensures forall i :: 0 <= i < g ==> !IsGoal(t, w, i)
  {
    match t
    case Last => if |w| == 0 then 0 else |w| - 1
    case Reach(d) => IndexOf(w, d)
  }

  /** The part of a way that evaluation may touch: up to and including its goal. */
  function UpToGoal(t: Target, w: Way): Way
  {
    var g := GoalIndex(t, w);
    if g < |w| then w[..g + 1] else w
  }

  /** A way succeeds iff it has a goal and every node up to and including it is met. */
  predicate Succeeds(e: Env, t: Target, w: Way)
  {
    var g := GoalIndex(t, w);
    g < |w| && forall j :: 0 <= j <= g ==> Met(e, w[j])
  }

  /** The inner loop over one way, from position `i`: the verdict and the ids evaluated. */
  function WalkFrom(e: Env, t: Target, w: Way, i: nat): (bool, seq<nat>)
    decreases |w| - i
  {
    if i >= |w| then (false, [])
    else if !Met(e, w[i]) then (false, [w[i]])
    else if IsGoal(t, w, i) then (true, [w[i]])
    else
      var r := WalkFrom(e, t, w, i + 1);
      (r.0, [w[i]] + r.1)
  }

  /** The outer loop over the candidate ways, from way `k`. */
  function TryFrom(e: Env, t: Target, ws: seq<Way>, k: nat): (bool, seq<nat>)
    decreases |ws| - k
  {
    if k >= |ws| then (false, [])
    else
      var r := WalkFrom(e, t, ws[k], 0);
      if r.0 then (true, r.1)
      else
        var q := TryFrom(e, t, ws, k + 1);
        (q.0, r.1 + q.1)
  }

  /** A whole `test` call once `src` is known to be a node: no candidate ways means
      false with nothing evaluated; otherwise `src` is evaluated first. */
  function Evaluate(e: Env, t: Target, src: nat, ws: seq<Way>): (bool, seq<nat>)
  {
    if ws == [] then (false, [])
    else if !Met(e, src) then (false, [src])
    else
      var r := TryFrom(e, t, ws, 0);
      (r.0, [src] + r.1)
  }

  /** One way's verdict: it succeeds iff every node from `i` up to its goal is met. */
  lemma {:induction false} WalkFromVerdict(e: Env, t: Target, w: Way, i: nat)
    requires i <= GoalIndex(t, w)
    ensures WalkFrom(e, t, w, i).0 <==> GoalIndex(t, w) < |w| && forall j :: i <= j <= GoalIndex(t, w) ==> Met(e, w[j])
    decreases |w| - i
  {
    var g := GoalIndex(t, w);
    if i < |w| && Met(e, w[i]) && !IsGoal(t, w, i) {
      assert i != g;
      WalkFromVerdict(e, t, w, i + 1);
      if WalkFrom(e, t, w, i + 1).0 {
        forall j | i <= j <= g
          ensures Met(e, w[j])
        {
        }
      }
    }
  }

  /** The ids one way evaluates from `i` are a prefix of the rest of the way that
      never passes the goal, and reach it exactly when the way succeeds. */
  lemma {:induction false} WalkFromPrefix(e: Env, t: Target, w: Way, i: nat)
    requires i <= GoalIndex(t, w)
    ensures var r := WalkFrom(e, t, w, i);
      i + |r.1| <= |w| && |r.1| <= GoalIndex(t, w) + 1 - i && r.1 == w[i..i + |r.1|] &&
      (r.0 ==> |r.1| == GoalIndex(t, w) + 1 - i)
    decreases |w| - i
  {
    if i < |w| && Met(e, w[i]) && !IsGoal(t, w, i) {
      assert i != GoalIndex(t, w);
      WalkFromPrefix(e, t, w, i + 1);
      var q := WalkFrom(e, t, w, i + 1);
      assert WalkFrom(e, t, w, i).1 == [w[i]] + q.1;
      assert [w[i]] + w[i + 1..i + 1 + |q.1|] == w[i..i + 1 + |q.1|];
    }
  }

  /** One step of the outer loop at way `k`, after the ids in `trace`: a way that
      succeeds ends the run, and one that fails hands over to way `k + 1`. */
  lemma TryFromAt(e: Env, t: Target, ws: seq<Way>, k: nat, trace: seq<nat>)
    requires k < |ws|
    ensures WalkFrom(e, t, ws[k], 0).0 ==> TryFrom(e, t, ws, k) == (true, WalkFrom(e, t, ws[k], 0).1)
    ensures !WalkFrom(e, t, ws[k], 0).0 ==> TryFrom(e, t, ws, k).0 == TryFrom(e, t, ws, k + 1).0
    ensures !WalkFrom(e, t, ws[k], 0).0 ==>
      trace + TryFrom(e, t, ws, k).1 == trace + WalkFrom(e, t, ws[k], 0).1 + TryFrom(e, t, ws, k + 1).1
  {
  }

  /** Every id one way evaluates from `i` but the last is met, and a way that fails
      stops at an unmet node or runs off the end of a way without a goal. */
  lemma {:induction false} WalkFromStops(e: Env, t: Target, w: Way, i: nat)
    requires i <= GoalIndex(t, w)
    ensures var r := WalkFrom(e, t, w, i);
      (forall k :: 0 <= k < |r.1| - 1 ==> Met(e, r.1[k])) &&
      (!r.0 ==> (|r.1| > 0 && !Met(e, r.1[|r.1| - 1])) || (GoalIndex(t, w) == |w| && r.1 == w[i..]))
    decreases |w| - i
  {
    if i < |w| && Met(e, w[i]) && !IsGoal(t, w, i) {
      assert i != GoalIndex(t, w);
      WalkFromStops(e, t, w, i + 1);
      var q := WalkFrom(e, t, w, i + 1);
      var r := [w[i]] + q.1;
      assert WalkFrom(e, t, w, i).1 == r;
      forall k | 0 <= k < |r| - 1
        ensures Met(e, r[k])
      {
        if k > 0 {
          assert r[k] == q.1[k - 1];
        }
      }
      if q.1 != [] {
        assert r[|r| - 1] == q.1[|q.1| - 1];
      }
      assert q.1 == w[i + 1..] ==> r == w[i..];
    }
  }

  /** One way: it succeeds iff every node up to its goal is met; the evaluated ids
      form a prefix of the way that never passes the goal, every evaluated id but
      the last is met, and a failing way stops at its first unmet node. */
  lemma WalkFromSpec(e: Env, t: Target, w: Way, i: nat)
    requires i <= GoalIndex(t, w)
    ensures var r := WalkFrom(e, t, w, i);
      var g := GoalIndex(t, w);
      (r.0 <==> g < |w| && forall j :: i <= j <= g ==> Met(e, w[j])) &&
      i + |r.1| <= |w| && |r.1| <= g + 1 - i && r.1 == w[i..i + |r.1|] &&
      (forall k :: 0 <= k < |r.1| - 1 ==> Met(e, r.1[k])) &&
      (r.0 ==> |r.1| == g + 1 - i) &&
      (!r.0 ==> (|r.1| > 0 && !Met(e, r.1[|r.1| - 1])) || (g == |w| && r.1 == w[i..]))
  {
    WalkFromVerdict(e, t, w, i);
    WalkFromPrefix(e, t, w, i);
    WalkFromStops(e, t, w, i);
  }

  /** A whole way from its start: it succeeds iff `Succeeds`, and every id it
      evaluates lies up to its goal. */
  lemma WalkWhole(e: Env, t: Target, w: Way)
    ensures WalkFrom(e, t, w, 0).0 <==> Succeeds(e, t, w)
    ensures forall x :: x in WalkFrom(e, t, w, 0).1 ==> x in UpToGoal(t, w)
  {
    var r := WalkFrom(e, t, w, 0);
    var g := GoalIndex(t, w);
    WalkFromVerdict(e, t, w, 0);
    WalkFromPrefix(e, t, w, 0);
    forall x | x in r.1
      ensures x in UpToGoal(t, w)
    {
      var n := |r.1|;
      assert r.1 == w[..n];
      if g < |w| {
        assert w[..n] == w[..g + 1][..n];
      }
    }
  }

  /** The outcome over the candidate ways is true iff some way from `k` on succeeds. */
  lemma {:induction false} TryFromVerdict(e: Env, t: Target, ws: seq<Way>, k: nat)
    ensures TryFrom(e, t, ws, k).0 <==> exists j :: k <= j < |ws| && Succeeds(e, t, ws[j])
    decreases |ws| - k
  {
    if k < |ws| {
      WalkWhole(e, t, ws[k]);
      if !WalkFrom(e, t, ws[k], 0).0 {
        TryFromVerdict(e, t, ws, k + 1);
      }
    }
  }

  /** Every id evaluated over the candidate ways from `k` lies up to the goal of a
      way that no earlier way beat. */
  lemma {:induction false} TryFromTrace(e: Env, t: Target, ws: seq<Way>, k: nat)
    ensures forall x :: x in TryFrom(e, t, ws, k).1 ==>
      exists j :: k <= j < |ws| && x in UpToGoal(t, ws[j]) &&
        (forall i :: k <= i < j ==> !Succeeds(e, t, ws[i]))
    decreases |ws| - k
  {
    if k < |ws| {
      var w := ws[k];
      var r := WalkFrom(e, t, w, 0);
      WalkWhole(e, t, w);
      if !r.0 {
        TryFromTrace(e, t, ws, k + 1);
        var q := TryFrom(e, t, ws, k + 1);
        forall x | x in r.1 + q.1
          ensures exists j :: k <= j < |ws| && x in UpToGoal(t, ws[j]) &&
                               (forall i :: k <= i < j ==> !Succeeds(e, t, ws[i]))
        {
          if x in r.1 {
            assert x in UpToGoal(t, ws[k]);
          } else {
            assert x in q.1;
            var j :| k + 1 <= j < |ws| && x in UpToGoal(t, ws[j]) &&
                     (forall i :: k + 1 <= i < j ==> !Succeeds(e, t, ws[i]));
            assert forall i :: k <= i < j ==> !Succeeds(e, t, ws[i]);
          }
        }
      }
    }
  }

  /** The candidate ways: the outcome is true iff some way from `k` on succeeds, and
      every evaluated id lies up to the goal of a way that no earlier way beat, so
      ways after the first successful one are never evaluated. */
  lemma TryFromSpec(e: Env, t: Target, ws: seq<Way>, k: nat)
    ensures var r := TryFrom(e, t, ws, k);
      (r.0 <==> exists j :: k <= j < |ws| && Succeeds(e, t, ws[j])) &&
      (forall x :: x in r.1 ==>
        exists j :: k <= j < |ws| && x in UpToGoal(t, ws[j]) &&
          (forall i :: k <= i < j ==> !Succeeds(e, t, ws[i])))
  {
    TryFromVerdict(e, t, ws, k);
    TryFromTrace(e, t, ws, k);
  }

  /** A whole `test` call: true iff there is a candidate way, `src` is met and some
      candidate way succeeds; without candidates nothing is evaluated; an unmet
      `src` is the only node evaluated; otherwise evaluation starts at `src` and
      touches only ways no earlier way beat, each up to its goal. */
  lemma EvaluateSpec(e: Env, t: Target, src: nat, ws: seq<Way>)
    ensures var r := Evaluate(e, t, src, ws);
      (r.0 <==> ws != [] && Met(e, src) && exists j :: 0 <= j < |ws| && Succeeds(e, t, ws[j])) &&
      (ws == [] ==> r.1 == []) &&
      (ws != [] && !Met(e, src) ==> r.1 == [src]) &&
      (ws != [] ==> |r.1| > 0 && r.1[0] == src) &&
      (forall n :: 1 <= n < |r.1| ==>
        exists j :: 0 <= j < |ws| && r.1[n] in UpToGoal(t, ws[j]) &&
          (forall i :: 0 <= i < j ==> !Succeeds(e, t, ws[i])))
  {
    TryFromSpec(e, t, ws, 0);
    if ws != [] && Met(e, src) {
      var r := TryFrom(e, t, ws, 0);
      forall n | 1 <= n < |[src] + r.1|
        ensures ([src] + r.1)[n] in r.1
      {
        assert ([src] + r.1)[n] == r.1[n - 1];
      }
    }
  }

  /** The edges 0 -> 1 -> 2 and 0 -> 3 -> 4 -> 5 of a six-node example. */
  predicate ForkedEdge(i: nat, j: nat)
  {
    (i == 0 && (j == 1 || j == 3)) || (i == 1 && j == 2) || (i == 3 && j == 4) || (i == 4 && j == 5)
  }

  /** The six-node graph with exactly those edges; nodes 2 and 5 accept. */
  predicate Forked(m: Matrix)
  {
    Square(m, 6) && forall i, j :: 0 <= i < 6 && 0 <= j < 6 ==> (m[i][j] <==> ForkedEdge(i, j))
  }

  /** Such a graph exists. */
  lemma ForkedExists()
    ensures Forked([
      [false, true, false, true, false, false],
      [false, false, true, false, false, false],
      [false, false, false, false, false, false],
      [false, false, false, false, true, false],
      [false, false, false, false, false, true],
      [false, false, false, false, false, false]])
  {
  }

  /** Prefixing a single way. */
  lemma PrefixedSingle(x: nat, w: Way)
    ensures Prefixed(x, [w]) == [[x] + w]
  {
    assert Prefixed(x, [w])[0] == [x] + w;
  }

  lemma ForkedShape(m: Matrix)
    requires Forked(m)
    ensures Square(m, |m|)
    ensures Accepting(m, 2) && Accepting(m, 5)
    ensures !Accepting(m, 1) && !Accepting(m, 3) && !Accepting(m, 4)
  {
    assert m[1][2] && m[3][4] && m[4][5];
  }

  lemma ForkedFrom4(m: Matrix)
    requires Forked(m)
    ensures Square(m, |m|)
    ensures Search(m, 4, [0, 3], true) == [[5]]
  {
    ForkedShape(m);
    assert Step(m, 4, [0, 3], true, 0) == [];
    assert Step(m, 4, [0, 3], true, 1) == [];
    assert Step(m, 4, [0, 3], true, 2) == [];
    assert Step(m, 4, [0, 3], true, 3) == [];
    assert Step(m, 4, [0, 3], true, 4) == [];
    assert Step(m, 4, [0, 3], true, 5) == [[5]];
    assert SearchFrom(m, 4, [0, 3], true, 6) == [];
    assert SearchFrom(m, 4, [0, 3], true, 5) == [[5]];
    assert SearchFrom(m, 4, [0, 3], true, 4) == [[5]];
    assert SearchFrom(m, 4, [0, 3], true, 3) == [[5]];
    assert SearchFrom(m, 4, [0, 3], true, 2) == [[5]];
    assert SearchFrom(m, 4, [0, 3], true, 1) == [[5]];
    assert SearchFrom(m, 4, [0, 3], true, 0) == [[5]];
  }

  lemma ForkedFrom3(m: Matrix)
    requires Forked(m)
    ensures Square(m, |m|)
    ensures Search(m, 3, [0], true) == [[4, 5]]
  {
    ForkedShape(m);
    ForkedFrom4(m);
    assert [0] + [3] == [0, 3];
    PrefixedSingle(4, [5]);
    assert [4] + [5] == [4, 5];
    assert Step(m, 3, [0], true, 4) == [[4, 5]];
    assert Step(m, 3, [0], true, 0) == [];
    assert Step(m, 3, [0], true, 1) == [];
    assert Step(m, 3, [0], true, 2) == [];
    assert Step(m, 3, [0], true, 3) == [];
    assert Step(m, 3, [0], true, 5) == [];
    assert SearchFrom(m, 3, [0], true, 6) == [];
    assert SearchFrom(m, 3, [0], true, 5) == [];
    assert SearchFrom(m, 3, [0], true, 4) == [[4, 5]];
    assert SearchFrom(m, 3, [0], true, 3) == [[4, 5]];
    assert SearchFrom(m, 3, [0], true, 2) == [[4, 5]];
    assert SearchFrom(m, 3, [0], true, 1) == [[4, 5]];
    assert SearchFrom(m, 3, [0], true, 0) == [[4, 5]];
  }

  lemma ForkedFrom1(m: Matrix)
    requires Forked(m)
    ensures Square(m, |m|)
    ensures Search(m, 1, [0], true) == [[2]]
  {
    ForkedShape(m);
    assert Step(m, 1, [0], true, 0) == [];
    assert Step(m, 1, [0], true, 1) == [];
    assert Step(m, 1, [0], true, 3) == [];
    assert Step(m, 1, [0], true, 4) == [];
    assert Step(m, 1, [0], true, 5) == [];
    assert Step(m, 1, [0], true, 2) == [[2]];
    assert SearchFrom(m, 1, [0], true, 6) == [];
    assert SearchFrom(m, 1, [0], true, 5) == [];
    assert SearchFrom(m, 1, [0], true, 4) == [];
    assert SearchFrom(m, 1, [0], true, 3) == [];
    assert SearchFrom(m, 1, [0], true, 2) == [[2]];
    assert SearchFrom(m, 1, [0], true, 1) == [[2]];
    assert SearchFrom(m, 1, [0], true, 0) == [[2]];
  }

  /** The iterations of the search from node 0 from successor 3 on. */
  lemma ForkedFrom0Upper(m: Matrix)
    requires Forked(m)
    ensures Square(m, |m|)
    ensures SearchFrom(m, 0, [], true, 3) == [[3, 4, 5]]
  {
    ForkedShape(m);
    ForkedFrom3(m);
    assert [] + [0] == [0];
    PrefixedSingle(3, [4, 5]);
    assert [3] + [4, 5] == [3, 4, 5];
    assert Step(m, 0, [], true, 3) == [[3, 4, 5]];
    assert Step(m, 0, [], true, 4) == [];
    assert Step(m, 0, [], true, 5) == [];
    assert SearchFrom(m, 0, [], true, 6) == [];
    assert SearchFrom(m, 0, [], true, 5) == [];
    assert SearchFrom(m, 0, [], true, 4) == [];
  }

  lemma ForkedFrom0(m: Matrix)
    requires Forked(m)
    ensures Square(m, |m|)
    ensures Search(m, 0, [], true) == [[1, 2], [3, 4, 5]]
  {
    ForkedShape(m);
    ForkedFrom0Upper(m);
    ForkedFrom1(m);
    assert [] + [0] == [0];
    PrefixedSingle(1, [2]);
    assert [1] + [2] == [1, 2];
    assert Step(m, 0, [], true, 1) == [[1, 2]];
    assert Step(m, 0, [], true, 0) == [];
    assert Step(m, 0, [], true, 2) == [];
    assert SearchFrom(m, 0, [], true, 2) == [[3, 4, 5]];
    assert SearchFrom(m, 0, [], true, 1) == [[1, 2], [3, 4, 5]];
    assert SearchFrom(m, 0, [], true, 0) == [[1, 2], [3, 4, 5]];
  }

  /** The stored ways of node 0: the search yields [1, 2] and [3, 4, 5], and
      sorting keeps them in that order. */
  lemma ForkedWays(m: Matrix)
    requires Forked(m)
    ensures Square(m, |m|)
    ensures SortWays(Search(m, 0, [], true)) == [[1, 2], [3, 4, 5]]
  {
    ForkedFrom0(m);
    var ws: seq<Way> := [[1, 2], [3, 4, 5]];
    assert ws[1..] == [[3, 4, 5]];
    assert SortWays([[3, 4, 5]]) == [[3, 4, 5]];
  }

  /** The six named nodes of the forked graph, each with a test bound whose
      target is true. */
  const ForkedNodes: seq<Node.Status> := [
    Node.Status("n0", true, true, 0.0), Node.Status("n1", true, true, 0.0),
    Node.Status("n2", true, true, 0.0), Node.Status("n3", true, true, 0.0),
    Node.Status("n4", true, true, 0.0), Node.Status("n5", true, true, 0.0)]

  /** Evaluation from node 0 over the ways [1, 2] and [3, 4, 5], with every
      test met except node 1's. */
  lemma ForkedEvaluation()
    ensures Evaluate(Env(ForkedNodes, i => i != 1, false), Last, 0, [[1, 2], [3, 4, 5]]) == (true, [0, 1, 3, 4, 5])
  {
    var e := Env(ForkedNodes, i => i != 1, false);
    var ws: seq<Way> := [[1, 2], [3, 4, 5]];
    assert Met(e, 0) && !Met(e, 1) && Met(e, 3) && Met(e, 4) && Met(e, 5);
    assert WalkFrom(e, Last, [1, 2], 0) == (false, [1]);
    assert WalkFrom(e, Last, [3, 4, 5], 2) == (true, [5]);
    assert [4] + [5] == [4, 5] && [3] + [4, 5] == [3, 4, 5];
    assert WalkFrom(e, Last, [3, 4, 5], 1) == (true, [4] + [5]);
    assert WalkFrom(e, Last, [3, 4, 5], 0) == (true, [3] + [4, 5]);
    assert TryFrom(e, Last, ws, 1) == (true, [3, 4, 5]);
    assert TryFrom(e, Last, ws, 0) == (true, [1] + [3, 4, 5]);
    assert [0] + ([1] + [3, 4, 5]) == [0, 1, 3, 4, 5];
  }

  /** Evaluation from node 0 over the ways the store holds for it, with every
      test met except node 1's: the way through 1 is abandoned at 1, so node 2 is
      never evaluated, and the way to 5 makes the answer true. */
  lemma ShortCircuit(m: Matrix)
    requires Forked(m)
    ensures Square(m, |m|)
    ensures Evaluate(Env(ForkedNodes, i => i != 1, false), Last, 0, SortWays(Search(m, 0, [], true))) ==
      (true, [0, 1, 3, 4, 5])
  {
    ForkedWays(m);
    ForkedEvaluation();
  }
}
