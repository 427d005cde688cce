/** The path enumerator: every route from a node to each node it can reach without
    revisiting an ancestor, ending at an accepting node (or at a self-loop when
    self-loops are not skipped), and the ranking and filtering of those routes. */
module Paths {
  import opened Matrix

  /** A path: the ids visited after the source, in order. */
  type Way = seq<nat>

  /** `find_status_in_way`: a linear scan for `id`. */
  function FindStatusInWay(way: seq<nat>, id: int): (found: bool)
    ensures found <==> exists k :: 0 <= k < |way| && way[k] == id
  {
    if way == [] then false
    else way[0] == id || FindStatusInWay(way[1..], id)
  }

  /** `is_accept_status`: no edge from `id` to a different node; self-loops are ignored. */
  predicate Accepting(m: Matrix, id: nat)
    requires Square(m, |m|) && id < |m|
  {
    forall j :: 0 <= j < |m| && j != id ==> !m[id][j]
  }

  /** The node ids not yet on the ancestor chain; it shrinks with every recursive call. */
  function Unvisited(n: nat, searched: seq<nat>): set<nat>
  {
    set k: nat | k < n && k !in searched
  }

  lemma UnvisitedShrinks(n: nat, searched: seq<nat>, src: nat)
    requires src < n && src !in searched
    ensures Unvisited(n, searched + [src]) < Unvisited(n, searched)
  {
    assert src in Unvisited(n, searched);
  }

  /** Prepend `x` to each way. */
  function Prefixed(x: nat, ws: seq<Way>): (r: seq<Way>)
    ensures |r| == |ws|
    ensures forall k :: 0 <= k < |ws| ==> r[k] == [x] + ws[k]
  {
    seq(|ws|, k requires 0 <= k < |ws| => [x] + ws[k])
  }

  /** `search_from_source(src, searched, skip_self)`; `searched` is the ancestor
      chain, which the source pushes and pops around each recursive call. */
  function Search(m: Matrix, src: nat, searched: seq<nat>, skipSelf: bool): seq<Way>
    requires Square(m, |m|) && src < |m| && src !in searched
    decreases Unvisited(|m|, searched), 1, 0, 0
  {
    SearchFrom(m, src, searched, skipSelf, 0)
  }

  /** The iterations of the `dst_id` loop from `dst` on. */
  function SearchFrom(m: Matrix, src: nat, searched: seq<nat>, skipSelf: bool, dst: nat): seq<Way>
    requires Square(m, |m|) && src < |m| && src !in searched && dst <= |m|
    decreases Unvisited(|m|, searched), 0, |m| - dst, 1
  {
    if dst == |m| then []
    else Step(m, src, searched, skipSelf, dst) + SearchFrom(m, src, searched, skipSelf, dst + 1)
  }

  /** One iteration of the `dst_id` loop: the ways through successor `dst`. */
  function Step(m: Matrix, src: nat, searched: seq<nat>, skipSelf: bool, dst: nat): seq<Way>
    requires Square(m, |m|) && src < |m| && src !in searched && dst < |m|
    decreases Unvisited(|m|, searched), 0, |m| - dst, 0
  {
    if FindStatusInWay(searched, dst) || !m[src][dst] then []
    else if src == dst then (if skipSelf then [] else [[dst]])
    else if Accepting(m, dst) then [[dst]]
    else
      assert Unvisited(|m|, searched + [src]) < Unvisited(|m|, searched) by {
        UnvisitedShrinks(|m|, searched, src);
      }
      Prefixed(dst, Search(m, dst, searched + [src], skipSelf))
  }

  /** The declarative reading of one search step: the ways that `search_from_source`
      produces through successor `p[0]`. */
  predicate Yields(m: Matrix, src: nat, searched: seq<nat>, skipSelf: bool, p: Way)
    requires Square(m, |m|) && src < |m| && src !in searched
    decreases Unvisited(|m|, searched), 0
  {
    |p| > 0 && p[0] < |m| && p[0] !in searched && m[src][p[0]] &&
    if p[0] == src then !skipSelf && p == [src]
    else if Accepting(m, p[0]) then p == [p[0]]
    else p[1..] in Search(m, p[0], searched + [src], skipSelf)
  }

  lemma StepMembers(m: Matrix, src: nat, searched: seq<nat>, skipSelf: bool, dst: nat, p: Way)
    requires Square(m, |m|) && src < |m| && src !in searched && dst < |m|
    ensures p in Step(m, src, searched, skipSelf, dst) <==> Yields(m, src, searched, skipSelf, p) && p[0] == dst
  {
    if !FindStatusInWay(searched, dst) && m[src][dst] && src != dst && !Accepting(m, dst) {
      var sub := Search(m, dst, searched + [src], skipSelf);
      if |p| > 0 && p[0] == dst && p[1..] in sub {
        var k :| 0 <= k < |sub| && sub[k] == p[1..];
        assert Prefixed(dst, sub)[k] == p;
      }
    }
  }

  lemma {:induction false} SearchFromMembers(m: Matrix, src: nat, searched: seq<nat>, skipSelf: bool, dst: nat, p: Way)
    requires Square(m, |m|) && src < |m| && src !in searched && dst <= |m|
    ensures p in SearchFrom(m, src, searched, skipSelf, dst) <==> (Yields(m, src, searched, skipSelf, p) && dst <= p[0])
    decreases |m| - dst
  {
    if dst < |m| {
      SearchFromMembers(m, src, searched, skipSelf, dst + 1, p);
      StepMembers(m, src, searched, skipSelf, dst, p);
    }
  }

  /** Membership in the search result, in both directions: a way is produced iff
      its first id is an unvisited successor of `src` and it is a self-loop path
      (only when self-loops are kept), a one-step path to an accepting node, or a
      non-accepting successor followed by a way found from it. In particular a
      non-accepting successor whose own search is empty contributes nothing. */
  lemma SearchMembers(m: Matrix, src: nat, searched: seq<nat>, skipSelf: bool, p: Way)
    requires Square(m, |m|) && src < |m| && src !in searched
    ensures p in Search(m, src, searched, skipSelf) <==> Yields(m, src, searched, skipSelf, p)
  {
    SearchFromMembers(m, src, searched, skipSelf, 0, p);
  }

  /** A walk in the graph that starts at a successor of `src`. */
  predicate IsWalk(m: Matrix, src: nat, p: Way)
    requires Square(m, |m|) && src < |m|
  {
    |p| > 0 &&
    (forall k :: 0 <= k < |p| ==> p[k] < |m|) &&
    m[src][p[0]] &&
    (forall k :: 0 <= k < |p| - 1 ==> m[p[k]][p[k + 1]])
  }

  /** How a way may end: at an accepting node, or, only when self-loops are kept,
      at a node with a self-loop. */
  predicate Terminal(m: Matrix, p: Way, skipSelf: bool)
    requires Square(m, |m|) && |p| > 0 && p[|p| - 1] < |m|
  {
    var last := p[|p| - 1];
    Accepting(m, last) || (!skipSelf && m[last][last])
  }

  predicate Distinct(p: Way)
  {
    forall i, j :: 0 <= i < j < |p| ==> p[i] != p[j]
  }

  /** The shape of every enumerated way: a walk from a successor of `src`, avoiding
      the ancestors, ending at a terminal node; when self-loops are skipped it
      repeats no id and never contains `src`. */
  lemma {:induction false} SearchShape(m: Matrix, src: nat, searched: seq<nat>, skipSelf: bool, p: Way)
    requires Square(m, |m|) && src < |m| && src !in searched
    requires p in Search(m, src, searched, skipSelf)
    ensures IsWalk(m, src, p)
    ensures forall k :: 0 <= k < |p| ==> p[k] !in searched
    ensures Terminal(m, p, skipSelf)
    ensures skipSelf ==> Distinct(p) && src !in p
    decreases Unvisited(|m|, searched)
  {
    SearchMembers(m, src, searched, skipSelf, p);
    var d := p[0];
    if d != src && !Accepting(m, d) {
      var q := p[1..];
      UnvisitedShrinks(|m|, searched, src);
      SearchShape(m, d, searched + [src], skipSelf, q);
      assert p == [d] + q;
      forall k | 0 <= k < |p| - 1
        ensures m[p[k]][p[k + 1]]
      {
        if k > 0 {
          assert p[k] == q[k - 1] && p[k + 1] == q[k];
        }
      }
      forall k | 0 <= k < |p|
        ensures p[k] !in searched
      {
        if k > 0 {
          assert p[k] == q[k - 1];
          assert q[k - 1] !in searched + [src];
        }
      }
      assert p[|p| - 1] == q[|q| - 1];
      if skipSelf {
        forall i, j | 0 <= i < j < |p|
          ensures p[i] != p[j]
        {
          assert p[j] == q[j - 1];
          if i > 0 {
            assert p[i] == q[i - 1];
          }
        }
        forall k | 0 <= k < |p|
          ensures p[k] != src
        {
          if k > 0 {
            assert p[k] == q[k - 1];
            assert q[k - 1] !in searched + [src];
          }
        }
      }
    }
  }

  /** The converse of `SearchShape`: every walk from a successor of `src` that
      repeats no id, avoids `src` and the ancestors, and ends at an accepting node
      is enumerated, whether or not self-loops are skipped. */
  lemma {:induction false} SearchComplete(m: Matrix, src: nat, searched: seq<nat>, skipSelf: bool, p: Way)
    requires Square(m, |m|) && src < |m| && src !in searched
    requires IsWalk(m, src, p) && Distinct(p) && src !in p
    requires forall k :: 0 <= k < |p| ==> p[k] !in searched
    requires Accepting(m, p[|p| - 1])
    ensures p in Search(m, src, searched, skipSelf)
    decreases |p|
  {
    SearchMembers(m, src, searched, skipSelf, p);
    assert p[0] != src && p[0] !in searched;
    if |p| > 1 {
      assert !Accepting(m, p[0]) by {
        assert m[p[0]][p[1]] && p[1] != p[0];
      }
      var q := p[1..];
      forall k | 0 <= k < |q|
        ensures q[k] !in searched + [src]
      {
        assert q[k] == p[k + 1];
      }
      assert forall k :: 0 <= k < |q| - 1 ==> m[q[k]][q[k + 1]] by {
        forall k | 0 <= k < |q| - 1
          ensures m[q[k]][q[k + 1]]
        {
          assert q[k] == p[k + 1] && q[k + 1] == p[k + 2];
        }
      }
      assert Distinct(q) by {
        forall i, j | 0 <= i < j < |q|
          ensures q[i] != q[j]
        {
          assert q[i] == p[i + 1] && q[j] == p[j + 1];
        }
      }
      assert p[0] !in q by {
        forall k | 0 <= k < |q|
          ensures q[k] != p[0]
        {
          assert q[k] == p[k + 1];
        }
      }
      assert q[|q| - 1] == p[|p| - 1];
      SearchComplete(m, p[0], searched + [src], skipSelf, q);
    } else {
      assert p == [p[0]];
    }
  }

  /** When self-loops are kept, a self-loop on an inner node shows up as a repeated
      id: with edges 0 -> 1, 1 -> 1 and 1 -> 2, the search from 0 yields [1, 1]. */
  lemma KeptSelfLoopRepeats()
    ensures var m := [[false, true, false], [false, true, true], [false, false, false]];
      [1, 1] in Search(m, 0, [], false) && !Distinct([1, 1])
  {
    var m := [[false, true, false], [false, true, true], [false, false, false]];
    assert !Accepting(m, 1) by {
      assert m[1][2];
    }
    assert Square(m, 3);
    assert Yields(m, 1, [0], false, [1]);
    SearchMembers(m, 1, [0], false, [1]);
    assert [1, 1][1..] == [1] && [] + [0] == [0];
    assert Yields(m, 0, [], false, [1, 1]);
    SearchMembers(m, 0, [], false, [1, 1]);
  }

  /** An accepting node without a kept self-loop has no ways, so `test` on it
      returns false at once. */
  lemma AcceptingHasNoWays(m: Matrix, src: nat, skipSelf: bool)
    requires Square(m, |m|) && src < |m| && Accepting(m, src)
    requires skipSelf || !m[src][src]
    ensures Search(m, src, [], skipSelf) == []
  {
    if Search(m, src, [], skipSelf) != [] {
      var p := Search(m, src, [], skipSelf)[0];
      SearchMembers(m, src, [], skipSelf, p);
    }
  }

  /** Every id on every way is a node of the graph. */
  predicate WaysBelow(ws: seq<Way>, n: nat)
  {
    forall j, k :: 0 <= j < |ws| && 0 <= k < |ws[j]| ==> ws[j][k] < n
  }

  lemma SearchBelow(m: Matrix, src: nat, skipSelf: bool)
    requires Square(m, |m|) && src < |m|
    ensures WaysBelow(Search(m, src, [], skipSelf), |m|)
  {
    var ws := Search(m, src, [], skipSelf);
    forall j, k | 0 <= j < |ws| && 0 <= k < |ws[j]|
      ensures ws[j][k] < |m|
    {
      SearchShape(m, src, [], skipSelf, ws[j]);
    }
  }

  // ---------------------------------------------------------------- ranking

  /** Nondecreasing path length: what `sort_ways` establishes. */
  predicate ShortestFirst(ws: seq<Way>)
  {
    forall i, j :: 0 <= i < j < |ws| ==> |ws[i]| <= |ws[j]|
  }

  function InsertByLength(w: Way, ws: seq<Way>): seq<Way>
  {
    if ws == [] then [w]
    else if |w| <= |ws[0]| then [w] + ws
    else [ws[0]] + InsertByLength(w, ws[1..])
  }

  lemma {:induction false} InsertByLengthPerm(w: Way, ws: seq<Way>)
    ensures multiset(InsertByLength(w, ws)) == multiset(ws) + multiset{w}
  {
    if ws != [] && |w| > |ws[0]| {
      InsertByLengthPerm(w, ws[1..]);
      calc {
        multiset(InsertByLength(w, ws));
        multiset([ws[0]]) + multiset(InsertByLength(w, ws[1..]));
        multiset([ws[0]]) + multiset(ws[1..]) + multiset{w};
        { assert ws == [ws[0]] + ws[1..]; }
        multiset(ws) + multiset{w};
      }
    }
  }

  /** A way no longer than the head of a sorted list keeps it sorted in front. */
  lemma ConsShortestFirst(w: Way, ws: seq<Way>)
    requires ShortestFirst(ws) && (ws != [] ==> |w| <= |ws[0]|)
    ensures ShortestFirst([w] + ws)
  {
    var r := [w] + ws;
    forall i, j | 0 <= i < j < |r|
      ensures |r[i]| <= |r[j]|
    {
      if i == 0 && j > 1 {
        assert |ws[0]| <= |ws[j - 1]|;
      }
    }
  }

  lemma {:induction false} InsertByLengthOrder(w: Way, ws: seq<Way>)
    requires ShortestFirst(ws)
    ensures ShortestFirst(InsertByLength(w, ws))
  {
    if ws == [] || |w| <= |ws[0]| {
      ConsShortestFirst(w, ws);
    } else {
      var tail := ws[1..];
      var rest := InsertByLength(w, tail);
      assert ShortestFirst(tail);
      InsertByLengthOrder(w, tail);
      assert rest[0] == (if tail == [] || |w| <= |tail[0]| then w else tail[0]);
      assert tail != [] ==> |ws[0]| <= |tail[0]|;
      ConsShortestFirst(ws[0], rest);
    }
  }

  /** `sort_ways(ways)` with the default comparator `w1.size() < w2.size()`:
      insertion of each way before the first longer one. */
  function SortWays(ws: seq<Way>): seq<Way>
  {
    if ws == [] then [] else InsertByLength(ws[0], SortWays(ws[1..]))
  }

  /** Sorting is a permutation and leaves the ways shortest first. The source uses
      `std::sort`, which fixes no order among ways of equal length; the model picks
      the stable one, and this contract promises only what `std::sort` does. */
  lemma {:induction false} SortWaysSpec(ws: seq<Way>)
    ensures multiset(SortWays(ws)) == multiset(ws)
    ensures ShortestFirst(SortWays(ws))
  {
    if ws != [] {
      var rest := SortWays(ws[1..]);
      SortWaysSpec(ws[1..]);
      InsertByLengthPerm(ws[0], rest);
      InsertByLengthOrder(ws[0], rest);
      assert ws == [ws[0]] + ws[1..];
    }
  }

  /** Sorting loses and invents no way, so the id bound survives it. */
  lemma SortWaysBelow(ws: seq<Way>, n: nat)
    requires WaysBelow(ws, n)
    ensures WaysBelow(SortWays(ws), n)
  {
    var r := SortWays(ws);
    SortWaysSpec(ws);
    forall j, k | 0 <= j < |r| && 0 <= k < |r[j]|
      ensures r[j][k] < n
    {
      assert r[j] in multiset(ws);
      var i :| 0 <= i < |ws| && ws[i] == r[j];
    }
  }

  // ---------------------------------------------------------------- filtering

  /** `find_ways`: the stored ways that pass through `dst`, in stored order. */
  function WaysThrough(ws: seq<Way>, dst: int): seq<Way>
  {
    if ws == [] then []
    else if FindStatusInWay(ws[0], dst) then [ws[0]] + WaysThrough(ws[1..], dst)
    else WaysThrough(ws[1..], dst)
  }

  /** The candidates of `test(src, dst)` are exactly the stored ways containing `dst`. */
  lemma {:induction false} WaysThroughMembers(ws: seq<Way>, dst: int, p: Way)
    ensures |WaysThrough(ws, dst)| <= |ws|
    ensures p in WaysThrough(ws, dst) <==> p in ws && FindStatusInWay(p, dst)
  {
    if ws != [] {
      WaysThroughMembers(ws[1..], dst, p);
      assert ws == [ws[0]] + ws[1..];
    }
  }

  /** The filter keeps the stored order: it distributes over concatenation. */
  lemma {:induction false} WaysThroughAppend(ws1: seq<Way>, ws2: seq<Way>, dst: int)
    ensures WaysThrough(ws1 + ws2, dst) == WaysThrough(ws1, dst) + WaysThrough(ws2, dst)
  {
    if ws1 == [] {
      assert ws1 + ws2 == ws2;
    } else {
      WaysThroughAppend(ws1[1..], ws2, dst);
      assert (ws1 + ws2)[0] == ws1[0] && (ws1 + ws2)[1..] == ws1[1..] + ws2;
    }
  }

  /** Filtering keeps the id bound. */
  lemma {:induction false} WaysThroughBelow(ws: seq<Way>, dst: int, n: nat)
    requires WaysBelow(ws, n)
    ensures WaysBelow(WaysThrough(ws, dst), n)
  {
    if ws != [] {
      assert WaysBelow(ws[1..], n) by {
        forall j, k | 0 <= j < |ws[1..]| && 0 <= k < |ws[1..][j]|
          ensures ws[1..][j][k] < n
        {
          assert ws[1..][j] == ws[j + 1];
        }
      }
      WaysThroughBelow(ws[1..], dst, n);
    }
  }
}
