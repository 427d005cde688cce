/** The graph store and evaluator: class `NFA` of nfa.hpp. Nodes are registered by
    name with sequential ids, edges live in a forward and a reverse (transposed)
    adjacency matrix, and every `connect` rebuilds the whole path table that the
    `test` overloads walk. */
module Automaton {
  import Node
  import opened Matrix
  import opened Paths
  import opened Eval
  import opened Store

  /** `_way_pointers[k]` on a `std::map`: a missing key is inserted with no ways. */
  function Touch(ways: map<int, seq<Way>>, k: int): (r: map<int, seq<Way>>)
    ensures k in r && r.Keys == ways.Keys + {k}
    ensures forall j :: j in ways ==> r[j] == ways[j]
    ensures k !in ways ==> r[k] == []
  {
    if k in ways then ways else ways[k := []]
  }

  class Nfa {
    /** `_config.config_skip_self` and `_config.config_reverse`: public, and read
        afresh by every rebuild and every evaluation. */
    var skipSelf: bool
    var reverse: bool
    /** `_hashtbl`: name to id. */
    var hashtbl: map<string, nat>
    /** `_status`: the node of each id. */
    var status: seq<Node.Status>
    /** `_adjacency_graph` and `_reverse_adjacency_graph`. */
    var adj: Matrix
    var radj: Matrix
    /** `_way_pointers`: the stored ways of each id. */
    var ways: map<int, seq<Way>>

    /** The store as a value. */
    ghost function G(): Graph
      reads this
    {
      Graph(hashtbl, status, adj, radj)
    }

    /** The store's invariant: both matrices square with side `size()`, the reverse
        matrix the transpose of the forward one, the name table a bijection onto the
        ids, and every stored way made of node ids. */
    ghost predicate Valid()
      reads this
    {
      GraphOk(G()) && StoredBelow(ways, |status|)
    }

    /** The path table holds exactly the ids below `k`, each with its search
        result sorted shortest first. */
    ghost predicate PathsBuiltBelow(k: nat, skip: bool)
      reads this
      requires Valid()
    {
      Built(ways, adj, k, skip)
    }

    /** What `update_all_ways(skip)` leaves behind when it completes. */
    ghost predicate PathsCurrent(skip: bool)
      reads this
      requires Valid()
    {
      PathsBuiltBelow(|status|, skip)
    }

    /** Every id in `ids` is a node with a test callback bound; evaluating one
        without it ends the program. */
    ghost predicate Testable(ids: seq<nat>)
      reads this
    {
      forall k :: 0 <= k < |ids| ==> ids[k] < |status| && status[ids[k]].hasTest
    }

    /** The first `n` ids of way `w` are nodes with a test callback bound. */
    ghost predicate TestableUpTo(w: Way, n: nat)
      reads this
    {
      forall j :: 0 <= j < n && j < |w| ==> w[j] < |status| && status[w[j]].hasTest
    }

    /** When every id a run of the ways from `k` evaluates (after `trace`) is
        testable, so is every id that way `k` evaluates. */
    lemma TestableNext(e: Env, t: Target, ws: seq<Way>, k: nat, trace: seq<nat>)
      requires k < |ws|
      requires Testable(trace + TryFrom(e, t, ws, k).1)
      ensures TestableUpTo(ws[k], |WalkFrom(e, t, ws[k], 0).1|)
    {
      var w := WalkFrom(e, t, ws[k], 0).1;
      var all := trace + TryFrom(e, t, ws, k).1;
      WalkFromPrefix(e, t, ws[k], 0);
      assert TryFrom(e, t, ws, k).1[..|w|] == w;
      forall j | 0 <= j < |w| && j < |ws[k]|
        ensures ws[k][j] < |status| && status[ws[k][j]].hasTest
      {
        assert all[|trace| + j] == w[j] == ws[k][j];
      }
    }

    constructor ()
      ensures Valid() && PathsCurrent(true)
      ensures skipSelf && !reverse
      ensures hashtbl == map[] && status == [] && adj == [] && radj == [] && ways == map[]
    {
      skipSelf, reverse := true, false;
      hashtbl, status, adj, radj, ways := map[], [], [], [], map[];
    }

    /** `find_status`: whether `id` names a registered node. */
    function FindStatus(id: int): (found: bool)
      reads this
      requires Valid()
      ensures found <==> exists n :: n in hashtbl && hashtbl[n] == id
    {
      assert 0 <= id < |status| ==> status[id].name in hashtbl;
      0 <= id < |status|
    }

    /** `find_status_id`: the id of `name`, or -1 when it is not registered. */
    function FindStatusId(name: string): (id: int)
      reads this
      requires Valid()
      ensures id == -1 <==> name !in hashtbl
      ensures id != -1 ==> 0 <= id < |status| && status[id].name == name
    {
      if name in hashtbl then hashtbl[name] else -1
    }

    /** `find_status_name`: a scan of the name table for the entry holding `id`;
        the empty name when there is none. */
    method FindStatusName(id: int) returns (name: string)
      requires Valid()
      ensures 0 <= id < |status| ==> name == status[id].name
      ensures !(0 <= id < |status|) ==> name == ""
    {
      var keys := hashtbl.Keys;
      while keys != {}
        invariant keys <= hashtbl.Keys
        invariant forall n :: n in hashtbl && n !in keys ==> hashtbl[n] != id
        decreases keys
      {
        var n :| n in keys;
        if hashtbl[n] == id {
          return n;
        }
        keys := keys - {n};
      }
      return "";
    }

    /** `is_accept_status`: 1 when no edge leaves `id` for another node, else 0. */
    method IsAcceptStatus(id: int) returns (r: int)
      requires Valid() && 0 <= id < |status|
      ensures r == if Accepting(adj, id) then 1 else 0
    {
      var outs := adj[id];
      var d := 0;
      while d < |status|
        invariant 0 <= d <= |status|
        invariant forall j :: 0 <= j < d && j != id ==> !outs[j]
      {
        if d != id && outs[d] {
          return 0;
        }
        d := d + 1;
      }
      return 1;
    }

    /** `is_accept_status_by_name`: -1 for an unknown name. */
    method IsAcceptStatusByName(name: string) returns (r: int)
      requires Valid()
      ensures name !in hashtbl ==> r == -1
      ensures name in hashtbl ==> r == if Accepting(adj, hashtbl[name]) then 1 else 0
    {
      var id := FindStatusId(name);
      if id == -1 {
        return -1;
      }
      r := IsAcceptStatus(id);
    }

    /** `update`: pad the rows of both matrices up to `size()`. */
    method Update()
      requires |adj| == |radj| == |status|
      requires forall i :: 0 <= i < |adj| ==> |adj[i]| <= |status| && |radj[i]| <= |status|
      modifies this`adj, this`radj
      ensures |adj| == |radj| == |status|
      ensures forall i :: 0 <= i < |adj| ==> adj[i] == Pad(old(adj)[i], |status|)
      ensures forall i :: 0 <= i < |radj| ==> radj[i] == Pad(old(radj)[i], |status|)
    {
      adj := PadRows(adj, |status|);
      radj := PadRows(radj, |status|);
    }

    /** `update_all_ways`: clear the path table and refill it id by id; an id whose
        name reads back as "" aborts the rebuild with the entries below it in place. */
    method UpdateAllWays(skip: bool) returns (ok: bool)
      requires Valid()
      modifies this`ways
      ensures Valid()
      ensures ok <==> "" !in hashtbl
      ensures ok ==> PathsCurrent(skip)
      ensures !ok ==> PathsBuiltBelow(hashtbl[""], skip)
    {
      ways := map[];
      var i := 0;
      while i < |adj|
        invariant 0 <= i <= |adj|
        invariant StoredBelow(ways, |status|)
        invariant Built(ways, adj, i, skip)
        invariant "" in hashtbl ==> i <= hashtbl[""]
      {
        var name := FindStatusName(i);
        if name == "" {
          return false;
        }
        var found := SortWays(Search(adj, i, [], skip));
        SearchBelow(adj, i, skip);
        SortWaysBelow(Search(adj, i, [], skip), |status|);
        StoredBelowStep(ways, |status|, i, found);
        BuiltStep(ways, adj, i, skip);
        ways := ways[i := found];
        i := i + 1;
      }
      return true;
    }

    /** The registration half of `connect` for one node: an unknown name gets the
        next id and an all-false row of the new size in both matrices. */
    method Register(s: Node.Status) returns (id: nat)
      requires TableOk(hashtbl, status) && |adj| == |radj| == |status|
      modifies this`hashtbl, this`status, this`adj, this`radj
      ensures hashtbl == Store.Register(old(hashtbl), old(status), s).0
      ensures status == Store.Register(old(hashtbl), old(status), s).1
      ensures TableOk(hashtbl, status) && s.name in hashtbl && id == hashtbl[s.name]
      ensures |adj| == |radj| == |status|
      ensures Grown(old(adj), adj) && Grown(old(radj), radj)
    {
      RegisterOk(hashtbl, status, s);
      if s.name !in hashtbl {
        hashtbl := hashtbl[s.name := |status|];
        status := status + [s];
        adj := adj + [Falses(|status|)];
        radj := radj + [Falses(|status|)];
      }
      id := hashtbl[s.name];
    }

    /** The registration half of `connect(src, dst)`: src, then dst. */
    method RegisterPair(src: Node.Status, dst: Node.Status) returns (srcId: nat, dstId: nat)
      requires GraphOk(G())
      modifies this`hashtbl, this`status, this`adj, this`radj
      ensures hashtbl == Connected(old(G()), src, dst).tbl
      ensures status == Connected(old(G()), src, dst).nodes
      ensures srcId == hashtbl[src.name] && dstId == hashtbl[dst.name]
      ensures |adj| == |radj| == |status| && |old(adj)| <= |status|
      ensures Grown(old(adj), adj) && Grown(old(radj), radj)
      ensures forall i :: 0 <= i < |old(adj)| ==> |old(adj)[i]| <= |status| && |old(radj)[i]| <= |status|
    {
      ghost var tbl0 := hashtbl;
      srcId := Register(src);
      ghost var adj1, radj1, tbl1 := adj, radj, hashtbl;
      dstId := Register(dst);
      assert srcId == hashtbl[src.name] by {
        assert src.name in tbl1 && hashtbl[src.name] == tbl1[src.name];
      }
      GrownTrans(old(adj), adj1, adj);
      GrownTrans(old(radj), radj1, radj);
    }

    /** `connect(src, dst)` up to the rebuild of the path table: register the
        names not yet known, grow and pad both matrices, set the edge and its
        transpose. */
    method Rewire(src: Node.Status, dst: Node.Status)
      requires GraphOk(G())
      modifies this`hashtbl, this`status, this`adj, this`radj
      ensures G() == Connected(old(G()), src, dst)
    {
      ghost var g0 := G();
      var srcId, dstId := RegisterPair(src, dst);
      ghost var grown, rgrown := adj, radj;
      assert forall i :: 0 <= i < |adj| ==> |adj[i]| <= |status| && |radj[i]| <= |status|;
      Update();
      PaddedGrowth(g0.adj, grown, adj, |status|);
      PaddedGrowth(g0.radj, rgrown, radj, |status|);
      ConnectedParts(g0, src, dst, hashtbl, status, adj, radj);
      adj := adj[srcId := adj[srcId][dstId := true]];
      radj := radj[dstId := radj[dstId][srcId := true]];
    }

    /** `connect(src, dst)`: rewire, then rebuild the path table. Repeating a
        `connect` whose edge is present changes nothing. */
    method Connect(src: Node.Status, dst: Node.Status) returns (ok: bool)
      requires Valid()
      modifies this`hashtbl, this`status, this`adj, this`radj, this`ways
      ensures Valid()
      ensures G() == Connected(old(G()), src, dst)
      ensures ok <==> "" !in hashtbl
      ensures ok ==> PathsCurrent(skipSelf)
      ensures !ok ==> PathsBuiltBelow(hashtbl[""], skipSelf)
      ensures old(Linked(G(), src.name, dst.name)) ==> G() == old(G())
      ensures old(Linked(G(), src.name, dst.name) && PathsCurrent(skipSelf)) && ok ==> ways == old(ways)
    {
      ghost var g0, ways0 := G(), ways;
      ghost var linked := Linked(g0, src.name, dst.name);
      ghost var current := PathsCurrent(skipSelf);
      Rewire(src, dst);
      ConnectedOk(g0, src, dst);
      StoredBelowGrow(ways, |g0.nodes|, |status|);
      if linked {
        ConnectedIdempotent(g0, src, dst);
      }
      ok := UpdateAllWays(skipSelf);
      if ok && linked && current {
        BuiltUnique(ways, ways0, adj, skipSelf);
      }
    }

    /** `status_test_run(id)`: evaluate the node's test and run its action; the
        action's result and any exception it throws are dropped. */
    method StatusTestRun(id: int, raw: nat -> bool) returns (meet: bool, signal: bool)
      requires 0 <= id < |status| && status[id].hasTest
      ensures meet == Met(Env(status, raw, reverse), id)
      ensures signal == (raw(id) == status[id].target)
    {
      var s := status[id];
      meet := Node.Test(s, raw(id), reverse);
      signal := Node.RunSignal(meet, reverse);
      Node.RunSignalIgnoresReverse(s, raw(id), reverse);
    }

    /** The inner loop shared by `test(src)` and `test(src, dst)`: evaluate the
        nodes of one way in order, stopping at its first unmet node or at its goal;
        `evaluated` lists the ids evaluated. */
    method WalkWay(w: Way, t: Target, raw: nat -> bool) returns (success: bool, evaluated: seq<nat>)
      requires TestableUpTo(w, |WalkFrom(Env(status, raw, reverse), t, w, 0).1|)
      requires forall j :: 0 <= j < |w| ==> w[j] < |status|
      ensures (success, evaluated) == WalkFrom(Env(status, raw, reverse), t, w, 0)
    {
      ghost var e := Env(status, raw, reverse);
      WalkFromPrefix(e, t, w, 0);
      var i := 0;
      while i < |w|
        invariant 0 <= i <= |w|
        invariant WalkFrom(e, t, w, 0).0 == WalkFrom(e, t, w, i).0
        invariant |WalkFrom(e, t, w, 0).1| == i + |WalkFrom(e, t, w, i).1|
      {
        var id := w[i];
        var met, _ := StatusTestRun(id, raw);
        if !met {
          return false, w[..i + 1];
        }
        if IsGoal(t, w, i) {
          return true, w[..i + 1];
        }
        i := i + 1;
      }
      assert WalkFrom(e, t, w, 0).1 == w[0..|w|] == w;
      return false, w;
    }

    /** The outer loop shared by `test(src)` and `test(src, dst)`, from the empty
        check on: evaluate `src`, then the ways in order; the first way that
        succeeds makes the answer true. `trace` lists the ids evaluated, in order. */
    method WalkWays(src: int, ws: seq<Way>, t: Target, raw: nat -> bool) returns (r: bool, trace: seq<nat>)
      requires 0 <= src < |status| && WaysBelow(ws, |status|)
      requires Testable(Evaluate(Env(status, raw, reverse), t, src, ws).1)
      ensures (r, trace) == Evaluate(Env(status, raw, reverse), t, src, ws)
    {
      if |ws| == 0 {
        return false, [];
      }
      ghost var e := Env(status, raw, reverse);
      assert Evaluate(e, t, src, ws).1[0] == src;
      var m, _ := StatusTestRun(src, raw);
      if !m {
        return false, [src];
      }
      trace := [src];
      var k := 0;
      while k < |ws|
        invariant 0 <= k <= |ws|
        invariant Evaluate(e, t, src, ws).0 == TryFrom(e, t, ws, k).0
        invariant Evaluate(e, t, src, ws).1 == trace + TryFrom(e, t, ws, k).1
      {
        TestableNext(e, t, ws, k, trace);
        TryFromAt(e, t, ws, k, trace);
        var success, evaluated := WalkWay(ws[k], t, raw);
        trace := trace + evaluated;
        if success {
          return true, trace;
        }
        k := k + 1;
      }
      assert Evaluate(e, t, src, ws).1 == trace + [] == trace;
      r := false;
    }

    /** `test(src)`: false with nothing evaluated for an unknown id; otherwise the
        stored ways of `src`, each succeeding at its last node. */
    method Test(src: int, raw: nat -> bool) returns (r: bool, trace: seq<nat>)
      requires Valid()
      requires 0 <= src < |status| ==>
        Testable(Evaluate(Env(status, raw, reverse), Last, src, Touch(ways, src)[src]).1)
      modifies this`ways
      ensures Valid()
      ensures ways == if 0 <= src < |status| then Touch(old(ways), src) else old(ways)
      ensures !(0 <= src < |status|) ==> !r && trace == []
      ensures 0 <= src < |status| ==> (r, trace) == Evaluate(Env(status, raw, reverse), Last, src, ways[src])
    {
      if !FindStatus(src) {
        return false, [];
      }
      StoredBelowStep(ways, |status|, src, []);
      ways := Touch(ways, src);
      var ws := ways[src];
      r, trace := WalkWays(src, ws, Last, raw);
    }

    /** `test(const char*)`: an unknown name is false with nothing evaluated. */
    method TestByName(name: string, raw: nat -> bool) returns (r: bool, trace: seq<nat>)
      requires Valid()
      requires name in hashtbl && hashtbl[name] < |status| ==>
        Testable(Evaluate(Env(status, raw, reverse), Last, hashtbl[name], Touch(ways, hashtbl[name])[hashtbl[name]]).1)
      modifies this`ways
      ensures Valid()
      ensures name !in hashtbl ==> !r && trace == [] && ways == old(ways)
      ensures name in hashtbl ==> ways == Touch(old(ways), hashtbl[name])
      ensures name in hashtbl ==>
        (r, trace) == Evaluate(Env(status, raw, reverse), Last, hashtbl[name], ways[hashtbl[name]])
    {
      var id := FindStatusId(name);
      if id == -1 {
        return false, [];
      }
      r, trace := Test(id, raw);
    }

    /** `find_ways(src, dst)`: the stored ways of `src` that pass through `dst`. */
    method FindWays(src: int, dst: int) returns (founds: seq<Way>)
      requires Valid()
      modifies this`ways
      ensures Valid()
      ensures ways == Touch(old(ways), src)
      ensures founds == WaysThrough(ways[src], dst)
    {
      StoredBelowStep(ways, |status|, src, []);
      ways := Touch(ways, src);
      var ws := ways[src];
      founds := [];
      var k := 0;
      while k < |ws|
        invariant 0 <= k <= |ws|
        invariant ways == Touch(old(ways), src) && ws == ways[src]
        invariant founds == WaysThrough(ws[..k], dst)
      {
        WaysThroughAppend(ws[..k], [ws[k]], dst);
        assert ws[..k] + [ws[k]] == ws[..k + 1];
        if FindStatusInWay(ws[k], dst) {
          founds := founds + [ws[k]];
        }
        k := k + 1;
      }
      assert ws[..k] == ws;
    }

    /** `check_connect(src, dst)`: whether some stored way of `src` passes through `dst`. */
    method CheckConnect(src: int, dst: int) returns (connected: bool)
      requires Valid()
      modifies this`ways
      ensures Valid()
      ensures ways == Touch(old(ways), src)
      ensures connected <==> exists p :: p in ways[src] && FindStatusInWay(p, dst)
    {
      var founds := FindWays(src, dst);
      connected := |founds| != 0;
      if connected {
        WaysThroughMembers(ways[src], dst, founds[0]);
      } else {
        forall p | p in ways[src] && FindStatusInWay(p, dst)
          ensures false
        {
          WaysThroughMembers(ways[src], dst, p);
        }
      }
    }

    /** `test(src, dst)`: as `test(src)`, over the stored ways of `src` that pass
        through `dst`, each succeeding at its first `dst`. */
    method TestTo(src: int, dst: int, raw: nat -> bool) returns (r: bool, trace: seq<nat>)
      requires Valid()
      requires 0 <= src < |status| ==>
        Testable(Evaluate(Env(status, raw, reverse), Reach(dst), src, WaysThrough(Touch(ways, src)[src], dst)).1)
      modifies this`ways
      ensures Valid()
      ensures ways == if 0 <= src < |status| then Touch(old(ways), src) else old(ways)
      ensures !(0 <= src < |status|) ==> !r && trace == []
      ensures 0 <= src < |status| ==>
        (r, trace) == Evaluate(Env(status, raw, reverse), Reach(dst), src, WaysThrough(ways[src], dst))
    {
      if !FindStatus(src) {
        return false, [];
      }
      var ws := FindWays(src, dst);
      WaysThroughBelow(ways[src], dst, |status|);
      r, trace := WalkWays(src, ws, Reach(dst), raw);
    }

    /** `test(const char*, const char*)`: unknown names are false with nothing evaluated. */
    method TestToByName(src: string, dst: string, raw: nat -> bool) returns (r: bool, trace: seq<nat>)
      requires Valid()
      requires src in hashtbl && dst in hashtbl && hashtbl[src] < |status| ==>
        Testable(Evaluate(Env(status, raw, reverse), Reach(hashtbl[dst]), hashtbl[src],
                          WaysThrough(Touch(ways, hashtbl[src])[hashtbl[src]], hashtbl[dst])).1)
      modifies this`ways
      ensures Valid()
      ensures (src !in hashtbl || dst !in hashtbl) ==> !r && trace == [] && ways == old(ways)
      ensures src in hashtbl && dst in hashtbl ==> ways == Touch(old(ways), hashtbl[src])
      ensures src in hashtbl && dst in hashtbl ==>
        (r, trace) == Evaluate(Env(status, raw, reverse), Reach(hashtbl[dst]), hashtbl[src],
                               WaysThrough(ways[hashtbl[src]], hashtbl[dst]))
    {
      if src !in hashtbl || dst !in hashtbl {
        return false, [];
      }
      r, trace := TestTo(hashtbl[src], hashtbl[dst], raw);
    }
  }
}
