/** The graph store as a value: the name table, the node table and the two
    adjacency matrices, with what one `connect` does to them. The class in
    Automaton.dfy is proved to follow `Connected` step by step. */
module Store {
  import Node
  import opened Matrix
  import opened Paths

  datatype Graph = Graph(tbl: map<string, nat>, nodes: seq<Node.Status>, adj: Matrix, radj: Matrix)

  /** The name table is a bijection between the registered names and the ids
      `0 .. |nodes| - 1`, and id `i` belongs to the node stored at `i`. */
  predicate TableOk(tbl: map<string, nat>, nodes: seq<Node.Status>)
  {
    (forall n :: n in tbl ==> tbl[n] < |nodes| && nodes[tbl[n]].name == n) &&
    (forall i :: 0 <= i < |nodes| ==> nodes[i].name in tbl && tbl[nodes[i].name] == i)
  }

  /** Both matrices are square with side `n`, and the reverse one is the transpose. */
  predicate MatricesOk(adj: Matrix, radj: Matrix, n: nat)
  {
    Square(adj, n) && Square(radj, n) &&
    forall i, j :: 0 <= i < n && 0 <= j < n ==> radj[i][j] == adj[j][i]
  }

  predicate GraphOk(g: Graph)
  {
    TableOk(g.tbl, g.nodes) && MatricesOk(g.adj, g.radj, |g.nodes|)
  }

  /** An edge between two registered names. */
  predicate Linked(g: Graph, a: string, b: string)
  {
    a in g.tbl && b in g.tbl && g.tbl[a] < |g.adj| && g.tbl[b] < |g.adj[g.tbl[a]]| &&
    g.adj[g.tbl[a]][g.tbl[b]]
  }

  /** Register `s` by name: a new name gets the next id, a known one changes nothing. */
  function Register(tbl: map<string, nat>, nodes: seq<Node.Status>, s: Node.Status): (map<string, nat>, seq<Node.Status>)
  {
    if s.name in tbl then (tbl, nodes) else (tbl[s.name := |nodes|], nodes + [s])
  }

  lemma RegisterOk(tbl: map<string, nat>, nodes: seq<Node.Status>, s: Node.Status)
    requires TableOk(tbl, nodes)
    ensures TableOk(Register(tbl, nodes, s).0, Register(tbl, nodes, s).1)
  {
    if s.name !in tbl {
      var tbl', nodes' := tbl[s.name := |nodes|], nodes + [s];
      forall i | 0 <= i < |nodes'|
        ensures nodes'[i].name in tbl' && tbl'[nodes'[i].name] == i
      {
        if i < |nodes| {
          assert nodes'[i] == nodes[i];
        }
      }
    }
  }

  /** Registration appends only an unseen node, gives it the next id and keeps
      every known id. */
  lemma RegisterGrows(tbl: map<string, nat>, nodes: seq<Node.Status>, s: Node.Status)
    ensures var (t, n) := Register(tbl, nodes, s);
      n == nodes + (if s.name in tbl then [] else [s]) &&
      t.Keys == tbl.Keys + {s.name} &&
      (forall x :: x in tbl ==> t[x] == tbl[x]) &&
      (s.name !in tbl ==> t[s.name] == |nodes|)
  {
  }

  /** The store after `connect(src, dst)`: src then dst registered, both matrices
      grown to the new size, the edge set in the forward matrix and its transpose
      in the reverse one. */
  function Connected(g: Graph, src: Node.Status, dst: Node.Status): Graph
    requires GraphOk(g)
  {
    RegisterOk(g.tbl, g.nodes, src);
    var (t1, s1) := Register(g.tbl, g.nodes, src);
    RegisterOk(t1, s1, dst);
    var (t2, s2) := Register(t1, s1, dst);
    var n := |s2|;
    Graph(t2, s2, WithEdge(Resize(g.adj, n), t2[src.name], t2[dst.name]),
                  WithEdge(Resize(g.radj, n), t2[dst.name], t2[src.name]))
  }

  /** The store after `connect` keeps every invariant. */
  lemma ConnectedOk(g: Graph, src: Node.Status, dst: Node.Status)
    requires GraphOk(g)
    ensures GraphOk(Connected(g, src, dst))
  {
    RegisterOk(g.tbl, g.nodes, src);
    var (t1, s1) := Register(g.tbl, g.nodes, src);
    RegisterOk(t1, s1, dst);
    var (t2, s2) := Register(t1, s1, dst);
    ResizedEdgeEntries(g.adj, |s2|, t2[src.name], t2[dst.name]);
    ResizedEdgeEntries(g.radj, |s2|, t2[dst.name], t2[src.name]);
  }

  /** `Connected` assembled from its parts: the registered table and nodes, and
      both matrices resized to the new node count before the edge is set. */
  lemma ConnectedParts(g: Graph, src: Node.Status, dst: Node.Status, tbl: map<string, nat>,
                       nodes: seq<Node.Status>, adj: Matrix, radj: Matrix)
    requires GraphOk(g)
    requires tbl == Connected(g, src, dst).tbl && nodes == Connected(g, src, dst).nodes
    requires adj == Resize(g.adj, |nodes|) && radj == Resize(g.radj, |nodes|)
    ensures src.name in tbl && dst.name in tbl
    ensures tbl[src.name] < |adj| && tbl[dst.name] < |adj[tbl[src.name]]|
    ensures tbl[dst.name] < |radj| && tbl[src.name] < |radj[tbl[dst.name]]|
    ensures Connected(g, src, dst) ==
      Graph(tbl, nodes, WithEdge(adj, tbl[src.name], tbl[dst.name]), WithEdge(radj, tbl[dst.name], tbl[src.name]))
  {
  }

  /** The nodes `connect(src, dst)` appends, in the order it appends them. */
  function Added(tbl: map<string, nat>, src: Node.Status, dst: Node.Status): seq<Node.Status>
  {
    (if src.name in tbl then [] else [src]) +
    (if dst.name in tbl || dst.name == src.name then [] else [dst])
  }

  /** Registration by `connect`: only unseen names are added, src before dst, with
      the ids `size()` and `size() + 1`; `connect(x, x)` with a new name adds one node;
      the ids of known names never change. */
  lemma ConnectedNames(g: Graph, src: Node.Status, dst: Node.Status)
    requires GraphOk(g)
    ensures var r := Connected(g, src, dst);
      r.nodes == g.nodes + Added(g.tbl, src, dst) &&
      r.tbl.Keys == g.tbl.Keys + {src.name, dst.name} &&
      (forall x :: x in g.tbl ==> r.tbl[x] == g.tbl[x]) &&
      (src.name !in g.tbl ==> r.tbl[src.name] == |g.nodes|) &&
      (dst.name !in g.tbl && dst.name != src.name ==>
        r.tbl[dst.name] == |g.nodes| + (if src.name in g.tbl then 0 else 1))
  {
    var (t1, s1) := Register(g.tbl, g.nodes, src);
    RegisterGrows(g.tbl, g.nodes, src);
    RegisterGrows(t1, s1, dst);
    assert (if src.name in g.tbl then [] else [src]) + (if dst.name in t1 then [] else [dst]) == Added(g.tbl, src, dst);
  }

  /** After `connect(src, dst)` a registered name has an old id iff it was known
      before, and it has the id of src (of dst) iff it is that name. */
  lemma ConnectedIds(g: Graph, src: Node.Status, dst: Node.Status, a: string)
    requires GraphOk(g) && a in Connected(g, src, dst).tbl
    ensures var r := Connected(g, src, dst);
      src.name in r.tbl && dst.name in r.tbl &&
      (a in g.tbl <==> r.tbl[a] < |g.nodes|) &&
      (a in g.tbl ==> r.tbl[a] == g.tbl[a]) &&
      (r.tbl[a] == r.tbl[src.name] <==> a == src.name) &&
      (r.tbl[a] == r.tbl[dst.name] <==> a == dst.name)
  {
    var r := Connected(g, src, dst);
    ConnectedOk(g, src, dst);
    ConnectedNames(g, src, dst);
    var ia := r.tbl[a];
    assert r.nodes[ia].name == a;
    if ia < |g.nodes| {
      assert r.nodes[ia] == g.nodes[ia];
    }
    assert r.nodes[r.tbl[src.name]].name == src.name;
    assert r.nodes[r.tbl[dst.name]].name == dst.name;
  }

  /** The edges after `connect(src, dst)`, by name: exactly the old ones and src -> dst;
      the reverse matrix gains dst -> src. */
  lemma ConnectedEdges(g: Graph, src: Node.Status, dst: Node.Status)
    requires GraphOk(g)
    ensures var r := Connected(g, src, dst);
      (forall a, b :: Linked(r, a, b) <==> Linked(g, a, b) || (a == src.name && b == dst.name)) &&
      r.radj[r.tbl[dst.name]][r.tbl[src.name]]
  {
    var r := Connected(g, src, dst);
    var n := |r.nodes|;
    ConnectedNames(g, src, dst);
    ResizedEdgeEntries(g.adj, n, r.tbl[src.name], r.tbl[dst.name]);
    forall a, b
      ensures Linked(r, a, b) <==> Linked(g, a, b) || (a == src.name && b == dst.name)
    {
      if a in r.tbl && b in r.tbl {
        ConnectedIds(g, src, dst, a);
        ConnectedIds(g, src, dst, b);
      }
    }
  }

  /** Repeating a `connect` whose edge is already present changes nothing. */
  lemma ConnectedIdempotent(g: Graph, src: Node.Status, dst: Node.Status)
    requires GraphOk(g) && Linked(g, src.name, dst.name)
    ensures Connected(g, src, dst) == g
  {
    var n := |g.nodes|;
    var s, d := g.tbl[src.name], g.tbl[dst.name];
    ResizedEdgeIdempotent(g.adj, n, s, d);
    ResizedEdgeIdempotent(g.radj, n, d, s);
  }

  /** Hence `connect(a, b)` twice is `connect(a, b)` once. */
  lemma ConnectTwice(g: Graph, src: Node.Status, dst: Node.Status)
    requires GraphOk(g)
    ensures GraphOk(Connected(g, src, dst))
    ensures Connected(Connected(g, src, dst), src, dst) == Connected(g, src, dst)
  {
    ConnectedOk(g, src, dst);
    ConnectedEdges(g, src, dst);
    ConnectedIdempotent(Connected(g, src, dst), src, dst);
  }

  // ---------------------------------------------------------------- the path table

  /** Every id on every stored way is below `n`. */
  predicate StoredBelow(ways: map<int, seq<Way>>, n: nat)
  {
    forall k :: k in ways ==> WaysBelow(ways[k], n)
  }

  /** The path table holds exactly the ids below `k`, each with its search result
      sorted shortest first. */
  ghost predicate Built(ways: map<int, seq<Way>>, adj: Matrix, k: nat, skip: bool)
    requires Square(adj, |adj|)
  {
    k <= |adj| &&
    (forall i: int :: i in ways <==> 0 <= i < k) &&
    forall i :: 0 <= i < k ==> ways[i] == SortWays(Search(adj, i, [], skip))
  }

  /** Filling in id `k`, as `update_all_ways` does, extends the table of the ids
      below `k` to those below `k + 1`. */
  lemma BuiltStep(ways: map<int, seq<Way>>, adj: Matrix, k: nat, skip: bool)
    requires Square(adj, |adj|) && k < |adj| && Built(ways, adj, k, skip)
    ensures Built(ways[k := SortWays(Search(adj, k, [], skip))], adj, k + 1, skip)
  {
  }

  /** A complete table is determined by the matrix and `skip_self`. */
  lemma BuiltUnique(w1: map<int, seq<Way>>, w2: map<int, seq<Way>>, adj: Matrix, skip: bool)
    requires Square(adj, |adj|) && Built(w1, adj, |adj|, skip) && Built(w2, adj, |adj|, skip)
    ensures w1 == w2
  {
    forall i | i in w1
      ensures i in w2 && w1[i] == w2[i]
    {
      assert 0 <= i < |adj|;
    }
    assert forall i :: i in w2 ==> i in w1;
    assert w1.Keys == w2.Keys;
  }

  lemma StoredBelowStep(ways: map<int, seq<Way>>, n: nat, k: int, ws: seq<Way>)
    requires StoredBelow(ways, n) && WaysBelow(ws, n)
    ensures StoredBelow(ways[k := ws], n)
  {
  }

  lemma StoredBelowGrow(ways: map<int, seq<Way>>, n0: nat, n: nat)
    requires StoredBelow(ways, n0) && n0 <= n
    ensures StoredBelow(ways, n)
  {
    forall k | k in ways
      ensures WaysBelow(ways[k], n)
    {
      assert WaysBelow(ways[k], n0);
    }
  }
}
