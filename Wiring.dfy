/** Priority wiring, `combination_by_weight`: sort the nodes by weight, heaviest
    first, and connect every ordered pair the tier rule admits. A weight's
    truncation toward zero is its tier; a node connects to every node one tier
    below it and to every lighter node of its own tier. */
module Wiring {
  import Node
  import opened Store
  import opened Automaton

  type Pair = (Node.Status, Node.Status)

  /** The rule of `_combination_by_weight` for the ordered pair (a, b). */
  predicate Qualifies(a: Node.Status, b: Node.Status)
  {
    a.name != b.name &&
    (Node.Trunc(a.weight) - Node.Trunc(b.weight) == 1 ||
     (Node.Trunc(a.weight) == Node.Trunc(b.weight) && a.weight > b.weight))
  }

  /** An edge the rule admits never loops on one name, always goes to a strictly
      lighter node, and never goes up a tier or skips one. */
  lemma QualifiesShape(a: Node.Status, b: Node.Status)
    requires Qualifies(a, b)
    ensures a.name != b.name && a.weight > b.weight
    ensures Node.Trunc(b.weight) <= Node.Trunc(a.weight) <= Node.Trunc(b.weight) + 1
    ensures !Qualifies(b, a)
  {
    if Node.Trunc(a.weight) != Node.Trunc(b.weight) {
      Node.TruncMonotone(a.weight, b.weight);
    }
  }

  // ------------------------------------------------------------ sorting by weight

  predicate HeavierFirst(xs: seq<Node.Status>)
  {
    forall i, j :: 0 <= i < j < |xs| ==> xs[i].weight >= xs[j].weight
  }

  /** Insert `s` before the first node that is not heavier. */
  function InsertByWeight(s: Node.Status, xs: seq<Node.Status>): seq<Node.Status>
  {
    if xs == [] then [s]
    else if s.weight >= xs[0].weight then [s] + xs
    else [xs[0]] + InsertByWeight(s, xs[1..])
  }

  lemma {:induction false} InsertByWeightPerm(s: Node.Status, xs: seq<Node.Status>)
    ensures multiset(InsertByWeight(s, xs)) == multiset(xs) + multiset{s}
  {
    if xs != [] && s.weight < xs[0].weight {
      InsertByWeightPerm(s, xs[1..]);
      calc {
        multiset(InsertByWeight(s, xs));
        multiset([xs[0]]) + multiset(InsertByWeight(s, xs[1..]));
        multiset([xs[0]]) + multiset(xs[1..]) + multiset{s};
        { assert xs == [xs[0]] + xs[1..]; }
        multiset(xs) + multiset{s};
      }
    }
  }

  /** A node at least as heavy as the head of a sorted list keeps it sorted in front. */
  lemma ConsHeavierFirst(s: Node.Status, xs: seq<Node.Status>)
    requires HeavierFirst(xs) && (xs != [] ==> s.weight >= xs[0].weight)
    ensures HeavierFirst([s] + xs)
  {
    var r := [s] + xs;
    forall i, j | 0 <= i < j < |r|
      ensures r[i].weight >= r[j].weight
    {
      if i == 0 && j > 1 {
        assert xs[0].weight >= xs[j - 1].weight;
      }
    }
  }

  lemma {:induction false} InsertByWeightOrder(s: Node.Status, xs: seq<Node.Status>)
    requires HeavierFirst(xs)
    ensures HeavierFirst(InsertByWeight(s, xs))
  {
    if xs == [] || s.weight >= xs[0].weight {
      ConsHeavierFirst(s, xs);
    } else {
      var tail := xs[1..];
      var rest := InsertByWeight(s, tail);
      assert HeavierFirst(tail);
      InsertByWeightOrder(s, tail);
      assert rest[0] == (if tail == [] || s.weight >= tail[0].weight then s else tail[0]);
      assert tail != [] ==> xs[0].weight >= tail[0].weight;
      ConsHeavierFirst(xs[0], rest);
    }
  }

  /** Inserting the head into the sorted tail sorts the whole. */
  lemma SortByWeightStep(xs: seq<Node.Status>, rest: seq<Node.Status>)
    requires xs != [] && multiset(rest) == multiset(xs[1..]) && HeavierFirst(rest)
    ensures multiset(InsertByWeight(xs[0], rest)) == multiset(xs)
    ensures HeavierFirst(InsertByWeight(xs[0], rest))
  {
    InsertByWeightPerm(xs[0], rest);
    InsertByWeightOrder(xs[0], rest);
    assert xs == [xs[0]] + xs[1..];
  }

  /** The reordering by `std::sort(..., weight > weight)`: a permutation, heaviest
      first. */
  function SortByWeight(xs: seq<Node.Status>): (r: seq<Node.Status>)
    ensures multiset(r) == multiset(xs) && HeavierFirst(r)
  {
    if xs == [] then []
    else
      var rest := SortByWeight(xs[1..]);
      SortByWeightStep(xs, rest);
      InsertByWeight(xs[0], rest)
  }

  lemma SortedMembers(xs: seq<Node.Status>)
    ensures forall x :: x in SortByWeight(xs) <==> x in xs
  {
    var o := SortByWeight(xs);
    forall x
      ensures x in o <==> x in xs
    {
      assert x in o <==> x in multiset(o);
      assert x in xs <==> x in multiset(xs);
    }
  }

  // ------------------------------------------------------------ the requested edges

  /** The connects `_combination_by_weight(s, pool)` issues, in order. */
  function Targets(s: Node.Status, pool: seq<Node.Status>): seq<Pair>
  {
    if pool == [] then []
    else Wanted(s, pool[0]) + Targets(s, pool[1..])
  }

  /** The connects of the outer loop over `order`, each node against all of `pool`. */
  function Pairs(order: seq<Node.Status>, pool: seq<Node.Status>): seq<Pair>
  {
    if order == [] then [] else Targets(order[0], pool) + Pairs(order[1..], pool)
  }

  lemma {:induction false} TargetsAppend(s: Node.Status, xs: seq<Node.Status>, ys: seq<Node.Status>)
    ensures Targets(s, xs + ys) == Targets(s, xs) + Targets(s, ys)
  {
    if xs != [] {
      assert (xs + ys)[0] == xs[0];
      assert (xs + ys)[1..] == xs[1..] + ys;
      TargetsAppend(s, xs[1..], ys);
    } else {
      assert xs + ys == ys;
    }
  }

  lemma {:induction false} PairsAppend(xs: seq<Node.Status>, ys: seq<Node.Status>, pool: seq<Node.Status>)
    ensures Pairs(xs + ys, pool) == Pairs(xs, pool) + Pairs(ys, pool)
  {
    if xs != [] {
      assert (xs + ys)[0] == xs[0];
      assert (xs + ys)[1..] == xs[1..] + ys;
      PairsAppend(xs[1..], ys, pool);
    } else {
      assert xs + ys == ys;
    }
  }

  /** One step of the inner loop over `pool`, seen from both ends. */
  lemma TargetsStep(s: Node.Status, pool: seq<Node.Status>, k: nat)
    requires k < |pool|
    ensures Targets(s, pool[k..]) == Wanted(s, pool[k]) + Targets(s, pool[k + 1..])
    ensures Targets(s, pool[..k + 1]) == Targets(s, pool[..k]) + Wanted(s, pool[k])
  {
    assert pool[k..][0] == pool[k] && pool[k..][1..] == pool[k + 1..];
    assert pool[..k + 1] == pool[..k] + [pool[k]];
    TargetsAppend(s, pool[..k], [pool[k]]);
    assert [pool[k]][1..] == [];
  }

  /** One step of the outer loop over `order`, seen from both ends. */
  lemma PairsStep(order: seq<Node.Status>, pool: seq<Node.Status>, i: nat)
    requires i < |order|
    ensures Pairs(order[i..], pool) == Targets(order[i], pool) + Pairs(order[i + 1..], pool)
    ensures Pairs(order[..i + 1], pool) == Pairs(order[..i], pool) + Targets(order[i], pool)
  {
    assert order[i..][0] == order[i] && order[i..][1..] == order[i + 1..];
    assert order[..i + 1] == order[..i] + [order[i]];
    PairsAppend(order[..i], [order[i]], pool);
    assert [order[i]][1..] == [];
    assert Pairs([order[i]], pool) == Targets(order[i], pool) + [];
  }

  lemma {:induction false} TargetsMembers(s: Node.Status, pool: seq<Node.Status>, p: Pair)
    ensures p in Targets(s, pool) <==> p.0 == s && p.1 in pool && Qualifies(s, p.1)
  {
    if pool != [] {
      TargetsMembers(s, pool[1..], p);
      assert pool == [pool[0]] + pool[1..];
    }
  }

  /** The requested edges are exactly the admitted pairs of `order` against `pool`. */
  lemma {:induction false} PairsMembers(order: seq<Node.Status>, pool: seq<Node.Status>, p: Pair)
    ensures p in Pairs(order, pool) <==> p.0 in order && p.1 in pool && Qualifies(p.0, p.1)
  {
    if order != [] {
      TargetsMembers(order[0], pool, p);
      PairsMembers(order[1..], pool, p);
      assert order == [order[0]] + order[1..];
    }
  }

  // ------------------------------------------------------------ connecting in turn

  /** The store after issuing `ps` in turn; a `connect` that leaves the empty name
      registered throws from its rebuild and ends the wiring there. The flag says
      whether every `connect` completed. */
  function Wire(g: Graph, ps: seq<Pair>): (r: (Graph, bool))
    requires GraphOk(g)
    ensures GraphOk(r.0)
    decreases |ps|
  {
    if ps == [] then (g, true)
    else
      var g' := Connected(g, ps[0].0, ps[0].1);
      ConnectedOk(g, ps[0].0, ps[0].1);
      if "" in g'.tbl then (g', false) else Wire(g', ps[1..])
  }

  lemma WireCons(g: Graph, p: Pair, rest: seq<Pair>)
    requires GraphOk(g)
    ensures GraphOk(Connected(g, p.0, p.1))
    ensures var g' := Connected(g, p.0, p.1);
      Wire(g, [p] + rest) == if "" in g'.tbl then (g', false) else Wire(g', rest)
  {
    ConnectedOk(g, p.0, p.1);
    assert ([p] + rest)[0] == p && ([p] + rest)[1..] == rest;
  }

  lemma {:induction false} WireAppend(g: Graph, ps: seq<Pair>, qs: seq<Pair>)
    requires GraphOk(g)
    ensures Wire(g, ps + qs) == if Wire(g, ps).1 then Wire(Wire(g, ps).0, qs) else Wire(g, ps)
    decreases |ps|
  {
    if ps != [] {
      assert (ps + qs)[0] == ps[0];
      assert (ps + qs)[1..] == ps[1..] + qs;
      var g' := Connected(g, ps[0].0, ps[0].1);
      ConnectedOk(g, ps[0].0, ps[0].1);
      if "" !in g'.tbl {
        WireAppend(g', ps[1..], qs);
      }
    } else {
      assert ps + qs == qs;
    }
  }

  /** Wiring keeps every old edge. */
  lemma {:induction false} WireKeeps(g: Graph, ps: seq<Pair>)
    requires GraphOk(g)
    ensures forall a, b :: Linked(g, a, b) ==> Linked(Wire(g, ps).0, a, b)
    decreases |ps|
  {
    if ps != [] {
      var g' := Connected(g, ps[0].0, ps[0].1);
      ConnectedOk(g, ps[0].0, ps[0].1);
      ConnectedEdges(g, ps[0].0, ps[0].1);
      if "" !in g'.tbl {
        WireKeeps(g', ps[1..]);
      }
    }
  }

  /** Every edge wiring adds is a requested one. */
  lemma {:induction false} WireOnlyRequested(g: Graph, ps: seq<Pair>)
    requires GraphOk(g)
    ensures forall a, b :: Linked(Wire(g, ps).0, a, b) ==>
      Linked(g, a, b) || exists p :: p in ps && p.0.name == a && p.1.name == b
    decreases |ps|
  {
    if ps != [] {
      var g' := Connected(g, ps[0].0, ps[0].1);
      ConnectedOk(g, ps[0].0, ps[0].1);
      ConnectedEdges(g, ps[0].0, ps[0].1);
      if "" !in g'.tbl {
        WireOnlyRequested(g', ps[1..]);
        forall a, b | Linked(Wire(g, ps).0, a, b)
          ensures Linked(g, a, b) || exists p :: p in ps && p.0.name == a && p.1.name == b
        {
          if !Linked(g', a, b) {
            var p :| p in ps[1..] && p.0.name == a && p.1.name == b;
            assert p in ps;
          } else if !Linked(g, a, b) {
            assert ps[0] in ps;
          }
        }
      } else {
        forall a, b | Linked(g', a, b) && !Linked(g, a, b)
          ensures exists p :: p in ps && p.0.name == a && p.1.name == b
        {
          assert ps[0] in ps;
        }
      }
    }
  }

  /** When every `connect` completed, every requested edge is present. */
  lemma {:induction false} WireComplete(g: Graph, ps: seq<Pair>)
    requires GraphOk(g) && Wire(g, ps).1
    ensures forall p :: p in ps ==> Linked(Wire(g, ps).0, p.0.name, p.1.name)
    decreases |ps|
  {
    if ps != [] {
      var g' := Connected(g, ps[0].0, ps[0].1);
      ConnectedOk(g, ps[0].0, ps[0].1);
      ConnectedEdges(g, ps[0].0, ps[0].1);
      assert "" !in g'.tbl && Wire(g, ps) == Wire(g', ps[1..]);
      WireComplete(g', ps[1..]);
      WireKeeps(g', ps[1..]);
      forall p | p in ps
        ensures Linked(Wire(g, ps).0, p.0.name, p.1.name)
      {
        if p != ps[0] {
          assert p in ps[1..];
        }
      }
    }
  }

  /** The edges after wiring: every old edge stays, every new edge is a requested
      one, and when every `connect` completed every requested edge is present. */
  lemma WireEdges(g: Graph, ps: seq<Pair>)
    requires GraphOk(g)
    ensures var r := Wire(g, ps).0;
      (forall a, b :: Linked(g, a, b) ==> Linked(r, a, b)) &&
      (forall a, b :: Linked(r, a, b) ==>
        Linked(g, a, b) || exists p :: p in ps && p.0.name == a && p.1.name == b)
    ensures Wire(g, ps).1 ==> forall p :: p in ps ==> Linked(Wire(g, ps).0, p.0.name, p.1.name)
  {
    WireKeeps(g, ps);
    WireOnlyRequested(g, ps);
    if Wire(g, ps).1 {
      WireComplete(g, ps);
    }
  }

  /** Wiring forgets no registered name. */
  lemma {:induction false} WireKeepsName(g: Graph, ps: seq<Pair>, a: string)
    requires GraphOk(g) && a in g.tbl
    ensures a in Wire(g, ps).0.tbl
    decreases |ps|
  {
    if ps != [] {
      var g' := Connected(g, ps[0].0, ps[0].1);
      ConnectedOk(g, ps[0].0, ps[0].1);
      ConnectedNames(g, ps[0].0, ps[0].1);
      if "" !in g'.tbl {
        WireKeepsName(g', ps[1..], a);
      }
    }
  }

  /** Wiring registers no name but the old ones and those of requested pairs. */
  lemma {:induction false} WireNewName(g: Graph, ps: seq<Pair>, a: string)
    requires GraphOk(g) && a in Wire(g, ps).0.tbl && a !in g.tbl
    ensures exists p :: p in ps && (p.0.name == a || p.1.name == a)
    decreases |ps|
  {
    var g' := Connected(g, ps[0].0, ps[0].1);
    ConnectedOk(g, ps[0].0, ps[0].1);
    if a in g'.tbl {
      ConnectedNames(g, ps[0].0, ps[0].1);
      assert ps[0] in ps;
    } else {
      WireNewName(g', ps[1..], a);
      var p :| p in ps[1..] && (p.0.name == a || p.1.name == a);
      assert p in ps;
    }
  }

  /** Some admitted pair of `xs` joins the names `a` and `b`. */
  predicate Admits(xs: seq<Node.Status>, a: string, b: string)
  {
    exists x, y :: x in xs && y in xs && Qualifies(x, y) && x.name == a && y.name == b
  }

  /** Admission depends only on which nodes are present, not on their order. */
  lemma AdmitsSameMembers(o: seq<Node.Status>, xs: seq<Node.Status>)
    requires forall x :: x in o <==> x in xs
    ensures forall a, b :: Admits(o, a, b) <==> Admits(xs, a, b)
  {
    forall a, b
      ensures Admits(o, a, b) <==> Admits(xs, a, b)
    {
      if Admits(o, a, b) {
        var x, y :| x in o && y in o && Qualifies(x, y) && x.name == a && y.name == b;
      }
      if Admits(xs, a, b) {
        var x, y :| x in xs && y in xs && Qualifies(x, y) && x.name == a && y.name == b;
      }
    }
  }

  /** Wiring every admitted pair of `o` against itself, to completion: the edges
      are the old ones and those between admitted pairs of `o`, by name. */
  lemma {:induction false} WiredAdmitted(g: Graph, o: seq<Node.Status>)
    requires GraphOk(g) && Wire(g, Pairs(o, o)).1
    ensures forall a, b :: Linked(Wire(g, Pairs(o, o)).0, a, b) <==> Linked(g, a, b) || Admits(o, a, b)
  {
    var ps := Pairs(o, o);
    var r := Wire(g, ps).0;
    WireEdges(g, ps);
    forall a, b | Linked(r, a, b) && !Linked(g, a, b)
      ensures Admits(o, a, b)
    {
      var p :| p in ps && p.0.name == a && p.1.name == b;
      PairsMembers(o, o, p);
    }
    forall a, b | Admits(o, a, b)
      ensures Linked(r, a, b)
    {
      var x, y :| x in o && y in o && Qualifies(x, y) && x.name == a && y.name == b;
      PairsMembers(o, o, (x, y));
    }
  }

  /** The edges after `combination_by_weight` over `xs` when it completes, by name:
      the old ones and those between admitted pairs of `xs`. They do not depend on
      the order the sort leaves equal weights in. */
  lemma CombinationEdges(g: Graph, xs: seq<Node.Status>)
    requires GraphOk(g)
    requires Wire(g, Pairs(SortByWeight(xs), SortByWeight(xs))).1
    ensures forall a, b :: Linked(Wire(g, Pairs(SortByWeight(xs), SortByWeight(xs))).0, a, b) <==>
      Linked(g, a, b) || Admits(xs, a, b)
  {
    var o := SortByWeight(xs);
    SortedMembers(xs);
    AdmitsSameMembers(o, xs);
    WiredAdmitted(g, o);
  }

  /** Some admitted pair of `xs` has an end named `a`. */
  predicate Paired(xs: seq<Node.Status>, a: string)
  {
    exists x, y :: x in xs && y in xs && Qualifies(x, y) && (x.name == a || y.name == a)
  }

  /** `combination_by_weight` over `xs` never registers a new name that no
      admitted pair of `xs` has at an end, whether or not it completes; and a
      registered name stays registered. */
  lemma CombinationNames(g: Graph, xs: seq<Node.Status>, a: string)
    requires GraphOk(g)
    ensures var r := Wire(g, Pairs(SortByWeight(xs), SortByWeight(xs))).0;
      (a in g.tbl ==> a in r.tbl) && (a !in g.tbl && !Paired(xs, a) ==> a !in r.tbl)
  {
    var o := SortByWeight(xs);
    var ps := Pairs(o, o);
    SortedMembers(xs);
    if a in g.tbl {
      WireKeepsName(g, ps, a);
    }
    if a in Wire(g, ps).0.tbl && a !in g.tbl {
      WireNewName(g, ps, a);
      var p :| p in ps && (p.0.name == a || p.1.name == a);
      PairsMembers(o, o, p);
      assert Paired(xs, a) by {
        assert p.0 in xs && p.1 in xs && Qualifies(p.0, p.1);
      }
    }
  }

  /** Three nodes of weights 2.5, 2.1 and 1.0. */
  const HighA := Node.Status("a", true, true, 2.5)
  const HighB := Node.Status("b", true, true, 2.1)
  const LowC := Node.Status("c", true, true, 1.0)

  lemma TiersQualify()
    ensures Qualifies(HighA, HighB) && Qualifies(HighA, LowC) && Qualifies(HighB, LowC)
    ensures !Qualifies(HighA, HighA) && !Qualifies(HighB, HighA) && !Qualifies(HighB, HighB)
    ensures !Qualifies(LowC, HighA) && !Qualifies(LowC, HighB) && !Qualifies(LowC, LowC)
  {
    assert (2.5).Floor == 2 && (2.1).Floor == 2 && (1.0).Floor == 1;
  }

  lemma TiersInserted()
    ensures InsertByWeight(HighB, [HighA]) == [HighA, HighB]
    ensures InsertByWeight(LowC, [HighA, HighB]) == [HighA, HighB, LowC]
  {
    assert [HighA][1..] == [];
    assert InsertByWeight(HighB, []) == [HighB];
    assert InsertByWeight(HighB, [HighA]) == [HighA] + InsertByWeight(HighB, []);
    assert [HighA, HighB][1..] == [HighB] && [HighB][1..] == [];
    assert InsertByWeight(LowC, []) == [LowC];
    assert InsertByWeight(LowC, [HighB]) == [HighB] + InsertByWeight(LowC, []) == [HighB, LowC];
    assert InsertByWeight(LowC, [HighA, HighB]) == [HighA] + InsertByWeight(LowC, [HighB]);
  }

  lemma TiersSorted()
    ensures SortByWeight([LowC, HighB, HighA]) == [HighA, HighB, LowC]
  {
    TiersInserted();
    assert [HighA][1..] == [];
    assert SortByWeight([HighA]) == InsertByWeight(HighA, []) == [HighA];
    assert [HighB, HighA][1..] == [HighA];
    assert SortByWeight([HighB, HighA]) == InsertByWeight(HighB, [HighA]);
    assert [LowC, HighB, HighA][1..] == [HighB, HighA];
    assert SortByWeight([LowC, HighB, HighA]) == InsertByWeight(LowC, [HighA, HighB]);
  }

  lemma TiersPairs()
    ensures var o := [HighA, HighB, LowC];
      Pairs(o, o) == [(HighA, HighB), (HighA, LowC), (HighB, LowC)]
  {
    var o := [HighA, HighB, LowC];
    TiersQualify();
    assert o[1..] == [HighB, LowC] && o[1..][1..] == [LowC] && [LowC][1..] == [];
    assert Targets(HighA, [LowC]) == [(HighA, LowC)];
    assert Targets(HighA, o) == [(HighA, HighB), (HighA, LowC)];
    assert Targets(HighB, [LowC]) == [(HighB, LowC)];
    assert Targets(HighB, [HighB, LowC]) == Targets(HighB, [LowC]);
    assert Targets(HighB, o) == [(HighB, LowC)];
    assert Targets(LowC, [LowC]) == [];
    assert Targets(LowC, [HighB, LowC]) == [];
    assert Targets(LowC, o) == [];
    assert Pairs([LowC], o) == Targets(LowC, o) + Pairs([], o) == [];
    assert Pairs([HighB, LowC], o) == Targets(HighB, o) + Pairs([LowC], o) == [(HighB, LowC)];
    assert Pairs(o, o) == Targets(HighA, o) + Pairs([HighB, LowC], o);
  }

  /** Weights 2.5, 2.1 and 1.0, given lightest first: the heavier tier-2 node
      connects to the lighter one and to the tier-1 node, and the lighter tier-2
      node connects to the tier-1 node as well, since it is exactly one tier above. */
  lemma ThreeTiers()
    ensures var xs := [LowC, HighB, HighA];
      Pairs(SortByWeight(xs), SortByWeight(xs)) == [(HighA, HighB), (HighA, LowC), (HighB, LowC)]
  {
    TiersSorted();
    TiersPairs();
  }

  // ------------------------------------------------------------ the wiring itself

  /** The connects one candidate `t` asks for: `[(s, t)]` when the rule admits
      the pair, else none. */
  function Wanted(s: Node.Status, t: Node.Status): seq<Pair>
  {
    if Qualifies(s, t) then [(s, t)] else []
  }

  /** One iteration of `_combination_by_weight`: skip `t` when it has the name of
      `s`, else connect s -> t when the tier rule admits it. */
  method CombineTarget(nfa: Nfa, s: Node.Status, t: Node.Status) returns (ok: bool)
    requires nfa.Valid()
    modifies nfa`hashtbl, nfa`status, nfa`adj, nfa`radj, nfa`ways
    ensures nfa.Valid()
    ensures nfa.G() == Wire(old(nfa.G()), Wanted(s, t)).0
    ensures ok == Wire(old(nfa.G()), Wanted(s, t)).1
    ensures Wanted(s, t) == [] ==> ok && nfa.ways == old(nfa.ways)
    ensures ok && (Wanted(s, t) != [] || old(nfa.PathsCurrent(nfa.skipSelf))) ==> nfa.PathsCurrent(nfa.skipSelf)
    ensures !ok ==> "" in nfa.hashtbl && nfa.PathsBuiltBelow(nfa.hashtbl[""], nfa.skipSelf)
  {
    if s.name == t.name {
      return true;
    }
    if Node.Trunc(s.weight) - Node.Trunc(t.weight) == 1 ||
       (Node.Trunc(s.weight) == Node.Trunc(t.weight) && s.weight > t.weight) {
      WireCons(nfa.G(), (s, t), []);
      ok := nfa.Connect(s, t);
    } else {
      ok := true;
    }
  }

  /** `_combination_by_weight(nfa, s, pool)`: connect `s` to every admitted node of
      `pool`, in order. `ok` is false when a `connect` threw. */
  method CombineOne(nfa: Nfa, s: Node.Status, pool: seq<Node.Status>) returns (ok: bool)
    requires nfa.Valid()
    modifies nfa`hashtbl, nfa`status, nfa`adj, nfa`radj, nfa`ways
    ensures nfa.Valid()
    ensures nfa.G() == Wire(old(nfa.G()), Targets(s, pool)).0
    ensures ok == Wire(old(nfa.G()), Targets(s, pool)).1
    ensures ok && Targets(s, pool) == [] ==> nfa.ways == old(nfa.ways)
    ensures ok && (Targets(s, pool) != [] || old(nfa.PathsCurrent(nfa.skipSelf))) ==> nfa.PathsCurrent(nfa.skipSelf)
    ensures !ok ==> "" in nfa.hashtbl && nfa.PathsBuiltBelow(nfa.hashtbl[""], nfa.skipSelf)
  {
    ghost var g0 := nfa.G();
    ghost var issued := false;
    var k := 0;
    while k < |pool|
      invariant 0 <= k <= |pool| && nfa.Valid()
      invariant Wire(g0, Targets(s, pool)) == Wire(nfa.G(), Targets(s, pool[k..]))
      invariant issued <==> Targets(s, pool[..k]) != []
      invariant !issued ==> nfa.ways == old(nfa.ways)
      invariant issued || old(nfa.PathsCurrent(nfa.skipSelf)) ==> nfa.PathsCurrent(nfa.skipSelf)
    {
      TargetsStep(s, pool, k);
      WireAppend(nfa.G(), Wanted(s, pool[k]), Targets(s, pool[k + 1..]));
      ok := CombineTarget(nfa, s, pool[k]);
      if !ok {
        return;
      }
      issued := issued || Wanted(s, pool[k]) != [];
      k := k + 1;
    }
    assert pool[..k] == pool;
    ok := true;
  }

  /** The loop of `combination_by_weight` after the sort: wire each node of
      `order` against all of `pool`, in order; `ok` is false when a `connect` threw. */
  method CombineEach(nfa: Nfa, order: seq<Node.Status>, pool: seq<Node.Status>) returns (ok: bool)
    requires nfa.Valid()
    modifies nfa`hashtbl, nfa`status, nfa`adj, nfa`radj, nfa`ways
    ensures nfa.Valid()
    ensures nfa.G() == Wire(old(nfa.G()), Pairs(order, pool)).0
    ensures ok == Wire(old(nfa.G()), Pairs(order, pool)).1
    ensures ok && Pairs(order, pool) == [] ==> nfa.ways == old(nfa.ways)
    ensures ok && (Pairs(order, pool) != [] || old(nfa.PathsCurrent(nfa.skipSelf))) ==> nfa.PathsCurrent(nfa.skipSelf)
    ensures !ok ==> "" in nfa.hashtbl && nfa.PathsBuiltBelow(nfa.hashtbl[""], nfa.skipSelf)
  {
    ghost var g0 := nfa.G();
    ghost var issued := false;
    var i := 0;
    while i < |order|
      invariant 0 <= i <= |order| && nfa.Valid()
      invariant Wire(g0, Pairs(order, pool)) == Wire(nfa.G(), Pairs(order[i..], pool))
      invariant issued <==> Pairs(order[..i], pool) != []
      invariant !issued ==> nfa.ways == old(nfa.ways)
      invariant issued || old(nfa.PathsCurrent(nfa.skipSelf)) ==> nfa.PathsCurrent(nfa.skipSelf)
    {
      var s := order[i];
      PairsStep(order, pool, i);
      WireAppend(nfa.G(), Targets(s, pool), Pairs(order[i + 1..], pool));
      ok := CombineOne(nfa, s, pool);
      if !ok {
        return;
      }
      issued := issued || Targets(s, pool) != [];
      i := i + 1;
    }
    assert order[..i] == order;
    ok := true;
  }

  /** `combination_by_weight(nfa, pool)`: sort `pool` heaviest first, then wire each
      of its nodes against all of them. Returns the sorted order; `ok` is false
      when a `connect` threw. */
  method CombinationByWeight(nfa: Nfa, pool: seq<Node.Status>) returns (sorted: seq<Node.Status>, ok: bool)
    requires nfa.Valid()
    modifies nfa`hashtbl, nfa`status, nfa`adj, nfa`radj, nfa`ways
    ensures sorted == SortByWeight(pool)
    ensures nfa.Valid()
    ensures nfa.G() == Wire(old(nfa.G()), Pairs(sorted, sorted)).0
    ensures ok == Wire(old(nfa.G()), Pairs(sorted, sorted)).1
    ensures ok && Pairs(sorted, sorted) == [] ==> nfa.ways == old(nfa.ways)
    ensures ok && (Pairs(sorted, sorted) != [] || old(nfa.PathsCurrent(nfa.skipSelf))) ==> nfa.PathsCurrent(nfa.skipSelf)
    ensures !ok ==> "" in nfa.hashtbl && nfa.PathsBuiltBelow(nfa.hashtbl[""], nfa.skipSelf)
  {
    sorted := SortByWeight(pool);
    ok := CombineEach(nfa, sorted, sorted);
  }
}
