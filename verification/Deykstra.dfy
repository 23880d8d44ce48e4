/** Shortest paths from seeded costs. */
module Deykstra {
  import Division
  import opened Finite
  import opened Options

  datatype Neigh = Neigh(id: nat, weight: int)

  datatype Node = Node(id: nat, neighs: seq<Neigh>)

  const INT_MAX := 0x7fffffff

  /** Nodes are filed under their own ids, edges stay inside the graph, weights are not negative. */
  ghost predicate WellFormed(graph: seq<Node>) {
    forall v :: 0 <= v < |graph| ==>
      && graph[v].id == v
      && forall i :: 0 <= i < |graph[v].neighs| ==> graph[v].neighs[i].id < |graph| && graph[v].neighs[i].weight >= 0
  }

  // ----- walks -----

  /** A walk from a node along edges. */
  datatype Walk = At(node: nat) | Via(walk: Walk, edge: Neigh)

  ghost function End(w: Walk): nat {
    match w
    case At(v) => v
    case Via(_, e) => e.id
  }

  ghost predicate IsWalk(graph: seq<Node>, w: Walk) {
    match w
    case At(v) => v < |graph|
    case Via(rest, e) => IsWalk(graph, rest) && End(rest) < |graph| && e in graph[End(rest)].neighs
  }

  /** The seed of the first node and the weights on the way. */
  ghost function Cost(seed: seq<int>, w: Walk): int
    requires IsSeeded(seed, w)
  {
    match w
    case At(v) => seed[v]
    case Via(rest, e) => Cost(seed, rest) + e.weight
  }

  ghost predicate IsSeeded(seed: seq<int>, w: Walk) {
    match w
    case At(v) => v < |seed|
    case Via(rest, _) => IsSeeded(seed, rest)
  }

  ghost predicate WalkTo(graph: seq<Node>, seed: seq<int>, w: Walk, v: nat, cost: int) {
    IsWalk(graph, w) && IsSeeded(seed, w) && End(w) == v && Cost(seed, w) == cost
  }

  // ----- one relaxation -----

  datatype Labels = Labels(costs: seq<int>, parents: seq<int>)

  /** Lowering the costs behind the first k edges of a node with this cost. */
  ghost function Relaxed(l: Labels, id: nat, cost: int, neighs: seq<Neigh>): (l': Labels)
    requires |l.costs| == |l.parents| && forall i :: 0 <= i < |neighs| ==> neighs[i].id < |l.costs|
    ensures |l'.costs| == |l'.parents| == |l.costs|
  {
    if neighs == [] then l
    else
      var r, e := Relaxed(l, id, cost, neighs[..|neighs| - 1]), neighs[|neighs| - 1];
      if cost + e.weight < r.costs[e.id] then Labels(r.costs[e.id := cost + e.weight], r.parents[e.id := id]) else r
  }

  /** What relaxing does to node v: nothing, or it lowers it to the cost over one of the edges. */
  lemma {:induction false} RelaxedAt(l: Labels, id: nat, cost: int, neighs: seq<Neigh>, v: nat)
    requires |l.costs| == |l.parents| && (forall i :: 0 <= i < |neighs| ==> neighs[i].id < |l.costs|) && v < |l.costs|
    ensures var l' := Relaxed(l, id, cost, neighs);
      || (l'.costs[v] == l.costs[v] && l'.parents[v] == l.parents[v])
      || (l'.costs[v] < l.costs[v] && l'.parents[v] == id &&
          exists i :: 0 <= i < |neighs| && neighs[i].id == v && l'.costs[v] == cost + neighs[i].weight)
    ensures forall i :: 0 <= i < |neighs| && neighs[i].id == v ==> Relaxed(l, id, cost, neighs).costs[v] <= cost + neighs[i].weight
  {
    if neighs != [] {
      var rest, e := neighs[..|neighs| - 1], neighs[|neighs| - 1];
      RelaxedAt(l, id, cost, rest, v);
      assert forall i :: 0 <= i < |rest| ==> rest[i] == neighs[i];
      var l', r := Relaxed(l, id, cost, neighs), Relaxed(l, id, cost, rest);
      if e.id == v && cost + e.weight < r.costs[v] {
        assert neighs[|neighs| - 1].id == v && l'.costs[v] == cost + neighs[|neighs| - 1].weight;
      } else if r.costs[v] < l.costs[v] {
        var i :| 0 <= i < |rest| && rest[i].id == v && r.costs[v] == cost + rest[i].weight;
        assert neighs[i].id == v && l'.costs[v] == cost + neighs[i].weight;
      }
    }
  }

  // ----- the invariant of the main loop -----

  ghost predicate EdgeTo(graph: seq<Node>, u: nat, v: nat, weight: int)
    requires u < |graph|
  {
    exists i :: 0 <= i < |graph[u].neighs| && graph[u].neighs[i] == Neigh(v, weight)
  }

  /** When a node was processed, counted from 0; later than all for the others. */
  ghost function Rank(order: seq<nat>, v: nat): (r: nat)
    ensures r <= |order|
  {
    if order == [] then 0 else if order[0] == v then 0 else 1 + Rank(order[1..], v)
  }

  ghost predicate Shaped(graph: seq<Node>, seed: seq<int>, l: Labels) {
    WellFormed(graph) && |seed| == |l.costs| == |l.parents| == |graph|
  }

  /** Costs only fall, and every cost is that of some walk. */
  ghost predicate Attained(graph: seq<Node>, seed: seq<int>, l: Labels)
    requires Shaped(graph, seed, l)
  {
    forall v :: 0 <= v < |graph| ==> l.costs[v] <= seed[v] && exists w :: WalkTo(graph, seed, w, v, l.costs[v])
  }

  /** Processed nodes are cheaper than the others and have passed their cost on. */
  ghost predicate Settled(graph: seq<Node>, l: Labels, order: seq<nat>)
    requires |l.costs| == |graph|
  {
    && (forall k :: 0 <= k < |order| ==> order[k] < |graph| && l.costs[order[k]] < INT_MAX)
    && (forall u, v :: u in order && 0 <= v < |graph| && v !in order ==> l.costs[u] <= l.costs[v])
    && (forall u, i :: u in order && 0 <= i < |graph[u].neighs| && graph[u].neighs[i].id < |graph| ==>
      l.costs[graph[u].neighs[i].id] <= l.costs[u] + graph[u].neighs[i].weight)
  }

  /** A lowered node has a parent that its cost came from, processed before it. */
  ghost predicate ParentOk(graph: seq<Node>, seed: seq<int>, l: Labels, order: seq<nat>, v: nat)
    requires |seed| == |l.costs| == |l.parents| == |graph| && v < |graph|
  {
    l.costs[v] < seed[v] ==>
      && 0 <= l.parents[v] < |graph|
      && EdgeTo(graph, l.parents[v], v, l.costs[v] - l.costs[l.parents[v]])
      && Rank(order, l.parents[v]) < Rank(order, v)
  }

  ghost predicate Parented(graph: seq<Node>, seed: seq<int>, l: Labels, order: seq<nat>)
    requires Shaped(graph, seed, l)
  {
    forall v :: 0 <= v < |graph| ==> ParentOk(graph, seed, l, order, v)
  }

  ghost predicate Inv(graph: seq<Node>, seed: seq<int>, l: Labels, order: seq<nat>) {
    Shaped(graph, seed, l) && Attained(graph, seed, l) && Settled(graph, l, order) && Parented(graph, seed, l, order)
  }

  /** The cheapest node that is not processed. */
  ghost predicate IsLowest(costs: seq<int>, order: seq<nat>, u: nat) {
    && u < |costs| && u !in order && costs[u] < INT_MAX
    && forall v :: 0 <= v < |costs| && v !in order ==> costs[u] <= costs[v]
  }

  lemma InitInv(graph: seq<Node>, l: Labels)
    requires Shaped(graph, l.costs, l)
    ensures Inv(graph, l.costs, l, [])
  {
    forall v | 0 <= v < |graph|
      ensures exists w :: WalkTo(graph, l.costs, w, v, l.costs[v])
    {
      assert WalkTo(graph, l.costs, At(v), v, l.costs[v]);
    }
  }

  /** The facts about one round at node v. */
  lemma {:induction false} RoundAt(graph: seq<Node>, seed: seq<int>, l: Labels, order: seq<nat>, u: nat, v: nat)
    requires Inv(graph, seed, l, order) && IsLowest(l.costs, order, u) && v < |graph|
    ensures var l' := Relaxed(l, u, l.costs[u], graph[u].neighs);
      && (v in order || v == u ==> l'.costs[v] == l.costs[v] && l'.parents[v] == l.parents[v])
      && l'.costs[v] <= l.costs[v]
      && l'.costs[v] >= (if l.costs[u] < l.costs[v] then l.costs[u] else l.costs[v])
      && (l'.costs[v] == l.costs[v] ==> l'.parents[v] == l.parents[v])
      && (l'.costs[v] < l.costs[v] ==> l'.parents[v] == u && EdgeTo(graph, u, v, l'.costs[v] - l.costs[u]))
      && (forall i :: 0 <= i < |graph[u].neighs| && graph[u].neighs[i].id == v ==>
        l'.costs[v] <= l.costs[u] + graph[u].neighs[i].weight)
  {
    var neighs := graph[u].neighs;
    RelaxedAt(l, u, l.costs[u], neighs, v);
    var l' := Relaxed(l, u, l.costs[u], neighs);
    if l'.costs[v] < l.costs[v] {
      var i :| 0 <= i < |neighs| && neighs[i].id == v && l'.costs[v] == l.costs[u] + neighs[i].weight;
      assert neighs[i] == Neigh(v, l'.costs[v] - l.costs[u]);
    }
  }

  lemma {:induction false} RankAppend(order: seq<nat>, u: nat, v: nat)
    requires Rank(order, u) == |order|
    ensures Rank(order + [u], v) ==
      if Rank(order, v) < |order| then Rank(order, v) else if v == u then |order| else |order| + 1
  {
    if order != [] {
      assert (order + [u])[1..] == order[1..] + [u];
      if order[0] != v {
        RankAppend(order[1..], u, v);
      }
    }
  }

  lemma {:induction false} RankIn(order: seq<nat>, v: nat)
    ensures v in order <==> Rank(order, v) < |order|
  {
    if order != [] {
      RankIn(order[1..], v);
      assert order == [order[0]] + order[1..];
    }
  }

  lemma {:induction false} RoundAttained(graph: seq<Node>, seed: seq<int>, l: Labels, order: seq<nat>, u: nat)
    requires Inv(graph, seed, l, order) && IsLowest(l.costs, order, u)
    ensures Attained(graph, seed, Relaxed(l, u, l.costs[u], graph[u].neighs))
  {
    var l' := Relaxed(l, u, l.costs[u], graph[u].neighs);
    forall v | 0 <= v < |graph|
      ensures l'.costs[v] <= seed[v] && exists w :: WalkTo(graph, seed, w, v, l'.costs[v])
    {
      RoundAt(graph, seed, l, order, u, v);
      if l'.costs[v] < l.costs[v] {
        var w :| WalkTo(graph, seed, w, u, l.costs[u]);
        var i :| 0 <= i < |graph[u].neighs| && graph[u].neighs[i] == Neigh(v, l'.costs[v] - l.costs[u]);
        assert WalkTo(graph, seed, Via(w, graph[u].neighs[i]), v, l'.costs[v]);
      }
    }
  }

  lemma {:induction false} SettledPair(graph: seq<Node>, seed: seq<int>, l: Labels, order: seq<nat>, u: nat, x: nat, v: nat)
    requires Inv(graph, seed, l, order) && IsLowest(l.costs, order, u) && (x in order || x == u)
    requires v < |graph| && v !in order && v != u
    ensures x < |graph| && l.costs[x] < INT_MAX
    ensures var l' := Relaxed(l, u, l.costs[u], graph[u].neighs);
      l'.costs[x] == l.costs[x] && l'.costs[x] <= l'.costs[v]
  {
    assert x in order ==> x < |graph| && l.costs[x] < INT_MAX && l.costs[x] <= l.costs[u];
    RoundAt(graph, seed, l, order, u, x);
    RoundAt(graph, seed, l, order, u, v);
    hide Relaxed, Inv;
  }

  lemma {:induction false} SettledEdge(graph: seq<Node>, seed: seq<int>, l: Labels, order: seq<nat>, u: nat, x: nat, i: nat)
    requires Inv(graph, seed, l, order) && IsLowest(l.costs, order, u) && (x in order || x == u)
    requires x < |graph| && i < |graph[x].neighs| && graph[x].neighs[i].id < |graph|
    ensures var l', e := Relaxed(l, u, l.costs[u], graph[u].neighs), graph[x].neighs[i];
      l'.costs[e.id] <= l'.costs[x] + e.weight
  {
    var e := graph[x].neighs[i];
    assert x in order ==> l.costs[graph[x].neighs[i].id] <= l.costs[x] + graph[x].neighs[i].weight;
    RoundAt(graph, seed, l, order, u, x);
    RoundAt(graph, seed, l, order, u, e.id);
    hide Relaxed, Inv;
  }

  lemma {:induction false} SettledNode(graph: seq<Node>, seed: seq<int>, l: Labels, order: seq<nat>, u: nat, x: nat)
    requires Inv(graph, seed, l, order) && IsLowest(l.costs, order, u) && (x in order || x == u)
    ensures x < |graph|
    ensures Relaxed(l, u, l.costs[u], graph[u].neighs).costs[x] < INT_MAX
  {
    assert x in order ==> x < |graph| && l.costs[x] < INT_MAX;
    RoundAt(graph, seed, l, order, u, x);
    hide Relaxed, Inv;
  }

  lemma {:induction false} RoundSettled(graph: seq<Node>, seed: seq<int>, l: Labels, order: seq<nat>, u: nat)
    requires Inv(graph, seed, l, order) && IsLowest(l.costs, order, u)
    ensures Settled(graph, Relaxed(l, u, l.costs[u], graph[u].neighs), order + [u])
  {
    assert |l.costs| == |l.parents| == |graph| && u < |graph|;
    hide Relaxed, Inv, IsLowest, WellFormed;
    forall k | 0 <= k < |order + [u]|
      ensures (order + [u])[k] < |graph|
      ensures Relaxed(l, u, l.costs[u], graph[u].neighs).costs[(order + [u])[k]] < INT_MAX
    {
      SettledNode(graph, seed, l, order, u, (order + [u])[k]);
    }
    forall x, v | x in order + [u] && 0 <= v < |graph| && v !in order + [u]
      ensures x < |graph|
      ensures Relaxed(l, u, l.costs[u], graph[u].neighs).costs[x] <= Relaxed(l, u, l.costs[u], graph[u].neighs).costs[v]
    {
      SettledPair(graph, seed, l, order, u, x, v);
    }
    forall x, i | x in order + [u] && x < |graph| && 0 <= i < |graph[x].neighs| && graph[x].neighs[i].id < |graph|
      ensures Relaxed(l, u, l.costs[u], graph[u].neighs).costs[graph[x].neighs[i].id] <=
              Relaxed(l, u, l.costs[u], graph[u].neighs).costs[x] + graph[x].neighs[i].weight
    {
      SettledEdge(graph, seed, l, order, u, x, i);
    }
  }

  lemma {:induction false} ProcessedStays(graph: seq<Node>, seed: seq<int>, l: Labels, order: seq<nat>, u: nat, v: nat)
    requires Inv(graph, seed, l, order) && IsLowest(l.costs, order, u) && v < |graph| && (Rank(order, v) < |order| || v == u)
    ensures Relaxed(l, u, l.costs[u], graph[u].neighs).costs[v] == l.costs[v]
  {
    RankIn(order, v);
    RoundAt(graph, seed, l, order, u, v);
    hide Relaxed, Inv, IsLowest, Rank;
  }

  /** Where the parent of a node comes from. */
  lemma {:induction false} ParentAt(graph: seq<Node>, seed: seq<int>, l: Labels, order: seq<nat>, u: nat, v: nat)
    requires Inv(graph, seed, l, order) && IsLowest(l.costs, order, u) && v < |graph|
    ensures var l' := Relaxed(l, u, l.costs[u], graph[u].neighs);
      || (l'.costs[v] == l.costs[v] && l'.parents[v] == l.parents[v])
      || (Rank(order, v) == |order| && v != u && l'.parents[v] == u && EdgeTo(graph, u, v, l'.costs[v] - l.costs[u]))
  {
    RankIn(order, v);
    RoundAt(graph, seed, l, order, u, v);
    hide Relaxed, Inv, IsLowest, EdgeTo, Rank;
  }

  lemma {:induction false} LowestRank(costs: seq<int>, order: seq<nat>, u: nat)
    requires IsLowest(costs, order, u)
    ensures u < |costs| && Rank(order, u) == |order|
  {
    RankIn(order, u);
  }

  lemma InvAt(graph: seq<Node>, seed: seq<int>, l: Labels, order: seq<nat>, v: nat)
    requires Inv(graph, seed, l, order)
    ensures |seed| == |l.costs| == |l.parents| == |graph| && WellFormed(graph)
    ensures v < |graph| ==> ParentOk(graph, seed, l, order, v)
  {}

  lemma {:induction false} RoundParentOk(graph: seq<Node>, seed: seq<int>, l: Labels, order: seq<nat>, u: nat, v: nat)
    requires Inv(graph, seed, l, order) && IsLowest(l.costs, order, u) && v < |graph|
    ensures ParentOk(graph, seed, Relaxed(l, u, l.costs[u], graph[u].neighs), order + [u], v)
  {
    hide Relaxed, Inv, EdgeTo, Rank, IsLowest, WellFormed;
    InvAt(graph, seed, l, order, v);
    LowestRank(l.costs, order, u);
    ParentAt(graph, seed, l, order, u, v);
    RankAppend(order, u, v);
    ProcessedStays(graph, seed, l, order, u, u);
    RankAppend(order, u, u);
    if l.costs[v] < seed[v] {
      RankAppend(order, u, l.parents[v]);
      ProcessedStays(graph, seed, l, order, u, l.parents[v]);
    }
  }

  lemma {:induction false} RoundParented(graph: seq<Node>, seed: seq<int>, l: Labels, order: seq<nat>, u: nat)
    requires Inv(graph, seed, l, order) && IsLowest(l.costs, order, u)
    ensures Parented(graph, seed, Relaxed(l, u, l.costs[u], graph[u].neighs), order + [u])
  {
    hide ParentOk, Relaxed;
    forall v | 0 <= v < |graph|
      ensures ParentOk(graph, seed, Relaxed(l, u, l.costs[u], graph[u].neighs), order + [u], v)
    {
      RoundParentOk(graph, seed, l, order, u, v);
    }
  }

  /** One round keeps the invariant, and leaves the processed nodes alone. */
  lemma {:induction false} RoundKeeps(graph: seq<Node>, seed: seq<int>, l: Labels, order: seq<nat>, u: nat)
    requires Inv(graph, seed, l, order) && IsLowest(l.costs, order, u)
    ensures var l' := Relaxed(l, u, l.costs[u], graph[u].neighs);
      && Inv(graph, seed, l', order + [u])
      && forall v :: v in order ==> v < |graph| && l'.costs[v] == l.costs[v] && l'.parents[v] == l.parents[v]
  {
    RoundAttained(graph, seed, l, order, u);
    RoundSettled(graph, seed, l, order, u);
    RoundParented(graph, seed, l, order, u);
    forall v | v in order
      ensures v < |graph| && Relaxed(l, u, l.costs[u], graph[u].neighs).costs[v] == l.costs[v]
      ensures Relaxed(l, u, l.costs[u], graph[u].neighs).parents[v] == l.parents[v]
    {
      RoundAt(graph, seed, l, order, u, v);
    }
  }

  /** Nothing below INT_MAX is left to process. */
  ghost predicate Done(costs: seq<int>, order: seq<nat>) {
    forall v :: 0 <= v < |costs| && v !in order ==> costs[v] >= INT_MAX
  }

  // ----- the result -----

  /** No walk is cheaper than the cost of its end. */
  lemma {:induction false} NoWalkIsCheaper(graph: seq<Node>, seed: seq<int>, l: Labels, order: seq<nat>, w: Walk)
    requires Inv(graph, seed, l, order) && Done(l.costs, order) && IsWalk(graph, w) && IsSeeded(seed, w)
    requires forall v :: 0 <= v < |seed| ==> seed[v] <= INT_MAX
    ensures End(w) < |graph| && l.costs[End(w)] <= Cost(seed, w)
  {
    match w
    case At(v) =>
    case Via(rest, e) =>
      NoWalkIsCheaper(graph, seed, l, order, rest);
      var u := End(rest);
      var i :| 0 <= i < |graph[u].neighs| && graph[u].neighs[i] == e;
      assert e.id < |graph| && e.weight >= 0;
      if u in order {
        assert l.costs[graph[u].neighs[i].id] <= l.costs[u] + graph[u].neighs[i].weight;
      } else {
        assert l.costs[e.id] <= seed[e.id];
      }
  }

  /** cost is the least cost of a walk to v. */
  ghost predicate IsLeastCost(graph: seq<Node>, seed: seq<int>, v: nat, cost: int) {
    && (exists w :: WalkTo(graph, seed, w, v, cost))
    && forall w :: IsWalk(graph, w) && IsSeeded(seed, w) && End(w) == v ==> cost <= Cost(seed, w)
  }

  ghost predicate AreLeastCosts(graph: seq<Node>, seed: seq<int>, costs: seq<int>) {
    |costs| == |graph| && forall v :: 0 <= v < |graph| ==> IsLeastCost(graph, seed, v, costs[v])
  }

  /** v costs less than its seed. */
  ghost predicate Lowered(seed: seq<int>, l: Labels, v: nat)
    requires v < |seed| && v < |l.costs|
  {
    l.costs[v] < seed[v]
  }

  /** v was lowered over an edge from its parent p. */
  ghost predicate Link(graph: seq<Node>, seed: seq<int>, l: Labels, v: nat, p: nat)
    requires Shaped(graph, seed, l) && v < |graph| && p < |graph|
  {
    Lowered(seed, l, v) && l.parents[v] == p && EdgeTo(graph, p, v, l.costs[v] - l.costs[p])
  }

  /** A chain of parents from its first node to one still at its seed cost, each link an edge that accounts for the cost. */
  ghost predicate IsChain(graph: seq<Node>, seed: seq<int>, l: Labels, c: seq<nat>)
    requires Shaped(graph, seed, l)
  {
    && c != [] && (forall k :: 0 <= k < |c| ==> c[k] < |graph|)
    && (forall k :: 0 <= k < |c| - 1 ==> Link(graph, seed, l, c[k], c[k + 1]))
    && l.costs[c[|c| - 1]] == seed[c[|c| - 1]]
    && Distinct(c)
  }

  /** One more link in front of a chain. */
  lemma LinkBefore(graph: seq<Node>, seed: seq<int>, l: Labels, v: nat, rest: seq<nat>)
    requires Shaped(graph, seed, l) && v < |graph| && IsChain(graph, seed, l, rest) && v !in rest
    requires Link(graph, seed, l, v, rest[0])
    ensures IsChain(graph, seed, l, [v] + rest)
  {
    var c := [v] + rest;
    hide Shaped, Link, Distinct;
    assert forall k :: 1 <= k < |c| ==> c[k] == rest[k - 1];
    forall k | 0 <= k < |c| - 1
      ensures Link(graph, seed, l, c[k], c[k + 1])
    {
      if k > 0 {
        assert Link(graph, seed, l, rest[k - 1], rest[k - 1 + 1]);
      }
    }
    DistinctBefore(v, rest);
  }

  /** Following the parents of any node reaches a seeded node without passing a node twice. */
  lemma {:induction false} ParentsLeadBack(graph: seq<Node>, seed: seq<int>, l: Labels, order: seq<nat>, v: nat) returns (c: seq<nat>)
    requires Inv(graph, seed, l, order) && v < |graph|
    ensures IsChain(graph, seed, l, c) && c[0] == v
    ensures forall k :: 0 <= k < |c| ==> Rank(order, c[k]) <= Rank(order, v)
    decreases Rank(order, v)
  {
    assert ParentOk(graph, seed, l, order, v);
    if l.costs[v] < seed[v] {
      var rest := ParentsLeadBack(graph, seed, l, order, l.parents[v]);
      assert v !in rest;
      assert Link(graph, seed, l, v, rest[0]);
      LinkBefore(graph, seed, l, v, rest);
      c := [v] + rest;
    } else {
      c := [v];
    }
    hide Inv, IsChain;
  }

  // ----- the algorithm -----

  /** The first of the cheapest nodes below INT_MAX that are not processed. */
  method FindLowestCostNode(graph: seq<Node>, costs: array<int>, processed: set<nat>, ghost order: seq<nat>) returns (node: Option<Node>)
    requires WellFormed(graph) && costs.Length == |graph| && forall v :: v in processed <==> v in order
    ensures node.None? ==> Done(costs[..], order)
    ensures node.Some? ==> node.value.id < |graph| && graph[node.value.id] == node.value
    ensures node.Some? ==> IsLowest(costs[..], order, node.value.id)
    ensures node.Some? ==> forall u :: 0 <= u < node.value.id && u !in order ==> costs[u] > costs[node.value.id]
  {
    var lowest := INT_MAX;
    node := None;
    for i := 0 to costs.Length
      invariant node.None? ==> lowest == INT_MAX
      invariant node.Some? ==>
        node.value.id < i && graph[node.value.id] == node.value && node.value.id !in processed && costs[node.value.id] == lowest < INT_MAX
      invariant forall v :: 0 <= v < i && v !in processed ==> lowest <= costs[v]
      invariant node.Some? ==> forall v :: 0 <= v < node.value.id && v !in processed ==> lowest < costs[v]
    {
      if i !in processed && costs[i] < lowest {
        assert graph[i].id == i;
        node := Some(graph[i]);
        lowest := costs[i];
      }
    }
  }

  /** Following the parents of v leads back to a node at its seed cost within as many steps as there are nodes. */
  ghost predicate LeadsBack(graph: seq<Node>, seed: seq<int>, l: Labels, v: nat)
    requires Shaped(graph, seed, l)
  {
    exists c :: IsChain(graph, seed, l, c) && c[0] == v && |c| <= |graph|
  }

  ghost predicate AllLeadBack(graph: seq<Node>, seed: seq<int>, l: Labels) {
    Shaped(graph, seed, l) && forall v :: 0 <= v < |graph| ==> LeadsBack(graph, seed, l, v)
  }

  /** What the main loop leaves behind. */
  lemma Result(graph: seq<Node>, seed: seq<int>, l: Labels, order: seq<nat>, v: nat)
    requires Inv(graph, seed, l, order) && Done(l.costs, order) && v < |graph|
    requires forall u :: 0 <= u < |seed| ==> seed[u] <= INT_MAX
    ensures IsLeastCost(graph, seed, v, l.costs[v]) && LeadsBack(graph, seed, l, v)
  {
    forall w | IsWalk(graph, w) && IsSeeded(seed, w) && End(w) == v
      ensures l.costs[v] <= Cost(seed, w)
    {
      NoWalkIsCheaper(graph, seed, l, order, w);
    }
    var c := ParentsLeadBack(graph, seed, l, order, v);
    DistinctBelow(c, |graph|);
  }

  /** The nodes that cost nothing less than INT_MAX are those no walk of a smaller cost reaches. */
  lemma {:induction false} Unreached(graph: seq<Node>, seed: seq<int>, v: nat, cost: int)
    requires IsLeastCost(graph, seed, v, cost)
    ensures cost < INT_MAX <==> exists w :: IsWalk(graph, w) && IsSeeded(seed, w) && End(w) == v && Cost(seed, w) < INT_MAX
  {
    var w :| WalkTo(graph, seed, w, v, cost);
  }

  lemma LowestIsNew(costs: seq<int>, order: seq<nat>, u: nat)
    requires IsLowest(costs, order, u)
    ensures u < |costs| && u !in order
  {}

  lemma EdgesInside(graph: seq<Node>, u: nat)
    requires WellFormed(graph) && u < |graph|
    ensures forall i :: 0 <= i < |graph[u].neighs| ==> graph[u].neighs[i].id < |graph|
  {}

  // ----- no sum exceeds INT_MAX -----

  /** Seeds that are set are at most s, weights at most w, and s plus w once for every node is at most INT_MAX. */
  ghost predicate SumsFit(graph: seq<Node>, seed: seq<int>, s: int, w: nat) {
    && (forall v :: 0 <= v < |seed| && seed[v] < INT_MAX ==> seed[v] <= s)
    && (forall u, i :: 0 <= u < |graph| && 0 <= i < |graph[u].neighs| ==> graph[u].neighs[i].weight <= w)
    && s + |graph| * w <= INT_MAX
  }

  /** Costs fall along a chain of parents. */
  lemma {:induction false} ChainFalls(graph: seq<Node>, seed: seq<int>, l: Labels, c: seq<nat>, k: nat)
    requires Shaped(graph, seed, l) && IsChain(graph, seed, l, c) && k < |c|
    ensures l.costs[c[k]] <= l.costs[c[0]]
  {
    if k > 0 {
      ChainFalls(graph, seed, l, c, k - 1);
      assert Link(graph, seed, l, c[k - 1], c[k - 1 + 1]);
    }
  }

  /** A chain of k links is at most k weights dearer than its seed. */
  lemma {:induction false} ChainRises(graph: seq<Node>, seed: seq<int>, l: Labels, c: seq<nat>, k: nat, s: int, w: nat)
    requires Shaped(graph, seed, l) && IsChain(graph, seed, l, c) && k < |c|
    requires l.costs[c[0]] < INT_MAX && SumsFit(graph, seed, s, w)
    ensures l.costs[c[|c| - 1 - k]] <= s + k * w
    decreases k
  {
    if k == 0 {
      ChainFalls(graph, seed, l, c, |c| - 1);
    } else {
      ChainRises(graph, seed, l, c, k - 1, s, w);
      var j := |c| - 1 - k;
      assert Link(graph, seed, l, c[j], c[j + 1]);
      Division.Distribute(k - 1, 1, w);
    }
  }

  /** The sum that relaxing an edge of a reached node computes, in any round. */
  lemma {:induction false} NoSumExceeds(graph: seq<Node>, seed: seq<int>, l: Labels, order: seq<nat>, u: nat, i: nat, s: int, w: nat)
    requires Inv(graph, seed, l, order) && u < |graph| && l.costs[u] < INT_MAX && i < |graph[u].neighs|
    requires SumsFit(graph, seed, s, w)
    ensures l.costs[u] + graph[u].neighs[i].weight <= s + |graph| * w <= INT_MAX
  {
    InvShaped(graph, seed, l, order);
    var c := ParentsLeadBack(graph, seed, l, order, u);
    DistinctBelow(c, |graph|);
    ChainRises(graph, seed, l, c, |c| - 1, s, w);
    Division.Distribute(|c| - 1, 1, w);
    Division.Times(|c|, |graph|, w);
  }

  /** The sums computed in relaxing the nodes of order: a node keeps its cost from then on. */
  ghost predicate NoSumOverflows(graph: seq<Node>, costs: seq<int>, order: seq<nat>) {
    forall u, i :: u in order && u < |costs| && u < |graph| && 0 <= i < |graph[u].neighs| ==>
      costs[u] + graph[u].neighs[i].weight <= INT_MAX
  }

  lemma {:induction false} NoSumOverflowsAtAll(graph: seq<Node>, seed: seq<int>, l: Labels, order: seq<nat>, s: int, w: nat)
    requires Inv(graph, seed, l, order) && SumsFit(graph, seed, s, w)
    ensures NoSumOverflows(graph, l.costs, order)
  {
    forall u, i | u in order && u < |l.costs| && u < |graph| && 0 <= i < |graph[u].neighs|
      ensures l.costs[u] + graph[u].neighs[i].weight <= INT_MAX
    {
      ProcessedReached(graph, seed, l, order, u);
      NoSumExceeds(graph, seed, l, order, u, i, s, w);
    }
  }

  lemma {:induction false} ProcessedReached(graph: seq<Node>, seed: seq<int>, l: Labels, order: seq<nat>, u: nat)
    requires Inv(graph, seed, l, order) && u in order
    ensures u < |graph| && l.costs[u] < INT_MAX
  {}

  // ----- which nodes are reached -----

  ghost function Begin(w: Walk): nat {
    match w
    case At(v) => v
    case Via(rest, _) => Begin(rest)
  }

  /** Some walk from a node with a seed leads to v. */
  ghost predicate Reachable(graph: seq<Node>, seed: seq<int>, v: nat) {
    exists w :: IsWalk(graph, w) && Begin(w) < |seed| && seed[Begin(w)] != 2147483647 && End(w) == v
  }

  /** The costs below the largest int are those of the nodes that can be reached. */
  ghost predicate TellsReachable(graph: seq<Node>, seed: seq<int>, costs: seq<int>) {
    forall v :: 0 <= v < |costs| ==> if Reachable(graph, seed, v) then costs[v] < 2147483647 else costs[v] == 2147483647
  }

  /** Seeds that are set are at most s, weights at most w, and s plus w once for every node is below the largest int. */
  ghost predicate StaysBelow(graph: seq<Node>, seed: seq<int>, s: int, w: nat) {
    && (forall v :: 0 <= v < |seed| && seed[v] != 2147483647 ==> seed[v] <= s)
    && (forall u, i :: 0 <= u < |graph| && 0 <= i < |graph[u].neighs| ==> graph[u].neighs[i].weight <= w)
    && s + |graph| * w < 2147483647
  }

  lemma {:induction false} CostsFell(graph: seq<Node>, seed: seq<int>, l: Labels, order: seq<nat>, v: nat)
    requires Inv(graph, seed, l, order) && v < |seed|
    ensures v < |graph| == |l.costs| && l.costs[v] <= seed[v]
  {}

  /** A processed node has passed its cost on over every edge. */
  lemma {:induction false} PassedOn(graph: seq<Node>, seed: seq<int>, l: Labels, order: seq<nat>, u: nat, i: nat)
    requires Inv(graph, seed, l, order) && u in order && u < |graph| && i < |graph[u].neighs|
    ensures graph[u].neighs[i].id < |l.costs| == |graph|
    ensures l.costs[graph[u].neighs[i].id] <= l.costs[u] + graph[u].neighs[i].weight
  {}

  /** However long a walk from a seeded node is, its end is reached. */
  lemma {:induction false} WalkReaches(graph: seq<Node>, seed: seq<int>, l: Labels, order: seq<nat>, walk: Walk, s: int, w: nat)
    requires Inv(graph, seed, l, order) && Done(l.costs, order) && StaysBelow(graph, seed, s, w)
    requires IsWalk(graph, walk) && Begin(walk) < |seed| && seed[Begin(walk)] != 2147483647
    ensures End(walk) < |graph| && l.costs[End(walk)] < 2147483647
  {
    if walk.At? {
      CostsFell(graph, seed, l, order, walk.node);
    } else {
      var u, e := End(walk.walk), walk.edge;
      WalkReaches(graph, seed, l, order, walk.walk, s, w);
      var i :| 0 <= i < |graph[u].neighs| && graph[u].neighs[i] == e;
      InvAt(graph, seed, l, order, u);
      hide Inv, IsWalk;
      NoSumExceeds(graph, seed, l, order, u, i, s, w);
      PassedOn(graph, seed, l, order, u, i);
    }
  }

  /** A walk costs no less than its seed. */
  lemma {:induction false} SeedIsLess(graph: seq<Node>, seed: seq<int>, w: Walk)
    requires WellFormed(graph) && IsWalk(graph, w) && IsSeeded(seed, w)
    ensures Begin(w) < |seed| && seed[Begin(w)] <= Cost(seed, w)
  {
    if w.Via? {
      SeedIsLess(graph, seed, w.walk);
      EdgeInside(graph, End(w.walk), w.edge);
    }
  }

  /** A node is reached, however small the difference to the largest int, exactly when a walk leads there. */
  lemma {:induction false} ReachedExactly(graph: seq<Node>, seed: seq<int>, l: Labels, order: seq<nat>, s: int, w: nat)
    requires Inv(graph, seed, l, order) && Done(l.costs, order) && StaysBelow(graph, seed, s, w)
    requires forall u :: 0 <= u < |seed| ==> seed[u] <= 2147483647
    ensures TellsReachable(graph, seed, l.costs)
  {
    forall v | 0 <= v < |l.costs|
      ensures if Reachable(graph, seed, v) then l.costs[v] < 2147483647 else l.costs[v] == 2147483647
    {
      if Reachable(graph, seed, v) {
        var walk :| IsWalk(graph, walk) && Begin(walk) < |seed| && seed[Begin(walk)] != 2147483647 && End(walk) == v;
        WalkReaches(graph, seed, l, order, walk, s, w);
      } else {
        assert v < |graph| && l.costs[v] <= seed[v];
        var walk :| WalkTo(graph, seed, walk, v, l.costs[v]);
        SeedIsLess(graph, seed, walk);
      }
    }
  }

  // ----- the loops -----

  /** Costs only fell, and who kept its cost kept its parent. */
  ghost predicate Kept(was: Labels, l: Labels) {
    && |was.costs| == |was.parents| == |l.costs| == |l.parents|
    && forall v :: 0 <= v < |l.costs| ==>
      l.costs[v] <= was.costs[v] && (l.costs[v] == was.costs[v] ==> l.parents[v] == was.parents[v])
  }

  lemma {:induction false} RelaxedKept(l: Labels, id: nat, cost: int, neighs: seq<Neigh>)
    requires |l.costs| == |l.parents| && forall i :: 0 <= i < |neighs| ==> neighs[i].id < |l.costs|
    ensures Kept(l, Relaxed(l, id, cost, neighs))
  {
    forall v | 0 <= v < |l.costs|
      ensures var l' := Relaxed(l, id, cost, neighs);
        l'.costs[v] <= l.costs[v] && (l'.costs[v] == l.costs[v] ==> l'.parents[v] == l.parents[v])
    {
      RelaxedAt(l, id, cost, neighs, v);
    }
  }

  lemma KeptAgain(a: Labels, b: Labels, c: Labels)
    requires Kept(a, b) && Kept(b, c)
    ensures Kept(a, c)
  {}

  lemma KeptSame(l: Labels)
    requires |l.costs| == |l.parents|
    ensures Kept(l, l)
  {}

  /** Passes the cost of a node on over its edges. */
  method Relax(costs: array<int>, parents: array<int>, id: nat, cost: int, neighs: seq<Neigh>)
    requires costs.Length == parents.Length && costs != parents
    requires forall i :: 0 <= i < |neighs| ==> neighs[i].id < costs.Length
    modifies costs, parents
    ensures Labels(costs[..], parents[..]) == Relaxed(old(Labels(costs[..], parents[..])), id, cost, neighs)
  {
    ghost var l := Labels(costs[..], parents[..]);
    for i := 0 to |neighs|
      invariant Labels(costs[..], parents[..]) == Relaxed(l, id, cost, neighs[..i])
    {
      var newCost := cost + neighs[i].weight;
      assert neighs[..i + 1][..i] == neighs[..i];
      if newCost < costs[neighs[i].id] {
        costs[neighs[i].id] := newCost;
        parents[neighs[i].id] := id;
      }
    }
    assert neighs[..|neighs|] == neighs;
  }

  /** One round of the main loop: the processed nodes keep their costs and parents. */
  method Round(graph: seq<Node>, costs: array<int>, parents: array<int>, u: nat, ghost seed: seq<int>, ghost order: seq<nat>)
    requires costs.Length == parents.Length == |graph| && costs != parents
    requires Inv(graph, seed, Labels(costs[..], parents[..]), order) && IsLowest(costs[..], order, u)
    modifies costs, parents
    ensures Inv(graph, seed, Labels(costs[..], parents[..]), order + [u])
    ensures forall v :: v in order ==> v < |graph| && costs[v] == old(costs[v]) && parents[v] == old(parents[v])
    ensures Kept(old(Labels(costs[..], parents[..])), Labels(costs[..], parents[..]))
  {
    ghost var l := Labels(costs[..], parents[..]);
    hide Inv, Relaxed, WellFormed, IsLowest, Kept;
    InvAt(graph, seed, l, order, u);
    LowestRank(costs[..], order, u);
    EdgesInside(graph, u);
    RoundKeeps(graph, seed, l, order, u);
    RelaxedKept(l, u, costs[u], graph[u].neighs);
    Relax(costs, parents, u, costs[u], graph[u].neighs);
    ghost var l' := Labels(costs[..], parents[..]);
    forall v | v in order
      ensures v < |graph| && costs[v] == old(costs[v]) && parents[v] == old(parents[v])
    {
      assert l'.costs[v] == l.costs[v] && l'.parents[v] == l.parents[v];
    }
  }

  /**
   * Lowers costs to the least costs of walks from the seeded nodes, where a walk may start at any
   * node with its seed, and leaves behind the parents those costs came from.
   */
  method Deykstra(graph: seq<Node>, costs: array<int>, parents: array<int>) returns (ghost order: seq<nat>)
    requires WellFormed(graph) && costs.Length == parents.Length == |graph| && costs != parents
    requires forall v :: 0 <= v < |graph| ==> costs[v] <= INT_MAX
    modifies costs, parents
    ensures AreLeastCosts(graph, old(costs[..]), costs[..])
    ensures Shaped(graph, old(costs[..]), Labels(costs[..], parents[..]))
    ensures AllLeadBack(graph, old(costs[..]), Labels(costs[..], parents[..]))
    ensures Inv(graph, old(costs[..]), Labels(costs[..], parents[..]), order)
    ensures forall s, w :: SumsFit(graph, old(costs[..]), s, w) ==> NoSumOverflows(graph, costs[..], order)
    ensures forall s, w :: StaysBelow(graph, old(costs[..]), s, w) ==> TellsReachable(graph, old(costs[..]), costs[..])
    ensures Kept(old(Labels(costs[..], parents[..])), Labels(costs[..], parents[..]))
  {
    ghost var seed, was := costs[..], Labels(costs[..], parents[..]);
    var processed: set<nat> := {};
    order := [];
    InitInv(graph, was);
    KeptSame(was);
    hide Kept, Inv, WellFormed, AreLeastCosts, AllLeadBack, Shaped, IsLowest, Done, StaysBelow, TellsReachable, SumsFit, NoSumOverflows;
    var node := FindLowestCostNode(graph, costs, processed, order);
    while node.Some?
      invariant Inv(graph, seed, Labels(costs[..], parents[..]), order)
      invariant Kept(was, Labels(costs[..], parents[..]))
      invariant forall v :: v in processed <==> v in order
      invariant processed <= Below(|graph|)
      invariant node.None? ==> Done(costs[..], order)
      invariant node.Some? ==> node.value.id < |graph| && IsLowest(costs[..], order, node.value.id)
      decreases Below(|graph|) - processed
    {
      var u := node.value.id;
      LowestIsNew(costs[..], order, u);
      ghost var before := Labels(costs[..], parents[..]);
      Round(graph, costs, parents, u, seed, order);
      KeptAgain(was, before, Labels(costs[..], parents[..]));
      processed := processed + {u};
      order := order + [u];
      node := FindLowestCostNode(graph, costs, processed, order);
    }
    ghost var l := Labels(costs[..], parents[..]);
    Results(graph, seed, l, order);
  }

  /** All that the main loop leaves behind. */
  lemma {:induction false} Results(graph: seq<Node>, seed: seq<int>, l: Labels, order: seq<nat>)
    requires Inv(graph, seed, l, order) && Done(l.costs, order)
    requires forall v :: 0 <= v < |seed| ==> seed[v] <= INT_MAX
    ensures Shaped(graph, seed, l) && AreLeastCosts(graph, seed, l.costs) && AllLeadBack(graph, seed, l)
    ensures forall s, w :: SumsFit(graph, seed, s, w) ==> NoSumOverflows(graph, l.costs, order)
    ensures forall s, w :: StaysBelow(graph, seed, s, w) ==> TellsReachable(graph, seed, l.costs)
  {
    InvShaped(graph, seed, l, order);
    hide Inv, IsLeastCost, LeadsBack, SumsFit, NoSumOverflows, StaysBelow, TellsReachable;
    forall s, w | SumsFit(graph, seed, s, w)
      ensures NoSumOverflows(graph, l.costs, order)
    {
      NoSumOverflowsAtAll(graph, seed, l, order, s, w);
    }
    forall s, w | StaysBelow(graph, seed, s, w)
      ensures TellsReachable(graph, seed, l.costs)
    {
      ReachedExactly(graph, seed, l, order, s, w);
    }
    forall v | 0 <= v < |graph|
      ensures IsLeastCost(graph, seed, v, l.costs[v]) && LeadsBack(graph, seed, l, v)
    {
      Result(graph, seed, l, order, v);
    }
  }

  lemma InvShaped(graph: seq<Node>, seed: seq<int>, l: Labels, order: seq<nat>)
    requires Inv(graph, seed, l, order)
    ensures Shaped(graph, seed, l)
  {}

  // ----- seeding from a source -----

  /** Labels before the search: the edges of the source, the last of parallel ones counting. */
  ghost function Seeded(n: nat, source: nat, neighs: seq<Neigh>): (l: Labels)
    requires forall i :: 0 <= i < |neighs| ==> neighs[i].id < n
    ensures |l.costs| == |l.parents| == n
  {
    if neighs == [] then Labels(seq(n, _ => INT_MAX), seq(n, _ => -1))
    else
      var l, e := Seeded(n, source, neighs[..|neighs| - 1]), neighs[|neighs| - 1];
      Labels(l.costs[e.id := e.weight], l.parents[e.id := source])
  }

  method SeedFrom(graph: seq<Node>, source: nat) returns (costs: array<int>, parents: array<int>)
    requires WellFormed(graph) && source < |graph|
    ensures fresh(costs) && fresh(parents) && costs != parents
    ensures Labels(costs[..], parents[..]) == Seeded(|graph|, source, graph[source].neighs)
  {
    costs := new int[|graph|](_ => INT_MAX);
    parents := new int[|graph|](_ => -1);
    var neighs := graph[source].neighs;
    assert costs[..] == seq(|graph|, _ => INT_MAX) && parents[..] == seq(|graph|, _ => -1);
    hide WellFormed;
    assert forall i :: 0 <= i < |neighs| ==> neighs[i].id < |graph| by { EdgesInside(graph, source); }
    for i := 0 to |neighs|
      invariant Labels(costs[..], parents[..]) == Seeded(|graph|, source, neighs[..i])
    {
      assert neighs[..i + 1][..i] == neighs[..i];
      costs[neighs[i].id] := neighs[i].weight;
      parents[neighs[i].id] := source;
    }
    assert neighs[..|neighs|] == neighs;
  }

  /** The last edge listed to its node. */
  ghost predicate IsLast(neighs: seq<Neigh>, i: int) {
    0 <= i < |neighs| && forall j :: i < j < |neighs| ==> neighs[j].id != neighs[i].id
  }

  /** A seed is INT_MAX or the weight of the last edge of the source to the node, with the source as parent. */
  lemma {:induction false} SeedIsEdge(n: nat, source: nat, neighs: seq<Neigh>, v: nat)
    requires (forall i :: 0 <= i < |neighs| ==> neighs[i].id < n) && v < n
    ensures var l := Seeded(n, source, neighs);
      || (l.costs[v] == INT_MAX && l.parents[v] == -1 && forall i :: 0 <= i < |neighs| ==> neighs[i].id != v)
      || (l.parents[v] == source && exists i :: IsLast(neighs, i) && neighs[i] == Neigh(v, l.costs[v]))
  {
    if neighs != [] {
      var rest, last := neighs[..|neighs| - 1], |neighs| - 1;
      SeedIsEdge(n, source, rest, v);
      var l := Seeded(n, source, rest);
      if neighs[last].id == v {
        assert IsLast(neighs, last) && neighs[last] == Neigh(v, neighs[last].weight);
      } else if i :| IsLast(rest, i) && rest[i] == Neigh(v, l.costs[v]) {
        assert IsLast(neighs, i) && neighs[i] == Neigh(v, l.costs[v]);
      }
    }
  }

  /** The last edge to a node gives its seed. */
  lemma {:induction false} LastIsSeed(n: nat, source: nat, neighs: seq<Neigh>, i: nat)
    requires (forall j :: 0 <= j < |neighs| ==> neighs[j].id < n) && IsLast(neighs, i)
    ensures Seeded(n, source, neighs).costs[neighs[i].id] == neighs[i].weight
  {
    var v := neighs[i].id;
    SeedIsEdge(n, source, neighs, v);
    var k :| IsLast(neighs, k) && neighs[k] == Neigh(v, Seeded(n, source, neighs).costs[v]);
    assert k == i;
  }

  /** A walk of at least one edge from the source, at the cost of its edges. */
  ghost predicate SourceWalk(graph: seq<Node>, source: nat, w: Walk, cost: int) {
    match w
    case At(_) => false
    case Via(rest, e) =>
      && IsWalk(graph, w)
      && if rest.At? then rest.node == source && cost == e.weight else SourceWalk(graph, source, rest, cost - e.weight)
  }

  ghost function FirstEdge(w: Walk): Neigh
    requires w.Via?
  {
    if w.walk.At? then w.edge else FirstEdge(w.walk)
  }

  /** A walk from the source whose first edge is the last listed among its parallels. */
  ghost predicate KeptWalk(graph: seq<Node>, source: nat, w: Walk, cost: int)
    requires source < |graph|
  {
    SourceWalk(graph, source, w, cost) && exists i :: IsLast(graph[source].neighs, i) && graph[source].neighs[i] == FirstEdge(w)
  }

  /** Cutting the first edge off a walk from the source leaves a walk with its seed, if that is no dearer. */
  lemma {:induction false} CutFirstEdge(graph: seq<Node>, source: nat, seed: seq<int>, w: Walk, cost: int) returns (w': Walk)
    requires WellFormed(graph) && |seed| == |graph| && SourceWalk(graph, source, w, cost)
    requires FirstEdge(w).id < |graph| && seed[FirstEdge(w).id] <= FirstEdge(w).weight
    ensures IsWalk(graph, w') && IsSeeded(seed, w') && End(w') == End(w) && Cost(seed, w') <= cost
  {
    if w.walk.At? {
      w' := At(w.edge.id);
    } else {
      w' := CutFirstEdge(graph, source, seed, w.walk, cost - w.edge.weight);
      w' := Via(w', w.edge);
    }
  }

  /** Putting the first edge back. */
  lemma {:induction false} PutFirstEdge(graph: seq<Node>, source: nat, seed: seq<int>, w: Walk) returns (w': Walk)
    requires WellFormed(graph) && source < |graph| && seed == Seeded(|graph|, source, graph[source].neighs).costs
    requires IsWalk(graph, w) && IsSeeded(seed, w) && Cost(seed, w) < INT_MAX
    ensures KeptWalk(graph, source, w', Cost(seed, w)) && End(w') == End(w)
  {
    hide Seeded, WellFormed;
    match w
    case At(v) =>
      w' := SeedWalk(graph, source, v);
    case Via(rest, e) =>
      EdgeInside(graph, End(rest), e);
      w' := PutFirstEdge(graph, source, seed, rest);
      w' := Via(w', e);
  }

  lemma EdgeInside(graph: seq<Node>, u: nat, e: Neigh)
    requires WellFormed(graph) && u < |graph| && e in graph[u].neighs
    ensures e.id < |graph| && e.weight >= 0
  {}

  /** The walk over the edge that a seed comes from. */
  lemma SeedWalk(graph: seq<Node>, source: nat, v: nat) returns (w: Walk)
    requires WellFormed(graph) && source < |graph| && v < |graph|
    requires Seeded(|graph|, source, graph[source].neighs).costs[v] < INT_MAX
    ensures KeptWalk(graph, source, w, Seeded(|graph|, source, graph[source].neighs).costs[v]) && End(w) == v
  {
    var neighs := graph[source].neighs;
    SeedIsEdge(|graph|, source, neighs, v);
    var i :| IsLast(neighs, i) && neighs[i] == Neigh(v, Seeded(|graph|, source, neighs).costs[v]);
    w := Via(At(source), neighs[i]);
    assert IsWalk(graph, At(source)) && FirstEdge(w) == neighs[i];
  }

  /**
   * With the seeds of a source, the least costs below INT_MAX are the least weights of walks of at
   * least one edge from the source that leave it over the last of parallel edges.
   */
  lemma {:induction false} SourceDistance(graph: seq<Node>, source: nat, seed: seq<int>, v: nat, cost: int)
    requires WellFormed(graph) && source < |graph| && seed == Seeded(|graph|, source, graph[source].neighs).costs
    requires IsLeastCost(graph, seed, v, cost)
    ensures forall w, c :: KeptWalk(graph, source, w, c) && End(w) == v ==> cost <= c
    ensures cost < INT_MAX ==> exists w :: KeptWalk(graph, source, w, cost) && End(w) == v
  {
    EdgesInside(graph, source);
    forall w, c | KeptWalk(graph, source, w, c) && End(w) == v
      ensures cost <= c
    {
      var i :| IsLast(graph[source].neighs, i) && graph[source].neighs[i] == FirstEdge(w);
      LastIsSeed(|graph|, source, graph[source].neighs, i);
      var w' := CutFirstEdge(graph, source, seed, w, c);
    }
    if cost < INT_MAX {
      var w :| WalkTo(graph, seed, w, v, cost);
      var w' := PutFirstEdge(graph, source, seed, w);
    }
  }

  /** No walk from the source is cheaper than the costs found. */
  ghost predicate NoneCheaper(graph: seq<Node>, source: nat, costs: seq<int>)
    requires |costs| == |graph|
  {
    forall w, c :: SourceWalk(graph, source, w, c) && End(w) < |graph| ==> costs[End(w)] <= c
  }

  lemma {:induction false} OneEdge(graph: seq<Node>, source: nat, e: Neigh)
    requires source < |graph| && e in graph[source].neighs
    ensures SourceWalk(graph, source, Via(At(source), e), e.weight) && End(Via(At(source), e)) == e.id
  {
    assert IsWalk(graph, At(source));
  }

  /** No walk from the source undercuts the costs exactly when none of its edges does. */
  lemma {:induction false} NoneCheaperExactly(graph: seq<Node>, source: nat, seed: seq<int>, costs: seq<int>)
    requires WellFormed(graph) && source < |graph| && |costs| == |seed| == |graph|
    requires AreLeastCosts(graph, seed, costs)
    ensures NoneCheaper(graph, source, costs) <==> forall e :: e in graph[source].neighs ==> e.id < |graph| && costs[e.id] <= e.weight
  {
    EdgesInside(graph, source);
    if NoneCheaper(graph, source, costs) {
      forall e | e in graph[source].neighs
        ensures e.id < |graph| && costs[e.id] <= e.weight
      {
        OneEdge(graph, source, e);
      }
    } else if forall e :: e in graph[source].neighs ==> e.id < |graph| && costs[e.id] <= e.weight {
      var w, c :| SourceWalk(graph, source, w, c) && End(w) < |graph| && costs[End(w)] > c;
      NotUndercut(graph, source, seed, costs, w, c);
      assert false;
    }
  }

  lemma {:induction false} NotUndercut(graph: seq<Node>, source: nat, seed: seq<int>, costs: seq<int>, w: Walk, c: int)
    requires WellFormed(graph) && source < |graph| && |costs| == |seed| == |graph|
    requires AreLeastCosts(graph, seed, costs)
    requires forall e :: e in graph[source].neighs ==> e.id < |graph| && costs[e.id] <= e.weight
    requires SourceWalk(graph, source, w, c)
    ensures End(w) < |graph| && costs[End(w)] <= c
  {
    if w.walk.Via? {
      var u := End(w.walk);
      NotUndercut(graph, source, seed, costs, w.walk, c - w.edge.weight);
      var i :| 0 <= i < |graph[u].neighs| && graph[u].neighs[i] == w.edge;
      var x :| WalkTo(graph, seed, x, u, costs[u]);
      assert Cost(seed, Via(x, w.edge)) == costs[u] + w.edge.weight;
    }
  }

  ghost predicate NoneCheaperTo(graph: seq<Node>, source: nat, v: nat, cost: int) {
    forall w, c :: SourceWalk(graph, source, w, c) && End(w) == v ==> cost <= c
  }

  /** cost is the least cost of a walk of at least one edge from the source, if that is below INT_MAX. */
  ghost predicate IsDistance(graph: seq<Node>, source: nat, v: nat, cost: int) {
    && NoneCheaperTo(graph, source, v, cost)
    && (cost < INT_MAX ==> exists w :: SourceWalk(graph, source, w, cost) && End(w) == v)
  }

  ghost predicate AreDistances(graph: seq<Node>, source: nat, costs: seq<int>) {
    forall v :: 0 <= v < |costs| ==> IsDistance(graph, source, v, costs[v])
  }

  /** To the end of every edge of the source a walk over a kept edge is no dearer than the edge. */
  ghost predicate KeptSuffice(graph: seq<Node>, source: nat)
    requires source < |graph|
  {
    forall e :: e in graph[source].neighs ==> exists w, c :: KeptWalk(graph, source, w, c) && End(w) == e.id && c <= e.weight
  }

  /** The costs found are the distances from the source exactly when its overwritten edges are not missed. */
  lemma {:induction false} PlainDistanceExactly(graph: seq<Node>, source: nat, seed: seq<int>, costs: seq<int>)
    requires WellFormed(graph) && source < |graph| && |costs| == |graph|
    requires forall e :: e in graph[source].neighs ==> e.weight <= INT_MAX
    requires seed == Seeded(|graph|, source, graph[source].neighs).costs
    requires AreLeastCosts(graph, seed, costs)
    ensures AreDistances(graph, source, costs) <==> KeptSuffice(graph, source)
  {
    NoneCheaperExactly(graph, source, seed, costs);
    hide Seeded, WellFormed, IsLeastCost, NoneCheaper, NoneCheaperTo;
    forall v | 0 <= v < |graph|
      ensures costs[v] < INT_MAX ==> exists w :: SourceWalk(graph, source, w, costs[v]) && End(w) == v
    {
      SourceDistance(graph, source, seed, v, costs[v]);
    }
    EdgesInside(graph, source);
    forall e | e in graph[source].neighs
      ensures e.id < |graph|
      ensures costs[e.id] <= e.weight <==> exists w, c :: KeptWalk(graph, source, w, c) && End(w) == e.id && c <= e.weight
    {
      EdgeSuffices(graph, source, seed, e, costs[e.id]);
    }
    NoneCheaperIs(graph, source, costs);
  }

  /** No walk is cheaper than the costs: node by node. */
  lemma {:induction false} NoneCheaperIs(graph: seq<Node>, source: nat, costs: seq<int>)
    requires |costs| == |graph|
    ensures NoneCheaper(graph, source, costs) <==> forall v :: 0 <= v < |graph| ==> NoneCheaperTo(graph, source, v, costs[v])
  {
    if NoneCheaper(graph, source, costs) {
      forall v | 0 <= v < |graph|
        ensures NoneCheaperTo(graph, source, v, costs[v])
      {
        forall w, c | SourceWalk(graph, source, w, c) && End(w) == v
          ensures costs[v] <= c
        {
          assert costs[End(w)] <= c;
        }
      }
    } else {
      var w, c :| SourceWalk(graph, source, w, c) && End(w) < |graph| && costs[End(w)] > c;
      assert !NoneCheaperTo(graph, source, End(w), costs[End(w)]);
    }
  }

  /** The cost of the end of an edge is no more than its weight exactly when some kept walk is not. */
  lemma {:induction false} EdgeSuffices(graph: seq<Node>, source: nat, seed: seq<int>, e: Neigh, cost: int)
    requires WellFormed(graph) && source < |graph| && e in graph[source].neighs && e.id < |graph|
    requires forall d :: d in graph[source].neighs ==> d.weight <= INT_MAX
    requires seed == Seeded(|graph|, source, graph[source].neighs).costs && IsLeastCost(graph, seed, e.id, cost)
    ensures cost <= e.weight <==> exists w, c :: KeptWalk(graph, source, w, c) && End(w) == e.id && c <= e.weight
  {
    hide Seeded, IsLeastCost;
    SourceDistance(graph, source, seed, e.id, cost);
    if cost <= e.weight && cost >= INT_MAX {
      var i := LastTo(graph[source].neighs, e);
      var last := graph[source].neighs[i];
      OneEdge(graph, source, last);
      assert KeptWalk(graph, source, Via(At(source), last), last.weight);
    }
  }

  /** The last edge to where e leads. */
  lemma {:induction false} LastTo(neighs: seq<Neigh>, e: Neigh) returns (i: nat)
    requires e in neighs
    ensures IsLast(neighs, i) && neighs[i].id == e.id
  {
    var last := |neighs| - 1;
    if neighs[last].id == e.id {
      i := last;
    } else {
      var rest := neighs[..last];
      assert neighs == rest + [neighs[last]];
      i := LastTo(rest, e);
      assert forall j :: i < j < last ==> neighs[j] == rest[j];
    }
  }

  /** That is so when the last of parallel edges of the source is the cheapest. */
  lemma {:induction false} PlainDistance(graph: seq<Node>, source: nat)
    requires WellFormed(graph) && source < |graph|
    requires forall e :: e in graph[source].neighs ==>
      e.id < |graph| && Seeded(|graph|, source, graph[source].neighs).costs[e.id] <= e.weight
    ensures KeptSuffice(graph, source)
  {
    hide Seeded;
    EdgesInside(graph, source);
    forall e | e in graph[source].neighs
      ensures exists w, c :: KeptWalk(graph, source, w, c) && End(w) == e.id && c <= e.weight
    {
      var i := LastTo(graph[source].neighs, e);
      var last := graph[source].neighs[i];
      LastIsSeed(|graph|, source, graph[source].neighs, i);
      OneEdge(graph, source, last);
      assert KeptWalk(graph, source, Via(At(source), last), last.weight);
    }
  }

  /** And so when the source has no parallel edges. */
  lemma {:induction false} WithoutParallels(graph: seq<Node>, source: nat)
    requires WellFormed(graph) && source < |graph|
    requires forall i, j :: 0 <= i < j < |graph[source].neighs| ==> graph[source].neighs[i].id != graph[source].neighs[j].id
    ensures KeptSuffice(graph, source)
  {
    forall e | e in graph[source].neighs
      ensures exists w, c :: KeptWalk(graph, source, w, c) && End(w) == e.id && c <= e.weight
    {
      var i :| 0 <= i < |graph[source].neighs| && graph[source].neighs[i] == e;
      assert IsLast(graph[source].neighs, i);
      OneEdge(graph, source, e);
      assert KeptWalk(graph, source, Via(At(source), e), e.weight);
    }
  }

  /** It is not when a later edge is dearer: two edges to node 1, of weights 2 and then 9. */
  lemma ParallelEdges()
    ensures var graph := [Node(0, [Neigh(1, 2), Neigh(1, 9)]), Node(1, [])];
      var seed := Seeded(2, 0, graph[0].neighs).costs;
      && WellFormed(graph)
      && IsLeastCost(graph, seed, 1, 9)
      && SourceWalk(graph, 0, Via(At(0), Neigh(1, 2)), 2)
      && !KeptSuffice(graph, 0)
  {
    var neighs := [Neigh(1, 2), Neigh(1, 9)];
    var graph := [Node(0, neighs), Node(1, [])];
    var seed := Seeded(2, 0, neighs).costs;
    assert neighs[..1] == [Neigh(1, 2)] && neighs[..1][..0] == [];
    assert IsLast(neighs, 1);
    LastIsSeed(2, 0, neighs, 1);
    SeedIsEdge(2, 0, neighs, 0);
    assert seed[1] == 9 && seed[0] == INT_MAX;
    assert WalkTo(graph, seed, At(1), 1, 9);
    hide Seeded;
    forall w | IsWalk(graph, w) && IsSeeded(seed, w) && End(w) == 1
      ensures 9 <= Cost(seed, w)
    {
      if w.Via? {
        OnlyToOne(graph, w);
      }
    }
    OneEdge(graph, 0, Neigh(1, 2));
    forall w, c | KeptWalk(graph, 0, w, c) && End(w) == 1
      ensures c == 9
    {
      OnlyToOne(graph, w);
    }
  }

  /** In that graph every edge leads from node 0 to node 1. */
  lemma {:induction false} OnlyToOne(graph: seq<Node>, w: Walk)
    requires graph == [Node(0, [Neigh(1, 2), Neigh(1, 9)]), Node(1, [])]
    requires IsWalk(graph, w) && w.Via?
    ensures w.walk == At(0) && w.edge.id == 1 && w.edge.weight >= 2
  {
    assert w.edge in graph[End(w.walk)].neighs;
    if w.walk.Via? {
      OnlyToOne(graph, w.walk);
    }
  }

  // ----- the search from a source -----

  /** A chain of parents back to the source, each link an edge that accounts for the cost. */
  ghost predicate TracesBack(graph: seq<Node>, source: nat, l: Labels, c: seq<nat>)
    requires |l.costs| == |l.parents| == |graph| && source < |graph|
  {
    && c != [] && Distinct(c) && (forall k :: 0 <= k < |c| ==> c[k] < |graph|)
    && (forall k :: 0 <= k < |c| - 1 ==> l.parents[c[k]] == c[k + 1] && EdgeTo(graph, c[k + 1], c[k], l.costs[c[k]] - l.costs[c[k + 1]]))
    && l.parents[c[|c| - 1]] == source && EdgeTo(graph, source, c[|c| - 1], l.costs[c[|c| - 1]])
  }

  ghost predicate LeadsToSource(graph: seq<Node>, source: nat, l: Labels, v: nat)
    requires |l.costs| == |l.parents| == |graph| && source < |graph|
  {
    exists c :: TracesBack(graph, source, l, c) && c[0] == v && |c| <= |graph|
  }

  /** A node that was reached has a chain of parents to the source. */
  lemma {:induction false} ReachedLeadsToSource(graph: seq<Node>, source: nat, l: Labels, v: nat)
    requires source < |graph| && WellFormed(graph) && v < |graph|
    requires var was := Seeded(|graph|, source, graph[source].neighs);
      Shaped(graph, was.costs, l) && Kept(was, l) && LeadsBack(graph, was.costs, l, v)
    requires l.costs[v] < INT_MAX
    ensures LeadsToSource(graph, source, l, v)
  {
    var was := Seeded(|graph|, source, graph[source].neighs);
    var c := ChainOf(graph, was.costs, l, v);
    ChainFalls(graph, was.costs, l, c, |c| - 1);
    SeedLeads(graph, source, l, c[|c| - 1]);
    hide Seeded, Distinct, WellFormed, EdgeTo, Kept;
    forall k | 0 <= k < |c| - 1
      ensures l.parents[c[k]] == c[k + 1] && EdgeTo(graph, c[k + 1], c[k], l.costs[c[k]] - l.costs[c[k + 1]])
    {
      assert Link(graph, was.costs, l, c[k], c[k + 1]);
    }
    assert TracesBack(graph, source, l, c);
  }

  lemma ChainOf(graph: seq<Node>, seed: seq<int>, l: Labels, v: nat) returns (c: seq<nat>)
    requires Shaped(graph, seed, l) && LeadsBack(graph, seed, l, v)
    ensures IsChain(graph, seed, l, c) && c[0] == v && |c| <= |graph|
  {
    c :| IsChain(graph, seed, l, c) && c[0] == v && |c| <= |graph|;
  }

  /** A node still at its seed cost has the source as its parent, over an edge of that weight. */
  lemma {:induction false} SeedLeads(graph: seq<Node>, source: nat, l: Labels, u: nat)
    requires source < |graph| && WellFormed(graph) && u < |graph|
    requires var was := Seeded(|graph|, source, graph[source].neighs);
      Kept(was, l) && l.costs[u] == was.costs[u] < INT_MAX
    ensures l.parents[u] == source && EdgeTo(graph, source, u, l.costs[u])
  {
    hide Seeded;
    SeedIsEdge(|graph|, source, graph[source].neighs, u);
    var i :| IsLast(graph[source].neighs, i) && graph[source].neighs[i] == Neigh(u, l.costs[u]);
  }

  /** A walk from the source, cut before its second node, starts at a node with a seed. */
  lemma {:induction false} SourceReaches(graph: seq<Node>, source: nat, seed: seq<int>, w: Walk, c: int, most: nat)
    requires WellFormed(graph) && source < |graph| && seed == Seeded(|graph|, source, graph[source].neighs).costs
    requires SourceWalk(graph, source, w, c) && most < 2147483647 && WeightsUpTo(graph, most)
    ensures Reachable(graph, seed, End(w))
  {
    var cut := CutAtSecond(graph, source, w, c);
    var i :| 0 <= i < |graph[source].neighs| && graph[source].neighs[i].id == Begin(cut);
    hide Seeded;
    SeedIsEdge(|graph|, source, graph[source].neighs, Begin(cut));
    assert seed[Begin(cut)] != 2147483647;
  }

  lemma {:induction false} CutAtSecond(graph: seq<Node>, source: nat, w: Walk, c: int) returns (cut: Walk)
    requires WellFormed(graph) && source < |graph| && SourceWalk(graph, source, w, c)
    ensures IsWalk(graph, cut) && End(cut) == End(w) && Begin(cut) < |graph|
    ensures exists i :: 0 <= i < |graph[source].neighs| && graph[source].neighs[i].id == Begin(cut)
  {
    if w.walk.At? {
      EdgeInside(graph, source, w.edge);
      cut := At(w.edge.id);
      var i :| 0 <= i < |graph[source].neighs| && graph[source].neighs[i] == w.edge;
      assert graph[source].neighs[i].id == Begin(cut);
    } else {
      cut := CutAtSecond(graph, source, w.walk, c - w.edge.weight);
      cut := Via(cut, w.edge);
    }
  }

  ghost predicate WeightsUpTo(graph: seq<Node>, most: nat) {
    forall u, i :: 0 <= u < |graph| && 0 <= i < |graph[u].neighs| ==> graph[u].neighs[i].weight <= most
  }

  /** The seeds of a source with weights that are not too high. */
  lemma {:induction false} SeedsStayBelow(graph: seq<Node>, source: nat, most: nat)
    requires WellFormed(graph) && source < |graph| && WeightsUpTo(graph, most) && most + |graph| * most < 2147483647
    ensures StaysBelow(graph, Seeded(|graph|, source, graph[source].neighs).costs, most, most)
  {
    EdgesInside(graph, source);
    hide Seeded;
    forall v | 0 <= v < |graph| && Seeded(|graph|, source, graph[source].neighs).costs[v] != 2147483647
      ensures Seeded(|graph|, source, graph[source].neighs).costs[v] <= most
    {
      SeedIsEdge(|graph|, source, graph[source].neighs, v);
    }
  }

  /** Some walk of at least one edge leads from the source to v. */
  ghost predicate Leads(graph: seq<Node>, source: nat, v: nat) {
    exists w, c :: SourceWalk(graph, source, w, c) && End(w) == v
  }

  /** Every cost is the least of walks from the source over a kept edge, and below INT_MAX the cost of one. */
  ghost predicate AreKeptDistances(graph: seq<Node>, source: nat, costs: seq<int>)
    requires source < |graph|
  {
    forall v :: 0 <= v < |costs| ==>
      && (forall w, c :: KeptWalk(graph, source, w, c) && End(w) == v ==> costs[v] <= c)
      && (costs[v] < INT_MAX ==> exists w :: KeptWalk(graph, source, w, costs[v]) && End(w) == v)
  }

  /** The costs below the largest int are those of the nodes that a walk from the source leads to. */
  ghost predicate TellsLeads(graph: seq<Node>, source: nat, costs: seq<int>) {
    forall v :: 0 <= v < |costs| ==> if Leads(graph, source, v) then costs[v] < 2147483647 else costs[v] == 2147483647
  }

  /** With the seeds of the source the nodes reached are those a walk from it leads to. */
  lemma {:induction false} LeadsExactly(graph: seq<Node>, source: nat, seed: seq<int>, costs: seq<int>, most: nat)
    requires WellFormed(graph) && source < |graph| == |costs| && seed == Seeded(|graph|, source, graph[source].neighs).costs
    requires most < 2147483647 && WeightsUpTo(graph, most) && TellsReachable(graph, seed, costs)
    requires AreKeptDistances(graph, source, costs)
    ensures TellsLeads(graph, source, costs)
  {
    hide Seeded;
    forall v | 0 <= v < |graph| && Leads(graph, source, v)
      ensures costs[v] < 2147483647
    {
      var w, c :| SourceWalk(graph, source, w, c) && End(w) == v;
      SourceReaches(graph, source, seed, w, c, most);
    }
  }

  lemma {:induction false} SeedsUpTo(graph: seq<Node>, source: nat)
    requires WellFormed(graph) && source < |graph|
    requires forall e :: e in graph[source].neighs ==> e.weight <= INT_MAX
    ensures forall i :: 0 <= i < |graph[source].neighs| ==> graph[source].neighs[i].id < |graph|
    ensures forall v :: 0 <= v < |graph| ==> Seeded(|graph|, source, graph[source].neighs).costs[v] <= INT_MAX
  {
    EdgesInside(graph, source);
    hide Seeded;
    forall v | 0 <= v < |graph|
      ensures Seeded(|graph|, source, graph[source].neighs).costs[v] <= INT_MAX
    {
      SeedIsEdge(|graph|, source, graph[source].neighs, v);
    }
  }

  ghost predicate AllLeadToSource(graph: seq<Node>, source: nat, l: Labels)
    requires |l.costs| == |l.parents| == |graph| && source < |graph|
  {
    forall v :: 0 <= v < |graph| && l.costs[v] < INT_MAX ==> LeadsToSource(graph, source, l, v)
  }

  /** What the search leaves behind when it was started with the seeds of a source. */
  lemma {:induction false} SearchResult(graph: seq<Node>, source: nat, was: Labels, l: Labels)
    requires WellFormed(graph) && source < |graph| && was == Seeded(|graph|, source, graph[source].neighs)
    requires Shaped(graph, was.costs, l) && Kept(was, l)
    requires AreLeastCosts(graph, was.costs, l.costs) && AllLeadBack(graph, was.costs, l)
    requires forall s, w :: StaysBelow(graph, was.costs, s, w) ==> TellsReachable(graph, was.costs, l.costs)
    ensures AreKeptDistances(graph, source, l.costs) && AllLeadToSource(graph, source, l)
    ensures forall most: nat :: WeightsUpTo(graph, most) && most + |graph| * most < 2147483647 ==>
      TellsLeads(graph, source, l.costs)
  {
    assert |l.costs| == |l.parents| == |graph|;
    hide Shaped, WellFormed, Seeded, IsLeastCost, LeadsBack, LeadsToSource, KeptWalk, Kept, StaysBelow, TellsReachable, TellsLeads, WeightsUpTo;
    forall v | 0 <= v < |graph|
      ensures forall w, c :: KeptWalk(graph, source, w, c) && End(w) == v ==> l.costs[v] <= c
      ensures l.costs[v] < INT_MAX ==> exists w :: KeptWalk(graph, source, w, l.costs[v]) && End(w) == v
      ensures l.costs[v] < INT_MAX ==> LeadsToSource(graph, source, l, v)
    {
      SourceDistance(graph, source, was.costs, v, l.costs[v]);
      if l.costs[v] < INT_MAX {
        ReachedLeadsToSource(graph, source, l, v);
      }
    }
    forall most: nat | WeightsUpTo(graph, most) && most + |graph| * most < 2147483647
      ensures TellsLeads(graph, source, l.costs)
    {
      SeedsStayBelow(graph, source, most);
      LeadsExactly(graph, source, was.costs, l.costs, most);
    }
  }

  /**
   * Seeding from a source and searching: every cost is the least of walks from the source that leave
   * it over a kept edge, and the parents of every node reached lead back to the source.
   */
  method SearchFrom(graph: seq<Node>, source: nat) returns (costs: array<int>, parents: array<int>)
    requires WellFormed(graph) && source < |graph|
    requires forall e :: e in graph[source].neighs ==> e.weight <= INT_MAX
    ensures costs.Length == parents.Length == |graph|
    ensures AreKeptDistances(graph, source, costs[..]) && AllLeadToSource(graph, source, Labels(costs[..], parents[..]))
    ensures AreDistances(graph, source, costs[..]) <==> KeptSuffice(graph, source)
    ensures forall most: nat :: WeightsUpTo(graph, most) && most + |graph| * most < 2147483647 ==>
      TellsLeads(graph, source, costs[..])
  {
    SeedsUpTo(graph, source);
    hide WellFormed, Seeded, Shaped, AreLeastCosts, AllLeadBack, AreKeptDistances, AllLeadToSource, AreDistances, KeptSuffice, Inv, Kept, StaysBelow, TellsReachable, TellsLeads;
    costs, parents := SeedFrom(graph, source);
    ghost var was := Labels(costs[..], parents[..]);
    ghost var order := Deykstra(graph, costs, parents);
    PlainDistanceExactly(graph, source, was.costs, costs[..]);
    SearchResult(graph, source, was, Labels(costs[..], parents[..]));
  }
}
