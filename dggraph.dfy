/**
 * The dollar-game board: an undirected graph whose nodes carry integer
 * values, kept together with three derived counters.
 *
 *   genus = |E| - |V| + 1
 *   bank  = the sum of all values
 *   debt  = the sum of the negative values
 *
 * The node ids are kept in insertion order (`nodes`), as the node dictionary
 * of the underlying graph library keeps them; `values` maps each node to its
 * value and `edges` holds the undirected edges.
 */
module DollarGraph {
  import opened Chips

  /** The node ids adjacent to n, in node order. */
  function NeighborList(nodes: seq<int>, edges: set<Edge>, n: int): (r: seq<int>)
    ensures Distinct(nodes) ==> Distinct(r)
    ensures forall k :: k in r <==> k in nodes && k != n && MkEdge(n, k) in edges
    decreases |nodes|
  {
    if nodes == [] then []
    else
      var p, k := nodes[..|nodes| - 1], nodes[|nodes| - 1];
      var r := NeighborList(p, edges, n);
      if k != n && MkEdge(n, k) in edges then r + [k] else r
  }

  /** A node list listing the board's nodes lists each neighbour of n once. */
  lemma NeighborListCard(nodes: seq<int>, v: map<int, int>, edges: set<Edge>, n: int)
    requires Enumerates(nodes, v)
    ensures |NeighborList(nodes, edges, n)| == |Neighbors(v.Keys, edges, n)|
  {
    var r := NeighborList(nodes, edges, n);
    DistinctCard(r);
    assert Elems(r) == Neighbors(v.Keys, edges, n);
  }

  /** Moving c from every listed neighbour to the node itself is firing the node c times. */
  lemma SpreadFires(v0: map<int, int>, v: map<int, int>, nodes: seq<int>, edges: set<Edge>, node: int, neig: seq<int>, c: int)
    requires Enumerates(nodes, v0) && node in v0
    requires neig == NeighborList(nodes, edges, node)
    requires v.Keys == v0.Keys
    requires forall m :: m in v ==> v[m] == v0[m] - (if m in neig then c else 0)
    ensures v[node := v[node] + c * |neig|] == Fire(v0, edges, node, c)
  {
    NeighborListCard(nodes, v0, edges, node);
    var f := Fire(v0, edges, node, c);
    forall m | m in v ensures v[node := v[node] + c * |neig|][m] == f[m] {
      assert m in neig <==> m in Neighbors(v0.Keys, edges, node);
    }
  }

  /** `nodes` with `x` taken out, the others kept in order. */
  function Without(nodes: seq<int>, x: int): (r: seq<int>)
    ensures |r| <= |nodes|
    decreases |nodes|
  {
    if nodes == [] then []
    else
      var p, k := nodes[..|nodes| - 1], nodes[|nodes| - 1];
      if k == x then Without(p, x) else Without(p, x) + [k]
  }

  /** Taking x out keeps exactly the other entries, and keeps them distinct. */
  lemma {:induction false} WithoutContents(nodes: seq<int>, x: int)
    ensures Distinct(nodes) ==> Distinct(Without(nodes, x))
    ensures forall k :: k in Without(nodes, x) <==> k in nodes && k != x
    decreases |nodes|
  {
    if nodes != [] {
      var p, k := nodes[..|nodes| - 1], nodes[|nodes| - 1];
      WithoutContents(p, x);
      assert nodes == p + [k];
      if Distinct(nodes) {
        DistinctPrefix(nodes);
      }
    }
  }

  /** The edges that do not touch x. */
  function Detach(edges: set<Edge>, x: int): set<Edge> {
    set e | e in edges && e.lo != x && e.hi != x
  }

  /** The node list after adding x: unchanged when x is already on the board,
      x appended at the end otherwise. */
  function Inserted(nodes: seq<int>, values: map<int, int>, x: int): seq<int> {
    if x in values then nodes else nodes + [x]
  }

  /** Adding a node, or overwriting its value, leaves a well-formed board. */
  lemma AddShape(nodes: seq<int>, values: map<int, int>, edges: set<Edge>, x: int, val: int)
    requires Enumerates(nodes, values) && WellFormed(values.Keys, edges)
    ensures Enumerates(Inserted(nodes, values, x), values[x := val])
    ensures Listed(Inserted(nodes, values, x), values[x := val])
    ensures WellFormed(values[x := val].Keys, edges)
  {
    if x !in values {
      assert x !in nodes;
      assert Distinct(nodes + [x]);
    }
  }

  /** A new value for a node on the board leaves a well-formed board. */
  lemma ValueShape(nodes: seq<int>, values: map<int, int>, edges: set<Edge>, x: int, val: int)
    requires Enumerates(nodes, values) && WellFormed(values.Keys, edges) && x in values
    ensures Enumerates(nodes, values[x := val]) && Listed(nodes, values[x := val])
    ensures WellFormed(values[x := val].Keys, edges)
  {
  }

  /** An edge between two distinct nodes of the board keeps the edges well formed. */
  lemma EdgeShape(keys: set<int>, edges: set<Edge>, s: int, f: int)
    requires WellFormed(keys, edges) && s in keys && f in keys && s != f
    ensures WellFormed(keys, edges + {MkEdge(s, f)})
  {
  }

  /** Removing a node and its incident edges leaves a well-formed board. */
  lemma RemoveShape(nodes: seq<int>, values: map<int, int>, edges: set<Edge>, x: int)
    requires Enumerates(nodes, values) && WellFormed(values.Keys, edges)
    ensures Enumerates(Without(nodes, x), values - {x})
    ensures WellFormed((values - {x}).Keys, Detach(edges, x))
    ensures Listed(Without(nodes, x), values - {x})
  {
    WithoutContents(nodes, x);
  }

  // ---------------------------------------------------------------------------
  // Connectivity

  /** A walk: consecutive entries are joined by an edge. */
  ghost predicate IsWalk(w: seq<int>, edges: set<Edge>) {
    |w| > 0 && forall i :: 0 <= i < |w| - 1 ==> MkEdge(w[i], w[i + 1]) in edges
  }

  ghost predicate Reachable(edges: set<Edge>, a: int, b: int) {
    exists w :: IsWalk(w, edges) && w[0] == a && w[|w| - 1] == b
  }

  /** Every node reaches every other node. */
  ghost predicate Connected(keys: set<int>, edges: set<Edge>) {
    forall a, b :: a in keys && b in keys ==> Reachable(edges, a, b)
  }

  /** A walk that starts at a node with no edges never leaves it. */
  lemma {:induction false} IsolatedWalk(w: seq<int>, edges: set<Edge>)
    requires IsWalk(w, edges)
    requires forall e :: e in edges ==> e.lo != w[0] && e.hi != w[0]
    ensures |w| == 1
  {
    assert |w| > 1 ==> MkEdge(w[0], w[1]) in edges;
  }

  /** A graph of one node is connected. */
  lemma SingleConnected(x: int, edges: set<Edge>)
    ensures Connected({x}, edges)
  {
    forall a, b | a in {x} && b in {x} ensures Reachable(edges, a, b) {
      assert IsWalk([x], edges);
    }
  }

  /** Adding an edge never disconnects a connected graph. */
  lemma ConnectedGrows(keys: set<int>, edges: set<Edge>, e: Edge)
    requires Connected(keys, edges)
    ensures Connected(keys, edges + {e})
  {
    forall a, b | a in keys && b in keys ensures Reachable(edges + {e}, a, b) {
      var w :| IsWalk(w, edges) && w[0] == a && w[|w| - 1] == b;
      assert IsWalk(w, edges + {e});
    }
  }

  /** A node with no edges disconnects any graph that has another node. */
  lemma IsolatedDisconnects(keys: set<int>, edges: set<Edge>, x: int, y: int)
    requires x in keys && y in keys && x != y
    requires forall e :: e in edges ==> e.lo != x && e.hi != x
    ensures !Connected(keys, edges)
  {
    forall w | IsWalk(w, edges) && w[0] == x ensures w[|w| - 1] != y {
      IsolatedWalk(w, edges);
    }
  }

  // ---------------------------------------------------------------------------
  // The board

  /** The loop shared by take and give: every neighbour of `node` loses c and
      `node` gains c for each of them. */
  method Spread(v: map<int, int>, nodes: seq<int>, edges: set<Edge>, node: int, c: int) returns (r: map<int, int>)
    requires Enumerates(nodes, v) && node in v
    ensures r == Fire(v, edges, node, c)
  {
    var neig := NeighborList(nodes, edges, node);
    assert Distinct(neig) && forall k :: k in neig ==> k in v;
    var vals := v;
    var i := 0;
    while i < |neig|
      invariant 0 <= i <= |neig|
      invariant vals.Keys == v.Keys
      invariant forall m :: m in vals ==> vals[m] == v[m] - (if m in neig[..i] then c else 0)
    {
      assert neig[..i + 1] == neig[..i] + [neig[i]];
      assert neig[i] !in neig[..i] && neig[i] in vals;
      vals := vals[neig[i] := vals[neig[i]] - c];
      i := i + 1;
    }
    assert neig[..i] == neig;
    SpreadFires(v, vals, nodes, edges, node, neig, c);
    r := vals[node := vals[node] + c * |neig|];
  }

  class DGGraph {
    var nodes: seq<int>
    var values: map<int, int>
    var edges: set<Edge>
    var genus: int
    var bank: int
    var debt: int

    /** The node list enumerates the valued nodes, edges join listed nodes, and
        the three counters agree with the graph. */
    ghost predicate Valid()
      reads this
    {
      && Enumerates(nodes, values)
      && WellFormed(values.Keys, edges)
      && genus == |edges| - |nodes| + 1
      && bank == SumOver(nodes, values)
      && debt == SumOver(nodes, NegativePart(values))
    }

    /** An empty board: genus 1, bank 0, debt 0. */
    constructor ()
      ensures Valid()
      ensures nodes == [] && values == map[] && edges == {}
      ensures genus == 1 && bank == 0 && debt == 0
    {
      nodes, values, edges := [], map[], {};
      genus, bank, debt := 1, 0, 0;
    }

    /** An independent copy of g (the deep copy each solver attempt starts from). */
    constructor Copy(g: DGGraph)
      requires g.Valid()
      ensures Valid()
      ensures nodes == g.nodes && values == g.values && edges == g.edges
      ensures genus == g.genus && bank == g.bank && debt == g.debt
    {
      nodes, values, edges := g.nodes, g.values, g.edges;
      genus, bank, debt := g.genus, g.bank, g.debt;
    }

    /** The graph is not empty and every node reaches every other. */
    ghost function IsConnected(): (r: bool)
      reads this
      ensures r <==> |nodes| > 0 && Connected(values.Keys, edges)
    {
      |nodes| > 0 && Connected(values.Keys, edges)
    }

    method UpdateGenus()
      modifies this`genus
      ensures genus == |edges| - |nodes| + 1
    {
      genus := |edges| - |nodes| + 1;
    }

    method UpdateBank()
      requires Listed(nodes, values)
      modifies this`bank
      ensures bank == SumOver(nodes, values)
    {
      bank := SumOver(nodes, values);
    }

    method UpdateDebt()
      requires Listed(nodes, values)
      modifies this`debt
      ensures debt == SumOver(nodes, NegativePart(values))
    {
      debt := SumOver(nodes, NegativePart(values));
    }

    /** Adds a node with the given value, or overwrites the value of an existing node. */
    method AddNode(node: int, val: int)
      requires Valid()
      modifies this
      ensures Valid()
      ensures values == old(values)[node := val] && edges == old(edges)
      ensures nodes == Inserted(old(nodes), old(values), node)
    {
      AddShape(nodes, values, edges, node, val);
      nodes, values := Inserted(nodes, values, node), values[node := val];
      UpdateGenus();
      UpdateBank();
      UpdateDebt();
    }

    /** The bulk adders do nothing. */
    method AddNodesFrom(ns: seq<int>)
      requires Valid()
      ensures Valid() && unchanged(this)
    {
    }

    method AddEdgesFrom(es: seq<(int, int)>)
      requires Valid()
      ensures Valid() && unchanged(this)
    {
    }

    /** Removes a node together with its incident edges; a node that is not on
        the board raises, and then nothing changes. */
    method RemoveNode(node: int) returns (raised: bool)
      requires Valid()
      modifies this
      ensures Valid()
      ensures raised <==> node !in old(values)
      ensures raised ==> unchanged(this)
      ensures !raised ==> nodes == Without(old(nodes), node)
      ensures !raised ==> values == old(values) - {node} && edges == Detach(old(edges), node)
    {
      if node !in values {
        return true;
      }
      raised := false;
      RemoveShape(nodes, values, edges, node);
      nodes, values, edges := Without(nodes, node), values - {node}, Detach(edges, node);
      UpdateGenus();
      UpdateBank();
      UpdateDebt();
    }

    /** Joins two distinct nodes; joining them again changes nothing. */
    method AddEdge(s: int, f: int)
      requires Valid() && s in values && f in values && s != f
      modifies this
      ensures Valid()
      ensures edges == old(edges) + {MkEdge(s, f)}
      ensures nodes == old(nodes) && values == old(values)
      ensures bank == old(bank) && debt == old(debt)
    {
      EdgeShape(values.Keys, edges, s, f);
      edges := edges + {MkEdge(s, f)};
      UpdateGenus();
    }

    /** Removes an edge; an edge that is not there raises, and then nothing changes. */
    method RemoveEdge(s: int, f: int) returns (raised: bool)
      requires Valid()
      modifies this
      ensures Valid()
      ensures raised <==> MkEdge(s, f) !in old(edges)
      ensures raised ==> unchanged(this)
      ensures !raised ==> edges == old(edges) - {MkEdge(s, f)}
      ensures nodes == old(nodes) && values == old(values)
      ensures bank == old(bank) && debt == old(debt)
    {
      if MkEdge(s, f) !in edges {
        return true;
      }
      raised := false;
      edges := edges - {MkEdge(s, f)};
      UpdateGenus();
    }

    /** Raises (or lowers) one node's value by one; a node that is not on the
        board raises, and then nothing changes. */
    method ChangeValue(node: int, increase: bool) returns (raised: bool)
      requires Valid()
      modifies this
      ensures Valid()
      ensures raised <==> node !in old(values)
      ensures raised ==> unchanged(this)
      ensures !raised ==> values == old(values)[node := old(values)[node] + (if increase then 1 else -1)]
      ensures nodes == old(nodes) && edges == old(edges) && genus == old(genus)
      ensures !raised ==> bank == old(bank) + (if increase then 1 else -1)
    {
      if node !in values {
        return true;
      }
      raised := false;
      var val := values[node] + (if increase then 1 else -1);
      ValueShape(nodes, values, edges, node, val);
      SumOverUpdate(nodes, values, node, val);
      values := values[node := val];
      UpdateBank();
      UpdateDebt();
    }

    /** The node takes one unit from each neighbour. */
    method Take(node: int)
      requires Valid() && node in values
      modifies this
      ensures Valid()
      ensures values == Fire(old(values), edges, node, 1)
      ensures nodes == old(nodes) && edges == old(edges)
      ensures genus == old(genus) && bank == old(bank)
    {
      var next := Spread(values, nodes, edges, node, 1);
      FireConserves(nodes, values, edges, node, 1);
      values := next;
      UpdateDebt();
    }

    /** The node gives one unit to each neighbour. */
    method Give(node: int)
      requires Valid() && node in values
      modifies this
      ensures Valid()
      ensures values == Fire(old(values), edges, node, -1)
      ensures nodes == old(nodes) && edges == old(edges)
      ensures genus == old(genus) && bank == old(bank)
    {
      var next := Spread(values, nodes, edges, node, -1);
      FireConserves(nodes, values, edges, node, -1);
      values := next;
      UpdateDebt();
    }

    /** The game is won exactly when no node is in debt. */
    function IsVictory(): (r: bool)
      reads this
      requires Valid()
      ensures r <==> Won(values)
      ensures r <==> debt == 0
    {
      DebtZeroIff(nodes, values);
      debt == 0
    }
  }

  /** The stored genus is |E| - |V| + 1 counted over the valued nodes. */
  lemma GenusCountsNodes(g: DGGraph)
    requires g.Valid()
    ensures g.genus == |g.edges| - |g.values| + 1
  {
    DistinctCard(g.nodes);
    assert Elems(g.nodes) == g.values.Keys;
  }

  /** The stored debt is never positive. */
  lemma DebtNonPositive(g: DGGraph)
    requires g.Valid()
    ensures g.debt <= 0
  {
    DebtZeroIff(g.nodes, g.values);
  }
}
