/**
 * The chip-firing algebra behind the dollar game.
 *
 * A board is a map from node id to the node's integer value, together with a
 * set of undirected edges.  Taking at a node moves one unit from every
 * neighbour to the node; giving moves one unit from the node to every
 * neighbour.  Both are instances of `Fire`, which fires a node `c` times at
 * once (c > 0: takes, c < 0: gives).  This module also defines the sums the
 * game tracks (bank and debt) and the canonical "collapsed" form of a play.
 */
module Chips {

  /** An undirected edge, stored with its smaller endpoint first. */
  datatype Edge = Edge(lo: int, hi: int)

  /** The edge joining `a` and `b`, whichever order they are given in. */
  function MkEdge(a: int, b: int): Edge {
    if a <= b then Edge(a, b) else Edge(b, a)
  }

  /** Every edge joins two distinct nodes that are on the board. */
  ghost predicate WellFormed(keys: set<int>, edges: set<Edge>) {
    forall e :: e in edges ==> e.lo < e.hi && e.lo in keys && e.hi in keys
  }

  function Neighbors(keys: set<int>, edges: set<Edge>, n: int): set<int> {
    set m | m in keys && m != n && MkEdge(n, m) in edges
  }

  /** Fires node `n` c times: every neighbour loses c, `n` gains c times its degree. */
  function Fire(v: map<int, int>, edges: set<Edge>, n: int, c: int): (r: map<int, int>)
    ensures r.Keys == v.Keys
  {
    var nb := Neighbors(v.Keys, edges, n);
    map m | m in v :: if m == n then v[m] + c * |nb| else if m in nb then v[m] - c else v[m]
  }

  // ---------------------------------------------------------------------------
  // Moves and plays

  datatype Kind = Give | Take
  datatype Move = Move(node: int, kind: Kind)

  /** How many times a move fires its node: a take once, a give minus once. */
  function Sign(k: Kind): int {
    if k == Take then 1 else -1
  }

  function Apply(v: map<int, int>, edges: set<Edge>, m: Move): (r: map<int, int>)
    ensures r.Keys == v.Keys
  {
    Fire(v, edges, m.node, Sign(m.kind))
  }

  /** The board after the moves of a play, applied in order. */
  function Play(v: map<int, int>, edges: set<Edge>, moves: seq<Move>): (r: map<int, int>)
    ensures r.Keys == v.Keys
    decreases |moves|
  {
    if moves == [] then v else Play(Apply(v, edges, moves[0]), edges, moves[1..])
  }

  /** No node is in debt: the winning condition. */
  predicate Won(v: map<int, int>) {
    forall m :: m in v ==> v[m] >= 0
  }

  // ---------------------------------------------------------------------------
  // Node lists, bank and debt

  predicate Distinct(s: seq<int>) {
    forall i, j :: 0 <= i < j < |s| ==> s[i] != s[j]
  }

  /** Every listed node has a value. */
  predicate Listed(order: seq<int>, v: map<int, int>) {
    forall i :: 0 <= i < |order| ==> order[i] in v
  }

  /** `order` lists every node of the board exactly once, as a node dictionary does. */
  ghost predicate Enumerates(order: seq<int>, v: map<int, int>) {
    Distinct(order) && forall k :: k in order <==> k in v
  }

  function Elems(s: seq<int>): set<int> {
    set k | k in s
  }

  /** The sum of the values of the listed nodes, in list order. */
  function SumOver(order: seq<int>, v: map<int, int>): int
    requires Listed(order, v)
    decreases |order|
  {
    if order == [] then 0 else SumOver(order[..|order| - 1], v) + v[order[|order| - 1]]
  }

  /** The board with every non-negative value replaced by 0. */
  function NegativePart(v: map<int, int>): (r: map<int, int>)
    ensures r.Keys == v.Keys
  {
    map m | m in v :: if v[m] < 0 then v[m] else 0
  }

  lemma DistinctPrefix(s: seq<int>)
    requires Distinct(s) && |s| > 0
    ensures Distinct(s[..|s| - 1]) && s[|s| - 1] !in s[..|s| - 1]
  {
    var p := s[..|s| - 1];
    assert forall i :: 0 <= i < |p| ==> p[i] == s[i] && s[i] != s[|s| - 1];
  }

  /** The sum only looks at the values of the listed nodes. */
  lemma {:induction false} SumOverIgnores(order: seq<int>, v: map<int, int>, w: map<int, int>)
    requires Listed(order, v) && Listed(order, w)
    requires forall i :: 0 <= i < |order| ==> v[order[i]] == w[order[i]]
    ensures SumOver(order, v) == SumOver(order, w)
    decreases |order|
  {
    if order != [] {
      SumOverIgnores(order[..|order| - 1], v, w);
    }
  }

  /** Changing one value changes the sum by the difference when that node is listed. */
  lemma {:induction false} SumOverUpdate(order: seq<int>, v: map<int, int>, k: int, x: int)
    requires Distinct(order) && Listed(order, v)
    ensures Listed(order, v[k := x])
    ensures SumOver(order, v[k := x]) == SumOver(order, v) + (if k in order then x - v[k] else 0)
    decreases |order|
  {
    if order != [] {
      var p, last := order[..|order| - 1], order[|order| - 1];
      DistinctPrefix(order);
      SumOverUpdate(p, v, k, x);
      assert k in order <==> k in p || k == last;
    }
  }

  /** Partial conservation: over a list of distinct nodes, firing n changes the
      sum by n's gain (when listed) minus one unit per listed neighbour. */
  lemma {:induction false} FireSumOver(p: seq<int>, v: map<int, int>, edges: set<Edge>, n: int, c: int)
    requires Distinct(p) && Listed(p, v)
    ensures Listed(p, Fire(v, edges, n, c))
    ensures var nb := Neighbors(v.Keys, edges, n);
      SumOver(p, Fire(v, edges, n, c))
        == SumOver(p, v) + (if n in p then c * |nb| else 0) - c * |nb * Elems(p)|
    decreases |p|
  {
    var nb := Neighbors(v.Keys, edges, n);
    var f := Fire(v, edges, n, c);
    if p == [] {
      assert nb * Elems(p) == {};
    } else {
      var q, x := p[..|p| - 1], p[|p| - 1];
      DistinctPrefix(p);
      FireSumOver(q, v, edges, n, c);
      assert x in v;
      assert f[x] == v[x] + (if x == n then c * |nb| else 0) - (if x in nb then c else 0);
      assert p == q + [x];
      ShareStep(nb, q, x);
      var k := |nb * Elems(q)|;
      MulSucc(c, k);
      assert n in p <==> n in q || n == x;
    }
  }

  lemma MulSucc(c: int, k: int)
    ensures c * (k + 1) == c * k + c
  {
  }

  /** Extending a list by a new element adds it to the shared part when it is shared. */
  lemma ShareStep(nb: set<int>, q: seq<int>, x: int)
    requires x !in q
    ensures |nb * Elems(q + [x])| == |nb * Elems(q)| + (if x in nb then 1 else 0)
  {
    assert Elems(q + [x]) == Elems(q) + {x};
    if x in nb {
      assert nb * Elems(q + [x]) == (nb * Elems(q)) + {x};
    } else {
      assert nb * Elems(q + [x]) == nb * Elems(q);
    }
  }

  /** Firing a node of the board, any number of times, never changes the bank. */
  lemma FireConserves(order: seq<int>, v: map<int, int>, edges: set<Edge>, n: int, c: int)
    requires Enumerates(order, v) && n in v
    ensures Listed(order, Fire(v, edges, n, c))
    ensures SumOver(order, Fire(v, edges, n, c)) == SumOver(order, v)
  {
    var nb := Neighbors(v.Keys, edges, n);
    FireSumOver(order, v, edges, n, c);
    assert nb * Elems(order) == nb;
  }

  /** Any play whose moves name nodes of the board keeps the bank. */
  lemma {:induction false} PlayConserves(order: seq<int>, v: map<int, int>, edges: set<Edge>, moves: seq<Move>)
    requires Enumerates(order, v)
    requires forall i :: 0 <= i < |moves| ==> moves[i].node in v
    ensures Listed(order, Play(v, edges, moves))
    ensures SumOver(order, Play(v, edges, moves)) == SumOver(order, v)
    decreases |moves|
  {
    if moves != [] {
      FireConserves(order, v, edges, moves[0].node, Sign(moves[0].kind));
      PlayConserves(order, Apply(v, edges, moves[0]), edges, moves[1..]);
    }
  }

  /** A sum of non-positive values is non-positive, and zero only when every value is. */
  lemma {:induction false} SumOfNonPositive(order: seq<int>, w: map<int, int>)
    requires Listed(order, w)
    requires forall i :: 0 <= i < |order| ==> w[order[i]] <= 0
    ensures SumOver(order, w) <= 0
    ensures SumOver(order, w) == 0 <==> forall i :: 0 <= i < |order| ==> w[order[i]] == 0
    decreases |order|
  {
    if order != [] {
      SumOfNonPositive(order[..|order| - 1], w);
    }
  }

  /** Debt is never positive, and it is zero exactly when no node is negative. */
  lemma DebtZeroIff(order: seq<int>, v: map<int, int>)
    requires Enumerates(order, v)
    ensures Listed(order, NegativePart(v))
    ensures SumOver(order, NegativePart(v)) <= 0
    ensures SumOver(order, NegativePart(v)) == 0 <==> Won(v)
  {
    var w := NegativePart(v);
    SumOfNonPositive(order, w);
    if SumOver(order, w) == 0 {
      forall m | m in v ensures v[m] >= 0 {
        var i :| 0 <= i < |order| && order[i] == m;
        assert w[order[i]] == 0;
      }
    }
  }

  /** Distinct lists have as many elements as their element sets. */
  lemma {:induction false} DistinctCard(s: seq<int>)
    requires Distinct(s)
    ensures |Elems(s)| == |s|
    decreases |s|
  {
    if s != [] {
      DistinctPrefix(s);
      DistinctCard(s[..|s| - 1]);
      assert Elems(s) == Elems(s[..|s| - 1]) + {s[|s| - 1]};
    }
  }

  // ---------------------------------------------------------------------------
  // Algebra of firing

  /** Firing a node a times and then b times is firing it a + b times. */
  lemma FireAdd(v: map<int, int>, edges: set<Edge>, n: int, a: int, b: int)
    ensures Fire(Fire(v, edges, n, a), edges, n, b) == Fire(v, edges, n, a + b)
  {
    var nb := Neighbors(v.Keys, edges, n);
    assert a * |nb| + b * |nb| == (a + b) * |nb|;
  }

  lemma FireZero(v: map<int, int>, edges: set<Edge>, n: int)
    ensures Fire(v, edges, n, 0) == v
  {
  }

  /** Firings of two nodes commute. */
  lemma FireCommute(v: map<int, int>, edges: set<Edge>, n: int, a: int, k: int, b: int)
    ensures Fire(Fire(v, edges, n, a), edges, k, b) == Fire(Fire(v, edges, k, b), edges, n, a)
  {
  }

  /** Taking and then giving at the same node restores every value, and so does the reverse. */
  lemma TakeGiveInverse(v: map<int, int>, edges: set<Edge>, n: int)
    ensures Apply(Apply(v, edges, Move(n, Take)), edges, Move(n, Give)) == v
    ensures Apply(Apply(v, edges, Move(n, Give)), edges, Move(n, Take)) == v
  {
    FireAdd(v, edges, n, 1, -1);
    FireAdd(v, edges, n, -1, 1);
    FireZero(v, edges, n);
  }

  lemma {:induction false} PlayAppend(v: map<int, int>, edges: set<Edge>, a: seq<Move>, b: seq<Move>)
    ensures Play(v, edges, a + b) == Play(Play(v, edges, a), edges, b)
    decreases |a|
  {
    if a == [] {
      assert a + b == b;
    } else {
      assert (a + b)[0] == a[0];
      assert (a + b)[1..] == a[1..] + b;
      PlayAppend(Apply(v, edges, a[0]), edges, a[1..], b);
    }
  }

  lemma PlayOne(v: map<int, int>, edges: set<Edge>, m: Move)
    ensures Play(v, edges, [m]) == Apply(v, edges, m)
  {
    assert [m][1..] == [];
  }

  // ---------------------------------------------------------------------------
  // Collapsed plays

  /** A play folded into one net count per node (takes minus gives), keyed in
      order of first appearance, as an insertion-ordered dictionary would be. */
  datatype Collapsed = Collapsed(order: seq<int>, net: map<int, int>)

  /** The ordered keys are exactly the keys of the counts, each once. */
  ghost predicate WellKeyed(c: Collapsed) {
    Distinct(c.order) && Listed(c.order, c.net) && forall k :: k in c.net ==> k in c.order
  }

  /** The nodes the moves of a play act on, in play order. */
  function Nodes(moves: seq<Move>): (r: seq<int>)
    ensures |r| == |moves|
    decreases |moves|
  {
    if moves == [] then [] else Nodes(moves[..|moves| - 1]) + [moves[|moves| - 1].node]
  }

  /** The elements of `s` in order of first appearance. */
  function FirstSeen(s: seq<int>): (r: seq<int>)
    ensures Distinct(r)
    ensures forall x :: x in r <==> x in s
    decreases |s|
  {
    if s == [] then []
    else
      var p := FirstSeen(s[..|s| - 1]);
      if s[|s| - 1] in p then p else p + [s[|s| - 1]]
  }

  /** Number of takes minus number of gives at node n. */
  function NetCount(moves: seq<Move>, n: int): int {
    (multiset(moves)[Move(n, Take)] as int) - multiset(moves)[Move(n, Give)]
  }

  /** Records d more firings of node k, adding k at the end when it is new. */
  function Bump(c: Collapsed, k: int, d: int): (r: Collapsed)
    ensures WellKeyed(c) ==> WellKeyed(r)
    ensures k in r.net && r.net[k] == (if k in c.net then c.net[k] else 0) + d
    ensures forall x :: x in c.net && x != k ==> x in r.net && r.net[x] == c.net[x]
  {
    var r := Collapsed(if k in c.net then c.order else c.order + [k],
                       c.net[k := (if k in c.net then c.net[k] else 0) + d]);
    assert WellKeyed(c) && k !in c.net ==> k !in c.order;
    r
  }

  /** The collapsed form of a play: its moves folded one by one into a collapsed map. */
  function CollapseOf(moves: seq<Move>): (r: Collapsed)
    ensures WellKeyed(r)
    decreases |moves|
  {
    if moves == [] then Collapsed([], map[])
    else
      var m := moves[|moves| - 1];
      Bump(CollapseOf(moves[..|moves| - 1]), m.node, Sign(m.kind))
  }

  function Abs(x: int): nat {
    if x < 0 then -x else x
  }

  /** Sum of the absolute counts over the keys in `order`. */
  function AbsTotal(order: seq<int>, net: map<int, int>): int
    requires Listed(order, net)
    decreases |order|
  {
    if order == [] then 0
    else AbsTotal(order[..|order| - 1], net) + Abs(net[order[|order| - 1]])
  }

  /** The collapsed move count: how many single moves the collapsed play stands for. */
  function MoveCount(c: Collapsed): int
    requires WellKeyed(c)
  {
    AbsTotal(c.order, c.net)
  }

  lemma {:induction false} NodesAt(moves: seq<Move>, i: int)
    requires 0 <= i < |moves|
    ensures Nodes(moves)[i] == moves[i].node
    decreases |moves|
  {
    if i < |moves| - 1 {
      NodesAt(moves[..|moves| - 1], i);
    }
  }

  /** A node no move acts on has net count zero. */
  lemma NetCountAbsent(moves: seq<Move>, k: int)
    requires k !in Nodes(moves)
    ensures NetCount(moves, k) == 0
  {
    forall i | 0 <= i < |moves| ensures moves[i] != Move(k, Take) && moves[i] != Move(k, Give) {
      NodesAt(moves, i);
    }
    assert Move(k, Take) !in moves;
    assert Move(k, Give) !in moves;
  }

  /** What the collapsed form means: its keys are the nodes the play acts on, in
      order of first appearance, each with its takes minus its gives. */
  lemma {:induction false} CollapseMeaning(moves: seq<Move>)
    ensures CollapseOf(moves).order == FirstSeen(Nodes(moves))
    ensures forall k :: k in CollapseOf(moves).net <==> k in Nodes(moves)
    ensures forall k :: k in CollapseOf(moves).net ==> CollapseOf(moves).net[k] == NetCount(moves, k)
    decreases |moves|
  {
    if moves != [] {
      var p, m := moves[..|moves| - 1], moves[|moves| - 1];
      assert moves == p + [m];
      CollapseMeaning(p);
      var s := Nodes(moves);
      assert s[..|s| - 1] == Nodes(p);
      assert multiset(moves) == multiset(p) + multiset{m};
      var c, c' := CollapseOf(p), CollapseOf(moves);
      forall k | k in c'.net ensures c'.net[k] == NetCount(moves, k) {
        if k == m.node && k !in c.net {
          NetCountAbsent(p, k);
        }
      }
    }
  }

  lemma {:induction false} AbsTotalNonNegative(order: seq<int>, net: map<int, int>)
    requires Listed(order, net)
    ensures AbsTotal(order, net) >= 0
    decreases |order|
  {
    if order != [] {
      AbsTotalNonNegative(order[..|order| - 1], net);
    }
  }

  /** The total only looks at the counts of the keys in `order`. */
  lemma {:induction false} AbsTotalIgnores(order: seq<int>, net: map<int, int>, net': map<int, int>)
    requires Listed(order, net) && Listed(order, net')
    requires forall i :: 0 <= i < |order| ==> net[order[i]] == net'[order[i]]
    ensures AbsTotal(order, net) == AbsTotal(order, net')
    decreases |order|
  {
    if order != [] {
      AbsTotalIgnores(order[..|order| - 1], net, net');
    }
  }

  lemma {:induction false} AbsTotalUpdate(order: seq<int>, net: map<int, int>, k: int, x: int)
    requires Distinct(order) && k in order && Listed(order, net)
    ensures Listed(order, net[k := x])
    ensures AbsTotal(order, net[k := x]) == AbsTotal(order, net) - Abs(net[k]) + Abs(x)
    decreases |order|
  {
    var p, last := order[..|order| - 1], order[|order| - 1];
    DistinctPrefix(order);
    if last == k {
      AbsTotalIgnores(p, net, net[k := x]);
    } else {
      assert k in p;
      AbsTotalUpdate(p, net, k, x);
    }
  }

  /** The collapsed move count never exceeds the length of the play. */
  lemma {:induction false} CollapseCountBound(moves: seq<Move>)
    ensures 0 <= MoveCount(CollapseOf(moves)) <= |moves|
    decreases |moves|
  {
    if moves != [] {
      var p, m := moves[..|moves| - 1], moves[|moves| - 1];
      CollapseCountBound(p);
      var c, c' := CollapseOf(p), CollapseOf(moves);
      AbsTotalNonNegative(c'.order, c'.net);
      if m.node in c.net {
        AbsTotalUpdate(c.order, c.net, m.node, c.net[m.node] + Sign(m.kind));
      } else {
        assert c'.order[..|c'.order| - 1] == c.order;
        AbsTotalIgnores(c.order, c.net, c'.net);
      }
    }
  }

  // ---------------------------------------------------------------------------
  // Replaying a collapsed play

  /** `count` copies of the same move. */
  function Repeat(m: Move, count: nat): (r: seq<Move>)
    ensures |r| == count
  {
    seq(count, _ => m)
  }

  /** The moves that replay one entry: `x` takes when positive, `-x` gives when negative. */
  function Burst(n: int, x: int): seq<Move> {
    if x > 0 then Repeat(Move(n, Take), x)
    else if x < 0 then Repeat(Move(n, Give), -x)
    else []
  }

  /** The play that replays a collapsed map entry by entry, in key order. */
  function Expand(order: seq<int>, net: map<int, int>): seq<Move>
    requires Listed(order, net)
    decreases |order|
  {
    if order == [] then []
    else Expand(order[..|order| - 1], net) + Burst(order[|order| - 1], net[order[|order| - 1]])
  }

  /** The board after firing every key of `order` by its count, in order. */
  function FireAll(v: map<int, int>, edges: set<Edge>, order: seq<int>, net: map<int, int>): map<int, int>
    requires Listed(order, net)
    decreases |order|
  {
    if order == [] then v
    else
      var last := order[|order| - 1];
      Fire(FireAll(v, edges, order[..|order| - 1], net), edges, last, net[last])
  }

  lemma {:induction false} RepeatFires(v: map<int, int>, edges: set<Edge>, m: Move, count: nat)
    ensures Play(v, edges, Repeat(m, count)) == Fire(v, edges, m.node, count * Sign(m.kind))
    decreases count
  {
    if count == 0 {
      FireZero(v, edges, m.node);
    } else {
      var r := Repeat(m, count);
      assert r[0] == m && r[1..] == Repeat(m, count - 1);
      RepeatFires(Apply(v, edges, m), edges, m, count - 1);
      FireAdd(v, edges, m.node, Sign(m.kind), (count - 1) * Sign(m.kind));
      assert Sign(m.kind) + (count - 1) * Sign(m.kind) == count * Sign(m.kind);
    }
  }

  lemma BurstFires(v: map<int, int>, edges: set<Edge>, n: int, x: int)
    ensures Play(v, edges, Burst(n, x)) == Fire(v, edges, n, x)
  {
    if x > 0 {
      RepeatFires(v, edges, Move(n, Take), x);
    } else if x < 0 {
      RepeatFires(v, edges, Move(n, Give), -x);
    } else {
      FireZero(v, edges, n);
    }
  }

  lemma {:induction false} ExpandPlays(v: map<int, int>, edges: set<Edge>, order: seq<int>, net: map<int, int>)
    requires Listed(order, net)
    ensures Play(v, edges, Expand(order, net)) == FireAll(v, edges, order, net)
    decreases |order|
  {
    if order != [] {
      var p, last := order[..|order| - 1], order[|order| - 1];
      ExpandPlays(v, edges, p, net);
      PlayAppend(v, edges, Expand(p, net), Burst(last, net[last]));
      BurstFires(Play(v, edges, Expand(p, net)), edges, last, net[last]);
    }
  }

  lemma {:induction false} FireAllIgnores(v: map<int, int>, edges: set<Edge>, order: seq<int>, net: map<int, int>, net': map<int, int>)
    requires Listed(order, net) && Listed(order, net')
    requires forall i :: 0 <= i < |order| ==> net[order[i]] == net'[order[i]]
    ensures FireAll(v, edges, order, net) == FireAll(v, edges, order, net')
    decreases |order|
  {
    if order != [] {
      FireAllIgnores(v, edges, order[..|order| - 1], net, net');
    }
  }

  /** Raising one count by d is the same as firing that node d more times at the end. */
  lemma {:induction false} FireAllBump(v: map<int, int>, edges: set<Edge>, order: seq<int>, net: map<int, int>, k: int, d: int)
    requires Distinct(order) && k in order && Listed(order, net)
    ensures Listed(order, net[k := net[k] + d])
    ensures FireAll(v, edges, order, net[k := net[k] + d]) == Fire(FireAll(v, edges, order, net), edges, k, d)
    decreases |order|
  {
    var net' := net[k := net[k] + d];
    var p, last := order[..|order| - 1], order[|order| - 1];
    DistinctPrefix(order);
    if last == k {
      FireAllIgnores(v, edges, p, net, net');
      FireAdd(FireAll(v, edges, p, net), edges, k, net[k], d);
    } else {
      assert k in p;
      FireAllBump(v, edges, p, net, k, d);
      FireCommute(FireAll(v, edges, p, net), edges, k, d, last, net[last]);
    }
  }

  /** Recording one more firing of k in a collapsed map fires k once more at the end. */
  lemma FireAllExtend(v: map<int, int>, edges: set<Edge>, c: Collapsed, c': Collapsed, k: int, d: int)
    requires WellKeyed(c)
    requires c'.order == (if k in c.net then c.order else c.order + [k])
    requires c'.net == c.net[k := (if k in c.net then c.net[k] else 0) + d]
    ensures Listed(c'.order, c'.net)
    ensures FireAll(v, edges, c'.order, c'.net) == Fire(FireAll(v, edges, c.order, c.net), edges, k, d)
  {
    if k in c.net {
      FireAllBump(v, edges, c.order, c.net, k, d);
    } else {
      assert c'.order[..|c'.order| - 1] == c.order;
      FireAllIgnores(v, edges, c.order, c.net, c'.net);
    }
  }

  /** The last move of a play acts on the board the earlier moves left. */
  lemma PlaySnoc(v: map<int, int>, edges: set<Edge>, moves: seq<Move>)
    requires moves != []
    ensures Play(v, edges, moves) == Apply(Play(v, edges, moves[..|moves| - 1]), edges, moves[|moves| - 1])
  {
    var p, m := moves[..|moves| - 1], moves[|moves| - 1];
    assert p + [m] == moves;
    PlayAppend(v, edges, p, [m]);
    PlayOne(Play(v, edges, p), edges, m);
  }

  /** Collapsing one more move bumps its node's count, adding the node when new. */
  lemma CollapseOfSnoc(moves: seq<Move>)
    requires moves != []
    ensures var c, c', m := CollapseOf(moves[..|moves| - 1]), CollapseOf(moves), moves[|moves| - 1];
      && c'.order == (if m.node in c.net then c.order else c.order + [m.node])
      && c'.net == c.net[m.node := (if m.node in c.net then c.net[m.node] else 0) + Sign(m.kind)]
  {
    var m := moves[|moves| - 1];
    assert CollapseOf(moves) == Bump(CollapseOf(moves[..|moves| - 1]), m.node, Sign(m.kind));
  }

  /** Firing every node by its net count reproduces the board after the play. */
  lemma {:induction false} FireAllCollapsed(v: map<int, int>, edges: set<Edge>, moves: seq<Move>)
    ensures FireAll(v, edges, CollapseOf(moves).order, CollapseOf(moves).net) == Play(v, edges, moves)
    decreases |moves|
  {
    if moves != [] {
      var p, m := moves[..|moves| - 1], moves[|moves| - 1];
      FireAllCollapsed(v, edges, p);
      CollapseOfSnoc(moves);
      FireAllExtend(v, edges, CollapseOf(p), CollapseOf(moves), m.node, Sign(m.kind));
      PlaySnoc(v, edges, moves);
    }
  }

  /** Replaying a collapsed play (each node's takes or gives, node by node)
      leaves exactly the board the original play left. */
  lemma ReplayCollapsed(v: map<int, int>, edges: set<Edge>, moves: seq<Move>)
    ensures Play(v, edges, Expand(CollapseOf(moves).order, CollapseOf(moves).net)) == Play(v, edges, moves)
  {
    FireAllCollapsed(v, edges, moves);
    ExpandPlays(v, edges, CollapseOf(moves).order, CollapseOf(moves).net);
  }
}
