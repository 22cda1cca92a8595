/**
 * Recording, collapsing and solving plays of the dollar game.
 *
 * The solver is a randomized greedy playout: it repeatedly picks a node at
 * random, gives from it when its value is positive, takes at it when its value
 * is negative, and stops as soon as the game is won.  Random choices are
 * passed in as a sequence of picks (indices into the node list); a playout
 * whose picks run out before the game is won has no result (`None`).
 */
module Solver {
  import opened Wrappers
  import opened Chips
  import opened DollarGraph
  import opened Text

  // ---------------------------------------------------------------------------
  // Recording moves

  /** Gives from a node and records the move at the end of the play. */
  method NodeGives(node: int, g: DGGraph, moves: seq<Move>) returns (moves': seq<Move>)
    requires g.Valid() && node in g.values
    modifies g
    ensures g.Valid() && g.values == Fire(old(g.values), g.edges, node, -1)
    ensures g.nodes == old(g.nodes) && g.edges == old(g.edges) && g.bank == old(g.bank)
    ensures moves' == moves + [Move(node, Give)]
  {
    g.Give(node);
    moves' := moves + [Move(node, Give)];
  }

  /** Takes at a node and records the move at the end of the play. */
  method NodeTakes(node: int, g: DGGraph, moves: seq<Move>) returns (moves': seq<Move>)
    requires g.Valid() && node in g.values
    modifies g
    ensures g.Valid() && g.values == Fire(old(g.values), g.edges, node, 1)
    ensures g.nodes == old(g.nodes) && g.edges == old(g.edges) && g.bank == old(g.bank)
    ensures moves' == moves + [Move(node, Take)]
  {
    g.Take(node);
    moves' := moves + [Move(node, Take)];
  }

  // ---------------------------------------------------------------------------
  // Collapsing

  /** Folds a play into one net count per node and counts the moves it stands for. */
  method CollapseMoves(moves: seq<Move>) returns (collapsed: Collapsed, numMoves: int)
    ensures collapsed == CollapseOf(moves) && WellKeyed(collapsed)
    ensures collapsed.order == FirstSeen(Nodes(moves))
    ensures forall k :: k in collapsed.net <==> k in Nodes(moves)
    ensures forall k :: k in collapsed.net ==> collapsed.net[k] == NetCount(moves, k)
    ensures numMoves == MoveCount(collapsed) && 0 <= numMoves <= |moves|
  {
    var order: seq<int> := [];
    var net: map<int, int> := map[];
    for i := 0 to |moves|
      invariant Collapsed(order, net) == CollapseOf(moves[..i])
    {
      assert moves[..i + 1][..i] == moves[..i];
      var m := moves[i];
      var d := if m.kind == Take then 1 else -1;
      if m.node in net {
        net := net[m.node := net[m.node] + d];
      } else {
        order := order + [m.node];
        net := net[m.node := d];
      }
    }
    assert moves[..|moves|] == moves;
    collapsed := Collapsed(order, net);
    numMoves := AbsTotal(order, net);
    CollapseMeaning(moves);
    CollapseCountBound(moves);
  }

  // ---------------------------------------------------------------------------
  // The greedy playout

  /** The move the solver makes at node n: give from a positive node, take at a
      negative one, nothing at a zero. */
  function GreedyMove(v: map<int, int>, n: int): (r: Option<Move>)
    requires n in v
    ensures r.Some? ==> r.value.node == n
    ensures r.Some? <==> v[n] != 0
    ensures r.Some? ==> (r.value.kind == Give <==> v[n] > 0)
  {
    if v[n] > 0 then Some(Move(n, Give)) else if v[n] < 0 then Some(Move(n, Take)) else None
  }

  /** The moves made at one pick: none or one. */
  function PickMoves(v: map<int, int>, n: int): seq<Move>
    requires n in v
  {
    match GreedyMove(v, n)
    case None => []
    case Some(m) => [m]
  }

  /** Every index picks a node of the list. */
  predicate ValidPicks(nodes: seq<int>, picks: seq<nat>) {
    forall i :: 0 <= i < |picks| ==> picks[i] < |nodes|
  }

  /** `ms` in front of a playout's moves, when it has any. */
  function Then(ms: seq<Move>, o: Option<seq<Move>>): Option<seq<Move>> {
    match o
    case None => None
    case Some(rest) => Some(ms + rest)
  }

  /** The moves the solver makes following `picks`, up to the first pick after
      which no node is negative; None when the picks run out first. */
  function Playout(v: map<int, int>, edges: set<Edge>, nodes: seq<int>, picks: seq<nat>): Option<seq<Move>>
    requires Listed(nodes, v) && ValidPicks(nodes, picks)
    decreases |picks|
  {
    if picks == [] then None
    else
      var n := nodes[picks[0]];
      var v' := Play(v, edges, PickMoves(v, n));
      if Won(v') then Some(PickMoves(v, n))
      else Then(PickMoves(v, n), Playout(v', edges, nodes, picks[1..]))
  }

  /** Every move is greedy: gives only from positive nodes, takes only at negative ones. */
  ghost predicate Greedy(v: map<int, int>, edges: set<Edge>, moves: seq<Move>)
    decreases |moves|
  {
    moves == [] ||
      (&& moves[0].node in v
       && (moves[0].kind == Give ==> v[moves[0].node] > 0)
       && (moves[0].kind == Take ==> v[moves[0].node] < 0)
       && Greedy(Apply(v, edges, moves[0]), edges, moves[1..]))
  }

  lemma PickPlay(v: map<int, int>, edges: set<Edge>, n: int, rest: seq<Move>)
    requires n in v
    ensures Play(v, edges, PickMoves(v, n) + rest) == Play(Play(v, edges, PickMoves(v, n)), edges, rest)
  {
    PlayAppend(v, edges, PickMoves(v, n), rest);
  }

  lemma PickGreedy(v: map<int, int>, edges: set<Edge>, n: int, rest: seq<Move>)
    requires n in v
    requires Greedy(Play(v, edges, PickMoves(v, n)), edges, rest)
    ensures Greedy(v, edges, PickMoves(v, n) + rest)
  {
    if GreedyMove(v, n).Some? {
      var m := GreedyMove(v, n).value;
      assert (PickMoves(v, n) + rest)[0] == m;
      assert (PickMoves(v, n) + rest)[1..] == rest;
      PlayOne(v, edges, m);
    } else {
      assert PickMoves(v, n) + rest == rest;
    }
  }

  /** A finished playout is greedy and ends in a won board. */
  lemma {:induction false} PlayoutSound(v: map<int, int>, edges: set<Edge>, nodes: seq<int>, picks: seq<nat>)
    requires Listed(nodes, v) && ValidPicks(nodes, picks)
    requires Playout(v, edges, nodes, picks).Some?
    ensures Won(Play(v, edges, Playout(v, edges, nodes, picks).value))
    ensures Greedy(v, edges, Playout(v, edges, nodes, picks).value)
    decreases |picks|
  {
    var n := nodes[picks[0]];
    var ms := PickMoves(v, n);
    var v' := Play(v, edges, ms);
    if Won(v') {
      PickGreedy(v, edges, n, []);
      assert ms + [] == ms;
    } else {
      assert ValidPicks(nodes, picks[1..]);
      PlayoutSound(v', edges, nodes, picks[1..]);
      var rest := Playout(v', edges, nodes, picks[1..]).value;
      PickPlay(v, edges, n, rest);
      PickGreedy(v, edges, n, rest);
    }
  }

  /** What solve returns for a finished playout: the collapsed play and its move count. */
  function Solution(v: map<int, int>, edges: set<Edge>, nodes: seq<int>, picks: seq<nat>): Option<(Collapsed, int)>
    requires Listed(nodes, v) && ValidPicks(nodes, picks)
  {
    match Playout(v, edges, nodes, picks)
    case None => None
    case Some(ms) => Some((CollapseOf(ms), MoveCount(CollapseOf(ms))))
  }

  /** Replaying the collapsed solution, node by node, wins the game. */
  lemma SolutionWins(v: map<int, int>, edges: set<Edge>, nodes: seq<int>, picks: seq<nat>)
    requires Listed(nodes, v) && ValidPicks(nodes, picks)
    requires Solution(v, edges, nodes, picks).Some?
    ensures var c := Solution(v, edges, nodes, picks).value.0;
      WellKeyed(c) && Won(Play(v, edges, Expand(c.order, c.net)))
  {
    var ms := Playout(v, edges, nodes, picks).value;
    PlayoutSound(v, edges, nodes, picks);
    ReplayCollapsed(v, edges, ms);
  }

  /** The reported move count never exceeds the number of moves the playout made. */
  lemma SolutionCount(v: map<int, int>, edges: set<Edge>, nodes: seq<int>, picks: seq<nat>)
    requires Listed(nodes, v) && ValidPicks(nodes, picks)
    requires Solution(v, edges, nodes, picks).Some?
    ensures 0 <= Solution(v, edges, nodes, picks).value.1 <= |Playout(v, edges, nodes, picks).value|
  {
    CollapseCountBound(Playout(v, edges, nodes, picks).value);
  }

  lemma ThenNil(o: Option<seq<Move>>)
    ensures Then([], o) == o
  {
    if o.Some? {
      assert [] + o.value == o.value;
    }
  }

  lemma ThenAssoc(a: seq<Move>, b: seq<Move>, o: Option<seq<Move>>)
    ensures Then(a, Then(b, o)) == Then(a + b, o)
  {
    if o.Some? {
      assert a + (b + o.value) == (a + b) + o.value;
    }
  }

  /** One pick of the playout, seen from the middle of a play. */
  lemma PlayoutStep(v0: map<int, int>, edges: set<Edge>, nodes: seq<int>, picks: seq<nat>, i: int,
                    moves: seq<Move>, v: map<int, int>)
    requires Listed(nodes, v0) && ValidPicks(nodes, picks) && 0 <= i < |picks|
    requires v == Play(v0, edges, moves)
    requires Playout(v0, edges, nodes, picks) == Then(moves, Playout(v, edges, nodes, picks[i..]))
    ensures var ms := moves + PickMoves(v, nodes[picks[i]]);
      var v' := Play(v, edges, PickMoves(v, nodes[picks[i]]));
      && v' == Play(v0, edges, ms)
      && (Won(v') ==> Playout(v0, edges, nodes, picks) == Some(ms))
      && (!Won(v') ==> Playout(v0, edges, nodes, picks) == Then(ms, Playout(v', edges, nodes, picks[i + 1..])))
  {
    var n := nodes[picks[i]];
    var pm := PickMoves(v, n);
    PlayAppend(v0, edges, moves, pm);
    assert picks[i..][1..] == picks[i + 1..];
    ThenAssoc(moves, pm, Playout(Play(v, edges, pm), edges, nodes, picks[i + 1..]));
  }

  /** Makes the greedy move at node n, if any, and records it. */
  method GreedyStep(g: DGGraph, n: int, moves: seq<Move>) returns (moves': seq<Move>)
    requires g.Valid() && n in g.values
    modifies g
    ensures g.Valid() && g.nodes == old(g.nodes) && g.edges == old(g.edges)
    ensures g.values == Play(old(g.values), g.edges, PickMoves(old(g.values), n))
    ensures moves' == moves + PickMoves(old(g.values), n)
  {
    ghost var v := g.values;
    PlayOne(v, g.edges, Move(n, Give));
    PlayOne(v, g.edges, Move(n, Take));
    if g.values[n] > 0 {
      g.Give(n);
      moves' := moves + [Move(n, Give)];
    } else if g.values[n] < 0 {
      g.Take(n);
      moves' := moves + [Move(n, Take)];
    } else {
      moves' := moves;
      assert moves + [] == moves;
    }
  }

  /** Plays greedily from `g`, following `picks`, until the game is won; the
      result is the collapsed play, or None when the picks run out first. */
  method Solve(g: DGGraph, picks: seq<nat>) returns (r: Option<(Collapsed, int)>)
    requires g.Valid() && ValidPicks(g.nodes, picks)
    modifies g
    ensures g.Valid() && g.nodes == old(g.nodes) && g.edges == old(g.edges)
    ensures r == Solution(old(g.values), g.edges, g.nodes, picks)
    ensures r.Some? ==> g.values == Play(old(g.values), g.edges, Playout(old(g.values), g.edges, g.nodes, picks).value)
  {
    var moves, won := PlayGreedily(g, picks);
    if won {
      var collapsed, numMoves := CollapseMoves(moves);
      r := Some((collapsed, numMoves));
    } else {
      r := None;
    }
  }

  /** The loop of the solver: the moves made, and whether they won the game
      before the picks ran out. */
  method PlayGreedily(g: DGGraph, picks: seq<nat>) returns (moves: seq<Move>, won: bool)
    requires g.Valid() && ValidPicks(g.nodes, picks)
    modifies g
    ensures g.Valid() && g.nodes == old(g.nodes) && g.edges == old(g.edges)
    ensures g.values == Play(old(g.values), g.edges, moves)
    ensures Playout(old(g.values), g.edges, g.nodes, picks) == if won then Some(moves) else None
  {
    ghost var v0, nodes, edges := g.values, g.nodes, g.edges;
    moves := [];
    var i := 0;
    assert picks[0..] == picks;
    ThenNil(Playout(v0, edges, nodes, picks));
    while i < |picks|
      invariant 0 <= i <= |picks|
      invariant g.Valid() && g.nodes == nodes && g.edges == edges
      invariant g.values == Play(v0, edges, moves)
      invariant Playout(v0, edges, nodes, picks) == Then(moves, Playout(g.values, edges, nodes, picks[i..]))
    {
      PlayoutStep(v0, edges, nodes, picks, i, moves, g.values);
      moves := GreedyStep(g, g.nodes[picks[i]], moves);
      won := g.IsVictory();
      if won {
        return;
      }
      i := i + 1;
    }
    won := false;
  }

  // ---------------------------------------------------------------------------
  // Best of several playouts

  /** A number of moves, or no number yet (numpy's infinity). */
  datatype Score = Finite(n: int) | Infinity

  predicate Below(x: int, s: Score) {
    s.Infinity? || x < s.n
  }

  /** The outcome of a search: the board has no node to pick (an IndexError),
      some playout ran out of picks, or the best collapsed play found (None
      when there were no attempts) and its count. */
  datatype Search = NoNodes | Diverged | Searched(best: Option<Collapsed>, score: Score)

  predicate AllValidPicks(nodes: seq<int>, attempts: seq<seq<nat>>) {
    forall j :: 0 <= j < |attempts| ==> ValidPicks(nodes, attempts[j])
  }

  /** The result of solving from `v` with each attempt's picks. */
  function Solutions(v: map<int, int>, edges: set<Edge>, nodes: seq<int>, attempts: seq<seq<nat>>): (rs: seq<Option<(Collapsed, int)>>)
    requires Listed(nodes, v) && AllValidPicks(nodes, attempts)
    ensures |rs| == |attempts|
    decreases |attempts|
  {
    if attempts == [] then []
    else Solutions(v, edges, nodes, attempts[..|attempts| - 1]) + [Solution(v, edges, nodes, attempts[|attempts| - 1])]
  }

  lemma {:induction false} SolutionsAt(v: map<int, int>, edges: set<Edge>, nodes: seq<int>, attempts: seq<seq<nat>>, j: int)
    requires Listed(nodes, v) && AllValidPicks(nodes, attempts) && 0 <= j < |attempts|
    ensures Solutions(v, edges, nodes, attempts)[j] == Solution(v, edges, nodes, attempts[j])
    decreases |attempts|
  {
    if j < |attempts| - 1 {
      SolutionsAt(v, edges, nodes, attempts[..|attempts| - 1], j);
    }
  }

  /** Result k has the fewest moves among the first `upto` results, all of which
      are solutions, and every earlier one has strictly more. */
  predicate BestAmong(rs: seq<Option<(Collapsed, int)>>, k: int, upto: int)
    requires upto <= |rs| && forall j :: 0 <= j < upto ==> rs[j].Some?
  {
    && 0 <= k < upto
    && (forall j :: 0 <= j < upto ==> rs[k].value.1 <= rs[j].value.1)
    && (forall j :: 0 <= j < k ==> rs[k].value.1 < rs[j].value.1)
  }

  /** Considering one more result keeps the earliest minimum. */
  lemma BestStep(rs: seq<Option<(Collapsed, int)>>, k: int, i: int)
    requires 0 <= i < |rs| && forall j :: 0 <= j <= i ==> rs[j].Some?
    requires i > 0 ==> BestAmong(rs, k, i)
    ensures i == 0 || rs[i].value.1 < rs[k].value.1 ==> BestAmong(rs, i, i + 1)
    ensures i > 0 && rs[k].value.1 <= rs[i].value.1 ==> BestAmong(rs, k, i + 1)
  {
  }

  /** Solves a fresh copy of `g` once per attempt and keeps the first solution
      with the fewest moves; `g` itself is left as it is. */
  method FindBest(g: DGGraph, attempts: seq<seq<nat>>) returns (r: Search)
    requires g.Valid() && AllValidPicks(g.nodes, attempts)
    ensures r.NoNodes? <==> g.nodes == [] && attempts != []
    ensures var rs := Solutions(g.values, g.edges, g.nodes, attempts);
      && (r.Diverged? <==> g.nodes != [] && exists j :: 0 <= j < |rs| && rs[j].None?)
      && (attempts == [] ==> r == Searched(None, Infinity))
      && (r.Searched? && attempts != [] ==>
            exists k :: BestAmong(rs, k, |rs|) && r == Searched(Some(rs[k].value.0), Finite(rs[k].value.1)))
  {
    if g.nodes == [] && attempts != [] {
      return NoNodes;
    }
    ghost var rs := Solutions(g.values, g.edges, g.nodes, attempts);
    var best: Option<Collapsed> := None;
    var minMoves: Score := Infinity;
    ghost var k := -1;
    for i := 0 to |attempts|
      invariant forall j :: 0 <= j < i ==> rs[j].Some?
      invariant i == 0 ==> k == -1 && best == None && minMoves == Infinity
      invariant i > 0 ==>
        BestAmong(rs, k, i) && best == Some(rs[k].value.0) && minMoves == Finite(rs[k].value.1)
    {
      var res := SolveCopy(g, attempts, i);
      if res.None? {
        assert rs[i].None?;
        return Diverged;
      }
      var (moves, count) := res.value;
      BestStep(rs, k, i);
      if Below(count, minMoves) {
        best := Some(moves);
        minMoves := Finite(count);
        k := i;
      }
    }
    r := Searched(best, minMoves);
    assert attempts != [] ==> BestAmong(rs, k, |rs|);
  }

  /** Solves a deep copy of `g` with the picks of attempt i, leaving `g` as it is. */
  method SolveCopy(g: DGGraph, attempts: seq<seq<nat>>, i: int) returns (r: Option<(Collapsed, int)>)
    requires g.Valid() && AllValidPicks(g.nodes, attempts) && 0 <= i < |attempts|
    ensures r == Solutions(g.values, g.edges, g.nodes, attempts)[i]
  {
    var copy := new DGGraph.Copy(g);
    r := Solve(copy, attempts[i]);
    SolutionsAt(g.values, g.edges, g.nodes, attempts, i);
  }

  // ---------------------------------------------------------------------------
  // Instructions

  /** The marker of a take (`take` true) or a give, as arrows or as words. */
  function Symbol(take: bool, arrows: bool): (r: string)
    ensures |r| == (if arrows then 1 else 5)
    ensures r[0] != '-' && !('0' <= r[0] <= '9')
    ensures r[0] == (if arrows then (if take then '\U{2190}' else '\U{2192}') else ' ')
    ensures !arrows ==> r[1] == (if take then 't' else 'g')
  {
    if arrows then (if take then "\U{2190}" else "\U{2192}") else (if take then " take" else " give")
  }

  /** The line shown for x moves at a node: positive x are takes, negative gives. */
  function Instruction(node: int, x: int, arrows: bool): string {
    IntToString(node) + Symbol(x > 0, arrows) + "(" + NatToString(Abs(x)) + ")"
  }

  /** The nodes of `order` with a nonzero count, in the same order. */
  function Nonzero(order: seq<int>, net: map<int, int>): (r: seq<int>)
    requires Listed(order, net)
    ensures |r| <= |order| && Listed(r, net)
    decreases |order|
  {
    if order == [] then []
    else
      var rest := Nonzero(order[..|order| - 1], net);
      var x := order[|order| - 1];
      if net[x] != 0 then rest + [x] else rest
  }

  /** The kept nodes are exactly the listed nodes with a nonzero count, and a
      duplicate-free list keeps them duplicate-free. */
  lemma {:induction false} NonzeroShape(order: seq<int>, net: map<int, int>)
    requires Listed(order, net)
    ensures var r := Nonzero(order, net);
      && (forall i :: 0 <= i < |r| ==> r[i] in order && net[r[i]] != 0)
      && (forall i :: 0 <= i < |order| && net[order[i]] != 0 ==> order[i] in r)
      && (Distinct(order) ==> Distinct(r))
    decreases |order|
  {
    if order != [] {
      var p, x := order[..|order| - 1], order[|order| - 1];
      NonzeroShape(p, net);
      assert order == p + [x];
      assert Distinct(order) ==> Distinct(p) && x !in p;
    }
  }

  /** Nonzero filters piecewise: the kept nodes of two lists in a row are
      those of the first followed by those of the second, so it keeps order. */
  lemma {:induction false} NonzeroAppend(a: seq<int>, b: seq<int>, net: map<int, int>)
    requires Listed(a, net) && Listed(b, net)
    ensures Listed(a + b, net)
    ensures Nonzero(a + b, net) == Nonzero(a, net) + Nonzero(b, net)
    decreases |b|
  {
    if b == [] {
      assert a + b == a;
    } else {
      var c, x := b[..|b| - 1], b[|b| - 1];
      assert Listed(c, net);
      NonzeroAppend(a, c, net);
      var ab := a + b;
      assert ab[..|ab| - 1] == a + c && ab[|ab| - 1] == x;
      var keep := if net[x] != 0 then [x] else [];
      assert Nonzero(ab, net) == Nonzero(a + c, net) + keep;
      assert Nonzero(b, net) == Nonzero(c, net) + keep;
    }
  }

  /** A single node is kept exactly when its count is nonzero. */
  lemma NonzeroOne(x: int, net: map<int, int>)
    requires x in net
    ensures Nonzero([x], net) == if net[x] != 0 then [x] else []
  {
    assert [x][..0] == [];
  }

  /** The lines shown for the nodes of `order`, skipping those with count 0. */
  function Shown(order: seq<int>, net: map<int, int>, arrows: bool): (r: seq<string>)
    requires Listed(order, net)
    ensures |r| <= |order|
    decreases |order|
  {
    if order == [] then []
    else
      var x := order[|order| - 1];
      Shown(order[..|order| - 1], net, arrows) + (if net[x] != 0 then [Instruction(x, net[x], arrows)] else [])
  }

  /** Line i is the instruction for the i-th node with a nonzero count. */
  lemma {:induction false} ShownLines(order: seq<int>, net: map<int, int>, arrows: bool)
    requires Listed(order, net)
    ensures var nz, r := Nonzero(order, net), Shown(order, net, arrows);
      && |r| == |nz|
      && forall i :: 0 <= i < |r| ==> r[i] == Instruction(nz[i], net[nz[i]], arrows)
    decreases |order|
  {
    if order != [] {
      ShownLines(order[..|order| - 1], net, arrows);
    }
  }

  lemma ShownStep(order: seq<int>, net: map<int, int>, arrows: bool, i: int)
    requires Listed(order, net) && 0 <= i < |order|
    ensures var x := order[i];
      Shown(order[..i + 1], net, arrows)
        == Shown(order[..i], net, arrows) + (if net[x] != 0 then [Instruction(x, net[x], arrows)] else [])
  {
    assert order[..i + 1][..i] == order[..i];
  }

  /** One line per node with a nonzero count, in the order of the collapsed map. */
  method ShowInstruction(moves: Collapsed, arrows: bool) returns (tmp: seq<string>)
    requires Listed(moves.order, moves.net)
    ensures tmp == Shown(moves.order, moves.net, arrows)
  {
    tmp := [];
    for i := 0 to |moves.order|
      invariant tmp == Shown(moves.order[..i], moves.net, arrows)
    {
      ShownStep(moves.order, moves.net, arrows, i);
      var node := moves.order[i];
      var move := moves.net[node];
      if move != 0 {
        tmp := tmp + [Instruction(node, move, arrows)];
      } else {
        assert tmp + [] == tmp;
      }
    }
    assert moves.order[..|moves.order|] == moves.order;
  }

  predicate NumeralChar(c: char) {
    c == '-' || '0' <= c <= '9'
  }

  /** The length of the longest prefix of signs and digits. */
  function NumeralLength(s: string): (n: nat)
    ensures n <= |s|
    decreases |s|
  {
    if s == [] || !NumeralChar(s[0]) then 0 else 1 + NumeralLength(s[1..])
  }

  predicate IsInt(s: string) {
    s != [] && (s[0] == '-' ==> AllDigits(s[1..])) && (s[0] != '-' ==> AllDigits(s))
  }

  /** Reads a line back into its node and signed count. */
  function ParseInstruction(s: string, arrows: bool): Option<(int, int)> {
    var n := NumeralLength(s);
    var head := s[..n];
    if !IsInt(head) then None
    else match ParseCount(s[n..], arrows)
      case None => None
      case Some(x) => Some((ParseInt(head), x))
  }

  /** Reads a parenthesised run of digits. */
  function ParseParen(body: string): Option<nat> {
    if |body| < 3 || body[0] != '(' || body[|body| - 1] != ')' || !AllDigits(body[1..|body| - 1]) then None
    else Some(ParseNat(body[1..|body| - 1]))
  }

  /** Which marker `sym` is: Some(true) for a take, Some(false) for a give. */
  function MarkerOf(sym: string, arrows: bool): Option<bool> {
    if sym == Symbol(true, arrows) then Some(true)
    else if sym == Symbol(false, arrows) then Some(false)
    else None
  }

  /** Reads the marker and the parenthesised count: a take is positive, a give negative. */
  function ParseCount(rest: string, arrows: bool): Option<int> {
    var w := if arrows then 1 else 5;
    if |rest| < w then None
    else match (MarkerOf(rest[..w], arrows), ParseParen(rest[w..]))
      case (Some(take), Some(m)) => Some(if take then m as int else -(m as int))
      case _ => None
  }

  lemma {:induction false} NumeralLengthOf(a: string, tail: string)
    requires forall i :: 0 <= i < |a| ==> NumeralChar(a[i])
    requires tail != [] && !NumeralChar(tail[0])
    ensures NumeralLength(a + tail) == |a|
    decreases |a|
  {
    if a == [] {
      assert a + tail == tail;
    } else {
      assert (a + tail)[1..] == a[1..] + tail;
      NumeralLengthOf(a[1..], tail);
    }
  }

  /** Each marker is recognised as itself. */
  lemma MarkerOfSymbol(take: bool, arrows: bool)
    ensures MarkerOf(Symbol(take, arrows), arrows) == Some(take)
  {
    var at := if arrows then 0 else 1;
    assert Symbol(true, arrows)[at] != Symbol(false, arrows)[at];
  }

  /** Digits in parentheses read back as their value. */
  lemma ParseParenOf(digits: string)
    requires digits != [] && AllDigits(digits)
    ensures ParseParen("(" + digits + ")") == Some(ParseNat(digits))
  {
    var body := "(" + digits + ")";
    assert body[1..|body| - 1] == digits;
  }

  // A re-grouping step kept as its own lemma: stated inline, the solver spends far more on it.
  lemma Append3<T>(a: seq<T>, b: seq<T>, c: seq<T>, d: seq<T>)
    ensures a + b + c + d == a + (b + c + d)
  {
  }

  /** A marker followed by parenthesised digits reads back as the signed number. */
  lemma ParseCountParts(sym: string, take: bool, body: string, arrows: bool)
    requires |sym| == (if arrows then 1 else 5) && MarkerOf(sym, arrows) == Some(take)
    requires ParseParen(body).Some?
    ensures var m := ParseParen(body).value;
      ParseCount(sym + body, arrows) == Some(if take then m as int else -(m as int))
  {
    assert (sym + body)[..|sym|] == sym && (sym + body)[|sym|..] == body;
  }

  lemma ParseCountOf(x: int, arrows: bool)
    requires x != 0
    ensures ParseCount(Symbol(x > 0, arrows) + "(" + NatToString(Abs(x)) + ")", arrows) == Some(x)
  {
    var sym, digits := Symbol(x > 0, arrows), NatToString(Abs(x));
    Append3(sym, "(", digits, ")");
    MarkerOfSymbol(x > 0, arrows);
    ParseParenOf(digits);
    ParseCountParts(sym, x > 0, "(" + digits + ")", arrows);
    ParseNatToString(Abs(x));
  }

  /** A printed integer consists of signs and digits only. */
  lemma IntNumeral(node: int)
    ensures var a := IntToString(node); forall i :: 0 <= i < |a| ==> NumeralChar(a[i])
  {
    var a := IntToString(node);
    if node < 0 {
      assert forall i :: 1 <= i < |a| ==> a[i] == a[1..][i - 1];
    }
  }

  /** A numeral followed by a part that starts with neither a sign nor a digit
      is read as that numeral and the part's count. */
  lemma ParseInstructionParts(a: string, tail: string, arrows: bool)
    requires IsInt(a) && forall i :: 0 <= i < |a| ==> NumeralChar(a[i])
    requires tail != [] && !NumeralChar(tail[0]) && ParseCount(tail, arrows).Some?
    ensures ParseInstruction(a + tail, arrows) == Some((ParseInt(a), ParseCount(tail, arrows).value))
  {
    NumeralLengthOf(a, tail);
    assert (a + tail)[..|a|] == a && (a + tail)[|a|..] == tail;
  }

  /** Every shown line reads back as its node and its nonzero count. */
  lemma InstructionRoundTrip(node: int, x: int, arrows: bool)
    requires x != 0
    ensures ParseInstruction(Instruction(node, x, arrows), arrows) == Some((node, x))
  {
    var a := IntToString(node);
    var tail := Symbol(x > 0, arrows) + "(" + NatToString(Abs(x)) + ")";
    assert Instruction(node, x, arrows) == a + tail;
    IntRoundTrip(node);
    IntNumeral(node);
    ParseCountOf(x, arrows);
    ParseInstructionParts(a, tail, arrows);
  }
}
