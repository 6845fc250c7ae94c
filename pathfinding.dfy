/**
  The route search of the tile grid (src/pathfinding.rs).

  A request `Destination { start, goal }` is answered by a best-first search
  over a node table holding one `Node` per existing tile.  The table lives only
  for the duration of one request.  The neighbour query of the tile map is a
  parameter (`Neighbours`); the ECS commands that remove the request and attach
  the route become the returned `Option` value.
*/
module Pathfinding {

  datatype Option<T> = None | Some(value: T)

  /** A tile coordinate (`TilePos`). */
  datatype TilePos = TilePos(x: nat, y: nat)

  /** A route request (`Destination`). */
  datatype Destination = Destination(start: TilePos, goal: TilePos)

  /** `u32::MAX`, the source's "not reached yet" value for scores and priorities. */
  const U32Max: nat := 0xFFFF_FFFF

  /**
    A search node.  `score` is the cost from the start, `heuristicScore` the
    priority (cost plus Manhattan estimate to the goal) the search orders by,
    `previousPos` the predecessor link the route is rebuilt from.
  */
  datatype Node = Node(
    pos: TilePos,
    score: nat,
    heuristicScore: nat,
    visited: bool,
    previousPos: Option<TilePos>)

  /** The node table of one request (`HashMap<TilePos, Node>`). */
  type Graph = map<TilePos, Node>

  /** The positions of the existing tiles that the tile map reports next to a tile. */
  type Neighbours = TilePos -> seq<TilePos>

  /** The set of existing tiles, from the enumeration of tile positions. */
  function Walkable(tiles: seq<TilePos>): set<TilePos> {
    set t | t in tiles
  }

  // ---------------------------------------------------------------------------
  // Nodes, costs and the heuristic
  // ---------------------------------------------------------------------------

  /** A node can be selected only while its priority is below the sentinel. */
  predicate Reached(n: Node) {
    n.heuristicScore < U32Max
  }

  /** `Node::new`: a node the search has not reached. */
  function NewNode(pos: TilePos): (n: Node)
    ensures n.pos == pos && !n.visited && n.previousPos.None?
    ensures !Reached(n) && n.score == U32Max && n.heuristicScore == U32Max
  {
    Node(pos, U32Max, U32Max, false, None)
  }

  /** The start node, seeded with cost and priority 0 and the defaults otherwise. */
  function StartNode(start: TilePos): (n: Node)
    ensures n.pos == start && !n.visited && n.previousPos.None?
    ensures Reached(n) && n.score == 0 && n.heuristicScore == 0
  {
    Node(start, 0, 0, false, None)
  }

  function AbsDiff(a: nat, b: nat): nat {
    if a < b then b - a else a - b
  }

  /** `calculate_heuristic_score`: the Manhattan distance between two tiles. */
  function Heuristic(curr: TilePos, target: TilePos): (h: nat)
    ensures h == 0 <==> curr == target
  {
    AbsDiff(curr.x, target.x) + AbsDiff(curr.y, target.y)
  }

  lemma HeuristicSymmetric(a: TilePos, b: TilePos)
    ensures Heuristic(a, b) == Heuristic(b, a)
  {
  }

  /** The triangle inequality of the Manhattan estimate. */
  lemma HeuristicTriangle(a: TilePos, b: TilePos, goal: TilePos)
    ensures Heuristic(a, goal) <= Heuristic(a, b) + Heuristic(b, goal)
  {
  }

  /** `calculate_score`: the cost of stepping from `curr` to a neighbour, one unit per edge. */
  function Score(curr: Node): (s: nat)
    ensures s > curr.score
  {
    curr.score + 1
  }

  // ---------------------------------------------------------------------------
  // Relaxation
  // ---------------------------------------------------------------------------

  /** What relaxing one neighbour `n` through the selected node `curr` does to it. */
  function Relaxed(n: Node, curr: Node, goal: TilePos): (r: Node)
    ensures r.pos == n.pos && r.visited == n.visited && r.score <= n.score
    ensures n.visited ==> r == n
    ensures r != n ==> r.score == curr.score + 1 && r.previousPos == Some(curr.pos)
                       && r.heuristicScore == r.score + Heuristic(r.pos, goal)
    ensures r != n <==> !n.visited && curr.score + 1 < n.score
    ensures !n.visited ==> r.score <= curr.score + 1
  {
    var newScore := Score(curr);
    if !n.visited && newScore < n.score then
      n.(score := newScore,
         heuristicScore := newScore + Heuristic(n.pos, goal),
         previousPos := Some(curr.pos))
    else
      n
  }

  /** Relaxing twice through the same node changes nothing more. */
  lemma RelaxedIdempotent(n: Node, curr: Node, goal: TilePos)
    ensures Relaxed(Relaxed(n, curr, goal), curr, goal) == Relaxed(n, curr, goal)
  {
  }

  /** The node table after relaxing every listed neighbour of `curr`. */
  function RelaxAll(g: Graph, curr: Node, goal: TilePos, neighbours: seq<TilePos>): (r: Graph)
    ensures r.Keys == g.Keys
    ensures forall p :: p in g && (g[p].visited || p == curr.pos || p !in neighbours) ==> r[p] == g[p]
    ensures forall p :: p in g ==> r[p].pos == g[p].pos && r[p].visited == g[p].visited
    ensures forall p :: p in g ==> r[p].score <= g[p].score
    ensures forall p :: p in g && r[p] != g[p] ==>
              r[p].score == curr.score + 1 && r[p].previousPos == Some(curr.pos)
              && r[p].heuristicScore == r[p].score + Heuristic(r[p].pos, goal)
    ensures forall p :: p in g && p != curr.pos && p in neighbours ==>
              (r[p] != g[p] <==> !g[p].visited && curr.score + 1 < g[p].score)
    ensures forall p :: p in g && p in neighbours && p != curr.pos && !g[p].visited ==>
              r[p].score <= curr.score + 1
  {
    map p | p in g :: if p != curr.pos && p in neighbours then Relaxed(g[p], curr, goal) else g[p]
  }

  /**
    The neighbour loop of the search (src/pathfinding.rs:147-177): every
    reported neighbour other than the selected tile that has a node and is not
    visited gets the cost through `curr` if that is lower.
  */
  method Relax(graph: Graph, curr: Node, goal: TilePos, neighbours: seq<TilePos>) returns (g: Graph)
    ensures g == RelaxAll(graph, curr, goal, neighbours)
  {
    g := graph;
    for i := 0 to |neighbours|
      invariant g == RelaxAll(graph, curr, goal, neighbours[..i])
    {
      var tp := neighbours[i];
      assert neighbours[..i + 1] == neighbours[..i] + [tp];
      RelaxStep(graph, curr, goal, neighbours[..i], tp);
      if tp == curr.pos {
        continue;
      }
      if tp in g {
        var nn := g[tp];
        if !nn.visited {
          var newScore := Score(curr);
          if newScore < nn.score {
            g := g[tp := nn.(score := newScore,
                             heuristicScore := newScore + Heuristic(nn.pos, goal),
                             previousPos := Some(curr.pos))];
          }
        }
      }
    }
    assert neighbours[..|neighbours|] == neighbours;
  }

  /** One more neighbour in the list relaxes one more node, and a repeated one changes nothing. */
  lemma RelaxStep(graph: Graph, curr: Node, goal: TilePos, done: seq<TilePos>, tp: TilePos)
    ensures var before := RelaxAll(graph, curr, goal, done);
            RelaxAll(graph, curr, goal, done + [tp]) ==
              if tp != curr.pos && tp in before then before[tp := Relaxed(before[tp], curr, goal)]
              else before
  {
    var before := RelaxAll(graph, curr, goal, done);
    if tp != curr.pos && tp in before {
      RelaxedIdempotent(graph[tp], curr, goal);
    }
  }

  // ---------------------------------------------------------------------------
  // Initialisation and selection
  // ---------------------------------------------------------------------------

  /**
    The node table of a request (src/pathfinding.rs:100-118): the start node
    with cost 0, and one fresh node for every other distinct tile.
  */
  method InitGraph(tiles: seq<TilePos>, start: TilePos) returns (graph: Graph)
    ensures graph.Keys == Walkable(tiles) + {start}
    ensures graph[start] == StartNode(start)
    ensures forall p :: p in graph && p != start ==> graph[p] == NewNode(p)
  {
    graph := map[start := StartNode(start)];
    for i := 0 to |tiles|
      invariant graph.Keys == Walkable(tiles[..i]) + {start}
      invariant graph[start] == StartNode(start)
      invariant forall p :: p in graph && p != start ==> graph[p] == NewNode(p)
    {
      var tp := tiles[i];
      assert tiles[..i + 1] == tiles[..i] + [tp];
      if tp != start && tp !in graph {
        graph := graph[tp := NewNode(tp)];
      }
    }
    assert tiles[..|tiles|] == tiles;
  }

  /**
    The minimum fold (src/pathfinding.rs:122-132): starting from the fresh node
    at (0, 0), keep the first unvisited node met whose priority is lower than
    the one kept so far.  The map's iteration order is not specified, so the
    model takes the nodes in an arbitrary order.
  */
  method SelectBest(graph: Graph) returns (best: Node)
    requires forall p :: p in graph ==> graph[p].pos == p
    ensures Reached(best) ==>
              best.pos in graph && graph[best.pos] == best && !best.visited
              && forall p :: p in graph && !graph[p].visited ==> best.heuristicScore <= graph[p].heuristicScore
    ensures !Reached(best) ==>
              best == NewNode(TilePos(0, 0))
              && forall p :: p in graph && !graph[p].visited ==> !Reached(graph[p])
  {
    best := NewNode(TilePos(0, 0));
    var rest := graph.Keys;
    while rest != {}
      invariant rest <= graph.Keys
      invariant Reached(best) ==> best.pos in graph && graph[best.pos] == best && !best.visited
      invariant !Reached(best) ==> best == NewNode(TilePos(0, 0))
      invariant forall p :: p in graph && p !in rest && !graph[p].visited ==>
                  best.heuristicScore <= graph[p].heuristicScore
      decreases rest
    {
      var p :| p in rest;
      var item := graph[p];
      if !item.visited && item.heuristicScore < best.heuristicScore {
        best := item;
      }
      rest := rest - {p};
    }
  }

  // ---------------------------------------------------------------------------
  // The invariant of the node table
  // ---------------------------------------------------------------------------

  /**
    A predecessor link is sound: it names a visited node next to which the
    tile was reported, the cost is one more than that node's, and the priority
    is the cost plus the estimate to the goal.
  */
  ghost predicate Linked(g: Graph, p: TilePos, goal: TilePos, nbrs: Neighbours)
    requires p in g
  {
    match g[p].previousPos
    case None => true
    case Some(q) =>
      && q in g && g[q].visited && q != p && p in nbrs(q)
      && g[p].score == g[q].score + 1
      && g[p].heuristicScore == g[p].score + Heuristic(p, goal)
  }

  /** What holds of the node table at the top of every round of the search. */
  ghost predicate SearchInv(g: Graph, start: TilePos, goal: TilePos, nbrs: Neighbours) {
    && start in g
    && g[start].score == 0 && g[start].heuristicScore == 0 && g[start].previousPos.None?
    && (forall p :: p in g ==> g[p].pos == p)
    && (forall p {:trigger Linked(g, p, goal, nbrs)} :: p in g ==> Linked(g, p, goal, nbrs))
    && (forall p :: p in g && p != start && g[p].previousPos.None? ==>
          g[p].score == U32Max && !Reached(g[p]) && !g[p].visited)
    && (forall p :: p in g && g[p].visited ==> Reached(g[p]))
  }

  /**
    The facts about progress that completeness rests on: `visited` is the set
    of visited tiles, every unvisited neighbour of a visited node costs at most
    one more than it, and no reached node costs more than the number of rounds.
  */
  ghost predicate Progress(g: Graph, visited: set<TilePos>, start: TilePos, nbrs: Neighbours) {
    && visited <= g.Keys
    && (forall p :: p in g ==> (g[p].visited <==> p in visited))
    && (forall q, n :: q in g && g[q].visited && n in nbrs(q) && n in g && n != q ==>
          g[n].visited || g[n].score <= g[q].score + 1)
    && (forall p :: p in g && (p == start || g[p].previousPos.Some?) ==> g[p].score <= |visited|)
  }

  lemma InitEstablishes(tiles: seq<TilePos>, start: TilePos, goal: TilePos, nbrs: Neighbours, g: Graph)
    requires g.Keys == Walkable(tiles) + {start}
    requires g[start] == StartNode(start)
    requires forall p :: p in g && p != start ==> g[p] == NewNode(p)
    ensures SearchInv(g, start, goal, nbrs) && Progress(g, {}, start, nbrs)
  {
  }

  /** A selected node with a priority below the sentinel costs less than the sentinel. */
  lemma ReachedHasScore(g: Graph, start: TilePos, goal: TilePos, nbrs: Neighbours, p: TilePos)
    requires SearchInv(g, start, goal, nbrs) && p in g && Reached(g[p])
    ensures g[p].score < U32Max
    ensures p == start || g[p].previousPos.Some?
  {
    assert Linked(g, p, goal, nbrs);
  }

  /** While the start is unvisited it is the only node with priority 0 or less. */
  lemma FirstRoundSelectsStart(g: Graph, start: TilePos, goal: TilePos, nbrs: Neighbours, p: TilePos)
    requires SearchInv(g, start, goal, nbrs) && p in g && Reached(g[p])
    requires g[p].heuristicScore <= g[start].heuristicScore
    ensures p == start
  {
    assert Linked(g, p, goal, nbrs);
  }

  /** The node table after one round: `curr` marked visited and its neighbours relaxed. */
  function Visit(g: Graph, curr: Node, goal: TilePos, nbrs: Neighbours): (r: Graph)
    requires curr.pos in g
    ensures r.Keys == g.Keys && r[curr.pos] == g[curr.pos].(visited := true)
    ensures forall p :: p in g && p != curr.pos ==> r[p].visited == g[p].visited && r[p].score <= g[p].score
    ensures forall p :: p in g && p != curr.pos && p !in nbrs(curr.pos) ==> r[p] == g[p]
  {
    RelaxAll(g[curr.pos := g[curr.pos].(visited := true)], curr, goal, nbrs(curr.pos))
  }

  /** A table that marks `curr` visited and relaxes exactly its listed neighbours is `Visit`. */
  lemma SameAsVisit(g: Graph, curr: Node, goal: TilePos, nbrs: Neighbours, next: Graph)
    requires curr.pos in g && g[curr.pos] == curr
    requires next.Keys == g.Keys && next[curr.pos] == curr.(visited := true)
    requires forall p :: p in g && p != curr.pos ==>
               next[p] == if p in nbrs(curr.pos) then Relaxed(g[p], curr, goal) else g[p]
    ensures next == Visit(g, curr, goal, nbrs)
  {
    var v := Visit(g, curr, goal, nbrs);
    forall p | p in next
      ensures next[p] == v[p]
    {
    }
  }

  /** Marking the selected node visited keeps the invariant. */
  lemma MarkKeepsInv(g: Graph, start: TilePos, goal: TilePos, nbrs: Neighbours, curr: Node)
    requires SearchInv(g, start, goal, nbrs)
    requires curr.pos in g && g[curr.pos] == curr && !curr.visited && Reached(curr)
    ensures SearchInv(g[curr.pos := curr.(visited := true)], start, goal, nbrs)
  {
    var m := g[curr.pos := curr.(visited := true)];
    ReachedHasScore(g, start, goal, nbrs, curr.pos);
    assert m.Keys == g.Keys;
    forall p | p in m
      ensures m[p].pos == p
      ensures Linked(m, p, goal, nbrs)
      ensures p != start && m[p].previousPos.None? ==> m[p].score == U32Max && !Reached(m[p]) && !m[p].visited
      ensures m[p].visited ==> Reached(m[p])
    {
      assert Linked(g, p, goal, nbrs);
      if p != curr.pos {
        assert m[p] == g[p];
      }
    }
  }

  /** Relaxing the neighbours of a visited node keeps the invariant. */
  lemma RelaxKeepsInv(m: Graph, start: TilePos, goal: TilePos, nbrs: Neighbours, curr: Node)
    requires SearchInv(m, start, goal, nbrs)
    requires curr.pos in m && m[curr.pos] == curr.(visited := true)
    ensures SearchInv(RelaxAll(m, curr, goal, nbrs(curr.pos)), start, goal, nbrs)
  {
    var r := RelaxAll(m, curr, goal, nbrs(curr.pos));
    forall p | p in r
      ensures Linked(r, p, goal, nbrs)
    {
      if r[p] == m[p] {
        assert Linked(m, p, goal, nbrs);
      }
    }
  }

  /** One round of the search, as far as the progress facts go. */
  lemma VisitMakesProgress(g: Graph, visited: set<TilePos>, start: TilePos, goal: TilePos,
                           nbrs: Neighbours, curr: Node)
    requires SearchInv(g, start, goal, nbrs) && Progress(g, visited, start, nbrs)
    requires curr.pos in g && g[curr.pos] == curr && !curr.visited && Reached(curr)
    ensures curr.pos !in visited
    ensures Progress(Visit(g, curr, goal, nbrs), visited + {curr.pos}, start, nbrs)
  {
    var m := g[curr.pos := g[curr.pos].(visited := true)];
    var r := Visit(g, curr, goal, nbrs);
    var vs := visited + {curr.pos};
    ReachedHasScore(g, start, goal, nbrs, curr.pos);
    assert |vs| == |visited| + 1;
    forall q, n | q in r && r[q].visited && n in nbrs(q) && n in r && n != q
      ensures r[n].visited || r[n].score <= r[q].score + 1
    {
      if q != curr.pos {
        assert g[q].visited && m[q] == g[q] && r[q] == g[q];
        assert r[n].score <= m[n].score;
      }
    }
    forall p | p in r && (p == start || r[p].previousPos.Some?)
      ensures r[p].score <= |vs|
    {
      if r[p] == m[p] && p != curr.pos {
        assert p == start || g[p].previousPos.Some?;
      }
    }
  }

  /** One round of the search keeps the invariant and makes progress. */
  lemma VisitPreserves(g: Graph, visited: set<TilePos>, start: TilePos, goal: TilePos,
                       nbrs: Neighbours, curr: Node)
    requires SearchInv(g, start, goal, nbrs) && Progress(g, visited, start, nbrs)
    requires curr.pos in g && g[curr.pos] == curr && !curr.visited && Reached(curr)
    ensures SearchInv(Visit(g, curr, goal, nbrs), start, goal, nbrs)
    ensures Progress(Visit(g, curr, goal, nbrs), visited + {curr.pos}, start, nbrs)
    ensures curr.pos !in visited
  {
    MarkKeepsInv(g, start, goal, nbrs, curr);
    RelaxKeepsInv(g[curr.pos := curr.(visited := true)], start, goal, nbrs, curr);
    VisitMakesProgress(g, visited, start, goal, nbrs, curr);
  }

  // ---------------------------------------------------------------------------
  // Reconstruction
  // ---------------------------------------------------------------------------

  /**
    Route reconstruction (src/pathfinding.rs:178-189): the goal, then the tiles
    reached by following predecessor links, leaving out the start tile.
  */
  method Reconstruct(g: Graph, start: TilePos, goal: TilePos, nbrs: Neighbours, curr: Node)
    returns (v: seq<TilePos>)
    requires SearchInv(g, start, goal, nbrs)
    requires curr.pos in g && g[curr.pos] == curr.(visited := true)
    ensures |v| >= 1 && v[0] == curr.pos
    ensures forall i :: 0 <= i < |v| ==> v[i] in g && g[v[i]].score + i == curr.score
    ensures forall i :: 0 <= i < |v| - 1 ==> g[v[i]].previousPos == Some(v[i + 1])
    ensures curr.pos == start ==> v == [start]
    ensures curr.pos != start ==> start !in v && g[v[|v| - 1]].previousPos == Some(start)
  {
    v := [curr.pos];
    var otp := curr.previousPos;
    assert curr.pos == start ==> otp.None?;
    assert Linked(g, curr.pos, goal, nbrs);
    while otp.Some?
      invariant |v| >= 1 && v[0] == curr.pos
      invariant forall i :: 0 <= i < |v| ==> v[i] in g && g[v[i]].visited && g[v[i]].score + i == curr.score
      invariant forall i :: 0 <= i < |v| - 1 ==> g[v[i]].previousPos == Some(v[i + 1])
      invariant curr.pos != start ==> start !in v
      invariant curr.pos == start ==> v == [start] && otp.None?
      invariant otp.Some? ==> otp.value in g
      invariant g[v[|v| - 1]].previousPos == otp
                || (otp.None? && g[v[|v| - 1]].previousPos == Some(start))
      decreases if otp.Some? then g[otp.value].score + 1 else 0
    {
      var tp := otp.value;
      assert Linked(g, v[|v| - 1], goal, nbrs);
      if tp != start {
        v := v + [tp];
      }
      assert Linked(g, tp, goal, nbrs);
      otp := g[tp].previousPos;
    }
    assert Linked(g, v[|v| - 1], goal, nbrs);
  }

  // ---------------------------------------------------------------------------
  // Routes and reachability
  // ---------------------------------------------------------------------------

  /** A walk: consecutive tiles are reported neighbours, and every tile exists. */
  ghost predicate IsWalk(w: seq<TilePos>, walkable: set<TilePos>, nbrs: Neighbours) {
    && |w| > 0
    && (forall i :: 0 <= i < |w| ==> w[i] in walkable)
    && (forall i :: 0 < i < |w| ==> w[i] in nbrs(w[i - 1]))
  }

  ghost predicate Reachable(walkable: set<TilePos>, nbrs: Neighbours, from: TilePos, to: TilePos) {
    exists w :: IsWalk(w, walkable, nbrs) && w[0] == from && w[|w| - 1] == to
  }

  /**
    A route for `d`, held goal-first: it starts at the goal, each tile is a
    neighbour of the one after it, no tile repeats, and it stops next to the
    start without containing it, or is just the goal when start and goal agree.
  */
  ghost predicate IsRoute(route: seq<TilePos>, d: Destination, walkable: set<TilePos>, nbrs: Neighbours) {
    && |route| >= 1 && route[0] == d.goal
    && (forall i :: 0 <= i < |route| ==> route[i] in walkable)
    && (forall i :: 0 <= i < |route| - 1 ==> route[i] in nbrs(route[i + 1]))
    && (forall i, j :: 0 <= i < j < |route| ==> route[i] != route[j])
    && (d.start == d.goal ==> route == [d.goal])
    && (d.start != d.goal ==> d.start !in route && route[|route| - 1] in nbrs(d.start))
  }

  function Reverse(s: seq<TilePos>): (r: seq<TilePos>)
    ensures |r| == |s| && forall i :: 0 <= i < |s| ==> r[i] == s[|s| - 1 - i]
  {
    if s == [] then [] else Reverse(s[1..]) + [s[0]]
  }

  /** Travelling a route backwards from the start is a walk from the start to the goal. */
  lemma RouteReaches(route: seq<TilePos>, d: Destination, walkable: set<TilePos>, nbrs: Neighbours)
    requires IsRoute(route, d, walkable, nbrs) && d.start in walkable
    ensures Reachable(walkable, nbrs, d.start, d.goal)
  {
    if d.start == d.goal {
      assert IsWalk([d.goal], walkable, nbrs);
    } else {
      var w := [d.start] + Reverse(route);
      assert forall i :: 0 < i < |w| ==> w[i] == route[|route| - i];
      assert IsWalk(w, walkable, nbrs);
      assert w[|w| - 1] == d.goal;
    }
  }

  /** A neighbour-closed set of tiles holding the start holds all of every walk from the start. */
  lemma {:induction false} WalkStaysInside(w: seq<TilePos>, walkable: set<TilePos>, nbrs: Neighbours,
                                           inside: set<TilePos>, k: nat)
    requires IsWalk(w, walkable, nbrs) && w[0] in inside && k < |w|
    requires forall q, n :: q in inside && n in nbrs(q) && n in walkable ==> n in inside
    ensures w[k] in inside
  {
    if k > 0 {
      WalkStaysInside(w, walkable, nbrs, inside, k - 1);
      assert w[k] in nbrs(w[k - 1]);
    }
  }

  /** No walk leaves a neighbour-closed set of tiles. */
  lemma ClosedUnreachable(walkable: set<TilePos>, nbrs: Neighbours, inside: set<TilePos>,
                          from: TilePos, to: TilePos)
    requires from in inside && to !in inside
    requires forall q, n :: q in inside && n in nbrs(q) && n in walkable ==> n in inside
    ensures !Reachable(walkable, nbrs, from, to)
  {
    if Reachable(walkable, nbrs, from, to) {
      var w :| IsWalk(w, walkable, nbrs) && w[0] == from && w[|w| - 1] == to;
      WalkStaysInside(w, walkable, nbrs, inside, |w| - 1);
    }
  }

  /**
    Costs and estimates stay below `u32::MAX`: every tile's distance to the goal
    plus one more than the number of tiles is below it.
  */
  ghost predicate NoOverflow(walkable: set<TilePos>, goal: TilePos) {
    forall t :: t in walkable ==> |walkable| + 1 + Heuristic(t, goal) < U32Max
  }

  lemma SubsetCard<T>(a: set<T>, b: set<T>)
    requires a <= b
    ensures |a| <= |b|
  {
    assert b == a + (b - a);
    assert a * (b - a) == {};
  }

  /** An unvisited neighbour of a visited node has been given a priority below the sentinel. */
  lemma NeighbourReached(g: Graph, visited: set<TilePos>, start: TilePos, goal: TilePos, nbrs: Neighbours,
                         q: TilePos, n: TilePos)
    requires SearchInv(g, start, goal, nbrs) && Progress(g, visited, start, nbrs)
    requires NoOverflow(g.Keys, goal)
    requires q in g && g[q].visited && n in nbrs(q) && n in g && n != q
    ensures g[n].visited || Reached(g[n])
  {
    SubsetCard(visited, g.Keys);
    if !g[n].visited {
      ReachedHasScore(g, start, goal, nbrs, q);
      assert Linked(g, n, goal, nbrs);
      assert g[n].score <= |g.Keys| + 1;
    }
  }

  /**
    When no unvisited node is left with a priority below the sentinel, the
    visited tiles hold the start and are closed under the neighbour relation.
  */
  lemma ExhaustedIsClosed(g: Graph, visited: set<TilePos>, start: TilePos, goal: TilePos, nbrs: Neighbours)
    requires SearchInv(g, start, goal, nbrs) && Progress(g, visited, start, nbrs)
    requires NoOverflow(g.Keys, goal)
    requires forall p :: p in g && !g[p].visited ==> !Reached(g[p])
    ensures start in visited
    ensures forall q, n :: q in visited && n in nbrs(q) && n in g.Keys ==> n in visited
  {
    forall q, n | q in visited && n in nbrs(q) && n in g.Keys
      ensures n in visited
    {
      if n != q {
        NeighbourReached(g, visited, start, goal, nbrs, q, n);
      }
    }
  }

  // ---------------------------------------------------------------------------
  // The search
  // ---------------------------------------------------------------------------

  /**
    `pathfinding` for one request: `None` when the request is dropped, or the
    route, goal first, that replaces it.  The ghost `rounds` counts the rounds
    of the search, each of which visits one node.
  */
  method FindPath(tiles: seq<TilePos>, nbrs: Neighbours, d: Destination)
    returns (route: Option<seq<TilePos>>, ghost rounds: nat)
    ensures (d.start !in tiles || d.goal !in tiles) ==> route.None?
    ensures route.Some? ==> d.start in tiles && d.goal in tiles
                            && IsRoute(route.value, d, Walkable(tiles), nbrs)
                            && Reachable(Walkable(tiles), nbrs, d.start, d.goal)
    ensures route.None? && d.start in tiles && d.goal in tiles && NoOverflow(Walkable(tiles), d.goal) ==>
              !Reachable(Walkable(tiles), nbrs, d.start, d.goal)
    ensures d.start == d.goal && d.goal in tiles ==> route == Some([d.goal])
    ensures rounds <= |Walkable(tiles)|
  {
    if d.goal !in tiles || d.start !in tiles {
      return None, 0;
    }
    var graph := InitGraph(tiles, d.start);
    InitEstablishes(tiles, d.start, d.goal, nbrs, graph);
    route, rounds := Search(graph, Walkable(tiles), d, nbrs);
  }

  /**
    The search loop of `pathfinding` (src/pathfinding.rs:120-198) over a node
    table that satisfies the invariant and has no visited node yet.
  */
  method Search(graph0: Graph, ghost w: set<TilePos>, d: Destination, nbrs: Neighbours)
    returns (route: Option<seq<TilePos>>, ghost rounds: nat)
    requires graph0.Keys == w && d.goal in w
    requires SearchInv(graph0, d.start, d.goal, nbrs) && Progress(graph0, {}, d.start, nbrs)
    ensures route.Some? ==> IsRoute(route.value, d, w, nbrs) && Reachable(w, nbrs, d.start, d.goal)
    ensures route.None? && NoOverflow(w, d.goal) ==> !Reachable(w, nbrs, d.start, d.goal)
    ensures d.start == d.goal ==> route == Some([d.goal])
    ensures rounds <= |w|
  {
    var graph := graph0;
    ghost var visited: set<TilePos> := {};
    rounds := 0;
    while true
      invariant graph.Keys == w
      invariant SearchInv(graph, d.start, d.goal, nbrs) && Progress(graph, visited, d.start, nbrs)
      invariant d.goal !in visited
      invariant rounds == |visited| <= |w|
      invariant d.start == d.goal ==> visited == {}
      decreases |w| - |visited|
    {
      var curr := SelectBest(graph);
      if Reached(curr) {
        ReachedHasScore(graph, d.start, d.goal, nbrs, curr.pos);
        if !graph[d.start].visited {
          FirstRoundSelectsStart(graph, d.start, d.goal, nbrs, curr.pos);
        }
      }
      if curr.pos == TilePos(0, 0) && curr.score == U32Max {
        // No unvisited node has a priority below the sentinel: drop the request.
        Exhausted(graph, visited, d, nbrs);
        return None, rounds;
      }
      graph := VisitNode(graph, visited, d.start, d.goal, nbrs, curr);
      visited := visited + {curr.pos};
      rounds := rounds + 1;
      SubsetCard(visited, w);
      if curr.pos == d.goal {
        var v := Reconstruct(graph, d.start, d.goal, nbrs, curr);
        RouteOfReconstruction(graph, d, w, nbrs, v);
        return Some(v), rounds;
      }
    }
  }

  /**
    One round of the search after selection (src/pathfinding.rs:140-177): the
    selected node is marked visited, then its neighbours are relaxed.
  */
  method VisitNode(graph: Graph, ghost visited: set<TilePos>, ghost start: TilePos, goal: TilePos,
                   nbrs: Neighbours, curr: Node)
    returns (next: Graph)
    requires SearchInv(graph, start, goal, nbrs) && Progress(graph, visited, start, nbrs)
    requires curr.pos in graph && graph[curr.pos] == curr && !curr.visited && Reached(curr)
    ensures next.Keys == graph.Keys && next[curr.pos] == curr.(visited := true)
    ensures forall p :: p in graph && p != curr.pos ==>
              next[p] == if p in nbrs(curr.pos) then Relaxed(graph[p], curr, goal) else graph[p]
    ensures forall p :: p in graph && graph[p].visited ==> next[p] == graph[p]
    ensures forall p :: p in graph ==> next[p].score <= graph[p].score
    ensures curr.pos !in visited
    ensures SearchInv(next, start, goal, nbrs) && Progress(next, visited + {curr.pos}, start, nbrs)
  {
    VisitPreserves(graph, visited, start, goal, nbrs, curr);
    next := graph[curr.pos := graph[curr.pos].(visited := true)];
    next := Relax(next, curr, goal, nbrs(curr.pos));
  }

  /** An exhausted search proves the goal unreachable when nothing overflows. */
  lemma Exhausted(g: Graph, visited: set<TilePos>, d: Destination, nbrs: Neighbours)
    requires SearchInv(g, d.start, d.goal, nbrs) && Progress(g, visited, d.start, nbrs)
    requires d.goal !in visited
    requires forall p :: p in g && !g[p].visited ==> !Reached(g[p])
    ensures NoOverflow(g.Keys, d.goal) ==> !Reachable(g.Keys, nbrs, d.start, d.goal)
  {
    if NoOverflow(g.Keys, d.goal) {
      ExhaustedIsClosed(g, visited, d.start, d.goal, nbrs);
      ClosedUnreachable(g.Keys, nbrs, visited, d.start, d.goal);
    }
  }

  /** The tiles gathered by reconstruction form a route for the request. */
  lemma RouteOfReconstruction(g: Graph, d: Destination, walkable: set<TilePos>, nbrs: Neighbours,
                              v: seq<TilePos>)
    requires SearchInv(g, d.start, d.goal, nbrs) && g.Keys == walkable
    requires |v| >= 1 && v[0] == d.goal && d.goal in g
    requires forall i :: 0 <= i < |v| ==> v[i] in g && g[v[i]].score + i == g[d.goal].score
    requires forall i :: 0 <= i < |v| - 1 ==> g[v[i]].previousPos == Some(v[i + 1])
    requires d.goal == d.start ==> v == [d.start]
    requires d.goal != d.start ==> d.start !in v && g[v[|v| - 1]].previousPos == Some(d.start)
    ensures IsRoute(v, d, walkable, nbrs) && Reachable(walkable, nbrs, d.start, d.goal)
  {
    forall i | 0 <= i < |v| - 1
      ensures v[i] in nbrs(v[i + 1])
    {
      assert Linked(g, v[i], d.goal, nbrs);
    }
    if d.goal != d.start {
      assert Linked(g, v[|v| - 1], d.goal, nbrs);
    }
    RouteReaches(v, d, walkable, nbrs);
  }

  // ---------------------------------------------------------------------------
  // The exhausted branch as written
  // ---------------------------------------------------------------------------

  /** The outcome of one round of the source's loop: go round again on a table, or a route. */
  datatype Round = Again(table: Graph) | Found(route: seq<TilePos>)

  /** No unvisited node has a priority below the sentinel. */
  ghost predicate NothingLeft(g: Graph) {
    forall p :: p in g && !g[p].visited ==> !Reached(g[p])
  }

  /**
    One round of the loop as the source writes it (src/pathfinding.rs:122-197):
    when selection finds nothing, the request is removed but the loop goes on
    with the same table instead of ending.
  */
  method RoundAsWritten(graph: Graph, ghost visited: set<TilePos>, d: Destination, nbrs: Neighbours)
    returns (outcome: Round)
    requires SearchInv(graph, d.start, d.goal, nbrs) && Progress(graph, visited, d.start, nbrs)
    ensures NothingLeft(graph) ==> outcome == Again(graph)
    ensures !NothingLeft(graph) ==>
              exists c: Node ::
                && c.pos in graph && graph[c.pos] == c && !c.visited && Reached(c)
                && (forall p :: p in graph && !graph[p].visited ==> c.heuristicScore <= graph[p].heuristicScore)
                && (if c.pos == d.goal then outcome.Found? else outcome == Again(Visit(graph, c, d.goal, nbrs)))
    ensures outcome.Found? ==> |outcome.route| >= 1 && outcome.route[0] == d.goal
  {
    var curr := SelectBest(graph);
    if Reached(curr) {
      ReachedHasScore(graph, d.start, d.goal, nbrs, curr.pos);
    }
    if curr.pos == TilePos(0, 0) && curr.score == U32Max {
      return Again(graph);
    }
    outcome := FinishRound(graph, visited, d, nbrs, curr);
  }

  /** The rest of a round once a node is selected: visit it, then stop at the goal or go round again. */
  method FinishRound(graph: Graph, ghost visited: set<TilePos>, d: Destination, nbrs: Neighbours, curr: Node)
    returns (outcome: Round)
    requires SearchInv(graph, d.start, d.goal, nbrs) && Progress(graph, visited, d.start, nbrs)
    requires curr.pos in graph && graph[curr.pos] == curr && !curr.visited && Reached(curr)
    ensures curr.pos == d.goal ==> outcome.Found? && |outcome.route| >= 1 && outcome.route[0] == d.goal
    ensures curr.pos != d.goal ==> outcome == Again(Visit(graph, curr, d.goal, nbrs))
  {
    var next := VisitNode(graph, visited, d.start, d.goal, nbrs, curr);
    SameAsVisit(graph, curr, d.goal, nbrs, next);
    if curr.pos == d.goal {
      var v := Reconstruct(next, d.start, d.goal, nbrs, curr);
      return Found(v);
    }
    return Again(next);
  }

  /**
    `rounds` passes of the source's loop from an exhausted table: every pass
    comes back to the same table, so the loop never leaves.
  */
  method RunAsWritten(graph: Graph, ghost visited: set<TilePos>, d: Destination, nbrs: Neighbours, rounds: nat)
    returns (outcome: Round)
    requires SearchInv(graph, d.start, d.goal, nbrs) && Progress(graph, visited, d.start, nbrs)
    requires NothingLeft(graph)
    ensures outcome == Again(graph)
  {
    outcome := Again(graph);
    var i := 0;
    while i < rounds
      invariant outcome == Again(graph)
    {
      outcome := RoundAsWritten(outcome.table, visited, d, nbrs);
      i := i + 1;
    }
  }

  /** Two tiles with no adjacency between them, searched from (1, 1) towards (5, 5). */
  function DisconnectedNbrs(): Neighbours {
    (t: TilePos) => []
  }

  /** The table after the first round of that search: the start is visited and nothing else is reached. */
  function DisconnectedTable(): Graph {
    map[TilePos(1, 1) := StartNode(TilePos(1, 1)).(visited := true), TilePos(5, 5) := NewNode(TilePos(5, 5))]
  }

  /**
    The disconnected request leaves the as-written loop with a table that
    satisfies everything `RunAsWritten` asks for, with the goal not visited.
  */
  lemma DisconnectedIsStuck()
    ensures var d := Destination(TilePos(1, 1), TilePos(5, 5));
            && SearchInv(DisconnectedTable(), d.start, d.goal, DisconnectedNbrs())
            && Progress(DisconnectedTable(), {TilePos(1, 1)}, d.start, DisconnectedNbrs())
            && NothingLeft(DisconnectedTable())
            && !DisconnectedTable()[d.goal].visited
  {
    var g := DisconnectedTable();
    var d := Destination(TilePos(1, 1), TilePos(5, 5));
    assert g.Keys == {TilePos(1, 1), TilePos(5, 5)};
    forall p | p in g
      ensures Linked(g, p, d.goal, DisconnectedNbrs())
    {
    }
  }

  /**
    The disconnected request through the loop as written: the node table is
    built, the first round visits the start and finds no neighbour, and from
    then on every round comes back to the same table, however many are run.
  */
  method DisconnectedAsWritten(rounds: nat) returns (outcome: Round)
    ensures outcome == Again(DisconnectedTable())
  {
    var d := Destination(TilePos(1, 1), TilePos(5, 5));
    var tiles := [TilePos(1, 1), TilePos(5, 5)];
    var graph := InitGraph(tiles, d.start);
    InitEstablishes(tiles, d.start, d.goal, DisconnectedNbrs(), graph);
    assert Walkable(tiles) == {TilePos(1, 1), TilePos(5, 5)};
    assert !NothingLeft(graph) by {
      assert TilePos(1, 1) in graph && !graph[TilePos(1, 1)].visited && Reached(graph[TilePos(1, 1)]);
    }
    var first := RoundAsWritten(graph, {}, d, DisconnectedNbrs());
    DisconnectedFirstRound(graph, first);
    DisconnectedIsStuck();
    outcome := RunAsWritten(first.table, {TilePos(1, 1)}, d, DisconnectedNbrs(), rounds);
  }

  /** The first round of the disconnected request can only select the start, and leaves `DisconnectedTable`. */
  lemma DisconnectedFirstRound(graph: Graph, first: Round)
    requires graph == map[TilePos(1, 1) := StartNode(TilePos(1, 1)), TilePos(5, 5) := NewNode(TilePos(5, 5))]
    requires exists c: Node ::
               && c.pos in graph && graph[c.pos] == c && !c.visited && Reached(c)
               && (if c.pos == TilePos(5, 5) then first.Found?
                   else first == Again(Visit(graph, c, TilePos(5, 5), DisconnectedNbrs())))
    ensures first == Again(DisconnectedTable())
  {
    var c: Node :| && c.pos in graph && graph[c.pos] == c && !c.visited && Reached(c)
                   && (if c.pos == TilePos(5, 5) then first.Found?
                       else first == Again(Visit(graph, c, TilePos(5, 5), DisconnectedNbrs())));
    assert c.pos == TilePos(1, 1);
    assert Visit(graph, c, TilePos(5, 5), DisconnectedNbrs()) == DisconnectedTable();
  }

  /** The same disconnected request through `FindPath`: it ends with the request dropped. */
  method DisconnectedDropped() returns (route: Option<seq<TilePos>>)
    ensures route == None
  {
    var d := Destination(TilePos(1, 1), TilePos(5, 5));
    var tiles := [TilePos(1, 1), TilePos(5, 5)];
    ClosedUnreachable(Walkable(tiles), DisconnectedNbrs(), {d.start}, d.start, d.goal);
    ghost var rounds;
    route, rounds := FindPath(tiles, DisconnectedNbrs(), d);
  }

  // ---------------------------------------------------------------------------
  // Requests on a four-neighbour grid
  // ---------------------------------------------------------------------------

  /** The tiles sharing an edge with `t` (those with a negative coordinate do not exist). */
  function Grid4(t: TilePos): seq<TilePos> {
    [TilePos(t.x + 1, t.y), TilePos(t.x, t.y + 1)]
    + (if t.x > 0 then [TilePos(t.x - 1, t.y)] else [])
    + (if t.y > 0 then [TilePos(t.x, t.y - 1)] else [])
  }

  /**
    On a four-neighbour grid the estimate is consistent: one step to a
    neighbour lowers the estimate by at most the one unit the step costs.
  */
  lemma Grid4Consistent(t: TilePos, n: TilePos, goal: TilePos)
    requires n in Grid4(t)
    ensures Heuristic(t, n) == 1
    ensures Heuristic(t, goal) <= 1 + Heuristic(n, goal)
  {
    assert Heuristic(t, n) == 1;
    HeuristicTriangle(t, n, goal);
  }

  /** A straight row of four tiles, from (0, 0) to (3, 0). */
  function Row(): seq<TilePos> {
    [TilePos(0, 0), TilePos(1, 0), TilePos(2, 0), TilePos(3, 0)]
  }

  /** The row is walked end to end, and its costs stay far below the sentinel. */
  lemma RowFacts()
    ensures Reachable(Walkable(Row()), Grid4, TilePos(0, 0), TilePos(3, 0))
    ensures NoOverflow(Walkable(Row()), TilePos(3, 0))
  {
    var w := Walkable(Row());
    assert w == {TilePos(0, 0), TilePos(1, 0), TilePos(2, 0), TilePos(3, 0)};
    assert |w| == 4;
    assert IsWalk(Row(), w, Grid4);
  }

  /** The only route along the row from (0, 0) to (3, 0). */
  lemma RowRoute(r: seq<TilePos>)
    requires IsRoute(r, Destination(TilePos(0, 0), TilePos(3, 0)), Walkable(Row()), Grid4)
    ensures r == [TilePos(3, 0), TilePos(2, 0), TilePos(1, 0)]
  {
    assert Walkable(Row()) == {TilePos(0, 0), TilePos(1, 0), TilePos(2, 0), TilePos(3, 0)};
    assert |r| >= 2;
    assert r[0] in Grid4(r[1]);
    assert r[1] == TilePos(2, 0);
    assert |r| >= 3;
    assert r[1] in Grid4(r[2]) && r[2] != r[0];
    assert r[2] == TilePos(1, 0);
    assert |r| == 3;
  }

  /** What `FindPath` promises for the request along the row leaves only one answer. */
  lemma RowAnswer(route: Option<seq<TilePos>>)
    requires route.Some? ==> IsRoute(route.value, Destination(TilePos(0, 0), TilePos(3, 0)), Walkable(Row()), Grid4)
    requires route.None? && NoOverflow(Walkable(Row()), TilePos(3, 0)) ==>
               !Reachable(Walkable(Row()), Grid4, TilePos(0, 0), TilePos(3, 0))
    ensures route == Some([TilePos(3, 0), TilePos(2, 0), TilePos(1, 0)])
  {
    RowFacts();
    RowRoute(route.value);
  }

  /** A request along the row gets the row itself as its route, goal first, without the start. */
  method StraightLine() returns (route: Option<seq<TilePos>>)
    ensures route == Some([TilePos(3, 0), TilePos(2, 0), TilePos(1, 0)])
  {
    var d := Destination(TilePos(0, 0), TilePos(3, 0));
    var tiles := Row();
    assert d.start in tiles && d.goal in tiles;
    ghost var rounds;
    route, rounds := FindPath(tiles, Grid4, d);
    RowAnswer(route);
  }

  /** A request whose goal is not a tile is dropped without a search. */
  method MissingGoal() returns (route: Option<seq<TilePos>>)
    ensures route == None
  {
    var tiles := [TilePos(0, 0), TilePos(1, 0)];
    ghost var rounds;
    route, rounds := FindPath(tiles, Grid4, Destination(TilePos(0, 0), TilePos(5, 5)));
  }
}
