# Tile-grid route search and build mode, in Dafny

This project models two parts of a small tile-map game.

1. **Route search** (`pathfinding.dfy`, module `Pathfinding`). The game system
   `pathfinding` takes a route request `Destination { start, goal }` and does
   the following:
   - It drops the request when either end is not an existing tile.
   - Otherwise it builds a fresh node table with one `Node` per distinct tile.
     The start node has cost and priority 0. Every other node starts at the
     `u32::MAX` sentinel.
   - Each round selects the unvisited node with the lowest priority by a
     minimum fold over the table and marks it visited.
   - It then relaxes the node's reported neighbours. A neighbour's cost is one
     more than the selected node's. Its priority is that cost plus the
     Manhattan distance to the goal.
   - When the goal is selected, it rebuilds the route from the predecessor
     links. The route is held goal first and leaves out the start tile.

   The model is imperative where the source is:
   - the table is built by a loop (`InitGraph`);
   - selection is a loop over the map (`SelectBest`);
   - relaxation is a loop over the neighbours (`Relax`);
   - reconstruction follows the links in a loop (`Reconstruct`);
   - the search itself is a loop (`Search`).

   Each method is proved against predicates on the node table:
   - `SearchInv`: the predecessor links are sound and the sentinels are in
     place.
   - `Progress`: the visited set, the neighbour frontier, and a cost bound.

   Soundness is proved outright: every returned route is a route for the
   request, and the goal is reachable from the start. Completeness is proved
   when no cost or priority reaches `u32::MAX` (`NoOverflow`): a dropped
   request has an unreachable goal.

2. **Build mode** (`tile_editor.dfy`, module `TileEditor`). The `BuildMode`
   resource holds the tile name a click places, the active layer and the index
   of the placement method. The `on_keypress` system updates it in place
   through one else-if chain over the keys pressed in this frame. The resource
   is a class whose method `OnKeypress` is proved equal to the pure transition
   `KeyPress`.

The tile map is an input, not state:
- The enumeration of tile positions is the sequence `tiles`.
- The neighbour query of the tile map is a function parameter `nbrs`.
- The test "is there a tile at this position on layer 0" is membership in
  `tiles`.

This identification holds because the program builds a single map with a
single layer, layer 0 (src/tiles.rs:75-102). So the tiles of every layer that
`tile_query` enumerates are the layer-0 tiles that the existence test and the
neighbour query look at.

The map's iteration order is unspecified, so the minimum fold takes the nodes
in an arbitrary order. Ties go to the first one it meets.

When no selectable node is left, the code's comment "No path found, bail"
(src/pathfinding.rs:135) says the search should stop. Instead the code removes
the request and continues its own `loop` on an unchanged table, which never
ends (see Findings). The model's `Search` stops and returns `None`.
`RoundAsWritten`, `RunAsWritten` and `DisconnectedAsWritten` model the code as
written.

## Model

| member | source | states |
|---|---|---|
| Pathfinding.NewNode | src/pathfinding.rs:39-47 | a fresh node is unvisited, has no predecessor, has cost and priority equal to the sentinel, and so is never selected |
| Pathfinding.StartNode | src/pathfinding.rs:103-111 | the seeded start node has cost 0 and priority 0, is selectable and unvisited, and has no predecessor |
| Pathfinding.Heuristic | src/pathfinding.rs:202-204 | the Manhattan estimate is 0 exactly when the tile is the target |
| Pathfinding.HeuristicSymmetric | src/pathfinding.rs:202-204 | the estimate does not depend on the order of the two tiles |
| Pathfinding.HeuristicTriangle | src/pathfinding.rs:202-204 | the estimate obeys the triangle inequality |
| Pathfinding.Score | src/pathfinding.rs:206-208 | stepping to a neighbour costs strictly more than the current node |
| Pathfinding.Relaxed | src/pathfinding.rs:163-175 | relaxing keeps position and visited flag and never raises the cost; the node changes exactly when it is unvisited and the new cost is strictly lower, so a tie keeps the first predecessor; a changed node costs one more than the selected node, points back to it and has priority cost plus estimate; an unvisited node ends no dearer than that |
| Pathfinding.RelaxedIdempotent | src/pathfinding.rs:163-175 | relaxing again through the same node changes nothing more |
| Pathfinding.RelaxAll | src/pathfinding.rs:147-177 | relaxing a list of neighbours keeps the keys; leaves visited, selected and unlisted nodes alone; never raises a cost; a listed node changes exactly when it is unvisited and strictly improved; every changed node is linked to the selected node with cost one more |
| Pathfinding.Relax | src/pathfinding.rs:147-177 | the neighbour loop, with its skips of the selected tile and of missing or visited nodes, yields exactly `RelaxAll` |
| Pathfinding.RelaxStep | src/pathfinding.rs:158-176 | one more listed neighbour relaxes one more node; a repeated or self neighbour or a missing node changes nothing |
| Pathfinding.InitGraph | src/pathfinding.rs:100-118 | the table has exactly the tiles plus the start as keys, the start node seeded, every other node fresh, whatever the repetitions in the enumeration |
| Pathfinding.SelectBest | src/pathfinding.rs:122-132 | the fold returns an unvisited node of the table with the lowest priority, or the fresh (0, 0) node exactly when no unvisited node is selectable |
| Pathfinding.InitEstablishes | src/pathfinding.rs:100-118 | the initial table satisfies the search invariant and the progress facts with nothing visited |
| Pathfinding.ReachedHasScore | src/pathfinding.rs:134 | a selectable node costs less than the sentinel, so the no-path test never fires on a real tile at (0, 0) |
| Pathfinding.FirstRoundSelectsStart | src/pathfinding.rs:122-132 | while the start is unvisited no other node has priority as low as it, so the first round selects the start |
| Pathfinding.Visit | src/pathfinding.rs:140-177 | one round's table keeps its keys; the selected node is marked visited; every other node keeps its visited flag and no cost rises; nodes that are not listed neighbours are unchanged |
| Pathfinding.SameAsVisit | src/pathfinding.rs:140-177 | a table that marks the selected node and relaxes exactly its listed neighbours is `Visit` |
| Pathfinding.MarkKeepsInv | src/pathfinding.rs:141-144 | marking the selected node visited keeps the search invariant |
| Pathfinding.RelaxKeepsInv | src/pathfinding.rs:147-177 | relaxing the neighbours of the visited node keeps the search invariant |
| Pathfinding.VisitMakesProgress | src/pathfinding.rs:140-177 | a round visits a node not visited before and keeps the frontier and cost-bound facts for the grown visited set |
| Pathfinding.VisitPreserves | src/pathfinding.rs:140-177 | one round keeps the search invariant and the progress facts |
| Pathfinding.VisitNode | src/pathfinding.rs:140-177 | the round's table keeps its keys, marks the selected node visited, relaxes each listed neighbour and leaves every other node unchanged, never raises a cost, and satisfies both invariants |
| Pathfinding.Reconstruct | src/pathfinding.rs:178-189 | the rebuilt list starts at the goal, follows predecessor links with costs falling by one per step, never holds the start, ends next to the start, and is just the goal when start and goal agree |
| Pathfinding.RouteOfReconstruction | src/pathfinding.rs:178-194 | the rebuilt list is a route for the request: existing tiles, adjacent steps, no repeats, no start tile, goal first |
| Pathfinding.RouteReaches | src/pathfinding.rs:178-189 | a route, read backwards from the start, is a walk from the start to the goal |
| Pathfinding.WalkStaysInside | src/pathfinding.rs:134-138 | a walk from inside a neighbour-closed set of tiles never leaves it |
| Pathfinding.ClosedUnreachable | src/pathfinding.rs:134-138 | no tile outside a neighbour-closed set is reachable from inside it |
| Pathfinding.NeighbourReached | src/pathfinding.rs:163-175 | absent overflow, every neighbour of a visited node is visited or selectable |
| Pathfinding.ExhaustedIsClosed | src/pathfinding.rs:134-138 | when nothing is selectable, the visited tiles hold the start and are closed under the neighbour relation |
| Pathfinding.Exhausted | src/pathfinding.rs:134-138 | an exhausted search, absent overflow, means the goal is unreachable |
| Pathfinding.Search | src/pathfinding.rs:120-198 | the loop ends; a route it returns is a route for the request and the goal is reachable; when it gives up without overflow the goal is unreachable; start equal to goal gives the one-tile route; it runs at most one round per tile |
| Pathfinding.FindPath | src/pathfinding.rs:86-200 | a request with a missing start or goal is dropped; otherwise as `Search`: sound routes, completeness absent overflow, the trivial route when start equals goal, and at most one round per tile |
| Pathfinding.RoundAsWritten | src/pathfinding.rs:120-197 | one round of the loop as written: on an exhausted table it goes round again on the same table; otherwise it selects an unvisited node of lowest priority and either finds a route at the goal or goes round again on `Visit` of the table |
| Pathfinding.FinishRound | src/pathfinding.rs:140-197 | once a node is selected, the round ends with a route starting at the goal if it is the goal, and otherwise goes round again on `Visit` of the table |
| Pathfinding.RunAsWritten | src/pathfinding.rs:134-138 | any number of rounds of the loop as written, from an exhausted table, come back to that same table and never produce an outcome |
| Pathfinding.DisconnectedIsStuck | src/pathfinding.rs:134-138 | the table of two tiles without adjacency with the start visited is exhausted, has the goal unvisited and satisfies both invariants |
| Pathfinding.DisconnectedFirstRound | src/pathfinding.rs:120-177 | the first round on the freshly built table of the two tiles can only select the start, and it leaves that table |
| Pathfinding.DisconnectedAsWritten | src/pathfinding.rs:100-198 | the request from (1, 1) to (5, 5) over two tiles without adjacency, run through the loop as written: the table is built, the first round leaves the exhausted table, and any number of further rounds come back to it |
| Pathfinding.DisconnectedDropped | src/pathfinding.rs:134-138 | the same disconnected request ends with the request dropped |
| Pathfinding.Grid4Consistent | src/pathfinding.rs:202-204 | on a four-neighbour grid a step is at estimate distance 1 and lowers the estimate by at most the unit it costs, so the estimate is consistent there |
| Pathfinding.RowFacts | src/pathfinding.rs:86-200 | on a row of four tiles the goal is reachable and nothing overflows |
| Pathfinding.RowRoute | src/pathfinding.rs:178-189 | the only route along the row from (0, 0) to (3, 0) is (3, 0), (2, 0), (1, 0) |
| Pathfinding.RowAnswer | src/pathfinding.rs:86-200 | what the search promises for the row leaves that route as the only possible answer |
| Pathfinding.StraightLine | src/pathfinding.rs:86-200 | a request along a row of four tiles gets the route (3, 0), (2, 0), (1, 0) |
| Pathfinding.MissingGoal | src/pathfinding.rs:93-98 | a request whose goal (5, 5) is no tile gets no route |
| TileEditor.Initial | src/tile_editor.rs:67-71 | the editor starts well formed, placing walls on layer 0 with the first placement method, `Place` |
| TileEditor.Chosen | src/tile_editor.rs:158-192 | the key the else-if chain acts on; no contract of its own, `ChosenIsFirstPressed` states what it is |
| TileEditor.Apply | src/tile_editor.rs:158-192 | what one branch of the chain does; no contract of its own, `SingleKey` states each branch |
| TileEditor.KeyPress | src/tile_editor.rs:158-192 | one run of the chain; no contract of its own, `OnKeypress` is proved equal to it and the lemmas below state its properties |
| TileEditor.ChosenIsFirstPressed | src/tile_editor.rs:158-192 | the chain acts on a key that was pressed, one that no other pressed key precedes in chain order, or on none |
| TileEditor.KeyPressWellFormed | src/tile_editor.rs:158-192 | a key press keeps tile name, layer and mode index in range, so the mode always indexes the placement methods |
| TileEditor.KeyPressChangesOneField | src/tile_editor.rs:158-192 | one run of the chain changes at most one field of the build mode |
| TileEditor.SingleKey | src/tile_editor.rs:158-192 | what each key alone does: letters pick a tile, Up and Down step the mode cyclically, 1 to 3 pick a layer, save, load and no key change nothing |
| TileEditor.IdleKeysChangeNothing | src/tile_editor.rs:182-192 | a frame with only save, load or untested keys pressed leaves the build mode alone |
| TileEditor.LaterKeyIgnored | src/tile_editor.rs:158-192 | a key later in the chain than a pressed key has no effect |
| TileEditor.UpDownInverse | src/tile_editor.rs:168-175 | Up then Down, and Down then Up, give back the original mode |
| TileEditor.DownIsPrevious | src/tile_editor.rs:170-175 | Down steps the mode one place back modulo the number of placement methods |
| TileEditor.UpCycles | src/tile_editor.rs:168-169 | n presses of Up advance the mode by n places modulo the number of placement methods |
| TileEditor.UpFullCycle | src/tile_editor.rs:168-169 | six presses of Up bring the mode back to where it was |
| TileEditor.EveryModeReachable | src/tile_editor.rs:168-169 | from any mode, every placement method is reached within five presses of Up |
| TileEditor.BuildMode.constructor | src/tile_editor.rs:67-71 | the inserted resource holds the initial settings and is well formed |
| TileEditor.BuildMode.OnKeypress | src/tile_editor.rs:152-193 | the resource afterwards holds `KeyPress` of its old settings and the pressed keys, and stays well formed |
| TileEditor.BuildMode.PlacementModeOf | src/tile_editor.rs:130 | a click on a well-formed resource always finds a placement method, and that method names the stored mode index and no other |

## Left out

- `path_highlight` (src/pathfinding.rs:50-84) repaints tiles through the tileset and tile placer, which are foreign rendering calls, so it is not modelled.
- The ECS side of `pathfinding` is the returned `Option`: `Some(route)` means the request is removed and a `TilePath` is attached; `None` means the request is removed. The `info!` diagnostics are not modelled.
- The model answers one request per call. The source `return`s from the whole system after the first route it finds (src/pathfinding.rs:196), so other requests of the same frame wait for a later frame. Frames are not modelled.
- Pathfinding.Search: the exhausted search returns `None`. The source loops forever instead (see Findings); `RunAsWritten` models the source as written.
- Pathfinding.FindPath: completeness is stated only under `NoOverflow`, because costs and priorities are unbounded naturals and `u32` overflow of `score + 1` and of the priority sum is not modelled.
- Pathfinding.Heuristic: the estimate is an unbounded natural; the `u32` sum of the two coordinate differences (src/pathfinding.rs:203) could overflow for coordinates near `u32::MAX`, and that is not modelled.
- Pathfinding.Score: the contract says the step costs more than the current node; the exact `+ 1` is stated by `Relaxed` and `RelaxAll`.
- The neighbour query of the tile map and the layer-0 existence test are foreign calls. They are the parameter `nbrs` and membership in `tiles`. A neighbour entity that does not resolve to a tile (the `NoSuchEntity` skip and `filter_map`) is a position with no node, which the relaxation loop skips in the same way.
- Shortest routes are not proved. On an open grid the route length would equal the Manhattan distance, but that depends on the adjacency the foreign neighbour query reports, and Manhattan distance is not a lower bound if diagonal neighbours are reported.
- The Walker that consumes a route is not modelled: it is not part of the search code.
- The Comma and Period branches of `on_keypress` (map save with `println!`, map load) are serialisation and I/O. They leave the build mode unchanged, and the model treats them that way.
- `on_tile_click`, the HUD, window and mouse helpers, the player, camera and tile-set set-up, and `main` are not part of this model.
- The layer is a `nat` limited to 0 to 2 by `WellFormed`, not a `u16`; the mode index is a `nat`, not a `usize`. No value the chain produces reaches those widths' limits.

## Findings

| source | as written | input that shows it | evidently intended | confidence | as-written member | corrected member |
|---|---|---|---|---|---|---|
| src/pathfinding.rs:134-138 | when selection finds no node, the request is removed and `continue` restarts the search's own `loop` on the unchanged table, so selection finds nothing again, forever | tiles (1, 1) and (5, 5) with no adjacency, request from (1, 1) to (5, 5): after the first round the table is a fixed point of the loop | end the search for this request ("No path found, bail") and go on | high, not executed | Pathfinding.DisconnectedAsWritten | Pathfinding.Search |
