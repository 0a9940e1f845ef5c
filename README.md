# Dijkstra-Editor: a Dafny model of the graph and path-finding engine

The Dijkstra-Editor is a PyQt desktop tool. The user draws nodes (`Knoten`) on a canvas. The nodes are joined in drawing order by edges (`Kante`). The user flags one node as start and one as end, and the editor finds the shortest route between them with Dijkstra's algorithm. The editor can also generate a random graph, drag selected nodes, and save and load the nodes as `.ens` files.

This project models the engine behind the widgets, one Dafny module per source file:

- `Geometry` (geometry.dfy): integer points, the 10x10 box overlap test, the edge weight
- `Core` (core.dfy, `modules/core.py`): `Knoten` as a class whose coordinate pair `SetX`/`SetY` update; `Kante` as a pair of node references
- `Utils` (utils.dfy, `modules/utils.py`): `rectangle_collide` on a node or a bare coordinate pair
- `ViewManagement` (view_manager.dfy, `modules/QGraphicsViewManager.py`): the canvas node list, the placement scan, the derived edge polyline, the hit tests
- `Graph` (graph.dfy): the weighted table the solver searches, walks through it and their weights
- `ShortestPath` (shortest_path.dfy): the state of the heap loop of `solve_graph`, its invariant, and the proof that it finds a shortest route
- `Solver` (solver.dfy, `modules/GraphSolver.py`): the neighbour table, the heap search and the walk back along predecessors
- `Generator` (generator.dfy, `modules/GraphGenerator.py`): random nodes, connection lists, edges, insertion into the canvas
- `Movement` (move_agent.dfy, `modules/MoveAgent.py`): selection and dragging with the same placement scan
- `Files` (file_manager.dfy, `modules/FileManager.py`): node records, save and load, the `.ens` file listing
- `MainWindow` (main_window.dfy, `main_window.py`): editor state, start/end picking and the button and mouse handlers
- `Options` (options.dfy): Python's `None`-or-value results

Code that updates state in place is modelled as classes with `modifies` clauses and loops with invariants:
- `Knoten`, `QGraphicsViewManager`, `GraphSolver`, `GraphGenerator`, `MoveAgent`, `FileManager` and `Editor` are classes.
- Each loop of the source is a `for` or `while` loop proved against a specification function.

Each method's `ensures` ties its result or new state to that function. Lemmas then prove what the function means:
- The placement scan `Snap` is a left fold over the nodes with no early exit. A point that overlaps nothing stays put. Otherwise it ends on the last node it overlapped at that node's turn in the scan. Because the scan never stops, a chain of nodes 9 pixels apart can drag a new node onto a node its own box never touched.
- The neighbour table (`NeighborTable`) holds exactly the first node at the other end of each edge, weighted by the distance. It is symmetric. A node that is not the first at its position can never be reached.
- `SolveGraph` reports a finite distance exactly when some walk leads from the start to the end. In that case the route it returns is a walk from the start to the end, the distance is the route's weight, and no walk weighs less. If the end is unreachable, the route is the end node alone and the distance is infinite. The nodes-traveled count is the total size of the neighbour rows of the popped non-end entries, stale pops included. That pop order starts with the start node, never holds the end, and is empty exactly when start and end coincide. It holds every node of the route but the end, and, when the end is unreachable, every node reachable from the start.
- Saving and then loading into an empty canvas reproduces every node's id, coordinates and flags, in order.
- A drag leaves unselected nodes where they were. Every moved node ends at the cursor less 5 pixels or where some node stood.

Weights are natural numbers in units of 0.0001 pixel. `calculate_distance` rounds the square root to 4 decimals, and `Distance` is proved to be the integer nearest to 10^4 times the Euclidean length.

## Model

| member | source | states |
|---|---|---|
| Geometry.Collide | modules/utils.py:20 | two 10x10 boxes overlap exactly when both coordinate differences are strictly below 10 |
| Geometry.CollideSymmetric | modules/utils.py:20 | swapping the two points never changes the overlap answer |
| Geometry.CollideReflexive | modules/utils.py:20 | every point overlaps itself |
| Geometry.TouchingBoxesDoNotCollide | modules/utils.py:20 | points exactly 10 apart on either axis do not overlap; points 9 apart on both axes do |
| Geometry.ISqrt | modules/GraphSolver.py:70 | the result is the largest natural number whose square does not exceed the input |
| Geometry.ISqrtBetween | modules/GraphSolver.py:70 | bisection of an interval whose ends bracket the square root finds the integer square root |
| Geometry.DistanceRounds | modules/GraphSolver.py:70 | the edge weight is the integer nearest to 10^4 times the Euclidean length, i.e. the length rounded to 4 decimals |
| Geometry.Distance | modules/GraphSolver.py:56-70 | the edge weight of `calculate_distance`: half of the integer square root of 4·10^8 times the squared length, rounded up, i.e. the length in units of 0.0001 pixel |
| Geometry.NearestFromRoot | modules/GraphSolver.py:70 | from the integer square root of 4N, rounding half of it up gives the integer nearest to the square root of N |
| Geometry.DistanceSymmetric | modules/GraphSolver.py:70 | the weight from a to b equals the weight from b to a |
| Geometry.DistanceZeroOnEqualPoints | modules/GraphSolver.py:70 | the weight between equal coordinates is 0 |
| Utils.RectangleCollide | modules/utils.py:6-23 | defined for every pair of operands (node or bare pair); true exactly when both coordinate differences are strictly below the box size |
| Utils.NodeOrPairAgree | modules/utils.py:10-18 | a node and the bare pair of its coordinates give the same answer on either side |
| Utils.RectangleCollideSymmetric | modules/utils.py:20 | argument order never changes the answer |
| Core.Knoten.constructor | modules/core.py:12-33 | a new node stands at the given position with a 10x10 box and is flagged neither start nor end |
| Core.Knoten.SetX | modules/core.py:35-44 | only the x coordinate changes, to the given value |
| Core.Knoten.SetY | modules/core.py:46-55 | only the y coordinate changes, to the given value |
| Core.Knoten.X | modules/core.py:72-78 | the node's x coordinate, `pos[0]` |
| Core.Knoten.Y | modules/core.py:80-86 | the node's y coordinate, `pos[1]` |
| Graph.WeightExtend | modules/GraphSolver.py:148-155 | extending a walk by a table edge gives a walk whose weight grows by that edge's weight |
| Graph.WeightPrefix | modules/GraphSolver.py:148-155 | every non-empty prefix of a walk is a walk that weighs no more |
| ViewManagement.Snap | modules/QGraphicsViewManager.py:40-44 | the placement scan: a left fold over the positions in list order that moves the point onto each position whose box overlaps it at that turn, with no early exit |
| ViewManagement.SnapCases | modules/QGraphicsViewManager.py:40-44 | a point overlapping no node keeps its position; otherwise it ends on a node it overlapped at that node's turn, and no later node overlaps that node |
| ViewManagement.SnapLands | modules/QGraphicsViewManager.py:40-44 | the scan ends at the starting point or at the position of one of the nodes |
| ViewManagement.SnapAppend | modules/QGraphicsViewManager.py:40-44 | scanning a joined node list is scanning the first part, then the second from where the first ended |
| ViewManagement.SnapDriftsAlongChains | modules/QGraphicsViewManager.py:40-44 | because the scan has no break, a point at (0,0) that overlaps (9,0) but not (18,0) ends at (18,0) |
| ViewManagement.Polyline | modules/QGraphicsViewManager.py:71-80 | n nodes give max(0, n-1) edges, and edge k runs from node k+1 to node k |
| ViewManagement.PolylineEndsAreNodes | modules/QGraphicsViewManager.py:75-78 | both ends of every derived edge stand on node positions |
| ViewManagement.FirstOverlap | modules/QGraphicsViewManager.py:94-98 | the result is the least index whose box overlaps, or None exactly when no box overlaps |
| ViewManagement.ObjectsOn | modules/QGraphicsViewManager.py:109-114 | the result holds only overlapping nodes of the list, and every overlapping node of the list |
| ViewManagement.ObjectsOnInOrder | modules/QGraphicsViewManager.py:109-114 | the result's nodes sit at strictly increasing indices of the list, so list order is kept |
| ViewManagement.IndexOf | modules/QGraphicsViewManager.py:130-132 | the result is the least index at exactly that position, or None exactly when no node stands there |
| ViewManagement.GraphicsViewManager.constructor | modules/QGraphicsViewManager.py:21-22 | the canvas starts with no nodes and no edges |
| ViewManagement.GraphicsViewManager.AddPoint | modules/QGraphicsViewManager.py:38-47 | exactly one new unflagged node is appended and the existing nodes keep their order; it stands where the placement scan takes the click less 5 pixels over the old positions; the edges are derived anew |
| ViewManagement.GraphicsViewManager.PlacePoint | modules/QGraphicsViewManager.py:38-44 | the new node is fresh, unflagged, and stands where the placement scan takes the base point over the given nodes |
| ViewManagement.GraphicsViewManager.GetLines | modules/QGraphicsViewManager.py:65-80 | the edges' end positions are the polyline of the node positions, and every end is a fresh copy |
| ViewManagement.GraphicsViewManager.GetClickedObject | modules/QGraphicsViewManager.py:94-98 | the first node, in list order, whose box overlaps the box at the unadjusted click point; None when there is none |
| ViewManagement.GraphicsViewManager.GetAllObjectsOnPos | modules/QGraphicsViewManager.py:100-114 | exactly the overlapping nodes, in list order |
| ViewManagement.GraphicsViewManager.FindObject | modules/QGraphicsViewManager.py:116-132 | the least index with exactly equal coordinates, or None when there is none |
| ViewManagement.GraphicsViewManager.RefreshScene | modules/QGraphicsViewManager.py:134-144 | the edge list becomes the polyline of the current nodes |
| ViewManagement.GraphicsViewManager.RedrawObjects | modules/QGraphicsViewManager.py:151-154 | the edge list becomes the polyline of the current nodes; node positions and flags are untouched |
| Solver.ScanLinesSpec | modules/GraphSolver.py:83-93 | after scanning all edges for the node at p, the row holds its old keys plus exactly the linked neighbours; each linked neighbour weighs the distance from p to it, and the other entries keep their weights |
| Solver.ScanLinesAt | modules/GraphSolver.py:84-93 | the same as ScanLinesSpec, for one neighbour index |
| Solver.ScanLines | modules/GraphSolver.py:84-93 | the edge scan of one node at p: for each edge in order, an edge whose pos1 equals p sets the entry of the first node at pos2 to the distance, else an edge whose pos2 equals p sets the entry of the first node at pos1 |
| Solver.NeighborTable | modules/GraphSolver.py:80-93 | one row per node index, each the edge scan of that node applied to an empty row |
| Solver.ScanLinesStep | modules/GraphSolver.py:85-93 | one more edge in the scan: the pos1 branch, else the pos2 branch, else no change |
| Solver.AddsSplit | modules/GraphSolver.py:84-93 | the neighbours added by an edge list are those added by all but its last edge, plus those added by the last edge |
| Solver.NeighborTableWellFormed | modules/GraphSolver.py:80-93 | the table has one row per node, and every neighbour index names a node |
| Solver.NeighborTableEntry | modules/GraphSolver.py:83-93 | a neighbour of node i is the first node at its position, an edge joins the two positions, and its weight is the distance between them |
| Solver.NeighborTableSymmetric | modules/GraphSolver.py:83-93 | when k is a neighbour of i, the first node at i's position is a neighbour of k with the same weight |
| Solver.LaterDuplicateUnreachable | modules/GraphSolver.py:86-91 | a node that is not the first at its position is never a neighbour, so no walk from another start reaches it |
| Solver.ScannedAppend | modules/GraphSolver.py:148-149 | popping one more node adds the size of its neighbour row to the count |
| Solver.RelaxImproves | modules/GraphSolver.py:151-155 | a strictly improving neighbour gets the new distance, the popped node as predecessor and one new heap entry |
| Solver.RelaxSkips | modules/GraphSolver.py:151-152 | a neighbour that does not strictly improve changes nothing |
| Solver.Relax | modules/GraphSolver.py:148-155 | after scanning the popped node's row, exactly the strictly improved neighbours have new distances, predecessors and heap entries; the count grows by the row size |
| Solver.Visit | modules/GraphSolver.py:142-155 | one heap turn keeps the loop invariant; popping the end stops the loop with a distance no walk undercuts; any other pop counts its whole row |
| Solver.GraphSolver.constructor | modules/GraphSolver.py:11-37 | one empty neighbour row per node index; both indices are 0 |
| Solver.GraphSolver.ExtractEndNodes | modules/GraphSolver.py:39-54 | the start and end indices are taken from the two (index, node) pairs |
| Solver.GraphSolver.SetNeighbors | modules/GraphSolver.py:80-93 | row i becomes the edge scan for node i applied to its old row |
| Solver.GraphSolver.ScanRow | modules/GraphSolver.py:84-93 | the row after scanning every edge in order for one node, as ScanLines describes |
| Solver.GraphSolver.SolveGraph | modules/GraphSolver.py:127-157 | the distance is finite exactly when the end is reachable; then the route is a walk from start to end whose weight is the distance, and no walk weighs less; otherwise the route is the end alone; the path lists the route's nodes; the count is the total row size of a pop order of non-end entries that starts at the start, is empty exactly when start is end, holds every route node but the end, and when the end is unreachable holds every node reachable from the start |
| Solver.GraphSolver.FinalizePathing | modules/GraphSolver.py:159-182 | the path follows the predecessor links from the end back to a node without one, in reverse, i.e. start first; the distance is the end's and the count is passed through |
| Solver.Account | modules/GraphSolver.py:142-149 | each non-end pop joins the pop order, so the count equals the row sizes of the popped nodes; the order starts with the start, never holds the end and holds every settled node; every turn settles a node or shrinks the heap |
| Solver.Reverse | modules/GraphSolver.py:181 | element i of the result is element n-1-i of the input |
| ShortestPath.MinExists | modules/GraphSolver.py:143 | a non-empty heap has a least entry in (distance, index) tuple order |
| ShortestPath.MinUnique | modules/GraphSolver.py:143 | a heap has at most one least entry in tuple order, so each pop is determined |
| ShortestPath.InitialState | modules/GraphSolver.py:135-140 | the start at distance 0, every other node at infinity, no predecessors and one heap entry (0, start) satisfy the loop invariant |
| ShortestPath.Cut | modules/GraphSolver.py:142-155 | every walk from the start to an unsettled node weighs at least the least heap entry |
| ShortestPath.StalePop | modules/GraphSolver.py:142-155 | popping an entry of an already settled node improves nothing and keeps the invariant |
| ShortestPath.SettlingFacts | modules/GraphSolver.py:148-155 | the facts about a first pop of an unsettled non-end node that the Settle lemmas use |
| ShortestPath.SettleShape | modules/GraphSolver.py:148-155 | settling a node keeps the start at 0 without predecessor and never changes a settled node's distance or predecessor |
| ShortestPath.SettleHeapSound | modules/GraphSolver.py:148-155 | no heap entry is below its node's distance after relaxing |
| ShortestPath.SettleFresh | modules/GraphSolver.py:148-155 | every unsettled node with a finite distance still has its current entry in the heap |
| ShortestPath.SettleBelowHeap | modules/GraphSolver.py:148-155 | no heap entry is below a settled node's distance |
| ShortestPath.SettleRelaxed | modules/GraphSolver.py:148-155 | every edge out of a settled node has been relaxed |
| ShortestPath.SettleOptimal | modules/GraphSolver.py:148-155 | a settled node's distance is at most the weight of every walk from the start to it |
| ShortestPath.SettlePred | modules/GraphSolver.py:148-155 | every predecessor link points to a node settled earlier whose distance plus the edge weight is the linked node's distance; the start never gets one |
| ShortestPath.SettlePop | modules/GraphSolver.py:142-155 | the first pop of an unsettled non-end node carries its current distance and settles it with the invariant kept |
| ShortestPath.PopOther | modules/GraphSolver.py:142-155 | any pop of a node other than the end keeps the invariant; a stale pop shrinks the heap and a first pop settles the node |
| ShortestPath.EndPop | modules/GraphSolver.py:142-146 | when the end is popped its distance equals the popped entry and no walk from the start to it weighs less |
| ShortestPath.ExhaustedSettled | modules/GraphSolver.py:142-155 | if the heap runs empty without popping the end, every node that some walk reaches from the start has been settled |
| ShortestPath.ChainSettled | modules/GraphSolver.py:151-155 | every node of the predecessor chain except the end was settled, since links only point to settled nodes |
| ShortestPath.Exhausted | modules/GraphSolver.py:142-155 | if the heap runs empty without popping the end, the end's distance is infinite and no walk reaches it |
| ShortestPath.PredDescends | modules/GraphSolver.py:177-179 | every predecessor link lowers the settle rank, so walking back from the end terminates |
| ShortestPath.ChainIsWalk | modules/GraphSolver.py:174-182 | a predecessor chain from the start to a node with a finite distance is a walk whose weight is that distance |
| ShortestPath.WeightTelescopes | modules/GraphSolver.py:151-154 | along links that each add their edge weight, the walk weighs the last distance minus the first |
| ShortestPath.ChainLink | modules/GraphSolver.py:151-154 | a predecessor link into a reached node is a table edge that accounts for that node's distance |
| ShortestPath.Conclude | modules/GraphSolver.py:142-182 | when the loop stops, the end's distance is finite exactly when it is reachable; the chain is then a least-weight walk of that weight; otherwise it is the end alone |
| Generator.Dedup | modules/GraphGenerator.py:55-59 | the kept connections are exactly the drawn indices, without repeats, no more than the draws, and the first draw is always kept |
| Generator.DedupOfDistinct | modules/GraphGenerator.py:55-59 | draws without repeats are kept unchanged |
| Generator.DedupIdempotent | modules/GraphGenerator.py:55-59 | deduplicating twice is deduplicating once |
| Generator.DedupAll | modules/GraphGenerator.py:52-61 | one connection list per node, each the deduplicated draws of that node |
| Generator.DedupInOrder | modules/GraphGenerator.py:55-59 | the kept connections are the first occurrences of the drawn indices, at strictly increasing draw positions |
| Generator.RowEdges | modules/GraphGenerator.py:71-75 | one edge per connection, in order, from the node to the connected node |
| Generator.GenEdges | modules/GraphGenerator.py:70-76 | the edges of all nodes in index order: each node's edges to its connections, in connection order, concatenated |
| Generator.GenEdgesSpec | modules/GraphGenerator.py:70-76 | an edge is emitted exactly when it joins a node to one of its connections |
| Generator.Interleave | modules/GraphGenerator.py:81-83 | twice as many nodes as edges: the first end of edge k at 2k, its second end at 2k+1 |
| Generator.EndsUnflaggedAppend | modules/GraphGenerator.py:70-76 | joining two edge lists without flagged ends gives an edge list without flagged ends |
| Generator.InterleaveUnflagged | modules/GraphGenerator.py:81-83 | appending the ends of unflagged edges to unflagged nodes adds no start and no end node |
| Generator.Flatten | modules/GraphGenerator.py:81-83 | twice as many positions as edges: the first end of edge k at 2k, its second end at 2k+1 |
| Generator.PositionsOfInterleave | modules/GraphGenerator.py:81-83 | the appended nodes stand at the edges' end positions, edge by edge |
| Generator.PolylineKeepsEdges | modules/GraphGenerator.py:81-84 | after insertion the derived polyline joins each generated edge's second end to its first end |
| Generator.GraphGenerator.constructor | modules/GraphGenerator.py:20-31 | start index 0, end index max_points-1, one empty connection list per index, no edges |
| Generator.GraphGenerator.GenerateNodes | modules/GraphGenerator.py:36-43 | exactly max_points distinct fresh nodes at the drawn coordinates; only the start index is flagged start, and the end index is flagged end unless it is also the start |
| Generator.GraphGenerator.SetConnections | modules/GraphGenerator.py:52-61 | every node's connection list is its deduplicated draws |
| Generator.GraphGenerator.CreateLines | modules/GraphGenerator.py:70-76 | existing edges are kept, and the appended edges are one per (node, connection) pair in order, made of fresh unflagged coordinate copies |
| Generator.GraphGenerator.RowLines | modules/GraphGenerator.py:71-76 | the edges of one node, one per connection, made of fresh unflagged copies |
| Generator.GraphGenerator.InsertToGraphicsView | modules/GraphGenerator.py:81-84 | the canvas gains the first then the second end of every edge, 2 x edges nodes at the edges' end positions, none flagged if none was before; the canvas edges are derived anew |
| Generator.GraphGenerator.AppendEnds | modules/GraphGenerator.py:81-83 | the insertion loop appends the first then the second end of every edge, in edge order |
| Movement.OtherPositions | modules/MoveAgent.py:53-56 | every listed position belongs to a canvas node other than the moved one |
| Movement.ScanFor | modules/MoveAgent.py:53-56 | the snap scan of one moved node over the canvas list: each entry overlapping the point so far moves it there, the moved node itself being tested at its own current position |
| Movement.ScanForSkipsSelf | modules/MoveAgent.py:53-56 | testing the moved node against itself never moves it, so its scan is the placement scan over the other nodes |
| Movement.ScanForLands | modules/MoveAgent.py:53-56 | a moved node ends at the cursor less 5 pixels or at another node's position |
| Movement.MoveAll | modules/MoveAgent.py:49-56 | moving the selection changes positions only, never which nodes exist |
| Movement.MoveAllKeepsUnselected | modules/MoveAgent.py:49-56 | a node that is not selected keeps its position |
| Movement.MoveAllLands | modules/MoveAgent.py:49-56 | after a drag every node stands where some node stood before, or at the cursor less 5 pixels |
| Movement.MoveAgent.constructor | modules/MoveAgent.py:15-16 | nothing is selected |
| Movement.MoveAgent.SelectObjects | modules/MoveAgent.py:27-28 | the selection becomes exactly the nodes overlapping the unadjusted cursor, in list order |
| Movement.MoveAgent.MoveSelectedObjects | modules/MoveAgent.py:49-57 | the node list is unchanged; every node stands where MoveAll puts it from the old layout; the edges are derived anew |
| Movement.MoveAgent.MoveNodes | modules/MoveAgent.py:49-56 | every selected or canvas node stands where MoveAll puts it from the old layout |
| Movement.MoveAgent.PlaceMoved | modules/MoveAgent.py:50-56 | the moved node is set to the base point, then taken by the scan over the canvas list |
| Files.RecordOf | modules/FileManager.py:35-41 | a node's record carries its coordinates |
| Files.Records | modules/FileManager.py:34-42 | one record per node, in list order |
| Files.Export | modules/FileManager.py:42-45 | the file holds every record with all its keys, in order |
| Files.Loaded | modules/FileManager.py:56-62 | a load yields the complete records of the file in order, up to the first record with a missing key |
| Files.LoadedExport | modules/FileManager.py:32-62 | loading a saved list of records gives back the same records |
| Files.SaveThenLoad | modules/FileManager.py:32-62 | saving a canvas and loading the file reproduces every node's id, coordinates and flags in order |
| Files.EnsPathsSpec | modules/FileManager.py:70-75 | a path is listed exactly when it is `<dir>/<file>` for a `.ens` file of the walk; every listed path ends in `.ens` |
| Files.EnsInSpec | modules/FileManager.py:72-74 | a path is listed exactly when it is `<dir>/<file>` for a `.ens` file of that directory; every listed path ends in `.ens` |
| Files.EnsPaths | modules/FileManager.py:70-75 | the `<dir>/<file>` paths of the `.ens` files of the walk, directory by directory in walk order |
| Files.EnsIn | modules/FileManager.py:72-74 | the `<dir>/<file>` paths of the `.ens` files of one directory, in file order |
| Files.FileManager.constructor | modules/FileManager.py:17-21 | the manager works on the given canvas and holds no records |
| Files.FileManager.ConvertToJson | modules/FileManager.py:32-45 | the old records are replaced by one record per node keyed by its list index, and the file written is their export |
| Files.FileManager.ConvertToList | modules/FileManager.py:53-62 | existing nodes are kept; one fresh node per loaded record is appended, in file order, carrying its id, coordinates and flags; the load stops at the first incomplete record |
| Files.FileManager.LoadSelectedFile | modules/FileManager.py:99-101 | the canvas is emptied and then holds exactly the loaded records' nodes; the edges are derived anew only when the load completes |
| Files.FileManager.GetEnsFiles | modules/FileManager.py:70-75 | the `.ens` files of the walk as `<dir>/<file>` paths, in walk order |
| MainWindow.LastStartMark | main_window.py:242-244 | the index of the last entry flagged start, or None when none is |
| MainWindow.LastEndMark | main_window.py:242-247 | the index of the last entry flagged end but not start, or None when there is none |
| MainWindow.LastStart | main_window.py:242-244 | the index of the last node flagged start, or None when none is |
| MainWindow.LastEnd | main_window.py:242-247 | the index of the last node flagged end but not start, or None when there is none |
| MainWindow.StartIsNotEnd | main_window.py:243-247 | the picked end node is never the picked start node |
| MainWindow.Editor.constructor | main_window.py:36-42 | empty canvas, drawing mode, nothing selected, at most 25 nodes and 3 connections per node; the file manager works on the same canvas |
| MainWindow.Editor.SaveFile | main_window.py:88-92 | the file written holds the canvas records, and loading it gives them back |
| MainWindow.Editor.OpenFile | main_window.py:97-104 | the canvas holds exactly the loaded records' nodes; the edges are derived anew when the load completes and are kept otherwise |
| MainWindow.Editor.ClickHandler | main_window.py:127-136 | in drawing mode the selection is dropped and one fresh, unflagged, snapped node is appended, with the edges derived anew as fresh copies; in selection mode the first hit node is selected and a miss keeps the old selection; the canvas is untouched outside drawing mode |
| MainWindow.Editor.ClearAll | main_window.py:143-145 | no nodes and no selection |
| MainWindow.Editor.ChangeStatus | main_window.py:188 | the mode becomes the given value |
| MainWindow.Editor.ChangePointStatus | main_window.py:208-234 | only the chosen flag of the selected node takes the check box state and the edges are derived anew; with no node selected the assignment raises and nothing changes |
| MainWindow.Editor.ChangeGeneratorConfig | main_window.py:302-306 | only the chosen limit takes the spin box value |
| MainWindow.Editor.SetStartEnd | main_window.py:242-254 | the last start node and the last end (not start) node with their indices when both exist; otherwise both None |
| MainWindow.Editor.InitializeSolution | main_window.py:259-272 | a search runs exactly when both a start and an end node exist; it then answers from the last start index to the last end index over the table of the canvas polyline, as `Solves` states: a least-weight route when reachable, the end alone with infinite distance otherwise, and the nodes-traveled count of its pop order |
| MainWindow.Editor.GenerateGraph | main_window.py:311-320 | the selection is dropped; the canvas holds exactly the end copies of the generated edges, none flagged start or end, and its edges are derived anew |
| MainWindow.Editor.RunGenerator | main_window.py:312-320 | on an empty canvas the generator steps leave the end copies of the generated edges, none flagged |
| MainWindow.Solve | main_window.py:263-272 | a solver over the canvas nodes and polyline edges answers the query: finite exactly when reachable, then a least-weight route, otherwise the end alone; the count is the total row size of a pop order that starts at the start, never holds the end, is empty exactly when start is end, holds every route node but the end and, when the end is unreachable, every node reachable from the start |
| MainWindow.CreateLinesReady | modules/GraphGenerator.py:52-61 | the deduplicated connection lists name only generated nodes, as create_lines needs |
| MainWindow.GeneratedCanvasHasNoEnds | main_window.py:317-320 | a canvas with no flagged node has no start and no end, so no search runs on a generated graph until nodes are flagged |

## Left out

- `MainWindow.Editor.ChangePointStatus`: the AttributeError raised with no node selected is a `raised` result, not an exception; the check boxes staying visible after `clear_all` is not modelled.
- Qt rendering and widgets are not modelled. This covers graphics items, colours (`setColor`, `_set_graphics_item`), scene add, remove and clear, `add_item`, `erase_lines` and `refresh_objects`. It also covers `highlight_selected_objects`, `show_properties`, `load_properties`, `refresh_selection`, `mouseMoveEvent`, label texts, `set_defaults`, `connect_functions`, and the drawing of the route in `finalize_solution`. A refresh of the scene is modelled only by its effect on the edge list.
- `load_ens_files` is not modelled: it only fills a list widget with the result of `get_ens_files`.
- Dialogs and I/O are parameters. A click is its cursor point. A file dialog is the file it yields. A saved file is its sequence of records, not JSON text, so `open`, `json.dump` and `json.load` are not modelled. A load whose text lacks the `points` key, or has values of the wrong type, is not modelled. A missing record key is modelled: it stops the load.
- `os.walk` is a parameter: the sequence of (directory, file names) entries it yields.
- `random.randint` and `random.choice` are parameters: node count, connection count, coordinates and connection draws. Their ranges become preconditions of `GenerateNodes`, `SetConnections`, `GenerateGraph` and `RunGenerator`.
- `MainWindow.Editor.GenerateGraph`: requires `10 <= nodeCount <= maxNodes` and `1 <= connCount <= maxConnections`, and canvas bounds that leave room for the coordinates. `ChangeGeneratorConfig` can set `maxNodes` below 10 or `maxConnections` below 1. Then `randint` raises ValueError in `generate_graph` after `clear_all` has already emptied the canvas and dropped the selection. That failure path is not modelled.
- The timing with `time.time()` in `finalize_solution` is not modelled.
- Floating point is not modelled. Weights are natural numbers in units of 0.0001 pixel, the exact rounding of `round(sqrt(...), 4)` except for float error. Coordinates are integers, as mouse positions and `randint` give. An exact half cannot occur.
- `heapq` is modelled as a multiset of (distance, index) entries with extract-min in tuple order. Sifting in an array is not modelled. Tuple order is total, so a heap has exactly one least entry (`MinUnique`) and the pop order is fixed by the table, as with `heapq`.
- Node and edge ids, `id(self) % 1000`, are left unconstrained.
- `Core.Knoten.constructor`: the coordinate list is held as a value, not by reference. Sharing one list between nodes is not modelled. The source never shares one: `add_point`, `get_lines` and `create_lines` each build a fresh list. Generated nodes are built from tuples, on which `setX` would raise; the model lets them move like any other node.
- `Kante` is a datatype holding its two endpoint nodes in order. Its colour and id are not modelled.
- Dead code is not modelled: `calculate_weights` and `draw_connections` read a `neighbors` key that is never created, and `draw_net`, `connect_points` and `Knoten._toggle_visited` are never reached from the core.
- `Solver.GraphSolver.SetNeighbors`: requires every edge end to stand on some node, so the `None` index that `find_object` returns for an end that matches no node is not modelled. Edges always come from `get_lines`, whose ends are node positions (`PolylineEndsAreNodes`).
- The GraphSolver's stored start and end nodes are not modelled, only their indices. The search uses only the indices.
- `Solver.GraphSolver.SolveGraph`: the pop order behind the nodes-traveled count is a ghost output. The count is stated as the total row size of that pop order, with the properties of the order listed above, not as a closed formula. The pop order is unique for a given table, but the model does not compute it as a function of the table.
- `MainWindow.Editor.constructor`: the file manager is wired to the canvas manager, as `modules/FileManager.py:11-18` declares. `main_window.py:37` passes the node list instead, and `FileManager.__init__` would fail reading `.objects` from it.
- `Files.FileManager.LoadSelectedFile`: the selected list item is the file it names. A missing current item is not modelled.
- The editor's own `refresh_scene` (`main_window.py:196-207`) is not modelled separately. Its effect on the model is that of `GraphicsViewManager.RefreshScene`, which `ChangePointStatus` and `InitializeSolution` call.
- Some loops and loop bodies of the source are separate methods with their own contracts, so that each proof stays small: `PlacePoint`, `RowLines`, `ScanRow`, `Relax`, `Visit`, `MoveNodes`, `PlaceMoved`, `Solve`, `RunGenerator` and `AppendEnds`. `CreateLines`, `InsertToGraphicsView` and `SetNeighbors` build their result locally and assign it once, where the source appends to the field inside the loop. No other code sees the field in between.
- The placement scan follows the code rather than a "first match" reading of it: it tests every node in turn against the point as moved so far (`SnapDriftsAlongChains` shows the difference).
