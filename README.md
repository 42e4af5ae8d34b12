# g2h core in Dafny

g2h draws graphs as text. This project models its core and proves what
that code promises.

- **Graph algorithms** (`graph/src/algorithm.rs`):
  - `dijkstra_extra` and `dijkstra` return the predecessor map of a
    shortest-path search and the per-step trace of checked nodes;
  - `a_star` runs a heuristic search with an "infinite" score of
    `usize::MAX / 2`;
  - `path` follows a predecessor map back to a node;
  - `color_gh` and `mark_node` colour the nodes reachable from node 0, each
    with the least colour that none of its neighbours has.
- **Owned trees** (`graph/src/node.rs`): node construction, `push`,
  `is_leaf`, the post-order `walk`, and `Tree::go`, which counts the nodes
  and measures the depth.
- **Character panes** (`src/pane/pane.rs`):
  - `Pane` is a fixed-size character surface drawn with `put`;
  - `StrPane` is a one-line pane;
  - `ColumnFittablePane` stacks the lines of other panes;
  - `ConnectedPane` draws links between boxes as `-`, `|` and an arrow;
  - `MatrixPane` is a grid graph with 4-neighbour links of weight 10, whose
    node payloads are printed row by row.
- **The earlier pane module** (`src/pane.rs`). Its `Pane::new`, `put`,
  `Shape`, `Point` and `ConnectedPane` (`connect`, `start_element_index`,
  `size`, `pane`, `connector`) are the same code as in `src/pane/pane.rs`,
  so the `Canvas` and `Connected` members model both files. Only its
  `StrPane` differs: it writes into a row its pane does not have.
- **Line graphs** (`src/line_gh.rs`): `LineGH` keeps boxes of text and the
  links between them. Its `Display` draws the link pane above the boxes,
  which are widened when many links touch them.
- **Path pictures**:
  - `construct_path` (`src/path_matrix.rs`) runs A* with the Manhattan
    heuristic on a matrix pane and paints the checked nodes and the route;
  - `frames` (`src/animated_path.rs`) records one picture per Dijkstra step
    and per route node.

## How the model is organised

The graph type itself lives outside the core. It is modelled in `Arena` as
a value:

- a sequence of nodes, each with a payload and an optional list of
  `Link(to, weight)`;
- `Graph::link` appends a link and creates the list if needed.

The modules follow the source files:

| module | models |
|---|---|
| `Search` | `dijkstra_extra`, `dijkstra` and `path` |
| `AStarState`, `AStarSearch` | `a_star` |
| `Coloring` | `color_gh` and `mark_node` |
| `Trees` | `node.rs` |
| `Canvas` | `Pane`, `Shape` and `Point` |
| `Panes` | `StrPane` and `ColumnFittablePane` |
| `Connected` | `ConnectedPane` |
| `Matrix` | `MatrixPane` |
| `LegacyPane` | the old `StrPane` |
| `LineGraph` | `line_gh.rs` |
| `Painting` | `path_matrix.rs` and `animated_path.rs` |
| `Text` | the string helpers |

The form of the model follows the form of the code:

- **Classes.** Objects that the source updates in place are classes:
  `Canvas.Pane`, `Connected.ConnectedPane`, `Matrix.MatrixPane` and
  `LineGraph.LineGH`.
- **Loops.** Code with loops is written as methods with loop invariants.
  Each method is proved against a pure function or predicate. For example:
  - `Pane.Put` is proved against `Draw`;
  - the Dijkstra loop is proved against `DijkstraInv` and `Outcome`;
  - `Coordinates` is proved against `Layout`;
  - `FlattenLine` is proved against `FlatRows`.

  Lemmas then prove the source's promises about those functions.

## Model

| member | source | states |
|---|---|---|
| Arena.AddLink | src/pane/pane.rs:33-39 | linking appends exactly one link to the source node's list (creating it) and leaves every other node and the payload unchanged |
| Arena.ClosedHoldsReachable | graph/src/algorithm.rs:157-203 | a node set that holds the start and is closed under links holds every node reachable from the start |
| Arena.SumOfAppend | graph/src/algorithm.rs:51 | the weight of two joined walks is the sum of their weights |
| Arena.LinkWalkSuffix | graph/src/algorithm.rs:120-126 | the tail of a walk is a walk, and the walk's weight splits at any node |
| Arena.BackWalkReversed | graph/src/algorithm.rs:138-155 | a predecessor route read backwards is a walk from its last node to its first, with the same weight |
| Arena.LeastRoutesAgree | graph/src/algorithm.rs:4-136 | two least-weight routes between the same nodes weigh the same, so `dijkstra` and `a_star` agree on the cost of what they find |
| Search.SelectMin | graph/src/algorithm.rs:25-28 | a node is found exactly when some reached node is unchecked; it is unchecked, has the least distance of those, and is the smallest index among ties (ascending map order) |
| Search.Relax | graph/src/algorithm.rs:53-61 | a target gets the current node as predecessor when it had none; its distance is inserted or lowered, and a strict improvement also resets its predecessor |
| Search.Visit | graph/src/algorithm.rs:49-66 | relaxing one child keeps the search invariant, keeps settled entries and appends the child to the step's trace group |
| Search.Expand | graph/src/algorithm.rs:37-66 | expanding a node records the trace group [u] followed by u's link targets and keeps the search invariant |
| Search.RelaxDist | graph/src/algorithm.rs:51-61 | relaxing a child keeps the source at 0, keeps every settled distance and keeps it no more than any unsettled one, keeps the current node least among the unsettled, never raises a distance, and leaves the child reached no farther than the current node's distance plus the link weight |
| Search.RelaxRev | graph/src/algorithm.rs:53-59 | every predecessor is a checked node joined to its key by a link whose weight accounts for the key's distance |
| Search.ExitBound | graph/src/algorithm.rs:24-28 | any walk from the source to an unchecked node passes an unchecked reached node whose distance is no more than the walk's weight |
| Search.SelectedLeast | graph/src/algorithm.rs:25-28 | the unchecked node with the least distance has the least weight of any walk from the source as its distance |
| Search.RelaxedOutStep | graph/src/algorithm.rs:49-66 | after a node is expanded, every link out of a checked node, the new one included, is relaxed |
| Search.CheckNode | graph/src/algorithm.rs:29-68 | checking the closest unchecked node that is not `look` keeps the invariant, adds it to the checked set and appends its group to the trace |
| Search.TracedStep | graph/src/algorithm.rs:37-65 | the trace keeps one group per checked node, in checking order, with distances that never decrease |
| Search.Exhausted | graph/src/algorithm.rs:24-71 | when every reached node is checked and `look` was never selected, `look` is not reachable from the source |
| Search.OutcomeOf | graph/src/algorithm.rs:71 | the invariant at the loop's end gives the returned outcome: every trace head carries the least weight of any walk to it, the trace groups are real, predecessors are links and a ranking orders every predecessor chain |
| Search.DijkstraRanked | graph/src/algorithm.rs:37-68 | each predecessor was checked at an earlier step than its key, so the predecessor walk from any key reaches the source |
| Search.DijkstraExtra | graph/src/algorithm.rs:9-72 | no result exactly when the source has no edge list (with an empty trace); trace groups start with distinct nodes other than `look`; when `look` is found its distance is the least weight of any walk from the source, and the predecessor walk back from it reaches the source with exactly that weight; when it is not found it is neither a key nor reachable |
| Search.Dijkstra | graph/src/algorithm.rs:4-7 | the result exists exactly when the source has an edge list; every predecessor links to its key; when `look` is a key, the predecessor walk back from it is a least-weight route from the source; when it is not, `look` is the source or unreachable |
| Search.OutcomeLinks | graph/src/algorithm.rs:53-59 | every entry of the returned map is a real link of the graph |
| Search.RevRoute | graph/src/algorithm.rs:53-59 | the predecessor walk from a key reaches the source, and its links weigh exactly the key's distance |
| Search.LeastRoute | graph/src/algorithm.rs:138-155 | when a key's distance is least, the predecessor walk back from it is a least-weight route from the source |
| Search.BackWalkCons | graph/src/algorithm.rs:145-152 | putting a node in front of a route by a link to its head gives a route one link heavier |
| Search.PathOfTail | graph/src/algorithm.rs:145-152 | the walk from a node without its head is the walk from its predecessor |
| Search.PathOfUnique | graph/src/algorithm.rs:138-155 | following a predecessor map from a node gives one walk only |
| Search.PathOfCons | graph/src/algorithm.rs:145-152 | a walk from a node's predecessor, with that node in front, is the walk from the node |
| Search.RankedEnds | graph/src/algorithm.rs:145-152 | when predecessors are strictly earlier in a ranking, the walk from any key ends |
| Search.Path | graph/src/algorithm.rs:138-155 | no result exactly when `from` has no predecessor; otherwise the walk starts at `from`, follows the map, stops at the first `to` or at a node without predecessor, and has at least two nodes |
| AStarState.SumOfLower | graph/src/algorithm.rs:123-125 | lowering one score strictly lowers the score total (the loop's progress measure) |
| AStarState.TouchedProgress | graph/src/algorithm.rs:120-131 | relaxing a node's links either changes nothing or strictly lowers the g-score total |
| AStarState.CoreStep | graph/src/algorithm.rs:123-130 | an improving relaxation keeps the A* invariant: open nodes have finite scores, f = g + h, and every came-from entry is a link |
| AStarState.WalkBound | graph/src/algorithm.rs:97-133 | once no open node is left, the g-score of a walk's end is at most the start's score plus the walk's weight |
| AStarSearch.SelectOpen | graph/src/algorithm.rs:98-106 | the selected node is open, has the least f-score and is the largest index among ties (the `<=` scan in ascending order) |
| AStarSearch.RelaxOne | graph/src/algorithm.rs:121-131 | a neighbour's scores change exactly when the tentative score is strictly less; then the neighbour joins the open set and gets the current node as came-from |
| AStarSearch.RelaxLinks | graph/src/algorithm.rs:120-132 | relaxing all links of the current node keeps the invariant and only touches its neighbours |
| AStarSearch.LexEnds | graph/src/algorithm.rs:124 | the came-from walk from any key reaches the start |
| AStarSearch.Found | graph/src/algorithm.rs:108-110 | when the goal is selected, it is the start or a key, and every came-from entry is a link whose walk reaches the start |
| AStarSearch.Unreached | graph/src/algorithm.rs:97-135 | when the open set empties, the goal is not the start and every walk to it weighs at least the infinity value |
| AStarSearch.OpenOnWalk | graph/src/algorithm.rs:97-133 | a cheap walk from the start either ends at a node whose g-score is at most its weight or passes an open node whose g-score is at most the weight so far |
| AStarSearch.GoalLeast | graph/src/algorithm.rs:98-110 | with an admissible heuristic, the open goal of least f-score has the least walk weight as its g-score |
| AStarSearch.CameRoute | graph/src/algorithm.rs:123-129 | the came-from walk from a key reaches the start and weighs at most the key's g-score |
| AStarSearch.Cheapest | graph/src/algorithm.rs:108-110 | when the goal is selected, its came-from walk is a least-weight route from the start |
| AStarSearch.AStar | graph/src/algorithm.rs:74-136 | a result means the goal is the start or a key, the map is made of links and every walk along it reaches the start; with an admissible heuristic the came-from walk back from the goal is a least-weight route from the start; no result means every walk from the start to the goal weighs at least `usize::MAX / 2` |
| Coloring.MexUnique | graph/src/algorithm.rs:192-200 | the least colour missing from a list is unique |
| Coloring.MexBound | graph/src/algorithm.rs:192-200 | the least missing colour is at most the list's length |
| Coloring.UnusedColor | graph/src/algorithm.rs:192-202 | the colour given is not in the neighbours' list and every smaller colour is |
| Coloring.NeighborIndices | graph/src/algorithm.rs:176-179 | the neighbours are the node's link targets, in order |
| Coloring.NeighborColors | graph/src/algorithm.rs:187-190 | the colour list has the colour of each neighbour, in order |
| Coloring.MarkNode | graph/src/algorithm.rs:165-203 | the node gets coloured, earlier colours are kept, every colour is proper, and only nodes reachable from the node are added |
| Coloring.MarkNeighbors | graph/src/algorithm.rs:181-185 | every neighbour ends up coloured without recolouring anything |
| Coloring.ColorGh | graph/src/algorithm.rs:157-163 | a node is coloured exactly when it is reachable from node 0, and every colour is the one `mark_node` assigns |
| Coloring.ColoredClosed | graph/src/algorithm.rs:181-185 | the coloured set is closed under links |
| Coloring.ProperColoring | graph/src/algorithm.rs:187-202 | a node's colour differs from the colour of each of its link targets |
| Coloring.ColorBound | graph/src/algorithm.rs:192-202 | a node's colour is at most its number of links |
| Trees.NewNode | graph/src/node.rs:13-19 | a new node holds the payload, has no parent and is a leaf |
| Trees.Push | graph/src/node.rs:21-28 | pushing makes the node an inner node whose children are the old ones plus the new child, keeping payload and parent |
| Trees.PostOrder | graph/src/node.rs:34-45 | the walk visits the node itself last |
| Trees.WalkCount | graph/src/node.rs:34-45 | the walk visits exactly as many nodes as the tree counts |
| Trees.Go | graph/src/node.rs:65-78 | the node count and the depth of the tree |
| Trees.NewTree | graph/src/node.rs:56-63 | a tree keeps its root with that root's count and depth |
| Trees.DepthAtMostCount | graph/src/node.rs:65-78 | depth is between 1 and the node count |
| Trees.PushCount | graph/src/node.rs:21-28 | pushing a child adds the child's count |
| Trees.PushDepth | graph/src/node.rs:21-28 | pushing gives depth 1 + the child's depth for a leaf, otherwise the larger of the old depth and 1 + the child's depth |
| Trees.SingleNodeCountDeep | graph/src/node.rs:103-121 | a single node has count 1 and depth 1 |
| Trees.FanCountDeep | graph/src/node.rs:65-78 | a root with two leaves has count 3 and depth 2 |
| Trees.ChainCountDeep | graph/src/node.rs:65-78 | putting one node above a tree adds 1 to both count and depth |
| Trees.ExampleCountDeep | graph/src/node.rs:96-145 | the example tree has 6 nodes and depth 4 |
| Text.Repeat | src/line_gh.rs:130 | `n` copies of one character |
| Text.PadRight | src/line_gh.rs:182 | the string, followed by spaces up to the width |
| Text.Split | src/pane/pane.rs:141 | splitting at newlines gives newline-free pieces |
| Text.SplitJoinLines | src/pane/pane.rs:340-350 | splitting the newline-joined rows gives the rows back |
| Text.LinesOfJoin | src/line_gh.rs:137 | `lines()` of joined rows gives the rows back, without a final empty one |
| Text.Largest | graph/src/node.rs:74 | the maximum is an element and bounds every element |
| Text.MaxLen | src/line_gh.rs:195-206 | the longest line's length bounds every line and is reached by one (0 for none) |
| Text.TrimStart | src/line_gh.rs:192 | only leading whitespace is removed, and the result does not start with whitespace |
| Text.TrimEnd | src/line_gh.rs:192 | only trailing whitespace is removed, and the result does not end with whitespace |
| Text.NatToString | src/pane/pane.rs:83 | decimal digits without a leading zero |
| Text.NatToStringRoundTrip | src/pane/pane.rs:83 | reading the printed digits gives the number back |
| Canvas.DrawCell | src/pane/pane.rs:311-337 | putting a shape changes exactly the cells the shape covers, to the character |
| Canvas.PointWritesOneCell | src/pane/pane.rs:313-315 | a point writes one cell |
| Canvas.HorizontalLineSpan | src/pane/pane.rs:318-325 | a horizontal line covers its row from the smaller x up to, but not including, the larger x |
| Canvas.VerticalLineSpan | src/pane/pane.rs:326-333 | a vertical line covers its column from the smaller y up to, but not including, the larger y |
| Canvas.EmptyLineNoOp | src/pane/pane.rs:316-335 | a line between equal points, or between points on neither a row nor a column, draws nothing |
| Canvas.LastCover | src/pane/pane.rs:311-337 | the last shape covering a cell |
| Canvas.LastWriter | src/pane/pane.rs:311-337 | after a series of puts, a cell shows the last covering shape's character, or its old content |
| Canvas.ShowsUniform | src/pane/pane.rs:311-337 | when every covering shape uses the same character, the cell shows it exactly when it is covered |
| Canvas.Pane.constructor | src/pane/pane.rs:300-305 | a new pane is blank with the given size |
| Canvas.Pane.Put | src/pane/pane.rs:311-337 | `put` draws the shape onto the surface |
| Canvas.Pane.Text | src/pane/pane.rs:340-350 | displaying joins the rows with newlines, and splitting the text gives the rows back |
| Canvas.SameGrid | src/pane/pane.rs:300-305 | two surfaces of the same size that agree cell by cell are equal |
| Panes.WriteLine | src/pane/pane.rs:163-167 | writing a line into a row replaces that row's prefix and nothing else |
| Panes.StrPaneRender | src/pane/pane.rs:175-182 | the pane's only row is the string |
| Panes.MaxWidth | src/pane/pane.rs:128 | the widest size bounds every width and is one of them (0 for none) |
| Panes.ColumnFittableSize | src/pane/pane.rs:125-132 | every pane fits in the width, and no panes give (0, 0) |
| Panes.ColumnFittableWidest | src/pane/pane.rs:128 | the width is that of some pane |
| Panes.AllLinesBounds | src/pane/pane.rs:125-145 | the stacked lines are no more than the summed heights and no wider than the widest pane, so writing them stays inside |
| Panes.ColumnFittableRender | src/pane/pane.rs:124-148 | the result has the summed height and the largest width, and holds every line of every pane, top-aligned in order |
| Panes.StackedStep | src/pane/pane.rs:141-144 | writing the next line into the next row extends the stacked picture |
| Panes.StackedNone | src/pane/pane.rs:136 | no lines stack into a blank pane |
| Panes.DropEmpty | src/pane/pane.rs:141 | empty lines disappear, and the lines kept come from the input |
| Panes.AllLinesSingles | src/pane/pane.rs:140-141 | the displayed lines of one-line panes are their non-empty strings |
| Panes.SizesOfLines | src/pane/pane.rs:125-132 | for one-line panes, the width is the longest line and the height is the line count |
| Panes.PaneLinesOf | src/pane/pane.rs:140-141 | the `lines()` of a displayed pane are its rows, except a final empty row of a zero-width pane |
| Panes.StackLines | src/pane/pane.rs:100-108 | a column of string panes is as wide as the longest line and as high as the line count, and shows the non-empty lines in order |
| Connected.StartElementIndexStep | src/pane/pane.rs:218-220 | box i+1 starts one box width and one gap after box i |
| Connected.WidthIsLastBoxEnd | src/pane/pane.rs:231-233 | the pane width is where the last box ends |
| Connected.Insert | src/pane/pane.rs:213-216 | adding a pair and sorting gives a sorted list with that pair added and nothing else changed |
| Connected.SortedUnique | src/pane/pane.rs:215 | two sorted lists with the same elements are equal, so `sort` is determined |
| Connected.ConnectedPane.constructor | src/pane/pane.rs:205-211 | a new pane has no links, with the given boxes and settings |
| Connected.ConnectedPane.Connect | src/pane/pane.rs:213-216 | the link list becomes the sorted old list plus the new pair |
| Connected.ConnectedPane.Size | src/pane/pane.rs:231-236 | the width is where the last box ends and the height is two rows per link |
| Connected.Coordinates | src/pane/pane.rs:249-270 | the loop builds one coordinate per link, two rows apart, with each end shifted by one connection size per earlier use of its box |
| Connected.Place | src/pane/pane.rs:253-267 | one link's coordinate is the layout's coordinate after the earlier uses, and both ends are recorded as used once more |
| Connected.LayoutPlaced | src/pane/pane.rs:259-265 | each link's dash runs strictly between its two ends, on the row above them |
| Connected.SpreadUses | src/pane/pane.rs:256-257 | a later use of a box sits at least one connection size to the right of an earlier one |
| Connected.DrawConnection | src/pane/pane.rs:273-282 | one link draws two drops to the floor, the connector on the last row and the dash |
| Connected.DrawConnections | src/pane/pane.rs:272-282 | drawing all links paints all their strokes in order |
| Connected.ConnectedPane.Render | src/pane/pane.rs:239-285 | the pane has the computed size and shows all strokes of the layout on a blank surface |
| Connected.ConnectionRow | src/pane/pane.rs:276-281 | link k's row shows `-` on its dash, `|` where an earlier link drops, and a space elsewhere |
| Connected.DropRow | src/pane/pane.rs:276-277 | the row below link k shows `|` in every column an earlier or current link drops through |
| Connected.DropRowBlank | src/pane/pane.rs:276-277 | a column no link up to k uses stays blank in the row below link k |
| Connected.FloorRow | src/pane/pane.rs:279 | the last row shows the connector under the last link whose right end is there, otherwise `|` |
| Connected.LayoutAt | src/pane/pane.rs:252-270 | link k's coordinate depends only on the earlier links |
| Connected.LayoutColumns | src/pane/pane.rs:253-260 | a link's ends are the column of its k-th endpoint use |
| Connected.PaintAllAppend | src/pane/pane.rs:273-282 | painting two stroke lists is painting one after the other |
| Connected.CountAppend | src/pane/pane.rs:256-257 | one more use of a box counts one more |
| LegacyPane.LegacyStrPaneOverruns | src/pane.rs:22-31 | those puts stay inside the one-row pane exactly when the string is empty |
| LegacyPane.LegacyStrPaneOverrunsOnA | src/pane.rs:22-31 | for the string "a" the first put lands outside the pane |
| LegacyPane.StrPaneStrokesPaint | src/pane/pane.rs:175-182 | the corrected puts stay inside and paint the string as the pane's row |
| Matrix.CreateMatrixGraph | src/pane/pane.rs:24-43 | w*h nodes with the payload, each linked to exactly its left, right, upper and lower neighbours with weight 10 |
| Matrix.LinkRows | src/pane/pane.rs:29-35 | every horizontal neighbour pair is linked both ways, never across a row end |
| Matrix.LinkColumns | src/pane/pane.rs:37-40 | adding the vertical pairs completes the grid's link lists |
| Matrix.GetXY | src/pane/pane.rs:56-61 | x is inside the row and y*w + x is the index |
| Matrix.GetXYOf | src/pane/pane.rs:56-61 | the coordinates of the node at (x, y) are (x, y) |
| Matrix.GridLinksAdjacent | src/pane/pane.rs:29-40 | a node links to another exactly when they are grid neighbours, always with weight 10 |
| Matrix.GridSymmetric | src/pane/pane.rs:33-39 | every grid link has its reverse |
| Matrix.RowStringsCount | src/pane/pane.rs:102-106 | a w-by-h grid gives h row strings |
| Matrix.RowStringsUniform | src/pane/pane.rs:45-54 | when every payload is the same, each row string is w copies joined by spaces |
| Matrix.StructureOfGrid | src/pane/pane.rs:76-92 | a grid node's line is its index, ` | ` and `10` once per neighbour |
| Matrix.ChunkRows | src/pane/pane.rs:102-106 | the chunk loop yields the row strings, without newlines |
| Matrix.MatrixPane.constructor | src/pane/pane.rs:14-22 | a new matrix pane has the size, the symbol and a graph whose every payload is the symbol |
| Matrix.MatrixPane.Clean | src/pane/pane.rs:63-66 | every payload becomes the symbol and every link is kept |
| Matrix.MatrixPane.SetData | src/path_matrix.rs:12 | exactly one payload changes |
| Matrix.MatrixPane.Render | src/pane/pane.rs:100-109 | the picture stacks the row strings, as high as the grid and as wide as the widest row |
| Matrix.MatrixPane.OrigPane | src/pane/pane.rs:45-54 | h rows, each w copies of the symbol joined by spaces |
| Matrix.MatrixPane.Structure | src/pane/pane.rs:76-92 | one line per node with its index and link weights |
| Matrix.CleanShowsOrig | src/pane/pane.rs:63-66 | after `clean`, the matrix shows the same rows as `orig_pane` |
| LineGraph.MinKey | src/line_gh.rs:88 | the smallest key, the first in `BTreeMap` order |
| LineGraph.InDegreeRemove | src/line_gh.rs:45-48 | the fold over values counts the same whichever key is taken first |
| LineGraph.InDegreeZero | src/line_gh.rs:45-48 | a node no list mentions has no incoming links |
| LineGraph.Structure | src/line_gh.rs:54-60 | each key maps to its number of outgoing and incoming links |
| LineGraph.Linked | src/line_gh.rs:36-39 | connecting appends e2 to e1's list, creates e2's entry and changes nothing else |
| LineGraph.ConnectCount | src/line_gh.rs:36-52 | connecting raises `count_by` of each end by one (by two for a self-link) and leaves the others |
| LineGraph.LinkedInDegree | src/line_gh.rs:36-48 | connecting raises only e2's in-degree, by one |
| LineGraph.LineGH.constructor | src/line_gh.rs:15-21 | no boxes, no links, gap 1, connection size 1, general connectors |
| LineGraph.LineGH.WithSettings | src/line_gh.rs:23-29 | no boxes, no links, the given settings |
| LineGraph.LineGH.AddEdge | src/line_gh.rs:31-34 | the box is appended and its index is returned |
| LineGraph.LineGH.Connect | src/line_gh.rs:36-39 | the map is updated by `Linked` and the boxes are unchanged |
| LineGraph.LineGH.Display | src/line_gh.rs:63-104 | the text is the link pane's rows, a newline, then the trimmed flattened boxes |
| LineGraph.CeilDiv | src/line_gh.rs:73 | the rounded-up quotient: the least r with r*b >= a |
| LineGraph.TabSize | src/line_gh.rs:70-79 | the tab is at least 1 |
| LineGraph.TabForFits | src/line_gh.rs:73-78 | the widened box has room for every link end, one connection size apart |
| LineGraph.BoxHoldsConnections | src/line_gh.rs:70-79 | a box touched by count links is at least (count - 1) * size + 1 wide |
| LineGraph.ContentRows | src/line_gh.rs:135-140 | one framed content row per message line |
| LineGraph.BoxLines | src/line_gh.rs:128-159 | the box's lines are the border, the spacer if the tab is positive, the content rows, the spacer, the border |
| LineGraph.BoxWidth | src/line_gh.rs:123-125 | every line of a box is `line_lenght` wide |
| LineGraph.SpacerShape | src/line_gh.rs:132-146 | the spacer exists exactly when the tab is positive and is `|`, spaces, `|` |
| LineGraph.MaxLineCount | src/line_gh.rs:168-174 | the largest line count bounds every source and is reached by one (0 for none) |
| LineGraph.FlatRows | src/line_gh.rs:177-190 | one flattened row per line index up to the largest line count |
| LineGraph.AppendRow | src/line_gh.rs:179-188 | the inner loop appends exactly one flattened row |
| LineGraph.FlatRowWidth | src/line_gh.rs:178-188 | every flattened row has the same width: each source's widest line plus the gap |
| LineGraph.FlattenRowCount | src/line_gh.rs:177-190 | the flattened text has exactly the largest line count of lines |
| LineGraph.UnlinesLines | src/line_gh.rs:189 | `lines()` of newline-terminated rows gives the rows back |
| LineGraph.SourceCell | src/line_gh.rs:179-184 | a source's line at the index, padded to its widest line, or spaces when it has none |
| LineGraph.FlattenLine | src/line_gh.rs:167-193 | the trimmed concatenation of the flattened rows |
| LineGraph.InsertAll | src/line_gh.rs:88-92 | repeated `connect` yields the sorted list of all pairs |
| LineGraph.ConnectAll | src/line_gh.rs:86-92 | the pane's link list is the sorted list of all map pairs |
| LineGraph.ConnectFriends | src/line_gh.rs:89-91 | one node's friends are inserted one by one |
| LineGraph.ConnectionListUses | src/line_gh.rs:88-92 | a box appears among the link ends as often as links touch it |
| LineGraph.PermutedUses | src/pane/pane.rs:215 | sorting does not change how often a box is used |
| LineGraph.UsesCountBy | src/line_gh.rs:41-52 | the uses of a box equal its `count_by` |
| LineGraph.BoxEndInside | src/pane/pane.rs:218-233 | every box ends inside the pane |
| LineGraph.EndColumnInside | src/line_gh.rs:70-92 | every link end lies inside its own box |
| LineGraph.DisplayColumnsFit | src/line_gh.rs:86-94 | every column the link pane draws is inside its width |
| LineGraph.ColumnInside | src/line_gh.rs:86-94 | each link end's column is inside the pane |
| Painting.Gap | src/path_matrix.rs:8 | the distance between two coordinates |
| Painting.ManhattanZero | src/path_matrix.rs:5-9 | the heuristic is 0 exactly at the target |
| Painting.ManhattanStep | src/path_matrix.rs:5-9 | one grid link changes the heuristic by at most 1 |
| Painting.ManhattanAdmissible | src/path_matrix.rs:5-9 | the heuristic times 10 never exceeds the weight of a walk on the grid to the target |
| Painting.ManhattanAdmits | src/path_matrix.rs:5-9 | the Manhattan heuristic is admissible for A* on the grid: it never exceeds the weight of a walk to the target |
| Painting.GridWellFormed | src/pane/pane.rs:24-43 | every link of a matrix graph stays inside it |
| Painting.PaintedAt | src/path_matrix.rs:11-17 | painting changes only the payloads of the chosen nodes and never the links |
| Painting.PaintedUnion | src/animated_path.rs:8-14 | painting two sets with one symbol is painting their union |
| Painting.PaintedOver | src/path_matrix.rs:11-17 | the later painting wins where the sets overlap |
| Painting.PaintStep | src/animated_path.rs:16-17 | painting one more node extends the painted set |
| Painting.PaintedNone | src/animated_path.rs:16-20 | painting no nodes changes nothing |
| Painting.PaintedOnGrid | src/path_matrix.rs:11-17 | painting keeps the grid's links |
| Painting.PaintedClean | src/animated_path.rs:8-14 | painting with a newline-free symbol keeps payloads newline-free |
| Painting.PaintNodes | src/path_matrix.rs:15-17 | the listed nodes get the symbol |
| Painting.PaintKeys | src/path_matrix.rs:11-13 | every came-from key gets the symbol, whatever the visiting order |
| Painting.Snapshot | src/animated_path.rs:13 | the frame is the matrix pane's text |
| Painting.BackStep | graph/src/algorithm.rs:53-59 | on a grid, each predecessor is a grid neighbour of its key |
| Painting.RouteOnGrid | src/path_matrix.rs:15 | the route runs from `from` to `to` through grid neighbours inside the grid |
| Painting.RouteEnds | graph/src/algorithm.rs:145-152 | when every predecessor is `to` or a key, the walk ends at `to` |
| Painting.SameRoute | src/animated_path.rs:16 | the walk `path` returns is the walk the search promised, with the same weight |
| Painting.ConstructPath | src/path_matrix.rs:4-20 | the came-from map holds only grid links and roots at `from`; success happens exactly when `look` is not `from` and is a key; the route then runs from `look` to `from` through grid neighbours, is the map's walk and weighs the least of any walk from `from` to `look`; the checked nodes and then the route are painted; failure means `look == from` or no walk from `from` reaches `look` below infinity |
| Painting.OutcomeRoutes | graph/src/algorithm.rs:9-72 | Dijkstra's predecessors are links, root at the source and end |
| Painting.TracePictures | src/animated_path.rs:8-14 | picture k shows the first k+1 trace groups painted |
| Painting.RoutePictures | src/animated_path.rs:16-20 | picture k shows the first k+1 route nodes painted |
| Painting.TraceFrames | src/animated_path.rs:8-14 | one frame per trace group, each after painting that group |
| Painting.RouteFrames | src/animated_path.rs:16-20 | one frame per route node, each after painting that node |
| Painting.FollowRoute | src/animated_path.rs:16-20 | a route exists exactly when `look` is a key; it is the map's walk from `look` to `from` through grid neighbours, the route nodes are painted and one frame is taken per node |
| Painting.Explore | src/animated_path.rs:5 | the trace groups are real and the predecessor map roots at `from`; a missing `look` means it is `from` or unreachable; a found `look` other than `from` has the least walk weight as its distance, and the map's walk back from it weighs exactly that |
| Painting.Frames | src/animated_path.rs:4-24 | the trace frames, then the route frames; a source without edge list gives no route; a route exists exactly when `look` is a key of the search result, and it is the map's walk from `look` to `from` through neighbours; for `look != from` it weighs the least distance of `look`; no route means no edge list, `look == from` or `look` unreachable |

## Left out

- Output through `std::fmt::Formatter` is modelled as the produced string.
  `main.rs` and all printing are not modelled.
- Widths are unbounded naturals. The usize and i64 overflow of the source is
  not modelled, except that A*'s infinity is the constant `usize::MAX / 2`.
- The `f64` arithmetic in `line_gh.rs:73` and `path_matrix.rs:8` is modelled
  exactly with naturals: `CeilDiv` and `Gap`. A connection size of 0, which
  gives an infinite quotient, keeps the tab at 1.
- Strings are sequences of characters:
  - byte length (`len()`) and character count are not distinguished;
  - Unicode whitespace is narrowed to ASCII;
  - `lines()` is modelled for `\n` only, not `\r\n`.
- Graph storage is not modelled:
  - the Graph type's `Rc<RefCell<Node>>` storage and its aliasing;
  - `node_by_index`, `get_node` and `graph` are direct accesses to the node
    sequence;
  - the Graph implementation is not part of this model; `AddLink` assumes
    that `Graph::link` appends the link to the source node's list, creating
    the list when it is absent.
- `MatrixPane::size` returns (0, 0) and nothing uses it, so it is not
  modelled.
- `new_line` in `line_gh.rs` is never called, so it is not modelled.
- `BTreeMap` order:
  - iteration in key order is modelled with `MinKey`;
  - `Painting.PaintKeys` visits the keys in an arbitrary order, which makes
    no difference to its result.
- Panics become failures or requirements:
  - an `unwrap` of `None` is modelled as `ok == false`;
  - a panic on an index out of range is excluded by a `requires`.
- `Coloring.ColorGh` and `Coloring.MarkNode` require an acyclic graph.
  `mark_node` recurses forever on a cycle through unvisited nodes, and the
  model needs termination.
- `Coloring.ColorGh` and `Coloring.MarkNode` require every edge list to be
  non-empty. `max().unwrap()` panics on an empty list.
- `Trees.Go` requires `WellShaped`: no node may have an empty child list,
  because `max().unwrap()` panics on one.
- Tree nodes are values, since the source's trees are owned through `Box`.
  Pushing therefore returns the updated node. The `parent` field is carried
  but never set, as in the source.
- `Search.Path` requires that the walk from `from` ends. The source loops
  forever on a predecessor cycle that avoids `to`. Every map that
  `dijkstra_extra` and `a_star` return meets the requirement: see
  `RankedEnds` and `LexEnds`.
- A* carries a ghost time stamp that is used only to prove that the
  came-from walk ends.
- `LineGraph.LineGH.Display` requires every link end to be a box index.
  For a larger end, `start_element_index` (whose `take` stops at the last
  box) gives a column past the pane, and `put` panics on it.
- `Connected.ConnectedPane.Render` requires every drawn column to be inside
  the pane. `LineGraph.DisplayColumnsFit` proves this for the panes that
  `Display` builds.
- `Matrix.MatrixPane.Render`, `Painting.Frames` and `Painting.Snapshot`
  require payloads and symbols without newlines. Otherwise the pane's rows
  would split.
- `Painting.Frames` follows the predecessor map with the three-argument
  `path(area, look, from)`. The call in `src/animated_path.rs:16` passes
  two arguments, which does not match `path` in `graph/src/algorithm.rs:138`.
- `Painting.ConstructPath` and `Painting.Frames` return the route and the
  trace as ghost outputs. The source returns only the painted pane and the
  frames.
- `Painting.ConstructPath` states the came-from map by what A* guarantees
  (grid links, rooted at `from`, a least-weight walk back from `look`), not
  as the exact set of nodes that A* settles.
- `AStarSearch.AStar` proves a least-weight route only for an admissible
  heuristic; `a_star` accepts any heuristic.

## Findings

| source | as written | input that shows it | evidently intended | confidence | as-written member | corrected member |
|---|---|---|---|---|---|---|
| src/pane.rs:22-31 | the old `StrPane::pane` puts character i at `Point(i, 1)` in a pane one row high | the string "a": its pane has only row 0, so the first `put` indexes past the surface | row 0, as `src/pane/pane.rs:179` does | not executed | LegacyPane.LegacyStrPaneOverrunsOnA | LegacyPane.StrPaneStrokesPaint |
