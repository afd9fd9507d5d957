# Voxel perception engine — a Dafny model

This project models the voxel perception engine of the CraftAssist agent
(`python/craftassist/perception.py`). The engine answers spatial questions
about a point-in-time snapshot of a block world:

* which "interesting" blocks near a position are reachable from it
  (`accessible_interesting_blocks`), how they split into 26-connected
  components (`connected_components`), and which component is nearest
  (`all_nearby_objects`, `closest_nearby_object`, `find_closest_component`);
* whether one entity is "inside" another (`check_inside`) and which points of
  an entity's bounding box are inside it (`find_inside`);
* how a block list is labelled top / bottom / neither
  (`label_top_bottom_blocks`) and which non-air blocks surround a position
  (`find_nearby_blocks`);
* which enclosed air basins ("holes") lie around a location
  (`get_all_nearby_holes`), found by a min-heap sweep over a surface height map.

Modules, leaves first:

| file | module | what it holds |
|---|---|---|
| `grid.dfy` | `Grid` | cells, dense 3D windows, the 6- and 26-neighbour schemes, paths and reachability |
| `floodfill.dfy` | `FloodFill` | the depth-first flood fill as an explicit stack and visited set |
| `components.dfy` | `Components` | the accessibility mask and the connected-component labeler |
| `locators.dfy` | `Locators` | the world oracle, the `[y][z][x]` window and its remap to world `(x, y, z)`, the object locators |
| `inside.dfy` | `Inside` | `check_inside` and the bounding-box scan of `find_inside` |
| `lists.dfy` | `Lists` | `label_top_bottom_blocks` and `find_nearby_blocks` |
| `holes.dfy` | `Holes` | `get_all_nearby_holes`: the surface scan, the sweep state as class `HoleSweep`, `dfs`, acceptance and merging, the air filter |

Modelling choices:

* The world is an oracle `World = Cell -> IdMeta` from a world position
  `(x, y, z)` to its `(id, meta)`. `get_blocks` is `Locators.GetBlocks`, the
  dense array `[y][z][x]` read from that oracle; `util.fill_idmeta` is a
  lookup in the same oracle.
* A boolean mask is the set of its true cells.
* `search.depth_first_search` is not part of this model. It is modelled as
  `FloodFill.DepthFirstSearch`: an explicit stack and a visited set; a popped
  cell is marked visited, and only cells the predicate accepts push their
  in-window, unvisited neighbours. The default adjacency is taken to be the 6
  face neighbours; `util.diag_adjacent` is taken to be the 26 face, edge and
  corner neighbours.
* Centroids and Manhattan distances use exact `real` arithmetic.
* The hole sweep's state (height, hole-tag and `(id, meta)` maps, the visited
  set, the heap, and the module-level `current_connected_comp` /
  `current_idm`) are fields of class `Holes.HoleSweep`. The heap is a multiset
  of `(h, (x, y, z))` entries, and `heappop` removes a least entry in
  `heapq`'s lexicographic order. `dfs` stays recursive (`Dfs` → `Neighbours`
  → `Examine` → `Dfs`). It terminates on the number of unvisited cells of the
  current layer. Each of these methods is proved to end in the state its
  functional counterpart gives (`DfsSpec`, `NbrSpec`, `NbrStep`), and the
  lemmas `DfsExplores`, `NbrExplores` and `StepExplores` prove what that state
  means. The sweep terminates on the lexicographic pair (unvisited
  window cells between the lowest heap entry and `max_height`, heap size).
* The quirks of the source are kept: `dfs` returns `-100000` as soon as the
  column being examined has a neighbour outside the window; a cell already
  visited at this layer contributes `100000`; `current_idm` is the last
  different-height neighbour seen, `(2, 0)` by default; a merged-away hole
  becomes `([], (0, 0))`; `height_map` starts filled with the location's z
  coordinate before the survey overwrites it.
* The early `-100000` return stops the exploration of that region part-way.
  Cells explored before it stay visited at that layer. So "a region touching
  the window edge is never accepted" holds for each exploration (`Explore`'s
  contract), not for the flat region as a whole: a later exploration at the
  same layer meets those visited cells as `100000` and does not reach the
  edge.

## Model

| member | source | states |
|---|---|---|
| `Components.Interesting` | python/craftassist/perception.py:89 | a cell is interesting iff it lies in the window and its id is not in the boring set |
| `Components.PassableOrInteresting` | python/craftassist/perception.py:88-90 | a cell may be walked through iff its id is passable or not boring |
| `FloodFill.DepthFirstSearch` | python/craftassist/perception.py:93-99 | the accepted cells the search records are exactly the cells reachable from the start through accepted cells, each once, start first; the visited mask holds the start and stays in the window |
| `FloodFill.PushNeighbours` | python/craftassist/perception.py:99 | after pushing, every in-window neighbour of an accepted cell is visited or on the stack, and the old stack is a prefix of the new one |
| `FloodFill.Finish` | python/craftassist/perception.py:99 | when the stack is empty the recorded cells are exactly the reachable ones, in both directions |
| `Components.AccessibleInterestingBlocks` | python/craftassist/perception.py:81-100 | a cell is in the mask iff it is interesting and a face-adjacent path of passable-or-interesting cells leads to it from `pos`; the mask is a subset of the interesting cells |
| `Components.ConnectedComponents` | python/craftassist/perception.py:120-148 | the components partition the mask: each is exactly the 26-connected mask cells reachable from its first cell, every mask cell is in exactly one, no other cell appears, each component starts at its seed (its first cell in scan order) and the components come in scan order of their seeds, and the list is empty iff the mask is |
| `Components.ComponentListPartition` | python/craftassist/perception.py:120-148 | a cell is a mask cell iff some component holds it; no two components share a cell; no component repeats a cell |
| `Components.SeedsAreLowest` | python/craftassist/perception.py:134-146 | in a component list in scan order, a cell starts a component iff it is a mask cell that comes first in scan order among the cells of its component |
| `Components.ScanOrderedUnique` | python/craftassist/perception.py:134-146 | two component lists of the same mask, both in scan order, have the same length, the same seed at each position and the same cells in each component; only the order of cells inside a component can differ |
| `Components.VisitCell` | python/craftassist/perception.py:137-146 | one scan step keeps the scan invariant: all cells before the scan position visited, components partition the visited mask cells |
| `Components.ScanRow` | python/craftassist/perception.py:136-146 | the innermost loop keeps the scan invariant through a whole row |
| `Components.ScanLayer` | python/craftassist/perception.py:135-146 | the middle loop keeps the scan invariant through a whole layer |
| `Components.AddComponent` | python/craftassist/perception.py:143-146 | the component found from an unvisited mask cell is disjoint from those collected before, and appending it keeps the scan invariant |
| `Components.ScanComplete` | python/craftassist/perception.py:134-148 | after the whole window is scanned the components partition the mask, and none exist iff the mask is empty |
| `Locators.GetBlocks` | python/craftassist/perception.py:75 | the window entry `[i][j][k]` is the world's block at `(lo.x + k, lo.y + i, lo.z + j)` |
| `Locators.Ids` | python/craftassist/perception.py:77 | the id channel keeps the window's shape and each entry's id |
| `Locators.ToWorldRoundTrip` | python/craftassist/perception.py:51 | the window-to-world remap `(i, j, k) -> (k + mx, i + my, j + mz)` and its inverse undo each other |
| `Locators.NearbyWindow` | python/craftassist/perception.py:72-75 | the window of radius r around `pos` has `2r + 1` cells along each axis |
| `Locators.NearbyWindowAt` | python/craftassist/perception.py:72-78 | each window entry is the world's block at the entry's world position under the offset `(my, mz, mx)` |
| `Locators.AllCloseInterestingBlocks` | python/craftassist/perception.py:70-78 | the window of radius r around `pos` is read from the world, the offset is `(my, mz, mx)`, and the mask is the accessibility mask searched from the centre `(r, r, r)` |
| `Locators.InterestingInBox` | python/craftassist/perception.py:77 | every accessible-interesting cell lies in the window |
| `Locators.Remap` | python/craftassist/perception.py:50-53 | one list per component, same length, each cell mapped to its world position and paired with the window entry there |
| `Locators.RemapWorld` | python/craftassist/perception.py:50-53 | each remapped block's `(id, meta)` is what the world reports at its world position |
| `Locators.RemapLocal` | python/craftassist/perception.py:50-53 | mapping the remapped world positions back to window indices gives the components again |
| `Locators.RemapNearby` | python/craftassist/perception.py:47-53 | remapping a component list of the nearby mask yields a valid list of nearby objects |
| `Locators.AllNearbyObjects` | python/craftassist/perception.py:39-54 | the objects, read back into window indices, are a component list (non-empty, each a whole diagonal component, together a duplicate-free partition, each starting at its first cell in scan order and listed in that order) of the accessibility mask of the window around `pos`; each block's `(id, meta)` is the world's at its position; no objects iff the mask is empty |
| `Locators.Manhattan` | python/craftassist/perception.py:66 | the distance is non-negative and zero iff the centroid is the point |
| `Locators.CentroidSingleton` | python/craftassist/perception.py:65 | the centroid of one point is that point, at distance zero |
| `Locators.FirstMinIndex` | python/craftassist/perception.py:67 | the index `argmin` picks: a minimal value, and every earlier value is strictly larger |
| `Locators.Closest` | python/craftassist/perception.py:113-117 | None iff there are no components, otherwise the first component whose centroid distance is minimal |
| `Locators.ClosestPrefersPoint` | python/craftassist/perception.py:63-67 | a one-cell component at the query point is at distance zero, so the chosen component is at distance zero |
| `Locators.ObjectDists` | python/craftassist/perception.py:64-66 | one centroid distance per object |
| `Locators.ClosestObject` | python/craftassist/perception.py:64-67 | None iff there are no objects, otherwise an object whose centroid distance is minimal and strictly smaller than every earlier one's |
| `Locators.NearbyObjectsNonEmpty` | python/craftassist/perception.py:47-53 | every nearby object has at least one block |
| `Locators.ClosestNearbyObject` | python/craftassist/perception.py:57-67 | None iff the accessibility mask around `pos` is empty; otherwise the closest object, in the sense of `ClosestObject`, of a valid list of nearby objects |
| `Locators.FindClosestComponent` | python/craftassist/perception.py:103-117 | None iff the mask is empty, otherwise the first nearest component of a partition of the mask whose components each start at their first cell in scan order and are listed in that order |
| `Inside.FixedAxis` | python/craftassist/perception.py:224 | the held axis lies in the slice, i.e. differs from the slice's normal |
| `Inside.CheckAxis` | python/craftassist/perception.py:225 | the checked axis is the third axis, neither the normal nor the held one |
| `Inside.SliceAxes` | python/craftassist/perception.py:223-226 | the two lines of a slice swap the held and checked in-plane axes, and the three axes are all distinct |
| `Inside.Coplanar` | python/craftassist/perception.py:222 | exactly the entity-1 points sharing `b`'s coordinate on the normal axis |
| `Inside.Colinear` | python/craftassist/perception.py:226 | exactly the checked coordinates of the coplanar points sharing `b`'s held coordinate |
| `Inside.Max` | python/craftassist/perception.py:230 | an element of the list at least every element |
| `Inside.Min` | python/craftassist/perception.py:230 | an element of the list at most every element |
| `Inside.LineBracketsIff` | python/craftassist/perception.py:226-231 | the empty/max/min test of one line holds iff entity 1 has a point strictly below and one strictly above `b` on that line |
| `Inside.SomeAxisIff` | python/craftassist/perception.py:220-233 | the axis loop succeeds iff some axis gives a slice where both lines bracket `b` |
| `Inside.SomeLocationIff` | python/craftassist/perception.py:219-234 | the location loop succeeds iff some location of entity 0 is bracketed in some slice |
| `Inside.CheckInsideIff` | python/craftassist/perception.py:204-234 | false when any entity has no locations; otherwise true iff some `b` of entity 0 and some axis give a slice through `b` in which entity 1 strictly brackets `b` along both in-plane lines |
| `Inside.BracketedBy` | python/craftassist/perception.py:226-231 | two entity-1 points on the line, one on each side of `b`, make the line bracket `b` |
| `Inside.RingCentreInside` | python/craftassist/perception.py:204-234 | the centre of a 3x3 square ring is inside the ring |
| `Inside.BracketedNotBeyond` | python/craftassist/perception.py:220-231 | a point bracketed along one line of a slice shares the slice and fixed coordinates with points of entity 1 and lies between two of them on the checked axis, so on no axis are all of entity 1's locations on one side of it |
| `Inside.OutsideBoxNotInside` | python/craftassist/perception.py:204-234 | a point outside the bounding box of entity 1 (beyond all of its locations along some axis) is never inside it, which is why `find_inside` only scans that box |
| `Inside.Lower` | python/craftassist/perception.py:246 | a componentwise lower bound of every location |
| `Inside.Upper` | python/craftassist/perception.py:245 | a componentwise upper bound of every location |
| `Inside.ScanLine` | python/craftassist/perception.py:250-252 | the z loop keeps the scan state: exactly the kept box points before the scan position, in scan order |
| `Inside.ScanPlane` | python/craftassist/perception.py:249-252 | the y loop keeps the same scan state through a plane |
| `Inside.FindInside` | python/craftassist/perception.py:237-252 | no result iff the entity has no locations, the ValueError of the bounds of an empty location list iff its list is empty; otherwise exactly the points of its bounding box that `check_inside` accepts, in `(x, y, z)` scan order |
| `Lists.SortDescCorrect` | python/craftassist/perception.py:277 | the sort is descending on `(z, y, x)`, a permutation, and stable: blocks with equal keys keep their order |
| `Lists.InsertDescending` | python/craftassist/perception.py:277 | inserting into a descending list keeps it descending |
| `Lists.InsertMultiset` | python/craftassist/perception.py:277 | inserting adds exactly the new block |
| `Lists.InsertWithKey` | python/craftassist/perception.py:277 | inserting puts the block after the blocks of equal key and leaves other keys' blocks in place |
| `Lists.SortBlocks` | python/craftassist/perception.py:277 | the caller's array is sorted in place: its new contents are the stable descending sort of the old |
| `Lists.CeilPercent` | python/craftassist/perception.py:281-282 | the least count r with `100 r >= pct n` |
| `Lists.Clamp` | python/craftassist/perception.py:286-288 | a Python slice bound: in-range bounds kept, negative ones counted from the end, the rest clamped to the list |
| `Lists.PySlice` | python/craftassist/perception.py:286-288 | Python's `s[lo:hi]`: the elements between the resolved bounds, empty when they cross |
| `Lists.LabelTopBottomBlocks` | python/craftassist/perception.py:256-290 | the caller's list is sorted in place, descending by `(z, y, x)`, and the labels are its three slices |
| `Lists.LabelPartition` | python/craftassist/perception.py:283-288 | when both counts fit, top, neither and bottom concatenate back to the sorted list with the counted sizes |
| `Lists.NeitherEmptyWhenCrowded` | python/craftassist/perception.py:283-288 | when the top and bottom counts reach the list length, nothing is labelled neither |
| `Lists.ZeroBottomIsWholeList` | python/craftassist/perception.py:287 | a bottom count of zero labels the whole list bottom |
| `Lists.DefaultsPartition` | python/craftassist/perception.py:256-283 | with the default 15% and 25% every list of two or more blocks is split without overlap |
| `Lists.SingleBlockOverlap` | python/craftassist/perception.py:281-288 | a single block is labelled both top and bottom, and nothing is neither |
| `Lists.TopIsHighest` | python/craftassist/perception.py:277-286 | every top block is at least as high, in `(z, y, x)` order, as every block after it |
| `Lists.Transpose` | python/craftassist/perception.py:320-321 | the `[x][y][z]` array holds at `(a, b, c)` the `[y][z][x]` entry at `(b, c, a)` |
| `Lists.TransposedWindow` | python/craftassist/perception.py:317-321 | transposing the window read from the world gives the world's blocks around `p` indexed `[x][y][z]` |
| `Lists.FoundStep` | python/craftassist/perception.py:324-328 | visiting one window index appends its world block exactly when its id is positive, keeping the found list sorted |
| `Lists.FindAlongZ` | python/craftassist/perception.py:322-328 | the innermost loop keeps the found list exactly the blocks with a positive id before the scan position |
| `Lists.FindAlongY` | python/craftassist/perception.py:322-328 | the middle loop keeps the found list exactly the blocks with a positive id before the scan position, through a plane |
| `Lists.ReadCube` | python/craftassist/perception.py:317-319 | the cube of radius r read around `p` is the world's blocks there in `[y][z][x]` order |
| `Lists.FindNearbyBlocks` | python/craftassist/perception.py:312-329 | an entry is in the result iff its position is in the cube around `p`, the world's id there is positive, and the entry is that `(id, meta)`; entries are in `(x, y, z)` order |
| `Holes.GetBlockInfo` | python/craftassist/perception.py:380-391 | the height is the highest at or below the scan start whose block is not air, not the location, not the agent and not id 383, and the `(id, meta)` is that block |
| `Holes.SurveyColumn` | python/craftassist/perception.py:423 | column `(i, j)` gets the surface of world column `(i - radius + sx, j - radius + sz)` |
| `Holes.SurveyRow` | python/craftassist/perception.py:422-424 | a row of surfaces, and one heap entry one above each surface |
| `Holes.SurveyWindow` | python/craftassist/perception.py:421-424 | every column of the square window holds its surface height and block, and the heap holds exactly the survey's entries |
| `Holes.EntriesOk` | python/craftassist/perception.py:424 | every survey entry lies in the window with `h == y ==` its column's height plus one |
| `Holes.EntriesSeeded` | python/craftassist/perception.py:424 | the survey's entries meet the heap invariant the sweep starts from |
| `Holes.MinExists` | python/craftassist/perception.py:427 | a non-empty heap has a least entry in `heapq`'s order |
| `Holes.PopMin` | python/craftassist/perception.py:427 | `heappop` returns a least entry and removes exactly it |
| `Holes.PopEntry` | python/craftassist/perception.py:427 | popping keeps the heap invariant, shrinks the heap, and the popped entry has `h == y` and lies in the window |
| `Holes.HeapOkPop` | python/craftassist/perception.py:427 | removing an entry keeps the heap invariant for the rest and for the removed entry |
| `Holes.ExamineSame` | python/craftassist/perception.py:409-410 | folding in the exploration of a same-height neighbour combines edge freedom, wall bounds, visited neighbours and candidate walls of both |
| `Holes.ExamineWall` | python/craftassist/perception.py:411-413 | a different-height neighbour adds one wall bound and becomes a candidate wall `(id, meta)` |
| `Holes.ExamineEdge` | python/craftassist/perception.py:414-416 | a neighbour outside the window makes the exploration touch the edge |
| `Holes.SameStep` | python/craftassist/perception.py:409-410 | the running minimum with a same-height neighbour's `dfs` result keeps the exploration's meaning |
| `Holes.WallStep` | python/craftassist/perception.py:411-413 | the running minimum with a wall's height keeps the exploration's meaning, and `current_idm` becomes that wall's block |
| `Holes.EdgeStep` | python/craftassist/perception.py:414-416 | returning `-100000` at an out-of-window neighbour is what an exploration touching the edge yields |
| `Holes.DfsSpec` | python/craftassist/perception.py:396-417 | `dfs` as a function of the height and block maps and the state it starts from: the start cell ends visited and no cell is ever un-visited |
| `Holes.NbrSpec` | python/craftassist/perception.py:405-416 | the remaining directions of `dfs`'s loop never un-visit a cell |
| `Holes.NbrStep` | python/craftassist/perception.py:406-413 | one in-window direction of `dfs`'s loop never un-visits a cell |
| `Holes.DfsExplores` | python/craftassist/perception.py:396-417 | the state `dfs` ends in explores columns that share the start's height, were unvisited, and are each visited and appended to the region once; its result is `-100000` when an explored column touches the window edge, otherwise the least height of the explored columns' different-height neighbours, capped at `100000`; without an edge every same-height neighbour of an explored column is visited; `current_idm` is the one it started with or a wall's block; from a visited cell nothing changes |
| `Holes.NbrExplores` | python/craftassist/perception.py:405-416 | the loop from direction `d` completes the exploration of the column with that same meaning |
| `Holes.StepExplores` | python/craftassist/perception.py:406-413 | one in-window direction carries the exploration's meaning one direction further |
| `Holes.HoleSweep.Dfs` | python/craftassist/perception.py:396-417 | the result, the visited set, the region and `current_idm` (the last different-height neighbour examined) are exactly those `DfsSpec` gives; the maps, heap and holes are unchanged |
| `Holes.HoleSweep.Neighbours` | python/craftassist/perception.py:405-417 | the four-direction loop of `dfs` on a just-visited column ends in the state `NbrSpec` gives from direction 0 |
| `Holes.HoleSweep.Examine` | python/craftassist/perception.py:406-413 | one in-window direction of the loop ends in the state `NbrStep` gives |
| `Holes.HoleSweep.Explore` | python/craftassist/perception.py:437-440 | the region and wall block are reset, `dfs` runs, and the region is accepted iff no explored column touches the window edge and every different-height neighbour of an explored column is at least `h` high; without an edge, every same-height neighbour of an explored column is visited; the visited set, region and `current_idm` are those of `DfsSpec` from an empty region and the default block, and acceptance is `h` at most its result |
| `Holes.AcceptRegion` | python/craftassist/perception.py:441-451 | a new hole opens whose coordinates are the region followed by those of each hole a member column was tagged with, in member-column order and each such hole once; each member column rises by exactly one, gets one heap entry at `y + 1` and is tagged with the new hole; each previously tagged hole is appended and voided to `([], (0, 0))`; every other column and hole is unchanged; no coordinate is lost or duplicated |
| `Holes.AcceptCell` | python/craftassist/perception.py:443-451 | one member column of the acceptance loop extends the accepted state by that column |
| `Holes.CellAccepted` | python/craftassist/perception.py:443-451 | raising, pushing, merging and tagging one more member column extends the accepted state by that column |
| `Holes.MergeCoords` | python/craftassist/perception.py:449-450 | appending hole j to hole i and voiding slot j keeps the multiset of all coordinates |
| `Holes.FrontStep` | python/craftassist/perception.py:448-449 | merging a tagged hole extends the new hole's coordinates by exactly that hole's, after those it already has; an untagged column adds nothing |
| `Holes.HolesCell` | python/craftassist/perception.py:448-450 | one more member column extends the hole list: its tagged hole's coordinates are appended to the new hole unless an earlier column already brought that hole in, the holes tagged so far are void and the multiset of coordinates is kept |
| `Holes.MapsCell` | python/craftassist/perception.py:447-451 | one more member column is raised by one and tagged with the new hole, and no other column changes |
| `Holes.MergeStep` | python/craftassist/perception.py:448-450 | merging the tagged hole of one more column voids exactly the holes tagged so far and keeps the coordinates |
| `Holes.RaiseStep` | python/craftassist/perception.py:447 | raising one more column keeps "raised by exactly one iff a member" |
| `Holes.TagStep` | python/craftassist/perception.py:451 | tagging one more column keeps "tagged with the new hole iff a member" |
| `Holes.HoleSweep.Accept` | python/craftassist/perception.py:440-451 | the sweep's fields change as `AcceptRegion` describes and nothing else changes |
| `Holes.AcceptHeap` | python/craftassist/perception.py:446-447 | after acceptance every heap entry still has `h == y` and is visited or one above its column |
| `Holes.AcceptHoles` | python/craftassist/perception.py:441-451 | after acceptance every hole coordinate is a visited cell and occurs once in all holes |
| `Holes.HoleSweep.constructor` | python/craftassist/perception.py:368-377 | `max_height` is five above the location, the maps are filled with `sz`, `-1` and `(0, 0)`, and the visited set, heap and holes are empty |
| `Holes.HoleSweep.Survey` | python/craftassist/perception.py:421-424 | the height and block maps hold each column's surface and the heap holds one entry above each |
| `Holes.HoleSweep.Step` | python/craftassist/perception.py:426-451 | one pop: a skipped entry shrinks the heap, a visited one adds a new cell; a visited entry is at most `max_height` and its height equals its column's height plus one, so the sanity check never fails |
| `Holes.HoleSweep.Visit` | python/craftassist/perception.py:437-451 | the visited set, region and `current_idm` are those of `DfsSpec`; the region is accepted iff `h` is at most its result, i.e. iff it touches no edge and all its walls are at least `h`; an accepted region changes holes, heights, tags and heap exactly as `AcceptRegion` describes, a rejected one changes none of them; the heap and hole invariants survive |
| `Holes.HoleSweep.Commit` | python/craftassist/perception.py:440-451 | accepting changes holes, heights, tags and heap exactly as `AcceptRegion` describes, leaves the visited set, region and `current_idm` alone, and keeps the heap and hole invariants |
| `Holes.HoleSweep.Sweep` | python/craftassist/perception.py:426-451 | the loop terminates with an empty heap; hole coordinates are distinct, in the window and at most `max_height` high |
| `Holes.AirOnly` | python/craftassist/perception.py:457-458 | exactly the coordinates the world reports as air, in order |
| `Holes.DropEmpty` | python/craftassist/perception.py:462 | exactly the holes with at least one coordinate, in order |
| `Holes.AirHolesCoords` | python/craftassist/perception.py:456-459 | filtering each hole keeps, hole after hole, exactly the air coordinates |
| `Holes.DropEmptyCoords` | python/craftassist/perception.py:462 | dropping empty holes loses no coordinate |
| `Holes.PostFilter` | python/craftassist/perception.py:453-462 | the result is the input holes, each cut down to its air coordinates and keeping its `(id, meta)`, in input order, with the holes left empty dropped; so every returned hole is non-empty and all air, and the returned coordinates are exactly the air coordinates of the input in order |
| `Holes.FilteredCoords` | python/craftassist/perception.py:456-462 | filtering distinct in-window coordinates leaves them distinct and in the window |
| `Holes.GetAllNearbyHoles` | python/craftassist/perception.py:366-464 | every returned hole is non-empty and all air, no coordinate is returned twice, and every coordinate lies in the window at most five above the location |

## Left out

- `in_hull` and `check_between` (lines 29-36, 151-186): they rely on a linear-programming solver and float "fattening"; as written, line 185 passes `bounding_locs[2]` as the axis argument of `np.concatenate` and the per-axis vector `f` (lines 173-180) is never used, so there is no coherent behaviour to state.
- `find_between` (lines 189-201): `means` is reset inside the loop and the function returns after the first entity, so `means[1]` raises; there is no intended behaviour to model from the code.
- `polar_to_dxdydz` (floating-point trigonometry) and `ground_height` (`np.convolve` and a median filter) are not modelled.
- `find_nearby_mobs`: float mob positions from the agent and the external mob-name table.
- `python/craftassist/dialogue_objects/interpreter.py` is not part of this model: it dispatches commands to external task, memory and dialogue objects.
- World and foreign I/O (`agent.get_blocks`, `util.fill_idmeta`, `util.get_locs_from_entity`, the `minecraft_specs` loads, logging): modelled as the world oracle, or as inputs (an entity is its list of locations, or None).
- `search.depth_first_search` and `util.diag_adjacent` are not part of this model; the flood fill is modelled with 6-neighbour face adjacency for the default and 26 neighbours for `diag_adjacent`.
- `Components.ConnectedComponents`: each component is listed in the order the search accepted its cells, so it starts at its seed; the source lists a Python `set`, whose order is unspecified, so the model fixes one of the orders the source allows.
- `Locators.AllNearbyObjects`: takes an integer position; the source first rounds a float position with `np.round` to `int32` and builds the window around the rounded point. 32-bit overflow is not modelled.
- `Locators.ClosestNearbyObject`: takes an integer position; with a float position the source measures distances to the unrounded point (lines 65-66) while the window is around the rounded one (line 46). Centroids and distances are exact rationals; the source's float means could break a near-tie differently.
- Default arguments are taken explicitly: `find_nearby_blocks` with `p=None` falls back to `agent.pos` (lines 315-316), which the model leaves to the caller of `Lists.FindNearbyBlocks` through its `p` parameter; `get_all_nearby_holes`'s `radius=15` (line 366) is an ordinary parameter of `Holes.GetAllNearbyHoles`.
- `Inside.FindInside`: returns the inside points in scan order; the final sort by float Euclidean distance to the rounded mean (line 253) is not modelled.
- `Lists.LabelTopBottomBlocks`: the counts are exact ceilings of `pct * n / 100`; the source's float `math.ceil((pct / 100) * n)` can be one larger when the product rounds up. A tuple argument, which the source copies to a list, is not modelled: the model always sorts the caller's array. The percentages are natural numbers: fractional or negative values, which the source accepts, are not modelled.
- `Inside.CheckInside`: requires at least two entities. With fewer, the source raises IndexError on `locs[0]` or `locs[1]` (lines 219 and 222) unless an entity has no locations or a single entity has an empty location list, where it returns False.
- `Holes.GetBlockInfo`: the source's downward scan has no lower bound, so the model requires an accepted block at or below the scan start (the source loops forever without one).
- `Holes.HoleSweep.Sweep`: its contract states the invariants of the hole list (distinct, visited, in-window coordinates) and that the sanity check never fails, not the exact list of holes produced.
- `Holes.GetAllNearbyHoles`: its contract states properties of every returned hole, not the exact hole list; which holes are found is stated one exploration at a time: `Visit` ties each exploration to `DfsSpec` and states when it is accepted, and `AcceptRegion` states what acceptance changes.
