# Room confinement of the MINOS random-walk explorer

A Dafny model of the room-confinement logic in `minos/tools/pygame_client.py`, the
pygame client of the MINOS indoor-navigation simulator. A scripted explorer there
drives the agent at random while keeping it inside one room. The model covers four
pieces:

- the 3x3 partition of a room's rectangle (`calculate_nine_region_bounds`);
- the closed x/z rectangle test (`is_within_region`) and the row-major cell lookup (`get_region`);
- the six movement keys, their opposites (`reverse_action`) and the random pick among them (`get_random_action`);
- the explorer's step (`generate_key_press_random`). It keeps its module-level globals as an explicit `ExplorerState` record. It answers the 323-entry key vector.

Positions are `real` triples. The source compares coordinates, subtracts, adds and
scales by 2 and by 1/3; all of these are exact on reals. The random draw is a parameter: the integer `random.randint` would
return, constrained to its range.

Modules:

- `Wrappers`: `Option`, for Python's None.
- `Geometry`: `Position`, `Region`, `IsWithinRegion`.
- `NineRegions`: `NineRegionBounds`, `GetRegion`, and the lemmas about coverage and axis direction.
- `Actions`: key codes, `ReverseAction`, `RandomAction`, `KeyVector`.
- `RandomWalk`: `ExplorerState`, `Frame` (one call's arguments), `GenerateKeyPressRandom`, and the `Explore` loop of repeated calls.

The exploration loop passes the current room as both the confining room and the agent's room, and passes an empty `room_bounds`. So in that call the exit branch never fires (`CallerNeverConfines`). The model still covers the exit branch for any caller.

Two behaviours are modelled exactly as the code has them:

- **Descending axis.** When the end does not exceed the start on an axis, the inner cell boundaries are `start - k*(end-start)/3`. They land at or beyond the start (at it on a flat axis), on the side away from the end. The room is still covered, because the last column or row spans from the far inner boundary back to the end. But the first column meets the room only on the line x = start.x, and the second lies wholly outside it (`DescendingColumns`, `DescendingStartLine`, `DescendingCellLeavesRoom`). The same holds for rows on a descending z axis (`DescendingRows`). `UniformEdges` states every boundary in one formula: the inner boundary k sits at start + k*abs(end-start)/3 whichever way the axis runs.
- **No opposite.** `reverse_action(0)` is None. On a first call made outside the room, the action becomes None. `empty_keys[None] = 1` then indexes with numpy's new axis, so the write broadcasts and all 323 entries become 1. The None action persists until a collision inside the room (`Explore`).

## Model

| member | source | states |
|---|---|---|
| Geometry.IsWithinRegion | minos/tools/pygame_client.py:308-312 | The point is inside exactly when its x lies between the two corner x values and its z between the two corner z values, in either order. |
| Geometry.WithinSymmetric | minos/tools/pygame_client.py:308-312 | Swapping a region's start and end corners never changes the test. |
| Geometry.WithinIgnoresY | minos/tools/pygame_client.py:308-312 | The test reads only x and z: changing the point's or the region's y values changes nothing. |
| Geometry.CornersWithin | minos/tools/pygame_client.py:308-312 | Both corners of a region pass the test, since it is closed. |
| NineRegions.NineRegionBounds | minos/tools/pygame_client.py:194-306 | Three rows of three cells. Every y is the start's y. Cell [0][0] starts at the start. The last column ends at the end's x and the last row at the end's z. Neighbouring cells share edges, and each column has one x extent and each row one z extent. |
| NineRegions.GetRegion | minos/tools/pygame_client.py:314-332 | Returns k in 1..9 only when cell k holds the point and no earlier cell in row-major order does. Returns None exactly when no cell holds it. |
| NineRegions.RegionByBands | minos/tools/pygame_client.py:194-332 | On a partition, the reported cell is row-major number 3*row+col+1. The row is the first z band holding the point and the column the first x band. The result is None when either axis has no such band. |
| NineRegions.NineRegionsCoverRoom | minos/tools/pygame_client.py:194-332 | For every start and end, each point of the spanned rectangle lies in some cell. |
| NineRegions.AscendingEdges | minos/tools/pygame_client.py:195-227 | On an ascending axis the boundaries are start + k(end-start)/3 for k = 0..3, strictly increasing. |
| NineRegions.AscendingCells | minos/tools/pygame_client.py:194-306 | When the end exceeds the start on x and z, every cell's corners sit at the thirds of the room. |
| NineRegions.AscendingRegion | minos/tools/pygame_client.py:194-332 | On an ascending room, a room point gets the cell whose row and column are the first thirds reaching its z and x. |
| NineRegions.RegionIffInRoom | minos/tools/pygame_client.py:194-332 | When neither axis descends, a point has a cell exactly when it lies in the room. |
| NineRegions.DescendingColumns | minos/tools/pygame_client.py:195-227 | On a descending x axis, both inner boundaries lie beyond the start. A room point short of the start's x is found only in cell 3, 6 or 9. |
| NineRegions.DescendingEdges | minos/tools/pygame_client.py:195-227 | On a descending or flat axis the inner boundaries are start + k(start-end)/3 for k = 1, 2, moving away from the end. |
| NineRegions.DescendingRows | minos/tools/pygame_client.py:194-332 | On a descending z axis, both inner row boundaries lie beyond the start. A room point short of the start's z is found only in cell 7, 8 or 9. |
| NineRegions.UniformEdges | minos/tools/pygame_client.py:194-306 | For every start and end, column j starts at start.x + j*abs(end.x-start.x)/3 and row i at start.z + i*abs(end.z-start.z)/3. Columns 0 and 1 end at the next such boundary and the last column at end.x; likewise rows on z. |
| NineRegions.DescendingStartLine | minos/tools/pygame_client.py:194-332 | On a descending x axis, a room point on the line x = start.x is reported in column 0, as cell 1, 4 or 7. |
| NineRegions.DescendingCellLeavesRoom | minos/tools/pygame_client.py:195-227 | On a descending x axis, some point outside the room, on the first cell's far x edge, is reported as cell 1. |
| Actions.ReverseAction | minos/tools/pygame_client.py:361-374 | Gives an opposite exactly for the six codes, and None for any other code. The opposite is another of the six codes and is a rotation exactly when the input is one. |
| Actions.ReverseInvolution | minos/tools/pygame_client.py:361-374 | Reversing a code twice gives it back. |
| Actions.ReversePairs | minos/tools/pygame_client.py:342-374 | The opposite of each code is its pair partner in the action list: 119/115, 97/100, 276/275. |
| Actions.RandomAction | minos/tools/pygame_client.py:334-354 | Returns one of the four moves without rotation, and one of the six codes with it. It returns a rotation only when rotation is allowed. |
| Actions.RandomActionBijective | minos/tools/pygame_client.py:334-354 | Exactly one draw value yields each allowed code, so a uniform draw gives a uniform action. |
| Actions.KeyVector | minos/tools/pygame_client.py:417-419 | An index in range gives 323 entries with a single 1 at that index, counted from the end when negative. An index out of range raises IndexError. None gives 323 ones. |
| Actions.ActionKeyIsOneHot | minos/tools/pygame_client.py:417-419 | Each of the six codes gives a one-hot vector at its own index. |
| RandomWalk.GenerateKeyPressRandom | minos/tools/pygame_client.py:376-419 | The previous action becomes the last call's action. The reversal flag is set exactly when the agent is outside. The answer is the chosen action's key vector. The action is kept, reversed, forward or a fresh allowed draw. The step preserves the reachable-globals invariant and never chooses 0 again. |
| RandomWalk.ExitReversesThenHolds | minos/tools/pygame_client.py:379-397 | Outside the room or region, the first step presses the opposite of the last key and later steps repeat that key. The reversal flag stays true. |
| RandomWalk.CollisionDrawsRandom | minos/tools/pygame_client.py:399-402 | A collision inside draws a random action and clears the reversal flag. |
| RandomWalk.QuietStep | minos/tools/pygame_client.py:403-413 | With no collision, the first action is forward. A rotation with an even counter resets the counter and draws afresh. Any other action repeats. |
| RandomWalk.CounterRule | minos/tools/pygame_client.py:407-416 | The counter grows by one exactly when the chosen action is a rotation. A rotation run that ends first resets it to 0. |
| RandomWalk.KeysOneHot | minos/tools/pygame_client.py:415-419 | From reachable globals, the vector has 323 entries. It is one-hot at the action when the action is one of the six codes. Otherwise the action is None and every entry is 1. |
| RandomWalk.ActionKeysClosed | minos/tools/pygame_client.py:379-413 | Once the action is one of the six codes, it stays one. |
| RandomWalk.NoActionPersists | minos/tools/pygame_client.py:379-413 | A None action stays None unless a collision inside draws one of the six codes. |
| RandomWalk.RotationComesInPairs | minos/tools/pygame_client.py:403-416 | A rotation carried with an odd counter is pressed once more, then the next quiet call draws again with the counter restarted. |
| RandomWalk.CollisionRotationPressedOnce | minos/tools/pygame_client.py:399-416 | A collision draw leaves the counter unreset. A rotation drawn on a collision while the counter is odd makes it even, so the next quiet call draws again after a single press. |
| RandomWalk.CallerNeverConfines | minos/tools/pygame_client.py:571-572 | The exploration loop passes the current room as the room to keep to and no region bounds. Such a frame is never outside, and the reversal flag is never set. |
| RandomWalk.Explore | minos/tools/pygame_client.py:356-419 | Calls the step once per frame from the loaded globals. Every vector has 323 entries and presses the action's key alone. The action is one of the six codes exactly when the first frame was inside or a collision inside has happened since. Otherwise it is None and every key is pressed. |

## Left out

- Coordinates are exact reals. The source uses floats, so its subtraction, addition, doubling and division by three round. That rounding is not modelled.
- `random.randint` is a draw parameter within its range. So the `except IndexError` fallback of `get_random_action` (lines 349-353) cannot be reached and is not modelled.
- `time.sleep(0.5)` and the `print` calls of the step are left out. They do not affect the result.
- NineRegions.GetRegion: requires at least three rows of at least three cells. The source raises IndexError lazily, only on reaching a missing cell. Every grid `calculate_nine_region_bounds` builds has that shape.
- The test `current_position != [0,0,0]` is modelled as inequality to the origin `Position`. This agrees with Python only when the position is a list of numbers. Later positions come from the simulator (line 756), whose type is not visible. At line 572 the test is never evaluated, because `room_bounds={}` is falsy.
- Room ids are modelled as strings, for which a value always equals itself. The caller reads them from a pandas row (line 543). An empty cell there reads as NaN, and NaN != NaN, so line 380 would take the exit branch. `CallerNeverConfines` assumes real string ids.
- The main loop's use of the explorer is not modelled (lines 536-649). That covers reading `positions.csv`, building `room_bounds`, the timing per room and the CSV updates on the X and C keys. The `Explore` method stands in for the repeated calls only.
- All pygame rendering, audio, video writing, window layout and keyboard polling are left out. They are UI over a library not part of this model.
- The `Simulator`, `ActionTraces`, `StateSet` and `VideoWriter` components are not part of this model.
- `get_angle` and `get_angle_rad` are left out. They are floating-point `atan2` trigonometry.
- `main`'s argument parsing and top-level exception handling are left out.
