# Tile resource mapper: a Dafny model

This project models the core of the Rust crate `tile-resource-mapper-tool`.
The crate is a tool for a robot that explores a grid world. It reads the
robot's known map, one `Option<Tile>` per cell with `None` for an
undiscovered cell, and builds a resource index. The index maps each tile
content to the list of `(coordinate, quantity)` pairs of the tiles that
hold it. The crate also has a `find_most_loaded` query, the value type
`MapCoordinate` and the error enum `ToolError`.

Modules:

- `Wrappers` holds `Option` and `Result`.
- `Coordinates` holds `MapCoordinate` (src/coordinates/mod.rs) over `usize`, taken as 64-bit.
- `ToolErrors` holds `ToolError` and its `Display`/`Debug` text (src/errors/mod.rs).
- `RangeIter` holds the std behaviour the tool relies on: `Range<usize>::next`, and `Iterator::cmp` against a `&mut Range<usize>`. That compare is lexicographic. It also advances the borrowed range past every element it pulls.
- `Index` holds what both builders share: the known map (`Grid`), its row-major scan (`GridScan`) and the `entry().and_modify(push).or_insert(vec![..])` step (`Insert`). It also holds the index that inserting a scan produces (`Build`) and an independent filter reference (`Select`).
- `TileMapper` holds `collection`, `insert_in_map` and `find_most_loaded` of src/tool/mod.rs, as imperative methods with loop invariants.
- `LegacyTileMapper` holds the older `collection` and `insert_in_map` of src/main.rs, which store raw `(row, column)` tuples.

Foreign inputs are parameters:

- `robot_map`'s result is the input `robotMap: Option<Grid<C>>`.
- `Content` is the type parameter `C`.
- Content's `Eq`/`Hash`, which decide which contents share a list, are the function `key: C -> K`.
- `Content::get_value` is the function `getValue: C -> ContentQuantity`.
- `ContentQuantity` is kept as the pair of options it is in the code.

## Behaviour of the code that its tests and comments do not expect

The model follows the code in each case below.

- `insert_in_map` stores `(row, col).into()`, so the width is the row index and the height is the column index (`TileMapper.EntryOf`, `TileMapper.CollectionComplete`). The test at src/tests/mod.rs:122-124 expects the tile `map[1][3]` as `MapCoordinate::new(3,1)`. The code gives `(1,3)`.
- Empty tiles are not filtered out. Every discovered tile is indexed under its own key, including `Content::None` (`TileMapper.CollectionKeys`). The expected index in the tests has no such key.
- `find_most_loaded` runs its scan and then discards it. It always answers `Ok(MapCoordinate::new(0,0))` when the content is known (`TileMapper.FindMostLoaded`). The test at src/tests/mod.rs:439-443 expects `(3,1)`.
- In the range branch, the first `r.cmp(&mut range)` consumes `range`. So a range equal to a non-empty running range is never adopted, although the code writes `Greater || Equal`. After such a tie the running range is left empty, and any non-empty range adopted next wins even if it is smaller (`TileMapper.RangeStep`, `TileMapper.RangeStepExample`). The result is discarded, so no answer of the tool depends on this.
- The distance test at src/tests/mod.rs:82-88 expects `sqrt 10` for (4,0)-(3,1). The squared distance there is 2 (`Coordinates.DistanceTestValues`).
- src/tool/mod.rs:13 imports `ContentNotDiscovered` and `WorldNotDiscovered` from `ToolError`, which declares neither. The model gives the two outcomes their own type, `TileMapper.FindError`.

The crate has no working nearest-tile query (`find_closest` is `todo!()`), it does not skip empty tiles, and it stores a tile's position as (row, column).

## Model

| member | source | states |
|---|---|---|
| `Coordinates.MapCoordinate.New` | src/coordinates/mod.rs:41-57 | `get_width`/`get_height` of `new(w, h)` give back `w` and `h` |
| `Coordinates.MapCoordinate.GetWidth` | src/coordinates/mod.rs:55-57 | the width returned is the coordinate's first component: with the height it makes up the whole value |
| `Coordinates.MapCoordinate.GetHeight` | src/coordinates/mod.rs:87-89 | the height returned is the coordinate's second component: with the width it makes up the whole value |
| `Coordinates.MapCoordinate.SetWidth` | src/coordinates/mod.rs:73-75 | the width becomes the argument; the height stays |
| `Coordinates.MapCoordinate.SetHeight` | src/coordinates/mod.rs:105-107 | the height becomes the argument; the width stays |
| `Coordinates.SettersCommute` | src/coordinates/mod.rs:73-107 | setting width then height equals height then width, equals `new(w, h)` |
| `Coordinates.MapCoordinate.Eq` | src/coordinates/mod.rs:116-120 | `eq` holds exactly when the two coordinates are the same value |
| `Coordinates.MapCoordinate.Add` | src/coordinates/mod.rs:122-130 | component-wise sum; requires that neither sum leaves `usize` |
| `Coordinates.MapCoordinate.Sub` | src/coordinates/mod.rs:132-140 | component-wise difference; requires each right component at most the left one (`usize`) |
| `Coordinates.AddThenSub` | src/coordinates/mod.rs:122-140 | `(a + b) - b == a` |
| `Coordinates.SubThenAdd` | src/coordinates/mod.rs:122-140 | `(a - b) + b == a` when the subtraction is defined |
| `Coordinates.AddCommutes` | src/coordinates/mod.rs:122-130 | `a + b == b + a` |
| `Coordinates.MapCoordinate.From` | src/coordinates/mod.rs:142-149 | the tuple's first component is the width, the second the height |
| `Coordinates.MapCoordinate.Into` | src/coordinates/mod.rs:151-155 | the tuple is (width, height) |
| `Coordinates.FromIntoRoundTrip` | src/coordinates/mod.rs:142-155 | tuple to coordinate to tuple, and coordinate to tuple to coordinate, are identities |
| `Coordinates.MapCoordinate.SquaredDistance` | src/coordinates/mod.rs:109-113 | the squared distance is 0 exactly when the two points coincide |
| `Coordinates.DistanceSymmetric` | src/coordinates/mod.rs:109-113 | the distance does not depend on argument order |
| `Coordinates.DistanceTestValues` | src/tests/mod.rs:82-88 | (4,0)-(1,1) has squared distance 10 both ways; (4,0)-(3,1) has 2 |
| `ToolErrors.ToolError.Display` | src/errors/mod.rs:16-23 | `EmptyCoordinates` shows "Empty Coordinates"; `Other(m)` shows exactly `m`; defined for both variants |
| `ToolErrors.ToolError.Debug` | src/errors/mod.rs:10-14 | the same texts as `Display`, variant by variant |
| `ToolErrors.DebugIsDisplay` | src/errors/mod.rs:10-23 | `Debug` output equals `Display` output for every error |
| `ToolErrors.DisplayOtherInjective` | src/errors/mod.rs:20 | two `Other` errors display alike exactly when their messages are equal |
| `RangeIter.Next` | src/tool/mod.rs:108-109 | yields the first element of the range and leaves the rest; an empty range yields nothing and is unchanged |
| `RangeIter.IterCmp` | src/tool/mod.rs:108-109 | the consuming `cmp` reports the lexicographic order of the two element sequences; it advances the borrowed range by one past the common prefix, capped at its length, and leaves its end unchanged |
| `Index.Insert` | src/tool/mod.rs:70-72 | the key's list grows by the entry at its end or is created as a singleton; the key set gains the key; other lists are unchanged |
| `Index.RowScanFacts` | src/tool/mod.rs:44-51 | the scan of a row holds each discovered tile once, at its column, in increasing column order, and skips `None` |
| `Index.GridScanSound` | src/tool/mod.rs:43-51 | every scanned cell is a discovered tile at its own (row, column) |
| `Index.GridScanComplete` | src/tool/mod.rs:43-51 | every discovered tile is scanned |
| `Index.GridScanOrdered` | src/tool/mod.rs:43-44 | the scan is strictly increasing in row-major order, so no tile is met twice |
| `Index.GridScanCount` | src/tool/mod.rs:43-51 | the scan has as many cells as the map has `Some` tiles |
| `Index.BuildIsSelect` | src/tool/mod.rs:43-72 | inserting the scanned items files under each key exactly the filter of the items with that key, and gives lists to exactly the keys that occur |
| `Index.SelectIsSubsequence` | src/tool/mod.rs:43-72 | that filter is the subsequence, in original order, of all items with the key |
| `Index.TotalLengthInsert` | src/tool/mod.rs:70-72 | one insertion adds exactly one entry to the total over all lists |
| `Index.BuildTotal` | src/tool/mod.rs:43-72 | the lists together hold one entry per inserted item |
| `TileMapper.EntryOf` | src/tool/mod.rs:64-65 | the entry's width is the row index, its height the column index, its quantity `get_value` |
| `TileMapper.InsertInMap` | src/tool/mod.rs:60-73 | the tile content's list grows by `((row, col).into(), get_value)` at its end or is created; no other list changes |
| `TileMapper.Collection` | src/tool/mod.rs:31-58 | `None` exactly when the known map is `None`; otherwise the index of the row-major scan, proved by the nested loops' invariants |
| `TileMapper.CollectionKeys` | src/tool/mod.rs:43-50 | a key has a list exactly when some discovered tile has it; empty tiles are not filtered |
| `TileMapper.KeyHasTile` | src/tool/mod.rs:43-50 | every key of the index belongs to some discovered tile |
| `TileMapper.CollectionComplete` | src/tool/mod.rs:43-72 | each discovered tile at (q, c) appears in its key's list as `(MapCoordinate::new(q, c), get_value)` |
| `TileMapper.CollectionSound` | src/tool/mod.rs:60-72 | each entry of a list is a discovered tile with that key, at (width, height) = (row, column), with its `get_value` |
| `TileMapper.CollectionOrdered` | src/tool/mod.rs:43-44 | each list is strictly increasing in row-major order (row first, then column) |
| `TileMapper.CollectionTotal` | src/tool/mod.rs:43-50 | the list lengths add up to the number of discovered tiles |
| `TileMapper.RangeStep` | src/tool/mod.rs:107-113 | the range branch adopts `r` exactly when `r` is lexicographically greater than the running range, or `r` is empty and the running range has at most one element; the running range is only advanced, and a tie with it leaves it empty |
| `TileMapper.RangeStepExample` | src/tool/mod.rs:107-113 | an equal range `3..5` is not adopted and leaves `5..5`, after which `0..1` is adopted |
| `TileMapper.ScanMostLoaded` | src/tool/mod.rs:91-117 | `quantity` ends as the largest count (0 if none); without range entries, `range` stays `0..0` and `coordinates` is the last entry with the largest count, or `(0,0)` |
| `TileMapper.FindMostLoaded` | src/tool/mod.rs:80-126 | `WorldNotDiscovered` without a map; `ContentNotDiscovered` when no discovered tile has the content's key; otherwise `Ok((0,0))` |
| `LegacyTileMapper.EntryOf` | src/main.rs:56-57 | the legacy entry is the raw tuple `(row, col)` and `get_value` |
| `LegacyTileMapper.InsertInMap` | src/main.rs:52-65 | appends `((row, col), get_value)` to the content's list or creates it; no other list changes |
| `LegacyTileMapper.Collection` | src/main.rs:23-50 | `None` exactly when the known map is `None`; otherwise the index of the row-major scan |
| `LegacyTileMapper.LegacyMatchesTool` | src/main.rs:23-65 | same keys as the tool's index; each list is the tool's list with every coordinate turned into its tuple |
| `LegacyTileMapper.LegacyComplete` | src/main.rs:35-44 | each discovered tile at (q, c) appears under its key as `((q, c), get_value)` |
| `LegacyTileMapper.LegacySound` | src/main.rs:35-64 | each legacy entry is a discovered tile with that key, at its raw (row, column) |
| `LegacyTileMapper.LegacyOrdered` | src/main.rs:35-36 | each legacy list follows the row-major scan |

## Left out

- `find_closest` in src/tool/mod.rs and src/main.rs, and the legacy `find_most_loaded`: their bodies are `todo!()`, so there is no behaviour to model.
- `robot_map`, `Content::get_value` and `Content`'s `Eq`/`Hash` are foreign. They are the parameters `robotMap`, `getValue` and `key`.
- The HashMap keeps the first `Content` value inserted under a key, payload included. The model keys the map by `key(content)` and does not record that value.
- A tile is reduced to its content. Its type and elevation are not read by the core.
- `get_distance` works in `f64` with `powf` and `sqrt`. The model has only the integer radicand, `SquaredDistance`.
- `Coordinates.MapCoordinate.Add`: `usize` overflow, a panic or a wrap depending on the build, is a precondition and is not modelled.
- `Coordinates.MapCoordinate.Sub`: `usize` underflow, a panic in debug builds and a wrap in release builds, is a precondition (each right component at most the left one) and is not modelled.
- `Coordinates.MapCoordinate.SetWidth`: `&mut self` setters are value updates that the loop reassigns to its local. `MapCoordinate` is `Copy` and is never aliased in the core.
- `TileMapper.InsertInMap`: the `&mut HashMap` argument is an in-map and an out-map.
- `TileMapper.ScanMostLoaded`: this is the loop of `find_most_loaded`, lifted into its own method because its result is discarded. Its contract states `range` and `coordinates` only for lists without range-only entries. For ranges, `TileMapper.RangeStep` states whether a single step adopts `r`, and of the range it leaves that it only moves forward, keeps its end, and is empty after a tie.
- `TileMapper.FindMostLoaded`: the `Box<dyn Error>` result becomes the two-case `FindError`. The text of these errors is not modelled, because no type in the crate declares them.
- The `Tools` trait impls and the empty `main()` hold no logic.
- The test harness is not modelled: runner, robot, movement, energy, events, backpack and world generator all run on the foreign `robotics_lib`.
