/**
 * The older `TileMapper` of src/main.rs: the same scan and insertion as
 * src/tool/mod.rs, but each tile's position is kept as the raw
 * `(row, column)` tuple instead of a `MapCoordinate`.
 */
module LegacyTileMapper {
  import opened Wrappers
  import opened Coordinates
  import opened Index
  import TileMapper

  /** The source's `Coordinates = (usize, usize)`: row first, then column. */
  type Position = (USize, USize)

  type Entry = (Position, ContentQuantity)

  type LegacyIndex<K> = map<K, seq<Entry>>

  /** What the legacy `insert_in_map` records for a tile met at `(row, col)`. */
  function EntryOf<C>(x: Cell<C>, getValue: C -> ContentQuantity): (e: Entry)
    ensures e.0 == (x.row, x.col) && e.1 == getValue(x.tile.content)
  {
    ((x.row, x.col), getValue(x.tile.content))
  }

  /** `EntryOf` as the entry function the scan's items are made with. */
  function Recorder<C>(getValue: C -> ContentQuantity): Cell<C> -> Entry
  {
    x => EntryOf(x, getValue)
  }

  /** The index the legacy `collection` builds from a known map. */
  function IndexOf<C, K(==)>(grid: Grid<C>, key: C -> K, getValue: C -> ContentQuantity): LegacyIndex<K>
    requires Indexable(grid)
  {
    Build(Items(Scan(grid), key, Recorder(getValue)))
  }

  /**
   * Legacy `insert_in_map`: appends `((row, col), value)` to the list of the
   * tile's content, or creates that list; the other lists are unchanged.
   */
  method InsertInMap<C, K(==)>(tile: Tile<C>, list: LegacyIndex<K>, row: USize, col: USize,
                               key: C -> K, getValue: C -> ContentQuantity)
    returns (list': LegacyIndex<K>)
    ensures var k, e := key(tile.content), ((row, col), getValue(tile.content));
      && list'.Keys == list.Keys + {k}
      && list'[k] == (if k in list then list[k] else []) + [e]
      && (forall k' :: k' in list && k' != k ==> list'[k'] == list[k'])
    ensures list' == Insert(list, key(tile.content), EntryOf(Cell(row, col, tile), getValue))
  {
    var coord: Position := (row, col);
    var value := getValue(tile.content);
    var content := key(tile.content);
    if content in list {
      list' := list[content := list[content] + [(coord, value)]];
    } else {
      list' := list[content := [(coord, value)]];
    }
  }

  /** Legacy `collection`: `None` when nothing is known, else every discovered tile inserted in scan order. */
  method Collection<C, K(==)>(robotMap: Option<Grid<C>>, key: C -> K, getValue: C -> ContentQuantity)
    returns (result: Option<LegacyIndex<K>>)
    requires robotMap.Some? ==> Indexable(robotMap.value)
    ensures robotMap.None? <==> result.None?
    ensures robotMap.Some? ==> result == Some(IndexOf(robotMap.value, key, getValue))
  {
    var objectList: LegacyIndex<K> := map[];
    match robotMap {
      case None =>
        return None;
      case Some(robotWorld) =>
        ghost var scanned: seq<Cell<C>> := [];
        for row := 0 to |robotWorld|
          invariant scanned == GridScan(robotWorld, row)
          invariant objectList == Build(Items(scanned, key, Recorder(getValue)))
        {
          var rowVector := robotWorld[row];
          ghost var done := scanned;
          for column := 0 to |rowVector|
            invariant scanned == done + RowScan(rowVector, row, column)
            invariant objectList == Build(Items(scanned, key, Recorder(getValue)))
          {
            match rowVector[column] {
              case None =>
              case Some(tile) =>
                objectList := InsertInMap(tile, objectList, row, column, key, getValue);
                IndexSnoc(scanned, Cell(row, column, tile), key, Recorder(getValue));
                scanned := scanned + [Cell(row, column, tile)];
            }
          }
        }
    }
    return Some(objectList);
  }

  /**
   * The legacy index has the same keys as the tool's, and each list is the
   * tool's list with every `MapCoordinate` turned back into its tuple.
   */
  lemma LegacyMatchesTool<C, K>(grid: Grid<C>, key: C -> K, getValue: C -> ContentQuantity, k: K)
    requires Indexable(grid)
    ensures k in IndexOf(grid, key, getValue) <==> k in TileMapper.IndexOf(grid, key, getValue)
    ensures k in IndexOf(grid, key, getValue) ==>
      var l, t := IndexOf(grid, key, getValue)[k], TileMapper.IndexOf(grid, key, getValue)[k];
      |l| == |t| && forall j :: 0 <= j < |l| ==> l[j] == (t[j].0.Into(), t[j].1)
  {
    var cells := Scan(grid);
    var li, ti := Items(cells, key, Recorder(getValue)), Items(cells, key, TileMapper.Recorder(getValue));
    BuildIsSelect(li);
    BuildIsSelect(ti);
    SelectIsSubsequence(li, k);
    SelectIsSubsequence(ti, k);
    SelectIndicesSameKeys(li, ti, k);
  }

  /** Every discovered tile at `(q, c)` is recorded under its key with the raw tuple `(q, c)`. */
  lemma LegacyComplete<C, K>(grid: Grid<C>, key: C -> K, getValue: C -> ContentQuantity, q: nat, c: nat)
    requires Indexable(grid) && q < |grid| && c < |grid[q]| && grid[q][c].Some?
    ensures var content := grid[q][c].value.content;
      && key(content) in IndexOf(grid, key, getValue)
      && ((q, c), getValue(content)) in IndexOf(grid, key, getValue)[key(content)]
  {
    var content := grid[q][c].value.content;
    TileMapper.CollectionComplete(grid, key, getValue, q, c);
    LegacyMatchesTool(grid, key, getValue, key(content));
    var t := TileMapper.IndexOf(grid, key, getValue)[key(content)];
    var j :| 0 <= j < |t| && t[j] == (MapCoordinate.New(q, c), getValue(content));
    assert IndexOf(grid, key, getValue)[key(content)][j] == ((q, c), getValue(content));
  }

  /** Every legacy entry is the raw `(row, column)` of a discovered tile with that key, and its `get_value`. */
  lemma LegacySound<C, K>(grid: Grid<C>, key: C -> K, getValue: C -> ContentQuantity, k: K, j: nat)
    requires Indexable(grid) && k in IndexOf(grid, key, getValue) && j < |IndexOf(grid, key, getValue)[k]|
    ensures var e := IndexOf(grid, key, getValue)[k][j];
      && e.0.0 < |grid| && e.0.1 < |grid[e.0.0]| && grid[e.0.0][e.0.1].Some?
      && key(grid[e.0.0][e.0.1].value.content) == k
      && e.1 == getValue(grid[e.0.0][e.0.1].value.content)
  {
    LegacyMatchesTool(grid, key, getValue, k);
    TileMapper.CollectionSound(grid, key, getValue, k, j);
  }

  /** Legacy lists also follow the row-major scan. */
  lemma LegacyOrdered<C, K>(grid: Grid<C>, key: C -> K, getValue: C -> ContentQuantity, k: K)
    requires Indexable(grid) && k in IndexOf(grid, key, getValue)
    ensures var v := IndexOf(grid, key, getValue)[k];
      forall i, j :: 0 <= i < j < |v| ==> Before(v[i].0.0, v[i].0.1, v[j].0.0, v[j].0.1)
  {
    LegacyMatchesTool(grid, key, getValue, k);
    TileMapper.CollectionOrdered(grid, key, getValue, k);
  }
}
