/**
 * `TileMapper` (src/tool/mod.rs): builds the resource index of the known
 * map and runs the most-loaded query over it.
 *
 * `Content` is the type parameter `C`. Its foreign `Eq`/`Hash`, which decide
 * which contents share a list, are the function `key`, and its foreign
 * `get_value` is the function `getValue`.
 */
module TileMapper {
  import opened Wrappers
  import opened Coordinates
  import opened RangeIter
  import opened Index

  /** One observation: where a tile was found and how much it holds. */
  type Entry = (MapCoordinate, ContentQuantity)

  /** The `HashMap<Content, Vec<(MapCoordinate, ContentQuantity)>>` the tool builds. */
  type ResourceIndex<K> = map<K, seq<Entry>>

  /** The two failures of the queries; src/errors/mod.rs does not declare them. */
  datatype FindError = WorldNotDiscovered | ContentNotDiscovered

  /** What `insert_in_map` records for a tile met at `(row, col)`: `(row, col).into()` and `get_value`. */
  function EntryOf<C>(x: Cell<C>, getValue: C -> ContentQuantity): (e: Entry)
    ensures e.0.GetWidth() == x.row && e.0.GetHeight() == x.col
    ensures e.1 == getValue(x.tile.content)
  {
    (MapCoordinate.From((x.row, x.col)), getValue(x.tile.content))
  }

  /** `EntryOf` as the entry function the scan's items are made with. */
  function Recorder<C>(getValue: C -> ContentQuantity): Cell<C> -> Entry
  {
    x => EntryOf(x, getValue)
  }

  /** The index `collection` builds from a known map. */
  function IndexOf<C, K(==)>(grid: Grid<C>, key: C -> K, getValue: C -> ContentQuantity): ResourceIndex<K>
    requires Indexable(grid)
  {
    Build(Items(Scan(grid), key, Recorder(getValue)))
  }

  /** Some discovered tile of the grid has a content whose key is `k`. */
  ghost predicate Discovers<C, K>(grid: Grid<C>, key: C -> K, k: K)
  {
    exists q, c :: 0 <= q < |grid| && 0 <= c < |grid[q]| && grid[q][c].Some? && key(grid[q][c].value.content) == k
  }

  /**
   * `insert_in_map`: the list under the tile's content grows by one entry at
   * its end, or is created with that one entry; every other list is unchanged.
   */
  method InsertInMap<C, K(==)>(tile: Tile<C>, list: ResourceIndex<K>, row: USize, col: USize,
                               key: C -> K, getValue: C -> ContentQuantity)
    returns (list': ResourceIndex<K>)
    ensures var k, e := key(tile.content), (MapCoordinate.From((row, col)), getValue(tile.content));
      && list'.Keys == list.Keys + {k}
      && list'[k] == (if k in list then list[k] else []) + [e]
      && (forall k' :: k' in list && k' != k ==> list'[k'] == list[k'])
    ensures list' == Insert(list, key(tile.content), EntryOf(Cell(row, col, tile), getValue))
  {
    var coord := (row, col);
    var value := getValue(tile.content);
    var content := key(tile.content);
    if content in list {
      list' := list[content := list[content] + [(MapCoordinate.From(coord), value)]];
    } else {
      list' := list[content := [(MapCoordinate.From(coord), value)]];
    }
  }

  /**
   * `collection`: nothing when nothing is known; otherwise every discovered
   * tile, row by row and column by column, inserted into the index.
   */
  method Collection<C, K(==)>(robotMap: Option<Grid<C>>, key: C -> K, getValue: C -> ContentQuantity)
    returns (result: Option<ResourceIndex<K>>)
    requires robotMap.Some? ==> Indexable(robotMap.value)
    ensures robotMap.None? <==> result.None?
    ensures robotMap.Some? ==> result == Some(IndexOf(robotMap.value, key, getValue))
  {
    var objectList: ResourceIndex<K> := map[];
    match robotMap {
      case None =>
        return None;
      case Some(robotWorld) =>
        ghost var scanned: seq<Cell<C>> := [];
        for row := 0 to |robotWorld|
          invariant scanned == GridScan(robotWorld, row)
          invariant objectList == Build(Items(scanned, key, Recorder(getValue)))
        {
          var rowVector := robotWorld[row];
          ghost var done := scanned;
          for column := 0 to |rowVector|
            invariant scanned == done + RowScan(rowVector, row, column)
            invariant objectList == Build(Items(scanned, key, Recorder(getValue)))
          {
            match rowVector[column] {
              case None =>
              case Some(tile) =>
                objectList := InsertInMap(tile, objectList, row, column, key, getValue);
                IndexSnoc(scanned, Cell(row, column, tile), key, Recorder(getValue));
                scanned := scanned + [Cell(row, column, tile)];
            }
          }
        }
    }
    return Some(objectList);
  }

  /** A key has a list exactly when some discovered tile has that key; `Content::None` is not filtered out. */
  lemma CollectionKeys<C, K>(grid: Grid<C>, key: C -> K, getValue: C -> ContentQuantity, k: K)
    requires Indexable(grid)
    ensures k in IndexOf(grid, key, getValue) <==> Discovers(grid, key, k)
  {
    if k in IndexOf(grid, key, getValue) {
      KeyHasTile(grid, key, getValue, k);
    }
    if Discovers(grid, key, k) {
      var q, c :| 0 <= q < |grid| && 0 <= c < |grid[q]| && grid[q][c].Some? && key(grid[q][c].value.content) == k;
      CollectionComplete(grid, key, getValue, q, c);
    }
  }

  lemma KeyHasTile<C, K>(grid: Grid<C>, key: C -> K, getValue: C -> ContentQuantity, k: K)
    requires Indexable(grid) && k in IndexOf(grid, key, getValue)
    ensures Discovers(grid, key, k)
  {
    var cells := Scan(grid);
    var items := Items(cells, key, Recorder(getValue));
    BuildIsSelect(items);
    SelectIsSubsequence(items, k);
    GridScanSound(grid, |grid|);
    var x := cells[SelectIndices(items, k)[0]];
    assert InGrid(grid, |grid|, x);
    assert key(grid[x.row][x.col].value.content) == k;
  }

  /**
   * Every discovered tile at `(q, c)` is recorded, under its own key, as
   * width `q` (the row) and height `c` (the column) with its `get_value`.
   */
  lemma CollectionComplete<C, K>(grid: Grid<C>, key: C -> K, getValue: C -> ContentQuantity, q: nat, c: nat)
    requires Indexable(grid) && q < |grid| && c < |grid[q]| && grid[q][c].Some?
    ensures var content := grid[q][c].value.content;
      && key(content) in IndexOf(grid, key, getValue)
      && (MapCoordinate.New(q, c), getValue(content)) in IndexOf(grid, key, getValue)[key(content)]
  {
    var cells := Scan(grid);
    var items := Items(cells, key, Recorder(getValue));
    var t := grid[q][c].value;
    BuildIsSelect(items);
    SelectIsSubsequence(items, key(t.content));
    GridScanComplete(grid, |grid|);
    var i :| 0 <= i < |cells| && cells[i] == Cell(q, c, t);
    assert items[i] == (key(t.content), (MapCoordinate.New(q, c), getValue(t.content)));
    var ix := SelectIndices(items, key(t.content));
    var j :| 0 <= j < |ix| && ix[j] == i;
  }

  /**
   * Every recorded entry comes from a discovered tile with that key: its
   * width is the tile's row, its height the tile's column, its quantity the
   * tile's `get_value`.
   */
  lemma CollectionSound<C, K>(grid: Grid<C>, key: C -> K, getValue: C -> ContentQuantity, k: K, j: nat)
    requires Indexable(grid) && k in IndexOf(grid, key, getValue) && j < |IndexOf(grid, key, getValue)[k]|
    ensures var e := IndexOf(grid, key, getValue)[k][j];
      var w, h := e.0.GetWidth(), e.0.GetHeight();
      && w < |grid| && h < |grid[w]| && grid[w][h].Some?
      && key(grid[w][h].value.content) == k
      && e.1 == getValue(grid[w][h].value.content)
  {
    var cells := Scan(grid);
    var items := Items(cells, key, Recorder(getValue));
    BuildIsSelect(items);
    SelectIsSubsequence(items, k);
    GridScanSound(grid, |grid|);
    var ix := SelectIndices(items, k);
    assert InGrid(grid, |grid|, cells[ix[j]]);
  }

  /** Within each list the entries follow the scan: strictly increasing in row-major order. */
  lemma CollectionOrdered<C, K>(grid: Grid<C>, key: C -> K, getValue: C -> ContentQuantity, k: K)
    requires Indexable(grid) && k in IndexOf(grid, key, getValue)
    ensures var v := IndexOf(grid, key, getValue)[k];
      forall i, j :: 0 <= i < j < |v| ==>
        Before(v[i].0.GetWidth(), v[i].0.GetHeight(), v[j].0.GetWidth(), v[j].0.GetHeight())
  {
    var cells := Scan(grid);
    var items := Items(cells, key, Recorder(getValue));
    BuildIsSelect(items);
    SelectIsSubsequence(items, k);
    GridScanOrdered(grid, |grid|);
    var ix := SelectIndices(items, k);
    var v := IndexOf(grid, key, getValue)[k];
    forall i, j | 0 <= i < j < |v|
      ensures Before(v[i].0.GetWidth(), v[i].0.GetHeight(), v[j].0.GetWidth(), v[j].0.GetHeight())
    {
      assert CellBefore(cells[ix[i]], cells[ix[j]]);
    }
  }

  /** The lists hold, all together, exactly one entry per discovered tile. */
  lemma CollectionTotal<C, K>(grid: Grid<C>, key: C -> K, getValue: C -> ContentQuantity)
    requires Indexable(grid)
    ensures TotalLength(IndexOf(grid, key, getValue)) == CountDiscovered(grid)
  {
    BuildTotal(Items(Scan(grid), key, Recorder(getValue)));
    GridScanCount(grid, |grid|);
    assert grid[..|grid|] == grid;
  }

  predicate IsScalar(q: ContentQuantity) { q.0.Some? && q.1.None? }

  predicate IsExtent(q: ContentQuantity) { q.0.None? && q.1.Some? }

  /** No entry among the first `n` carries a range only. */
  predicate NoExtentBefore(v: seq<Entry>, n: nat)
    requires n <= |v|
  {
    forall j :: 0 <= j < n ==> !IsExtent(v[j].1)
  }

  /** No entry among the first `n` carries a count only. */
  predicate NoScalarBefore(v: seq<Entry>, n: nat)
    requires n <= |v|
  {
    forall j :: 0 <= j < n ==> !IsScalar(v[j].1)
  }

  /** Among the first `n` entries, `b` is the last count-only entry whose count is `q`, and no later count reaches `q`. */
  predicate LastMaxBefore(v: seq<Entry>, n: nat, b: nat, q: nat)
    requires n <= |v|
  {
    b < n && IsScalar(v[b].1) && v[b].1.0.value == q
    && forall j :: b < j < n && IsScalar(v[j].1) ==> v[j].1.0.value < q
  }

  /**
   * The range branch's condition (lines 108-109): `r.cmp(&mut range)` is
   * `Greater`, or else a second `r.cmp(&mut range)`, against the range the
   * first one advanced, is `Equal`. Returns whether `r` is adopted and the
   * state `range` is left in by the comparisons.
   *
   * Because the first comparison consumes `range`, `r` is adopted exactly
   * when it is lexicographically greater than `range`, or it is empty and
   * `range` held at most one element: an `r` equal to a non-empty `range`
   * is not adopted, and such a tie leaves `range` empty. The comparisons
   * only ever advance `range`.
   */
  function RangeStep(r: Range, range: Range): (s: (bool, Range))
    ensures var R, B := Elements(r), Elements(range);
      s.0 <==> LexCmp(R, B) == Greater || (R == [] && |B| <= 1)
    ensures s.1.end == range.end && range.start <= s.1.start
    ensures Elements(r) == Elements(range) ==> Elements(s.1) == []
  {
    CommonPrefixSelf(Elements(range));
    var first := IterCmp(r, range);
    if first.0 == Greater then (true, first.1)
    else
      var second := IterCmp(r, first.1);
      LexEqualIsEqual(Elements(r), Elements(first.1));
      (second.0 == Equal, second.1)
  }

  /** A sequence shares all of itself with itself. */
  lemma {:induction false} CommonPrefixSelf(s: seq<nat>)
    ensures CommonPrefix(s, s) == |s|
  {
    if s != [] {
      CommonPrefixSelf(s[1..]);
    }
  }

  /** Lexicographic `Equal` means the two sequences are the same. */
  lemma {:induction false} LexEqualIsEqual(s: seq<nat>, t: seq<nat>)
    ensures LexCmp(s, t) == Equal <==> s == t
  {
    if s != [] && t != [] && s[0] == t[0] {
      LexEqualIsEqual(s[1..], t[1..]);
      assert s == [s[0]] + s[1..] && t == [t[0]] + t[1..];
    }
  }

  /**
   * Two entries with the range `3..5`: the first is adopted; the second,
   * equal to it, is not, and leaves the running range consumed to `5..5`,
   * against which the smaller `0..1` is then adopted.
   */
  lemma RangeStepExample()
    ensures RangeStep(Range(3, 5), Range(0, 0)) == (true, Range(0, 0))
    ensures LexCmp(Elements(Range(3, 5)), Elements(Range(3, 5))) == Equal
    ensures RangeStep(Range(3, 5), Range(3, 5)) == (false, Range(5, 5))
    ensures LexCmp(Elements(Range(0, 1)), Elements(Range(3, 5))) == Less
    ensures RangeStep(Range(0, 1), Range(5, 5)).0
  {
  }

  /**
   * The loop of `find_most_loaded`. Counts are compared with `>=`, so the
   * final `quantity` is the largest count (or 0), and, in a list without
   * ranges, `coordinates` is the last entry with that count (or `(0, 0)`).
   */
  method ScanMostLoaded(v: seq<Entry>) returns (quantity: USize, range: Range, coordinates: MapCoordinate)
    ensures forall j :: 0 <= j < |v| && IsScalar(v[j].1) ==> v[j].1.0.value <= quantity
    ensures quantity == 0 || exists j :: 0 <= j < |v| && IsScalar(v[j].1) && v[j].1.0.value == quantity
    ensures NoExtentBefore(v, |v|) ==> range == Range(0, 0)
    ensures NoExtentBefore(v, |v|) && NoScalarBefore(v, |v|) ==> coordinates == MapCoordinate.New(0, 0)
    ensures NoExtentBefore(v, |v|) && !NoScalarBefore(v, |v|) ==>
      exists b :: 0 <= b < |v| && LastMaxBefore(v, |v|, b, quantity) && coordinates == v[b].0
  {
    quantity := 0;
    range := Range(0, 0);
    coordinates := MapCoordinate.New(0, 0);
    ghost var best: int := -1;
    for i := 0 to |v|
      invariant forall j :: 0 <= j < i && IsScalar(v[j].1) ==> v[j].1.0.value <= quantity
      invariant best == -1 ==> quantity == 0 && NoScalarBefore(v, i)
      invariant best != -1 ==> 0 <= best && LastMaxBefore(v, i, best, quantity)
      invariant NoExtentBefore(v, i) ==> range == Range(0, 0)
      invariant NoExtentBefore(v, i) ==> coordinates == if best == -1 then MapCoordinate.New(0, 0) else v[best].0
    {
      var contentInfo := v[i];
      match contentInfo.1 {
        case (Some(q), None) =>
          if q >= quantity {
            quantity := q;
            coordinates := coordinates.SetWidth(contentInfo.0.GetWidth());
            coordinates := coordinates.SetHeight(contentInfo.0.GetHeight());
            best := i;
          }
        case (None, Some(r)) =>
          var step := RangeStep(r, range);
          range := step.1;
          if step.0 {
            range := r;
            coordinates := coordinates.SetWidth(contentInfo.0.GetWidth());
            coordinates := coordinates.SetHeight(contentInfo.0.GetHeight());
          }
        case _ =>
      }
    }
    if best != -1 {
      assert LastMaxBefore(v, |v|, best, quantity);
    }
  }

  /**
   * `find_most_loaded`: `WorldNotDiscovered` when nothing is known,
   * `ContentNotDiscovered` when no discovered tile has the content's key,
   * and otherwise the scan runs and its result is dropped: the answer is
   * always `(0, 0)` (line 119).
   */
  method FindMostLoaded<C, K(==)>(robotMap: Option<Grid<C>>, content: C, key: C -> K, getValue: C -> ContentQuantity)
    returns (result: Result<MapCoordinate, FindError>)
    requires robotMap.Some? ==> Indexable(robotMap.value)
    ensures robotMap.None? ==> result == Err(WorldNotDiscovered)
    ensures robotMap.Some? && !Discovers(robotMap.value, key, key(content)) ==> result == Err(ContentNotDiscovered)
    ensures robotMap.Some? && Discovers(robotMap.value, key, key(content)) ==> result == Ok(MapCoordinate.New(0, 0))
  {
    var index := Collection(robotMap, key, getValue);
    match index {
      case Some(m) =>
        CollectionKeys(robotMap.value, key, getValue, key(content));
        if key(content) in m {
          var v := m[key(content)];
          var quantity, range, coordinates := ScanMostLoaded(v);
          return Ok(MapCoordinate.New(0, 0));
        } else {
          return Err(ContentNotDiscovered);
        }
      case None =>
        return Err(WorldNotDiscovered);
    }
  }
}
