/**
 * What both builders of the resource index share: the known map that
 * `robot_map` returns, its row-major scan, and the effect of the
 * `entry(key).and_modify(push).or_insert(vec![..])` idiom on a map of lists.
 */
module Index {
  import opened Wrappers
  import opened Coordinates
  import opened RangeIter

  /** A `Vec` never holds more than `usize` can count. */
  const USIZE_LIMIT: nat := USIZE_MAX + 1

  /** A tile, of which the index reads only the content. */
  datatype Tile<C> = Tile(content: C)

  /** The known part of the world: `None` marks a tile not discovered yet. */
  type Grid<C> = seq<seq<Option<Tile<C>>>>

  /** `ContentQuantity`: a count, a range, both or neither, as `get_value` reports it. */
  type ContentQuantity = (Option<USize>, Option<Range>)

  /** A discovered tile and the `(row, column)` at which the scan met it. */
  datatype Cell<C> = Cell(row: USize, col: USize, tile: Tile<C>)

  /** Every row and column index of the grid fits in a `usize`. */
  predicate Indexable<C>(grid: Grid<C>)
  {
    |grid| <= USIZE_LIMIT && forall r :: 0 <= r < |grid| ==> |grid[r]| <= USIZE_LIMIT
  }

  /** `(r1, c1)` comes strictly before `(r2, c2)` in row-major order. */
  predicate Before(r1: nat, c1: nat, r2: nat, c2: nat)
  {
    r1 < r2 || (r1 == r2 && c1 < c2)
  }

  /** the cell lies in rows `[0, r)` of the grid and holds the tile found there. */
  ghost predicate InGrid<C>(grid: Grid<C>, r: nat, x: Cell<C>)
  {
    x.row < r && x.row < |grid| && x.col < |grid[x.row]| && grid[x.row][x.col] == Some(x.tile)
  }

  predicate CellBefore<C>(x: Cell<C>, y: Cell<C>)
  {
    Before(x.row, x.col, y.row, y.col)
  }

  /** The discovered tiles of row `r` in columns `[0, c)`, left to right. */
  function RowScan<C>(row: seq<Option<Tile<C>>>, r: USize, c: nat): seq<Cell<C>>
    requires c <= |row| <= USIZE_LIMIT
  {
    if c == 0 then []
    else RowScan(row, r, c - 1) + (match row[c - 1] case None => [] case Some(t) => [Cell(r, c - 1, t)])
  }

  /** The discovered tiles of rows `[0, r)`, in row-major order. */
  function GridScan<C>(grid: Grid<C>, r: nat): seq<Cell<C>>
    requires Indexable(grid) && r <= |grid|
  {
    if r == 0 then [] else GridScan(grid, r - 1) + RowScan(grid[r - 1], r - 1, |grid[r - 1]|)
  }

  /** The whole scan. */
  function Scan<C>(grid: Grid<C>): seq<Cell<C>>
    requires Indexable(grid)
  {
    GridScan(grid, |grid|)
  }

  /** The number of `Some` entries of a row. */
  function CountSome<X>(row: seq<Option<X>>): nat
  {
    if row == [] then 0 else (if row[0].Some? then 1 else 0) + CountSome(row[1..])
  }

  /** The number of discovered tiles of a grid. */
  function CountDiscovered<C>(grid: Grid<C>): nat
  {
    if grid == [] then 0 else CountSome(grid[0]) + CountDiscovered(grid[1..])
  }

  lemma {:induction false} CountSomeSnoc<X>(row: seq<Option<X>>, c: nat)
    requires c < |row|
    ensures CountSome(row[..c + 1]) == CountSome(row[..c]) + (if row[c].Some? then 1 else 0)
  {
    if c == 0 {
      assert row[..1][1..] == [];
    } else {
      assert row[..c + 1][1..] == row[1..][..c];
      assert row[..c][1..] == row[1..][..c - 1];
      CountSomeSnoc(row[1..], c - 1);
    }
  }

  lemma {:induction false} CountDiscoveredSnoc<C>(grid: Grid<C>, r: nat)
    requires r < |grid|
    ensures CountDiscovered(grid[..r + 1]) == CountDiscovered(grid[..r]) + CountSome(grid[r])
  {
    if r == 0 {
      assert grid[..1][1..] == [];
    } else {
      assert grid[..r + 1][1..] == grid[1..][..r];
      assert grid[..r][1..] == grid[1..][..r - 1];
      CountDiscoveredSnoc(grid[1..], r - 1);
    }
  }

  /**
   * Row scan: every cell is a discovered tile of the row at its column,
   * the columns strictly increase, every discovered tile is met, and there
   * are as many cells as discovered tiles.
   */
  lemma {:induction false} RowScanFacts<C>(row: seq<Option<Tile<C>>>, r: USize, c: nat)
    requires c <= |row| <= USIZE_LIMIT
    ensures var s := RowScan(row, r, c);
      && |s| == CountSome(row[..c])
      && (forall i :: 0 <= i < |s| ==> s[i].row == r && s[i].col < c && row[s[i].col] == Some(s[i].tile))
      && (forall i, j :: 0 <= i < j < |s| ==> s[i].col < s[j].col)
      && (forall k :: 0 <= k < c && row[k].Some? ==> Cell(r, k, row[k].value) in s)
  {
    if c > 0 {
      RowScanFacts(row, r, c - 1);
      CountSomeSnoc(row, c - 1);
    }
  }

  /** The grid scan has one cell per discovered tile. */
  lemma {:induction false} GridScanCount<C>(grid: Grid<C>, r: nat)
    requires Indexable(grid) && r <= |grid|
    ensures |GridScan(grid, r)| == CountDiscovered(grid[..r])
  {
    if r > 0 {
      GridScanCount(grid, r - 1);
      RowScanFacts(grid[r - 1], r - 1, |grid[r - 1]|);
      CountDiscoveredSnoc(grid, r - 1);
      assert grid[r - 1][..|grid[r - 1]|] == grid[r - 1];
    }
  }

  /** Every cell of the grid scan is a discovered tile of rows `[0, r)`, at its own position. */
  lemma {:induction false} GridScanSound<C>(grid: Grid<C>, r: nat)
    requires Indexable(grid) && r <= |grid|
    ensures forall i :: 0 <= i < |GridScan(grid, r)| ==> InGrid(grid, r, GridScan(grid, r)[i])
  {
    if r > 0 {
      GridScanSound(grid, r - 1);
      RowScanFacts(grid[r - 1], r - 1, |grid[r - 1]|);
      var prev, last := GridScan(grid, r - 1), RowScan(grid[r - 1], r - 1, |grid[r - 1]|);
      var s := prev + last;
      assert s == GridScan(grid, r);
      forall i | 0 <= i < |s|
        ensures InGrid(grid, r, s[i])
      {
        if i < |prev| {
          assert s[i] == prev[i];
          assert InGrid(grid, r - 1, prev[i]);
        } else {
          assert s[i] == last[i - |prev|];
        }
      }
    }
  }

  /** The grid scan lists its cells in strictly increasing row-major order. */
  lemma {:induction false} GridScanOrdered<C>(grid: Grid<C>, r: nat)
    requires Indexable(grid) && r <= |grid|
    ensures forall i, j :: 0 <= i < j < |GridScan(grid, r)| ==> CellBefore(GridScan(grid, r)[i], GridScan(grid, r)[j])
  {
    if r > 0 {
      var prev, last := GridScan(grid, r - 1), RowScan(grid[r - 1], r - 1, |grid[r - 1]|);
      GridScanOrdered(grid, r - 1);
      GridScanSound(grid, r - 1);
      RowScanFacts(grid[r - 1], r - 1, |grid[r - 1]|);
      var s := prev + last;
      assert s == GridScan(grid, r);
      forall i, j | 0 <= i < j < |s|
        ensures CellBefore(s[i], s[j])
      {
        if j < |prev| {
          assert s[i] == prev[i] && s[j] == prev[j];
        } else if i < |prev| {
          assert s[i] == prev[i] && s[j] == last[j - |prev|];
          assert InGrid(grid, r - 1, prev[i]);
        } else {
          assert s[i] == last[i - |prev|] && s[j] == last[j - |prev|];
        }
      }
    }
  }

  /** The grid scan meets every discovered tile of rows `[0, r)`. */
  lemma {:induction false} GridScanComplete<C>(grid: Grid<C>, r: nat)
    requires Indexable(grid) && r <= |grid|
    ensures forall q, k :: 0 <= q < r && 0 <= k < |grid[q]| && grid[q][k].Some? ==>
      Cell(q, k, grid[q][k].value) in GridScan(grid, r)
  {
    if r > 0 {
      GridScanComplete(grid, r - 1);
      RowScanFacts(grid[r - 1], r - 1, |grid[r - 1]|);
    }
  }

  /**
   * `entry(k).and_modify(|v| v.push(e)).or_insert(vec![e])`: the list of `k`
   * grows by `e` at its end, or is created as `[e]`; no other key changes.
   */
  function Insert<K(==), E>(m: map<K, seq<E>>, k: K, e: E): (m': map<K, seq<E>>)
    ensures m'.Keys == m.Keys + {k}
    ensures m'[k] == (if k in m then m[k] else []) + [e]
    ensures forall k' :: k' in m && k' != k ==> m'[k'] == m[k']
  {
    if k in m then m[k := m[k] + [e]] else m[k := [e]]
  }

  /** The map of lists that inserting `items` one after another, from an empty map, produces. */
  function Build<K(==), E>(items: seq<(K, E)>): map<K, seq<E>>
  {
    if items == [] then map[] else Insert(Build(items[..|items| - 1]), items[|items| - 1].0, items[|items| - 1].1)
  }

  /** The values of `items` whose key is `k`, in order: the reference for what `Build` files under `k`. */
  function Select<K(==), E>(items: seq<(K, E)>, k: K): seq<E>
  {
    if items == [] then []
    else Select(items[..|items| - 1], k) + (if items[|items| - 1].0 == k then [items[|items| - 1].1] else [])
  }

  /** The positions in `items` of the values `Select` keeps. */
  function SelectIndices<K(==), E>(items: seq<(K, E)>, k: K): seq<nat>
  {
    if items == [] then []
    else SelectIndices(items[..|items| - 1], k) + (if items[|items| - 1].0 == k then [|items| - 1] else [])
  }

  lemma BuildSnoc<K, E>(items: seq<(K, E)>, x: (K, E))
    ensures Build(items + [x]) == Insert(Build(items), x.0, x.1)
  {
  }

  /** The key and the entry that `entry` makes of every scanned cell, in scan order. */
  function Items<C, K, E>(cells: seq<Cell<C>>, key: C -> K, entry: Cell<C> -> E): (items: seq<(K, E)>)
    ensures |items| == |cells|
    ensures forall i :: 0 <= i < |cells| ==> items[i] == (key(cells[i].tile.content), entry(cells[i]))
  {
    seq(|cells|, i requires 0 <= i < |cells| => (key(cells[i].tile.content), entry(cells[i])))
  }

  /** Scanning one more discovered tile inserts its entry into the index built so far. */
  lemma IndexSnoc<C, K, E>(cells: seq<Cell<C>>, x: Cell<C>, key: C -> K, entry: Cell<C> -> E)
    ensures Build(Items(cells + [x], key, entry)) == Insert(Build(Items(cells, key, entry)), key(x.tile.content), entry(x))
  {
    assert Items(cells + [x], key, entry) == Items(cells, key, entry) + [(key(x.tile.content), entry(x))];
    BuildSnoc(Items(cells, key, entry), (key(x.tile.content), entry(x)));
  }

  /** `Build` files under `k` exactly the values `Select` picks, and only keys that occur get a list. */
  lemma {:induction false} BuildIsSelect<K, E>(items: seq<(K, E)>)
    ensures forall k :: k in Build(items) <==> Select(items, k) != []
    ensures forall k :: k in Build(items) ==> Build(items)[k] == Select(items, k)
  {
    if items != [] {
      BuildIsSelect(items[..|items| - 1]);
    }
  }

  /**
   * `Select` keeps, in their original order, exactly the values of the
   * items whose key is `k`.
   */
  lemma {:induction false} SelectIsSubsequence<K, E>(items: seq<(K, E)>, k: K)
    ensures var s, ix := Select(items, k), SelectIndices(items, k);
      && |ix| == |s|
      && (forall j :: 0 <= j < |ix| ==> ix[j] < |items| && items[ix[j]] == (k, s[j]))
      && (forall i, j :: 0 <= i < j < |ix| ==> ix[i] < ix[j])
      && (forall i :: 0 <= i < |items| && items[i].0 == k ==> i in ix)
  {
    if items != [] {
      var n := |items| - 1;
      SelectIsSubsequence(items[..n], k);
      var s, ix := Select(items, k), SelectIndices(items, k);
      var s0, ix0 := Select(items[..n], k), SelectIndices(items[..n], k);
      forall j | 0 <= j < |ix0|
        ensures ix[j] < n && items[ix[j]] == (k, s[j])
      {
        assert ix[j] == ix0[j] && s[j] == s0[j];
        assert items[..n][ix0[j]] == items[ix0[j]];
      }
    }
  }

  /** Two item lists with the same keys position by position pick the same positions. */
  lemma {:induction false} SelectIndicesSameKeys<K, E, F>(a: seq<(K, E)>, b: seq<(K, F)>, k: K)
    requires |a| == |b| && forall i :: 0 <= i < |a| ==> a[i].0 == b[i].0
    ensures SelectIndices(a, k) == SelectIndices(b, k)
  {
    if a != [] {
      SelectIndicesSameKeys(a[..|a| - 1], b[..|b| - 1], k);
    }
  }

  /** The total length of all the lists of a map. */
  ghost function TotalLength<K, E>(m: map<K, seq<E>>): nat
    decreases m.Keys
  {
    if m.Keys == {} then 0 else var k :| k in m; |m[k]| + TotalLength(m - {k})
  }

  /** The total does not depend on which key is taken out first. */
  lemma {:induction false} TotalLengthRemove<K, E>(m: map<K, seq<E>>, k: K)
    requires k in m
    ensures TotalLength(m) == |m[k]| + TotalLength(m - {k})
    decreases m.Keys
  {
    var k' :| k' in m && TotalLength(m) == |m[k']| + TotalLength(m - {k'});
    if k' != k {
      TotalLengthRemove(m - {k'}, k);
      TotalLengthRemove(m - {k}, k');
      assert m - {k'} - {k} == m - {k} - {k'};
    }
  }

  /** One insertion adds exactly one value to the total. */
  lemma TotalLengthInsert<K, E>(m: map<K, seq<E>>, k: K, e: E)
    ensures TotalLength(Insert(m, k, e)) == TotalLength(m) + 1
  {
    var m' := Insert(m, k, e);
    TotalLengthRemove(m', k);
    if k in m {
      TotalLengthRemove(m, k);
      assert m' - {k} == m - {k};
    } else {
      assert m' - {k} == m;
    }
  }

  /** Building from `items` files each item exactly once. */
  lemma {:induction false} BuildTotal<K, E>(items: seq<(K, E)>)
    ensures TotalLength(Build(items)) == |items|
  {
    if items != [] {
      var n := |items| - 1;
      BuildTotal(items[..n]);
      TotalLengthInsert(Build(items[..n]), items[n].0, items[n].1);
    }
  }
}
