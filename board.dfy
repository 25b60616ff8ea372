/**
  The board the automated player works on: the cell-id scheme, the
  edge-aware neighbourhood of a cell, and the tile record with its three
  states.
*/
module Board {
  import opened Encoding

  /** `STATE_DEFAULT` (0), `STATE_CLICKED` (1) and `STATE_FLAGGED` (2). */
  datatype State = Default | Clicked | Flagged

  /**
    One tile of the board: its cell id, whether it holds a mine, its state,
    its coordinates, and the cached number of neighbours (`near_tiles`) and
    of mined neighbours (`mines`).
  */
  datatype Tile = Tile(id: int, isMine: bool, state: State, x: int, y: int, nearTiles: nat, mines: nat)

  /** The id of the cell in row `x`, column `y`: `x * SIZE_Y + y`. */
  function CellId(sizeY: int, x: int, y: int): int
  {
    x * sizeY + y
  }

  /**
    `id_to_crd`: `(id // SIZE_Y, id % SIZE_Y)`. With a positive divisor,
    Python's floor division and modulo agree with Dafny's Euclidean ones.
  */
  function IdToCrd(sizeY: int, id: int): (r: (int, int))
    requires sizeY > 0
    ensures 0 <= r.1 < sizeY
  {
    (id / sizeY, id % sizeY)
  }

  predicate InGrid(sizeX: int, sizeY: int, x: int, y: int)
  {
    0 <= x < sizeX && 0 <= y < sizeY
  }

  /** `id_to_crd` inverts the id scheme, and the other way round. */
  lemma IdToCrdInverts(sizeY: int, x: int, y: int, id: int)
    requires sizeY > 0
    ensures 0 <= y < sizeY ==> IdToCrd(sizeY, CellId(sizeY, x, y)) == (x, y)
    ensures CellId(sizeY, IdToCrd(sizeY, id).0, IdToCrd(sizeY, id).1) == id
  {
    if 0 <= y < sizeY {
      var q, r := (x * sizeY + y) / sizeY, (x * sizeY + y) % sizeY;
      assert x * sizeY + y == q * sizeY + r;
      assert (x - q) * sizeY == r - y;
      NoSmallMultiple(x - q, sizeY);
    }
  }

  /** The only multiple of a positive `s` strictly between `-s` and `s` is zero. */
  lemma NoSmallMultiple(d: int, s: int)
    requires s > 0 && -s < d * s < s
    ensures d == 0
  {
    if d > 0 {
      MulAtLeast(d, s);
    } else if d < 0 {
      MulAtLeast(-d, s);
    }
  }

  lemma {:induction false} MulAtLeast(d: int, s: int)
    requires d >= 1 && s > 0
    ensures d * s >= s
    decreases d
  {
    if d > 1 {
      MulAtLeast(d - 1, s);
      assert d * s == (d - 1) * s + s;
    }
  }

  /** A cell id lies in `0 .. SIZE_X * SIZE_Y - 1` exactly when its coordinates are on the grid. */
  lemma CellIdRange(sizeX: int, sizeY: int, x: int, y: int)
    requires sizeY > 0 && 0 <= y < sizeY
    ensures InGrid(sizeX, sizeY, x, y) <==> 0 <= CellId(sizeY, x, y) < sizeX * sizeY
  {
    if x < 0 {
      assert x * sizeY <= -sizeY;
    } else if x >= sizeX {
      assert x * sizeY >= sizeX * sizeY;
    } else {
      assert x * sizeY <= (sizeX - 1) * sizeY;
    }
  }

  /** An id of the board decodes to coordinates on the grid. */
  lemma IdToCrdInGrid(sizeX: int, sizeY: int, id: int)
    requires sizeY > 0 && 0 <= id < sizeX * sizeY
    ensures InGrid(sizeX, sizeY, IdToCrd(sizeY, id).0, IdToCrd(sizeY, id).1)
  {
    IdToCrdInverts(sizeY, 0, 0, id);
    CellIdRange(sizeX, sizeY, IdToCrd(sizeY, id).0, IdToCrd(sizeY, id).1);
  }

  /** The eight offsets `getNeighbors` tries, in its order. */
  const Offsets: seq<(int, int)> := [(-1, -1), (-1, 0), (-1, 1), (0, -1), (0, 1), (1, -1), (1, 0), (1, 1)]

  /** The in-grid cells among the first `k` offsets from `(x, y)`, in order. */
  function NeighborCoordsUpTo(sizeX: int, sizeY: int, x: int, y: int, k: nat): (r: seq<(int, int)>)
    requires k <= |Offsets|
    ensures |r| <= k
    ensures forall i :: 0 <= i < |r| ==> InGrid(sizeX, sizeY, r[i].0, r[i].1)
  {
    if k == 0 then []
    else
      var d := Offsets[k - 1];
      NeighborCoordsUpTo(sizeX, sizeY, x, y, k - 1)
      + (if InGrid(sizeX, sizeY, x + d.0, y + d.1) then [(x + d.0, y + d.1)] else [])
  }

  /** The coordinates of the tiles `getNeighbors(x, y)` returns. */
  function NeighborCoords(sizeX: int, sizeY: int, x: int, y: int): seq<(int, int)>
  {
    NeighborCoordsUpTo(sizeX, sizeY, x, y, |Offsets|)
  }

  /** The ids of those tiles. */
  function NeighborIds(sizeX: int, sizeY: int, x: int, y: int): (r: seq<int>)
    ensures |r| == |NeighborCoords(sizeX, sizeY, x, y)|
    ensures forall i :: 0 <= i < |r| ==>
      r[i] == CellId(sizeY, NeighborCoords(sizeX, sizeY, x, y)[i].0, NeighborCoords(sizeX, sizeY, x, y)[i].1)
  {
    var cs := NeighborCoords(sizeX, sizeY, x, y);
    seq(|cs|, i requires 0 <= i < |cs| => CellId(sizeY, cs[i].0, cs[i].1))
  }

  lemma {:induction false} UpToMembers(sizeX: int, sizeY: int, x: int, y: int, k: nat, p: (int, int))
    requires k <= |Offsets|
    ensures p in NeighborCoordsUpTo(sizeX, sizeY, x, y, k) <==>
      InGrid(sizeX, sizeY, p.0, p.1) && exists i :: 0 <= i < k && p == (x + Offsets[i].0, y + Offsets[i].1)
  {
    if k > 0 {
      UpToMembers(sizeX, sizeY, x, y, k - 1, p);
    }
  }

  lemma {:induction false} UpToDistinct(sizeX: int, sizeY: int, x: int, y: int, k: nat)
    requires k <= |Offsets|
    ensures forall i, j :: 0 <= i < j < |NeighborCoordsUpTo(sizeX, sizeY, x, y, k)| ==>
      NeighborCoordsUpTo(sizeX, sizeY, x, y, k)[i] != NeighborCoordsUpTo(sizeX, sizeY, x, y, k)[j]
  {
    if k > 0 {
      UpToDistinct(sizeX, sizeY, x, y, k - 1);
      var d := Offsets[k - 1];
      var p := (x + d.0, y + d.1);
      UpToMembers(sizeX, sizeY, x, y, k - 1, p);
      assert p !in NeighborCoordsUpTo(sizeX, sizeY, x, y, k - 1);
    }
  }

  /**
    `getNeighbors` is edge-aware with no wrap-around: it yields exactly the
    on-grid cells at row and column distance at most one, other than the
    cell itself, each once, so at most eight of them.
  */
  lemma {:induction false} NeighborCoordsExact(sizeX: int, sizeY: int, x: int, y: int, p: (int, int))
    ensures p in NeighborCoords(sizeX, sizeY, x, y) <==>
      InGrid(sizeX, sizeY, p.0, p.1) && p != (x, y) && x - 1 <= p.0 <= x + 1 && y - 1 <= p.1 <= y + 1
    ensures |NeighborCoords(sizeX, sizeY, x, y)| <= 8
    ensures forall i, j :: 0 <= i < j < |NeighborCoords(sizeX, sizeY, x, y)| ==>
      NeighborCoords(sizeX, sizeY, x, y)[i] != NeighborCoords(sizeX, sizeY, x, y)[j]
  {
    UpToMembers(sizeX, sizeY, x, y, |Offsets|, p);
    UpToDistinct(sizeX, sizeY, x, y, |Offsets|);
    var dx, dy := p.0 - x, p.1 - y;
    if InGrid(sizeX, sizeY, p.0, p.1) && p != (x, y) && -1 <= dx <= 1 && -1 <= dy <= 1 {
      var i := if dx == -1 then 1 + dy else if dx == 0 then (if dy == -1 then 3 else 4) else 6 + dy;
      assert Offsets[i] == (dx, dy);
    }
  }

  /** Distinct on-grid cells have distinct ids, so neighbour ids are distinct too. */
  lemma NeighborIdsDistinct(sizeX: int, sizeY: int, x: int, y: int)
    requires sizeY > 0
    ensures forall i, j :: 0 <= i < j < |NeighborIds(sizeX, sizeY, x, y)| ==>
      NeighborIds(sizeX, sizeY, x, y)[i] != NeighborIds(sizeX, sizeY, x, y)[j]
    ensures forall i :: 0 <= i < |NeighborIds(sizeX, sizeY, x, y)| ==>
      0 <= NeighborIds(sizeX, sizeY, x, y)[i] < sizeX * sizeY
  {
    var cs, ids := NeighborCoords(sizeX, sizeY, x, y), NeighborIds(sizeX, sizeY, x, y);
    forall i | 0 <= i < |ids| ensures 0 <= ids[i] < sizeX * sizeY {
      NeighborCoordsExact(sizeX, sizeY, x, y, cs[i]);
      CellIdRange(sizeX, sizeY, cs[i].0, cs[i].1);
    }
    forall i, j | 0 <= i < j < |ids| ensures ids[i] != ids[j] {
      NeighborCoordsExact(sizeX, sizeY, x, y, cs[i]);
      NeighborCoordsExact(sizeX, sizeY, x, y, cs[j]);
      IdToCrdInverts(sizeY, cs[i].0, cs[i].1, 0);
      IdToCrdInverts(sizeY, cs[j].0, cs[j].1, 0);
    }
  }

  /** How many tiles of `ns` hold a mine. */
  function MineTally(ns: seq<Tile>): (r: nat)
    ensures r <= |ns|
  {
    if ns == [] then 0 else MineTally(ns[..|ns| - 1]) + (if ns[|ns| - 1].isMine then 1 else 0)
  }

  /** The ids of a sequence of tiles: `[tile["id"] for tile in ns]`. */
  function TileIds(ns: seq<Tile>): (r: seq<int>)
    ensures |r| == |ns| && forall i :: 0 <= i < |ns| ==> r[i] == ns[i].id
  {
    seq(|ns|, i requires 0 <= i < |ns| => ns[i].id)
  }

  /** Counting mined tiles is counting their ids among the mined cells. */
  lemma {:induction false} MineTallyIsCount(ns: seq<Tile>, mineIds: set<int>)
    requires forall i :: 0 <= i < |ns| ==> (ns[i].isMine <==> ns[i].id in mineIds)
    ensures MineTally(ns) == CountMines(TileIds(ns), mineIds)
    decreases |ns|
  {
    if ns != [] {
      var front := ns[..|ns| - 1];
      MineTallyIsCount(front, mineIds);
      assert TileIds(ns) == TileIds(front) + [ns[|ns| - 1].id];
      CountMinesAppend(TileIds(front), ns[|ns| - 1].id, mineIds);
    }
  }

  /** Every row has `sizeY` tiles and there are `sizeX` rows. */
  predicate Shaped(tiles: seq<seq<Tile>>, sizeX: int, sizeY: int)
  {
    |tiles| == sizeX && forall x :: 0 <= x < |tiles| ==> |tiles[x]| == sizeY
  }

  /** The tiles at the given on-grid coordinates. */
  function TilesAt(tiles: seq<seq<Tile>>, sizeX: int, sizeY: int, cs: seq<(int, int)>): (r: seq<Tile>)
    requires Shaped(tiles, sizeX, sizeY)
    requires forall i :: 0 <= i < |cs| ==> InGrid(sizeX, sizeY, cs[i].0, cs[i].1)
    ensures |r| == |cs|
    ensures forall i :: 0 <= i < |cs| ==> InGrid(sizeX, sizeY, cs[i].0, cs[i].1) && r[i] == tiles[cs[i].0][cs[i].1]
  {
    seq(|cs|, i requires 0 <= i < |cs| => assert InGrid(sizeX, sizeY, cs[i].0, cs[i].1); tiles[cs[i].0][cs[i].1])
  }

  /** What `getNeighbors(x, y)` returns. */
  function NeighborTiles(tiles: seq<seq<Tile>>, sizeX: int, sizeY: int, x: int, y: int): seq<Tile>
    requires Shaped(tiles, sizeX, sizeY)
  {
    TilesAt(tiles, sizeX, sizeY, NeighborCoords(sizeX, sizeY, x, y))
  }

  /**
    Every tile sits at its own coordinates under its own id, and holds a
    mine exactly when its id is one of `mineIds`.
  */
  predicate LaidOut(tiles: seq<seq<Tile>>, sizeX: int, sizeY: int, mineIds: set<int>)
  {
    Shaped(tiles, sizeX, sizeY) &&
    forall x, y :: 0 <= x < sizeX && 0 <= y < sizeY ==>
      tiles[x][y].id == CellId(sizeY, x, y) && tiles[x][y].x == x && tiles[x][y].y == y &&
      (tiles[x][y].isMine <==> tiles[x][y].id in mineIds)
  }

  /** The cached counts of a tile match its neighbourhood. */
  predicate CountedAt(t: Tile, sizeX: int, sizeY: int, mineIds: set<int>)
  {
    t.nearTiles == |NeighborIds(sizeX, sizeY, t.x, t.y)| &&
    t.mines == CountMines(NeighborIds(sizeX, sizeY, t.x, t.y), mineIds)
  }

  /**
    Every tile's cached counts match its neighbourhood, so none holds more
    mined neighbours than neighbours. The counts of a tile are looked up
    only where its `CountedAt` is asked about.
  */
  predicate AllCounted(tiles: seq<seq<Tile>>, sizeX: int, sizeY: int, mineIds: set<int>)
    requires Shaped(tiles, sizeX, sizeY)
  {
    (forall x, y {:trigger CountedAt(tiles[x][y], sizeX, sizeY, mineIds)} ::
      0 <= x < sizeX && 0 <= y < sizeY ==> CountedAt(tiles[x][y], sizeX, sizeY, mineIds)) &&
    (forall x, y :: 0 <= x < sizeX && 0 <= y < sizeY ==> tiles[x][y].mines <= tiles[x][y].nearTiles)
  }

  /** On a laid-out board, the neighbours' ids are the neighbourhood's ids. */
  lemma NeighborTilesIds(tiles: seq<seq<Tile>>, sizeX: int, sizeY: int, mineIds: set<int>, x: int, y: int)
    requires LaidOut(tiles, sizeX, sizeY, mineIds)
    ensures TileIds(NeighborTiles(tiles, sizeX, sizeY, x, y)) == NeighborIds(sizeX, sizeY, x, y)
    ensures MineTally(NeighborTiles(tiles, sizeX, sizeY, x, y)) == CountMines(NeighborIds(sizeX, sizeY, x, y), mineIds)
  {
    var ns := NeighborTiles(tiles, sizeX, sizeY, x, y);
    MineTallyIsCount(ns, mineIds);
  }

  /** Each cell's mine count is at most its neighbour count, which is at most eight. */
  lemma MinesAtMostNear(t: Tile, sizeX: int, sizeY: int, mineIds: set<int>)
    requires CountedAt(t, sizeX, sizeY, mineIds)
    ensures t.mines <= t.nearTiles <= 8
  {
    NeighborCoordsExact(sizeX, sizeY, t.x, t.y, (t.x, t.y));
  }

  /** The tile `setup` first creates at `(x, y)`, before the neighbourhood is counted. */
  function BlankTile(sizeY: int, mineIds: set<int>, x: int, y: int): Tile
  {
    Tile(CellId(sizeY, x, y), CellId(sizeY, x, y) in mineIds, Default, x, y, 0, 0)
  }

  /** Two tiles that differ at most in their state and cached counts. */
  predicate SamePlace(t: Tile, u: Tile)
  {
    t.id == u.id && t.isMine == u.isMine && t.x == u.x && t.y == u.y
  }

  /** The board with tile `(x, y)` replaced by `t`. */
  function Replace(tiles: seq<seq<Tile>>, x: int, y: int, t: Tile): (r: seq<seq<Tile>>)
    requires 0 <= x < |tiles| && 0 <= y < |tiles[x]|
    ensures |r| == |tiles| && forall a :: 0 <= a < |r| ==> |r[a]| == |tiles[a]|
    ensures r[x][y] == t
    ensures forall a, b :: 0 <= a < |r| && 0 <= b < |r[a]| && (a != x || b != y) ==> r[a][b] == tiles[a][b]
  {
    tiles[x := tiles[x][y := t]]
  }

  /** Replacing a tile by one at the same place keeps the board laid out. */
  lemma RetileLaidOut(tiles: seq<seq<Tile>>, sizeX: int, sizeY: int, mineIds: set<int>, x: int, y: int, t: Tile)
    requires LaidOut(tiles, sizeX, sizeY, mineIds) && InGrid(sizeX, sizeY, x, y)
    requires SamePlace(t, tiles[x][y])
    ensures LaidOut(Replace(tiles, x, y, t), sizeX, sizeY, mineIds)
  {
    var r: seq<seq<Tile>> := Replace(tiles, x, y, t);
    forall a: int, b: int | 0 <= a < sizeX && 0 <= b < sizeY
      ensures r[a][b].id == CellId(sizeY, a, b) && r[a][b].x == a && r[a][b].y == b
      ensures r[a][b].isMine <==> r[a][b].id in mineIds
    {
      if a != x || b != y {
        assert r[a][b] == tiles[a][b];
      }
    }
  }

  /** Only mined cells are flagged. */
  predicate FlagsOnMines(tiles: seq<seq<Tile>>, sizeX: int, sizeY: int)
  {
    Shaped(tiles, sizeX, sizeY) &&
    forall x, y :: 0 <= x < sizeX && 0 <= y < sizeY && tiles[x][y].state == Flagged ==> tiles[x][y].isMine
  }

  /** Replacing a tile by one at the same place with the same cached counts keeps the board counted. */
  lemma RetileCounted(tiles: seq<seq<Tile>>, sizeX: int, sizeY: int, mineIds: set<int>, x: int, y: int, t: Tile)
    requires Shaped(tiles, sizeX, sizeY) && AllCounted(tiles, sizeX, sizeY, mineIds)
    requires InGrid(sizeX, sizeY, x, y)
    requires SamePlace(t, tiles[x][y]) && t.nearTiles == tiles[x][y].nearTiles && t.mines == tiles[x][y].mines
    ensures Shaped(Replace(tiles, x, y, t), sizeX, sizeY)
    ensures AllCounted(Replace(tiles, x, y, t), sizeX, sizeY, mineIds)
  {
    var r: seq<seq<Tile>> := Replace(tiles, x, y, t);
    assert CountedAt(tiles[x][y], sizeX, sizeY, mineIds);
    forall a: int, b: int | 0 <= a < sizeX && 0 <= b < sizeY ensures CountedAt(r[a][b], sizeX, sizeY, mineIds) {
      if a != x || b != y {
        assert r[a][b] == tiles[a][b];
        assert CountedAt(tiles[a][b], sizeX, sizeY, mineIds);
      }
    }
  }

  /** Only mined cells stay flagged unless the new tile is a flagged safe cell. */
  lemma RetileFlags(tiles: seq<seq<Tile>>, sizeX: int, sizeY: int, x: int, y: int, t: Tile)
    requires FlagsOnMines(tiles, sizeX, sizeY) && InGrid(sizeX, sizeY, x, y)
    requires t.state == Flagged ==> t.isMine
    ensures FlagsOnMines(Replace(tiles, x, y, t), sizeX, sizeY)
  {
    var r: seq<seq<Tile>> := Replace(tiles, x, y, t);
    forall a: int, b: int | 0 <= a < sizeX && 0 <= b < sizeY && r[a][b].state == Flagged ensures r[a][b].isMine {
      if a != x || b != y {
        assert r[a][b] == tiles[a][b];
      }
    }
  }

  /** The ids of the `DEFAULT` tiles of a row, in order. */
  function RowDefaults(row: seq<Tile>): seq<int>
  {
    if row == [] then []
    else RowDefaults(row[..|row| - 1]) + (if row[|row| - 1].state == Default then [row[|row| - 1].id] else [])
  }

  /** The ids of the `DEFAULT` tiles, row by row: the unresolved cells of the global hint. */
  function Defaults(rows: seq<seq<Tile>>): seq<int>
  {
    if rows == [] then [] else Defaults(rows[..|rows| - 1]) + RowDefaults(rows[|rows| - 1])
  }

  lemma {:induction false} RowDefaultsMembers(row: seq<Tile>, id: int)
    ensures id in RowDefaults(row) <==> exists y :: 0 <= y < |row| && row[y].state == Default && row[y].id == id
    decreases |row|
  {
    if row != [] {
      var front := row[..|row| - 1];
      RowDefaultsMembers(front, id);
      if exists y :: 0 <= y < |row| && row[y].state == Default && row[y].id == id {
        var y :| 0 <= y < |row| && row[y].state == Default && row[y].id == id;
        if y < |row| - 1 {
          assert front[y] == row[y];
        }
      }
      if exists y :: 0 <= y < |front| && front[y].state == Default && front[y].id == id {
        var y :| 0 <= y < |front| && front[y].state == Default && front[y].id == id;
        assert row[y] == front[y];
      }
    }
  }

  /** The unresolved cells are exactly the ids of the `DEFAULT` tiles. */
  lemma {:induction false} DefaultsMembers(rows: seq<seq<Tile>>, id: int)
    ensures id in Defaults(rows) <==>
      exists x, y :: 0 <= x < |rows| && 0 <= y < |rows[x]| && rows[x][y].state == Default && rows[x][y].id == id
    decreases |rows|
  {
    if rows != [] {
      var front, last := rows[..|rows| - 1], rows[|rows| - 1];
      DefaultsMembers(front, id);
      RowDefaultsMembers(last, id);
      if exists x, y :: 0 <= x < |rows| && 0 <= y < |rows[x]| && rows[x][y].state == Default && rows[x][y].id == id {
        var x, y :| 0 <= x < |rows| && 0 <= y < |rows[x]| && rows[x][y].state == Default && rows[x][y].id == id;
        if x < |rows| - 1 {
          assert front[x] == rows[x];
        }
      }
      if exists x, y :: 0 <= x < |front| && 0 <= y < |front[x]| && front[x][y].state == Default && front[x][y].id == id {
        var x, y :| 0 <= x < |front| && 0 <= y < |front[x]| && front[x][y].state == Default && front[x][y].id == id;
        assert rows[x] == front[x];
      }
    }
  }

  /** A board whose tiles are all `DEFAULT` has no clicked or flagged tile. */
  lemma {:induction false} TallyAllDefault(rows: seq<seq<Tile>>, k: Kind)
    requires forall x, y :: 0 <= x < |rows| && 0 <= y < |rows[x]| ==> rows[x][y].state == Default
    ensures Tally(rows, k) == 0
    decreases |rows|
  {
    if rows != [] {
      var front: seq<seq<Tile>> := rows[..|rows| - 1];
      assert forall x, y :: 0 <= x < |front| && 0 <= y < |front[x]| ==> front[x][y].state == Default by {
        forall x, y | 0 <= x < |front| && 0 <= y < |front[x]| ensures front[x][y].state == Default {
          assert front[x] == rows[x];
        }
      }
      TallyAllDefault(front, k);
      RowTallyAllDefault(rows[|rows| - 1], k);
    }
  }

  lemma {:induction false} RowTallyAllDefault(row: seq<Tile>, k: Kind)
    requires forall y :: 0 <= y < |row| ==> row[y].state == Default
    ensures RowTally(row, k) == 0
    decreases |row|
  {
    if row != [] {
      RowTallyAllDefault(row[..|row| - 1], k);
    }
  }

  /** `onClick` on a tile, as far as the tile is concerned. */
  function AfterClick(t: Tile): (r: Tile)
    ensures r.id == t.id && r.isMine == t.isMine && r.x == t.x && r.y == t.y
    ensures r.nearTiles == t.nearTiles && r.mines == t.mines
    ensures r.state == (if t.state == Clicked || t.isMine then t.state else Clicked)
  {
    if t.state == Clicked || t.isMine then t else t.(state := Clicked)
  }

  /** A second click changes nothing: `onClick` returns at once on a `CLICKED` tile, and a mined tile is never opened. */
  lemma ClickTwice(t: Tile)
    ensures AfterClick(AfterClick(t)) == AfterClick(t)
  {
  }

  /** `onRightClick` on a tile: `DEFAULT` and `FLAGGED` swap, `CLICKED` stays. */
  function AfterRightClick(t: Tile): (r: Tile)
    ensures r.id == t.id && r.isMine == t.isMine && r.x == t.x && r.y == t.y
    ensures r.nearTiles == t.nearTiles && r.mines == t.mines
    ensures t.state == Default ==> r.state == Flagged
    ensures t.state == Flagged ==> r.state == Default
    ensures t.state == Clicked ==> r == t
  {
    match t.state
    case Default => t.(state := Flagged)
    case Flagged => t.(state := Default)
    case Clicked => t
  }

  /** How `onRightClick` on `t` moves `flagCount` (and, on a mine, `correctFlagCount`). */
  function FlagStep(t: Tile): int
  {
    match t.state
    case Default => 1
    case Flagged => -1
    case Clicked => 0
  }

  /** Right-clicking twice gives the tile back. */
  lemma RightClickTwice(t: Tile)
    ensures AfterRightClick(AfterRightClick(t)) == t
  {
  }

  /** The three tallies the game keeps. */
  datatype Kind = ClickedTiles | FlaggedTiles | FlaggedMines

  predicate Counts(t: Tile, k: Kind)
  {
    match k
    case ClickedTiles => t.state == Clicked
    case FlaggedTiles => t.state == Flagged
    case FlaggedMines => t.state == Flagged && t.isMine
  }

  /** 1 when tile `t` is of kind `k`, else 0. */
  function Mark(t: Tile, k: Kind): nat
  {
    if Counts(t, k) then 1 else 0
  }

  function RowTally(row: seq<Tile>, k: Kind): nat
  {
    if row == [] then 0 else RowTally(row[..|row| - 1], k) + Mark(row[|row| - 1], k)
  }

  /** How many tiles of the board are of kind `k`. */
  function Tally(rows: seq<seq<Tile>>, k: Kind): nat
  {
    if rows == [] then 0 else Tally(rows[..|rows| - 1], k) + RowTally(rows[|rows| - 1], k)
  }

  lemma {:induction false} RowTallyUpdate(row: seq<Tile>, y: nat, t: Tile, k: Kind)
    requires y < |row|
    ensures RowTally(row[y := t], k) + Mark(row[y], k) == RowTally(row, k) + Mark(t, k)
    decreases |row|
  {
    var n := |row[y := t]|;
    if y < |row| - 1 {
      assert row[y := t][..n - 1] == row[..|row| - 1][y := t];
      RowTallyUpdate(row[..|row| - 1], y, t, k);
    } else {
      assert row[y := t][..n - 1] == row[..|row| - 1];
    }
  }

  /** Replacing one tile moves each tally by the difference the tile makes. */
  lemma {:induction false} TallyUpdate(rows: seq<seq<Tile>>, x: nat, y: nat, t: Tile, k: Kind)
    requires x < |rows| && y < |rows[x]|
    ensures Tally(Replace(rows, x, y, t), k) + Mark(rows[x][y], k) == Tally(rows, k) + Mark(t, k)
    decreases |rows|
  {
    var updated := rows[x := rows[x][y := t]];
    var n := |updated|;
    if x < |rows| - 1 {
      assert updated[..n - 1] == Replace(rows[..|rows| - 1], x, y, t);
      TallyUpdate(rows[..|rows| - 1], x, y, t, k);
    } else {
      assert updated[..n - 1] == rows[..|rows| - 1];
      RowTallyUpdate(rows[x], y, t, k);
    }
  }
}
