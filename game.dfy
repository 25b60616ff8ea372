/**
  The game (`Minesweeper` in minesweeper.py) as far as the automated player
  depends on it: the board set-up, the two click handlers with their
  counters and win test, the neighbourhood query, and one step of the
  inference loop.
*/
module Game {
  import opened Logic
  import opened KnowledgeBase
  import opened Encoding
  import opened Board
  import opened Players

  /** What a move leads to: `gameOver(True)`, `gameOver(False)`, or neither. */
  datatype Outcome = Continue | Won | Lost

  /** The global hint is used when fewer cells than this count as unmarked. */
  const GlobalHintThreshold := 30

  /** The global-hint test's count of unmarked cells, as the game computes it. */
  function Unmarked(sizeX: int, sizeY: int, correctFlagCount: int, flagCount: int): int
  {
    sizeX * sizeY - correctFlagCount - flagCount
  }

  /**
    The global hint: the cardinality encoding over the unresolved cells,
    with the number of mines among them.
  */
  function GlobalHint(tiles: seq<seq<Tile>>, mineIds: set<int>): seq<Clause>
  {
    var ids := Defaults(tiles);
    CardinalityClauses(ids, |ids|, CountMines(ids, mineIds))
  }

  /**
    The hint of a counted cell talks only about board cells, and the mine
    layout satisfies every clause of it.
  */
  lemma HintHolds(tiles: seq<seq<Tile>>, sizeX: int, sizeY: int, mineIds: set<int>, x: int, y: int)
    requires sizeY > 0 && LaidOut(tiles, sizeX, sizeY, mineIds) && AllCounted(tiles, sizeX, sizeY, mineIds)
    requires InGrid(sizeX, sizeY, x, y)
    ensures var t := tiles[x][y];
      var hint := HintClauses(NeighborIds(sizeX, sizeY, x, y), t.nearTiles, t.mines);
      SeqIdsWithin(hint, sizeX * sizeY) && SeqSatisfies(mineIds, hint)
  {
    var t := tiles[x][y];
    assert CountedAt(t, sizeX, sizeY, mineIds);
    var ids := NeighborIds(sizeX, sizeY, x, y);
    NeighborIdsDistinct(sizeX, sizeY, x, y);
    HintIds(ids, t.nearTiles, t.mines, sizeX * sizeY);
    HintExact(mineIds, ids, t.nearTiles, t.mines);
  }

  /** The unit clauses the initial safe cells seed the knowledge base with. */
  function SeedClauses(safeIds: set<int>): (r: set<Clause>)
    ensures forall c :: c in r <==> exists i :: i in safeIds && c == {Literal(i, true)}
  {
    set i | i in safeIds :: {Literal(i, true)}
  }

  /** The seeded knowledge base is true of a mine layout exactly when no seeded cell is mined. */
  lemma SeedSound(safeIds: set<int>, mineIds: set<int>)
    ensures SatisfiesAll(mineIds, SeedClauses(safeIds)) <==> safeIds !! mineIds
  {
    if forall i :: i in safeIds ==> i !in mineIds {
      forall c | c in SeedClauses(safeIds) ensures Satisfies(mineIds, c) {
        var i :| i in safeIds && c == {Literal(i, true)};
        assert Holds(mineIds, Literal(i, true));
      }
    } else {
      var i :| i in safeIds && i in mineIds;
      assert {Literal(i, true)} in SeedClauses(safeIds);
      assert !Satisfies(mineIds, {Literal(i, true)});
    }
  }

  class Minesweeper {
    const sizeX: nat
    const sizeY: nat
    const player: Player
    /** `NUM_MINES`. */
    var mines: nat
    /** The ids of the mined cells: the ground truth the knowledge base is about. */
    var mineIds: set<int>
    var tiles: seq<seq<Tile>>
    var flagCount: int
    var correctFlagCount: int
    var clickedCount: int

    /** The board is laid out and counted, and the knowledge base talks about board cells only. */
    ghost predicate Valid()
      reads this`tiles, this`mineIds, this`mines, player`KB
    {
      sizeX > 0 && sizeY > 0 &&
      LaidOut(tiles, sizeX, sizeY, mineIds) && AllCounted(tiles, sizeX, sizeY, mineIds) &&
      mines == |mineIds| &&
      IdsWithin(player.KB, sizeX * sizeY)
    }

    /** The mine layout satisfies every clause of `KB` and every literal of `KB0`. */
    ghost predicate Sound()
      reads this`mineIds, player`KB, player`KB0
    {
      SatisfiesAll(mineIds, player.KB) && HoldsAll(mineIds, player.KB0)
    }

    /** Only mined cells are flagged. */
    ghost predicate FlagsCorrect()
      reads this`tiles
    {
      FlagsOnMines(tiles, sizeX, sizeY)
    }

    /** The three counters agree with the board. */
    ghost predicate CountersAgree()
      reads this`tiles, this`flagCount, this`correctFlagCount, this`clickedCount
    {
      flagCount == Tally(tiles, FlaggedTiles) &&
      correctFlagCount == Tally(tiles, FlaggedMines) &&
      clickedCount == Tally(tiles, ClickedTiles)
    }

    /** A new game on a `sizeX` by `sizeY` board (the `restart` the game starts with). */
    constructor (sizeX: nat, sizeY: nat, mineIds: set<int>, safeIds: set<int>)
      requires sizeX > 0 && sizeY > 0
      requires forall i :: i in mineIds ==> 0 <= i < sizeX * sizeY
      requires forall i :: i in safeIds ==> 0 <= i < sizeX * sizeY
      ensures this.sizeX == sizeX && this.sizeY == sizeY && fresh(player)
      ensures Valid() && FlagsCorrect() && CountersAgree()
      ensures flagCount == 0 && correctFlagCount == 0 && clickedCount == 0
      ensures forall x, y :: 0 <= x < sizeX && 0 <= y < sizeY ==> tiles[x][y].state == Default
      ensures this.mineIds == mineIds && mines == |mineIds|
      ensures player.KB == SeedClauses(safeIds) && player.KB0 == {}
      ensures Sound() <==> safeIds !! mineIds
    {
      this.sizeX := sizeX;
      this.sizeY := sizeY;
      player := new Player();
      new;
      Setup(mineIds, safeIds);
    }

    /**
      `setup`: reset the counters, lay out the tiles with the given mines,
      seed `KB` with one safe unit clause per initial safe cell, empty
      `KB0`, and count every cell's neighbours and mined neighbours.
    */
    method Setup(mineIds: set<int>, safeIds: set<int>)
      requires sizeX > 0 && sizeY > 0
      requires forall i :: i in mineIds ==> 0 <= i < sizeX * sizeY
      requires forall i :: i in safeIds ==> 0 <= i < sizeX * sizeY
      modifies this, player
      ensures Valid() && FlagsCorrect() && CountersAgree()
      ensures flagCount == 0 && correctFlagCount == 0 && clickedCount == 0
      ensures forall x, y :: 0 <= x < sizeX && 0 <= y < sizeY ==> tiles[x][y].state == Default
      ensures this.mineIds == mineIds && mines == |mineIds|
      ensures player.KB == SeedClauses(safeIds) && player.KB0 == {}
      ensures Sound() <==> safeIds !! mineIds
    {
      flagCount, correctFlagCount, clickedCount := 0, 0, 0;
      this.mineIds := mineIds;
      mines := |mineIds|;
      LayTiles();
      player.KB := SeedClauses(safeIds);
      player.KB0 := {};
      CountAll();
      forall k: Kind ensures Tally(tiles, k) == 0 {
        TallyAllDefault(tiles, k);
      }
      SeedSound(safeIds, mineIds);
    }

    /** The tile-creating loops of `setup`: every cell `DEFAULT`, mined as the layout says. */
    method LayTiles()
      requires sizeY > 0
      modifies this`tiles
      ensures LaidOut(tiles, sizeX, sizeY, mineIds)
      ensures forall x, y :: 0 <= x < sizeX && 0 <= y < sizeY ==> tiles[x][y] == BlankTile(sizeY, mineIds, x, y)
      ensures forall x, y :: 0 <= x < sizeX && 0 <= y < sizeY ==> tiles[x][y].state == Default
    {
      var rows: seq<seq<Tile>> := [];
      var x := 0;
      while x < sizeX
        invariant 0 <= x <= sizeX && |rows| == x
        invariant forall a :: 0 <= a < x ==> |rows[a]| == sizeY
        invariant forall a, b :: 0 <= a < x && 0 <= b < sizeY ==> rows[a][b] == BlankTile(sizeY, mineIds, a, b)
      {
        var row: seq<Tile> := [];
        var y := 0;
        while y < sizeY
          invariant 0 <= y <= sizeY && |row| == y
          invariant forall b :: 0 <= b < y ==> row[b] == BlankTile(sizeY, mineIds, x, b)
        {
          var id := x * sizeY + y;
          row := row + [Tile(id, id in mineIds, Default, x, y, 0, 0)];
          y := y + 1;
        }
        rows := rows + [row];
        x := x + 1;
      }
      tiles := rows;
    }

    /** The counting loop of `setup`: each cell's `mines` and `near_tiles`. */
    method CountAll()
      requires sizeY > 0 && LaidOut(tiles, sizeX, sizeY, mineIds)
      modifies this`tiles
      ensures LaidOut(tiles, sizeX, sizeY, mineIds) && AllCounted(tiles, sizeX, sizeY, mineIds)
      ensures forall a, b :: 0 <= a < sizeX && 0 <= b < sizeY ==> tiles[a][b].state == old(tiles)[a][b].state
    {
      ghost var t0: seq<seq<Tile>> := tiles;
      var x := 0;
      while x < sizeX
        invariant 0 <= x <= sizeX
        invariant LaidOut(tiles, sizeX, sizeY, mineIds)
        invariant forall a, b :: 0 <= a < sizeX && 0 <= b < sizeY ==> tiles[a][b].state == t0[a][b].state
        invariant forall a, b :: 0 <= a < x && 0 <= b < sizeY ==> CountedAt(tiles[a][b], sizeX, sizeY, mineIds)
      {
        CountRow(x);
        x := x + 1;
      }
      forall a: int, b: int | 0 <= a < sizeX && 0 <= b < sizeY ensures tiles[a][b].mines <= tiles[a][b].nearTiles {
        MinesAtMostNear(tiles[a][b], sizeX, sizeY, mineIds);
      }
    }

    /** The inner counting loop for row `x`. */
    method CountRow(x: int)
      requires sizeY > 0 && LaidOut(tiles, sizeX, sizeY, mineIds) && 0 <= x < sizeX
      modifies this`tiles
      ensures LaidOut(tiles, sizeX, sizeY, mineIds)
      ensures forall a, b :: 0 <= a < sizeX && 0 <= b < sizeY ==> tiles[a][b].state == old(tiles)[a][b].state
      ensures forall a, b :: 0 <= a < sizeX && 0 <= b < sizeY && a != x ==> tiles[a][b] == old(tiles)[a][b]
      ensures forall b :: 0 <= b < sizeY ==> CountedAt(tiles[x][b], sizeX, sizeY, mineIds)
    {
      ghost var t0: seq<seq<Tile>> := tiles;
      var y := 0;
      while y < sizeY
        invariant 0 <= y <= sizeY
        invariant LaidOut(tiles, sizeX, sizeY, mineIds)
        invariant forall a, b :: 0 <= a < sizeX && 0 <= b < sizeY ==> tiles[a][b].state == t0[a][b].state
        invariant forall a, b :: 0 <= a < sizeX && 0 <= b < sizeY && a != x ==> tiles[a][b] == t0[a][b]
        invariant forall b :: 0 <= b < y ==> CountedAt(tiles[x][b], sizeX, sizeY, mineIds)
      {
        var ns := GetNeighbors(x, y);
        var mc := MineCount(ns);
        NeighborTilesIds(tiles, sizeX, sizeY, mineIds, x, y);
        var t := tiles[x][y].(mines := mc, nearTiles := |ns|);
        RetileLaidOut(tiles, sizeX, sizeY, mineIds, x, y, t);
        tiles := Replace(tiles, x, y, t);
        y := y + 1;
      }
    }

    /** `mc += 1 if n["isMine"] else 0` over the neighbours. */
    static method MineCount(ns: seq<Tile>) returns (mc: nat)
      ensures mc == MineTally(ns)
    {
      mc := 0;
      var i := 0;
      while i < |ns|
        invariant 0 <= i <= |ns|
        invariant mc == MineTally(ns[..i])
      {
        assert ns[..i + 1][..i] == ns[..i];
        mc := mc + (if ns[i].isMine then 1 else 0);
        i := i + 1;
      }
      assert ns[..i] == ns;
    }

    /**
      `getNeighbors`: the tiles at the eight offsets, in order, skipping the
      coordinates outside the grid (the missing dictionary keys).
    */
    method GetNeighbors(x: int, y: int) returns (ns: seq<Tile>)
      requires Shaped(tiles, sizeX, sizeY)
      ensures ns == NeighborTiles(tiles, sizeX, sizeY, x, y)
    {
      ns := [];
      var k := 0;
      while k < |Offsets|
        invariant 0 <= k <= |Offsets|
        invariant ns == TilesAt(tiles, sizeX, sizeY, NeighborCoordsUpTo(sizeX, sizeY, x, y, k))
      {
        var a, b := x + Offsets[k].0, y + Offsets[k].1;
        if 0 <= a < sizeX && 0 <= b < sizeY {
          ns := ns + [tiles[a][b]];
        }
        k := k + 1;
      }
    }

    /**
      `onClick`: nothing on a `CLICKED` tile; on a mine the game is lost and
      nothing changes; otherwise (a human's click also telling `KB` that the
      cell is safe) the tile becomes `CLICKED`, `clickedCount` goes up, and
      the game is won once every safe cell is clicked and every mine
      correctly flagged.
    */
    method OnClick(x: int, y: int, human: bool) returns (outcome: Outcome)
      requires Valid() && InGrid(sizeX, sizeY, x, y)
      requires human ==> tiles[x][y].state != Flagged
      modifies this`tiles, this`clickedCount, player`KB
      ensures Valid()
      ensures tiles == Replace(old(tiles), x, y, AfterClick(old(tiles)[x][y]))
      ensures var t := old(tiles)[x][y];
        var opens := t.state != Clicked && !t.isMine;
        clickedCount == old(clickedCount) + (if opens then 1 else 0) &&
        player.KB == (if opens && human then old(player.KB) + {{Literal(t.id, true)}} else old(player.KB)) &&
        (outcome == Lost <==> t.state != Clicked && t.isMine) &&
        (outcome == Won <==> opens && clickedCount == sizeX * sizeY - mines && correctFlagCount == mines)
      ensures old(Sound()) ==> Sound()
      ensures old(FlagsCorrect()) ==> FlagsCorrect()
      ensures old(CountersAgree()) && old(tiles)[x][y].state != Flagged ==> CountersAgree()
    {
      var t := tiles[x][y];
      if t.state == Clicked || t.isMine {
        assert tiles[x][y := t] == tiles[x];
        assert Replace(tiles, x, y, t) == tiles;
        return if t.state == Clicked then Continue else Lost;
      }
      if human {
        CellIdRange(sizeX, sizeY, x, y);
        Tell(Literal(t.id, true));
      }
      var u := t.(state := Clicked);
      SetTile(x, y, u);
      clickedCount := clickedCount + 1;
      if clickedCount == sizeX * sizeY - mines && correctFlagCount == mines {
        outcome := Won;
      } else {
        outcome := Continue;
      }
    }

    /**
      `onRightClick`: a `DEFAULT` tile becomes `FLAGGED` (a correct flag
      when it is a mine; a human's flag also tells `KB` that the cell is
      mined), followed by the win test; a `FLAGGED` tile goes back to
      `DEFAULT`; a `CLICKED` tile is left alone.
    */
    method OnRightClick(x: int, y: int, human: bool) returns (outcome: Outcome)
      requires Valid() && InGrid(sizeX, sizeY, x, y)
      modifies this`tiles, this`flagCount, this`correctFlagCount, player`KB
      ensures Valid()
      ensures tiles == Replace(old(tiles), x, y, AfterRightClick(old(tiles)[x][y]))
      ensures var t := old(tiles)[x][y];
        var mine := if t.isMine then 1 else 0;
        (t.state == Default ==>
          flagCount == old(flagCount) + 1 && correctFlagCount == old(correctFlagCount) + mine &&
          player.KB == (if human then old(player.KB) + {{Literal(t.id, false)}} else old(player.KB)) &&
          (outcome == Won <==> clickedCount == sizeX * sizeY - mines && correctFlagCount == mines)) &&
        (t.state == Flagged ==>
          flagCount == old(flagCount) - 1 && correctFlagCount == old(correctFlagCount) - mine &&
          player.KB == old(player.KB)) &&
        (t.state == Clicked ==>
          flagCount == old(flagCount) && correctFlagCount == old(correctFlagCount) && player.KB == old(player.KB)) &&
        (t.state != Default ==> outcome == Continue)
      ensures outcome != Lost
      ensures old(CountersAgree()) ==> CountersAgree()
      ensures old(FlagsCorrect()) && (old(tiles)[x][y].state == Default ==> old(tiles)[x][y].isMine) ==> FlagsCorrect()
      ensures old(Sound()) && (human && old(tiles)[x][y].state == Default ==> old(tiles)[x][y].isMine) ==> Sound()
    {
      var t := tiles[x][y];
      outcome := Continue;
      if t.state == Clicked {
        assert tiles[x][y := t] == tiles[x];
        assert Replace(tiles, x, y, t) == tiles;
        return;
      }
      if t.state == Default {
        outcome := Flag(x, y, human);
      } else {
        Unflag(x, y);
      }
    }

    /** The `DEFAULT` branch of `onRightClick`: flag the tile and test for a win. */
    method Flag(x: int, y: int, human: bool) returns (outcome: Outcome)
      requires Valid() && InGrid(sizeX, sizeY, x, y) && tiles[x][y].state == Default
      modifies this`tiles, this`flagCount, this`correctFlagCount, player`KB
      ensures Valid()
      ensures tiles == Replace(old(tiles), x, y, old(tiles)[x][y].(state := Flagged))
      ensures var t := old(tiles)[x][y];
        flagCount == old(flagCount) + 1 && correctFlagCount == old(correctFlagCount) + (if t.isMine then 1 else 0) &&
        player.KB == (if human then old(player.KB) + {{Literal(t.id, false)}} else old(player.KB)) &&
        (outcome == Won <==> clickedCount == sizeX * sizeY - mines && correctFlagCount == mines) &&
        outcome != Lost
      ensures old(CountersAgree()) ==> CountersAgree()
      ensures old(FlagsCorrect()) && old(tiles)[x][y].isMine ==> FlagsCorrect()
      ensures old(Sound()) && (human ==> old(tiles)[x][y].isMine) ==> Sound()
    {
      var t := tiles[x][y];
      SetTile(x, y, t.(state := Flagged));
      if t.isMine {
        correctFlagCount := correctFlagCount + 1;
      }
      if human {
        CellIdRange(sizeX, sizeY, x, y);
        Tell(Literal(t.id, false));
      }
      flagCount := flagCount + 1;
      if clickedCount == sizeX * sizeY - mines && correctFlagCount == mines {
        outcome := Won;
      } else {
        outcome := Continue;
      }
    }

    /** The `FLAGGED` branch of `onRightClick`: the flag is taken back. */
    method Unflag(x: int, y: int)
      requires Valid() && InGrid(sizeX, sizeY, x, y) && tiles[x][y].state == Flagged
      modifies this`tiles, this`flagCount, this`correctFlagCount
      ensures Valid()
      ensures tiles == Replace(old(tiles), x, y, old(tiles)[x][y].(state := Default))
      ensures flagCount == old(flagCount) - 1
      ensures correctFlagCount == old(correctFlagCount) - (if old(tiles)[x][y].isMine then 1 else 0)
      ensures old(CountersAgree()) ==> CountersAgree()
      ensures old(FlagsCorrect()) ==> FlagsCorrect()
    {
      var t := tiles[x][y];
      SetTile(x, y, t.(state := Default));
      if t.isMine {
        correctFlagCount := correctFlagCount - 1;
      }
      flagCount := flagCount - 1;
    }

    /** The new state of one tile, at the same place and with the same counts. */
    method SetTile(x: int, y: int, u: Tile)
      requires Valid() && InGrid(sizeX, sizeY, x, y)
      requires SamePlace(u, tiles[x][y]) && u.nearTiles == tiles[x][y].nearTiles && u.mines == tiles[x][y].mines
      modifies this`tiles
      ensures Valid()
      ensures tiles == Replace(old(tiles), x, y, u)
      ensures Tally(tiles, ClickedTiles) + Mark(old(tiles)[x][y], ClickedTiles) == Tally(old(tiles), ClickedTiles) + Mark(u, ClickedTiles)
      ensures Tally(tiles, FlaggedTiles) + Mark(old(tiles)[x][y], FlaggedTiles) == Tally(old(tiles), FlaggedTiles) + Mark(u, FlaggedTiles)
      ensures Tally(tiles, FlaggedMines) + Mark(old(tiles)[x][y], FlaggedMines) == Tally(old(tiles), FlaggedMines) + Mark(u, FlaggedMines)
      ensures old(FlagsCorrect()) && (u.state == Flagged ==> u.isMine) ==> FlagsCorrect()
    {
      RetileLaidOut(tiles, sizeX, sizeY, mineIds, x, y, u);
      RetileCounted(tiles, sizeX, sizeY, mineIds, x, y, u);
      if FlagsCorrect() && (u.state == Flagged ==> u.isMine) {
        RetileFlags(tiles, sizeX, sizeY, x, y, u);
      }
      TallyUpdate(tiles, x, y, u, ClickedTiles);
      TallyUpdate(tiles, x, y, u, FlaggedTiles);
      TallyUpdate(tiles, x, y, u, FlaggedMines);
      tiles := Replace(tiles, x, y, u);
    }

    /** `self.player.KB.add(...)` of the unit clause `{l}`, with no subsumption test. */
    method Tell(l: Literal)
      requires Valid() && 0 <= l.id < sizeX * sizeY
      modifies player`KB
      ensures Valid()
      ensures player.KB == old(player.KB) + {{l}}
      ensures old(Sound()) && Holds(mineIds, l) ==> Sound()
    {
      player.KB := player.KB + {{l}};
    }

    /**
      The scan of the global hint: the ids of the `DEFAULT` tiles row by
      row, how many there are, and how many of them are mines.
    */
    method UnresolvedCells() returns (ids: seq<int>, m: nat, n: nat)
      requires LaidOut(tiles, sizeX, sizeY, mineIds)
      ensures ids == Defaults(tiles) && m == |ids| && n == CountMines(ids, mineIds)
    {
      ids, m, n := [], 0, 0;
      var x := 0;
      while x < sizeX
        invariant 0 <= x <= sizeX
        invariant ids == Defaults(tiles[..x]) && m == |ids| && n == CountMines(ids, mineIds)
      {
        ghost var before := ids;
        var y := 0;
        while y < sizeY
          invariant 0 <= y <= sizeY
          invariant ids == before + RowDefaults(tiles[x][..y]) && m == |ids| && n == CountMines(ids, mineIds)
        {
          assert tiles[x][..y + 1][..y] == tiles[x][..y];
          var t := tiles[x][y];
          if t.state == Default {
            m := m + 1;
            CountMinesAppend(ids, t.id, mineIds);
            ids := ids + [t.id];
            if t.isMine {
              n := n + 1;
            }
          }
          y := y + 1;
        }
        assert tiles[x][..y] == tiles[x];
        assert tiles[..x + 1][..x] == tiles[..x];
        x := x + 1;
      }
      assert tiles[..x] == tiles;
    }

    /**
      The hint a revealed safe cell at `(x, y)` gives: the clauses for "exactly
      `mines` of the `near_tiles` neighbours are mined", through `insertKB`.
    */
    method AddHint(x: int, y: int)
      requires Valid() && InGrid(sizeX, sizeY, x, y)
      modifies player`KB
      ensures Valid()
      ensures player.KB == InsertAll(old(player.KB), player.KB0,
        HintClauses(NeighborIds(sizeX, sizeY, x, y), tiles[x][y].nearTiles, tiles[x][y].mines))
      ensures old(Sound()) ==> Sound()
    {
      var tile := tiles[x][y];
      var neighbors := GetNeighbors(x, y);
      NeighborTilesIds(tiles, sizeX, sizeY, mineIds, x, y);
      var hint := HintClauses(TileIds(neighbors), tile.nearTiles, tile.mines);
      HintHolds(tiles, sizeX, sizeY, mineIds, x, y);
      InsertAllKeeps(mineIds, player.KB, player.KB0, hint, sizeX * sizeY);
      player.InsertEach(hint);
    }

    /**
      The first branch of `inference`: the unit clause `{literal}` leaves
      `KB`, its literal joins `KB0` and is propagated, its cell is clicked
      (safe) or right-clicked (mine), and a safe cell's hint is added.
    */
    method Promote(unit: Clause, literal: Literal) returns (outcome: Outcome)
      requires Valid() && unit in player.KB && unit == {literal}
      modifies this`tiles, this`flagCount, this`correctFlagCount, this`clickedCount, player
      ensures Valid()
      ensures player.KB0 == old(player.KB0) + {literal}
      ensures var (x, y) := IdToCrd(sizeY, literal.id);
        InGrid(sizeX, sizeY, x, y) &&
        tiles == Replace(old(tiles), x, y, if literal.bar then AfterClick(old(tiles)[x][y])
                                           else AfterRightClick(old(tiles)[x][y])) &&
        player.KB == InsertAll(Propagate(old(player.KB) - {unit}, literal), player.KB0,
          if literal.bar then HintClauses(NeighborIds(sizeX, sizeY, x, y), tiles[x][y].nearTiles, tiles[x][y].mines) else [])
      ensures var (x, y) := IdToCrd(sizeY, literal.id);
        InGrid(sizeX, sizeY, x, y) &&
        var t := old(tiles)[x][y];
        var opens := literal.bar && t.state != Clicked && !t.isMine;
        var flags := if literal.bar then 0 else FlagStep(t);
        clickedCount == old(clickedCount) + (if opens then 1 else 0) &&
        flagCount == old(flagCount) + flags &&
        correctFlagCount == old(correctFlagCount) + (if t.isMine then flags else 0) &&
        (outcome == Lost <==> literal.bar && t.state != Clicked && t.isMine) &&
        (outcome == Won <==>
          (opens || (!literal.bar && t.state == Default)) && clickedCount == sizeX * sizeY - mines && correctFlagCount == mines)
      ensures old(Sound()) ==> Sound() && outcome != Lost
      ensures old(Sound() && FlagsCorrect() && CountersAgree()) ==> FlagsCorrect() && CountersAgree()
    {
      assert literal in unit;
      IdToCrdInGrid(sizeX, sizeY, literal.id);
      var (x, y) := IdToCrd(sizeY, literal.id);
      ghost var sound := Sound();
      if sound {
        assert Holds(mineIds, literal);
        PropagateSound(mineIds, player.KB - {unit}, literal);
      }
      PropagateKeeps(player.KB - {unit}, player.KB0, literal, sizeX * sizeY);
      player.KB := player.KB - {unit};
      player.KB0 := player.KB0 + {literal};
      player.MatchRemainingInKB(literal);
      ghost var settled := player.KB;
      assert tiles[x][y].id == literal.id;
      if literal.bar {
        outcome := OnClick(x, y, false);
      } else {
        outcome := OnRightClick(x, y, false);
      }
      if literal.bar {
        AddHint(x, y);
      } else {
        assert player.KB == InsertAll(settled, player.KB0, []);
      }
    }

    /**
      The second branch of `inference`: when the game's unmarked count is
      below the threshold, the global hint goes in first; then the pairwise
      resolution pass runs.
    */
    method GlobalStep() returns (ghost snapshot: seq<Clause>)
      requires Valid()
      modifies player`KB
      ensures Valid()
      ensures var g := if Unmarked(sizeX, sizeY, correctFlagCount, flagCount) < GlobalHintThreshold
                       then InsertAll(old(player.KB), player.KB0, GlobalHint(tiles, mineIds)) else old(player.KB);
        |snapshot| == |g| && (forall c :: c in snapshot <==> c in g) &&
        player.KB == InsertAll(g, player.KB0, Rows(snapshot, |snapshot|))
      ensures old(Sound()) ==> Sound()
    {
      if sizeX * sizeY - correctFlagCount - flagCount < GlobalHintThreshold {
        var ids, m, n := UnresolvedCells();
        var hint := CardinalityClauses(ids, m, n);
        forall i | 0 <= i < |ids| ensures 0 <= ids[i] < sizeX * sizeY {
          DefaultsMembers(tiles, ids[i]);
          var a, b :| 0 <= a < |tiles| && 0 <= b < |tiles[a]| && tiles[a][b].state == Default && tiles[a][b].id == ids[i];
          CellIdRange(sizeX, sizeY, a, b);
        }
        HintIds(ids, m, n, sizeX * sizeY);
        CardinalityExact(mineIds, ids, m, n);
        InsertAllKeeps(mineIds, player.KB, player.KB0, hint, sizeX * sizeY);
        player.InsertEach(hint);
      }
      ghost var g := player.KB;
      snapshot := player.PairWiseMatching();
      PairwiseResolventsSound(mineIds, snapshot, sizeX * sizeY);
      InsertAllKeeps(mineIds, g, player.KB0, Rows(snapshot, |snapshot|), sizeX * sizeY);
    }

    /**
      One step of `inference`: promote some unit clause of `KB` if there is
      one, otherwise run the global step. With a sound knowledge base the
      step stays sound, never clicks a mine, and keeps the flags and
      counters right; `KB0` only grows, by the promoted literal.
    */
    method Inference() returns (outcome: Outcome, ghost promoted: Option<Literal>, ghost snapshot: seq<Clause>)
      requires Valid()
      modifies this`tiles, this`flagCount, this`correctFlagCount, this`clickedCount, player
      ensures Valid()
      ensures promoted.None? <==> forall c :: c in old(player.KB) ==> |c| != 1
      ensures promoted.Some? ==> {promoted.value} in old(player.KB) && player.KB0 == old(player.KB0) + {promoted.value}
      ensures promoted.Some? ==>
        var literal := promoted.value;
        var (x, y) := IdToCrd(sizeY, literal.id);
        InGrid(sizeX, sizeY, x, y) &&
        tiles == Replace(old(tiles), x, y, if literal.bar then AfterClick(old(tiles)[x][y])
                                           else AfterRightClick(old(tiles)[x][y])) &&
        player.KB == InsertAll(Propagate(old(player.KB) - {{literal}}, literal), player.KB0,
          if literal.bar then HintClauses(NeighborIds(sizeX, sizeY, x, y), tiles[x][y].nearTiles, tiles[x][y].mines) else [])
      ensures promoted.Some? ==>
        var literal := promoted.value;
        var (x, y) := IdToCrd(sizeY, literal.id);
        InGrid(sizeX, sizeY, x, y) &&
        var t := old(tiles)[x][y];
        var opens := literal.bar && t.state != Clicked && !t.isMine;
        var flags := if literal.bar then 0 else FlagStep(t);
        clickedCount == old(clickedCount) + (if opens then 1 else 0) &&
        flagCount == old(flagCount) + flags &&
        correctFlagCount == old(correctFlagCount) + (if t.isMine then flags else 0) &&
        (outcome == Lost <==> literal.bar && t.state != Clicked && t.isMine) &&
        (outcome == Won <==>
          (opens || (!literal.bar && t.state == Default)) && clickedCount == sizeX * sizeY - mines && correctFlagCount == mines)
      ensures promoted.None? ==>
        player.KB0 == old(player.KB0) && tiles == old(tiles) && outcome == Continue &&
        flagCount == old(flagCount) && correctFlagCount == old(correctFlagCount) && clickedCount == old(clickedCount)
      ensures promoted.None? ==>
        var g := if Unmarked(sizeX, sizeY, correctFlagCount, flagCount) < GlobalHintThreshold
                 then InsertAll(old(player.KB), player.KB0, GlobalHint(tiles, mineIds)) else old(player.KB);
        |snapshot| == |g| && (forall c :: c in snapshot <==> c in g) &&
        player.KB == InsertAll(g, player.KB0, Rows(snapshot, |snapshot|))
      ensures old(Sound()) ==> Sound() && outcome != Lost
      ensures old(Sound() && FlagsCorrect() && CountersAgree()) ==> FlagsCorrect() && CountersAgree()
    {
      var choose := player.GetSingleLiteralClause();
      if choose.Some? {
        var literal :| literal in choose.value;
        assert choose.value == {literal} by {
          assert |choose.value - {literal}| == 0;
        }
        outcome := Promote(choose.value, literal);
        promoted, snapshot := Some(literal), [];
      } else {
        snapshot := GlobalStep();
        outcome := Continue;
        promoted := None;
      }
    }
  }
}
