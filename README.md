# Minesweeper with a resolution-based automated player

This project models the automated player of `minesweeper.py` and the board
bookkeeping it relies on, and proves properties of that model.

The player keeps two collections:

- `KB`: a set of CNF clauses over cell literals. A literal `(id, bar)` says
  "cell `id` is safe" when `bar` is true and "cell `id` is a mine" otherwise.
- `KB0`: the set of literals the player has already acted on, by clicking or
  flagging the cell.

One step of `inference` does one of two things:

- It promotes a unit clause: the clause leaves `KB`, its literal joins `KB0` and
  is propagated through `KB`, and the cell is clicked or flagged. A clicked
  cell's neighbourhood is then encoded as "exactly `mines` of these
  `near_tiles` cells are mines" with the `itertools.combinations` cardinality
  encoding.
- Otherwise it may add the same encoding over all unresolved cells (the global
  hint), and then runs one pass of bounded binary resolution.

Every clause a hint or a resolution pass produces goes through `insertKB`.
That reduces the clause against `KB0` and applies forward and backward
subsumption. Propagation's shrunk clauses, the initial seed and a human's unit
clauses are added to `KB` directly.

The model is organised like the program.

- `Logic` (logic.dfy) holds literals, clauses, truth under a mine layout,
  `check_subsumption`, and binary resolvents.
- `KnowledgeBase` (kb.dfy) holds value-level definitions of
  `resolution_byKB0`, `insertKB`, `match_remaining_in_KB` and the pair order of
  `pair_wise_matching`, with lemmas about them.
- `Players` (player.dfy) holds the `Player` class. Each method that changes
  `KB` updates it in place with the source's loops, and is proved equal to the
  value-level definition.
- `Encoding` (encoding.dfy) holds `combinations` and the cardinality encoding,
  with the theorem that the encoding is exact.
- `Board` (board.dfy) holds the id scheme, `id_to_crd`, the edge-aware
  neighbourhood, tiles and their states, and the three tallies behind the
  counters.
- `Game` (game.dfy) holds the `Minesweeper` class: set-up, the neighbourhood
  query, the two click handlers, and one inference step.

A truth assignment is the set `mineIds` of mined cells. The headline result is
`Game.Minesweeper.Inference`. Suppose every clause of `KB` and every literal of
`KB0` is true of the real layout (`Sound`). Then one step keeps that true, never
clicks a mine, keeps every flag on a mine, and keeps the three counters equal to
the board's tallies.

In six places the code does something a reader might not expect. The model
follows the code in all of them.

- **Flagging is a toggle.** A flag command on an already `FLAGGED` tile is not
  a no-op: `onRightClick` un-flags it. Suppose a human flags a cell; that puts
  a mine unit clause into `KB`. When the player later promotes that clause it
  right-clicks the cell, which takes the flag away. `Game.Minesweeper.Promote`
  states this through `AfterRightClick`.
- **Propagation skips `insertKB`.** `match_remaining_in_KB` puts each shrunk
  clause back with a plain `add`, with no reduction and no subsumption test. A
  shrunk clause can therefore subsume a kept clause, or be empty. Once
  the empty clause is in `KB` it subsumes every candidate, so `insertKB` drops
  all later ones (`KnowledgeBase.InsertBlockedByEmpty`). A sound step never
  produces it (`KnowledgeBase.PropagateSound`).
- **`onClick` clicks flagged safe tiles.** `onClick` on a `FLAGGED` safe tile (reachable
  only from `inference`) makes the tile `CLICKED` and leaves `flagCount` and
  `correctFlagCount` as they were. On a `FLAGGED` mine it reports the loss and
  the tile stays `FLAGGED`. `Game.Minesweeper.OnClick` therefore keeps
  the counters equal to the tallies only when the tile was not flagged. A sound
  step never clicks a flagged tile, since flags sit on mines.
- **The global-hint threshold counts flags, not unresolved cells.** It compares
  `SIZE_X * SIZE_Y - correctFlagCount - flagCount` with 30 (`Game.Unmarked`).
  It does not compare the number of unresolved cells.
- **Resolution runs after the global hint.** When the global hint is added,
  `pair_wise_matching` still runs in the same step.
- **Hints cover all neighbours.** The cardinality encoding is built over all
  neighbours of the cell, not only the unresolved ones. `insertKB`'s reduction
  against `KB0` then drops the settled ones.

## Model

| member | source | states |
|---|---|---|
| Logic.PivotsMirror | minesweeper.py:93-102 | a single complementary pair seen from the left clause is the same pair seen from the right clause, with the literal complemented |
| Logic.Resolvent | minesweeper.py:99-103 | the resolvent consists of literals of the two parents only |
| Logic.ResolventOnPivot | minesweeper.py:98-103 | with exactly one complementary pair `l`/`¬l`, the resolvent is the union of the parents minus `l` and `¬l`, as the code builds it |
| Logic.ResolventSound | minesweeper.py:85-104 | every mine layout that satisfies both parents satisfies their resolvent on a single pair |
| Logic.HoldsAllConsistent | minesweeper.py:58 | when every marked literal of `KB0` is true of the layout (as `Sound` demands), no cell is marked both safe and mined |
| Logic.ResolventNonEmpty | minesweeper.py:89-103 | when one parent is binary and they clash on exactly one pair, the resolvent is not empty |
| Logic.SubsumptionEntails | minesweeper.py:110-121 | a clause that `check_subsumption` finds inside another entails it, so dropping the subsumed clause loses nothing |
| Players.Player.CheckSubsumptionScan | minesweeper.py:139-143 | the literal scan returns true exactly when the left clause is a subset of the right one (the predicate `Logic.CheckSubsumption`) |
| KnowledgeBase.ReduceEquivalent | minesweeper.py:123-137 | for `Reduce`, the value-level `resolution_byKB0`: when the settled literals are true, a clause that shares a literal with `KB0` is true, and a reduced clause is true exactly when the original is |
| Players.Player.ResolutionByKB0 | minesweeper.py:123-137 | `None` exactly when the clause shares a literal with `KB0`; otherwise a subset of the clause that keeps every literal whose cell is not settled and mentions no settled cell |
| KnowledgeBase.InsertNoEmpty | minesweeper.py:106-121 | `Insert`, the value-level `insertKB`, never adds the empty clause: a reduced clause that is `None` or empty is dropped |
| KnowledgeBase.InsertBlockedByEmpty | minesweeper.py:110-112 | once `KB` holds the empty clause, `insertKB` drops every candidate, since the empty clause subsumes it |
| KnowledgeBase.InsertKeepsMinimal | minesweeper.py:110-120 | when no clause of `KB` is a subset of another, that stays true after `insertKB` |
| KnowledgeBase.InsertIdempotent | minesweeper.py:110-120 | inserting the same clause twice gives the same `KB` as inserting it once |
| KnowledgeBase.InsertSound | minesweeper.py:106-121 | with `KB0` true, a true candidate clause keeps every clause of `KB` true |
| KnowledgeBase.InsertIdsWithin | minesweeper.py:106-121 | a candidate over board cells keeps `KB` over board cells |
| KnowledgeBase.InsertAvoidsSettled | minesweeper.py:107-109 | when no clause of `KB` mentions a settled cell, that stays true after an insertion |
| KnowledgeBase.InsertAllAppend | minesweeper.py:198-213 | `InsertAll`, a run of `insertKB` calls: inserting two runs of candidates one after the other is inserting their concatenation |
| KnowledgeBase.InsertAllKeeps | minesweeper.py:198-235 | a run of insertions keeps `KB` free of the empty clause, subsumption-minimal, clear of settled cells, over board cells, and true of the layout when the candidates are |
| Players.Player.InsertKB | minesweeper.py:106-121 | the two subsumption scans and the removal loop leave `KB` equal to the value-level insertion of the candidate |
| Players.Player.InsertEach | minesweeper.py:198-213 | a loop of `insertKB` calls over a sequence of clauses performs those insertions in order |
| KnowledgeBase.MentionsCell | minesweeper.py:75-82 | a clause mentions the cell of `l` exactly when it holds `l` or its complement (so the `remove` of the complement always finds it) |
| KnowledgeBase.PropagateEffect | minesweeper.py:66-83 | for `Propagate`, the value-level `match_remaining_in_KB`: after propagation no clause contains `l` or mentions its cell; clauses not mentioning the cell are kept; every clause with the complement is kept without it; nothing else is added |
| KnowledgeBase.PropagateSound | minesweeper.py:66-83 | when `l` is true, propagating it keeps a true `KB` true and so produces no empty clause |
| KnowledgeBase.PropagateKeeps | minesweeper.py:66-83 | propagation keeps `KB` over board cells, and clear of settled cells once `l` is settled |
| Players.Player.MatchRemainingInKB | minesweeper.py:66-83 | the three loops leave `KB` equal to the value-level propagation of `l` |
| KnowledgeBase.InsertRowStep | minesweeper.py:88-103 | one more pair of the inner loop adds that pair's insertions (`ResolveStep`) after those so far (`Row`) |
| KnowledgeBase.InsertRowsStep | minesweeper.py:87-103 | one more row of the outer loop adds that row's insertions after those so far (`Rows`) |
| KnowledgeBase.RowProvenance | minesweeper.py:88-103 | every clause a row produces is the resolvent of a pair `i < j` of the snapshot |
| KnowledgeBase.RowsProvenance | minesweeper.py:87-103 | every clause the double loop produces is the resolvent of some pair of the snapshot |
| KnowledgeBase.PairwiseResolventsSound | minesweeper.py:85-104 | every candidate of a resolution pass is non-empty, over board cells when the snapshot is, and true of every layout satisfying the snapshot |
| Players.Player.PairWiseMatching | minesweeper.py:85-104 | the snapshot lists the clauses of `KB` once each, and `KB` ends as the insertion, in double-loop order, of the resolvents of the snapshot's pairs |
| Players.Player.MatchRow | minesweeper.py:88-103 | the inner loop inserts the resolvents of `list[i]` with every later clause, in order |
| Players.Player.MatchPair | minesweeper.py:89-103 | one pair inserts its resolvent exactly when one clause is binary and there is exactly one complementary pair |
| Players.Player.CountComplementary | minesweeper.py:92-97 | the counting loop counts the complementary pairs and, when there is one, names it |
| Players.Player.ListOf | minesweeper.py:86 | `list(KB)` holds every clause once |
| Players.Player.GetSingleLiteralClause | minesweeper.py:60-64 | the result is a clause of `KB` with one literal, and it is `None` exactly when `KB` has no such clause |
| Players.Player.constructor | minesweeper.py:56-58 | a new player has empty `KB` and `KB0` (the source starts them as `None`; see Left out) |
| Encoding.CombinationsShape | minesweeper.py:206 | every `k`-combination that `Combinations` (the model of `itertools.combinations`) gives has `k` elements, all drawn from the list |
| Encoding.CombinationsCount | minesweeper.py:206 | there are "n choose k" combinations of `k` out of `n` elements, by Pascal's rule |
| Encoding.CombinationsTooLarge | minesweeper.py:206 | there are no combinations larger than the list |
| Encoding.CombinationsOfOne | minesweeper.py:206 | the 1-combinations are the elements one by one, in order |
| Encoding.LitSeq | minesweeper.py:205 | one literal per cell id, in order and with the given polarity |
| Encoding.CountMinesAppend | minesweeper.py:222-225 | counting mines over one more id adds one exactly when it is a mine |
| Encoding.AtLeastOneExact | minesweeper.py:205-213 | all clauses of the `k`-combinations are true exactly when fewer than `k` of the literals are false |
| Encoding.AtLeastOneHit | minesweeper.py:205-213 | if `k` literals or more are false, some `k`-combination consists of false literals only |
| Encoding.FalsifiedMineLiterals | minesweeper.py:205 | the false "mine" literals over the ids are the safe cells among them |
| Encoding.FalsifiedSafeLiterals | minesweeper.py:210 | the false "safe" literals over the ids are the mined cells among them |
| Encoding.SeqSatisfiesAppend | minesweeper.py:205-213 | all clauses of two runs are true exactly when both runs are |
| Encoding.CardinalityExact | minesweeper.py:205-213 | `CardinalityClauses`, the `(k-m+1)`-subsets of mine literals plus the `(m+1)`-subsets of safe literals over `k` cells, are all true exactly when exactly `m` of the cells are mines |
| Encoding.UnitBranchAgrees | minesweeper.py:198-213 | the all-safe unit clauses for `m = 0` and the all-mine unit clauses for `m = k` are what the general encoding gives in those cases |
| Encoding.HintExact | minesweeper.py:195-213 | the clauses of a revealed cell's hint (`HintClauses`) are all true exactly when exactly `mines` of its neighbours are mines |
| Encoding.AtLeastOneIds | minesweeper.py:205-213 | the combination clauses mention only the given cells |
| Encoding.HintIds | minesweeper.py:195-235 | the hint and the global hint mention only the given cells |
| Board.IdToCrd | minesweeper.py:179-180 | the column of `id_to_crd` is in `0 .. SIZE_Y - 1` |
| Board.IdToCrdInverts | minesweeper.py:179-180 | `id_to_crd` inverts `CellId`, `id = x * SIZE_Y + y`, for every column in range, and rebuilding the id from `id_to_crd` gives the id back |
| Board.CellIdRange | minesweeper.py:258 | a cell is on the board exactly when its id is in `0 .. SIZE_X * SIZE_Y - 1` |
| Board.IdToCrdInGrid | minesweeper.py:179-180 | an id in range maps to a cell on the board |
| Board.NeighborCoordsUpTo | minesweeper.py:337-351 | the first `k` offsets yield at most `k` cells, all on the board |
| Board.UpToMembers | minesweeper.py:337-351 | a cell is among the first `k` neighbours exactly when it is on the board and one of the first `k` offsets away |
| Board.UpToDistinct | minesweeper.py:337-351 | the first `k` neighbours are pairwise distinct |
| Board.NeighborCoordsExact | minesweeper.py:335-352 | `getNeighbors`' coordinates (`NeighborCoords`, over the eight offsets) are exactly the on-board cells at row and column distance at most 1 other than the cell itself, distinct, at most eight |
| Board.NeighborIdsDistinct | minesweeper.py:335-352 | the neighbours' ids are distinct and on the board |
| Board.MineTally | minesweeper.py:286-288 | the number of mined tiles is at most the number of tiles |
| Board.MineTallyIsCount | minesweeper.py:286-288 | counting mined neighbour tiles is counting their ids among the mined cells |
| Board.NeighborTilesIds | minesweeper.py:284-290 | on a laid-out board the neighbour tiles (`NeighborTiles`) carry the neighbourhood's ids, and their mine tally is its mine count |
| Board.MinesAtMostNear | minesweeper.py:284-290 | each counted cell's `mines` is at most its `near_tiles`, which is at most eight |
| Board.RetileLaidOut | minesweeper.py:386-388 | a state change keeps every tile at its coordinates, id and mine flag |
| Board.RetileCounted | minesweeper.py:402-407 | a state change keeps every tile's cached counts right |
| Board.RetileFlags | minesweeper.py:388 | flagging only mined cells keeps every flag on a mine |
| Board.RowDefaultsMembers | minesweeper.py:220-223 | an id is collected from a row (`RowDefaults`) exactly when a `DEFAULT` tile of that row has it |
| Board.DefaultsMembers | minesweeper.py:219-223 | the unresolved cells (`Defaults`) are exactly the ids of the `DEFAULT` tiles |
| Board.TallyAllDefault | minesweeper.py:249-262 | on a board of `DEFAULT` tiles all three tallies are zero, matching the zeroed counters |
| Board.RowTallyAllDefault | minesweeper.py:249-262 | the same for one row |
| Board.ClickTwice | minesweeper.py:364-375 | clicking a tile a second time changes nothing: `onClick` returns at once on a `CLICKED` tile and never opens a mine |
| Board.RightClickTwice | minesweeper.py:386-407 | right-clicking twice gives the tile back: `DEFAULT` and `FLAGGED` swap, `CLICKED` stays |
| Board.RowTallyUpdate | minesweeper.py:409-411 | replacing one tile of a row moves each tally of the row (`RowTally`) by the difference that tile makes |
| Board.TallyUpdate | minesweeper.py:388-397 | replacing one tile moves each board tally (`Tally`, the number of clicked tiles, flagged tiles or flagged mines) by the difference that tile makes |
| Game.HintHolds | minesweeper.py:195-213 | the hint of a counted cell mentions only board cells and is true of the mine layout |
| Game.SeedSound | minesweeper.py:281 | the initial `KB` of safe unit clauses is true of a mine layout exactly when no initially revealed cell is mined |
| Game.Minesweeper.constructor | minesweeper.py:146-173 | a new game is laid out and counted with every tile `DEFAULT` and all three counters zero, `KB` is the seed and `KB0` empty, and the knowledge base is sound exactly when the seed cells are safe |
| Game.Minesweeper.Setup | minesweeper.py:247-298 | `setup` zeroes the counters, lays out and counts every tile as `DEFAULT`, and seeds `KB` and `KB0` |
| Game.Minesweeper.LayTiles | minesweeper.py:254-276 | every tile is the `BlankTile` of its cell: its id `x * SIZE_Y + y`, its coordinates, its mine flag, the `DEFAULT` state, and zero `near_tiles` and `mines` |
| Game.Minesweeper.CountAll | minesweeper.py:284-290 | after the count loop every tile's `mines` and `near_tiles` match its neighbourhood, and no state changes |
| Game.Minesweeper.CountRow | minesweeper.py:285-290 | counting one row fixes that row's counts and changes no other row |
| Game.Minesweeper.MineCount | minesweeper.py:286-288 | the `mc` loop counts the mined neighbour tiles |
| Game.Minesweeper.GetNeighbors | minesweeper.py:335-352 | the loop over the eight offsets, skipping the off-board keys, returns the neighbour tiles in offset order |
| Game.Minesweeper.OnClick | minesweeper.py:360-379 | `onClick` changes only the clicked tile as `AfterClick` says; it counts a newly clicked tile; a human click (never on a `FLAGGED` tile, whose left button is unbound) adds the safe unit; the game is lost exactly on a mine and won exactly on the win test; soundness and the flag invariant are kept; the counters stay equal to the tallies unless a flagged tile was clicked |
| Game.Minesweeper.OnRightClick | minesweeper.py:381-412 | `onRightClick` toggles `DEFAULT` and `FLAGGED` and ignores `CLICKED`; the counters move by ±1 (the correct-flag count only for a mine) and stay equal to the tallies; a human flag adds the mine unit; the win is tested only after flagging |
| Game.Minesweeper.Flag | minesweeper.py:386-400 | flagging a `DEFAULT` tile: both counters move up, a human flag adds the mine unit, then the win test |
| Game.Minesweeper.Unflag | minesweeper.py:402-412 | un-flagging: the tile goes back to `DEFAULT` and both counters move down |
| Game.Minesweeper.SetTile | minesweeper.py:375-376 | storing a tile's new state keeps the board laid out and counted, and moves each tally by the difference the tile makes |
| Game.Minesweeper.Tell | minesweeper.py:394-395 | a human's move adds its unit clause to `KB`, directly and without subsumption, keeping `KB` true when the move is right |
| Game.Minesweeper.UnresolvedCells | minesweeper.py:217-225 | the scan collects the `DEFAULT` cells row by row, counts them (`m`), and counts the mines among them (`n`) |
| Game.Minesweeper.AddHint | minesweeper.py:195-213 | the hint of a revealed safe cell goes through `insertKB` in order, keeping `KB` over board cells and true of the layout |
| Game.Minesweeper.Promote | minesweeper.py:183-213 | the unit clause leaves `KB`, its literal joins `KB0`, is propagated, and its cell is clicked or right-clicked, with the hint of a safe cell inserted afterwards; the counters move as the click handler says and the game is lost exactly when a safe literal's unclicked cell is a mine, won exactly on the win test; a sound step never loses and keeps flags and counters right |
| Game.Minesweeper.GlobalStep | minesweeper.py:214-237 | below the threshold (`Unmarked`, counted from the two flag counters) the global hint (`GlobalHint`, the encoding over the `DEFAULT` cells) is inserted first, then one resolution pass over a snapshot of `KB`; soundness is kept |
| Game.Minesweeper.Inference | minesweeper.py:182-237 | a unit clause is promoted exactly when `KB` has one; on a promotion `KB`, `KB0`, the board, the counters and the outcome are as `Promote` states; otherwise the board, `KB0` and the counters are unchanged and `KB` is as `GlobalStep` states; from a sound `KB` the step stays sound, never loses, and keeps flags and counters right |

## Left out

- The tkinter user interface is not modelled: images, frame, labels, buttons, grid layout, `refreshLabels`, and `main`.
- The button bindings are modelled only through their effect on the logic. Flagging unbinds a tile's left click and un-flagging binds it again (minesweeper.py:389 and 408), so a human never clicks a `FLAGGED` tile. `OnClick` requires exactly that of a human click. The automated player calls `onClick` directly and is not bound by it.
- The `gameOver` dialog is not modelled. `OnClick`, `OnRightClick` and `Inference` return the `Outcome` instead, and the board is left as it is, which is the path where the user answers "no" and `tk.quit` returns. Restarting after the dialog is not modelled.
- The timer (`updateTimer`, `startTime`, `datetime`) is left out: it depends on the wall clock.
- The `frame.after` rescheduling of `inference` is left out: `Inference` is one step.
- Command-line parsing and `level_dict` are left out: the board size is a constructor parameter, and `NUM_MINES` is the size of the given mine set.
- `random.sample` and `np.sqrt` are left out: the mine layout and the initial safe cells are constructor parameters.
- `print` and `printClause` are left out: debug output.
- Python's tuple order, hashing and `Clause` equality are not modelled. A clause is a set of literals, and `KB` is a set of clauses.
- Set iteration order is not modelled. The unit clause chosen is some unit clause of `KB`, and the pairing pass works on some listing of `KB`.
- The inner `for literal2` scan of the pair count is modelled as a membership test of the complement. The two agree because clauses are sets.
- `setup` creates every tile unmined and then marks the mines in a second loop. The model sets `isMine` when the tile is created, which gives the same board.
- `setup` calls `getNeighbors` twice per cell; the model calls it once.
- Game.Minesweeper.constructor: the first `inference()` that `__init__` runs under `--AI` (on by default, minesweeper.py:176-177) is left to the caller, which invokes `Inference`.
- Players.Player.constructor: the source starts `KB` and `KB0` as `None`. `setup` replaces both with sets before anything reads them, so the model starts with empty sets.
- The class invariant `Valid` does not record that the mine ids are board cells. The constructor demands it, and no later step depends on it.
