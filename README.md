# Minesweeper AI — a Dafny model

This project models `minesweeper/minesweeper.py`:

- the game board `Minesweeper`, with its queries `is_mine`, `nearby_mines` and `won`;
- the knowledge-base sentence `Sentence`, which means "exactly `count` of `cells` are mines";
- the player `MinesweeperAI`: it records probes, keeps a list of sentences, infers mines and safe cells after every probe, and chooses the next move.

The model follows the code as written, including the places where it departs from the textbook inference:

- **`relationship` derives empty sentences.** It subtracts the superset's cells from the subset's, so a derived sentence never has cells.
- **`relationship(s, s)` is `{} = 0`.** A sentence object is always truthy, so this result is appended.
- **Only pairs with the last sentence are related.** A pass relates every visited sentence to the sentence just added, not every pair.
- **The cascade reaches the old list only.** `mark_mine` and `mark_safe` loop over `knowledge`. The working list of `evaluate_knowledge` shares those sentence objects, so they are marked there too; the sentences a pass appends to the working list are in no other list and are never marked.
- **The probed cell is not cascaded.** `add_knowledge` puts it into `safes` directly, and then `new_safes - self.safes` skips it, so older sentences keep it.
- **`get_neighbors` mixes up its bounds.** Rows are bounded by `width` and columns by `height`. Both bounds are inclusive. When the sides of the board differ by more than one, a true count can then give a false sentence: on a board of 3 rows and 1 column with its only mine at (2, 0), probing (1, 0) reports 1, but the sentence covers (0, 0), (0, 1) and (1, 1) (`Game.Minesweeper.SwappedBoundsFalseSentence`). When the sides differ by at most one and no probed cell is a mine, the sentence is true (`Game.Minesweeper.ProbedSentenceHolds`).
- **`evaluate_knowledge` keeps reporting changes.** A visited sentence without cells is always removed and always derives another one, so a pass that visits one reports a change (`Inference.SeenEmptyForcesChange`). Once the working list holds a sentence without cells, it always holds one: such a sentence is removed only when one is visited, and that visit appends another. Every later pass then either visits one, which is a removal, or skips it, which happens only after a removal; either way it reports a change. As written, `while changes` therefore never exits once a pass has created a sentence, so `add_knowledge` never returns and its last line, which assigns `self.knowledge`, never runs. The model bounds the loop by `fuel` passes: the state `AddKnowledge` leaves is that of a run cut off after `fuel` passes.

## Modules

- `cells.dfy`, module `Cells`:
  - cells, `Option` and Python's `range`;
  - `Enumerate`, an order in which a set is iterated.
- `sentence.dfy`, module `Sentences`:
  - `Statement`, the value of a sentence, with `known_mines`, `known_safes` and the effect of `mark_mine` and `mark_safe`;
  - `Sentence`, the mutable object the knowledge base refers to;
  - cascades, written as sequences of `Mark`s applied to every statement in order.
- `inference.dfy`, module `Inference`: the pure part of the player's inference, on values:
  - `relationship`, `get_boundaries` and the neighbourhood `get_neighbors` computes;
  - a reference model of `evaluate_knowledge`: the working list as a list of `Item`s, one step of the `for` loop (`Step`), the `for` loop (`ForLoop`), one pass of the `while` loop (`PassOf`), the whole loop (`Run`, `Continue`) and `add_knowledge`'s evaluation (`Learn`);
  - the soundness of these on a board where the sentences are true.
- `game.dfy`, module `Game`: the board class `Minesweeper`, and when the sentence `add_knowledge` builds from the count `nearby_mines` reports is true of the board.
- `player.dfy`, module `Player`: the class `MinesweeperAI`, whose methods are proved to compute what the reference model of module `Inference` describes.

Pure Python code is modelled as functions. Code that updates objects is modelled as methods of the classes `Sentence` and `MinesweeperAI`, with `modifies` clauses. `Minesweeper` only has queries here, so its fields are constants apart from `minesFound`, which no modelled operation changes.

Each `for` loop over a list is modelled with an explicit iterator position. Removing an element (the first one equal by value, as `list.remove` does) makes the iterator skip the element after it. An element appended behind the iterator is still visited.

A `for` loop over a set iterates some order of the set's elements; `Enumerate` returns such an order.

## Model

| member | source | states |
|---|---|---|
| Cells.Enumerate | minesweeper/minesweeper.py:238 | an order of a set's elements: each element once, and nothing else |
| Game.PyIndex | minesweeper/minesweeper.py:51-53 | Python list indexing: defined exactly for `-len <= i < len`, and a negative index counts from the end |
| Game.Minesweeper.constructor | minesweeper/minesweeper.py:10-34 | the board has `height` rows of `width` cells (8 by 8 by default), a cell holds a mine exactly when it was placed, and no mine is flagged yet |
| Game.Minesweeper.IsMine | minesweeper/minesweeper.py:51-53 | `board[i][j]` with Python indexing: defined exactly for coordinates in `-height..height-1` by `-width..width-1`, true exactly when the (wrapped) cell is a mine; inside the board it is plain membership in the mines |
| Game.Minesweeper.MinesAround | minesweeper/minesweeper.py:55-78 | the cells `nearby_mines` counts: in bounds, within one row and one column of `cell`, not `cell` itself, and mines |
| Game.Minesweeper.NearbyMines | minesweeper/minesweeper.py:55-78 | the nested loop counts exactly the in-bounds mines within one row and one column of `cell`, other than `cell` itself; the count is at most 8 |
| Game.Minesweeper.ScanCountsMinesAround | minesweeper/minesweeper.py:66-76 | the count the row-by-row scan reaches is the number of cells of `MinesAround(cell)` |
| Game.Minesweeper.ScanBound | minesweeper/minesweeper.py:66-71 | each row adds at most three cells and the middle row at most two, since `cell` is skipped |
| Game.Minesweeper.Won | minesweeper/minesweeper.py:80-84 | won exactly when the flagged cells are the cells of the board that `is_mine` reports as mines, and no others |
| Game.Minesweeper.ProbedSentenceHolds | minesweeper/minesweeper.py:283-290 | when the sides of the board differ by at most one and no probed cell is a mine, the sentence `get_neighbors(cell) = nearby_mines(cell)` is true of the board |
| Game.Minesweeper.SwappedBoundsFalseSentence | minesweeper/minesweeper.py:283-290 | on a board of 3 rows and 1 column whose only mine is at (2, 0), probing (1, 0) reports 1, the neighbours are (0, 0), (0, 1) and (1, 1), and the sentence is false |
| Game.Minesweeper.AddKnowledgeSound | minesweeper/minesweeper.py:186-245 | on a board whose sides differ by at most one, with no probed cell a mine, the old sentences true or without cells, and the known mines and known safe cells true of it, `add_knowledge` with the count `nearby_mines` reports leaves only mines in `mines`, no mine in `safes`, and every sentence true or without cells, which is the hypothesis for the next probe |
| Sentences.Statement.KnownMines | minesweeper/minesweeper.py:104-113 | the result is a subset of the cells; it is non-empty exactly when there are as many cells as the count and the count is positive, and then it is all the cells |
| Sentences.Statement.KnownSafes | minesweeper/minesweeper.py:116-124 | the result is a subset of the cells; it is non-empty exactly when the count is 0 and there are cells, and then it is all the cells |
| Sentences.Statement.WithMine | minesweeper/minesweeper.py:128-136 | the cell is no longer among the cells, and the count drops by one exactly when it was one of them |
| Sentences.Statement.WithSafe | minesweeper/minesweeper.py:138-144 | the cell is no longer among the cells, and the count is kept |
| Sentences.Statement.WithMines | minesweeper/minesweeper.py:238-240 | the value after marking every cell of a set as a mine, in any order: those cells leave, and the count drops by the number of them that were cells |
| Sentences.Statement.WithSafes | minesweeper/minesweeper.py:242-244 | the value after marking every cell of a set as safe, in any order: those cells leave, and the count is kept |
| Sentences.Statement.Marked | minesweeper/minesweeper.py:128-144 | the value after a sequence of `mark_mine` and `mark_safe` calls, applied first to last |
| Sentences.Sentence.constructor | minesweeper/minesweeper.py:94-96 | a new sentence holds the given cells and count |
| Sentences.Sentence.Equals | minesweeper/minesweeper.py:98-99 | `__eq__` holds exactly when the two sentences have equal values |
| Sentences.Sentence.MarkMine | minesweeper/minesweeper.py:128-136 | the sentence's new value is its old value with the cell marked as a mine |
| Sentences.Sentence.MarkSafe | minesweeper/minesweeper.py:138-144 | the sentence's new value is its old value with the cell marked as safe |
| Sentences.Statement.Holds | minesweeper/minesweeper.py:87-92 | what a sentence means: exactly `count` of its `cells` are mines of the board |
| Sentences.ValuesAt | minesweeper/minesweeper.py:215 | the values of a list of sentences are, position by position, the values of its sentences |
| Sentences.AllMarked | minesweeper/minesweeper.py:174-175 | every value of a list after the same sequence of marks, which is what marking every sentence of `knowledge` does |
| Sentences.MineMarks | minesweeper/minesweeper.py:238-240 | one `mark_mine` call per cell of a sequence, in its order |
| Sentences.SafeMarks | minesweeper/minesweeper.py:242-244 | one `mark_safe` call per cell of a sequence, in its order |
| Sentences.MarkedAppend | minesweeper/minesweeper.py:238-244 | applying two cascades one after the other is applying their marks in one sequence |
| Sentences.MineMarksAnyOrder | minesweeper/minesweeper.py:238-240 | marking the cells of a sequence one by one as mines removes the set of those cells and lowers the count by how many of them were cells, whatever the order and with repeats |
| Sentences.SafeMarksAnyOrder | minesweeper/minesweeper.py:242-244 | marking the cells of a sequence one by one as safe removes the set of those cells and keeps the count, whatever the order |
| Sentences.KnownMinesSound | minesweeper/minesweeper.py:111-113 | on a board where a statement is true, every cell `known_mines` reports is a mine |
| Sentences.KnownSafesSound | minesweeper/minesweeper.py:122-124 | on a board where a statement is true, no cell `known_safes` reports is a mine |
| Sentences.WithMineSound | minesweeper/minesweeper.py:134-136 | marking a real mine keeps a true statement true |
| Sentences.WithSafeSound | minesweeper/minesweeper.py:143-144 | marking a cell without a mine keeps a true statement true |
| Sentences.WithMinesSound | minesweeper/minesweeper.py:238-240 | marking a set of real mines keeps a true statement true |
| Sentences.WithSafesSound | minesweeper/minesweeper.py:242-244 | marking a set of cells without mines keeps a true statement true |
| Sentences.WithMineTwice | minesweeper/minesweeper.py:134-136 | marking the same mine twice acts as marking it once, so a sentence listed twice is marked correctly |
| Inference.Relationship | minesweeper/minesweeper.py:248-258 | `None` exactly when neither cell set is a subset of the other; otherwise the cells are empty and the count is the subset's count minus the other's |
| Inference.RelationshipWithItself | minesweeper/minesweeper.py:248-252 | a sentence related to itself derives `{} = 0` |
| Inference.RelationshipWithEmpty | minesweeper/minesweeper.py:248-252 | a sentence without cells is related to every sentence |
| Inference.RelationshipUninformative | minesweeper/minesweeper.py:248-258 | when both statements are true, the derived count is at most 0, and the derived statement is true only when it is `{} = 0` |
| Inference.GetBoundaries | minesweeper/minesweeper.py:277-280 | the range starts at or above 0 and holds exactly the indices within one of `index` that lie in `0..upper`, with `upper` included |
| Inference.Neighborhood | minesweeper/minesweeper.py:283-290 | the set `get_neighbors` builds: pairs of a row in `get_boundaries(x, width)` and a column in `get_boundaries(y, height)`, other than `cell` and not probed |
| Inference.NeighborhoodMembers | minesweeper/minesweeper.py:283-290 | a cell is a neighbour exactly when it is not `cell`, was not probed, and satisfies `max(0,x-1) <= row <= min(width,x+1)` and `max(0,y-1) <= column <= min(height,y+1)` |
| Inference.NeighborhoodLeavesBoard | minesweeper/minesweeper.py:277-290 | exhibits the bound faults: on a 3-row, 1-column board, cell (1, 0) has the off-board neighbour (0, 1) but not the on-board cell (2, 0); on a 2 by 2 board, (1, 1) has the neighbour (2, 2) |
| Inference.Discarded | minesweeper/minesweeper.py:222-225 | the number of visited sentences that have no cells or a negative count, each removed and counted as a change |
| Inference.Inferred | minesweeper/minesweeper.py:232-236 | the number of visited sentences for which `relationship` with the last sentence gives a sentence, each appended and counted as a change |
| Inference.MinesOf | minesweeper/minesweeper.py:226-228 | `new_mines`: the union of `known_mines` over the visited sentences |
| Inference.SafesOf | minesweeper/minesweeper.py:229-231 | `new_safes`: the union of `known_safes` over the visited sentences |
| Inference.SeenFactsCollected | minesweeper/minesweeper.py:226-231 | every cell a visited sentence reports as a mine or as safe is in the pass's `new_mines` or `new_safes` |
| Inference.SeenEmptyForcesChange | minesweeper/minesweeper.py:222-236 | a pass that visits a sentence without cells removes it and derives a new one, so it reports a change |
| Inference.SeenLastForcesChange | minesweeper/minesweeper.py:233-236 | a pass that visits a sentence equal to the last sentence derives a new one, so it reports a change |
| Inference.IndexOf | minesweeper/minesweeper.py:224 | the position `list.remove` deletes: at most the length, and when below it the value there is the one looked for |
| Inference.IndexOfFirst | minesweeper/minesweeper.py:224 | no position before `IndexOf` holds the value looked for, so it is the first |
| Inference.IndexOfAtMost | minesweeper/minesweeper.py:224 | `IndexOf` is at or before every position holding the value, so the element `list.remove` deletes is at or before the iterator |
| Inference.Copy | minesweeper/minesweeper.py:215 | `self.knowledge[:]`: the working list starts as every sentence of `knowledge`, in order |
| Inference.Begin | minesweeper/minesweeper.py:215 | the state `evaluate_knowledge` starts from: the values of `knowledge`, the current `mines` and `safes`, and the copy `self.knowledge[:]` as the working list |
| Inference.Kept | minesweeper/minesweeper.py:222-225 | the removing half of a step: when the visited value has no cells or a negative count, the first element of equal value (the one `list.remove` deletes, at or before the iterator) is removed; the list keeps naming sentences of `knowledge`, and created elements stay cell-less |
| Inference.Step | minesweeper/minesweeper.py:221-236 | one step of the `for` loop: `Kept`, then the sentence `relationship(v, last)` appended when there is one; the list keeps naming sentences of `knowledge`, and created elements stay cell-less |
| Inference.KeptPending | minesweeper/minesweeper.py:221-225 | removing the visited sentence (or keeping it) leaves less weight still to be visited, even though the iterator then skips an element |
| Inference.StepProgress | minesweeper/minesweeper.py:221-236 | each step of the `for` loop lowers the weight still to be visited, so the loop ends although it appends to the list it iterates |
| Inference.ForLoop | minesweeper/minesweeper.py:221-236 | the `for` loop leaves a list that holds only sentences of `knowledge` and sentences created by a pass, and the sentences it creates have no cells |
| Inference.Visit | minesweeper/minesweeper.py:221-236 | the `for` loop at an element: the visited value, then the rest of the loop from the next iterator position on the list `Step` leaves |
| Inference.SummariesAppend | minesweeper/minesweeper.py:222-236 | visiting one more sentence adds its removal, its derived sentence and its known mines and safe cells to the pass's counts and sets |
| Inference.PassSound | minesweeper/minesweeper.py:221-231 | when every visited sentence that has cells is true of the board, a pass reports only mines as `new_mines` and only cells without a mine as `new_safes` |
| Inference.Cascade | minesweeper/minesweeper.py:238-244 | the values of `knowledge` after the marking loops: each sentence with the new mines marked as mines, then the new safe cells as safe |
| Inference.PassOf | minesweeper/minesweeper.py:217-244 | a pass keeps `knowledge` as long as it was and the working list naming its sentences; `mines` and `safes` only grow |
| Inference.Run | minesweeper/minesweeper.py:217-244 | `while changes` with at most `n` passes left: nothing when none is left, otherwise a pass and the rest of the loop; `knowledge` keeps its length, the working list names its sentences, and `mines` and `safes` only grow |
| Inference.Onward | minesweeper/minesweeper.py:217-244 | a pass, then the rest of the loop after it, with the same properties as `Run` |
| Inference.Continue | minesweeper/minesweeper.py:216-244 | the rest of the `while changes` loop keeps the same properties as a pass |
| Inference.PassResult | minesweeper/minesweeper.py:217-244 | the `for` loop, then marking the new mines and the new safe cells, with the changes of both, is exactly `PassOf` |
| Inference.ContinueAfter | minesweeper/minesweeper.py:217 | while the last pass reported changes and passes are left, the loop goes on after the next pass |
| Inference.ContinueStop | minesweeper/minesweeper.py:217 | the loop ends after a pass without changes, or when no pass is left |
| Inference.Learn | minesweeper/minesweeper.py:201-206 | the evaluation after a probe: `knowledge` gains the new sentence, the working list names its sentences, and `mines` and `safes` only grow |
| Inference.CascadeOfMarks | minesweeper/minesweeper.py:238-244 | marking the new mines one by one and then the new safe cells one by one gives the same values whatever the orders of iteration |
| Inference.ForLoopTrue | minesweeper/minesweeper.py:221-236 | on a board where the sentences are true, every sentence the `for` loop visits is true or has no cells |
| Inference.PassTrue | minesweeper/minesweeper.py:217-244 | a pass keeps true sentences true, adds only real mines to `mines` and only cells without a mine to `safes` |
| Inference.RunTrue | minesweeper/minesweeper.py:216-244 | the same for any number of passes |
| Inference.ContinueTrue | minesweeper/minesweeper.py:216-244 | the same for the rest of the loop after a pass |
| Inference.LearnSound | minesweeper/minesweeper.py:186-245 | the evaluation after a probe is sound when the new sentence is true or has no cells: if the old sentences and the new one are true of the board or have no cells, and the known mines and the known safe cells are true of it, then afterwards every known mine is a mine, no known safe cell is one, and every sentence of the new knowledge base is true or has no cells, so the lemma applies again to the next probe. The new sentence is not always true, because of the bounds of `get_neighbors`; `Game.Minesweeper.AddKnowledgeSound` gives boards where it is |
| Inference.PassKeepsSafeCell | minesweeper/minesweeper.py:242-244 | a pass never marks a cell that was already known to be safe: a sentence that has it keeps it, unless the pass finds it to be a mine |
| Inference.RunKeepsSafeCell | minesweeper/minesweeper.py:216-244 | the same for any number of passes |
| Inference.ContinueKeepsSafeCell | minesweeper/minesweeper.py:216-244 | the same for the rest of the loop after a pass |
| Inference.ProbedCellKept | minesweeper/minesweeper.py:194-206 | unless the probed cell is later found to be a mine, an older sentence that has it keeps it |
| Player.TracksCopy | minesweeper/minesweeper.py:215 | the copy `self.knowledge[:]` is described by `Copy` |
| Player.TracksSplice | minesweeper/minesweeper.py:224 | removing a position from the working list and from its description keeps them in step |
| Player.TracksAppend | minesweeper/minesweeper.py:235 | appending a new sentence and its value keeps the working list and its description in step |
| Player.TracksValues | minesweeper/minesweeper.py:221 | the values of the working list are the values its description gives |
| Player.RemoveFirst | minesweeper/minesweeper.py:224 | `new_knowledge.remove(sentence)` deletes exactly the element at the first position whose value equals the sentence's, found with `__eq__` |
| Player.DropVisited | minesweeper/minesweeper.py:221-225 | the removing half of a step: the visited value is the value at the iterator; the sentence is removed exactly when it has no cells or a negative count; the new list is `Kept` |
| Player.VisitOne | minesweeper/minesweeper.py:221-236 | one step of the `for` loop: the new list is `Step`, a sentence is appended exactly when `relationship` with the last sentence gives one |
| Player.Tally | minesweeper/minesweeper.py:223-236 | a removal and an appended sentence each count as one change, and the known mines and safe cells of the visited sentence join `new_mines` and `new_safes` |
| Player.MinesweeperAI.constructor | minesweeper/minesweeper.py:152-166 | a board of `height` by `width` (8 by 8 by default), no moves, no known mines or safe cells, no sentences |
| Player.MinesweeperAI.MarkMine | minesweeper/minesweeper.py:168-175 | `c` joins `mines`; every sentence of `knowledge` is marked with `c` as a mine, so none contains `c` and no other cell is removed; the rest of the state is unchanged |
| Player.MinesweeperAI.MarkSafe | minesweeper/minesweeper.py:177-184 | `c` joins `safes`; every sentence of `knowledge` is marked with `c` as safe, so none contains `c` and no other cell is removed; the rest of the state is unchanged |
| Player.MinesweeperAI.VisitSentences | minesweeper/minesweeper.py:219-236 | the `for` loop over the working list is `ForLoop`: it leaves the list `ForLoop` gives, `new_mines` and `new_safes` are the known mines and safe cells of the sentences `ForLoop` visits, and `changes` counts their removals and derived sentences |
| Player.MinesweeperAI.MarkNextMine | minesweeper/minesweeper.py:238-240 | one call of `mark_mine` inside the loop over the new mines extends the cascade by one mine mark |
| Player.MinesweeperAI.MarkMineEach | minesweeper/minesweeper.py:238-240 | marking the cells of a sequence as mines, one after the other |
| Player.MinesweeperAI.MarkNewMines | minesweeper/minesweeper.py:238-240 | `mines` becomes `mines + new_mines`; every sentence of `knowledge` is marked, in the order of iteration, with each cell of `new_mines - mines`; one change is counted per marked cell |
| Player.MinesweeperAI.MarkNextSafe | minesweeper/minesweeper.py:242-244 | one call of `mark_safe` inside the loop over the new safe cells extends the cascade by one safe mark |
| Player.MinesweeperAI.MarkSafeEach | minesweeper/minesweeper.py:242-244 | marking the cells of a sequence as safe, one after the other |
| Player.MinesweeperAI.MarkNewSafes | minesweeper/minesweeper.py:242-244 | `safes` becomes `safes + new_safes`; every sentence of `knowledge` is marked, in the order of iteration, with each cell of `new_safes - safes`; one change is counted per marked cell |
| Player.MinesweeperAI.MarkPass | minesweeper/minesweeper.py:238-244 | both marking loops: `mines` and `safes` gain the new cells, the values of `knowledge` become `Cascade` of the new mines and the new safe cells, and `marked` counts one per new cell |
| Player.MinesweeperAI.EvaluationPass | minesweeper/minesweeper.py:217-244 | one pass of the `while changes` loop computes exactly `PassOf` of the state before it: the new values of `knowledge`, `mines`, `safes`, the new working list and `changes` |
| Player.MinesweeperAI.LoopPass | minesweeper/minesweeper.py:217-244 | an iteration of the `while changes` loop entered with changes and passes left: the rest of the loop from before it is the rest of the loop from after it |
| Player.MinesweeperAI.EvaluateKnowledge | minesweeper/minesweeper.py:209-245 | `evaluate_knowledge` computes exactly `Continue` from the copy of `knowledge` with `changes = 1`, at most `fuel` passes: the new values of `knowledge`, `mines`, `safes` and the returned list |
| Player.MinesweeperAI.Probe | minesweeper/minesweeper.py:193-201 | `cell` joins `moves_made` and `safes`, and the sentence `get_neighbors(cell) = count` is appended |
| Player.MinesweeperAI.AddKnowledge | minesweeper/minesweeper.py:186-206 | `add_knowledge` computes exactly `Learn` of the old state, the probed cell among the safe cells and the new sentence: the new `mines`, `safes`, and the values of the new `knowledge` |
| Player.MinesweeperAI.GetNeighbors | minesweeper/minesweeper.py:283-290 | the result is exactly `Neighborhood(cell)`: the product of the row range bounded by `width` and the column range bounded by `height`, without `cell` and the probed cells |
| Player.MinesweeperAI.MakeSafeMove | minesweeper/minesweeper.py:263-275 | `None` exactly when no safe cell is unprobed and not a mine; otherwise such a cell |
| Player.MinesweeperAI.Available | minesweeper/minesweeper.py:301-306 | the cells `make_random_move` collects: rows in `range(width)`, columns in `range(height)`, neither probed nor known mines |
| Player.MinesweeperAI.MakeRandomMove | minesweeper/minesweeper.py:294-307 | `None` exactly when no cell of `range(width)` by `range(height)` is unprobed and not a known mine; otherwise such a cell |

## Left out

- The random mine placement of `Minesweeper.__init__` (lines 25-31). The constructor takes the set of mine cells instead, so the `mines` count parameter is the size of that set, and its default of 8 has no counterpart.
- `Minesweeper.print`: it only writes to the console.
- `Sentence.__str__`: it only formats a sentence for display.
- The random generator behind `random.choice` in `make_safe_move` and `make_random_move`. The model returns some member of the candidate set.
- The order in which Python iterates a set. `Enumerate` returns some order of the set, and the contracts hold for every order.
- `knights/puzzle.py`: it only builds formulas with a propositional logic library, which is not part of this model.
- Player.MinesweeperAI.EvaluateKnowledge: the `while changes` loop is bounded by a `fuel` parameter, and `AddKnowledge` passes it on. No termination or fixed-point property is stated for the loop.
- Keeping `safes` and `mines` disjoint and keeping probed cells out of sentences are not stated: the code does not ensure them.
- Integers are the unbounded integers of Python; no width or overflow is modelled.
