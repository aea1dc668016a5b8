# Minesweeper inference engine

A Dafny model of the automated Minesweeper player in `buscaminas.py`, together with the board operations that feed it.

The player keeps four pieces of state:
- `moves_made`: the cells it has revealed;
- `mines`: the cells it has confirmed as mines;
- `safes`: the cells it has confirmed as safe;
- `knowledge`: a list of *sentences*. A sentence says "exactly `count` of these `cells` are mines".

Each revealed cell and its clue becomes a new sentence over the cell's unknown neighbours. The player then reasons in two ways:
- **Inference fixpoint.** A sentence whose count equals its size marks all its cells as mines. A sentence whose count is 0 marks all its cells as safe. Passes repeat until one marks nothing.
- **Subset rule.** If `s1.cells <= s2.cells`, the player adds the sentence `(s2.cells - s1.cells, s2.count - s1.count)`.

The project has six files:

| File | Module | Contents |
|---|---|---|
| `grid.dfy` | `Grid` | Cells, boards and neighbourhoods. It counts the mines around a cell offset by offset, as the clue loop does, and proves that count equals the number of mines among the neighbours. |
| `options.dfy` | `Options` | The `Option` type, for moves that may not exist. |
| `sentences.dfy` | `Sentences` | The `Sentence` value, its two identification rules and its two marking operations. It proves what each rule means for any mine layout the sentence agrees with. |
| `engine.dfy` | `Engine` | The player's state `KB` as a value, with one function per operation. |
| `agent.dfy` | `Agent` | The class `MinesweeperAI`, with the same fields as the source, updated in place by loops. Every method is proved to produce exactly the state its `Engine` function describes. |
| `game.dfy` | `Game` | The board class `Minesweeper` (a 2-D array of squares): the clue pass `calculate_adjacent_mines`, flag toggling, the win test and the clamping of custom settings. |

The `Engine` functions are:
- `ConfirmMine` and `ConfirmSafe` for the mark methods;
- `Fixpoint` for `update_knowledge`;
- `Derive` for `create_derived_sentences`;
- `Observe` for `add_knowledge`.

The main results are these:
- **Invariant.** `WellFormed` is kept by every operation. No live sentence mentions a confirmed cell, every sentence's cells lie on the board, and every revealed cell is confirmed safe.
- **Soundness.** Suppose every revealed cell is not a mine and its clue is the true number of adjacent mines. Then confirmed mines are mines, confirmed safe cells are not, and every sentence is true of the real layout (`ObserveSound`).
- **Termination.** The fixpoint terminates: every pass that marks something removes a cell from the knowledge.
- **Fixpoint shape.** The fixpoint has a closed form (`FixpointClosedForm`). Its result holds no empty sentence and no sentence the trivial rules could still resolve.
- **Derivation.** A sentence is derived exactly when it is the subset rule's result on two sentences of the knowledge, and it is true whenever they are.
- **Move selection.** The move-selection methods return a cell exactly when a suitable one exists.

The source does not guard against a cell being confirmed both as a mine and as safe, and the model does not claim it never happens. Disjointness follows only from soundness (`SoundDisjoint`). The source also does not deduplicate the derived sentences among themselves, and neither does the model.

## Model

| member | source | states |
|---|---|---|
| Sentences.Sentence.IdentifiedMines | buscaminas.py:64-67 | all of `cells` when `count` equals the number of cells (and the result is non-empty exactly when `cells` is non-empty and the count matches), otherwise nothing |
| Sentences.Sentence.IdentifiedSafes | buscaminas.py:69-72 | all of `cells` when `count == 0` (non-empty exactly when `cells` is), otherwise nothing |
| Sentences.Sentence.MarkMine | buscaminas.py:74-77 | removes the cell; the number of cells minus `count` is unchanged; a non-member leaves the sentence as it was |
| Sentences.Sentence.MarkSafe | buscaminas.py:79-81 | removes the cell and keeps the count; a non-member leaves the sentence as it was |
| Sentences.MarkIdempotent | buscaminas.py:74-81 | marking the same cell twice equals marking it once |
| Sentences.MarkMineIsWithout | buscaminas.py:74-77 | marking one mine is eliminating the singleton set of mines |
| Sentences.MarkSafeIsWithout | buscaminas.py:79-81 | marking one safe cell is eliminating the singleton set of safe cells |
| Sentences.WithoutCompose | buscaminas.py:164-172 | eliminating in two rounds equals eliminating the union, so the order in which the fixpoint marks cells does not matter |
| Sentences.SatisfiableBounds | buscaminas.py:54-56 | the constructor checks nothing, but a sentence some layout satisfies has `0 <= count` and `count` at most the number of cells |
| Sentences.IdentifiedMinesSound | buscaminas.py:64-67 | the cells the mine rule identifies are mines in every layout the sentence agrees with |
| Sentences.IdentifiedSafesSound | buscaminas.py:69-72 | the cells the safe rule identifies are mines in no layout the sentence agrees with |
| Sentences.WithoutSound | buscaminas.py:74-81 | eliminating true mines and truly safe cells keeps a true sentence true |
| Sentences.MarkMineSound | buscaminas.py:74-77 | marking a real mine keeps a true sentence true |
| Sentences.MarkSafeSound | buscaminas.py:79-81 | marking a really safe cell keeps a true sentence true |
| Sentences.SubsetRuleSound | buscaminas.py:141-143 | if `s1.cells <= s2.cells` and both are true, then `(s2.cells - s1.cells, s2.count - s1.count)` is true |
| Agent.MinesweeperAI.constructor | buscaminas.py:84-93 | the board size is recorded; all three sets and the knowledge start empty, which satisfies the invariant |
| Agent.MinesweeperAI.MarkCellAsMine | buscaminas.py:95-98 | the cell is added to `mines`; every sentence is marked; afterwards no sentence mentions the cell; `safes` and `moves_made` are unchanged; the invariant is kept |
| Agent.MinesweeperAI.MarkCellAsSafe | buscaminas.py:100-103 | the cell is added to `safes`; every sentence is marked; afterwards no sentence mentions it; the invariant is kept when every revealed cell other than this one was already safe |
| Engine.ConfirmKeepsInvariant | buscaminas.py:95-103 | marking removes exactly that cell from the cells the knowledge mentions, and keeps the invariant |
| Engine.ConfirmIdempotent | buscaminas.py:95-103 | marking the same cell twice equals marking it once |
| Engine.ConfirmSound | buscaminas.py:95-103 | marking a real mine, or a really safe cell, keeps a sound state sound |
| Engine.SoundDisjoint | buscaminas.py:87-90 | in a sound state no cell is confirmed both as a mine and as safe |
| Agent.MinesweeperAI.CollectNeighbors | buscaminas.py:110-116 | the nested loops collect exactly the in-bounds cells of the 3x3 block without the cell itself |
| Grid.NeighborsExactly | buscaminas.py:110-116 | those are exactly the on-board cells adjacent to the cell |
| Grid.NeighborsSymmetric | buscaminas.py:110-116 | adjacency on the board is symmetric |
| Agent.MinesweeperAI.CandidateSentence | buscaminas.py:118-127 | the new sentence's cells are the neighbours minus `mines + safes`; its count is the clue minus the confirmed mines among the neighbours |
| Agent.MinesweeperAI.AddKnowledge | buscaminas.py:105-133 | the state becomes `Observe`: the cell is in `moves_made` and in `safes`, the fact sets only grow, and the invariant is kept |
| Engine.ObserveGrows | buscaminas.py:105-133 | observing records the move, confirms the cell safe, and never loses a confirmed cell |
| Engine.IngestKeepsInvariant | buscaminas.py:105-129 | recording the move and appending the clue's sentence (only if it is non-empty and not already present) keeps the invariant |
| Engine.AppendKeepsInvariant | buscaminas.py:128-129 | appending a sentence over unconfirmed board cells keeps the invariant |
| Engine.IngestSound | buscaminas.py:105-129 | recording a cell that is not a mine, with its true clue, keeps a sound state sound |
| Engine.ObserveKeepsInvariant | buscaminas.py:105-133 | `add_knowledge` as a whole keeps the invariant |
| Engine.ObserveSound | buscaminas.py:105-133 | `add_knowledge` with a true clue for a cell that is not a mine keeps a sound state sound |
| Agent.MinesweeperAI.UpdateKnowledge | buscaminas.py:152-174 | the loop terminates in the state `Fixpoint`; `moves_made` is unchanged; `mines` and `safes` only grow; the invariant is kept |
| Agent.MinesweeperAI.InferencePass | buscaminas.py:153-174 | one pass gives the state `Pass`; `changed` is true exactly when the pass marked a cell not already confirmed |
| Agent.MinesweeperAI.Identified | buscaminas.py:157-162 | the two accumulators end as the union of what every sentence identifies |
| Agent.MinesweeperAI.MarkAllAsMines | buscaminas.py:164-167 | every identified cell is added to `mines`; only the new ones are marked in the sentences; the result is true exactly when one was new |
| Agent.MinesweeperAI.MarkAllAsSafe | buscaminas.py:169-172 | every identified cell is added to `safes`; only the new ones are marked in the sentences; the result is true exactly when one was new |
| Engine.PassInTwoSteps | buscaminas.py:157-174 | marking all mines first and all safe cells second is one simultaneous pass; the pass stalls exactly when neither set has a new cell |
| Engine.PassCells | buscaminas.py:164-174 | a pass removes exactly the newly confirmed cells from the knowledge, and those cells were in it |
| Engine.PassShrinks | buscaminas.py:153-174 | a pass that sets `changed` strictly shrinks the set of cells the knowledge mentions, so the loop terminates |
| Engine.StalledSettled | buscaminas.py:153-174 | when a pass marks nothing, everything each sentence identifies is already confirmed |
| Engine.Fixpoint | buscaminas.py:152-174 | `moves_made` is unchanged; `mines` and `safes` only grow; on return every sentence is non-empty and its conclusions are confirmed |
| Engine.FixpointClosedForm | buscaminas.py:152-174 | the result is the original knowledge with every newly confirmed cell marked at once and empty sentences dropped; only cells the knowledge mentioned are confirmed |
| Engine.FixpointKeepsInvariant | buscaminas.py:152-174 | the fixpoint keeps the invariant, and afterwards no sentence identifies anything |
| Engine.FixpointSound | buscaminas.py:152-174 | every cell the fixpoint confirms is confirmed correctly, and every sentence stays true |
| Engine.ComposeRounds | buscaminas.py:153-174 | two rounds of marking and dropping empty sentences are one round over the union |
| Engine.LiveMembers | buscaminas.py:174 | the filter keeps exactly the sentences with non-empty cells |
| Agent.MinesweeperAI.CollectDerived | buscaminas.py:136-146 | the nested loops collect `Derived(knowledge)`, in loop order, duplicates included |
| Engine.DerivedExactly | buscaminas.py:136-146 | a sentence is collected exactly when it is `(s2.cells - s1.cells, s2.count - s1.count)` for two distinct sentences with non-empty `s1.cells <= s2.cells`, has non-empty cells and count `>= 0`, and is not already in the knowledge |
| Engine.DerivedFacts | buscaminas.py:136-146 | derived sentences mention only cells the knowledge mentions, and are true whenever the knowledge is |
| Agent.MinesweeperAI.CreateDerivedSentences | buscaminas.py:135-150 | the state becomes `Derive`: the old knowledge followed by the derived sentences, then the fixpoint; the fact sets only grow; the invariant is kept |
| Engine.GrowKeepsInvariant | buscaminas.py:148 | extending the knowledge by the derived sentences keeps the invariant and soundness |
| Engine.DeriveKeepsInvariant | buscaminas.py:135-150 | `create_derived_sentences` keeps the invariant and soundness |
| Engine.SubsetExample | buscaminas.py:136-146 | `{(0,0),(0,1)} = 1` with `{(0,0),(0,1),(0,2)} = 2` derives exactly `{(0,2)} = 1` |
| Engine.SubsetExampleConfirms | buscaminas.py:135-150 | and the fixpoint that follows confirms `(0,2)` as a mine |
| Engine.TrivialSafeExample | buscaminas.py:152-174 | a sentence `{(1,1)} = 0` gets `(1,1)` confirmed safe |
| Agent.MinesweeperAI.GetNextSafeMove | buscaminas.py:176-179 | returns a cell of `safes - moves_made`, or `None` exactly when that set is empty |
| Agent.MinesweeperAI.SelectRandomAvailableCell | buscaminas.py:181-190 | returns an in-bounds cell not in `moves_made` and not in `mines`, or `None` exactly when every board cell is in one of them |
| Engine.RowMajor | buscaminas.py:182-187 | the row-major enumeration holds exactly the board cells |
| Engine.Unexplored | buscaminas.py:182-187 | the filter keeps exactly the cells that are neither revealed nor confirmed mines |
| Game.Minesweeper.constructor | buscaminas.py:193-231 | a 9x9 game with 10 mines, every square blank, counters zero, and the custom menu at 9/9/10 |
| Game.Minesweeper.CreateEmptyGrid | buscaminas.py:233-234 | a fresh `rows` x `cols` grid of blank squares; nothing else changes |
| Game.Minesweeper.CalculateAdjacentMines | buscaminas.py:253-266 | every square that is not a mine gets the number of mines among its in-bounds neighbours; mine squares are untouched |
| Game.Minesweeper.LabelSquare | buscaminas.py:255-265 | one square of the pass gets its clue; no other square changes |
| Game.Minesweeper.CountAdjacent | buscaminas.py:257-264 | the offset loops count exactly the mines among the in-bounds neighbours |
| Game.Minesweeper.CountRow | buscaminas.py:259-264 | the inner loop counts the mines in one row of offsets |
| Game.Minesweeper.MineHitAt | buscaminas.py:261-264 | the loop's test at one offset is the offset-by-offset mine count |
| Grid.MinesAround | buscaminas.py:257-264 | counting offset by offset over the 3x3 block gives the number of mines among the neighbours |
| Grid.FoundUpToSize | buscaminas.py:257-264 | the scan finds as many mines as it counts |
| Grid.FoundUpToExactly | buscaminas.py:257-264 | the scan of the first rows finds exactly the on-board mines in those rows of the block, other than the cell |
| Grid.RowFoundExactly | buscaminas.py:259-264 | the scan of a row finds exactly the on-board mines in that row of the block, other than the cell |
| Grid.RowFoundSize | buscaminas.py:259-264 | the scan of a row finds as many mines as it counts |
| Game.Minesweeper.ToggleFlag | buscaminas.py:294-303 | a revealed square is left alone; otherwise its flag flips and `mines_flagged` moves by one in the same direction; the counter keeps matching the number of flags |
| Game.Minesweeper.FlipFlag | buscaminas.py:298-303 | one square's flag flips; the number of flagged squares moves by one; no other square changes |
| Game.Minesweeper.CheckWin | buscaminas.py:305-308 | `game_won` becomes true once `cells_revealed >= rows * cols - total_mines`, and is never reset |
| Game.WinExactly | buscaminas.py:305-308 | if the revealed cells are board cells that are not mines, the threshold is reached exactly when every non-mine cell is revealed |
| Grid.BoardSize | buscaminas.py:306 | a `rows` x `cols` board has `rows * cols` cells |
| Game.Minesweeper.ApplyCustomSettings | buscaminas.py:533-541 | rows and columns are clamped to `[2, 30]` and mines to `[1, rows * cols - 1]`; the menu shows the clamped values |
| Game.Clamped | buscaminas.py:533-541 | the clamped settings are in range and leave in-range values unchanged |
| Game.ClampedIdempotent | buscaminas.py:533-541 | clamping twice equals clamping once |
| Game.Clamp | buscaminas.py:534-538 | `max(lo, min(hi, x))` is within `[lo, hi]`, is `x` when `x` is in range, `lo` below and `hi` above |

## Left out

- Rendering, layout, fonts and timing: `draw_menu`, `draw_info` (including its floating-point progress), `draw_gradient_button`, `draw_grid`, `run`, `calculate_window_size`. These are pygame output only.
- Input dispatch and pixel hit-testing: `handle_click`, `handle_menu_click`, `handle_key_input`, and the difficulty presets they select. They depend on pygame events and surfaces.
- `place_mines`: a random retry loop. The mine layout is a parameter instead: the `truth` argument of the soundness lemmas, and the grid's `isMine` flags in `Game`.
- `reveal_cell`: the recursive flood fill and the game-over sweep are not modelled. Its call into the player is modelled as `AddKnowledge` with a clue taken from the grid. `ObserveSound` states what that call guarantees when the clue is the true count.
- `ai_make_move`: the wall-clock pacing and the float `ai_speed` are left out. This method flags squares directly without updating `mines_flagged`, so `ToggleFlag`'s counter invariant does not survive it.
- `Sentence.__str__` is not modelled, because it only produces text. `Sentence.__eq__` is the datatype's structural equality.
- Sentence objects are updated in place in the source. The model replaces each list entry by its marked copy. No sentence object sits in two list slots, so nothing can observe the difference.
- `Agent.MinesweeperAI.SelectRandomAvailableCell`: `random.choice` becomes an arbitrary choice of index. Uniformity is not modelled.
- `Agent.MinesweeperAI.GetNextSafeMove`: the source returns the first element of the set in iteration order. The model returns an arbitrary element.
- Helper splits: `InferencePass`, `Identified`, `MarkAllAsMines`, `MarkAllAsSafe`, `CandidateSentence`, `CollectNeighbors` and `CollectDerived` are loops of `add_knowledge`, `update_knowledge` and `create_derived_sentences`, split out as methods. `LabelSquare`, `CountAdjacent`, `CountRow` and `FlipFlag` are the same kind of split for `calculate_adjacent_mines` and `toggle_flag`.
- `Game.Minesweeper.ToggleFlag`: requires an in-bounds square. The callers check bounds first (buscaminas.py:310-349). Python's wrap-around for negative indices and its `IndexError` are not modelled.
- `Game.Minesweeper.CalculateAdjacentMines`: requires that the grid has `rows` x `cols` squares (`Valid`). `create_empty_grid` establishes this. `apply_custom_settings` breaks it until the grid is re-created.
- `Game.Minesweeper.CheckWin`: compares the counter `cells_revealed` with the threshold. Its meaning in terms of the revealed set is the separate lemma `WinExactly`, because the counter is maintained by `reveal_cell`, which is not modelled.
