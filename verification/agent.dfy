/** The automated player as an object: its four fields are updated in place
    by its methods, and every method is proved to do what the corresponding
    function of `Engine` says. */
module Agent {
  import opened Grid
  import opened Options
  import opened Sentences
  import opened Engine

  class MinesweeperAI {
    const height: int
    const width: int

    var movesMade: set<Cell>
    var mines: set<Cell>
    var safes: set<Cell>
    var knowledge: seq<Sentence>

    /** The player's state as a value. */
    function State(): KB
      reads this
    {
      KB(movesMade, mines, safes, knowledge)
    }

    ghost predicate Valid()
      reads this
    {
      WellFormed(State(), height, width)
    }

    constructor(height: int := 8, width: int := 8)
      ensures this.height == height && this.width == width
      ensures State() == KB({}, {}, {}, []) && Valid()
    {
      this.height := height;
      this.width := width;
      movesMade := {};
      mines := {};
      safes := {};
      knowledge := [];
    }

    /** Records a mine and removes it from every sentence. */
    method MarkCellAsMine(cell: Cell)
      modifies this
      ensures State() == ConfirmMine(old(State()), cell)
      ensures mines == old(mines) + {cell} && safes == old(safes) && movesMade == old(movesMade)
      ensures knowledge == ResolveAll(old(knowledge), {cell}, {})
      ensures forall s :: s in knowledge ==> cell !in s.cells
      ensures old(Valid()) ==> Valid()
    {
      mines := mines + {cell};
      for i := 0 to |knowledge|
        invariant State() == old(State()).(mines := old(mines) + {cell}, knowledge := knowledge)
        invariant |knowledge| == |old(knowledge)|
        invariant forall j :: 0 <= j < i ==> knowledge[j] == old(knowledge)[j].MarkMine(cell)
        invariant forall j :: i <= j < |knowledge| ==> knowledge[j] == old(knowledge)[j]
      {
        knowledge := knowledge[i := knowledge[i].MarkMine(cell)];
      }
      MarkedMineEach(old(knowledge), knowledge, cell);
      CellsOfResolveAll(old(knowledge), {cell}, {});
      if old(Valid()) {
        ConfirmKeepsInvariant(old(State()), cell, height, width);
      }
    }

    /** Records a safe cell and removes it from every sentence. The cell may
        be one just revealed, not yet in `safes`. */
    method MarkCellAsSafe(cell: Cell)
      modifies this
      ensures State() == ConfirmSafe(old(State()), cell)
      ensures safes == old(safes) + {cell} && mines == old(mines) && movesMade == old(movesMade)
      ensures knowledge == ResolveAll(old(knowledge), {}, {cell})
      ensures forall s :: s in knowledge ==> cell !in s.cells
      ensures old(Confined(State(), height, width) && movesMade <= safes + {cell}) ==> Valid()
    {
      safes := safes + {cell};
      for i := 0 to |knowledge|
        invariant State() == old(State()).(safes := old(safes) + {cell}, knowledge := knowledge)
        invariant |knowledge| == |old(knowledge)|
        invariant forall j :: 0 <= j < i ==> knowledge[j] == old(knowledge)[j].MarkSafe(cell)
        invariant forall j :: i <= j < |knowledge| ==> knowledge[j] == old(knowledge)[j]
      {
        knowledge := knowledge[i := knowledge[i].MarkSafe(cell)];
      }
      MarkedSafeEach(old(knowledge), knowledge, cell);
      CellsOfResolveAll(old(knowledge), {}, {cell});
      if old(Confined(State(), height, width) && movesMade <= safes + {cell}) {
        ConfirmKeepsInvariant(old(State()), cell, height, width);
      }
    }

    /** The in-bounds cells around `cell`, collected by scanning its 3x3
        block row by row. */
    method CollectNeighbors(cell: Cell) returns (neighbors: set<Cell>)
      ensures neighbors == Neighbors(cell, height, width)
    {
      neighbors := {};
      for i := cell.0 - 1 to cell.0 + 2
        invariant forall p :: p in neighbors <==> Adjacent(p, cell) && InBoard(p, height, width) && p.0 < i
      {
        for j := cell.1 - 1 to cell.1 + 2
          invariant forall p :: p in neighbors <==> Adjacent(p, cell) && InBoard(p, height, width) && Before(p, i, j)
        {
          if (i, j) == cell {
            continue;
          }
          if 0 <= i < height && 0 <= j < width {
            neighbors := neighbors + {(i, j)};
          }
        }
      }
      NeighborsExactly(cell, height, width);
    }

    /** The sentence a revealed cell's clue gives: its unconfirmed in-bounds
        neighbours, and the clue less the confirmed mines among them. */
    method CandidateSentence(cell: Cell, count: int) returns (s: Sentence)
      ensures s.cells == Neighbors(cell, height, width) - (mines + safes)
      ensures s.count == count - |Neighbors(cell, height, width) * mines|
    {
      var neighbors := CollectNeighbors(cell);
      ghost var known := mines + safes;
      ghost var mineSet := mines;
      var cells: set<Cell> := {};
      var countCopy := count;
      var todo := neighbors;
      ghost var done: set<Cell> := {};
      while todo != {}
        invariant todo + done == neighbors && todo !! done
        invariant cells == done - known
        invariant countCopy == count - |done * mineSet|
        decreases todo
      {
        var cl :| cl in todo;
        ScanStep(neighbors, todo, done, known, cl);
        CountStep(done, cl, mineSet);
        if cl in mines {
          countCopy := countCopy - 1;
        }
        if cl !in mines + safes {
          cells := cells + {cl};
        }
        todo := todo - {cl};
        done := done + {cl};
      }
      s := Sentence(cells, countCopy);
    }

    /** Records a revealed cell and its clue, then runs inference. */
    method AddKnowledge(cell: Cell, count: int)
      modifies this
      ensures State() == Observe(old(State()), cell, count, height, width)
      ensures movesMade == old(movesMade) + {cell} && cell in safes
      ensures old(mines) <= mines && old(safes) <= safes
      ensures old(Valid()) ==> Valid()
    {
      ghost var st := State();
      movesMade := movesMade + {cell};
      MarkCellAsSafe(cell);
      ghost var marked := State();
      assert marked == ConfirmSafe(st.(movesMade := st.movesMade + {cell}), cell);
      var candidate := CandidateSentence(cell, count);
      assert candidate == Candidate(cell, count, marked.mines, marked.safes, height, width);
      if candidate !in knowledge && |candidate.cells| > 0 {
        knowledge := knowledge + [candidate];
      }
      ghost var ingested := State();
      assert ingested == Ingest(st, cell, count, height, width);
      UpdateKnowledge();
      assert State() == Fixpoint(ingested);
      CreateDerivedSentences();
      ObserveGrows(st, cell, count, height, width);
      if WellFormed(st, height, width) {
        ObserveKeepsInvariant(st, cell, count, height, width);
      }
    }

    /** Adds every sentence the subset rule yields, then runs inference. */
    method CreateDerivedSentences()
      modifies this
      ensures State() == Derive(old(State()))
      ensures movesMade == old(movesMade) && old(mines) <= mines && old(safes) <= safes
      ensures old(Valid()) ==> Valid()
    {
      var newSentences := CollectDerived();
      ghost var st := State();
      knowledge := knowledge + newSentences;
      UpdateKnowledge();
      if WellFormed(st, height, width) {
        DeriveKeepsInvariant(st, height, width, {});
      }
    }

    /** The two nested loops of `create_derived_sentences`: every ordered pair
        of sentences is tried against the subset rule, in order. */
    method CollectDerived() returns (newSentences: seq<Sentence>)
      ensures newSentences == Derived(knowledge)
    {
      newSentences := [];
      for i := 0 to |knowledge|
        invariant newSentences == DerivedUpTo(knowledge, i)
      {
        var s1 := knowledge[i];
        for j := 0 to |knowledge|
          invariant newSentences == DerivedUpTo(knowledge, i) + DerivedRow(knowledge, s1, j)
        {
          var s2 := knowledge[j];
          if s1 != s2 && s1.cells != {} && s2.cells != {} {
            if s1.cells <= s2.cells {
              var newCells := s2.cells - s1.cells;
              var newCount := s2.count - s1.count;
              if newCells != {} && newCount >= 0 {
                var newSentence := Sentence(newCells, newCount);
                if newSentence !in knowledge {
                  newSentences := newSentences + [newSentence];
                }
              }
            }
          }
        }
      }
    }

    /** `update_knowledge`: repeats passes until one confirms nothing new. */
    method UpdateKnowledge()
      modifies this
      ensures State() == Fixpoint(old(State()))
      ensures movesMade == old(movesMade) && old(mines) <= mines && old(safes) <= safes
      ensures old(Valid()) ==> Valid()
    {
      ghost var goal := Fixpoint(State());
      var changed := true;
      while changed
        invariant changed ==> Fixpoint(State()) == goal
        invariant !changed ==> State() == goal
        decreases if changed then |CellsOf(knowledge)| + 1 else 0
      {
        ghost var st := State();
        changed := InferencePass();
        if changed {
          PassShrinks(st);
        }
      }
      if old(Valid()) {
        FixpointKeepsInvariant(old(State()), height, width);
      }
    }

    /** One pass of the loop in `update_knowledge`: first collect what every
        sentence identifies, then mark it, then drop the emptied sentences.
        The result says whether anything new was marked. */
    method InferencePass() returns (changed: bool)
      modifies this
      ensures State() == Pass(old(State()))
      ensures changed <==> !Stalled(old(State()))
    {
      ghost var st := State();
      var identifiedMines, identifiedSafes := Identified();
      PassInTwoSteps(st, identifiedMines, identifiedSafes);
      var minesChanged := MarkAllAsMines(identifiedMines);
      var safesChanged := MarkAllAsSafe(identifiedSafes);
      changed := minesChanged || safesChanged;
      assert changed <==> !Stalled(st);
      knowledge := Live(knowledge);
    }

    /** The union of what every sentence identifies as mines, and as safe. */
    method Identified() returns (identifiedMines: set<Cell>, identifiedSafes: set<Cell>)
      ensures identifiedMines == IdentifiedMinesIn(knowledge)
      ensures identifiedSafes == IdentifiedSafesIn(knowledge)
    {
      identifiedMines, identifiedSafes := {}, {};
      for i := 0 to |knowledge|
        invariant identifiedMines == IdentifiedMinesIn(knowledge[..i])
        invariant identifiedSafes == IdentifiedSafesIn(knowledge[..i])
      {
        IdentifiedInSnoc(knowledge, i);
        identifiedMines := identifiedMines + knowledge[i].IdentifiedMines();
        identifiedSafes := identifiedSafes + knowledge[i].IdentifiedSafes();
      }
      assert knowledge[..|knowledge|] == knowledge;
    }

    /** Marks every cell of `cells` as a mine, skipping those already known;
        the result says whether any was new. */
    method MarkAllAsMines(cells: set<Cell>) returns (changed: bool)
      modifies this
      ensures mines == old(mines) + cells && safes == old(safes) && movesMade == old(movesMade)
      ensures knowledge == ResolveAll(old(knowledge), cells - old(mines), {})
      ensures changed <==> cells - old(mines) != {}
    {
      changed := false;
      ghost var k0, m0 := knowledge, mines;
      ResolveAllNothing(knowledge);
      var todo := cells;
      ghost var done: set<Cell> := {};
      while todo != {}
        invariant todo + done == cells && todo !! done
        invariant movesMade == old(movesMade) && safes == old(safes)
        invariant mines == m0 + done
        invariant knowledge == ResolveAll(k0, done - m0, {})
        invariant changed <==> done - m0 != {}
        decreases todo
      {
        var mine :| mine in todo;
        ScanStep(cells, todo, done, m0, mine);
        if mine !in mines {
          ResolveAllAddMine(k0, done - m0, mine);
          MarkCellAsMine(mine);
          changed := true;
        }
        todo := todo - {mine};
        done := done + {mine};
      }
    }

    /** Marks every cell of `cells` as safe, skipping those already known;
        the result says whether any was new. */
    method MarkAllAsSafe(cells: set<Cell>) returns (changed: bool)
      modifies this
      ensures safes == old(safes) + cells && mines == old(mines) && movesMade == old(movesMade)
      ensures knowledge == ResolveAll(old(knowledge), {}, cells - old(safes))
      ensures changed <==> cells - old(safes) != {}
    {
      changed := false;
      ResolveAllNothing(knowledge);
      var todo := cells;
      ghost var done: set<Cell> := {};
      while todo != {}
        invariant todo + done == cells && todo !! done
        invariant movesMade == old(movesMade) && mines == old(mines)
        invariant safes == old(safes) + done
        invariant knowledge == ResolveAll(old(knowledge), {}, done - old(safes))
        invariant changed <==> done - old(safes) != {}
        decreases todo
      {
        var safe :| safe in todo;
        ScanStep(cells, todo, done, old(safes), safe);
        if safe !in safes {
          ResolveAllAddSafe(old(knowledge), done - old(safes), safe);
          MarkCellAsSafe(safe);
          changed := true;
        }
        todo := todo - {safe};
        done := done + {safe};
      }
    }

    /** A safe cell not yet revealed, if there is one. */
    method GetNextSafeMove() returns (move: Option<Cell>)
      ensures move.Some? ==> move.value in safes && move.value !in movesMade
      ensures move.None? <==> safes - movesMade == {}
    {
      var candidates := safes - movesMade;
      if candidates != {} {
        var m :| m in candidates;
        return Some(m);
      }
      return None;
    }

    /** An arbitrary board cell neither revealed nor confirmed as a mine, if
        there is one. */
    method SelectRandomAvailableCell() returns (move: Option<Cell>)
      ensures move.Some? ==> InBoard(move.value, height, width)
                             && move.value !in movesMade && move.value !in mines
      ensures move.None? <==> Board(height, width) <= movesMade + mines
    {
      var options := Unexplored(RowMajor(height, width), movesMade, mines);
      if |options| > 0 {
        var k :| 0 <= k < |options|;
        return Some(options[k]);
      }
      assert forall c :: InBoard(c, height, width) ==> c in movesMade || c in mines;
      return None;
    }
  }
}
