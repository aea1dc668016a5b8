/** A sentence of the player's knowledge: "exactly `count` of `cells` are
    mines". The constructor checks nothing, so `count` may lie outside
    `[0, |cells|]`; a sentence that some real mine layout satisfies never does
    (see `SatisfiableBounds`). */
module Sentences {
  import opened Grid

  datatype Sentence = Sentence(cells: set<Cell>, count: int)
  {
    /** The mine layout `truth` (the set of cells that are mines) agrees with
        this sentence. */
    predicate HoldsIn(truth: set<Cell>) {
      |cells * truth| == count
    }

    /** When as many mines as cells remain, every cell is a mine. */
    function IdentifiedMines(): (r: set<Cell>)
      ensures r == cells || r == {}
      ensures r != {} <==> cells != {} && count == |cells|
    {
      if count == |cells| then cells else {}
    }

    /** When no mine remains, every cell is safe. */
    function IdentifiedSafes(): (r: set<Cell>)
      ensures r == cells || r == {}
      ensures r != {} <==> cells != {} && count == 0
    {
      if count == 0 then cells else {}
    }

    /** Removes a cell now known to be a mine; it accounted for one of the
        mines, so the number of safe cells among the rest is unchanged. */
    function MarkMine(cell: Cell): (r: Sentence)
      ensures r.cells == cells - {cell}
      ensures |r.cells| - r.count == |cells| - count
      ensures cell !in cells ==> r == this
    {
      if cell in cells then Sentence(cells - {cell}, count - 1) else this
    }

    /** Removes a cell now known to be safe; the mine count is unchanged. */
    function MarkSafe(cell: Cell): (r: Sentence)
      ensures r.cells == cells - {cell}
      ensures r.count == count
      ensures cell !in cells ==> r == this
    {
      if cell in cells then Sentence(cells - {cell}, count) else this
    }

    /** The sentence left once every cell of `mines` and `safes` has been
        marked: those cells are gone and each removed mine lowered the count. */
    function Without(mines: set<Cell>, safes: set<Cell>): Sentence {
      Sentence(cells - (mines + safes), count - |cells * mines|)
    }
  }

  /** Marking one mine is eliminating the singleton `{cell}`. */
  lemma MarkMineIsWithout(s: Sentence, cell: Cell)
    ensures s.MarkMine(cell) == s.Without({cell}, {})
  {
    if cell in s.cells {
      assert s.cells * {cell} == {cell};
    } else {
      assert s.cells * {cell} == {};
    }
  }

  /** Marking one safe cell is eliminating the singleton `{cell}`. */
  lemma MarkSafeIsWithout(s: Sentence, cell: Cell)
    ensures s.MarkSafe(cell) == s.Without({}, {cell})
  {
    assert s.cells * {} == {};
  }

  /** Eliminating in two steps is eliminating the union, provided no cell
      eliminated as a mine in the second step was already eliminated as safe
      in the first. The order in which the inference loop marks cells is
      therefore irrelevant. */
  lemma WithoutCompose(s: Sentence, m1: set<Cell>, s1: set<Cell>, m2: set<Cell>, s2: set<Cell>)
    requires m2 !! s1
    ensures s.Without(m1, s1).Without(m2, s2) == s.Without(m1 + m2, s1 + s2)
  {
    var c := s.cells;
    var later := (c - (m1 + s1)) * m2;
    assert later == (c * m2) - m1;
    assert c * (m1 + m2) == (c * m1) + later;
    assert (c * m1) !! later;
  }

  /** Eliminating nothing changes nothing. */
  lemma WithoutNothing(s: Sentence)
    ensures s.Without({}, {}) == s
  {
    assert s.cells * {} == {};
  }

  /** A sentence that some mine layout satisfies has `0 <= count <= |cells|`. */
  lemma SatisfiableBounds(s: Sentence, truth: set<Cell>)
    requires s.HoldsIn(truth)
    ensures 0 <= s.count <= |s.cells|
  {
    SubsetCard(s.cells * truth, s.cells);
  }

  /** The mine rule is sound: cells it identifies are mines in every layout
      the sentence agrees with. */
  lemma IdentifiedMinesSound(s: Sentence, truth: set<Cell>)
    requires s.HoldsIn(truth)
    ensures s.IdentifiedMines() <= truth
  {
    if s.count == |s.cells| {
      SubsetCard(s.cells * truth, s.cells);
    }
  }

  /** The safe rule is sound: cells it identifies are mines in no layout the
      sentence agrees with. */
  lemma IdentifiedSafesSound(s: Sentence, truth: set<Cell>)
    requires s.HoldsIn(truth)
    ensures s.IdentifiedSafes() !! truth
  {
    if s.count == 0 {
      assert |s.cells * truth| == 0;
      assert forall c :: c in s.cells && c in truth ==> c in s.cells * truth;
    }
  }

  /** Eliminating true mines and true safe cells keeps a true sentence true. */
  lemma WithoutSound(s: Sentence, mines: set<Cell>, safes: set<Cell>, truth: set<Cell>)
    requires s.HoldsIn(truth) && mines <= truth && safes !! truth
    ensures s.Without(mines, safes).HoldsIn(truth)
  {
    var c := s.cells;
    var rest := (c - (mines + safes)) * truth;
    assert c * truth == rest + (c * mines);
    assert rest !! (c * mines);
  }

  /** Marking a true mine keeps a true sentence true. */
  lemma MarkMineSound(s: Sentence, cell: Cell, truth: set<Cell>)
    requires s.HoldsIn(truth) && cell in truth
    ensures s.MarkMine(cell).HoldsIn(truth)
  {
    MarkMineIsWithout(s, cell);
    WithoutSound(s, {cell}, {}, truth);
  }

  /** Marking a truly safe cell keeps a true sentence true. */
  lemma MarkSafeSound(s: Sentence, cell: Cell, truth: set<Cell>)
    requires s.HoldsIn(truth) && cell !in truth
    ensures s.MarkSafe(cell).HoldsIn(truth)
  {
    MarkSafeIsWithout(s, cell);
    WithoutSound(s, {}, {cell}, truth);
  }

  /** Marking the same cell twice is the same as marking it once. */
  lemma MarkIdempotent(s: Sentence, cell: Cell)
    ensures s.MarkMine(cell).MarkMine(cell) == s.MarkMine(cell)
    ensures s.MarkSafe(cell).MarkSafe(cell) == s.MarkSafe(cell)
  {
  }

  /** The subset rule is sound: if `small` and `big` are both true and
      `small.cells <= big.cells`, the cells only `big` has hold exactly
      `big.count - small.count` mines. */
  lemma SubsetRuleSound(small: Sentence, big: Sentence, truth: set<Cell>)
    requires small.HoldsIn(truth) && big.HoldsIn(truth)
    requires small.cells <= big.cells
    ensures Sentence(big.cells - small.cells, big.count - small.count).HoldsIn(truth)
  {
    var rest := (big.cells - small.cells) * truth;
    assert big.cells * truth == rest + small.cells * truth;
    assert rest !! small.cells * truth;
  }
}
