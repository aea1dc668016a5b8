/** The automated player's reasoning, stated on values: the state `KB` the
    player keeps, and one function per operation that says what the state
    becomes. The class `Agent.MinesweeperAI` is proved to follow these
    functions; the lemmas here state what the operations guarantee. */
module Engine {
  import opened Grid
  import opened Sentences

  /** Cells revealed so far, cells confirmed as mines, cells confirmed safe,
      and the list of live sentences. */
  datatype KB = KB(movesMade: set<Cell>, mines: set<Cell>, safes: set<Cell>, knowledge: seq<Sentence>)

  // ---------------------------------------------------------------------
  // Sequences of sentences

  /** Every cell mentioned by some sentence of `k`. */
  function CellsOf(k: seq<Sentence>): set<Cell> {
    if k == [] then {} else k[0].cells + CellsOf(k[1..])
  }

  lemma {:induction false} CellsOfMember(k: seq<Sentence>, i: nat)
    requires i < |k|
    ensures k[i].cells <= CellsOf(k)
  {
    if i > 0 {
      assert k[1..][i - 1] == k[i];
      CellsOfMember(k[1..], i - 1);
    }
  }

  lemma {:induction false} CellsOfWitness(k: seq<Sentence>, c: Cell) returns (i: nat)
    requires c in CellsOf(k)
    ensures i < |k| && c in k[i].cells
  {
    if c in k[0].cells {
      i := 0;
    } else {
      var j := CellsOfWitness(k[1..], c);
      i := j + 1;
    }
  }

  /** The sentences of `k` whose cell set is non-empty, in order. */
  function Live(k: seq<Sentence>): seq<Sentence> {
    if k == [] then []
    else (if k[0].cells != {} then [k[0]] else []) + Live(k[1..])
  }

  /** `Live` keeps exactly the non-empty sentences. */
  lemma {:induction false} LiveMembers(k: seq<Sentence>)
    ensures forall s :: s in Live(k) <==> s in k && s.cells != {}
  {
    if k != [] {
      LiveMembers(k[1..]);
      assert forall s :: s in k <==> s == k[0] || s in k[1..];
    }
  }

  /** Every sentence of `k` with the cells of `mines` and `safes` marked. */
  function ResolveAll(k: seq<Sentence>, mines: set<Cell>, safes: set<Cell>): (r: seq<Sentence>)
    ensures |r| == |k|
  {
    if k == [] then [] else [k[0].Without(mines, safes)] + ResolveAll(k[1..], mines, safes)
  }

  /** Each sentence is resolved on its own. */
  lemma {:induction false} ResolveAllAt(k: seq<Sentence>, mines: set<Cell>, safes: set<Cell>)
    ensures forall i :: 0 <= i < |k| ==> ResolveAll(k, mines, safes)[i] == k[i].Without(mines, safes)
  {
    if k != [] {
      ResolveAllAt(k[1..], mines, safes);
    }
  }

  /** The union of what the sentences of `k` identify as mines. */
  function IdentifiedMinesIn(k: seq<Sentence>): set<Cell> {
    if k == [] then {} else IdentifiedMinesIn(k[..|k| - 1]) + k[|k| - 1].IdentifiedMines()
  }

  /** The union of what the sentences of `k` identify as safe. */
  function IdentifiedSafesIn(k: seq<Sentence>): set<Cell> {
    if k == [] then {} else IdentifiedSafesIn(k[..|k| - 1]) + k[|k| - 1].IdentifiedSafes()
  }

  /** Extending a prefix by one sentence adds what that sentence identifies. */
  lemma IdentifiedInSnoc(k: seq<Sentence>, i: nat)
    requires i < |k|
    ensures IdentifiedMinesIn(k[..i + 1]) == IdentifiedMinesIn(k[..i]) + k[i].IdentifiedMines()
    ensures IdentifiedSafesIn(k[..i + 1]) == IdentifiedSafesIn(k[..i]) + k[i].IdentifiedSafes()
  {
    assert k[..i + 1][..i] == k[..i];
  }

  lemma {:induction false} IdentifiedInMember(k: seq<Sentence>, i: nat)
    requires i < |k|
    ensures k[i].IdentifiedMines() <= IdentifiedMinesIn(k)
    ensures k[i].IdentifiedSafes() <= IdentifiedSafesIn(k)
  {
    if i < |k| - 1 {
      IdentifiedInMember(k[..|k| - 1], i);
    }
  }

  lemma {:induction false} IdentifiedMinesWitness(k: seq<Sentence>, c: Cell) returns (i: nat)
    requires c in IdentifiedMinesIn(k)
    ensures i < |k| && c in k[i].IdentifiedMines()
  {
    if c in k[|k| - 1].IdentifiedMines() {
      i := |k| - 1;
    } else {
      i := IdentifiedMinesWitness(k[..|k| - 1], c);
    }
  }

  lemma {:induction false} IdentifiedSafesWitness(k: seq<Sentence>, c: Cell) returns (i: nat)
    requires c in IdentifiedSafesIn(k)
    ensures i < |k| && c in k[i].IdentifiedSafes()
  {
    if c in k[|k| - 1].IdentifiedSafes() {
      i := |k| - 1;
    } else {
      i := IdentifiedSafesWitness(k[..|k| - 1], c);
    }
  }

  /** Whatever the sentences identify, they mention. */
  lemma IdentifiedInCells(k: seq<Sentence>)
    ensures IdentifiedMinesIn(k) + IdentifiedSafesIn(k) <= CellsOf(k)
  {
    forall c | c in IdentifiedMinesIn(k) ensures c in CellsOf(k) {
      var i := IdentifiedMinesWitness(k, c);
      CellsOfMember(k, i);
    }
    forall c | c in IdentifiedSafesIn(k) ensures c in CellsOf(k) {
      var i := IdentifiedSafesWitness(k, c);
      CellsOfMember(k, i);
    }
  }

  lemma {:induction false} CellsOfAppend(a: seq<Sentence>, b: seq<Sentence>)
    ensures CellsOf(a + b) == CellsOf(a) + CellsOf(b)
  {
    if a != [] {
      assert (a + b)[1..] == a[1..] + b;
      CellsOfAppend(a[1..], b);
    } else {
      assert a + b == b;
    }
  }

  lemma {:induction false} CellsOfResolveAll(k: seq<Sentence>, mines: set<Cell>, safes: set<Cell>)
    ensures CellsOf(ResolveAll(k, mines, safes)) == CellsOf(k) - (mines + safes)
  {
    if k != [] {
      var r := ResolveAll(k, mines, safes);
      assert r[1..] == ResolveAll(k[1..], mines, safes);
      CellsOfResolveAll(k[1..], mines, safes);
    }
  }

  lemma {:induction false} CellsOfLive(k: seq<Sentence>)
    ensures CellsOf(Live(k)) == CellsOf(k)
  {
    if k != [] {
      var head := if k[0].cells != {} then [k[0]] else [];
      CellsOfAppend(head, Live(k[1..]));
      CellsOfLive(k[1..]);
      if head != [] {
        assert head[1..] == [];
      }
    }
  }

  /** Dropping empty sentences before marking changes nothing once the
      marked result is filtered again: an empty sentence stays empty. */
  lemma {:induction false} LiveResolveAllLive(k: seq<Sentence>, mines: set<Cell>, safes: set<Cell>)
    ensures Live(ResolveAll(Live(k), mines, safes)) == Live(ResolveAll(k, mines, safes))
  {
    if k != [] {
      var head := k[0].Without(mines, safes);
      var rk := ResolveAll(k, mines, safes);
      assert rk[0] == head && rk[1..] == ResolveAll(k[1..], mines, safes);
      assert Live(rk) == (if head.cells != {} then [head] else []) + Live(ResolveAll(k[1..], mines, safes));
      LiveResolveAllLive(k[1..], mines, safes);
      if k[0].cells != {} {
        var lk := Live(k);
        assert lk[0] == k[0] && lk[1..] == Live(k[1..]);
        var rlk := ResolveAll(lk, mines, safes);
        assert rlk[0] == head && rlk[1..] == ResolveAll(Live(k[1..]), mines, safes);
        assert Live(rlk) == (if head.cells != {} then [head] else []) + Live(ResolveAll(Live(k[1..]), mines, safes));
      } else {
        assert head.cells == {};
        assert Live(k) == [] + Live(k[1..]) == Live(k[1..]);
      }
    }
  }

  lemma ResolveAllCompose(k: seq<Sentence>, m1: set<Cell>, s1: set<Cell>, m2: set<Cell>, s2: set<Cell>)
    requires m2 !! s1
    ensures ResolveAll(ResolveAll(k, m1, s1), m2, s2) == ResolveAll(k, m1 + m2, s1 + s2)
  {
    forall i | 0 <= i < |k|
      ensures k[i].Without(m1, s1).Without(m2, s2) == k[i].Without(m1 + m2, s1 + s2)
    {
      WithoutCompose(k[i], m1, s1, m2, s2);
    }
  }

  lemma ResolveAllNothing(k: seq<Sentence>)
    ensures ResolveAll(k, {}, {}) == k
  {
    forall i | 0 <= i < |k| ensures k[i].Without({}, {}) == k[i] {
      WithoutNothing(k[i]);
    }
  }

  // ---------------------------------------------------------------------
  // Invariants

  /** No live sentence mentions a confirmed cell. */
  predicate Separated(st: KB) {
    CellsOf(st.knowledge) !! st.mines + st.safes
  }

  /** The invariant every reachable state keeps on a `height` x `width`
      board: sentences avoid confirmed cells and stay on the board, and every
      revealed cell is confirmed safe. */
  predicate WellFormed(st: KB, height: int, width: int) {
    Confined(st, height, width) && st.movesMade <= st.safes
  }

  /** The part of `WellFormed` about the sentences. */
  predicate Confined(st: KB, height: int, width: int) {
    Separated(st) && CellsOf(st.knowledge) <= Board(height, width)
  }

  /** The state agrees with the real mine layout `truth`: confirmed mines are
      mines, confirmed safe cells are not, and every sentence is true. */
  predicate Sound(st: KB, truth: set<Cell>) {
    && st.mines <= truth
    && st.safes !! truth
    && forall s :: s in st.knowledge ==> s.HoldsIn(truth)
  }

  /** A sound state never confirms a cell both as a mine and as safe. */
  lemma SoundDisjoint(st: KB, truth: set<Cell>)
    requires Sound(st, truth)
    ensures st.mines !! st.safes
  {
    assert forall c :: c in st.mines ==> c in truth;
  }

  // ---------------------------------------------------------------------
  // Marking a confirmed cell

  /** `mark_cell_as_mine`: record the mine and remove it from every sentence. */
  function ConfirmMine(st: KB, cell: Cell): KB {
    st.(mines := st.mines + {cell}, knowledge := ResolveAll(st.knowledge, {cell}, {}))
  }

  /** `mark_cell_as_safe`: record the safe cell and remove it from every sentence. */
  function ConfirmSafe(st: KB, cell: Cell): KB {
    st.(safes := st.safes + {cell}, knowledge := ResolveAll(st.knowledge, {}, {cell}))
  }

  /** Marking a mine in each sentence one by one is resolving the whole
      knowledge against it; afterwards no sentence mentions the cell. */
  lemma MarkedMineEach(k: seq<Sentence>, r: seq<Sentence>, cell: Cell)
    requires |r| == |k| && forall j :: 0 <= j < |k| ==> r[j] == k[j].MarkMine(cell)
    ensures r == ResolveAll(k, {cell}, {})
    ensures forall s :: s in r ==> cell !in s.cells
  {
    forall j | 0 <= j < |k| ensures r[j] == k[j].Without({cell}, {}) {
      MarkMineIsWithout(k[j], cell);
    }
    ResolveAllAt(k, {cell}, {});
  }

  /** Marking a safe cell in each sentence one by one is resolving the whole
      knowledge against it; afterwards no sentence mentions the cell. */
  lemma MarkedSafeEach(k: seq<Sentence>, r: seq<Sentence>, cell: Cell)
    requires |r| == |k| && forall j :: 0 <= j < |k| ==> r[j] == k[j].MarkSafe(cell)
    ensures r == ResolveAll(k, {}, {cell})
    ensures forall s :: s in r ==> cell !in s.cells
  {
    forall j | 0 <= j < |k| ensures r[j] == k[j].Without({}, {cell}) {
      MarkSafeIsWithout(k[j], cell);
    }
    ResolveAllAt(k, {}, {cell});
  }

  /** After marking, the cell is in no sentence, and marking keeps the
      invariant. */
  lemma ConfirmKeepsInvariant(st: KB, cell: Cell, height: int, width: int)
    requires Confined(st, height, width)
    ensures CellsOf(ConfirmMine(st, cell).knowledge) == CellsOf(st.knowledge) - {cell}
    ensures CellsOf(ConfirmSafe(st, cell).knowledge) == CellsOf(st.knowledge) - {cell}
    ensures st.movesMade <= st.safes ==> WellFormed(ConfirmMine(st, cell), height, width)
    ensures st.movesMade <= st.safes + {cell} ==> WellFormed(ConfirmSafe(st, cell), height, width)
  {
    CellsOfResolveAll(st.knowledge, {cell}, {});
    CellsOfResolveAll(st.knowledge, {}, {cell});
  }

  /** Marking the same cell a second time changes nothing. */
  lemma ConfirmIdempotent(st: KB, cell: Cell)
    ensures ConfirmMine(ConfirmMine(st, cell), cell) == ConfirmMine(st, cell)
    ensures ConfirmSafe(ConfirmSafe(st, cell), cell) == ConfirmSafe(st, cell)
  {
    ResolveAllCompose(st.knowledge, {cell}, {}, {cell}, {});
    assert {cell} + {cell} == {cell};
    ResolveAllCompose(st.knowledge, {}, {cell}, {}, {cell});
  }

  /** Marking a real mine, or a really safe cell, keeps a sound state sound. */
  lemma ConfirmSound(st: KB, cell: Cell, truth: set<Cell>)
    requires Sound(st, truth)
    ensures cell in truth ==> Sound(ConfirmMine(st, cell), truth)
    ensures cell !in truth ==> Sound(ConfirmSafe(st, cell), truth)
  {
    var k := st.knowledge;
    forall s | s in ResolveAll(k, {cell}, {}) && cell in truth ensures s.HoldsIn(truth) {
      var i :| 0 <= i < |k| && s == ResolveAll(k, {cell}, {})[i];
      ResolveAllAt(k, {cell}, {});
      WithoutSound(k[i], {cell}, {}, truth);
    }
    forall s | s in ResolveAll(k, {}, {cell}) && cell !in truth ensures s.HoldsIn(truth) {
      var i :| 0 <= i < |k| && s == ResolveAll(k, {}, {cell})[i];
      ResolveAllAt(k, {}, {cell});
      WithoutSound(k[i], {}, {cell}, truth);
    }
  }

  // ---------------------------------------------------------------------
  // The inference fixpoint (`update_knowledge`)

  /** The mines and safe cells one pass confirms: those the sentences
      identify that are not confirmed yet. */
  function NewMines(st: KB): set<Cell> { IdentifiedMinesIn(st.knowledge) - st.mines }
  function NewSafes(st: KB): set<Cell> { IdentifiedSafesIn(st.knowledge) - st.safes }

  /** One pass of the loop: snapshot what every sentence identifies, mark all
      of it, then drop the emptied sentences. */
  function Pass(st: KB): KB {
    var m := NewMines(st);
    var s := NewSafes(st);
    st.(mines := st.mines + m, safes := st.safes + s,
        knowledge := Live(ResolveAll(st.knowledge, m, s)))
  }

  /** A pass carried out as the loop does it: all identified mines are
      marked first, then all identified safe cells. */
  lemma PassInTwoSteps(st: KB, mines: set<Cell>, safes: set<Cell>)
    requires mines == IdentifiedMinesIn(st.knowledge) && safes == IdentifiedSafesIn(st.knowledge)
    ensures Pass(st) == st.(mines := st.mines + mines, safes := st.safes + safes,
                            knowledge := Live(ResolveAll(ResolveAll(st.knowledge, mines - st.mines, {}), {}, safes - st.safes)))
    ensures Stalled(st) <==> mines - st.mines == {} && safes - st.safes == {}
  {
    ResolveAllSplit(st.knowledge, NewMines(st), NewSafes(st));
    AddNew(st.mines, mines);
    AddNew(st.safes, safes);
  }

  /** A pass that marks nothing: the loop's `changed` stays false. */
  predicate Stalled(st: KB) {
    NewMines(st) == {} && NewSafes(st) == {}
  }

  lemma PassCells(st: KB)
    ensures CellsOf(Pass(st).knowledge) == CellsOf(st.knowledge) - (NewMines(st) + NewSafes(st))
    ensures NewMines(st) + NewSafes(st) <= CellsOf(st.knowledge)
  {
    CellsOfLive(ResolveAll(st.knowledge, NewMines(st), NewSafes(st)));
    CellsOfResolveAll(st.knowledge, NewMines(st), NewSafes(st));
    IdentifiedInCells(st.knowledge);
  }

  /** A pass that marks something removes at least one cell from the
      knowledge: the loop terminates. */
  lemma PassShrinks(st: KB)
    requires !Stalled(st)
    ensures |CellsOf(Pass(st).knowledge)| < |CellsOf(st.knowledge)|
  {
    PassCells(st);
    var c :| c in NewMines(st) + NewSafes(st);
    var before := CellsOf(st.knowledge);
    var after := CellsOf(Pass(st).knowledge);
    assert after <= before - {c};
    SubsetCard(after, before - {c});
  }

  /** When a pass marks nothing, every sentence's conclusions are already
      confirmed. */
  lemma StalledSettled(st: KB)
    requires Stalled(st)
    ensures forall s :: s in st.knowledge ==>
              s.IdentifiedMines() <= st.mines && s.IdentifiedSafes() <= st.safes
  {
    forall s | s in st.knowledge
      ensures s.IdentifiedMines() <= st.mines && s.IdentifiedSafes() <= st.safes
    {
      var i :| 0 <= i < |st.knowledge| && st.knowledge[i] == s;
      IdentifiedInMember(st.knowledge, i);
    }
  }

  /** The state `update_knowledge` leaves behind: passes are repeated until
      one marks nothing. */
  function Fixpoint(st: KB): (r: KB)
    ensures r.movesMade == st.movesMade && st.mines <= r.mines && st.safes <= r.safes
    ensures forall s :: s in r.knowledge ==>
              s.cells != {} && s.IdentifiedMines() <= r.mines && s.IdentifiedSafes() <= r.safes
    decreases |CellsOf(st.knowledge)|
  {
    if Stalled(st) then
      ResolveAllNothing(st.knowledge);
      StalledSettled(st);
      LiveMembers(st.knowledge);
      Pass(st)
    else
      PassShrinks(st);
      Fixpoint(Pass(st))
  }

  /** Two rounds of marking, each followed by dropping the emptied
      sentences, are one round over the union. */
  lemma ComposeRounds(k: seq<Sentence>, m: set<Cell>, s: set<Cell>, m2: set<Cell>, s2: set<Cell>)
    requires m2 !! s
    ensures Live(ResolveAll(Live(ResolveAll(k, m, s)), m2, s2)) == Live(ResolveAll(k, m + m2, s + s2))
  {
    LiveResolveAllLive(ResolveAll(k, m, s), m2, s2);
    ResolveAllCompose(k, m, s, m2, s2);
  }

  /** Adding what is new in `b` is adding all of `b`. */
  lemma AddNew(a: set<Cell>, b: set<Cell>)
    ensures a + (b - a) == a + b
  {
  }

  /** Marking mines first and safe cells second is marking both at once. */
  lemma ResolveAllSplit(k: seq<Sentence>, m: set<Cell>, s: set<Cell>)
    ensures ResolveAll(ResolveAll(k, m, {}), {}, s) == ResolveAll(k, m, s)
  {
    ResolveAllCompose(k, m, {}, {}, s);
    assert m + {} == m && {} + s == s;
  }

  /** Marking one more mine after a set of mines. */
  lemma ResolveAllAddMine(k: seq<Sentence>, m: set<Cell>, x: Cell)
    ensures ResolveAll(ResolveAll(k, m, {}), {x}, {}) == ResolveAll(k, m + {x}, {})
  {
    var none: set<Cell> := {};
    ResolveAllCompose(k, m, none, {x}, none);
    assert none + none == none;
  }

  /** Marking one more safe cell after a set of safe cells. */
  lemma ResolveAllAddSafe(k: seq<Sentence>, s: set<Cell>, x: Cell)
    ensures ResolveAll(ResolveAll(k, {}, s), {}, {x}) == ResolveAll(k, {}, s + {x})
  {
    var none: set<Cell> := {};
    ResolveAllCompose(k, none, s, none, {x});
    assert none + none == none;
  }

  /** One step of a loop that moves `x` from `todo` to `done` while adding
      it to `base + done`: what the loop's invariants need. */
  lemma ScanStep(cells: set<Cell>, todo: set<Cell>, done: set<Cell>, base: set<Cell>, x: Cell)
    requires todo + done == cells && todo !! done && x in todo
    ensures (todo - {x}) + (done + {x}) == cells && todo - {x} !! done + {x}
    ensures (base + done) + {x} == base + (done + {x})
    ensures x in base + done ==> base + done == base + (done + {x})
    ensures x in base + done ==> (done + {x}) - base == done - base
    ensures x !in base + done ==> (done + {x}) - base == (done - base) + {x}
  {
  }

  /** What was added to `before` in two steps, `m` first. */
  lemma SplitGrowth(before: set<Cell>, m: set<Cell>, after: set<Cell>)
    requires m !! before && before + m <= after
    ensures after - before == m + (after - (before + m))
  {
  }

  /** However many passes run, the result is the original knowledge with
      every newly confirmed cell marked at once and the emptied sentences
      dropped; only cells the knowledge mentioned get confirmed. */
  lemma {:induction false} FixpointClosedForm(st: KB)
    ensures var r := Fixpoint(st);
            && r.knowledge == Live(ResolveAll(st.knowledge, r.mines - st.mines, r.safes - st.safes))
            && (r.mines - st.mines) + (r.safes - st.safes) <= CellsOf(st.knowledge)
    decreases |CellsOf(st.knowledge)|
  {
    var p := Pass(st);
    var m, s := NewMines(st), NewSafes(st);
    PassCells(st);
    if Stalled(st) {
      ResolveAllNothing(st.knowledge);
      assert Fixpoint(st) == p;
      assert p.mines - st.mines == {} && p.safes - st.safes == {};
    } else {
      PassShrinks(st);
      assert Fixpoint(st) == Fixpoint(p);
      FixpointClosedForm(p);
      var r := Fixpoint(p);
      var m2, s2 := r.mines - p.mines, r.safes - p.safes;
      assert r.knowledge == Live(ResolveAll(p.knowledge, m2, s2));
      assert p.knowledge == Live(ResolveAll(st.knowledge, m, s));
      assert m2 !! s;
      ComposeRounds(st.knowledge, m, s, m2, s2);
      SplitGrowth(st.mines, m, r.mines);
      SplitGrowth(st.safes, s, r.safes);
    }
  }

  /** The fixpoint keeps the invariant, and at the fixpoint no sentence can
      be resolved by the trivial rules any more. */
  lemma FixpointKeepsInvariant(st: KB, height: int, width: int)
    requires WellFormed(st, height, width)
    ensures var r := Fixpoint(st);
            && WellFormed(r, height, width)
            && forall s :: s in r.knowledge ==> s.IdentifiedMines() == {} && s.IdentifiedSafes() == {}
  {
    var r := Fixpoint(st);
    FixpointClosedForm(st);
    var m, s := r.mines - st.mines, r.safes - st.safes;
    CellsOfLive(ResolveAll(st.knowledge, m, s));
    CellsOfResolveAll(st.knowledge, m, s);
    assert CellsOf(r.knowledge) == CellsOf(st.knowledge) - (m + s);
    forall x | x in r.knowledge ensures x.IdentifiedMines() == {} && x.IdentifiedSafes() == {} {
      var i :| 0 <= i < |r.knowledge| && r.knowledge[i] == x;
      CellsOfMember(r.knowledge, i);
    }
  }

  /** Inference from a sound state stays sound: every cell the passes
      confirm is confirmed correctly, and every sentence stays true. */
  lemma {:induction false} FixpointSound(st: KB, truth: set<Cell>)
    requires Sound(st, truth)
    ensures Sound(Fixpoint(st), truth)
    decreases |CellsOf(st.knowledge)|
  {
    var k := st.knowledge;
    var m, s := NewMines(st), NewSafes(st);
    forall c | c in m ensures c in truth {
      var i := IdentifiedMinesWitness(k, c);
      IdentifiedMinesSound(k[i], truth);
    }
    forall c | c in s ensures c !in truth {
      var i := IdentifiedSafesWitness(k, c);
      IdentifiedSafesSound(k[i], truth);
    }
    LiveMembers(ResolveAll(k, m, s));
    forall x | x in Live(ResolveAll(k, m, s)) ensures x.HoldsIn(truth) {
      var i :| 0 <= i < |k| && x == ResolveAll(k, m, s)[i];
      ResolveAllAt(k, m, s);
      WithoutSound(k[i], m, s, truth);
    }
    assert Sound(Pass(st), truth);
    if !Stalled(st) {
      PassShrinks(st);
      FixpointSound(Pass(st), truth);
    }
  }

  // ---------------------------------------------------------------------
  // Subset derivation (`create_derived_sentences`)

  /** What the ordered pair `(s1, s2)` contributes: when `s1`'s cells are a
      subset of `s2`'s, the cells only `s2` has hold `s2.count - s1.count`
      mines. The new sentence is kept only if it is non-empty, its count is
      not negative and `k` does not already hold it. */
  function Derivation(k: seq<Sentence>, s1: Sentence, s2: Sentence): seq<Sentence> {
    if s1 != s2 && s1.cells != {} && s2.cells != {} && s1.cells <= s2.cells then
      var d := Sentence(s2.cells - s1.cells, s2.count - s1.count);
      if d.cells != {} && d.count >= 0 && d !in k then [d] else []
    else []
  }

  /** The inner loop: `s1` paired with the first `j` sentences of `k`. */
  function DerivedRow(k: seq<Sentence>, s1: Sentence, j: nat): seq<Sentence>
    requires j <= |k|
  {
    if j == 0 then [] else DerivedRow(k, s1, j - 1) + Derivation(k, s1, k[j - 1])
  }

  /** The outer loop: the first `i` sentences of `k` paired with all of `k`. */
  function DerivedUpTo(k: seq<Sentence>, i: nat): seq<Sentence>
    requires i <= |k|
  {
    if i == 0 then [] else DerivedUpTo(k, i - 1) + DerivedRow(k, k[i - 1], |k|)
  }

  /** The list of new sentences one derivation pass collects, in order. */
  function Derived(k: seq<Sentence>): seq<Sentence> {
    DerivedUpTo(k, |k|)
  }

  /** `d` is the result of the subset rule on two sentences of `k`. */
  predicate IsDerivation(k: seq<Sentence>, d: Sentence) {
    && d.cells != {} && d.count >= 0 && d !in k
    && exists i, j :: 0 <= i < |k| && 0 <= j < |k| && k[i] != k[j] && k[i].cells != {}
                      && k[i].cells <= k[j].cells
                      && d == Sentence(k[j].cells - k[i].cells, k[j].count - k[i].count)
  }

  /** Pair `(ii, jj)` of `k` contributes `d`. */
  predicate FromPair(k: seq<Sentence>, d: Sentence, ii: int, jj: int) {
    0 <= ii < |k| && 0 <= jj < |k| && d in Derivation(k, k[ii], k[jj])
  }

  /** Every sentence the inner loop collects comes from some pair. */
  lemma {:induction false} DerivedRowWitness(k: seq<Sentence>, ii: nat, j: nat, d: Sentence) returns (jj: nat)
    requires ii < |k| && j <= |k| && d in DerivedRow(k, k[ii], j)
    ensures jj < j && FromPair(k, d, ii, jj)
  {
    if d in Derivation(k, k[ii], k[j - 1]) {
      jj := j - 1;
    } else {
      jj := DerivedRowWitness(k, ii, j - 1, d);
    }
  }

  /** Every pair the inner loop visits contributes its sentence. */
  lemma {:induction false} DerivedRowPlaced(k: seq<Sentence>, ii: nat, jj: nat, j: nat, d: Sentence)
    requires ii < |k| && jj < j <= |k| && FromPair(k, d, ii, jj)
    ensures d in DerivedRow(k, k[ii], j)
  {
    if jj < j - 1 {
      DerivedRowPlaced(k, ii, jj, j - 1, d);
    }
    assert d in DerivedRow(k, k[ii], j - 1) + Derivation(k, k[ii], k[j - 1]);
  }

  /** Every sentence the outer loop collects comes from some row. */
  lemma {:induction false} DerivedUpToWitness(k: seq<Sentence>, i: nat, d: Sentence) returns (ii: nat)
    requires i <= |k| && d in DerivedUpTo(k, i)
    ensures ii < i && d in DerivedRow(k, k[ii], |k|)
  {
    if d in DerivedRow(k, k[i - 1], |k|) {
      ii := i - 1;
    } else {
      ii := DerivedUpToWitness(k, i - 1, d);
    }
  }

  /** Every row the outer loop visits is collected. */
  lemma {:induction false} DerivedUpToPlaced(k: seq<Sentence>, ii: nat, i: nat, d: Sentence)
    requires ii < i <= |k| && d in DerivedRow(k, k[ii], |k|)
    ensures d in DerivedUpTo(k, i)
  {
    var before, row := DerivedUpTo(k, i - 1), DerivedRow(k, k[i - 1], |k|);
    if ii < i - 1 {
      DerivedUpToPlaced(k, ii, i - 1, d);
    }
    InAppend(before, row, d);
  }

  /** Membership in a concatenation. */
  lemma InAppend<T>(a: seq<T>, b: seq<T>, x: T)
    ensures x in a + b <==> x in a || x in b
  {
  }

  /** A sentence is collected by the derivation pass exactly when it is the
      result of the subset rule on two sentences of the knowledge. */
  lemma DerivedExactly(k: seq<Sentence>, d: Sentence)
    ensures d in Derived(k) <==> IsDerivation(k, d)
  {
    if d in Derived(k) {
      var i := DerivedUpToWitness(k, |k|, d);
      var j := DerivedRowWitness(k, i, |k|, d);
      assert 0 <= i < |k| && 0 <= j < |k| && d in Derivation(k, k[i], k[j]);
    }
    if IsDerivation(k, d) {
      var i, j :| 0 <= i < |k| && 0 <= j < |k| && k[i] != k[j] && k[i].cells != {}
                  && k[i].cells <= k[j].cells
                  && d == Sentence(k[j].cells - k[i].cells, k[j].count - k[i].count);
      DerivedRowPlaced(k, i, j, |k|, d);
      DerivedUpToPlaced(k, i, |k|, d);
    }
  }

  /** Derived sentences only mention cells the knowledge already mentions,
      and are true whenever the knowledge is. */
  lemma DerivedFacts(k: seq<Sentence>, truth: set<Cell>)
    ensures CellsOf(Derived(k)) <= CellsOf(k)
    ensures (forall s :: s in k ==> s.HoldsIn(truth)) ==> forall d :: d in Derived(k) ==> d.HoldsIn(truth)
  {
    forall c | c in CellsOf(Derived(k)) ensures c in CellsOf(k) {
      var n := CellsOfWitness(Derived(k), c);
      var d := Derived(k)[n];
      DerivedExactly(k, d);
      var i, j :| 0 <= i < |k| && 0 <= j < |k| && k[i] != k[j] && k[i].cells != {}
                  && k[i].cells <= k[j].cells
                  && d == Sentence(k[j].cells - k[i].cells, k[j].count - k[i].count);
      CellsOfMember(k, j);
    }
    forall d | d in Derived(k) && (forall s :: s in k ==> s.HoldsIn(truth)) ensures d.HoldsIn(truth) {
      DerivedExactly(k, d);
      var i, j :| 0 <= i < |k| && 0 <= j < |k| && k[i] != k[j] && k[i].cells != {}
                  && k[i].cells <= k[j].cells
                  && d == Sentence(k[j].cells - k[i].cells, k[j].count - k[i].count);
      SubsetRuleSound(k[i], k[j], truth);
    }
  }

  /** `create_derived_sentences`: append the derived sentences, then run the
      fixpoint again. */
  function Derive(st: KB): KB {
    Fixpoint(st.(knowledge := st.knowledge + Derived(st.knowledge)))
  }

  /** Appending the derived sentences keeps the invariant and soundness. */
  lemma GrowKeepsInvariant(st: KB, height: int, width: int, truth: set<Cell>)
    requires WellFormed(st, height, width)
    ensures WellFormed(st.(knowledge := st.knowledge + Derived(st.knowledge)), height, width)
    ensures Sound(st, truth) ==> Sound(st.(knowledge := st.knowledge + Derived(st.knowledge)), truth)
  {
    DerivedFacts(st.knowledge, truth);
    CellsOfAppend(st.knowledge, Derived(st.knowledge));
  }

  lemma DeriveKeepsInvariant(st: KB, height: int, width: int, truth: set<Cell>)
    requires WellFormed(st, height, width)
    ensures WellFormed(Derive(st), height, width)
    ensures Sound(st, truth) ==> Sound(Derive(st), truth)
  {
    var grown := st.(knowledge := st.knowledge + Derived(st.knowledge));
    GrowKeepsInvariant(st, height, width, truth);
    FixpointKeepsInvariant(grown, height, width);
    if Sound(st, truth) {
      FixpointSound(grown, truth);
    }
  }

  // ---------------------------------------------------------------------
  // Observing a revealed cell (`add_knowledge`)

  /** The sentence a clue gives: the clue's cells are the neighbours of
      `cell`; confirmed cells are left out and each confirmed mine among them
      is taken off the clue. */
  function Candidate(cell: Cell, clue: int, mines: set<Cell>, safes: set<Cell>, height: int, width: int): Sentence {
    Sentence(Neighbors(cell, height, width), clue).Without(mines, safes)
  }

  /** `add_knowledge`: record the move, confirm the cell safe, add the clue's
      sentence unless it is empty or already known, run the fixpoint, then
      derive. */
  function Observe(st: KB, cell: Cell, clue: int, height: int, width: int): KB {
    Derive(Fixpoint(Ingest(st, cell, clue, height, width)))
  }

  /** Observing a cell reveals it and confirms it safe, and every set of
      facts only grows. */
  lemma ObserveGrows(st: KB, cell: Cell, clue: int, height: int, width: int)
    ensures var r := Observe(st, cell, clue, height, width);
            && r.movesMade == st.movesMade + {cell}
            && cell in r.safes
            && st.mines <= r.mines && st.safes <= r.safes
  {
  }

  /** The state just before the first fixpoint of `add_knowledge`: the cell
      recorded and confirmed safe, the clue's sentence appended if new. */
  function Ingest(st: KB, cell: Cell, clue: int, height: int, width: int): KB {
    var marked := ConfirmSafe(st.(movesMade := st.movesMade + {cell}), cell);
    var candidate := Candidate(cell, clue, marked.mines, marked.safes, height, width);
    if candidate !in marked.knowledge && |candidate.cells| > 0
    then marked.(knowledge := marked.knowledge + [candidate])
    else marked
  }

  lemma IngestKeepsInvariant(st: KB, cell: Cell, clue: int, height: int, width: int)
    requires WellFormed(st, height, width)
    ensures WellFormed(Ingest(st, cell, clue, height, width), height, width)
  {
    var moved := st.(movesMade := st.movesMade + {cell});
    var marked := ConfirmSafe(moved, cell);
    ConfirmKeepsInvariant(moved, cell, height, width);
    var candidate := Candidate(cell, clue, marked.mines, marked.safes, height, width);
    if candidate !in marked.knowledge && |candidate.cells| > 0 {
      AppendKeepsInvariant(marked, candidate, height, width);
    }
  }

  /** Appending a sentence over unconfirmed board cells keeps the invariant. */
  lemma AppendKeepsInvariant(st: KB, s: Sentence, height: int, width: int)
    requires WellFormed(st, height, width)
    requires s.cells <= Board(height, width) && s.cells !! st.mines + st.safes
    ensures WellFormed(st.(knowledge := st.knowledge + [s]), height, width)
  {
    CellsOfAppend(st.knowledge, [s]);
    assert CellsOf([s]) == s.cells;
  }

  /** Recording a cell that is not a mine, with its true clue, keeps a sound
      state sound: the clue's sentence is true. */
  lemma IngestSound(st: KB, cell: Cell, clue: int, height: int, width: int, truth: set<Cell>)
    requires Sound(st, truth) && cell !in truth && clue == |Neighbors(cell, height, width) * truth|
    ensures Sound(Ingest(st, cell, clue, height, width), truth)
  {
    var moved := st.(movesMade := st.movesMade + {cell});
    var marked := ConfirmSafe(moved, cell);
    ConfirmSound(moved, cell, truth);
    WithoutSound(Sentence(Neighbors(cell, height, width), clue), marked.mines, marked.safes, truth);
  }

  /** Observing keeps the invariant. */
  lemma ObserveKeepsInvariant(st: KB, cell: Cell, clue: int, height: int, width: int)
    requires WellFormed(st, height, width)
    ensures WellFormed(Observe(st, cell, clue, height, width), height, width)
  {
    var grown := Ingest(st, cell, clue, height, width);
    IngestKeepsInvariant(st, cell, clue, height, width);
    FixpointKeepsInvariant(grown, height, width);
    DeriveKeepsInvariant(Fixpoint(grown), height, width, {});
  }

  /** Observing a cell that is not a mine, with its true clue (the number of
      mines among its neighbours), keeps a sound state sound. */
  lemma ObserveSound(st: KB, cell: Cell, clue: int, height: int, width: int, truth: set<Cell>)
    requires WellFormed(st, height, width) && Sound(st, truth)
    requires cell !in truth && clue == |Neighbors(cell, height, width) * truth|
    ensures Sound(Observe(st, cell, clue, height, width), truth)
  {
    var grown := Ingest(st, cell, clue, height, width);
    IngestKeepsInvariant(st, cell, clue, height, width);
    IngestSound(st, cell, clue, height, width, truth);
    FixpointSound(grown, truth);
    FixpointKeepsInvariant(grown, height, width);
    DeriveKeepsInvariant(Fixpoint(grown), height, width, truth);
  }

  // ---------------------------------------------------------------------
  // Move selection

  /** Every cell of a `height` x `width` board, row by row, as the nested
      `range` loops enumerate them. */
  function RowMajor(height: int, width: int): (r: seq<Cell>)
    ensures forall c :: c in r <==> InBoard(c, height, width)
    decreases height
  {
    if height <= 0 then [] else RowMajor(height - 1, width) + RowCells(height - 1, width)
  }

  /** Row `row` of the board, left to right. */
  function RowCells(row: int, width: int): (r: seq<Cell>)
    ensures forall c :: c in r <==> c.0 == row && 0 <= c.1 < width
    decreases width
  {
    if width <= 0 then [] else RowCells(row, width - 1) + [(row, width - 1)]
  }

  /** The cells of `cells` that are neither in `moves` nor in `mines`. */
  function Unexplored(cells: seq<Cell>, moves: set<Cell>, mines: set<Cell>): (r: seq<Cell>)
    ensures forall c :: c in r <==> c in cells && c !in moves && c !in mines
  {
    if cells == [] then []
    else (if cells[0] !in moves && cells[0] !in mines then [cells[0]] else [])
         + Unexplored(cells[1..], moves, mines)
  }

  // ---------------------------------------------------------------------
  // Worked examples

  /** The ordered pairs of the example below: only `(a, b)` yields anything. */
  lemma ExamplePairs(a: Sentence, b: Sentence, k: seq<Sentence>)
    requires a == Sentence({(0, 0), (0, 1)}, 1) && b == Sentence({(0, 0), (0, 1), (0, 2)}, 2)
    requires k == [a, b]
    ensures Derivation(k, a, a) == [] && Derivation(k, b, b) == [] && Derivation(k, b, a) == []
    ensures Derivation(k, a, b) == [Sentence({(0, 2)}, 1)]
  {
    assert b.cells - a.cells == {(0, 2)};
    assert (0, 2) in b.cells && (0, 2) !in a.cells;
    assert Sentence({(0, 2)}, 1) != a && Sentence({(0, 2)}, 1) != b;
  }

  /** `{(0,0),(0,1)} = 1` and `{(0,0),(0,1),(0,2)} = 2` derive `{(0,2)} = 1`. */
  lemma SubsetExample()
    ensures Derived([Sentence({(0, 0), (0, 1)}, 1), Sentence({(0, 0), (0, 1), (0, 2)}, 2)])
            == [Sentence({(0, 2)}, 1)]
  {
    var a := Sentence({(0, 0), (0, 1)}, 1);
    var b := Sentence({(0, 0), (0, 1), (0, 2)}, 2);
    var c := Sentence({(0, 2)}, 1);
    var k := [a, b];
    ExamplePairs(a, b, k);
    assert k[0] == a && k[1] == b;
    assert DerivedRow(k, a, 2) == DerivedRow(k, a, 1) + Derivation(k, a, b) == [c];
    assert DerivedRow(k, b, 2) == DerivedRow(k, b, 1) + Derivation(k, b, b) == [];
    assert Derived(k) == DerivedUpTo(k, 1) + DerivedRow(k, b, 2) == [c];
  }

  /** ... and the fixpoint `create_derived_sentences` runs afterwards
      confirms `(0,2)` as a mine. */
  lemma SubsetExampleConfirms()
    ensures (0, 2) in Derive(KB({}, {}, {}, [Sentence({(0, 0), (0, 1)}, 1), Sentence({(0, 0), (0, 1), (0, 2)}, 2)])).mines
  {
    var k := [Sentence({(0, 0), (0, 1)}, 1), Sentence({(0, 0), (0, 1), (0, 2)}, 2)];
    var c := Sentence({(0, 2)}, 1);
    SubsetExample();
    var st := KB({}, {}, {}, k + [c]);
    assert st.knowledge[2] == c;
    IdentifiedInMember(st.knowledge, 2);
    assert (0, 2) in NewMines(st);
    assert (0, 2) in Pass(st).mines;
  }

  /** A sentence `{(1,1)} = 0` confirms `(1,1)` safe on the next fixpoint. */
  lemma TrivialSafeExample()
    ensures (1, 1) in Fixpoint(KB({}, {}, {}, [Sentence({(1, 1)}, 0)])).safes
  {
    var st := KB({}, {}, {}, [Sentence({(1, 1)}, 0)]);
    assert Sentence({(1, 1)}, 0) in st.knowledge;
    assert (1, 1) in NewSafes(st);
    assert (1, 1) in Pass(st).safes;
  }
}
