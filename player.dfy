/** The bot's turn loop: the board it last read, the clicks it has sent so
    far, and whether the opening click was made. The solvers scan the board
    and click in place. */
module Player {
  import opened BoardModel
  import opened BoardMerge
  import opened BasicRules
  import opened SubsetRule
  import opened Moves

  class Bot {
    /** The board of the current turn. */
    var board: Board
    /** Every click sent to the game, oldest first. */
    var clicks: seq<Command>
    /** `first_move_made`. */
    var firstMoveMade: bool

    constructor ()
      ensures board == EmptyBoard && clicks == [] && !firstMoveMade
    {
      board := EmptyBoard;
      clicks := [];
      firstMoveMade := false;
    }

    /** Clicks each cell of `qs` in turn with `a`; a right click also writes
        "flag" into that cell. */
    method ClickEach(a: Action, qs: seq<Coord>)
      requires forall q :: q in qs ==> q in board.cells
      modifies this`board, this`clicks
      ensures board == AfterClicks(old(board), a, Elems(qs))
      ensures clicks == old(clicks) + Clicks(a, qs)
    {
      var k := 0;
      while k < |qs|
        invariant 0 <= k <= |qs|
        invariant board == AfterClicks(old(board), a, Elems(qs[..k]))
        invariant clicks == old(clicks) + Clicks(a, qs[..k])
      {
        var q := qs[k];
        ClicksStep(a, qs, k);
        ConcatAssoc(old(clicks), Clicks(a, qs[..k]), [Click(a, q)]);
        AfterOneMore(old(board), a, Elems(qs[..k]), q);
        clicks := clicks + [Click(a, q)];
        if a == Mark {
          board := board.(cells := board.cells[q := Flagged]);
        }
        k := k + 1;
      }
      assert qs[..k] == qs;
    }

    /** Clicks each cell of the set `s` once, in no particular order; a right
        click also writes "flag" into that cell. */
    method ClickSet(a: Action, s: set<Coord>)
      requires forall q :: q in s ==> q in board.cells
      modifies this`board, this`clicks
      ensures board == AfterClicks(old(board), a, s)
      ensures |clicks| >= |old(clicks)| && clicks[..|old(clicks)|] == old(clicks)
      ensures Emits(clicks[|old(clicks)|..], a, s)
    {
      var order := Enumerate(s);
      ClickEach(a, order);
      ClicksEmit(a, order);
      assert clicks[|old(clicks)|..] == Clicks(a, order);
    }

    /** The body of `solve_deterministic`'s inner loop at cell `p`: rule 1,
        then rule 2, each clicking the closed neighbours when it applies. */
    method TryRules(p: Coord) returns (moved: bool)
      requires board.Valid() && p in board.cells
      modifies this`board, this`clicks
      ensures moved == Fires(old(board).cells, p)
      ensures moved ==> board == ActAt(old(board), p).board && clicks == old(clicks) + ActAt(old(board), p).cmds
      ensures !moved ==> board == old(board) && clicks == old(clicks)
    {
      var cells := board.cells;
      if cells[p].Number? {
        var closed := ClosedNeighbors(cells, p);
        var flagged := FlaggedNeighbors(cells, p);
        if |closed| > 0 && |closed| == cells[p].n - |flagged| {
          ClickEach(Mark, closed);
          return true;
        }
        if |closed| > 0 && |flagged| == cells[p].n {
          ClickEach(Open, closed);
          return true;
        }
      }
      return false;
    }

    /** `solve_deterministic`: scans the cells in board order and acts at the
        first numbered cell where rule 1 or rule 2 applies. */
    method SolveDeterministic() returns (moved: bool)
      requires board.Valid()
      modifies this`board, this`clicks
      ensures board == DetStep(old(board)).board
      ensures clicks == old(clicks) + DetStep(old(board)).cmds
      ensures moved == DetStep(old(board)).moved
      ensures board.Valid()
    {
      var b := board;
      DetStepValid(b);
      var i := 0;
      while i < |b.rows|
        invariant 0 <= i <= |b.rows|
        invariant b.Valid()
        invariant FirstFiring(b.cells, Order(b)) == FirstFiring(b.cells, Flatten(b.rows[i..], b.cols))
        invariant board == b && clicks == old(clicks)
      {
        var r := b.rows[i];
        var row := b.cols[r];
        FlattenStep(b.rows, b.cols, i);
        ghost var tail := Flatten(b.rows[i + 1..], b.cols);
        var j := 0;
        while j < |row|
          invariant 0 <= j <= |row|
          invariant b.Valid() && r in b.cols && row == b.cols[r]
          invariant FirstFiring(b.cells, Order(b)) == FirstFiring(b.cells, RowCells(r, row[j..]) + tail)
          invariant board == b && clicks == old(clicks)
        {
          var p := (r, row[j]);
          CellPresent(b, r, row[j]);
          RowStep(r, row, j, tail);
          ScanStep(b.cells, p, RowCells(r, row[j + 1..]) + tail);
          moved := TryRules(p);
          if moved {
            return;
          }
          j := j + 1;
        }
        assert RowCells(r, row[j..]) + tail == tail;
        i := i + 1;
      }
      return false;
    }

    /** The subset rule's clicks for the pair (a, c): the difference of their
        closed neighbourhoods, flagged or revealed by its mine count. */
    method ActOnPair(a: Coord, c: Coord)
      requires board.Valid() && PairFires(board.cells, a, c)
      modifies this`board, this`clicks
      ensures var f := PairFiring(old(board).cells, a, c);
        && board == Apply(old(board), f)
        && |clicks| >= |old(clicks)| && clicks[..|old(clicks)|] == old(clicks)
        && Emits(clicks[|old(clicks)|..], f.action, f.targets)
    {
      var cells := board.cells;
      var diff := Elems(ClosedNeighbors(cells, c)) - Elems(ClosedNeighbors(cells, a));
      var dm := Required(cells, c) - Required(cells, a);
      ClosedCount(cells, a);
      ClosedCount(cells, c);
      if dm == |diff| {
        ClickSet(Mark, diff);
      } else {
        ClickSet(Open, diff);
      }
    }

    /** `solve_advanced_deterministic`: collects the numbered cells in board
        order, then for each of them and each numbered neighbour, in row-major
        order, tries the subset rule and acts on the first pair it decides. */
    method SolveAdvancedDeterministic() returns (moved: bool)
      requires board.Valid()
      modifies this`board, this`clicks
      ensures SubsetStep(old(board)).None? ==> !moved && board == old(board) && clicks == old(clicks)
      ensures SubsetStep(old(board)).Some? ==>
        var f := SubsetStep(old(board)).value;
        && moved && board == Apply(old(board), f)
        && |clicks| >= |old(clicks)| && clicks[..|old(clicks)|] == old(clicks)
        && Emits(clicks[|old(clicks)|..], f.action, f.targets)
      ensures board.Valid()
    {
      var b := board;
      var numbered := CollectNumbered(b);
      NumberedSpec(b);
      var i := 0;
      while i < |numbered|
        invariant 0 <= i <= |numbered|
        invariant FirstPair(b.cells, numbered) == FirstPair(b.cells, numbered[i..])
        invariant board == b && clicks == old(clicks)
      {
        var a := numbered[i];
        PairStep(b.cells, numbered, i);
        var partner := FindPartner(b.cells, numbered, a);
        if partner.Some? {
          SubsetStepAt(b, a, partner.value);
          MarkAllValid(b, SubsetStep(b).value.targets);
          ActOnPair(a, partner.value);
          return true;
        }
        i := i + 1;
      }
      return false;
    }

    /** `make_random_move`: a left click on the first closed cell, if any. */
    method MakeRandomMove() returns (moved: bool)
      requires board.Valid()
      modifies this`clicks
      ensures moved <==> Guess(board).Some?
      ensures clicks == old(clicks) + if moved then [Reveal(Guess(board).value)] else []
    {
      var g := Guess(board);
      if g.Some? {
        clicks := clicks + [Reveal(g.value)];
        moved := true;
      } else {
        moved := false;
      }
    }

    /** The opening click, at the centre of the board. */
    method OpeningMove()
      requires board.Valid() && board.rows != []
      modifies this`clicks, this`firstMoveMade
      ensures clicks == old(clicks) + [Reveal(OpeningCell(board).value)]
      ensures firstMoveMade
    {
      var centre := OpeningCell(board).value;
      clicks := clicks + [Reveal(centre)];
      firstMoveMade := true;
    }

    /** One pass of the main loop on the detections read from a screenshot. */
    method Turn(dets: seq<Detection>)
      modifies this
      ensures board.Valid()
      ensures TurnOutcome(MergeAll(dets), old(firstMoveMade), board, old(clicks), clicks, firstMoveMade)
    {
      board := BuildBoard(dets);
      Play();
    }

    /** The rest of the pass, on the board just built: skip the turn if it is
        empty; make the opening click if none was made yet; otherwise try
        rules 1 and 2, then the subset rule, then a guess, and stop at the
        first that acts. */
    method Play()
      requires board.Valid()
      modifies this
      ensures board.Valid()
      ensures TurnOutcome(old(board), old(firstMoveMade), board, old(clicks), clicks, firstMoveMade)
    {
      if board.rows == [] {
        return;
      }
      if !firstMoveMade {
        OpeningMove();
        return;
      }
      RunSolvers();
    }

    /** The solver chain after the opening click: rules 1 and 2, then the
        subset rule, then a guess, stopping at the first that acts. */
    method RunSolvers()
      requires board.Valid()
      modifies this`board, this`clicks
      ensures board.Valid()
      ensures SolverOutcome(old(board), board, old(clicks), clicks)
    {
      ghost var b := board;
      DetStepNoMove(b);
      var moved := SolveDeterministic();
      if moved {
        return;
      }
      moved := SolveAdvancedDeterministic();
      if moved {
        return;
      }
      moved := MakeRandomMove();
    }
  }

  /** What one pass of the main loop does with the board `b` it has built,
      given whether the opening click was made (`first`): the board it leaves
      (`board'`), the clicks it appends to `before` (giving `after`) and
      whether the opening click has been made afterwards (`first'`). */
  predicate TurnOutcome(b: Board, first: bool, board': Board, before: seq<Command>, after: seq<Command>, first': bool)
    requires b.Valid()
  {
    && |after| >= |before| && after[..|before|] == before
    && first' == (first || b.rows != [])
    && (b.rows == [] ==> board' == b && after == before)
    && (b.rows != [] && !first ==> board' == b && after == before + [Reveal(OpeningCell(b).value)])
    && (b.rows != [] && first ==> SolverOutcome(b, board', before, after))
  }

  /** What the solver chain does with board `b`: the first of rules 1 and 2,
      the subset rule and the guess that acts decides the board it leaves and
      the clicks it appends to `before`. */
  predicate SolverOutcome(b: Board, board': Board, before: seq<Command>, after: seq<Command>)
    requires b.Valid()
  {
    && |after| >= |before| && after[..|before|] == before
    && if DetStep(b).moved then
         board' == DetStep(b).board && after == before + DetStep(b).cmds
       else if SubsetStep(b).Some? then
         board' == Apply(b, SubsetStep(b).value) && Emits(after[|before|..], SubsetStep(b).value.action, SubsetStep(b).value.targets)
       else
         board' == b && after == before + if Guess(b).Some? then [Reveal(Guess(b).value)] else []
  }

  /** After the opening click, a pass clicks at least once exactly when some
      cell is still closed: with a closed cell left, one of the two solvers or
      the guess acts; with none, no rule applies and there is nothing to
      guess. */
  lemma TurnProgress(b: Board, board': Board, before: seq<Command>, after: seq<Command>, first': bool)
    requires b.Valid() && b.rows != [] && TurnOutcome(b, true, board', before, after, first')
    ensures |after| > |before| <==> exists p :: p in b.cells && b.cells[p] == Closed
  {
    GuessSpec(b);
    DetStepNoMove(b);
    if DetStep(b).moved {
      var p := FirstFiring(b.cells, Order(b)).value;
      DetStepFirst(b, p);
      ClosedCount(b.cells, p);
      var q :| q in ClosedNeighbors(b.cells, p);
      assert q in b.cells && b.cells[q] == Closed;
      assert |DetStep(b).cmds| == |ClosedNeighbors(b.cells, p)|;
    } else if SubsetStep(b).Some? {
      var f := SubsetStep(b).value;
      SubsetStepFires(b);
      var q :| q in f.targets;
      assert q in b.cells && b.cells[q] == Closed;
      var cmds := after[|before|..];
      assert q in Targets(cmds);
      assert |after| > |before|;
    } else {
      SubsetStepNone(b);
      if exists p :: p in b.cells && b.cells[p] == Closed {
        assert Guess(b).Some?;
      } else {
        assert Guess(b).None?;
      }
    }
  }

  /** The cells of `s` in the order a set iteration yields them, which is not
      defined: each cell once, in some order. */
  method Enumerate(s: set<Coord>) returns (qs: seq<Coord>)
    ensures Distinct(qs) && Elems(qs) == s
  {
    qs := [];
    var rest := s;
    while rest != {}
      decreases |rest|
      invariant rest <= s && Distinct(qs) && Elems(qs) == s - rest
    {
      var q :| q in rest;
      DistinctSnoc(qs, q);
      assert Elems(qs + [q]) == Elems(qs) + {q};
      qs := qs + [q];
      rest := rest - {q};
    }
  }

  /** The inner loop of `solve_advanced_deterministic` for cell A: the first
      neighbour B, in row-major order, with which A meets the subset rule. */
  method FindPartner(cells: map<Coord, Kind>, numbered: seq<Coord>, a: Coord) returns (partner: Option<Coord>)
    requires forall q :: q in numbered <==> q in cells && cells[q].Number?
    requires a in numbered
    ensures partner == FirstPartner(cells, a, Neighbors(cells, a))
  {
    var u1 := Elems(ClosedNeighbors(cells, a));
    var ns := Neighbors(cells, a);
    ClosedCount(cells, a);
    if u1 == {} {
      NoPartnerWithoutClosed(cells, a, ns);
      return None;
    }
    var m1 := Required(cells, a);
    var j := 0;
    while j < |ns|
      invariant 0 <= j <= |ns|
      invariant FirstPartner(cells, a, ns) == FirstPartner(cells, a, ns[j..])
    {
      PartnerStep(cells, a, ns, j);
      var fires := TestPair(cells, numbered, a, u1, m1, ns[j]);
      if fires {
        return Some(ns[j]);
      }
      j := j + 1;
    }
    return None;
  }

  /** One iteration of that inner loop: the tests made on the pair (A, B),
      given A's closed neighbours `u1` and the mines `m1` A still has to find. */
  method TestPair(cells: map<Coord, Kind>, numbered: seq<Coord>, a: Coord, u1: set<Coord>, m1: int, c: Coord)
    returns (fires: bool)
    requires forall q :: q in numbered <==> q in cells && cells[q].Number?
    requires a in cells && cells[a].Number?
    requires u1 == ClosedAround(cells, a) && u1 != {} && m1 == Required(cells, a)
    ensures fires == PairFires(cells, a, c)
  {
    if c in numbered {
      var u2 := Elems(ClosedNeighbors(cells, c));
      ClosedCount(cells, c);
      if u2 != {} {
        var m2 := Required(cells, c);
        if u1 <= u2 {
          var diff := u2 - u1;
          var dm := m2 - m1;
          if |diff| > 0 && (dm == |diff| || dm == 0) {
            IsAPair(cells, a, c);
            return true;
          }
        }
      }
    }
    NotAPair(cells, a, c);
    return false;
  }

  lemma ConcatAssoc<T>(x: seq<T>, y: seq<T>, z: seq<T>)
    ensures x + (y + z) == (x + y) + z
  {
  }

  /** The numbered-cell collection loop of `solve_advanced_deterministic`. */
  method CollectNumbered(b: Board) returns (numbered: seq<Coord>)
    requires b.Valid()
    ensures numbered == Numbered(b)
  {
    numbered := [];
    var i := 0;
    while i < |b.rows|
      invariant 0 <= i <= |b.rows|
      invariant Numbered(b) == numbered + NumberedIn(b.cells, Flatten(b.rows[i..], b.cols))
    {
      var r := b.rows[i];
      var row := b.cols[r];
      FlattenStep(b.rows, b.cols, i);
      ghost var tail := Flatten(b.rows[i + 1..], b.cols);
      var j := 0;
      while j < |row|
        invariant 0 <= j <= |row|
        invariant Numbered(b) == numbered + NumberedIn(b.cells, RowCells(r, row[j..]) + tail)
      {
        var p := (r, row[j]);
        CellPresent(b, r, row[j]);
        RowStep(r, row, j, tail);
        ghost var rest := RowCells(r, row[j + 1..]) + tail;
        NumberedStep(b.cells, p, rest);
        if b.cells[p].Number? {
          ConcatAssoc(numbered, [p], NumberedIn(b.cells, rest));
          numbered := numbered + [p];
        } else {
          assert [] + NumberedIn(b.cells, rest) == NumberedIn(b.cells, rest);
        }
        j := j + 1;
      }
      assert RowCells(r, row[j..]) + tail == tail;
      i := i + 1;
    }
  }
}
