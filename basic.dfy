/** `solve_deterministic`: the two local completion rules, tried on the
    numbered cells in board order; the first cell where one applies acts. */
module BasicRules {
  import opened BoardModel

  /** Rule 1: the closed neighbours are exactly the mines still to be found. */
  predicate FlagRule(cells: map<Coord, Kind>, p: Coord)
  {
    && p in cells && cells[p].Number?
    && |ClosedNeighbors(cells, p)| > 0
    && |ClosedNeighbors(cells, p)| == cells[p].n - |FlaggedNeighbors(cells, p)|
  }

  /** Rule 2: every mine around the cell is already flagged. */
  predicate RevealRule(cells: map<Coord, Kind>, p: Coord)
  {
    && p in cells && cells[p].Number?
    && |ClosedNeighbors(cells, p)| > 0
    && |FlaggedNeighbors(cells, p)| == cells[p].n
  }

  predicate Fires(cells: map<Coord, Kind>, p: Coord)
  {
    FlagRule(cells, p) || RevealRule(cells, p)
  }

  /** The first cell of `order` at which a rule applies. */
  function FirstFiring(cells: map<Coord, Kind>, order: seq<Coord>): Option<Coord>
  {
    if order == [] then None
    else if Fires(cells, order[0]) then Some(order[0])
    else FirstFiring(cells, order[1..])
  }

  /** The board a solver hands back, the clicks it sent, and whether it acted. */
  datatype Outcome = Outcome(board: Board, cmds: seq<Command>, moved: bool)

  /** One call of `solve_deterministic`. */
  function DetStep(b: Board): Outcome
    requires b.Valid()
  {
    match FirstFiring(b.cells, Order(b))
    case None => Outcome(b, [], false)
    case Some(p) => ActAt(b, p)
  }

  /** What the cell `p` does once a rule applies there: rule 1 flags its closed
      neighbours, and otherwise rule 2 reveals them, one click each in
      neighbour order. */
  function ActAt(b: Board, p: Coord): Outcome
  {
    var closed := ClosedNeighbors(b.cells, p);
    var a := if FlagRule(b.cells, p) then Mark else Open;
    Outcome(AfterClicks(b, a, Elems(closed)), Clicks(a, closed), true)
  }

  lemma {:induction false} FirstFiringNone(cells: map<Coord, Kind>, order: seq<Coord>)
    ensures FirstFiring(cells, order).None? <==> forall i :: 0 <= i < |order| ==> !Fires(cells, order[i])
  {
    if order != [] && !Fires(cells, order[0]) {
      FirstFiringNone(cells, order[1..]);
      assert forall i :: 0 < i < |order| ==> order[i] == order[1..][i - 1];
    }
  }

  lemma {:induction false} FirstFiringSome(cells: map<Coord, Kind>, order: seq<Coord>, p: Coord)
    requires FirstFiring(cells, order) == Some(p)
    ensures Fires(cells, p)
    ensures exists i :: 0 <= i < |order| && order[i] == p && (forall j :: 0 <= j < i ==> !Fires(cells, order[j]))
  {
    if Fires(cells, order[0]) {
      assert order[0] == p;
    } else {
      FirstFiringSome(cells, order[1..], p);
      var i :| 0 <= i < |order[1..]| && order[1..][i] == p && (forall j :: 0 <= j < i ==> !Fires(cells, order[1..][j]));
      assert forall j :: 0 < j < |order| ==> order[j] == order[1..][j - 1];
      assert order[i + 1] == p;
    }
  }

  /** The cell that acts is the first cell, in board order, where a rule applies. */
  lemma DetStepFirst(b: Board, p: Coord)
    requires b.Valid() && FirstFiring(b.cells, Order(b)) == Some(p)
    ensures DetStep(b).moved
    ensures p in b.cells && b.cells[p].Number? && Fires(b.cells, p)
    ensures exists i :: 0 <= i < |Order(b)| && Order(b)[i] == p && forall j :: 0 <= j < i ==> !Fires(b.cells, Order(b)[j])
  {
    FirstFiringSome(b.cells, Order(b), p);
  }

  lemma ScanStep(cells: map<Coord, Kind>, p: Coord, rest: seq<Coord>)
    ensures FirstFiring(cells, [p] + rest) == if Fires(cells, p) then Some(p) else FirstFiring(cells, rest)
  {
    assert ([p] + rest)[1..] == rest;
  }

  lemma DetStepValid(b: Board)
    requires b.Valid()
    ensures DetStep(b).board.Valid()
  {
    if FirstFiring(b.cells, Order(b)).Some? {
      MarkAllValid(b, Elems(ClosedNeighbors(b.cells, FirstFiring(b.cells, Order(b)).value)));
    }
  }

  /** Returning False: nothing changed, nothing was clicked, and no numbered
      cell meets the condition of either rule; and conversely. */
  lemma DetStepNoMove(b: Board)
    requires b.Valid()
    ensures !DetStep(b).moved <==> forall p :: p in b.cells ==> !FlagRule(b.cells, p) && !RevealRule(b.cells, p)
    ensures !DetStep(b).moved ==> DetStep(b).board == b && DetStep(b).cmds == []
  {
    if DetStep(b).moved {
      var p := FirstFiring(b.cells, Order(b)).value;
      FirstFiringSome(b.cells, Order(b), p);
      assert p in b.cells && Fires(b.cells, p);
    } else {
      FirstFiringNone(b.cells, Order(b));
      OrderIsKeys(b);
      forall p | p in b.cells ensures !FlagRule(b.cells, p) && !RevealRule(b.cells, p) {
        var i :| 0 <= i < |Order(b)| && Order(b)[i] == p;
        assert !Fires(b.cells, Order(b)[i]);
      }
    }
  }

  /** Rule 1 acting: every closed neighbour becomes flagged, no other cell
      changes, and each of them and nothing else gets one flag click, in
      row-major order. */
  lemma DetStepFlags(b: Board, p: Coord)
    requires b.Valid() && FirstFiring(b.cells, Order(b)) == Some(p) && FlagRule(b.cells, p)
    ensures DetStep(b).moved
    ensures DetStep(b).board.Valid()
    ensures DetStep(b).board.rows == b.rows && DetStep(b).board.cols == b.cols
    ensures DetStep(b).board.cells.Keys == b.cells.Keys
    ensures forall q :: q in b.cells ==>
      DetStep(b).board.cells[q] == if Adjacent(p, q) && b.cells[q] == Closed then Flagged else b.cells[q]
    ensures Emits(DetStep(b).cmds, Mark, ClosedAround(b.cells, p))
    ensures forall i, j :: 0 <= i < j < |DetStep(b).cmds| ==> RowMajorBefore(DetStep(b).cmds[i].at, DetStep(b).cmds[j].at)
  {
    assert DetStep(b) == ActAt(b, p);
    FlagClosedAround(b, p);
    ClosedCount(b.cells, p);
    ClicksInOrder(Mark, b.cells, p);
  }

  lemma FlagClosedAround(b: Board, p: Coord)
    requires b.Valid()
    ensures var b' := AfterClicks(b, Mark, Elems(ClosedNeighbors(b.cells, p)));
      && b'.Valid() && b'.rows == b.rows && b'.cols == b.cols && b'.cells.Keys == b.cells.Keys
      && forall q :: q in b.cells ==> b'.cells[q] == if Adjacent(p, q) && b.cells[q] == Closed then Flagged else b.cells[q]
  {
    MarkAllValid(b, Elems(ClosedNeighbors(b.cells, p)));
    ClosedCount(b.cells, p);
  }

  /** Rule 2 acting (rule 1 did not apply there): the board is unchanged and
      each closed neighbour and nothing else gets one reveal click, in
      row-major order. */
  lemma DetStepReveals(b: Board, p: Coord)
    requires b.Valid() && FirstFiring(b.cells, Order(b)) == Some(p) && !FlagRule(b.cells, p)
    ensures RevealRule(b.cells, p)
    ensures DetStep(b).moved && DetStep(b).board == b
    ensures Emits(DetStep(b).cmds, Open, ClosedAround(b.cells, p))
    ensures forall i, j :: 0 <= i < j < |DetStep(b).cmds| ==> RowMajorBefore(DetStep(b).cmds[i].at, DetStep(b).cmds[j].at)
  {
    FirstFiringSome(b.cells, Order(b), p);
    ClosedCount(b.cells, p);
    ClicksInOrder(Open, b.cells, p);
  }

  lemma ClicksInOrder(a: Action, cells: map<Coord, Kind>, p: Coord)
    ensures Emits(Clicks(a, ClosedNeighbors(cells, p)), a, Elems(ClosedNeighbors(cells, p)))
    ensures forall i, j :: 0 <= i < j < |ClosedNeighbors(cells, p)| ==>
      RowMajorBefore(Clicks(a, ClosedNeighbors(cells, p))[i].at, Clicks(a, ClosedNeighbors(cells, p))[j].at)
  {
    var qs := ClosedNeighbors(cells, p);
    ClicksEmit(a, qs);
    SubsequenceOrdered(cells, Neighbors(cells, p), Closed);
  }

  lemma {:induction false} SubsequenceOrdered(cells: map<Coord, Kind>, qs: seq<Coord>, k: Kind)
    requires forall q :: q in qs ==> q in cells
    requires forall i, j :: 0 <= i < j < |qs| ==> RowMajorBefore(qs[i], qs[j])
    ensures forall i, j :: 0 <= i < j < |OfKind(cells, qs, k)| ==> RowMajorBefore(OfKind(cells, qs, k)[i], OfKind(cells, qs, k)[j])
  {
    if qs != [] {
      SubsequenceOrdered(cells, qs[1..], k);
      var rest := OfKind(cells, qs[1..], k);
      forall q | q in rest ensures RowMajorBefore(qs[0], q) {
        var j :| 0 <= j < |qs[1..]| && qs[1..][j] == q;
        assert qs[j + 1] == q;
      }
    }
  }

  /** Every click either rule sends goes to a cell that was closed before the
      call: a flagged or numbered cell is never clicked. */
  lemma DetStepTargetsClosed(b: Board)
    requires b.Valid()
    ensures forall c :: c in DetStep(b).cmds ==> c.at in b.cells && b.cells[c.at] == Closed
  {
    if DetStep(b).moved {
      var p := FirstFiring(b.cells, Order(b)).value;
      ClosedCount(b.cells, p);
      ClicksInOrder(Mark, b.cells, p);
      ClicksInOrder(Open, b.cells, p);
      forall c | c in DetStep(b).cmds ensures c.at in b.cells && b.cells[c.at] == Closed {
        assert c.at in Targets(DetStep(b).cmds);
      }
    }
  }

  /** A mine placement agrees with numbered cell `p` when the closed cells around
      `p` hold exactly as many mines as `p` still requires. */
  ghost predicate Agrees(cells: map<Coord, Kind>, mines: set<Coord>, p: Coord)
    requires p in cells && cells[p].Number?
  {
    |mines * ClosedAround(cells, p)| == Required(cells, p)
  }

  /** Both rules are sound: under every agreeing mine placement, rule 1's cells
      are all mines and rule 2's cells are all safe. */
  lemma RulesSound(cells: map<Coord, Kind>, p: Coord, mines: set<Coord>)
    requires p in cells && cells[p].Number? && Agrees(cells, mines, p)
    ensures FlagRule(cells, p) ==> ClosedAround(cells, p) <= mines
    ensures RevealRule(cells, p) ==> ClosedAround(cells, p) * mines == {}
  {
    ClosedCount(cells, p);
    var s := ClosedAround(cells, p);
    if FlagRule(cells, p) {
      assert |mines * s| == |s|;
      FullSubset(mines * s, s);
    }
  }

  lemma FullSubset<T>(a: set<T>, b: set<T>)
    requires a <= b && |a| == |b|
    ensures a == b
  {
    assert b == a + (b - a);
    assert |b - a| == 0;
  }

  /** What `solve_deterministic` clicks is right under every mine placement that
      agrees with the cell that acted: flagged cells are mines, revealed cells
      are safe. */
  lemma DetStepSound(b: Board, mines: set<Coord>)
    requires b.Valid() && FirstFiring(b.cells, Order(b)).Some?
    requires var p := FirstFiring(b.cells, Order(b)).value;
      p in b.cells && b.cells[p].Number? && Agrees(b.cells, mines, p)
    ensures forall c :: c in DetStep(b).cmds ==> (c.Flag? ==> c.at in mines) && (c.Reveal? ==> c.at !in mines)
  {
    var p := FirstFiring(b.cells, Order(b)).value;
    FirstFiringSome(b.cells, Order(b), p);
    RulesSound(b.cells, p, mines);
    ClosedCount(b.cells, p);
    var a := if FlagRule(b.cells, p) then Mark else Open;
    assert DetStep(b).cmds == Clicks(a, ClosedNeighbors(b.cells, p));
    ClicksInOrder(a, b.cells, p);
    EmitsSound(DetStep(b).cmds, a, ClosedAround(b.cells, p), mines);
  }

  lemma EmitsSound(cmds: seq<Command>, a: Action, s: set<Coord>, mines: set<Coord>)
    requires Emits(cmds, a, s)
    requires a == Mark ==> s <= mines
    requires a == Open ==> s * mines == {}
    ensures forall c :: c in cmds ==> (c.Flag? ==> c.at in mines) && (c.Reveal? ==> c.at !in mines)
  {
    forall c | c in cmds ensures (c.Flag? ==> c.at in mines) && (c.Reveal? ==> c.at !in mines) {
      var i :| 0 <= i < |cmds| && cmds[i] == c;
      assert c == Click(a, c.at);
      assert c.at in Targets(cmds);
      if a == Open {
        assert c.at !in s * mines;
      }
    }
  }
}
