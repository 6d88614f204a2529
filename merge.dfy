/** The merge loop of `build_board`: template detections, already mapped to
    grid coordinates, are folded into the nested board dictionary one at a
    time; a detection replaces the stored cell only when its priority is
    strictly higher. */
module BoardMerge {
  import opened BoardModel

  /** The template a detection matched ("1" .. "8", "closed",
      "empty_zero_revealed", "flag"). */
  datatype Tile = NumberTile(d: Digit) | ClosedTile | EmptyZeroRevealed | FlagTile

  /** One template match, already rounded to its grid coordinate. */
  datatype Detection = Detection(row: int, col: int, tile: Tile)

  /** The "type" stored for a detection: "empty_zero_revealed" is stored as "empty". */
  function StoredKind(t: Tile): Kind
  {
    match t
    case NumberTile(d) => Number(d)
    case ClosedTile => Closed
    case EmptyZeroRevealed => Empty
    case FlagTile => Flagged
  }

  /** `priority[cell_type]` for an incoming detection. */
  function TilePriority(t: Tile): int
  {
    match t
    case NumberTile(_) => 9
    case FlagTile => 7
    case EmptyZeroRevealed => 5
    case ClosedTile => 1
  }

  /** `priority.get(stored_type, 0)` for a stored cell: "empty" is not a key of
      the priority table, so a stored empty cell has priority 0. */
  function StoredPriority(k: Kind): int
  {
    match k
    case Number(_) => 9
    case Flagged => 7
    case Empty => 0
    case Closed => 1
  }

  predicate At(d: Detection, p: Coord)
  {
    d.row == p.0 && d.col == p.1
  }

  const EmptyBoard := Board([], map[], map[])

  /** One iteration of the merge loop. */
  function Insert(b: Board, d: Detection): (r: Board)
    requires b.Valid()
    ensures r.Valid()
    ensures r.cells.Keys == b.cells.Keys + {(d.row, d.col)}
    ensures forall q :: q in b.cells && q != (d.row, d.col) ==> r.cells[q] == b.cells[q]
    ensures r.rows == if d.row in b.cols then b.rows else b.rows + [d.row]
    ensures r.cols == if (d.row, d.col) in b.cells then b.cols
      else b.cols[d.row := if d.row in b.cols then b.cols[d.row] + [d.col] else [d.col]]
  {
    var p := (d.row, d.col);
    if p in b.cells then
      if TilePriority(d.tile) > StoredPriority(b.cells[p]) then b.(cells := b.cells[p := StoredKind(d.tile)]) else b
    else
      AddCell(b, p, StoredKind(d.tile))
  }

  /** A coordinate seen for the first time: its row key is appended if new,
      then its column key is appended to that row. */
  function AddCell(b: Board, p: Coord, k: Kind): (r: Board)
    requires b.Valid() && p !in b.cells
    ensures r.Valid()
    ensures r.cells == b.cells[p := k]
    ensures r.rows == if p.0 in b.cols then b.rows else b.rows + [p.0]
    ensures r.cols == b.cols[p.0 := if p.0 in b.cols then b.cols[p.0] + [p.1] else [p.1]]
  {
    if p.0 in b.cols then
      AddToRowValid(b, p, k);
      Board(b.rows, b.cols[p.0 := b.cols[p.0] + [p.1]], b.cells[p := k])
    else
      AddRowValid(b, p, k);
      Board(b.rows + [p.0], b.cols[p.0 := [p.1]], b.cells[p := k])
  }

  lemma AddToRowValid(b: Board, p: Coord, k: Kind)
    requires b.Valid() && p !in b.cells && p.0 in b.cols
    ensures Board(b.rows, b.cols[p.0 := b.cols[p.0] + [p.1]], b.cells[p := k]).Valid()
  {
    var r := Board(b.rows, b.cols[p.0 := b.cols[p.0] + [p.1]], b.cells[p := k]);
    ColsDistinct(b, p.0);
    assert p.1 !in b.cols[p.0] by {
      var (x, y) := p;
      assert y in b.cols[x] ==> (x, y) in b.cells;
    }
    DistinctSnoc(b.cols[p.0], p.1);
    assert forall q :: q in r.cells ==> q == p || q in b.cells;
  }

  lemma AddRowValid(b: Board, p: Coord, k: Kind)
    requires b.Valid() && p !in b.cells && p.0 !in b.cols
    ensures Board(b.rows + [p.0], b.cols[p.0 := [p.1]], b.cells[p := k]).Valid()
  {
    var r := Board(b.rows + [p.0], b.cols[p.0 := [p.1]], b.cells[p := k]);
    assert p.0 !in b.rows by {
      assert forall x :: x in b.rows ==> x in b.cols;
    }
    DistinctSnoc(b.rows, p.0);
    assert forall x :: x in r.rows <==> x in b.rows || x == p.0;
    assert forall q :: q in r.cells ==> q == p || q in b.cells;
  }

  /** The coordinates the detections map to. */
  function Coords(dets: seq<Detection>): set<Coord>
  {
    set d | d in dets :: (d.row, d.col)
  }

  /** The board after the merge loop has consumed `dets`. */
  function MergeAll(dets: seq<Detection>): (b: Board)
    ensures b.Valid()
    ensures b.cells.Keys == Coords(dets)
  {
    if dets == [] then EmptyBoard
    else
      var prefix := dets[..|dets| - 1];
      var last := dets[|dets| - 1];
      CoordsSnoc(prefix, last);
      assert prefix + [last] == dets;
      Insert(MergeAll(prefix), last)
  }

  lemma CoordsSnoc(prefix: seq<Detection>, last: Detection)
    ensures Coords(prefix + [last]) == Coords(prefix) + {(last.row, last.col)}
  {
    var dets := prefix + [last];
    assert forall d :: d in dets <==> d in prefix || d == last;
  }

  /** The distinct elements of `s`, each kept where it first occurs. */
  function KeepFirst(s: seq<int>): seq<int>
  {
    if s == [] then []
    else
      var init := s[..|s| - 1];
      KeepFirst(init) + if s[|s| - 1] in init then [] else [s[|s| - 1]]
  }

  lemma KeepFirstSnoc(s: seq<int>, x: int)
    ensures KeepFirst(s + [x]) == KeepFirst(s) + if x in s then [] else [x]
  {
    assert (s + [x])[..|s|] == s;
  }

  /** The row of every detection, in detection order. */
  function RowsOf(dets: seq<Detection>): seq<int>
  {
    if dets == [] then [] else RowsOf(dets[..|dets| - 1]) + [dets[|dets| - 1].row]
  }

  /** The column of every detection on row `r`, in detection order. */
  function ColsOf(dets: seq<Detection>, r: int): seq<int>
  {
    if dets == [] then []
    else ColsOf(dets[..|dets| - 1], r) + if dets[|dets| - 1].row == r then [dets[|dets| - 1].col] else []
  }

  /** `b`'s keys come in the order `dets` first shows them: its row keys are
      the rows in order of first appearance, each row's column keys the
      columns detected on that row in order of first appearance. */
  ghost predicate OrderedBy(b: Board, dets: seq<Detection>)
  {
    RowOrder(b, dets) && ColOrder(b, dets) && RowKeys(b, dets) && CellKeys(b, dets)
  }

  ghost predicate RowOrder(b: Board, dets: seq<Detection>)
  {
    b.rows == KeepFirst(RowsOf(dets))
  }

  ghost predicate ColOrder(b: Board, dets: seq<Detection>)
  {
    forall r :: r in b.cols ==> b.cols[r] == KeepFirst(ColsOf(dets, r))
  }

  ghost predicate RowKeys(b: Board, dets: seq<Detection>)
  {
    forall r :: r in RowsOf(dets) <==> r in b.cols
  }

  ghost predicate CellKeys(b: Board, dets: seq<Detection>)
  {
    forall p :: p in b.cells <==> p.1 in ColsOf(dets, p.0)
  }

  /** The order the solvers scan the merged board in is the order in which
      the detections first show each row and each cell. */
  lemma {:induction false} MergeOrder(dets: seq<Detection>)
    ensures OrderedBy(MergeAll(dets), dets)
  {
    if dets != [] {
      var prefix := dets[..|dets| - 1];
      MergeOrder(prefix);
      InsertRowOrder(MergeAll(prefix), dets);
      InsertRowKeys(MergeAll(prefix), dets);
      InsertCellKeys(MergeAll(prefix), dets);
      InsertColOrder(MergeAll(prefix), dets);
    }
  }

  lemma InsertRowOrder(b: Board, dets: seq<Detection>)
    requires dets != [] && b.Valid()
    requires RowOrder(b, dets[..|dets| - 1]) && RowKeys(b, dets[..|dets| - 1])
    ensures RowOrder(Insert(b, dets[|dets| - 1]), dets)
  {
    KeepFirstSnoc(RowsOf(dets[..|dets| - 1]), dets[|dets| - 1].row);
  }

  lemma InsertRowKeys(b: Board, dets: seq<Detection>)
    requires dets != [] && b.Valid() && RowKeys(b, dets[..|dets| - 1])
    ensures RowKeys(Insert(b, dets[|dets| - 1]), dets)
  {
  }

  lemma InsertCellKeys(b: Board, dets: seq<Detection>)
    requires dets != [] && b.Valid() && CellKeys(b, dets[..|dets| - 1])
    ensures CellKeys(Insert(b, dets[|dets| - 1]), dets)
  {
    var prefix := dets[..|dets| - 1];
    var last := dets[|dets| - 1];
    forall p ensures p in Insert(b, last).cells <==> p.1 in ColsOf(dets, p.0) {
      assert ColsOf(dets, p.0) == ColsOf(prefix, p.0) + if last.row == p.0 then [last.col] else [];
      assert p.1 in ColsOf(prefix, p.0) + (if last.row == p.0 then [last.col] else []) <==>
        p.1 in ColsOf(prefix, p.0) || p == (last.row, last.col);
    }
  }

  lemma InsertColOrder(b: Board, dets: seq<Detection>)
    requires dets != [] && b.Valid()
    requires ColOrder(b, dets[..|dets| - 1]) && CellKeys(b, dets[..|dets| - 1])
    ensures ColOrder(Insert(b, dets[|dets| - 1]), dets)
  {
    var n := Insert(b, dets[|dets| - 1]);
    forall r | r in n.cols ensures n.cols[r] == KeepFirst(ColsOf(dets, r)) {
      InsertColOrderAt(b, dets, r);
    }
  }

  lemma InsertColOrderAt(b: Board, dets: seq<Detection>, r: int)
    requires dets != [] && b.Valid()
    requires ColOrder(b, dets[..|dets| - 1]) && CellKeys(b, dets[..|dets| - 1])
    requires r in Insert(b, dets[|dets| - 1]).cols
    ensures Insert(b, dets[|dets| - 1]).cols[r] == KeepFirst(ColsOf(dets, r))
  {
    var prefix := dets[..|dets| - 1];
    var last := dets[|dets| - 1];
    var n := Insert(b, last);
    var s := ColsOf(prefix, r);
    assert ColsOf(dets, r) == s + if last.row == r then [last.col] else [];
    if r != last.row {
      assert n.cols[r] == b.cols[r];
      assert s + [] == s;
    } else if (r, last.col) in b.cells {
      assert n.cols == b.cols;
      assert last.col in s;
      KeepFirstSnoc(s, last.col);
    } else if r in b.cols {
      assert n.cols[r] == b.cols[r] + [last.col];
      assert last.col !in s;
      KeepFirstSnoc(s, last.col);
    } else {
      assert n.cols[r] == [last.col];
      NoColsOff(b, prefix, r);
      KeepFirstSnoc(s, last.col);
    }
  }

  lemma NoColsOff(b: Board, prefix: seq<Detection>, r: int)
    requires b.Valid()
    requires CellKeys(b, prefix)
    ensures r !in b.cols ==> ColsOf(prefix, r) == []
  {
    var s := ColsOf(prefix, r);
    if s != [] {
      assert s[0] in ColsOf(prefix, r);
      assert (r, s[0]) in b.cells;
      assert r in b.cols;
    }
  }

  /** `build_board`'s merge loop over detections. */
  method BuildBoard(dets: seq<Detection>) returns (board: Board)
    ensures board == MergeAll(dets)
    ensures board.Valid()
    ensures forall p :: Lookup(board.cells, p) == Resolved(dets, p)
  {
    board := EmptyBoard;
    var i := 0;
    while i < |dets|
      invariant 0 <= i <= |dets|
      invariant board == MergeAll(dets[..i])
    {
      MergeAllStep(dets, i);
      board := Insert(board, dets[i]);
      i := i + 1;
    }
    assert dets[..i] == dets;
    MergeResolvedAll(dets);
  }

  lemma MergeAllStep(dets: seq<Detection>, i: nat)
    requires i < |dets|
    ensures MergeAll(dets[..i + 1]) == Insert(MergeAll(dets[..i]), dets[i])
  {
    assert dets[..i + 1][..i] == dets[..i];
  }

  lemma MergeResolvedAll(dets: seq<Detection>)
    ensures forall p :: Lookup(MergeAll(dets).cells, p) == Resolved(dets, p)
  {
    forall p ensures Lookup(MergeAll(dets).cells, p) == Resolved(dets, p) {
      MergeResolved(dets, p);
    }
  }

  // A reference definition of the cell kind the merge settles on, independent of priorities.

  /** The digit of the first numbered detection at `p`, if any. */
  function FirstNumberAt(dets: seq<Detection>, p: Coord): Option<Digit>
  {
    if dets == [] then None
    else
      var last := dets[|dets| - 1];
      var earlier := FirstNumberAt(dets[..|dets| - 1], p);
      if earlier.Some? then earlier
      else if At(last, p) && last.tile.NumberTile? then Some(last.tile.d)
      else None
  }

  /** Whether some detection at `p` is a flag. */
  predicate FlaggedAt(dets: seq<Detection>, p: Coord)
  {
    && dets != []
    && (FlaggedAt(dets[..|dets| - 1], p) || (At(dets[|dets| - 1], p) && dets[|dets| - 1].tile == FlagTile))
  }

  /** The tile of the last detection at `p`, if any. */
  function LastTileAt(dets: seq<Detection>, p: Coord): Option<Tile>
  {
    if dets == [] then None
    else if At(dets[|dets| - 1], p) then Some(dets[|dets| - 1].tile)
    else LastTileAt(dets[..|dets| - 1], p)
  }

  /** The kind a cell settles on, given the last tile detected there, the
      first digit detected there and whether a flag was detected there. */
  function Reference(last: Option<Tile>, num: Option<Digit>, flagged: bool): Option<Kind>
  {
    match last
    case None => None
    case Some(t) =>
      Some(if num.Some? then Number(num.value) else if flagged then Flagged else StoredKind(t))
  }

  /** What the board holds at `p` after merging `dets`: nothing if no detection
      is at `p`; otherwise the first digit detected there; failing that a flag if
      one was detected there; failing that the last detection there, so that a
      later "closed" replaces an earlier "empty". */
  function Resolved(dets: seq<Detection>, p: Coord): Option<Kind>
  {
    Reference(LastTileAt(dets, p), FirstNumberAt(dets, p), FlaggedAt(dets, p))
  }

  lemma {:induction false} LastTileFacts(dets: seq<Detection>, p: Coord)
    ensures LastTileAt(dets, p).None? ==> FirstNumberAt(dets, p).None? && !FlaggedAt(dets, p)
    ensures LastTileAt(dets, p) == Some(FlagTile) ==> FlaggedAt(dets, p)
    ensures LastTileAt(dets, p).Some? && LastTileAt(dets, p).value.NumberTile? ==> FirstNumberAt(dets, p).Some?
  {
    if dets != [] {
      LastTileFacts(dets[..|dets| - 1], p);
    }
  }

  function Lookup(cells: map<Coord, Kind>, p: Coord): Option<Kind>
  {
    if p in cells then Some(cells[p]) else None
  }

  /** One overwrite decision of the merge loop on the stored entry `stored`. */
  function Settle(stored: Option<Kind>, t: Tile): Option<Kind>
  {
    if stored.None? || TilePriority(t) > StoredPriority(stored.value) then Some(StoredKind(t)) else stored
  }

  /** One overwrite decision agrees with the reference: if the stored entry is
      the reference kind before a detection `t` arrives, the priority comparison
      yields the reference kind after it. */
  lemma SettleStep(stored: Option<Kind>, t: Tile, last: Option<Tile>, num: Option<Digit>, flagged: bool)
    requires last.None? ==> num.None? && !flagged
    requires last == Some(FlagTile) ==> flagged
    requires last.Some? && last.value.NumberTile? ==> num.Some?
    requires stored == Reference(last, num, flagged)
    ensures Settle(stored, t) ==
      Reference(Some(t), if num.Some? then num else if t.NumberTile? then Some(t.d) else None, flagged || t == FlagTile)
  {
  }

  /** The priority merge settles every cell on the reference kind. */
  lemma {:induction false} MergeResolved(dets: seq<Detection>, p: Coord)
    ensures Resolved(dets, p) == Lookup(MergeAll(dets).cells, p)
  {
    if dets != [] {
      MergeResolved(dets[..|dets| - 1], p);
      if At(dets[|dets| - 1], p) {
        MergeResolvedHere(dets, p);
      } else {
        MergeResolvedElsewhere(dets, p);
      }
    }
  }

  /** A detection elsewhere changes neither the reference kind at `p` nor the board there. */
  lemma MergeResolvedElsewhere(dets: seq<Detection>, p: Coord)
    requires dets != [] && !At(dets[|dets| - 1], p)
    ensures Resolved(dets, p) == Resolved(dets[..|dets| - 1], p)
    ensures Lookup(MergeAll(dets).cells, p) == Lookup(MergeAll(dets[..|dets| - 1]).cells, p)
  {
    var prefix := dets[..|dets| - 1];
    assert LastTileAt(dets, p) == LastTileAt(prefix, p);
    assert FirstNumberAt(dets, p) == FirstNumberAt(prefix, p);
    assert FlaggedAt(dets, p) == FlaggedAt(prefix, p);
    var b := MergeAll(prefix);
    assert MergeAll(dets) == Insert(b, dets[|dets| - 1]);
    InsertLookup(b, dets[|dets| - 1], p);
  }

  /** A detection at `p` moves the board and the reference kind there in step. */
  lemma MergeResolvedHere(dets: seq<Detection>, p: Coord)
    requires dets != [] && At(dets[|dets| - 1], p)
    requires Resolved(dets[..|dets| - 1], p) == Lookup(MergeAll(dets[..|dets| - 1]).cells, p)
    ensures Resolved(dets, p) == Lookup(MergeAll(dets).cells, p)
  {
    var prefix := dets[..|dets| - 1];
    var x := dets[|dets| - 1];
    var num := FirstNumberAt(prefix, p);
    var flagged := FlaggedAt(prefix, p);
    assert LastTileAt(dets, p) == Some(x.tile);
    assert FirstNumberAt(dets, p) == if num.Some? then num else if x.tile.NumberTile? then Some(x.tile.d) else None;
    assert FlaggedAt(dets, p) == (flagged || x.tile == FlagTile);
    var b := MergeAll(prefix);
    assert MergeAll(dets) == Insert(b, x);
    InsertLookup(b, x, p);
    LastTileFacts(prefix, p);
    SettleStep(Lookup(b.cells, p), x.tile, LastTileAt(prefix, p), num, flagged);
  }

  /** What one merge iteration leaves at `p`. */
  lemma InsertLookup(b: Board, x: Detection, p: Coord)
    requires b.Valid()
    ensures Lookup(Insert(b, x).cells, p) == if At(x, p) then Settle(Lookup(b.cells, p), x.tile) else Lookup(b.cells, p)
  {
  }
}
