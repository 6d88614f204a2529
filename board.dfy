/** The board the bot perceives: cells keyed by grid coordinate, the order in
    which the nested row/column dictionary is iterated, and neighbour queries. */
module BoardModel {

  datatype Option<T> = None | Some(value: T)

  /** A grid coordinate (row, column). */
  type Coord = (int, int)

  /** The digit shown on a numbered cell ("1" .. "8"). */
  type Digit = d: int | 1 <= d <= 8 witness 1

  /** The "type" entry of a cell record. A zero-valued revealed cell is `Empty`. */
  datatype Kind = Number(n: Digit) | Closed | Flagged | Empty

  /** A click sent to the game: a right click plants a flag, a left click reveals. */
  datatype Command = Flag(at: Coord) | Reveal(at: Coord)

  /** What a solver does to a batch of cells. */
  datatype Action = Mark | Open

  function Click(a: Action, q: Coord): Command
  {
    match a
    case Mark => Flag(q)
    case Open => Reveal(q)
  }

  /** The clicks issued, in order, when `a` is applied to each cell of `qs`. */
  function Clicks(a: Action, qs: seq<Coord>): (r: seq<Command>)
    ensures |r| == |qs|
    ensures forall i :: 0 <= i < |qs| ==> r[i] == Click(a, qs[i])
  {
    if qs == [] then [] else Clicks(a, qs[..|qs| - 1]) + [Click(a, qs[|qs| - 1])]
  }

  predicate Distinct<T(==)>(s: seq<T>)
  {
    forall i, j :: 0 <= i < j < |s| ==> s[i] != s[j]
  }

  lemma DistinctSnoc<T>(s: seq<T>, x: T)
    requires Distinct(s) && x !in s
    ensures Distinct(s + [x])
  {
  }

  lemma {:induction false} DistinctCard<T>(s: seq<T>)
    requires Distinct(s)
    ensures |Elems(s)| == |s|
  {
    if s != [] {
      DistinctCard(s[1..]);
      var rest := Elems(s[1..]);
      assert Elems(s) == {s[0]} + rest;
      assert s[0] !in rest;
    }
  }

  /** The board dictionary: its row keys in insertion order, each row's column
      keys in insertion order, and the kind of every present cell. */
  datatype Board = Board(rows: seq<int>, cols: map<int, seq<int>>, cells: map<Coord, Kind>)
  {
    /** The shape of a dictionary of dictionaries: keys are unique, every row
        holds at least one cell, and `cells` has exactly the listed keys. */
    ghost predicate Valid()
    {
      && Distinct(rows)
      && (forall r :: r in rows ==> r in cols)
      && (forall r :: r in cols ==> r in rows)
      && (forall r :: r in cols ==> cols[r] != [] && Distinct(cols[r]))
      && (forall p :: p in cells ==> p.0 in cols && p.1 in cols[p.0])
      && (forall r, c :: r in cols && c in cols[r] ==> (r, c) in cells)
    }
  }

  lemma CellPresent(b: Board, r: int, c: int)
    requires b.Valid() && r in b.cols && c in b.cols[r]
    ensures (r, c) in b.cells
  {
  }

  lemma ColsDistinct(b: Board, r: int)
    requires b.Valid() && r in b.cols
    ensures Distinct(b.cols[r])
  {
  }

  /** The cells of one row, in column-key order. */
  function RowCells(r: int, cs: seq<int>): (o: seq<Coord>)
    ensures |o| == |cs|
    ensures forall k :: 0 <= k < |cs| ==> o[k] == (r, cs[k])
  {
    if cs == [] then [] else [(r, cs[0])] + RowCells(r, cs[1..])
  }

  /** Row by row, the cells of the listed rows. */
  function Flatten(rows: seq<int>, cols: map<int, seq<int>>): seq<Coord>
    requires forall r :: r in rows ==> r in cols
  {
    if rows == [] then [] else RowCells(rows[0], cols[rows[0]]) + Flatten(rows[1..], cols)
  }

  /** The order in which `for r, row in board.items(): for c, cell in row.items()` visits cells. */
  function Order(b: Board): seq<Coord>
    requires b.Valid()
  {
    Flatten(b.rows, b.cols)
  }

  lemma {:induction false} FlattenMembers(rows: seq<int>, cols: map<int, seq<int>>)
    requires forall r :: r in rows ==> r in cols
    ensures forall p :: p in Flatten(rows, cols) <==> p.0 in rows && p.0 in cols && p.1 in cols[p.0]
  {
    if rows != [] {
      FlattenMembers(rows[1..], cols);
      forall p ensures p in Flatten(rows, cols) <==> p.0 in rows && p.0 in cols && p.1 in cols[p.0] {
        var row := RowCells(rows[0], cols[rows[0]]);
        assert p in row <==> p.0 == rows[0] && p.1 in cols[rows[0]] by {
          if p in row {
            var k :| 0 <= k < |row| && row[k] == p;
          }
          if p.0 == rows[0] && p.1 in cols[rows[0]] {
            var k :| 0 <= k < |cols[rows[0]]| && cols[rows[0]][k] == p.1;
            assert row[k] == p;
          }
        }
        assert p.0 in rows <==> p.0 == rows[0] || p.0 in rows[1..];
      }
    }
  }

  /** The iteration order visits exactly the cells of the board. */
  lemma OrderIsKeys(b: Board)
    requires b.Valid()
    ensures forall p :: p in Order(b) <==> p in b.cells
  {
    FlattenMembers(b.rows, b.cols);
    forall p ensures p in Order(b) <==> p in b.cells {
      var (r, c) := p;
      if r in b.cols && c in b.cols[r] {
        assert (r, c) in b.cells;
      }
      if p in b.cells {
        assert r in b.cols && c in b.cols[r];
        assert r in b.rows;
      }
    }
  }

  /** Peeling the first listed row off the cells still to visit. */
  lemma FlattenStep(rows: seq<int>, cols: map<int, seq<int>>, i: nat)
    requires forall r :: r in rows ==> r in cols
    requires i < |rows|
    ensures Flatten(rows[i..], cols) == RowCells(rows[i], cols[rows[i]]) + Flatten(rows[i + 1..], cols)
  {
    assert rows[i..][1..] == rows[i + 1..];
  }

  /** Peeling the next cell of a row off the cells still to visit. */
  lemma RowStep(r: int, row: seq<int>, j: nat, tail: seq<Coord>)
    requires j < |row|
    ensures RowCells(r, row[j..]) + tail == [(r, row[j])] + (RowCells(r, row[j + 1..]) + tail)
  {
    assert row[j..][1..] == row[j + 1..];
  }

  /** The eight offsets of the 3x3 block around a cell, the centre left out, in row-major order. */
  const Offsets: seq<(int, int)> := [(-1, -1), (-1, 0), (-1, 1), (0, -1), (0, 1), (1, -1), (1, 0), (1, 1)]

  function Delta(p: Coord, q: Coord): (int, int)
  {
    (q.0 - p.0, q.1 - p.1)
  }

  /** `q` lies in the 3x3 block around `p` and is not `p` itself (Chebyshev distance 1). */
  predicate Adjacent(p: Coord, q: Coord)
  {
    q != p && -1 <= q.0 - p.0 <= 1 && -1 <= q.1 - p.1 <= 1
  }

  predicate RowMajorBefore(p: (int, int), q: (int, int))
  {
    p.0 < q.0 || (p.0 == q.0 && p.1 < q.1)
  }

  /** The present cells among `p` shifted by each offset of `offs`, in the order of `offs`. */
  function Present(cells: map<Coord, Kind>, p: Coord, offs: seq<(int, int)>): (r: seq<Coord>)
    requires forall i, j :: 0 <= i < j < |offs| ==> RowMajorBefore(offs[i], offs[j])
    ensures |r| <= |offs|
    ensures forall q :: q in r <==> q in cells && Delta(p, q) in offs
    ensures forall i, j :: 0 <= i < j < |r| ==> RowMajorBefore(r[i], r[j])
  {
    if offs == [] then []
    else
      var q := (p.0 + offs[0].0, p.1 + offs[0].1);
      var rest := Present(cells, p, offs[1..]);
      assert forall q' :: q' in rest ==> RowMajorBefore(q, q') by {
        forall q' | q' in rest ensures RowMajorBefore(q, q') {
          var k :| 0 <= k < |offs[1..]| && offs[1..][k] == Delta(p, q');
          assert RowMajorBefore(offs[0], offs[k + 1]);
        }
      }
      assert Delta(p, q) == offs[0];
      assert forall q' :: Delta(p, q') in offs <==> Delta(p, q') == offs[0] || Delta(p, q') in offs[1..];
      if q in cells then
        PrependOrdered(q, rest);
        [q] + rest
      else rest
  }

  lemma PrependOrdered(q: Coord, rest: seq<Coord>)
    requires forall i, j :: 0 <= i < j < |rest| ==> RowMajorBefore(rest[i], rest[j])
    requires forall q' :: q' in rest ==> RowMajorBefore(q, q')
    ensures forall i, j :: 0 <= i < j < |[q] + rest| ==> RowMajorBefore(([q] + rest)[i], ([q] + rest)[j])
    ensures forall q' :: q' in [q] + rest <==> q' == q || q' in rest
  {
    var r := [q] + rest;
    forall i, j | 0 <= i < j < |r| ensures RowMajorBefore(r[i], r[j]) {
      assert r[j] == rest[j - 1] && rest[j - 1] in rest;
      if i > 0 {
        assert r[i] == rest[i - 1];
      }
    }
  }

  lemma AdjacentIsOffset(p: Coord, q: Coord)
    ensures Adjacent(p, q) <==> Delta(p, q) in Offsets
  {
  }

  /** `get_neighbors`: the present cells around `p`, in row-major order. */
  function Neighbors(cells: map<Coord, Kind>, p: Coord): (r: seq<Coord>)
    ensures forall q :: q in r <==> q in cells && Adjacent(p, q)
    ensures forall i, j :: 0 <= i < j < |r| ==> RowMajorBefore(r[i], r[j])
    ensures Distinct(r) && |r| <= 8
  {
    forall q ensures Adjacent(p, q) <==> Delta(p, q) in Offsets {
      AdjacentIsOffset(p, q);
    }
    Present(cells, p, Offsets)
  }

  /** The cells of `qs` whose kind is `k`, in the order of `qs`. */
  function OfKind(cells: map<Coord, Kind>, qs: seq<Coord>, k: Kind): (r: seq<Coord>)
    requires forall q :: q in qs ==> q in cells
    ensures forall q :: q in r <==> q in qs && cells[q] == k
    ensures Distinct(qs) ==> Distinct(r)
  {
    if qs == [] then []
    else (if cells[qs[0]] == k then [qs[0]] else []) + OfKind(cells, qs[1..], k)
  }

  /** The closed neighbours of `p`, as the list the solvers iterate. */
  function ClosedNeighbors(cells: map<Coord, Kind>, p: Coord): seq<Coord>
  {
    OfKind(cells, Neighbors(cells, p), Closed)
  }

  function FlaggedNeighbors(cells: map<Coord, Kind>, p: Coord): seq<Coord>
  {
    OfKind(cells, Neighbors(cells, p), Flagged)
  }

  /** The list holds each closed neighbour once: as a set it is `ClosedAround`,
      and its length is that set's size. */
  lemma ClosedCount(cells: map<Coord, Kind>, p: Coord)
    ensures Elems(ClosedNeighbors(cells, p)) == ClosedAround(cells, p)
    ensures |ClosedNeighbors(cells, p)| == |ClosedAround(cells, p)|
  {
    DistinctCard(ClosedNeighbors(cells, p));
  }

  /** The closed cells around `p`, defined from adjacency alone. */
  function ClosedAround(cells: map<Coord, Kind>, p: Coord): set<Coord>
  {
    set q | q in cells && Adjacent(p, q) && cells[q] == Closed
  }

  /** The cells a batch of commands clicks on. */
  function Targets(cmds: seq<Command>): set<Coord>
  {
    set c | c in cmds :: c.at
  }

  /** `cmds` applies action `a` once to every cell of `s` and to nothing else. */
  predicate Emits(cmds: seq<Command>, a: Action, s: set<Coord>)
  {
    && (forall i :: 0 <= i < |cmds| ==> cmds[i] == Click(a, cmds[i].at))
    && (forall i, j :: 0 <= i < j < |cmds| ==> cmds[i].at != cmds[j].at)
    && Targets(cmds) == s
  }

  lemma ClicksEmit(a: Action, qs: seq<Coord>)
    requires Distinct(qs)
    ensures Emits(Clicks(a, qs), a, Elems(qs))
    ensures forall i :: 0 <= i < |qs| ==> Clicks(a, qs)[i].at == qs[i]
  {
    var cmds := Clicks(a, qs);
    forall i | 0 <= i < |qs| ensures cmds[i].at == qs[i] {
      assert cmds[i] == Click(a, qs[i]);
    }
    assert Targets(cmds) == Elems(qs) by {
      forall q | q in qs ensures q in Targets(cmds) {
        var i :| 0 <= i < |qs| && qs[i] == q;
        assert cmds[i] in cmds;
      }
    }
  }

  /** How many mines a numbered cell still has to find: its digit minus its flagged neighbours. */
  function Required(cells: map<Coord, Kind>, p: Coord): int
    requires p in cells && cells[p].Number?
  {
    cells[p].n - |FlaggedNeighbors(cells, p)|
  }

  /** The board after flagging every cell of `s`. */
  function MarkAll(cells: map<Coord, Kind>, s: set<Coord>): map<Coord, Kind>
  {
    map q | q in cells :: if q in s then Flagged else cells[q]
  }

  lemma MarkAllValid(b: Board, s: set<Coord>)
    requires b.Valid()
    ensures b.(cells := MarkAll(b.cells, s)).Valid()
  {
  }

  function Elems<T>(s: seq<T>): set<T>
  {
    set x | x in s
  }

  /** The board after `a` is applied to the cells of `s`: flagging writes
      "flag" into each of them, revealing leaves the board as it was. */
  function AfterClicks(b: Board, a: Action, s: set<Coord>): Board
  {
    if a == Mark then b.(cells := MarkAll(b.cells, s)) else b
  }

  lemma AfterOneMore(b: Board, a: Action, s: set<Coord>, q: Coord)
    requires q in b.cells
    ensures AfterClicks(b, a, s + {q}) ==
      if a == Mark then AfterClicks(b, a, s).(cells := AfterClicks(b, a, s).cells[q := Flagged]) else AfterClicks(b, a, s)
  {
    if a == Mark {
      MarkOneMore(b.cells, s, q);
    }
  }

  lemma ClicksStep(a: Action, qs: seq<Coord>, k: nat)
    requires k < |qs|
    ensures Clicks(a, qs[..k + 1]) == Clicks(a, qs[..k]) + [Click(a, qs[k])]
    ensures Elems(qs[..k + 1]) == Elems(qs[..k]) + {qs[k]}
  {
    assert qs[..k + 1][..k] == qs[..k];
    assert qs[..k + 1] == qs[..k] + [qs[k]];
  }

  lemma MarkOneMore(cells: map<Coord, Kind>, s: set<Coord>, q: Coord)
    requires q in cells
    ensures MarkAll(cells, s)[q := Flagged] == MarkAll(cells, s + {q})
  {
  }
}
