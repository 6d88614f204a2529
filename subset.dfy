/** `solve_advanced_deterministic`: the subset rule over ordered pairs of
    adjacent numbered cells (A, B). When A's closed neighbours are a subset of
    B's, the cells B has in excess hold exactly r(B) - r(A) mines. */
module SubsetRule {
  import opened BoardModel
  import opened BasicRules

  /** `mines_to_find2 - mines_to_find1`. */
  function DiffMines(cells: map<Coord, Kind>, a: Coord, c: Coord): int
    requires a in cells && cells[a].Number? && c in cells && cells[c].Number?
  {
    Required(cells, c) - Required(cells, a)
  }

  /** The pair (a, c) acts: both are numbered with closed neighbours, a's closed
      neighbours are a subset of c's, the difference is not empty, and its mine
      count is either all of it or none of it. */
  predicate PairFires(cells: map<Coord, Kind>, a: Coord, c: Coord)
  {
    && a in cells && cells[a].Number? && c in cells && cells[c].Number?
    && ClosedAround(cells, a) != {} && ClosedAround(cells, c) != {}
    && ClosedAround(cells, a) <= ClosedAround(cells, c)
    && |ClosedAround(cells, c) - ClosedAround(cells, a)| > 0
    && (DiffMines(cells, a, c) == |ClosedAround(cells, c) - ClosedAround(cells, a)| || DiffMines(cells, a, c) == 0)
  }

  /** The first cell of `ns` that acts together with `a`. */
  function FirstPartner(cells: map<Coord, Kind>, a: Coord, ns: seq<Coord>): Option<Coord>
  {
    if ns == [] then None
    else if PairFires(cells, a, ns[0]) then Some(ns[0])
    else FirstPartner(cells, a, ns[1..])
  }

  /** The first pair, scanning `numbered` and, for each, its neighbours. */
  function FirstPair(cells: map<Coord, Kind>, numbered: seq<Coord>): Option<(Coord, Coord)>
  {
    if numbered == [] then None
    else match FirstPartner(cells, numbered[0], Neighbors(cells, numbered[0]))
      case Some(c) => Some((numbered[0], c))
      case None => FirstPair(cells, numbered[1..])
  }

  /** A partner found is a neighbour that acts with `a`. */
  lemma {:induction false} FirstPartnerFires(cells: map<Coord, Kind>, a: Coord, ns: seq<Coord>)
    ensures FirstPartner(cells, a, ns).Some? ==>
      PairFires(cells, a, FirstPartner(cells, a, ns).value) && FirstPartner(cells, a, ns).value in ns
  {
    if ns != [] && !PairFires(cells, a, ns[0]) {
      FirstPartnerFires(cells, a, ns[1..]);
    }
  }

  /** A pair found acts: A is one of `numbered` and B is one of its neighbours. */
  lemma {:induction false} FirstPairFires(cells: map<Coord, Kind>, numbered: seq<Coord>)
    ensures FirstPair(cells, numbered).Some? ==>
      var (a, c) := FirstPair(cells, numbered).value;
      PairFires(cells, a, c) && a in numbered && c in Neighbors(cells, a)
  {
    if numbered != [] {
      var a := numbered[0];
      FirstPartnerFires(cells, a, Neighbors(cells, a));
      if FirstPartner(cells, a, Neighbors(cells, a)).None? {
        FirstPairFires(cells, numbered[1..]);
      }
    }
  }

  /** The keys of `numbered_cells`: the numbered cells of `order`, in that order. */
  function NumberedIn(cells: map<Coord, Kind>, order: seq<Coord>): (r: seq<Coord>)
    ensures forall q :: q in r <==> q in order && q in cells && cells[q].Number?
  {
    if order == [] then []
    else (if order[0] in cells && cells[order[0]].Number? then [order[0]] else []) + NumberedIn(cells, order[1..])
  }

  lemma NumberedStep(cells: map<Coord, Kind>, p: Coord, rest: seq<Coord>)
    ensures NumberedIn(cells, [p] + rest) == (if p in cells && cells[p].Number? then [p] else []) + NumberedIn(cells, rest)
  {
    assert ([p] + rest)[1..] == rest;
  }

  function Numbered(b: Board): seq<Coord>
    requires b.Valid()
  {
    NumberedIn(b.cells, Order(b))
  }

  /** `numbered_cells` holds exactly the numbered cells of the board. */
  lemma NumberedSpec(b: Board)
    requires b.Valid()
    ensures forall q :: q in Numbered(b) <==> q in b.cells && b.cells[q].Number?
  {
    OrderIsKeys(b);
  }

  /** What a firing pair does: the action and the cells it is applied to. */
  datatype Firing = Firing(a: Coord, c: Coord, action: Action, targets: set<Coord>)

  /** The pair `solve_advanced_deterministic` acts on, if any, and what it does. */
  function SubsetStep(b: Board): Option<Firing>
    requires b.Valid()
  {
    FirstPairFires(b.cells, Numbered(b));
    match FirstPair(b.cells, Numbered(b))
    case None => None
    case Some((a, c)) => Some(PairFiring(b.cells, a, c))
  }

  /** What the pair (a, c) does: it targets the cells closed around c but not
      around a, flagging them when they hold as many mines as there are of
      them and revealing them otherwise. */
  function PairFiring(cells: map<Coord, Kind>, a: Coord, c: Coord): Firing
    requires a in cells && cells[a].Number? && c in cells && cells[c].Number?
  {
    var diff := ClosedAround(cells, c) - ClosedAround(cells, a);
    Firing(a, c, if DiffMines(cells, a, c) == |diff| then Mark else Open, diff)
  }

  /** The board after a firing: flagging writes "flag" into the targets,
      revealing leaves the board as it was. */
  function Apply(b: Board, f: Firing): Board
  {
    AfterClicks(b, f.action, f.targets)
  }

  /** Passing all of the inner loop's tests, the pair acts. */
  lemma IsAPair(cells: map<Coord, Kind>, a: Coord, c: Coord)
    requires a in cells && cells[a].Number? && ClosedAround(cells, a) != {}
    requires c in cells && cells[c].Number? && ClosedAround(cells, c) != {} && ClosedAround(cells, a) <= ClosedAround(cells, c)
    requires |ClosedAround(cells, c) - ClosedAround(cells, a)| > 0
    requires Required(cells, c) - Required(cells, a) == |ClosedAround(cells, c) - ClosedAround(cells, a)|
             || Required(cells, c) - Required(cells, a) == 0
    ensures PairFires(cells, a, c)
  {
  }

  /** Failing any one of the inner loop's tests, the pair does not act. */
  lemma NotAPair(cells: map<Coord, Kind>, a: Coord, c: Coord)
    requires a in cells && cells[a].Number?
    requires || !(c in cells && cells[c].Number?)
             || ClosedAround(cells, c) == {}
             || !(ClosedAround(cells, a) <= ClosedAround(cells, c))
             || !(|ClosedAround(cells, c) - ClosedAround(cells, a)| > 0 &&
                  (Required(cells, c) - Required(cells, a) == |ClosedAround(cells, c) - ClosedAround(cells, a)|
                   || Required(cells, c) - Required(cells, a) == 0))
    ensures !PairFires(cells, a, c)
  {
  }

  lemma PartnerStep(cells: map<Coord, Kind>, a: Coord, ns: seq<Coord>, j: nat)
    requires j < |ns|
    ensures FirstPartner(cells, a, ns[j..]) ==
      if PairFires(cells, a, ns[j]) then Some(ns[j]) else FirstPartner(cells, a, ns[j + 1..])
  {
    assert ns[j..][1..] == ns[j + 1..];
  }

  lemma PairStep(cells: map<Coord, Kind>, numbered: seq<Coord>, i: nat)
    requires i < |numbered|
    ensures FirstPartner(cells, numbered[i], Neighbors(cells, numbered[i])).Some? ==>
      FirstPair(cells, numbered[i..]) == Some((numbered[i], FirstPartner(cells, numbered[i], Neighbors(cells, numbered[i])).value))
    ensures FirstPartner(cells, numbered[i], Neighbors(cells, numbered[i])).None? ==>
      FirstPair(cells, numbered[i..]) == FirstPair(cells, numbered[i + 1..])
  {
    assert numbered[i..][1..] == numbered[i + 1..];
  }

  /** What `solve_advanced_deterministic` does once it has found the pair that acts. */
  lemma SubsetStepAt(b: Board, a: Coord, c: Coord)
    requires b.Valid() && FirstPair(b.cells, Numbered(b)) == Some((a, c))
    ensures PairFires(b.cells, a, c)
    ensures SubsetStep(b) == Some(PairFiring(b.cells, a, c))
  {
    FirstPairFires(b.cells, Numbered(b));
  }

  lemma {:induction false} FirstPartnerNone(cells: map<Coord, Kind>, a: Coord, ns: seq<Coord>)
    ensures FirstPartner(cells, a, ns).None? <==> forall c :: c in ns ==> !PairFires(cells, a, c)
  {
    if ns != [] && !PairFires(cells, a, ns[0]) {
      FirstPartnerNone(cells, a, ns[1..]);
      assert forall c :: c in ns <==> c == ns[0] || c in ns[1..];
    }
  }

  lemma {:induction false} FirstPairNone(cells: map<Coord, Kind>, numbered: seq<Coord>)
    ensures FirstPair(cells, numbered).None? <==>
      forall a, c :: a in numbered && c in Neighbors(cells, a) ==> !PairFires(cells, a, c)
  {
    if numbered != [] {
      var a := numbered[0];
      var ns := Neighbors(cells, a);
      FirstPartnerNone(cells, a, ns);
      if FirstPartner(cells, a, ns).None? {
        FirstPairNone(cells, numbered[1..]);
        assert forall x :: x in numbered <==> x == a || x in numbered[1..];
      } else {
        var c := FirstPartner(cells, a, ns).value;
        FirstPartnerFires(cells, a, ns);
        assert a in numbered && c in ns && PairFires(cells, a, c);
      }
    }
  }

  /** Returning False: no ordered pair of adjacent cells meets the subset rule's
      condition; and conversely. */
  lemma SubsetStepNone(b: Board)
    requires b.Valid()
    ensures SubsetStep(b).None? <==>
      forall a, c :: a in b.cells && c in b.cells && Adjacent(a, c) ==> !PairFires(b.cells, a, c)
  {
    OrderIsKeys(b);
    var numbered := Numbered(b);
    FirstPairNone(b.cells, numbered);
    if SubsetStep(b).None? {
      forall a, c | a in b.cells && c in b.cells && Adjacent(a, c) ensures !PairFires(b.cells, a, c) {
        if b.cells[a].Number? {
          var i :| 0 <= i < |numbered| && numbered[i] == a;
          assert c in Neighbors(b.cells, numbered[i]);
        }
      }
    }
  }

  /** The subset rule acts only when A's closed cells are a subset of B's and
      the difference is not empty; it targets exactly the difference; it flags
      when the difference holds as many mines as it has cells and otherwise
      reveals, which it does only when the difference holds no mine. */
  lemma SubsetStepFires(b: Board)
    requires b.Valid() && SubsetStep(b).Some?
    ensures var f := SubsetStep(b).value;
      && f.a in b.cells && b.cells[f.a].Number? && f.c in b.cells && b.cells[f.c].Number?
      && Adjacent(f.a, f.c)
      && ClosedAround(b.cells, f.a) != {}
      && ClosedAround(b.cells, f.a) <= ClosedAround(b.cells, f.c)
      && f.targets == ClosedAround(b.cells, f.c) - ClosedAround(b.cells, f.a) && f.targets != {}
      && (f.action == Mark <==> DiffMines(b.cells, f.a, f.c) == |f.targets|)
      && (f.action == Open ==> DiffMines(b.cells, f.a, f.c) == 0)
  {
    var f := SubsetStep(b).value;
    FirstPairFires(b.cells, Numbered(b));
    ClosedCount(b.cells, f.a);
    ClosedCount(b.cells, f.c);
  }

  /** Every cell the subset rule clicks was closed before the call and is a
      neighbour of B. */
  lemma SubsetTargetsClosed(b: Board)
    requires b.Valid() && SubsetStep(b).Some?
    ensures forall q :: q in SubsetStep(b).value.targets ==>
      q in b.cells && b.cells[q] == Closed && Adjacent(SubsetStep(b).value.c, q)
  {
    var f := SubsetStep(b).value;
    ClosedCount(b.cells, f.c);
  }

  /** The counting argument behind the subset rule: if U1 holds m1 mines and its
      superset U2 holds m2, the difference holds m2 - m1; so it is all mines when
      that equals its size and all safe when that is 0. */
  lemma SubsetSound(u1: set<Coord>, u2: set<Coord>, m1: int, m2: int, mines: set<Coord>)
    requires u1 <= u2
    requires |mines * u1| == m1 && |mines * u2| == m2
    ensures |mines * (u2 - u1)| == m2 - m1
    ensures m2 - m1 == |u2 - u1| ==> u2 - u1 <= mines
    ensures m2 - m1 == 0 ==> (u2 - u1) * mines == {}
  {
    var d := u2 - u1;
    assert mines * u2 == (mines * u1) + (mines * d);
    assert (mines * u1) * (mines * d) == {};
    if m2 - m1 == |d| {
      FullSubset(mines * d, d);
    }
    if m2 - m1 == 0 {
      assert |mines * d| == 0;
      assert d * mines == mines * d;
    }
  }

  /** What the subset rule clicks is right under every mine placement that
      agrees with both cells of the pair. */
  lemma SubsetStepSound(b: Board, mines: set<Coord>)
    requires b.Valid() && SubsetStep(b).Some?
    requires var f := SubsetStep(b).value;
      f.a in b.cells && b.cells[f.a].Number? && f.c in b.cells && b.cells[f.c].Number? &&
      Agrees(b.cells, mines, f.a) && Agrees(b.cells, mines, f.c)
    ensures SubsetStep(b).value.action == Mark ==> SubsetStep(b).value.targets <= mines
    ensures SubsetStep(b).value.action == Open ==> SubsetStep(b).value.targets * mines == {}
  {
    var f := SubsetStep(b).value;
    SubsetStepFires(b);
    SubsetSound(ClosedAround(b.cells, f.a), ClosedAround(b.cells, f.c),
                Required(b.cells, f.a), Required(b.cells, f.c), mines);
  }

  /** Cells with no closed neighbour are skipped: they act with no partner. */
  lemma {:induction false} NoPartnerWithoutClosed(cells: map<Coord, Kind>, a: Coord, ns: seq<Coord>)
    requires ClosedAround(cells, a) == {}
    ensures FirstPartner(cells, a, ns) == None
  {
    if ns != [] {
      NoPartnerWithoutClosed(cells, a, ns[1..]);
    }
  }

  /** In a row-major sorted neighbour list, no cell before the first partner acts. */
  lemma {:induction false} FirstPartnerSome(cells: map<Coord, Kind>, a: Coord, ns: seq<Coord>, c: Coord)
    requires forall i, j :: 0 <= i < j < |ns| ==> RowMajorBefore(ns[i], ns[j])
    requires FirstPartner(cells, a, ns) == Some(c)
    ensures forall c' :: c' in ns && RowMajorBefore(c', c) ==> !PairFires(cells, a, c')
  {
    var rest := ns[1..];
    if PairFires(cells, a, ns[0]) {
      forall c' | c' in ns ensures !RowMajorBefore(c', ns[0]) {
        var k :| 0 <= k < |ns| && ns[k] == c';
        if k > 0 {
          assert RowMajorBefore(ns[0], ns[k]);
        }
      }
    } else {
      assert forall i, j :: 0 <= i < j < |rest| ==> RowMajorBefore(rest[i], rest[j]) by {
        forall i, j | 0 <= i < j < |rest| ensures RowMajorBefore(rest[i], rest[j]) {
          assert rest[i] == ns[i + 1] && rest[j] == ns[j + 1];
        }
      }
      FirstPartnerSome(cells, a, rest, c);
      assert forall c' :: c' in ns <==> c' == ns[0] || c' in rest;
    }
  }

  /** Where the scan over numbered cells stops: at A, after cells that have no partner. */
  lemma {:induction false} FirstPairSome(cells: map<Coord, Kind>, numbered: seq<Coord>, a: Coord, c: Coord)
    requires FirstPair(cells, numbered) == Some((a, c))
    ensures FirstPartner(cells, a, Neighbors(cells, a)) == Some(c)
    ensures exists i :: (0 <= i < |numbered| && numbered[i] == a &&
      forall j :: 0 <= j < i ==> FirstPartner(cells, numbered[j], Neighbors(cells, numbered[j])).None?)
  {
    var x := numbered[0];
    if FirstPartner(cells, x, Neighbors(cells, x)).Some? {
      assert numbered[0] == a;
    } else {
      var rest := numbered[1..];
      assert FirstPair(cells, numbered) == FirstPair(cells, rest);
      FirstPairSome(cells, rest, a, c);
      var i :| 0 <= i < |rest| && rest[i] == a &&
        forall j :: 0 <= j < i ==> FirstPartner(cells, rest[j], Neighbors(cells, rest[j])).None?;
      assert numbered[i + 1] == a;
      forall j | 0 < j < i + 1 ensures FirstPartner(cells, numbered[j], Neighbors(cells, numbered[j])).None? {
        assert numbered[j] == rest[j - 1];
      }
    }
  }

  /** The pair that acts is the first in scan order: A is the first numbered
      cell, in board order, that has a partner ... */
  lemma SubsetStepFirstCell(b: Board, f: Firing)
    requires b.Valid() && SubsetStep(b) == Some(f)
    ensures exists i :: (0 <= i < |Numbered(b)| && Numbered(b)[i] == f.a &&
      forall j, c :: 0 <= j < i && c in b.cells && Adjacent(Numbered(b)[j], c) ==> !PairFires(b.cells, Numbered(b)[j], c))
  {
    SubsetStepPair(b, f);
    FirstCellScan(b.cells, Numbered(b), f.a, f.c);
  }

  /** ... and B is A's first partner in row-major order. */
  lemma SubsetStepFirstPartner(b: Board, f: Firing)
    requires b.Valid() && SubsetStep(b) == Some(f)
    ensures forall c :: c in b.cells && Adjacent(f.a, c) && RowMajorBefore(c, f.c) ==> !PairFires(b.cells, f.a, c)
  {
    SubsetStepPair(b, f);
    FirstPairSome(b.cells, Numbered(b), f.a, f.c);
    FirstPartnerSome(b.cells, f.a, Neighbors(b.cells, f.a), f.c);
  }

  lemma SubsetStepPair(b: Board, f: Firing)
    requires b.Valid() && SubsetStep(b) == Some(f)
    ensures FirstPair(b.cells, Numbered(b)) == Some((f.a, f.c))
  {
    var pr := FirstPair(b.cells, Numbered(b)).value;
    assert f.a == pr.0 && f.c == pr.1;
  }

  lemma FirstCellScan(cells: map<Coord, Kind>, ns: seq<Coord>, a: Coord, c: Coord)
    requires FirstPair(cells, ns) == Some((a, c))
    ensures exists i :: (0 <= i < |ns| && ns[i] == a &&
      forall j, c' :: 0 <= j < i && c' in cells && Adjacent(ns[j], c') ==> !PairFires(cells, ns[j], c'))
  {
    FirstPairSome(cells, ns, a, c);
    var i :| 0 <= i < |ns| && ns[i] == a &&
      forall j :: 0 <= j < i ==> FirstPartner(cells, ns[j], Neighbors(cells, ns[j])).None?;
    forall j, c' | 0 <= j < i && c' in cells && Adjacent(ns[j], c') ensures !PairFires(cells, ns[j], c') {
      FirstPartnerNone(cells, ns[j], Neighbors(cells, ns[j]));
      assert c' in Neighbors(cells, ns[j]);
    }
  }
}
