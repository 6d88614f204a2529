/** The two moves that are not deductions: the opening click at the centre of
    the board and the guess made when no rule applies. */
module Moves {
  import opened BoardModel

  predicate Increasing(s: seq<int>)
  {
    forall i, j :: 0 <= i < j < |s| ==> s[i] < s[j]
  }

  /** `x` placed into the increasing sequence `s`. */
  function InsertSorted(x: int, s: seq<int>): (r: seq<int>)
    requires Increasing(s) && x !in s
    ensures Increasing(r)
    ensures forall y :: y in r <==> y == x || y in s
    ensures |r| == |s| + 1
  {
    if s == [] || x < s[0] then
      assert forall y :: y in s ==> x < y by {
        forall y | y in s ensures x < y {
          var k :| 0 <= k < |s| && s[k] == y;
          assert s[0] <= s[k];
        }
      }
      PrependIncreasing(x, s);
      [x] + s
    else
      var rest := InsertSorted(x, s[1..]);
      assert forall y :: y in rest ==> s[0] < y by {
        forall y | y in rest ensures s[0] < y {
          if y in s[1..] {
            var k :| 0 <= k < |s[1..]| && s[1..][k] == y;
            assert s[k + 1] == y;
          }
        }
      }
      PrependIncreasing(s[0], rest);
      assert forall y :: y in s <==> y == s[0] || y in s[1..];
      [s[0]] + rest
  }

  lemma PrependIncreasing(x: int, s: seq<int>)
    requires Increasing(s) && forall y :: y in s ==> x < y
    ensures Increasing([x] + s)
  {
    var r := [x] + s;
    forall i, j | 0 <= i < j < |r| ensures r[i] < r[j] {
      assert r[j] == s[j - 1] && s[j - 1] in s;
      if i > 0 {
        assert r[i] == s[i - 1];
      }
    }
  }

  /** `sorted(keys)` for a list of distinct keys. */
  function Sort(s: seq<int>): (r: seq<int>)
    requires Distinct(s)
    ensures Increasing(r)
    ensures forall y :: y in r <==> y in s
    ensures |r| == |s|
  {
    if s == [] then []
    else
      assert s[0] !in s[1..] by {
        assert forall k :: 0 <= k < |s[1..]| ==> s[1..][k] == s[k + 1];
      }
      InsertSorted(s[0], Sort(s[1..]))
  }

  /** `sorted(keys)[len(keys) // 2]`. */
  function Median(s: seq<int>): int
    requires Distinct(s) && s != []
  {
    Sort(s)[|s| / 2]
  }

  /** The k-th key in sorted order has exactly k keys below it. */
  lemma SortRank(s: seq<int>, k: nat)
    requires Distinct(s) && k < |s|
    ensures Sort(s)[k] in s
    ensures |set y | y in s && y < Sort(s)[k]| == k
  {
    var t := Sort(s);
    assert t[k] in t;
    RankIncreasing(t, k);
    assert (set y | y in s && y < t[k]) == set y | y in t && y < t[k];
  }

  lemma RankIncreasing(t: seq<int>, k: nat)
    requires Increasing(t) && k < |t|
    ensures |set y | y in t && y < t[k]| == k
  {
    var below := set y | y in t && y < t[k];
    forall y | y in below ensures y in t[..k] {
      var m :| 0 <= m < |t| && t[m] == y;
      assert t[..k][m] == y;
    }
    forall y | y in t[..k] ensures y in below {
      var m :| 0 <= m < k && t[..k][m] == y;
      assert t[m] < t[k];
    }
    assert below == set y | y in t[..k];
    DistinctCard(t[..k]);
  }

  /** The centre cell of the opening click: the middle row key and, within
      that row, the middle column key. */
  function OpeningCell(b: Board): Option<Coord>
    requires b.Valid()
  {
    if b.rows == [] then None
    else
      var r := Median(b.rows);
      Some((r, Median(b.cols[r])))
  }

  /** The opening click exists exactly when the board is not empty; it lands on
      a present cell whose row has as many row keys below it as
      `len(keys) // 2`, and likewise for its column within the row. */
  lemma OpeningCellSpec(b: Board)
    requires b.Valid()
    ensures OpeningCell(b).None? <==> b.cells == map[]
    ensures OpeningCell(b).Some? ==>
      var (r, c) := OpeningCell(b).value;
      && (r, c) in b.cells && r in b.rows && c in b.cols[r]
      && |set y | y in b.rows && y < r| == |b.rows| / 2
      && |set y | y in b.cols[r] && y < c| == |b.cols[r]| / 2
  {
    if b.cells != map[] {
      var p :| p in b.cells;
      var (r, c) := p;
      assert r in b.cols;
      assert r in b.rows;
    }
    if b.rows != [] {
      var r := Median(b.rows);
      SortRank(b.rows, |b.rows| / 2);
      var c := Median(b.cols[r]);
      SortRank(b.cols[r], |b.cols[r]| / 2);
      assert (r, c) in b.cells;
    }
  }

  /** The first closed cell of `order`. */
  function FirstClosedIn(cells: map<Coord, Kind>, order: seq<Coord>): Option<Coord>
    requires forall q :: q in order ==> q in cells
  {
    if order == [] then None
    else if cells[order[0]] == Closed then Some(order[0])
    else FirstClosedIn(cells, order[1..])
  }

  lemma {:induction false} FirstClosedInSpec(cells: map<Coord, Kind>, order: seq<Coord>)
    requires forall q :: q in order ==> q in cells
    ensures FirstClosedIn(cells, order).None? <==> forall i :: 0 <= i < |order| ==> cells[order[i]] != Closed
    ensures FirstClosedIn(cells, order).Some? ==>
      exists i :: (0 <= i < |order| && order[i] == FirstClosedIn(cells, order).value && cells[order[i]] == Closed &&
        forall j :: 0 <= j < i ==> cells[order[j]] != Closed)
  {
    if order != [] && cells[order[0]] != Closed {
      var rest := order[1..];
      FirstClosedInSpec(cells, rest);
      assert forall i :: 0 < i < |order| ==> order[i] == rest[i - 1];
      if FirstClosedIn(cells, rest).Some? {
        var i :| (0 <= i < |rest| && rest[i] == FirstClosedIn(cells, rest).value && cells[rest[i]] == Closed &&
          forall j :: 0 <= j < i ==> cells[rest[j]] != Closed);
        assert order[i + 1] == rest[i];
      }
    }
  }

  /** `make_random_move`'s choice: the first closed cell in board order. */
  function Guess(b: Board): Option<Coord>
    requires b.Valid()
  {
    OrderIsKeys(b);
    FirstClosedIn(b.cells, Order(b))
  }

  /** There is a guess exactly when some cell is closed; the guess is closed
      and no cell before it in board order is. */
  lemma GuessSpec(b: Board)
    requires b.Valid()
    ensures forall j :: 0 <= j < |Order(b)| ==> Order(b)[j] in b.cells
    ensures Guess(b).None? <==> forall p :: p in b.cells ==> b.cells[p] != Closed
    ensures Guess(b).Some? ==> Guess(b).value in b.cells && b.cells[Guess(b).value] == Closed
    ensures Guess(b).Some? ==>
      exists i :: (0 <= i < |Order(b)| && Order(b)[i] == Guess(b).value &&
        forall j :: 0 <= j < i ==> b.cells[Order(b)[j]] != Closed)
  {
    OrderIsKeys(b);
    var order := Order(b);
    FirstClosedInSpec(b.cells, order);
    if Guess(b).None? {
      forall p | p in b.cells ensures b.cells[p] != Closed {
        var i :| 0 <= i < |order| && order[i] == p;
      }
    }
  }
}
