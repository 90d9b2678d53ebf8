/**
 * The game board (`Minesweeper`): a grid of booleans, the set of mines it
 * holds and the set of mines the player has flagged. Only the queries the
 * player relies on are modelled; the random placement of mines is replaced
 * by a given set of mine cells. The lemmas at the end say when the sentence
 * the player builds from a probe of this board is true of it.
 */
module Game {
  import opened Cells
  import Sentences
  import Inference

  /** Python's `s[i]`: a negative index counts from the end, and an index
      out of range raises `IndexError` (here `None`). */
  function PyIndex<T>(s: seq<T>, i: int): (r: Option<T>)
    ensures r.Some? <==> -|s| <= i < |s|
    ensures r.Some? ==> r.value == s[if i < 0 then i + |s| else i]
  {
    if 0 <= i < |s| then Some(s[i])
    else if -|s| <= i < 0 then Some(s[i + |s|])
    else None
  }

  /** The non-negative position a Python index `i` denotes in a list of
      length `n`. */
  function Wrap(i: int, n: int): int
  {
    if i < 0 then i + n else i
  }

  class Minesweeper {
    const height: int
    const width: int
    const board: seq<seq<bool>>
    const mines: set<Cell>
    var minesFound: set<Cell>

    predicate InBounds(c: Cell)
    {
      0 <= c.0 < height && 0 <= c.1 < width
    }

    /** The board is `height` rows of `width` cells, and a cell holds a mine
        exactly when it is in `mines`. */
    ghost predicate Valid()
    {
      && |board| == height
      && (forall i :: 0 <= i < height ==> |board[i]| == width)
      && (forall c :: c in mines ==> InBounds(c))
      && (forall i, j :: 0 <= i < height && 0 <= j < width ==> (board[i][j] <==> (i, j) in mines))
    }

    /** A board of the given size with mines exactly on `placed` and nothing
        flagged yet. */
    constructor (height: nat := 8, width: nat := 8, placed: set<Cell>)
      requires forall c :: c in placed ==> 0 <= c.0 < height && 0 <= c.1 < width
      ensures Valid()
      ensures this.height == height && this.width == width
      ensures mines == placed && minesFound == {}
    {
      this.height := height;
      this.width := width;
      board := seq(height, i => seq(width, j => (i, j) in placed));
      mines := placed;
      minesFound := {};
    }

    /** `is_mine`: `board[i][j]` with Python's indexing, so a negative
        coordinate wraps around and one out of range is an `IndexError`. */
    function IsMine(cell: Cell): (r: Option<bool>)
      requires Valid()
      ensures r.Some? <==> -height <= cell.0 < height && -width <= cell.1 < width
      ensures r.Some? ==> r.value == ((Wrap(cell.0, height), Wrap(cell.1, width)) in mines)
      ensures InBounds(cell) ==> r == Some(cell in mines)
    {
      match PyIndex(board, cell.0)
      case None => None
      case Some(row) => PyIndex(row, cell.1)
    }

    /** The cells counted by `nearby_mines`: in bounds, within one row and
        one column of `cell`, not `cell` itself, and mines. */
    function MinesAround(cell: Cell): set<Cell>
    {
      set c | c in mines && cell.0 - 1 <= c.0 <= cell.0 + 1 && cell.1 - 1 <= c.1 <= cell.1 + 1
                && c != cell && InBounds(c)
    }

    /** 1 when the cell `(a, b)` is counted around `cell`, else 0. */
    function Hit(cell: Cell, a: int, b: int): nat
    {
      if (a, b) != cell && InBounds((a, b)) && (a, b) in mines then 1 else 0
    }

    /** What the scan of row `a` has counted before column `j`. */
    function RowScan(cell: Cell, a: int, j: int): nat
      decreases j - cell.1
    {
      if j <= cell.1 - 1 then 0 else RowScan(cell, a, j - 1) + Hit(cell, a, j - 1)
    }

    /** What the scan has counted in the rows before row `i`. */
    function Scan(cell: Cell, i: int): nat
      decreases i - cell.0
    {
      if i <= cell.0 - 1 then 0 else Scan(cell, i - 1) + RowScan(cell, i - 1, cell.1 + 2)
    }

    /** `nearby_mines`: the number of mines among the (at most eight)
        in-bounds cells around `cell`. */
    method NearbyMines(cell: Cell) returns (count: nat)
      requires Valid()
      ensures count == |MinesAround(cell)|
      ensures count <= 8
    {
      var (x, y) := cell;
      count := 0;
      var i := x - 1;
      while i < x + 2
        invariant x - 1 <= i <= x + 2
        invariant count == Scan(cell, i)
      {
        var j := y - 1;
        while j < y + 2
          invariant y - 1 <= j <= y + 2
          invariant count == Scan(cell, i) + RowScan(cell, i, j)
        {
          if (i, j) != cell {
            if 0 <= i < height && 0 <= j < width {
              if board[i][j] {
                count := count + 1;
              }
            }
          }
          assert RowScan(cell, i, j + 1) == RowScan(cell, i, j) + Hit(cell, i, j);
          j := j + 1;
        }
        i := i + 1;
      }
      ScanCountsMinesAround(cell);
      ScanBound(cell, x + 2);
    }

    /** At most eight cells are counted: three per row, and the middle row
        leaves out `cell` itself. */
    lemma {:induction false} ScanBound(cell: Cell, i: int)
      requires cell.0 - 1 <= i <= cell.0 + 2
      ensures Scan(cell, i) <= 3 * (i - cell.0 + 1) - (if i > cell.0 then 1 else 0)
      decreases i - cell.0
    {
      if i > cell.0 - 1 {
        ScanBound(cell, i - 1);
        RowScanBound(cell, i - 1, cell.1 + 2);
      }
    }

    /** A row scanned up to column `j` has counted at most `j - (cell.1 - 1)`
        cells, and one fewer from the middle column on in the middle row. */
    lemma {:induction false} RowScanBound(cell: Cell, a: int, j: int)
      requires j >= cell.1 - 1
      ensures RowScan(cell, a, j) <= j - cell.1 + 1 - (if a == cell.0 && j > cell.1 then 1 else 0)
      decreases j - cell.1
    {
      if j > cell.1 - 1 {
        RowScanBound(cell, a, j - 1);
      }
    }

    /** The part of `MinesAround(cell)` that the scan has passed when it is
        about to look at row `i`, column `j`. */
    ghost function Scanned(cell: Cell, i: int, j: int): set<Cell>
    {
      set c | c in mines && cell.0 - 1 <= c.0 <= cell.0 + 1 && cell.1 - 1 <= c.1 <= cell.1 + 1
                && (c.0 < i || (c.0 == i && c.1 < j)) && c != cell && InBounds(c)
    }

    /** One more step of the scan adds `(i, j)` exactly when it is counted. */
    lemma ScanStep(cell: Cell, i: int, j: int)
      requires cell.0 - 1 <= i <= cell.0 + 1 && cell.1 - 1 <= j <= cell.1 + 1
      ensures |Scanned(cell, i, j + 1)| == |Scanned(cell, i, j)| + Hit(cell, i, j)
    {
      if Hit(cell, i, j) == 1 {
        assert Scanned(cell, i, j + 1) == Scanned(cell, i, j) + {(i, j)};
      } else {
        assert Scanned(cell, i, j + 1) == Scanned(cell, i, j);
      }
    }

    /** Within row `i`, the scan's count is the size of what it has passed. */
    lemma {:induction false} RowScanned(cell: Cell, i: int, j: int)
      requires cell.0 - 1 <= i <= cell.0 + 1 && cell.1 - 1 <= j <= cell.1 + 2
      requires |Scanned(cell, i, cell.1 - 1)| == Scan(cell, i)
      ensures |Scanned(cell, i, j)| == Scan(cell, i) + RowScan(cell, i, j)
      decreases j - cell.1
    {
      if j > cell.1 - 1 {
        RowScanned(cell, i, j - 1);
        ScanStep(cell, i, j - 1);
      }
    }

    /** At the start of each row, the count is the size of what the scan has
        passed. */
    lemma {:induction false} RowsScanned(cell: Cell, i: int)
      requires cell.0 - 1 <= i <= cell.0 + 2
      ensures |Scanned(cell, i, cell.1 - 1)| == Scan(cell, i)
      decreases i - cell.0
    {
      if i == cell.0 - 1 {
        assert Scanned(cell, i, cell.1 - 1) == {};
      } else {
        RowsScanned(cell, i - 1);
        RowScanned(cell, i - 1, cell.1 + 2);
        assert Scanned(cell, i - 1, cell.1 + 2) == Scanned(cell, i, cell.1 - 1);
      }
    }

    /** The whole scan counts exactly the cells of `MinesAround(cell)`. */
    lemma ScanCountsMinesAround(cell: Cell)
      ensures Scan(cell, cell.0 + 2) == |MinesAround(cell)|
    {
      RowsScanned(cell, cell.0 + 2);
      assert Scanned(cell, cell.0 + 2, cell.1 - 1) == MinesAround(cell);
    }

    /** The sentence `add_knowledge` builds after a probe of `cell` reported
        by `nearby_mines`, with `moved` the probed cells by then. When the
        sides of the board differ by at most one, the swapped, inclusive
        bounds of `get_neighbors` still cover every on-board neighbour, and
        the cells they add off the board hold no mine; so when no probed
        cell is a mine, that sentence is true of the board. */
    lemma ProbedSentenceHolds(cell: Cell, moved: set<Cell>)
      requires Valid() && height <= width + 1 && width <= height + 1
      requires moved * mines == {}
      ensures Sentences.Statement(Inference.Neighborhood(cell, height, width, moved), |MinesAround(cell)|).Holds(mines)
    {
      var around := Inference.Neighborhood(cell, height, width, moved);
      forall n | n in around * mines ensures n in MinesAround(cell) {
        Inference.NeighborhoodMembers(cell, height, width, moved, n);
      }
      forall n | n in MinesAround(cell) ensures n in around * mines {
        Inference.NeighborhoodMembers(cell, height, width, moved, n);
        assert n in mines && n !in moved * mines;
      }
      assert around * mines == MinesAround(cell);
    }

    /** Otherwise the sentence can be false: on a board of 3 rows and 1
        column whose only mine is at (2, 0), probing (1, 0) reports 1, but
        the sentence built from it covers (0, 0), (0, 1) and (1, 1), none of
        them a mine. */
    lemma SwappedBoundsFalseSentence()
      requires Valid() && height == 3 && width == 1 && mines == {(2, 0)}
      ensures |MinesAround((1, 0))| == 1
      ensures Inference.Neighborhood((1, 0), height, width, {(1, 0)}) == {(0, 0), (0, 1), (1, 1)}
      ensures !Sentences.Statement(Inference.Neighborhood((1, 0), height, width, {(1, 0)}),
                                   |MinesAround((1, 0))|).Holds(mines)
    {
      assert MinesAround((1, 0)) == {(2, 0)};
      var around := Inference.Neighborhood((1, 0), height, width, {(1, 0)});
      forall n | n in around ensures n in {(0, 0), (0, 1), (1, 1)} {
        Inference.NeighborhoodMembers((1, 0), height, width, {(1, 0)}, n);
      }
      forall n | n in {(0, 0), (0, 1), (1, 1)} ensures n in around {
        Inference.NeighborhoodMembers((1, 0), height, width, {(1, 0)}, n);
      }
      assert around * mines == {};
    }

    /** `add_knowledge` on this board is sound when its sides differ by at
        most one and no probed cell is a mine: if the old sentences are true
        or have no cells, the known mines are mines and the known safe cells
        are not, then after probing `cell` with the count `nearby_mines`
        reports, every known mine is a mine, no known safe cell is one, and
        every sentence of the new knowledge base is true or has no cells, so
        the lemma applies again to the next probe. */
    lemma AddKnowledgeSound(kv: seq<Sentences.Statement>, known: set<Cell>, safes: set<Cell>,
                            moved: set<Cell>, cell: Cell, fuel: nat)
      requires Valid() && height <= width + 1 && width <= height + 1
      requires forall i :: 0 <= i < |kv| ==> kv[i].cells == {} || kv[i].Holds(mines)
      requires known <= mines && safes * mines == {} && (moved + {cell}) * mines == {}
      ensures var r := Inference.Learn(kv, known, safes + {cell},
                         Sentences.Statement(Inference.Neighborhood(cell, height, width, moved + {cell}),
                                             |MinesAround(cell)|), fuel);
              && r.mines <= mines && r.safes * mines == {}
              && forall i :: 0 <= i < |r.work| ==>
                   var v := Inference.ItemValues(r.knowledge, r.work)[i]; v.cells == {} || v.Holds(mines)
    {
      var s := Sentences.Statement(Inference.Neighborhood(cell, height, width, moved + {cell}), |MinesAround(cell)|);
      ProbedSentenceHolds(cell, moved + {cell});
      Inference.LearnSound(kv, known, safes + {cell}, s, fuel, mines);
    }

    /** `won`: the game is won exactly when the flagged cells are the cells
        of the board that `is_mine` reports as mines. */
    function Won(): (r: bool)
      requires Valid()
      reads this
      ensures r <==> (forall c :: c in minesFound <==> InBounds(c) && IsMine(c) == Some(true))
    {
      FlagsAreBoardMines();
      minesFound == mines
    }

    /** Every mine is a board cell that `IsMine` reports as one, and no
        other cell is. */
    lemma FlagsAreBoardMines()
      requires Valid()
      ensures minesFound == mines <==> (forall c :: c in minesFound <==> InBounds(c) && IsMine(c) == Some(true))
    {
      if forall c :: c in minesFound <==> InBounds(c) && IsMine(c) == Some(true) {
        forall c | c in mines ensures c in minesFound {
          assert InBounds(c);
        }
      }
    }
  }
}
