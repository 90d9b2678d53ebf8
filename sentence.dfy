/**
 * A sentence of the player's knowledge base: "exactly `count` of `cells`
 * are mines". Its value is a `Statement`; the mutable object the knowledge
 * base holds references to is a `Sentence`.
 */
module Sentences {
  import opened Cells

  /** One `mark_mine(cell)` or `mark_safe(cell)` applied to a sentence. */
  datatype Mark = Mine(cell: Cell) | Safe(cell: Cell)

  /** The value of a sentence. Two sentences are equal (`__eq__`) exactly
      when their statements are. */
  datatype Statement = Statement(cells: set<Cell>, count: int)
  {
    /** `known_mines`: every cell is a mine when there are as many cells as
        mines and the count is not zero; otherwise nothing is known. */
    function KnownMines(): (r: set<Cell>)
      ensures r <= cells
      ensures r != {} <==> |cells| == count && count > 0
      ensures r != {} ==> r == cells
    {
      if |cells| == count && count != 0 then cells else {}
    }

    /** `known_safes`: every cell is safe when the count is zero. */
    function KnownSafes(): (r: set<Cell>)
      ensures r <= cells
      ensures r != {} <==> count == 0 && cells != {}
      ensures r != {} ==> r == cells
    {
      if count == 0 then cells else {}
    }

    /** The statement is true of the board whose mines are `mines`. */
    ghost predicate Holds(mines: set<Cell>)
    {
      |cells * mines| == count
    }

    /** The value after `mark_mine(c)`: `c` is no longer a cell, and the
        count drops by one exactly when it was one. */
    function WithMine(c: Cell): (r: Statement)
      ensures r.cells == cells - {c}
      ensures r.count == if c in cells then count - 1 else count
    {
      if c in cells then Statement(cells - {c}, count - 1) else this
    }

    /** The value after `mark_safe(c)`: `c` is no longer a cell and the
        count is kept. */
    function WithSafe(c: Cell): (r: Statement)
      ensures r.cells == cells - {c}
      ensures r.count == count
    {
      if c in cells then Statement(cells - {c}, count) else this
    }

    /** The value after one mark. */
    function Apply(m: Mark): Statement
    {
      match m
      case Mine(c) => WithMine(c)
      case Safe(c) => WithSafe(c)
    }

    /** The value after the marks of `ms`, first to last. */
    function Marked(ms: seq<Mark>): Statement
    {
      if ms == [] then this else Marked(ms[..|ms| - 1]).Apply(ms[|ms| - 1])
    }

    /** The value after marking every cell of `d` as a mine, in any order. */
    ghost function WithMines(d: set<Cell>): Statement
    {
      Statement(cells - d, count - |cells * d|)
    }

    /** The value after marking every cell of `d` as safe, in any order. */
    ghost function WithSafes(d: set<Cell>): Statement
    {
      Statement(cells - d, count)
    }
  }

  /** A mutable sentence, as the knowledge base holds it. */
  class Sentence {
    var cells: set<Cell>
    var count: int

    constructor (cells: set<Cell>, count: int)
      ensures Value() == Statement(cells, count)
    {
      this.cells := cells;
      this.count := count;
    }

    function Value(): Statement
      reads this
    {
      Statement(cells, count)
    }

    /** `__eq__`: sentences compare by value, not by identity. */
    predicate Equals(other: Sentence)
      reads this, other
      ensures Equals(other) <==> Value() == other.Value()
    {
      cells == other.cells && count == other.count
    }

    /** `mark_mine`: removes `c` and decrements the count if `c` is a cell. */
    method MarkMine(c: Cell)
      modifies this
      ensures Value() == old(Value()).WithMine(c)
    {
      if c in cells {
        cells := cells - {c};
        count := count - 1;
      }
    }

    /** `mark_safe`: removes `c` if it is a cell. */
    method MarkSafe(c: Cell)
      modifies this
      ensures Value() == old(Value()).WithSafe(c)
    {
      if c in cells {
        cells := cells - {c};
      }
    }
  }

  /** The values of a list of sentences, position by position. */
  function Values(xs: seq<Sentence>): (r: seq<Statement>)
    reads xs
    ensures |r| == |xs|
  {
    if xs == [] then [] else Values(xs[..|xs| - 1]) + [xs[|xs| - 1].Value()]
  }

  /** Position `k` of `Values(xs)` is the value of `xs[k]`. */
  lemma {:induction false} ValuesAt(xs: seq<Sentence>)
    ensures forall k :: 0 <= k < |xs| ==> Values(xs)[k] == xs[k].Value()
    decreases |xs|
  {
    if xs != [] {
      ValuesAt(xs[..|xs| - 1]);
    }
  }

  /** Appending a sentence appends its value. */
  lemma ValuesAppend(xs: seq<Sentence>, t: Sentence)
    ensures Values(xs + [t]) == Values(xs) + [t.Value()]
  {
    assert (xs + [t])[..|xs|] == xs;
  }

  /** Every value of `vs` after the marks of `ms`. */
  function AllMarked(vs: seq<Statement>, ms: seq<Mark>): seq<Statement>
  {
    seq(|vs|, k requires 0 <= k < |vs| => vs[k].Marked(ms))
  }

  /** `mark_mine(c)` on each cell of `cs`, in order. */
  function MineMarks(cs: seq<Cell>): seq<Mark>
  {
    seq(|cs|, i requires 0 <= i < |cs| => Mine(cs[i]))
  }

  /** `mark_safe(c)` on each cell of `cs`, in order. */
  function SafeMarks(cs: seq<Cell>): seq<Mark>
  {
    seq(|cs|, i requires 0 <= i < |cs| => Safe(cs[i]))
  }

  /** No marks change nothing. */
  lemma AllMarkedNone(vs: seq<Statement>)
    ensures AllMarked(vs, []) == vs
  {
  }

  /** One more mark on every value of a list. */
  lemma AllMarkedStep(vs: seq<Statement>, ms: seq<Mark>, m: Mark)
    ensures AllMarked(vs, ms + [m]) == seq(|vs|, k requires 0 <= k < |vs| => AllMarked(vs, ms)[k].Apply(m))
  {
    assert (ms + [m])[..|ms|] == ms;
  }

  /** Marks applied in two rounds are the marks of both rounds applied in
      one. */
  lemma {:induction false} MarkedAppend(v: Statement, a: seq<Mark>, b: seq<Mark>)
    ensures v.Marked(a).Marked(b) == v.Marked(a + b)
    decreases |b|
  {
    if b == [] {
      assert a + b == a;
    } else {
      var init := b[..|b| - 1];
      MarkedAppend(v, a, init);
      assert (a + b)[..|a + b| - 1] == a + init;
    }
  }

  /** `MarkedAppend` for every value of a list. */
  lemma AllMarkedAppend(vs: seq<Statement>, a: seq<Mark>, b: seq<Mark>)
    ensures AllMarked(AllMarked(vs, a), b) == AllMarked(vs, a + b)
  {
    forall k | 0 <= k < |vs| {
      MarkedAppend(vs[k], a, b);
    }
  }

  lemma MineMarksStep(cs: seq<Cell>, i: nat)
    requires i < |cs|
    ensures MineMarks(cs[..i + 1]) == MineMarks(cs[..i]) + [Mine(cs[i])]
  {
  }

  lemma SafeMarksStep(cs: seq<Cell>, i: nat)
    requires i < |cs|
    ensures SafeMarks(cs[..i + 1]) == SafeMarks(cs[..i]) + [Safe(cs[i])]
  {
  }

  /** Marking the cells of a sequence one by one as mines is marking the set
      of its cells: neither the order in which a set of new mines is
      iterated nor repeats change the result. */
  lemma {:induction false} MineMarksAnyOrder(v: Statement, cs: seq<Cell>)
    ensures v.Marked(MineMarks(cs)) == v.WithMines(Elems(cs))
    decreases |cs|
  {
    if cs == [] {
      assert v.cells * {} == {};
    } else {
      var init := cs[..|cs| - 1];
      var c := cs[|cs| - 1];
      MineMarksAnyOrder(v, init);
      assert MineMarks(cs)[..|cs| - 1] == MineMarks(init);
      WithMinesStep(v, Elems(init), c);
    }
  }

  /** Marking one more cell as a mine after the cells of `d`. */
  lemma WithMinesStep(v: Statement, d: set<Cell>, c: Cell)
    ensures v.WithMines(d).WithMine(c) == v.WithMines(d + {c})
  {
    var w := v.WithMines(d);
    if c in d {
      assert d + {c} == d;
    } else if c in v.cells {
      assert c in w.cells;
      assert v.cells * (d + {c}) == v.cells * d + {c};
      assert c !in v.cells * d;
    } else {
      assert v.cells * (d + {c}) == v.cells * d;
    }
  }

  /** Marking the cells of a sequence one by one as safe is marking the set
      of its cells. */
  lemma {:induction false} SafeMarksAnyOrder(v: Statement, cs: seq<Cell>)
    ensures v.Marked(SafeMarks(cs)) == v.WithSafes(Elems(cs))
    decreases |cs|
  {
    if cs != [] {
      var init := cs[..|cs| - 1];
      SafeMarksAnyOrder(v, init);
      assert SafeMarks(cs)[..|cs| - 1] == SafeMarks(init);
      assert Elems(cs) == Elems(init) + {cs[|cs| - 1]};
    }
  }

  /** If `|a| == |b|` and `a <= b` then `a == b`. */
  lemma {:induction false} SubsetOfSameSize(a: set<Cell>, b: set<Cell>)
    requires a <= b && |a| == |b|
    ensures a == b
  {
    if a != b {
      assert !(b <= a);
      var x :| x in b && x !in a;
      SubsetSize(a, b - {x});
    }
  }

  /** A subset is no larger than its superset. */
  lemma {:induction false} SubsetSize(a: set<Cell>, b: set<Cell>)
    requires a <= b
    ensures |a| <= |b|
    decreases |b|
  {
    if a != {} {
      var x :| x in a;
      SubsetSize(a - {x}, b - {x});
    }
  }

  /** Soundness of `known_mines`: on a board where the statement is true,
      every cell it reports is a mine. */
  lemma KnownMinesSound(v: Statement, mines: set<Cell>)
    requires v.Holds(mines)
    ensures v.KnownMines() <= mines
  {
    if v.KnownMines() != {} {
      SubsetOfSameSize(v.cells * mines, v.cells);
    }
  }

  /** Soundness of `known_safes`: on a board where the statement is true,
      no cell it reports is a mine. */
  lemma KnownSafesSound(v: Statement, mines: set<Cell>)
    requires v.Holds(mines)
    ensures v.KnownSafes() * mines == {}
  {
    if v.KnownSafes() != {} {
      assert v.cells * mines == {};
    }
  }

  /** Marking a real mine keeps a true statement true. */
  lemma WithMineSound(v: Statement, c: Cell, mines: set<Cell>)
    requires v.Holds(mines) && c in mines
    ensures v.WithMine(c).Holds(mines)
  {
    if c in v.cells {
      assert (v.cells - {c}) * mines == v.cells * mines - {c};
    }
  }

  /** Marking a really safe cell keeps a true statement true. */
  lemma WithSafeSound(v: Statement, c: Cell, mines: set<Cell>)
    requires v.Holds(mines) && c !in mines
    ensures v.WithSafe(c).Holds(mines)
  {
    assert (v.cells - {c}) * mines == v.cells * mines;
  }

  /** Marking real mines keeps a true statement true. */
  lemma WithMinesSound(v: Statement, d: set<Cell>, mines: set<Cell>)
    requires v.Holds(mines) && d <= mines
    ensures v.WithMines(d).Holds(mines)
  {
    assert v.cells * mines == (v.cells - d) * mines + v.cells * d;
    assert ((v.cells - d) * mines) * (v.cells * d) == {};
  }

  /** Marking really safe cells keeps a true statement true. */
  lemma WithSafesSound(v: Statement, d: set<Cell>, mines: set<Cell>)
    requires v.Holds(mines) && d * mines == {}
    ensures v.WithSafes(d).Holds(mines)
  {
    forall x | x in v.cells * mines
      ensures x in (v.cells - d) * mines
    {
      assert x in mines && x !in d * mines;
      assert x !in d;
    }
    assert (v.cells - d) * mines == v.cells * mines;
  }

  /** Marking a mine twice is the same as marking it once, so a sentence
      reached twice by a cascade ends up as if it were reached once. */
  lemma WithMineTwice(v: Statement, c: Cell)
    ensures v.WithMine(c).WithMine(c) == v.WithMine(c)
  {
  }
}
