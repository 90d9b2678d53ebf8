/** Vocabulary shared by the board and the player. */
module Cells {

  /** A board cell (row, column). Python ints, so unbounded here. */
  type Cell = (int, int)

  /** A value or Python's `None`. */
  datatype Option<T> = None | Some(value: T)

  /** The cells of a sequence. */
  function Elems(xs: seq<Cell>): set<Cell>
  {
    if xs == [] then {} else Elems(xs[..|xs| - 1]) + {xs[|xs| - 1]}
  }

  /** Taking one more element of `xs` adds it to the cells taken. */
  lemma ElemsStep(xs: seq<Cell>, i: nat)
    requires i < |xs|
    ensures Elems(xs[..i + 1]) == Elems(xs[..i]) + {xs[i]}
  {
    assert xs[..i + 1][..i] == xs[..i];
  }

  /** No cell occurs twice in `xs`. */
  predicate Distinct(xs: seq<Cell>)
  {
    xs == [] || (Distinct(xs[..|xs| - 1]) && xs[|xs| - 1] !in Elems(xs[..|xs| - 1]))
  }

  /** A sequence without repeats has as many cells as elements. */
  lemma {:induction false} DistinctSize(xs: seq<Cell>)
    requires Distinct(xs)
    ensures |Elems(xs)| == |xs|
    decreases |xs|
  {
    if xs != [] {
      DistinctSize(xs[..|xs| - 1]);
    }
  }

  /** Some order in which Python iterates the set `cells`: each cell once. */
  method Enumerate(cells: set<Cell>) returns (order: seq<Cell>)
    ensures Elems(order) == cells
    ensures |order| == |cells|
  {
    order := [];
    var rest := cells;
    while rest != {}
      invariant Elems(order) + rest == cells && Elems(order) !! rest
      invariant Distinct(order)
      decreases rest
    {
      var c :| c in rest;
      assert (order + [c])[..|order|] == order;
      order := order + [c];
      rest := rest - {c};
    }
    DistinctSize(order);
  }

  /** Python's `range(start, stop)` with step 1. */
  datatype Range = Range(start: int, stop: int)
  {
    predicate Contains(k: int)
    {
      start <= k < stop
    }
  }
}
