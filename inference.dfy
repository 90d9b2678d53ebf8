/**
 * The pure part of the player's inference, on values. `relationship`,
 * `get_boundaries` and the neighbourhood are functions of their arguments;
 * `evaluate_knowledge` is described by a reference model of the list it
 * works on (`Item`, `Step`, `ForLoop`), of one pass of its `while` loop
 * (`PassOf`) and of the whole loop (`Run`, `Continue`), which the methods of
 * `MinesweeperAI` are proved to follow.
 */
module Inference {
  import opened Cells
  import opened Sentences

  function Max(a: int, b: int): int { if a < b then b else a }
  function Min(a: int, b: int): int { if a < b then a else b }

  /** `relationship`: when one cell set is a subset of the other, a new
      statement is derived by subtracting the SUPERSET's cells from the
      subset's, so its cells are always empty; its count is the subset's
      count minus the other's. Unrelated sets give `None`. */
  function Relationship(a: Statement, b: Statement): (r: Option<Statement>)
    ensures r.None? <==> !(a.cells <= b.cells) && !(b.cells <= a.cells)
    ensures r.Some? ==> r.value.cells == {}
    ensures r.Some? && a.cells <= b.cells ==> r.value.count == a.count - b.count
    ensures r.Some? && !(a.cells <= b.cells) ==> r.value.count == b.count - a.count
  {
    if a.cells <= b.cells then Some(Statement(a.cells - b.cells, a.count - b.count))
    else if b.cells <= a.cells then Some(Statement(b.cells - a.cells, b.count - a.count))
    else None
  }

  /** A sentence related to itself derives the empty statement `{} = 0`. */
  lemma RelationshipWithItself(v: Statement)
    ensures Relationship(v, v) == Some(Statement({}, 0))
  {
  }

  /** A sentence with no cells is related to every sentence. */
  lemma RelationshipWithEmpty(v: Statement, other: Statement)
    requires v.cells == {}
    ensures Relationship(v, other).Some?
  {
  }

  /** On a board where both statements are true, the derived count is never
      positive, and the derived statement is true only when it is `{} = 0`:
      the rule never yields a mine or a safe cell. */
  lemma RelationshipUninformative(a: Statement, b: Statement, mines: set<Cell>)
    requires a.Holds(mines) && b.Holds(mines)
    requires Relationship(a, b).Some?
    ensures Relationship(a, b).value.count <= 0
    ensures Relationship(a, b).value.Holds(mines) <==> Relationship(a, b).value == Statement({}, 0)
  {
    if a.cells <= b.cells {
      SubsetSize(a.cells * mines, b.cells * mines);
    } else {
      SubsetSize(b.cells * mines, a.cells * mines);
    }
  }

  /** `get_boundaries`: `range(max(0, index - 1), min(upper, index + 1) + 1)`,
      so the bound `upper` itself is admitted. */
  function GetBoundaries(index: int, upper: int): (r: Range)
    ensures r.start >= 0
    ensures forall k :: r.Contains(k) <==> 0 <= k <= upper && index - 1 <= k <= index + 1
  {
    var lower := Max(0, index - 1);
    var higher := Min(upper, index + 1);
    Range(lower, higher + 1)
  }

  /** The cells `get_neighbors` returns: the product of the boundaries of the
      row (bounded by `width`) and of the column (bounded by `height`),
      without `cell` and without probed cells. */
  function Neighborhood(cell: Cell, height: int, width: int, moved: set<Cell>): set<Cell>
  {
    var rows := GetBoundaries(cell.0, width);
    var cols := GetBoundaries(cell.1, height);
    set a, b | rows.start <= a < rows.stop && cols.start <= b < cols.stop
               && (a, b) != cell && (a, b) !in moved :: (a, b)
  }

  /** Every neighbour is another cell, unprobed, within one row and column,
      with `0 <= row <= width` and `0 <= column <= height`; and every such
      cell is a neighbour. */
  lemma NeighborhoodMembers(cell: Cell, height: int, width: int, moved: set<Cell>, n: Cell)
    ensures n in Neighborhood(cell, height, width, moved) <==>
              && n != cell && n !in moved
              && Max(0, cell.0 - 1) <= n.0 <= Min(width, cell.0 + 1)
              && Max(0, cell.1 - 1) <= n.1 <= Min(height, cell.1 + 1)
  {
    var rows := GetBoundaries(cell.0, width);
    var cols := GetBoundaries(cell.1, height);
    assert rows.Contains(n.0) <==> Max(0, cell.0 - 1) <= n.0 <= Min(width, cell.0 + 1);
    assert cols.Contains(n.1) <==> Max(0, cell.1 - 1) <= n.1 <= Min(height, cell.1 + 1);
  }

  /** Rows are bounded by the width and columns by the height, both
      inclusively: on a board of 3 rows and 1 column, cell (1, 0) has the
      off-board neighbour (0, 1) and not the on-board cell (2, 0); on a 2 by 2
      board, cell (1, 1) has the off-board neighbour (2, 2). */
  lemma NeighborhoodLeavesBoard()
    ensures (0, 1) in Neighborhood((1, 0), 3, 1, {})
    ensures (2, 0) !in Neighborhood((1, 0), 3, 1, {})
    ensures (2, 2) in Neighborhood((1, 1), 2, 2, {})
  {
    NeighborhoodMembers((1, 0), 3, 1, {}, (0, 1));
    NeighborhoodMembers((1, 0), 3, 1, {}, (2, 0));
    NeighborhoodMembers((1, 1), 2, 2, {}, (2, 2));
  }

  /* What one pass of `evaluate_knowledge` saw. `seen` lists the values of
     the sentences the `for` loop visited, in order. */

  /** The number of visited sentences that were removed (no cells or a
      negative count). */
  function Discarded(seen: seq<Statement>): nat
  {
    if seen == [] then 0
    else Discarded(seen[..|seen| - 1])
         + (var v := seen[|seen| - 1]; if v.cells == {} || v.count < 0 then 1 else 0)
  }

  /** The number of visited sentences for which `relationship` with the last
      sentence appended a new one. */
  function Inferred(seen: seq<Statement>, last: Statement): nat
  {
    if seen == [] then 0
    else Inferred(seen[..|seen| - 1], last)
         + (if Relationship(seen[|seen| - 1], last).Some? then 1 else 0)
  }

  /** `new_mines`: the union of `known_mines` over the visited sentences. */
  function MinesOf(seen: seq<Statement>): set<Cell>
  {
    if seen == [] then {} else MinesOf(seen[..|seen| - 1]) + seen[|seen| - 1].KnownMines()
  }

  /** `new_safes`: the union of `known_safes` over the visited sentences. */
  function SafesOf(seen: seq<Statement>): set<Cell>
  {
    if seen == [] then {} else SafesOf(seen[..|seen| - 1]) + seen[|seen| - 1].KnownSafes()
  }

  /** Every cell a visited sentence reports as a mine or as safe is among
      the pass's new mines or new safes. */
  lemma {:induction false} SeenFactsCollected(seen: seq<Statement>, k: nat)
    requires k < |seen|
    ensures seen[k].KnownMines() <= MinesOf(seen)
    ensures seen[k].KnownSafes() <= SafesOf(seen)
  {
    if k < |seen| - 1 {
      SeenFactsCollected(seen[..|seen| - 1], k);
    }
  }

  /** A pass that visits a sentence with no cells reports a change: that
      sentence is removed, and it is related to the last sentence. */
  lemma {:induction false} SeenEmptyForcesChange(seen: seq<Statement>, last: Statement, k: nat)
    requires k < |seen| && seen[k].cells == {}
    ensures Discarded(seen) > 0 && Inferred(seen, last) > 0
  {
    if k < |seen| - 1 {
      SeenEmptyForcesChange(seen[..|seen| - 1], last, k);
    } else {
      RelationshipWithEmpty(seen[k], last);
    }
  }

  /** A pass that visits a sentence equal to the last sentence reports a
      change, since a sentence is related to itself. */
  lemma {:induction false} SeenLastForcesChange(seen: seq<Statement>, last: Statement, k: nat)
    requires k < |seen| && seen[k] == last
    ensures Inferred(seen, last) > 0
  {
    if k < |seen| - 1 {
      SeenLastForcesChange(seen[..|seen| - 1], last, k);
    } else {
      RelationshipWithItself(last);
    }
  }

  /** `list.remove(sentence)` looks for the first element equal to its
      argument, and `Sentence.__eq__` compares values (`Sentence.Equals`):
      the position of the first value `v` in `vs`, or `|vs|` when there is
      none. */
  function IndexOf(vs: seq<Statement>, v: Statement): (k: nat)
    ensures k <= |vs|
    ensures k < |vs| ==> vs[k] == v
  {
    if vs == [] then 0
    else if vs[0] == v then 0
    else 1 + IndexOf(vs[1..], v)
  }

  /** `IndexOf(vs, v)` is at or before every position holding `v`. */
  lemma IndexOfAtMost(vs: seq<Statement>, v: Statement, i: nat)
    requires i < |vs| && vs[i] == v
    ensures IndexOf(vs, v) <= i
  {
    IndexOfFirst(vs, v);
  }

  /** No value before `IndexOf(vs, v)` is `v`: it is the first. */
  lemma {:induction false} IndexOfFirst(vs: seq<Statement>, v: Statement)
    ensures forall j :: 0 <= j < IndexOf(vs, v) ==> vs[j] != v
    decreases |vs|
  {
    if vs != [] && vs[0] != v {
      IndexOfFirst(vs[1..], v);
    }
  }

  /* The working list `new_knowledge` of `evaluate_knowledge`, on values. It
     starts as a copy of `knowledge`, so at first its sentences are those of
     `knowledge`, which `mark_mine` and `mark_safe` update in place; the
     sentences a pass appends are new objects that no marking reaches. */

  /** An element of the working list: the sentence at position `k` of
      `knowledge`, or a sentence of value `v` that a pass created. */
  datatype Item = Shared(k: nat) | Own(v: Statement)

  /** `x` names a sentence of a knowledge base of `n` sentences, if any. */
  predicate Names(x: Item, n: nat)
  {
    x.Shared? ==> x.k < n
  }

  /** Every item of `items` names a sentence of the knowledge base, if any. */
  predicate Fits(items: seq<Item>, n: nat)
  {
    forall i :: 0 <= i < |items| ==> Names(items[i], n)
  }

  /** The value of an item, given the values `kv` of `knowledge`. */
  function ItemValue(kv: seq<Statement>, x: Item): Statement
    requires Names(x, |kv|)
  {
    match x
    case Shared(k) => kv[k]
    case Own(v) => v
  }

  /** The values of a working list. */
  function ItemValues(kv: seq<Statement>, items: seq<Item>): (r: seq<Statement>)
    requires Fits(items, |kv|)
    ensures |r| == |items|
  {
    seq(|items|, i requires 0 <= i < |items| => ItemValue(kv, items[i]))
  }

  /** `self.knowledge[:]`: the working list as a pass of `evaluate_knowledge`
      first sees it. */
  function Copy(n: nat): (r: seq<Item>)
    ensures |r| == n && Fits(r, n)
  {
    seq(n, i requires 0 <= i < n => Shared(i))
  }

  /** No item created by a pass has cells. */
  predicate OwnEmpty(items: seq<Item>)
  {
    forall i :: 0 <= i < |items| && items[i].Own? ==> items[i].v.cells == {}
  }

  /** Removing one item keeps every item naming a sentence. */
  lemma FitsSplice(items: seq<Item>, n: nat, k: nat)
    requires Fits(items, n) && k < |items|
    ensures Fits(items[..k] + items[k + 1..], n)
    ensures OwnEmpty(items) ==> OwnEmpty(items[..k] + items[k + 1..])
  {
    var rest := items[..k] + items[k + 1..];
    forall i | 0 <= i < |rest|
      ensures rest[i] == if i < k then items[i] else items[i + 1]
    {
    }
  }

  /* Termination of one pass. An item not yet visited weighs 1 if its value
     has no cells (every sentence a pass appends is of this kind) and 2
     otherwise; each step of the `for` loop lowers the total weight from the
     iterator position on. */

  function W(v: Statement): nat
  {
    if v.cells == {} then 1 else 2
  }

  function Weight(vs: seq<Statement>): nat
  {
    if vs == [] then 0 else Weight(vs[..|vs| - 1]) + W(vs[|vs| - 1])
  }

  /** The weight of the values from iterator position `it` on. */
  function Pending(vs: seq<Statement>, it: nat): nat
  {
    if it <= |vs| then Weight(vs[it..]) else 0
  }

  lemma {:induction false} WeightAppend(a: seq<Statement>, b: seq<Statement>)
    ensures Weight(a + b) == Weight(a) + Weight(b)
    decreases |b|
  {
    if b == [] {
      assert a + b == a;
    } else {
      var b' := b[..|b| - 1];
      assert (a + b)[..|a + b| - 1] == a + b';
      WeightAppend(a, b');
    }
  }

  lemma PendingAppend(vs: seq<Statement>, v: Statement, it: nat)
    requires it <= |vs|
    ensures Pending(vs + [v], it) == Pending(vs, it) + W(v)
  {
    assert (vs + [v])[it..] == vs[it..] + [v];
    WeightAppend(vs[it..], [v]);
    assert [v][..0] == [];
  }

  lemma PendingFetch(vs: seq<Statement>, pos: nat)
    requires pos < |vs|
    ensures Pending(vs, pos) == W(vs[pos]) + Pending(vs, pos + 1)
  {
    assert vs[pos..] == [vs[pos]] + vs[pos + 1..];
    WeightAppend([vs[pos]], vs[pos + 1..]);
    assert [vs[pos]][..0] == [];
  }

  /** Removing an element at or before the current position makes the
      iterator skip the element after it. */
  lemma PendingRemove(vs: seq<Statement>, k: nat, pos: nat)
    requires k <= pos < |vs|
    ensures pos + 1 < |vs| ==>
              Pending(vs[..k] + vs[k + 1..], pos + 1) + W(vs[pos + 1]) == Pending(vs, pos + 1)
    ensures pos + 1 == |vs| ==> Pending(vs[..k] + vs[k + 1..], pos + 1) == 0
  {
    var ws := vs[..k] + vs[k + 1..];
    if pos + 1 < |vs| {
      assert ws[pos + 1..] == vs[pos + 2..];
      PendingFetch(vs, pos + 1);
    }
  }

  /** The removing half of a step of the `for` loop at iterator position
      `it` of the working list `items`: the value `v` there is removed (the
      first item of that value, which is the one `list.remove` finds) when
      it has no cells or a negative count. */
  function Kept(kv: seq<Statement>, items: seq<Item>, it: nat): (r: seq<Item>)
    requires Fits(items, |kv|) && it < |items|
    ensures Fits(r, |kv|)
    ensures OwnEmpty(items) ==> OwnEmpty(r)
  {
    var vs := ItemValues(kv, items);
    var v := vs[it];
    var k := IndexOf(vs, v);
    IndexOfAtMost(vs, v, it);
    FitsSplice(items, |kv|, k);
    if v.cells == {} || v.count < 0 then items[..k] + items[k + 1..] else items
  }

  /** One step of the `for` loop at iterator position `it` of the working
      list `items`: `Kept`, then `relationship(v, last)` for the value `v`
      there is appended when there is one. */
  function Step(kv: seq<Statement>, items: seq<Item>, it: nat, last: Statement): (r: seq<Item>)
    requires Fits(items, |kv|) && it < |items|
    ensures Fits(r, |kv|)
    ensures OwnEmpty(items) ==> OwnEmpty(r)
  {
    var kept := Kept(kv, items, it);
    match Relationship(ItemValue(kv, items[it]), last)
    case None => kept
    case Some(d) => kept + [Own(d)]
  }

  /** Appending a value adds at most its weight from any position on. */
  lemma PendingAppendAny(vs: seq<Statement>, v: Statement, pos: nat)
    ensures Pending(vs + [v], pos) <= Pending(vs, pos) + W(v)
  {
    if pos <= |vs| {
      PendingAppend(vs, v, pos);
    } else {
      assert pos == |vs| + 1 ==> (vs + [v])[pos..] == [];
    }
  }

  /** Dropping the visited sentence (or keeping it) leaves at least 2 less
      weight from the next position on, unless it was the last one left. */
  lemma KeptPending(kv: seq<Statement>, items: seq<Item>, it: nat)
    requires Fits(items, |kv|) && it < |items|
    ensures var kept := Kept(kv, items, it);
            || Pending(ItemValues(kv, kept), it + 1) + 2 <= Pending(ItemValues(kv, items), it)
            || (|kept| == it && 0 < Pending(ItemValues(kv, items), it))
  {
    var vs := ItemValues(kv, items);
    var v := vs[it];
    var k := IndexOf(vs, v);
    IndexOfAtMost(vs, v, it);
    FitsSplice(items, |kv|, k);
    PendingFetch(vs, it);
    if v.cells == {} || v.count < 0 {
      assert ItemValues(kv, items[..k] + items[k + 1..]) == vs[..k] + vs[k + 1..];
      PendingRemove(vs, k, it);
    } else {
      assert W(v) == 2;
    }
  }

  /** A step leaves less weight from the next position on. */
  lemma StepProgress(kv: seq<Statement>, items: seq<Item>, it: nat, last: Statement)
    requires Fits(items, |kv|) && it < |items|
    ensures Pending(ItemValues(kv, Step(kv, items, it, last)), it + 1) < Pending(ItemValues(kv, items), it)
  {
    KeptPending(kv, items, it);
    var kept := Kept(kv, items, it);
    match Relationship(ItemValue(kv, items[it]), last)
    case None =>
    case Some(d) =>
      var ws := ItemValues(kv, kept);
      assert ItemValues(kv, kept + [Own(d)]) == ws + [d];
      if |kept| == it {
        assert (ws + [d])[it + 1..] == [];
      } else {
        PendingAppendAny(ws, d, it + 1);
      }
  }

  /** What the `for` loop does from iterator position `it` on. */
  datatype Pass = Pass(visited: seq<Statement>, work: seq<Item>)

  /** The `for` loop of a pass from position `it` of the working list
      `items` on, with the knowledge base's values `kv` and the last
      sentence's value `last`: the values it visits, in order, and the
      working list it leaves. */
  function ForLoop(kv: seq<Statement>, items: seq<Item>, it: nat, last: Statement): (r: Pass)
    requires Fits(items, |kv|)
    ensures Fits(r.work, |kv|)
    ensures OwnEmpty(items) ==> OwnEmpty(r.work)
    decreases Pending(ItemValues(kv, items), it), 1
  {
    if it < |items| then Visit(kv, items, it, last) else Pass([], items)
  }

  /** The `for` loop when there is an element at position `it`: the step
      there, then the rest of the loop. */
  function Visit(kv: seq<Statement>, items: seq<Item>, it: nat, last: Statement): (r: Pass)
    requires Fits(items, |kv|) && it < |items|
    ensures Fits(r.work, |kv|)
    ensures OwnEmpty(items) ==> OwnEmpty(r.work)
    decreases Pending(ItemValues(kv, items), it), 0
  {
    StepProgress(kv, items, it, last);
    var r := ForLoop(kv, Step(kv, items, it, last), it + 1, last);
    Pass([ItemValue(kv, items[it])] + r.visited, r.work)
  }

  /** Visiting one more sentence adds its share to each summary. */
  lemma SummariesAppend(seen: seq<Statement>, v: Statement, last: Statement)
    ensures Discarded(seen + [v]) == Discarded(seen) + (if v.cells == {} || v.count < 0 then 1 else 0)
    ensures Inferred(seen + [v], last) == Inferred(seen, last) + (if Relationship(v, last).Some? then 1 else 0)
    ensures MinesOf(seen + [v]) == MinesOf(seen) + v.KnownMines()
    ensures SafesOf(seen + [v]) == SafesOf(seen) + v.KnownSafes()
  {
    assert (seen + [v])[..|seen|] == seen;
  }

  /** On a board where every visited sentence that has cells is true, a
      pass reports only mines as mines and only cells without a mine as
      safe; a sentence without cells reports nothing. */
  lemma {:induction false} PassSound(seen: seq<Statement>, mines: set<Cell>)
    requires forall k :: 0 <= k < |seen| && seen[k].cells != {} ==> seen[k].Holds(mines)
    ensures MinesOf(seen) <= mines
    ensures SafesOf(seen) * mines == {}
    decreases |seen|
  {
    if seen != [] {
      PassSound(seen[..|seen| - 1], mines);
      var v := seen[|seen| - 1];
      if v.cells != {} {
        KnownMinesSound(v, mines);
        KnownSafesSound(v, mines);
      }
    }
  }


  /** What `evaluate_knowledge` works on: the values of the sentences of
      `knowledge`, the known mines and safe cells, and the working list. */
  datatype World = World(knowledge: seq<Statement>, mines: set<Cell>, safes: set<Cell>, work: seq<Item>)

  /** The working list and the last sentence name sentences of `knowledge`
      only. */
  predicate WellFormed(w: World, last: Item)
  {
    Fits(w.work, |w.knowledge|) && Names(last, |w.knowledge|)
  }

  /** The world `evaluate_knowledge` starts from. */
  function Begin(kv: seq<Statement>, mines: set<Cell>, safes: set<Cell>): World
  {
    World(kv, mines, safes, Copy(|kv|))
  }

  /** The values of `knowledge` after the marking loops of a pass: the cells
      of `newMines` marked as mines, then those of `newSafes` as safe. */
  ghost function Cascade(kv: seq<Statement>, newMines: set<Cell>, newSafes: set<Cell>): seq<Statement>
  {
    seq(|kv|, i requires 0 <= i < |kv| => kv[i].WithMines(newMines).WithSafes(newSafes))
  }

  /** The world after one pass, and the pass's `changes`. */
  datatype Round = Round(world: World, changes: nat)

  /** One pass of the `while changes` loop: the `for` loop, then
      `mark_mine` for each cell of `new_mines - self.mines` and `mark_safe`
      for each cell of `new_safes - self.safes`, each counted as a change. */
  ghost function PassOf(w: World, last: Item): (r: Round)
    requires WellFormed(w, last)
    ensures WellFormed(r.world, last) && |r.world.knowledge| == |w.knowledge|
    ensures w.mines <= r.world.mines && w.safes <= r.world.safes
  {
    var lastValue := ItemValue(w.knowledge, last);
    var p := ForLoop(w.knowledge, w.work, 0, lastValue);
    var newMines := MinesOf(p.visited) - w.mines;
    var newSafes := SafesOf(p.visited) - w.safes;
    Round(World(Cascade(w.knowledge, newMines, newSafes),
                w.mines + MinesOf(p.visited), w.safes + SafesOf(p.visited), p.work),
          Discarded(p.visited) + Inferred(p.visited, lastValue) + |newMines| + |newSafes|)
  }

  /** `while changes: ...` from the world `w`, with at most `n` passes
      left: a pass, then the rest of the loop. */
  ghost function Run(w: World, last: Item, n: nat): (r: World)
    requires WellFormed(w, last)
    ensures WellFormed(r, last) && |r.knowledge| == |w.knowledge|
    ensures w.mines <= r.mines && w.safes <= r.safes
    decreases n, 0
  {
    if n == 0 then w else Onward(w, last, n - 1)
  }

  /** A pass from the world `w`, then the rest of the loop with at most `n`
      passes left. */
  ghost function Onward(w: World, last: Item, n: nat): (r: World)
    requires WellFormed(w, last)
    ensures WellFormed(r, last) && |r.knowledge| == |w.knowledge|
    ensures w.mines <= r.mines && w.safes <= r.safes
    decreases n, 2
  {
    Continue(PassOf(w, last), last, n)
  }

  /** The rest of the loop after a pass that reported `changes`: it ends when
      the pass changed nothing. `changes = 1` before the loop makes
      `Continue(Round(w, 1), last, n)` the whole loop. */
  ghost function Continue(p: Round, last: Item, n: nat): (r: World)
    requires WellFormed(p.world, last)
    ensures WellFormed(r, last) && |r.knowledge| == |p.world.knowledge|
    ensures p.world.mines <= r.mines && p.world.safes <= r.safes
    decreases n, 1
  {
    if p.changes == 0 then p.world else Run(p.world, last, n)
  }

  /** A pass, from its parts: the `for` loop `p`, the world `r` after
      the marking and the counts of the loop and of the marking. */
  lemma PassResult(w: World, last: Item, p: Pass, r: World, loopChanges: nat, marked: nat)
    requires WellFormed(w, last) && p == ForLoop(w.knowledge, w.work, 0, ItemValue(w.knowledge, last))
    requires r.work == p.work
    requires r.mines == w.mines + MinesOf(p.visited) && r.safes == w.safes + SafesOf(p.visited)
    requires r.knowledge == Cascade(w.knowledge, MinesOf(p.visited) - w.mines, SafesOf(p.visited) - w.safes)
    requires loopChanges == Discarded(p.visited) + Inferred(p.visited, ItemValue(w.knowledge, last))
    requires marked == |MinesOf(p.visited) - w.mines| + |SafesOf(p.visited) - w.safes|
    ensures PassOf(w, last) == Round(r, loopChanges + marked)
  {
  }

  /** While a pass reports changes and passes are left, the next pass runs:
      if it leads to `next` and reports `nextChanges`, the loop goes on from
      there. */
  lemma ContinueAfter(w: World, last: Item, changes: nat, n: nat, next: World, nextChanges: nat)
    requires WellFormed(w, last) && changes != 0 && n > 0
    requires PassOf(w, last) == Round(next, nextChanges)
    ensures WellFormed(next, last)
    ensures Continue(Round(w, changes), last, n) == Continue(Round(next, nextChanges), last, n - 1)
  {
    assert Run(w, last, n) == Onward(w, last, n - 1);
  }

  /** After a pass without changes, or after the last pass, the loop ends. */
  lemma ContinueStop(w: World, last: Item, changes: nat, n: nat)
    requires WellFormed(w, last) && (changes == 0 || n == 0)
    ensures Continue(Round(w, changes), last, n) == w
  {
  }

  /** The evaluation `add_knowledge` runs once it has probed: the new
      sentence `s` is appended to the knowledge base `kv` and is the last
      sentence. */
  ghost function Learn(kv: seq<Statement>, mines: set<Cell>, safes: set<Cell>, s: Statement, fuel: nat): (r: World)
    ensures |r.knowledge| == |kv| + 1 && Fits(r.work, |r.knowledge|)
    ensures mines <= r.mines && safes <= r.safes
  {
    Continue(Round(Begin(kv + [s], mines, safes), 1), Shared(|kv|), fuel)
  }

  /** After `mark_mine` for each cell of `mineOrder` and `mark_safe` for each
      cell of `safeOrder`, in those orders, every value is the value
      `Cascade` gives, whatever the orders. */
  lemma CascadeOfMarks(kv: seq<Statement>, mineOrder: seq<Cell>, safeOrder: seq<Cell>)
    ensures AllMarked(AllMarked(kv, MineMarks(mineOrder)), SafeMarks(safeOrder))
            == Cascade(kv, Elems(mineOrder), Elems(safeOrder))
  {
    forall i | 0 <= i < |kv|
      ensures kv[i].Marked(MineMarks(mineOrder)).Marked(SafeMarks(safeOrder))
              == kv[i].WithMines(Elems(mineOrder)).WithSafes(Elems(safeOrder))
    {
      MineMarksAnyOrder(kv[i], mineOrder);
      SafeMarksAnyOrder(kv[i].Marked(MineMarks(mineOrder)), safeOrder);
    }
  }

  /* Soundness: on a board where every sentence of the knowledge base is
     true, every cell the evaluation adds to `mines` is a mine and every cell
     it adds to `safes` is not. */

  /** What the world claims is true of the board whose mines are `board`:
      the sentences of `knowledge` hold or have no cells, the sentences a
      pass created have no cells, the known mines are mines and the known
      safe cells are not. A sentence without cells reports no mine and no
      safe cell, and marking keeps it without cells. */
  ghost predicate TrueOf(w: World, board: set<Cell>)
  {
    && (forall i :: 0 <= i < |w.knowledge| ==> w.knowledge[i].cells == {} || w.knowledge[i].Holds(board))
    && OwnEmpty(w.work)
    && w.mines <= board && w.safes * board == {}
  }

  /** Every value a `for` loop visits has no cells or holds on the board. */
  lemma {:induction false} ForLoopTrue(kv: seq<Statement>, items: seq<Item>, it: nat, last: Statement, board: set<Cell>)
    requires Fits(items, |kv|) && OwnEmpty(items)
    requires forall i :: 0 <= i < |kv| ==> kv[i].cells == {} || kv[i].Holds(board)
    ensures forall j :: 0 <= j < |ForLoop(kv, items, it, last).visited| ==>
              var v := ForLoop(kv, items, it, last).visited[j]; v.cells != {} ==> v.Holds(board)
    decreases Pending(ItemValues(kv, items), it)
  {
    if it < |items| {
      StepProgress(kv, items, it, last);
      var next := Step(kv, items, it, last);
      ForLoopTrue(kv, next, it + 1, last, board);
      var visited := ForLoop(kv, items, it, last).visited;
      var rest := ForLoop(kv, next, it + 1, last).visited;
      assert visited == [ItemValue(kv, items[it])] + rest;
      forall j | 0 <= j < |visited| && visited[j].cells != {}
        ensures visited[j].Holds(board)
      {
        if j > 0 {
          assert visited[j] == rest[j - 1];
        }
      }
    }
  }

  /** A pass keeps everything the world claims true. */
  lemma PassTrue(w: World, last: Item, board: set<Cell>)
    requires WellFormed(w, last) && TrueOf(w, board)
    ensures TrueOf(PassOf(w, last).world, board)
  {
    var lastValue := ItemValue(w.knowledge, last);
    var p := ForLoop(w.knowledge, w.work, 0, lastValue);
    ForLoopTrue(w.knowledge, w.work, 0, lastValue, board);
    PassSound(p.visited, board);
    var newMines := MinesOf(p.visited) - w.mines;
    var newSafes := SafesOf(p.visited) - w.safes;
    forall i | 0 <= i < |w.knowledge| && w.knowledge[i].cells != {}
      ensures w.knowledge[i].WithMines(newMines).WithSafes(newSafes).Holds(board)
    {
      WithMinesSound(w.knowledge[i], newMines, board);
      WithSafesSound(w.knowledge[i].WithMines(newMines), newSafes, board);
    }
    var r := PassOf(w, last).world;
    assert r.knowledge == Cascade(w.knowledge, newMines, newSafes) && r.work == p.work;
  }

  /** The whole evaluation keeps everything the world claims true: in
      particular it finds only real mines and real safe cells. */
  lemma {:induction false} RunTrue(w: World, last: Item, n: nat, board: set<Cell>)
    requires WellFormed(w, last) && TrueOf(w, board)
    ensures TrueOf(Run(w, last, n), board)
    decreases n, 0
  {
    if n > 0 {
      PassTrue(w, last, board);
      ContinueTrue(PassOf(w, last), last, n - 1, board);
      assert Run(w, last, n) == Onward(w, last, n - 1);
    }
  }

  lemma {:induction false} ContinueTrue(p: Round, last: Item, n: nat, board: set<Cell>)
    requires WellFormed(p.world, last) && TrueOf(p.world, board)
    ensures TrueOf(Continue(p, last, n), board)
    decreases n, 1
  {
    if p.changes != 0 {
      RunTrue(p.world, last, n, board);
    }
  }

  /** `add_knowledge` is sound: if the old sentences and the new one hold
      on the board or have no cells, the known mines are mines and the known
      safe cells (the probed cell among them) are not, then afterwards every
      cell in `mines` is a mine, no cell in `safes` is one, and every
      sentence of the new knowledge base holds or has no cells. The
      conclusion is the hypothesis again, so the lemma applies probe after
      probe. */
  lemma LearnSound(kv: seq<Statement>, mines: set<Cell>, safes: set<Cell>, s: Statement, fuel: nat, board: set<Cell>)
    requires forall i :: 0 <= i < |kv| ==> kv[i].cells == {} || kv[i].Holds(board)
    requires (s.cells == {} || s.Holds(board)) && mines <= board && safes * board == {}
    ensures var r := Learn(kv, mines, safes, s, fuel);
            && r.mines <= board && r.safes * board == {}
            && forall i :: 0 <= i < |r.work| ==>
                 var v := ItemValues(r.knowledge, r.work)[i]; v.cells == {} || v.Holds(board)
  {
    var w := Begin(kv + [s], mines, safes);
    ContinueTrue(Round(w, 1), Shared(|kv|), fuel, board);
  }

  /** The cell `c` is known to be safe, and the sentence at position `i`
      has it or it is known to be a mine. */
  ghost predicate KeepsCell(w: World, c: Cell, i: nat)
  {
    c in w.safes && i < |w.knowledge| && (c in w.knowledge[i].cells || c in w.mines)
  }

  /** A cell already known to be safe is never marked in a sentence (the
      marking loops skip `new_safes - self.safes`): a sentence that has it
      keeps it through a pass, unless the pass finds it to be a mine. */
  lemma PassKeepsSafeCell(w: World, last: Item, c: Cell, i: nat)
    requires WellFormed(w, last) && KeepsCell(w, c, i)
    ensures KeepsCell(PassOf(w, last).world, c, i)
  {
  }

  /** The same for the whole evaluation. */
  lemma {:induction false} RunKeepsSafeCell(w: World, last: Item, n: nat, c: Cell, i: nat)
    requires WellFormed(w, last) && KeepsCell(w, c, i)
    ensures KeepsCell(Run(w, last, n), c, i)
    decreases n, 0
  {
    if n > 0 {
      PassKeepsSafeCell(w, last, c, i);
      ContinueKeepsSafeCell(PassOf(w, last), last, n - 1, c, i);
      assert Run(w, last, n) == Onward(w, last, n - 1);
    }
  }

  lemma {:induction false} ContinueKeepsSafeCell(p: Round, last: Item, n: nat, c: Cell, i: nat)
    requires WellFormed(p.world, last) && KeepsCell(p.world, c, i)
    ensures KeepsCell(Continue(p, last, n), c, i)
    decreases n, 1
  {
    if p.changes != 0 {
      RunKeepsSafeCell(p.world, last, n, c, i);
    }
  }

  /** The cell `add_knowledge` probes goes into `safes` without being
      marked: a sentence of the old knowledge base that has it keeps it,
      unless it is later found to be a mine. */
  lemma ProbedCellKept(kv: seq<Statement>, mines: set<Cell>, safes: set<Cell>, s: Statement, fuel: nat,
                       cell: Cell, i: nat)
    requires i < |kv| && cell in kv[i].cells
    ensures var r := Learn(kv, mines, safes + {cell}, s, fuel);
            cell in r.knowledge[i].cells || cell in r.mines
  {
    ContinueKeepsSafeCell(Round(Begin(kv + [s], mines, safes + {cell}), 1), Shared(|kv|), fuel, cell, i);
  }
}
