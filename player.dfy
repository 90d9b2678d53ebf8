/**
 * The player (`MinesweeperAI`): the sets of probed, safe and mine cells, the
 * list of sentences it believes, and the inference that runs after every
 * probe. Its methods are proved against the value-level model of module
 * `Inference`.
 */
module Player {
  import opened Cells
  import opened Sentences
  import opened Inference

  /* How the working list of `evaluate_knowledge` relates to its
     description by `Item`s. */

  /** The sentence `s` is the one `x` describes: the sentence at position
      `k` of `ks`, or a sentence outside `ks` whose value is `v`. */
  ghost predicate Denotes(ks: seq<Sentence>, x: Item, s: Sentence)
    reads s
  {
    match x
    case Shared(k) => k < |ks| && ks[k] == s
    case Own(v) => s !in ks && s.Value() == v
  }

  /** The working list `nk` is described by `items`, position by position. */
  ghost predicate Tracks(ks: seq<Sentence>, nk: seq<Sentence>, items: seq<Item>)
    reads nk
  {
    && Fits(items, |ks|) && |nk| == |items|
    && forall i :: 0 <= i < |items| ==> Denotes(ks, items[i], nk[i])
  }

  /** The values of a described working list are the values of its items. */
  lemma TracksValues(ks: seq<Sentence>, nk: seq<Sentence>, items: seq<Item>)
    requires Tracks(ks, nk, items)
    ensures Values(nk) == ItemValues(Values(ks), items)
  {
    ValuesAt(nk);
    ValuesAt(ks);
  }

  /** `self.knowledge[:]` is described by `Copy`. */
  lemma TracksCopy(ks: seq<Sentence>)
    ensures Tracks(ks, ks, Copy(|ks|))
  {
  }

  /** The value of the sentence an item describes. */
  lemma DenotesValue(ks: seq<Sentence>, x: Item, s: Sentence)
    requires Denotes(ks, x, s)
    ensures Names(x, |ks|) && ItemValue(Values(ks), x) == s.Value()
  {
    ValuesAt(ks);
  }

  /** Removing the same position from the list and its description. */
  lemma TracksSplice(ks: seq<Sentence>, nk: seq<Sentence>, items: seq<Item>, k: nat)
    requires Tracks(ks, nk, items) && k < |nk|
    ensures Tracks(ks, nk[..k] + nk[k + 1..], items[..k] + items[k + 1..])
  {
    FitsSplice(items, |ks|, k);
    var rest := items[..k] + items[k + 1..];
    forall i | 0 <= i < |rest|
      ensures Denotes(ks, rest[i], (nk[..k] + nk[k + 1..])[i])
    {
      if i < k {
        assert rest[i] == items[i];
      } else {
        assert rest[i] == items[i + 1];
      }
    }
  }

  /** Appending a sentence and its description. */
  lemma TracksAppend(ks: seq<Sentence>, nk: seq<Sentence>, items: seq<Item>, t: Sentence, x: Item)
    requires Tracks(ks, nk, items) && Denotes(ks, x, t)
    ensures Tracks(ks, nk + [t], items + [x])
  {
    assert (items + [x])[|items|] == x;
  }

  /** There is a first sentence equal to `s` when `s` is in the list. */
  lemma IndexOfMember(nk: seq<Sentence>, s: Sentence)
    requires s in nk
    ensures IndexOf(Values(nk), s.Value()) < |nk|
  {
    var k :| 0 <= k < |nk| && nk[k] == s;
    ValuesAt(nk);
    IndexOfAtMost(Values(nk), s.Value(), k);
  }

  /** Adding the new part of `b` to `a` adds all of `b`. */
  lemma AddNew(a: set<Cell>, b: set<Cell>, d: set<Cell>)
    requires d == b - a
    ensures a + d == a + b
  {
  }

  /** The cells `get_neighbors` has added after looking at every row before
      `a` and, in row `a`, every column before `b`. */
  ghost function NeighborsBefore(cell: Cell, height: int, width: int, moved: set<Cell>, a: int, b: int): set<Cell>
  {
    var rows := GetBoundaries(cell.0, width);
    var cols := GetBoundaries(cell.1, height);
    set i, j | rows.start <= i < rows.stop && cols.start <= j < cols.stop
               && (i < a || (i == a && j < b))
               && (i, j) != cell && (i, j) !in moved :: (i, j)
  }

  /** The cells of `range(width) x range(height)` that `make_random_move`
      has collected after the rows before `row` and, in row `row`, the
      columns before `column`. */
  ghost function AvailableBefore(width: int, height: int, mines: set<Cell>, moved: set<Cell>,
                                 row: int, column: int): set<Cell>
  {
    set i, j | 0 <= i < width && 0 <= j < height && (i < row || (i == row && j < column))
               && (i, j) !in mines && (i, j) !in moved :: (i, j)
  }

  /** `nk.remove(s)` for a sentence `s` of the list: Python's `list.remove`
      deletes the first element that `__eq__` (`Sentence.Equals`) finds
      equal to `s`, which need not be `s` itself. */
  method RemoveFirst(nk: seq<Sentence>, s: Sentence) returns (nk': seq<Sentence>, ghost k: nat)
    requires s in nk
    ensures IndexOf(Values(nk), s.Value()) < |nk|
    ensures nk' == nk[..IndexOf(Values(nk), s.Value())] + nk[IndexOf(Values(nk), s.Value()) + 1..]
    ensures k == IndexOf(Values(nk), s.Value())
  {
    IndexOfMember(nk, s);
    IndexOfFirst(Values(nk), s.Value());
    ValuesAt(nk);
    var j := 0;
    while !nk[j].Equals(s)
      invariant j <= IndexOf(Values(nk), s.Value())
      decreases IndexOf(Values(nk), s.Value()) - j
    {
      j := j + 1;
    }
    k := j;
    nk' := nk[..j] + nk[j + 1..];
  }

  /** The removing half of one step of the `for` loop of a pass, at
      iterator position `it` of the working list `nk`: the sentence there,
      of value `v`, is removed when it has no cells or a negative count. On
      the descriptions this is `Kept`. */
  method DropVisited(ghost ks: seq<Sentence>, nk: seq<Sentence>, ghost items: seq<Item>, it: nat)
    returns (nk': seq<Sentence>, v: Statement, removed: bool, ghost items': seq<Item>)
    requires Tracks(ks, nk, items) && it < |nk|
    ensures Tracks(ks, nk', items')
    ensures items' == Kept(Values(ks), items, it)
    ensures v == ItemValue(Values(ks), items[it])
    ensures removed <==> v.cells == {} || v.count < 0
  {
    TracksValues(ks, nk, items);
    ValuesAt(nk);
    var sentence := nk[it];
    v := sentence.Value();
    nk', items' := nk, items;
    removed := |sentence.cells| == 0 || sentence.count < 0;
    if removed {
      ghost var k;
      nk', k := RemoveFirst(nk, sentence);
      TracksSplice(ks, nk, items, k);
      items' := items[..k] + items[k + 1..];
    }
  }

  /** One step of the `for` loop of a pass, at iterator position `it` of
      the working list `nk`: `DropVisited`, then a new sentence for
      `relationship(sentence, last)` is appended when there is one. On the
      descriptions this is `Step`. */
  method VisitOne(ghost ks: seq<Sentence>, last: Statement, nk: seq<Sentence>, ghost items: seq<Item>, it: nat)
    returns (nk': seq<Sentence>, v: Statement, removed: bool, inferred: bool, ghost items': seq<Item>)
    requires Tracks(ks, nk, items) && it < |nk|
    ensures Tracks(ks, nk', items')
    ensures items' == Step(Values(ks), items, it, last)
    ensures v == ItemValues(Values(ks), items)[it]
    ensures removed <==> v.cells == {} || v.count < 0
    ensures inferred <==> Relationship(v, last).Some?
  {
    nk', v, removed, items' := DropVisited(ks, nk, items, it);
    var inferredSentence := Relationship(v, last);
    inferred := inferredSentence.Some?;
    if inferred {
      var d := inferredSentence.value;
      var t := new Sentence(d.cells, d.count);
      TracksAppend(ks, nk', items', t, Own(d));
      nk', items' := nk' + [t], items' + [Own(d)];
    }
  }

  /** The counting part of one step of the `for` loop: a removal and an
      appended sentence each count as a change, and the visited sentence's
      `known_mines` and `known_safes` join `new_mines` and `new_safes`. */
  method Tally(last: Statement, v: Statement, removed: bool, inferred: bool,
               changes: nat, newMines: set<Cell>, newSafes: set<Cell>, ghost seen: seq<Statement>)
    returns (changes': nat, newMines': set<Cell>, newSafes': set<Cell>)
    requires removed <==> v.cells == {} || v.count < 0
    requires inferred <==> Relationship(v, last).Some?
    requires changes == Discarded(seen) + Inferred(seen, last)
    requires newMines == MinesOf(seen) && newSafes == SafesOf(seen)
    ensures changes' == Discarded(seen + [v]) + Inferred(seen + [v], last)
    ensures newMines' == MinesOf(seen + [v]) && newSafes' == SafesOf(seen + [v])
  {
    SummariesAppend(seen, v, last);
    changes', newMines', newSafes' := changes, newMines, newSafes;
    if removed {
      changes' := changes' + 1;
    }
    if v.KnownMines() != {} {
      newMines' := newMines' + v.KnownMines();
    }
    if v.KnownSafes() != {} {
      newSafes' := newSafes' + v.KnownSafes();
    }
    if inferred {
      changes' := changes' + 1;
    }
  }

  class MinesweeperAI {
    const height: int
    const width: int
    var movesMade: set<Cell>
    var mines: set<Cell>
    var safes: set<Cell>
    var knowledge: seq<Sentence>

    constructor (height: int := 8, width: int := 8)
      ensures this.height == height && this.width == width
      ensures movesMade == {} && mines == {} && safes == {} && knowledge == []
    {
      this.height := height;
      this.width := width;
      movesMade := {};
      mines := {};
      safes := {};
      knowledge := [];
    }

    /** `mark_mine`: records `c` as a mine and marks it in every sentence of
        `knowledge`; a sentence that occurs twice is marked once in effect. */
    method MarkMine(c: Cell)
      modifies this, knowledge
      ensures mines == old(mines) + {c}
      ensures safes == old(safes) && movesMade == old(movesMade) && knowledge == old(knowledge)
      ensures Values(knowledge) == AllMarked(old(Values(knowledge)), [Mine(c)])
      ensures forall k :: 0 <= k < |knowledge| ==> c !in knowledge[k].cells
      ensures forall k :: 0 <= k < |knowledge| ==> knowledge[k].cells == old(knowledge[k].cells) - {c}
    {
      ValuesAt(knowledge);
      mines := mines + {c};
      var i := 0;
      while i < |knowledge|
        invariant 0 <= i <= |knowledge|
        invariant mines == old(mines) + {c}
        invariant safes == old(safes) && movesMade == old(movesMade) && knowledge == old(knowledge)
        invariant forall s :: s in knowledge ==>
                    s.Value() == if s in knowledge[..i] then old(s.Value()).WithMine(c) else old(s.Value())
      {
        var s := knowledge[i];
        WithMineTwice(old(s.Value()), c);
        s.MarkMine(c);
        assert knowledge[..i + 1] == knowledge[..i] + [knowledge[i]];
        i := i + 1;
      }
      assert knowledge[..i] == knowledge;
      ValuesAt(knowledge);
      AllMarkedNone(old(Values(knowledge)));
      assert [] + [Mine(c)] == [Mine(c)];
      AllMarkedStep(old(Values(knowledge)), [], Mine(c));
      forall k | 0 <= k < |knowledge|
        ensures Values(knowledge)[k] == old(Values(knowledge))[k].Apply(Mine(c))
        ensures knowledge[k].cells == old(knowledge[k].cells) - {c}
      {
        assert knowledge[k] in knowledge;
      }
    }

    /** `mark_safe`: records `c` as safe and marks it in every sentence of
        `knowledge`. */
    method MarkSafe(c: Cell)
      modifies this, knowledge
      ensures safes == old(safes) + {c}
      ensures mines == old(mines) && movesMade == old(movesMade) && knowledge == old(knowledge)
      ensures Values(knowledge) == AllMarked(old(Values(knowledge)), [Safe(c)])
      ensures forall k :: 0 <= k < |knowledge| ==> c !in knowledge[k].cells
      ensures forall k :: 0 <= k < |knowledge| ==> knowledge[k].cells == old(knowledge[k].cells) - {c}
    {
      ValuesAt(knowledge);
      safes := safes + {c};
      var i := 0;
      while i < |knowledge|
        invariant 0 <= i <= |knowledge|
        invariant safes == old(safes) + {c}
        invariant mines == old(mines) && movesMade == old(movesMade) && knowledge == old(knowledge)
        invariant forall s :: s in knowledge ==>
                    s.Value() == if s in knowledge[..i] then old(s.Value()).WithSafe(c) else old(s.Value())
      {
        var s := knowledge[i];
        s.MarkSafe(c);
        assert knowledge[..i + 1] == knowledge[..i] + [knowledge[i]];
        i := i + 1;
      }
      assert knowledge[..i] == knowledge;
      ValuesAt(knowledge);
      AllMarkedNone(old(Values(knowledge)));
      assert [] + [Safe(c)] == [Safe(c)];
      AllMarkedStep(old(Values(knowledge)), [], Safe(c));
      forall k | 0 <= k < |knowledge|
        ensures Values(knowledge)[k] == old(Values(knowledge))[k].Apply(Safe(c))
        ensures knowledge[k].cells == old(knowledge[k].cells) - {c}
      {
        assert knowledge[k] in knowledge;
      }
    }

    /** The `for` loop of one pass over the working list `nk`, described by
        `items`. Python's list iterator keeps a position `it`; removing an
        element at or before it shifts the rest left, so the element after
        the current one is skipped, and an element appended behind the
        iterator is still visited. The loop is `ForLoop` on the
        descriptions, and the counters are the summaries of the values it
        visits. */
    method VisitSentences(last: Sentence, nk: seq<Sentence>, ghost items: seq<Item>)
      returns (nk': seq<Sentence>, changes: nat, newMines: set<Cell>, newSafes: set<Cell>,
               ghost items': seq<Item>)
      requires Tracks(knowledge, nk, items)
      ensures Tracks(knowledge, nk', items')
      ensures items' == ForLoop(Values(knowledge), items, 0, last.Value()).work
      ensures var p := ForLoop(Values(knowledge), items, 0, last.Value());
              && newMines == MinesOf(p.visited) && newSafes == SafesOf(p.visited)
              && changes == Discarded(p.visited) + Inferred(p.visited, last.Value())
    {
      ghost var kv := Values(knowledge);
      var lastValue := last.Value();
      ghost var whole := ForLoop(kv, items, 0, lastValue);
      ghost var seen: seq<Statement> := [];
      nk', items' := nk, items;
      changes, newMines, newSafes := 0, {}, {};
      var it := 0;
      while it < |nk'|
        invariant Tracks(knowledge, nk', items')
        invariant whole.visited == seen + ForLoop(kv, items', it, lastValue).visited
        invariant whole.work == ForLoop(kv, items', it, lastValue).work
        invariant newMines == MinesOf(seen) && newSafes == SafesOf(seen)
        invariant changes == Discarded(seen) + Inferred(seen, lastValue)
        decreases Pending(ItemValues(kv, items'), it)
      {
        var v, removed, inferred;
        ghost var before := items';
        nk', v, removed, inferred, items' := VisitOne(knowledge, lastValue, nk', items', it);
        StepProgress(kv, before, it, lastValue);
        ghost var rest := ForLoop(kv, items', it + 1, lastValue);
        assert ForLoop(kv, before, it, lastValue) == Pass([v] + rest.visited, rest.work);
        assert seen + ([v] + rest.visited) == (seen + [v]) + rest.visited;
        changes, newMines, newSafes := Tally(lastValue, v, removed, inferred, changes, newMines, newSafes, seen);
        seen := seen + [v];
        it := it + 1;
      }
      assert seen + [] == seen;
    }

    /** One pass of the `while changes` loop of `evaluate_knowledge`: the
        `for` loop over the working list `nk`, then the marking of the new
        mines and safe cells. On values this is `PassOf`. */
    method EvaluationPass(last: Sentence, nk: seq<Sentence>, ghost items: seq<Item>, ghost lastItem: Item)
      returns (nk': seq<Sentence>, changes: nat, ghost items': seq<Item>)
      requires Tracks(knowledge, nk, items) && Denotes(knowledge, lastItem, last)
      modifies this, knowledge
      ensures knowledge == old(knowledge) && movesMade == old(movesMade)
      ensures Tracks(knowledge, nk', items') && Denotes(knowledge, lastItem, last)
      ensures PassOf(old(World(Values(knowledge), mines, safes, items)), lastItem)
              == Round(World(Values(knowledge), mines, safes, items'), changes)
    {
      var newMines, newSafes, marked;
      nk', changes, newMines, newSafes, items' := VisitSentences(last, nk, items);
      ghost var w := World(Values(knowledge), mines, safes, items);
      assert w == old(World(Values(knowledge), mines, safes, items));
      DenotesValue(knowledge, lastItem, last);
      ghost var p := ForLoop(w.knowledge, items, 0, last.Value());
      marked := MarkPass(newMines, newSafes, nk', items');
      PassResult(w, lastItem, p, World(Values(knowledge), mines, safes, items'), changes, marked);
      changes := changes + marked;
    }

    /** The marking part of a pass: `mark_mine` for each cell of
        `new_mines - self.mines`, then `mark_safe` for each cell of
        `new_safes - self.safes`, each counted in `marked`. They reach the
        sentences of `knowledge`, not those a pass appended. */
    method MarkPass(newMines: set<Cell>, newSafes: set<Cell>, ghost nk: seq<Sentence>, ghost items: seq<Item>)
      returns (marked: nat)
      requires Tracks(knowledge, nk, items)
      modifies this, knowledge
      ensures knowledge == old(knowledge) && movesMade == old(movesMade)
      ensures Tracks(knowledge, nk, items)
      ensures mines == old(mines) + newMines && safes == old(safes) + newSafes
      ensures Values(knowledge) == Cascade(old(Values(knowledge)), newMines - old(mines), newSafes - old(safes))
      ensures marked == |newMines - old(mines)| + |newSafes - old(safes)|
    {
      var mineOrder, safeOrder, n;
      marked, mineOrder := MarkNewMines(newMines);
      n, safeOrder := MarkNewSafes(newSafes);
      marked := marked + n;
      CascadeOfMarks(old(Values(knowledge)), mineOrder, safeOrder);
      forall i | 0 <= i < |items|
        ensures Denotes(knowledge, items[i], nk[i])
      {
        assert old(Denotes(knowledge, items[i], nk[i]));
      }
    }

    /** The `n`-th call `mark_mine(order[n])` of a cascade over `order`: if
        `mines` holds `mines0` and the cells before `n`, and the values of
        `knowledge` are those of `vs` after marking them, then both hold
        with `n + 1` afterwards. */
    method MarkNextMine(order: seq<Cell>, n: nat, ghost mines0: set<Cell>, ghost vs: seq<Statement>)
      requires n < |order|
      requires mines == mines0 + Elems(order[..n])
      requires Values(knowledge) == AllMarked(vs, MineMarks(order[..n]))
      modifies this, knowledge
      ensures mines == mines0 + Elems(order[..n + 1])
      ensures safes == old(safes) && movesMade == old(movesMade) && knowledge == old(knowledge)
      ensures Values(knowledge) == AllMarked(vs, MineMarks(order[..n + 1]))
    {
      MarkMine(order[n]);
      ElemsStep(order, n);
      MineMarksStep(order, n);
      AllMarkedAppend(vs, MineMarks(order[..n]), [Mine(order[n])]);
    }

    /** `self.mark_mine(c)` for each cell `c` of `order`, in order. */
    method MarkMineEach(order: seq<Cell>)
      modifies this, knowledge
      ensures mines == old(mines) + Elems(order)
      ensures safes == old(safes) && movesMade == old(movesMade) && knowledge == old(knowledge)
      ensures Values(knowledge) == AllMarked(old(Values(knowledge)), MineMarks(order))
    {
      ghost var vs := Values(knowledge);
      var n := 0;
      AllMarkedNone(vs);
      while n < |order|
        invariant n <= |order|
        invariant mines == old(mines) + Elems(order[..n])
        invariant safes == old(safes) && movesMade == old(movesMade) && knowledge == old(knowledge)
        invariant Values(knowledge) == AllMarked(vs, MineMarks(order[..n]))
      {
        MarkNextMine(order, n, old(mines), vs);
        n := n + 1;
      }
      assert order[..n] == order;
    }

    /** `for new_mine in (new_mines - self.mines): self.mark_mine(new_mine)`:
        `order` is the order in which the set is iterated, and `n` counts
        the calls. */
    method MarkNewMines(newMines: set<Cell>) returns (n: nat, order: seq<Cell>)
      modifies this, knowledge
      ensures mines == old(mines) + newMines
      ensures safes == old(safes) && movesMade == old(movesMade) && knowledge == old(knowledge)
      ensures Values(knowledge) == AllMarked(old(Values(knowledge)), MineMarks(order))
      ensures Elems(order) == newMines - old(mines)
      ensures n == |order| == |newMines - old(mines)|
    {
      order := Enumerate(newMines - mines);
      MarkMineEach(order);
      n := |order|;
      AddNew(old(mines), newMines, Elems(order));
    }

    /** The `n`-th call `mark_safe(order[n])` of a cascade over `order`: if
        `safes` holds `safes0` and the cells before `n`, and the values of
        `knowledge` are those of `vs` after marking them, then both hold
        with `n + 1` afterwards. */
    method MarkNextSafe(order: seq<Cell>, n: nat, ghost safes0: set<Cell>, ghost vs: seq<Statement>)
      requires n < |order|
      requires safes == safes0 + Elems(order[..n])
      requires Values(knowledge) == AllMarked(vs, SafeMarks(order[..n]))
      modifies this, knowledge
      ensures safes == safes0 + Elems(order[..n + 1])
      ensures mines == old(mines) && movesMade == old(movesMade) && knowledge == old(knowledge)
      ensures Values(knowledge) == AllMarked(vs, SafeMarks(order[..n + 1]))
    {
      MarkSafe(order[n]);
      ElemsStep(order, n);
      SafeMarksStep(order, n);
      AllMarkedAppend(vs, SafeMarks(order[..n]), [Safe(order[n])]);
    }

    /** `self.mark_safe(c)` for each cell `c` of `order`, in order. */
    method MarkSafeEach(order: seq<Cell>)
      modifies this, knowledge
      ensures safes == old(safes) + Elems(order)
      ensures mines == old(mines) && movesMade == old(movesMade) && knowledge == old(knowledge)
      ensures Values(knowledge) == AllMarked(old(Values(knowledge)), SafeMarks(order))
    {
      ghost var vs := Values(knowledge);
      var n := 0;
      AllMarkedNone(vs);
      while n < |order|
        invariant n <= |order|
        invariant safes == old(safes) + Elems(order[..n])
        invariant mines == old(mines) && movesMade == old(movesMade) && knowledge == old(knowledge)
        invariant Values(knowledge) == AllMarked(vs, SafeMarks(order[..n]))
      {
        MarkNextSafe(order, n, old(safes), vs);
        n := n + 1;
      }
      assert order[..n] == order;
    }

    /** `for new_safe in (new_safes - self.safes): self.mark_safe(new_safe)`:
        `order` is the order in which the set is iterated, and `n` counts
        the calls. */
    method MarkNewSafes(newSafes: set<Cell>) returns (n: nat, order: seq<Cell>)
      modifies this, knowledge
      ensures safes == old(safes) + newSafes
      ensures mines == old(mines) && movesMade == old(movesMade) && knowledge == old(knowledge)
      ensures Values(knowledge) == AllMarked(old(Values(knowledge)), SafeMarks(order))
      ensures Elems(order) == newSafes - old(safes)
      ensures n == |order| == |newSafes - old(safes)|
    {
      order := Enumerate(newSafes - safes);
      MarkSafeEach(order);
      n := |order|;
      AddNew(old(safes), newSafes, Elems(order));
    }

    /** `evaluate_knowledge(last)`: passes over a copy of `knowledge` while
        a pass reports changes, at most `fuel` of them, `lastItem`
        describing `last`. On values this is `Continue` from the copy with
        `changes = 1`. */
    method EvaluateKnowledge(last: Sentence, fuel: nat, ghost lastItem: Item)
      returns (nk: seq<Sentence>, ghost items: seq<Item>)
      requires Denotes(knowledge, lastItem, last)
      modifies this, knowledge
      ensures knowledge == old(knowledge) && movesMade == old(movesMade)
      ensures Tracks(knowledge, nk, items)
      ensures Continue(Round(old(Begin(Values(knowledge), mines, safes)), 1), lastItem, fuel)
              == World(Values(knowledge), mines, safes, items)
    {
      ghost var w0 := Begin(Values(knowledge), mines, safes);
      nk := knowledge;
      items := Copy(|knowledge|);
      TracksCopy(knowledge);
      assert w0 == World(Values(knowledge), mines, safes, items);
      var changes, left := 1, fuel;
      ghost var outcome, now := Continue(Round(w0, 1), lastItem, fuel), w0;
      while changes != 0 && left > 0
        invariant knowledge == old(knowledge) && movesMade == old(movesMade)
        invariant Tracks(knowledge, nk, items) && Denotes(knowledge, lastItem, last)
        invariant now == World(Values(knowledge), mines, safes, items) && WellFormed(now, lastItem)
        invariant outcome == Continue(Round(now, changes), lastItem, left)
        decreases left
      {
        nk, changes, items, now := LoopPass(last, nk, items, lastItem, now, changes, left);
        left := left - 1;
      }
      ContinueStop(now, lastItem, changes, left);
    }

    /** An iteration of the `while changes` loop of `evaluate_knowledge`,
        entered because the previous pass reported `changes` and a pass is
        left: the rest of the loop is the rest after this pass. */
    method LoopPass(last: Sentence, nk: seq<Sentence>, ghost items: seq<Item>, ghost lastItem: Item,
                    ghost now: World, ghost changes: nat, ghost left: nat)
      returns (nk': seq<Sentence>, changes': nat, ghost items': seq<Item>, ghost next: World)
      requires Tracks(knowledge, nk, items) && Denotes(knowledge, lastItem, last)
      requires now == World(Values(knowledge), mines, safes, items) && WellFormed(now, lastItem)
      requires changes != 0 && left > 0
      modifies this, knowledge
      ensures knowledge == old(knowledge) && movesMade == old(movesMade)
      ensures Tracks(knowledge, nk', items') && Denotes(knowledge, lastItem, last)
      ensures next == World(Values(knowledge), mines, safes, items') && WellFormed(next, lastItem)
      ensures Continue(Round(now, changes), lastItem, left) == Continue(Round(next, changes'), lastItem, left - 1)
    {
      nk', changes', items' := EvaluationPass(last, nk, items, lastItem);
      next := World(Values(knowledge), mines, safes, items');
      ContinueAfter(now, lastItem, changes, left, next, changes');
    }

    /** Steps 1 to 3 of `add_knowledge(cell, count)`: records `cell` as
        probed and as safe (without marking it in any sentence) and appends
        the new sentence `get_neighbors(cell) = count`. */
    method Probe(cell: Cell, count: int) returns (added: Sentence)
      modifies this
      ensures movesMade == old(movesMade) + {cell}
      ensures mines == old(mines) && safes == old(safes) + {cell}
      ensures fresh(added)
      ensures added.Value() == Statement(Neighborhood(cell, height, width, movesMade), count)
      ensures knowledge == old(knowledge) + [added]
      ensures Values(knowledge) == old(Values(knowledge)) + [added.Value()]
    {
      ghost var values := Values(knowledge);
      movesMade := movesMade + {cell};
      safes := safes + {cell};
      var neighbors := GetNeighbors(cell);
      added := new Sentence(neighbors, count);
      assert Values(knowledge) == values;
      ValuesAppend(knowledge, added);
      knowledge := knowledge + [added];
    }

    /** `add_knowledge(cell, count)`: `Probe`, then `evaluate_knowledge`
        (at most `fuel` passes), whose working list becomes `knowledge`. On
        values this is `Learn`. */
    method AddKnowledge(cell: Cell, count: int, fuel: nat)
      modifies this, knowledge
      ensures movesMade == old(movesMade) + {cell}
      ensures var r := Learn(old(Values(knowledge)), old(mines), old(safes) + {cell},
                             Statement(Neighborhood(cell, height, width, old(movesMade) + {cell}), count), fuel);
              && mines == r.mines && safes == r.safes
              && Values(knowledge) == ItemValues(r.knowledge, r.work)
    {
      ghost var n := |knowledge|;
      var newSentence := Probe(cell, count);
      var nk;
      ghost var items;
      nk, items := EvaluateKnowledge(newSentence, fuel, Shared(n));
      TracksValues(knowledge, nk, items);
      knowledge := nk;
    }

    /** `get_neighbors`: the product of the row range (bounded by `width`)
        and the column range (bounded by `height`), without `cell` and the
        cells already probed. */
    method GetNeighbors(cell: Cell) returns (neighbors: set<Cell>)
      ensures neighbors == Neighborhood(cell, height, width, movesMade)
    {
      var (x, y) := cell;
      neighbors := {};
      var rows, cols := GetBoundaries(x, width), GetBoundaries(y, height);
      var a := rows.start;
      while a < rows.stop
        invariant rows.start <= a
        invariant neighbors == NeighborsBefore(cell, height, width, movesMade, a, cols.start)
      {
        var b := cols.start;
        while b < cols.stop
          invariant cols.start <= b
          invariant neighbors == NeighborsBefore(cell, height, width, movesMade, a, b)
        {
          if (a, b) != cell && (a, b) !in movesMade {
            neighbors := neighbors + {(a, b)};
          }
          assert NeighborsBefore(cell, height, width, movesMade, a, b + 1)
                 == NeighborsBefore(cell, height, width, movesMade, a, b)
                    + (if (a, b) != cell && (a, b) !in movesMade then {(a, b)} else {});
          b := b + 1;
        }
        assert NeighborsBefore(cell, height, width, movesMade, a, b)
               == NeighborsBefore(cell, height, width, movesMade, a + 1, cols.start);
        a := a + 1;
      }
      assert neighbors == Neighborhood(cell, height, width, movesMade);
    }

    /** `make_safe_move`: a cell known to be safe, neither probed nor known
        to be a mine, when there is one (`random.choice` picks any). */
    method MakeSafeMove() returns (r: Option<Cell>)
      ensures r.None? <==> safes - movesMade - mines == {}
      ensures r.Some? ==> r.value in safes && r.value !in movesMade && r.value !in mines
    {
      if |safes| == 0 {
        return None;
      }
      var safeMoves := safes - movesMade - mines;
      if |safeMoves| > 0 {
        var c :| c in safeMoves;
        r := Some(c);
      } else {
        r := None;
      }
    }

    /** The cells `make_random_move` chooses from: rows in `range(width)`,
        columns in `range(height)`, neither probed nor known mines. */
    ghost function Available(): set<Cell>
      reads this
    {
      set i, j | 0 <= i < width && 0 <= j < height && (i, j) !in mines && (i, j) !in movesMade :: (i, j)
    }

    /** `make_random_move`: any available cell, or `None` when there is none. */
    method MakeRandomMove() returns (r: Option<Cell>)
      ensures r.None? <==> Available() == {}
      ensures r.Some? ==> r.value in Available()
    {
      var availableMoves: seq<Cell> := [];
      var row := 0;
      while row < width
        invariant 0 <= row
        invariant forall c :: c in availableMoves <==> c in AvailableBefore(width, height, mines, movesMade, row, 0)
      {
        var column := 0;
        while column < height
          invariant 0 <= column
          invariant forall c :: c in availableMoves <==> c in AvailableBefore(width, height, mines, movesMade, row, column)
        {
          var cell := (row, column);
          if cell !in mines && cell !in movesMade {
            availableMoves := availableMoves + [cell];
          }
          assert AvailableBefore(width, height, mines, movesMade, row, column + 1)
                 == AvailableBefore(width, height, mines, movesMade, row, column)
                    + (if cell !in mines && cell !in movesMade then {cell} else {});
          column := column + 1;
        }
        assert AvailableBefore(width, height, mines, movesMade, row, column)
               == AvailableBefore(width, height, mines, movesMade, row + 1, 0);
        row := row + 1;
      }
      assert AvailableBefore(width, height, mines, movesMade, row, 0) == Available();
      if |availableMoves| > 0 {
        var i :| 0 <= i < |availableMoves|;
        r := Some(availableMoves[i]);
        assert availableMoves[i] in Available();
      } else {
        assert availableMoves == [];
        r := None;
      }
    }
  }
}
