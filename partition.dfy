// The slide partitioner of the main screen: a depth-first search for the subset of the
// remaining blocks that fills most cells of one 4 x 2 slide, repeated until no block is left.
// Blocks are identified by their position in the pool.

module Partition {
  import opened Types
  import opened Grid

  /** A set of pool positions, in increasing order, with the number of cells they fill.
      As a search node it is (`selectedBlocks`, `filledCells`); as the search result it is
      (`bestFitBlocks`, `maxFilledCells`). */
  datatype Choice = Choice(picks: seq<nat>, filled: int)

  /** The positions are strictly increasing: a subsequence of the pool, in pool order. */
  predicate Increasing(picks: seq<nat>)
  {
    forall i, j :: 0 <= i < j < |picks| ==> picks[i] < picks[j]
  }

  /** Every position lies in [lo, hi). */
  predicate Within(picks: seq<nat>, lo: int, hi: int)
  {
    forall i :: 0 <= i < |picks| ==> lo <= picks[i] < hi
  }

  /** Every block of the pool claims a non-negative number of cells. */
  predicate NonNegative(pool: seq<Block>)
  {
    forall i :: 0 <= i < |pool| ==> Area(pool[i]) >= 0
  }

  /** Every block of the pool fills between 1 and 8 cells. */
  predicate AllFit(pool: seq<Block>)
  {
    forall b :: b in pool ==> 0 < Area(b) <= Capacity
  }

  /** Total area of the blocks at the given positions. */
  function SumArea(pool: seq<Block>, picks: seq<nat>): int
    requires Within(picks, 0, |pool|)
  {
    if picks == [] then 0 else Area(pool[picks[0]]) + SumArea(pool, picks[1..])
  }

  /** Total area of a list of blocks. */
  function TotalArea(blocks: seq<Block>): int
  {
    if blocks == [] then 0 else Area(blocks[0]) + TotalArea(blocks[1..])
  }

  /** The blocks at the given positions, in the order of `picks`. */
  function Select(pool: seq<Block>, picks: seq<nat>): (r: seq<Block>)
    requires Within(picks, 0, |pool|)
    ensures |r| == |picks|
    ensures forall k :: 0 <= k < |r| ==> r[k] == pool[picks[k]]
  {
    if picks == [] then [] else [pool[picks[0]]] + Select(pool, picks[1..])
  }

  /** `availableBlocks.filter(block => !bestFitBlocks.includes(block))`, by position. */
  function Remove(pool: seq<Block>, picks: seq<nat>): seq<Block>
  {
    if pool == [] then []
    else Remove(pool[..|pool| - 1], picks) + (if |pool| - 1 in picks then [] else [pool[|pool| - 1]])
  }

  /** The search nodes that `findCombination(blocks.slice(start), selected, filled)` visits
      and does not prune (`filledCells > numColumns * numRows`), in visiting order. */
  function Visits(pool: seq<Block>, start: nat, selected: seq<nat>, filled: int): seq<Choice>
    requires start <= |pool|
    decreases |pool| - start, 1
  {
    if filled > Capacity then []
    else [Choice(selected, filled)] + VisitsFrom(pool, start, selected, filled)
  }

  /** The nodes visited by the iterations i, i+1, ... of the `for` loop of one search node. */
  function VisitsFrom(pool: seq<Block>, i: nat, selected: seq<nat>, filled: int): seq<Choice>
    requires i <= |pool|
    decreases |pool| - i, 0
  {
    if i == |pool| then []
    else Visits(pool, i + 1, selected + [i], filled + Area(pool[i])) + VisitsFrom(pool, i + 1, selected, filled)
  }

  /** The update of the captured best: taken only on a strictly larger area. */
  function Step(best: Choice, node: Choice): Choice
  {
    if node.filled > best.filled then node else best
  }

  /** The captured best after visiting the nodes in order. */
  function Fold(nodes: seq<Choice>, best: Choice): Choice
  {
    if nodes == [] then best else Fold(nodes[1..], Step(best, nodes[0]))
  }

  /** The result of `findOptimalBlocksForSlide` on a pool: the search from the root with
      `bestFitBlocks = []` and `maxFilledCells = 0`. */
  function Best(pool: seq<Block>): Choice
  {
    Fold(Visits(pool, 0, [], 0), Choice([], 0))
  }

  function OptimalPicks(pool: seq<Block>): (picks: seq<nat>)
    ensures Increasing(picks) && Within(picks, 0, |pool|)
  {
    BestSound(pool);
    Best(pool).picks
  }

  lemma {:induction false} FoldAppend(a: seq<Choice>, b: seq<Choice>, best: Choice)
    ensures Fold(a + b, best) == Fold(b, Fold(a, best))
  {
    if a == [] {
      assert a + b == b;
    } else {
      assert (a + b)[1..] == a[1..] + b;
      FoldAppend(a[1..], b, Step(best, a[0]));
    }
  }

  /** The fold over an unpruned node's visits: the update on the node itself, then its loop. */
  lemma FoldNode(pool: seq<Block>, start: nat, selected: seq<nat>, filled: int, best: Choice)
    requires start <= |pool| && filled <= Capacity
    ensures Fold(Visits(pool, start, selected, filled), best) ==
            Fold(VisitsFrom(pool, start, selected, filled), Step(best, Choice(selected, filled)))
  {
    FoldAppend([Choice(selected, filled)], VisitsFrom(pool, start, selected, filled), best);
  }

  /** The fold over iterations i, i+1, ... of a loop: the child that picks `i`, then the rest. */
  lemma FoldChild(pool: seq<Block>, i: nat, selected: seq<nat>, filled: int, best: Choice)
    requires i < |pool|
    ensures Fold(VisitsFrom(pool, i, selected, filled), best) ==
            Fold(VisitsFrom(pool, i + 1, selected, filled),
                 Fold(Visits(pool, i + 1, selected + [i], filled + Area(pool[i])), best))
  {
    FoldAppend(Visits(pool, i + 1, selected + [i], filled + Area(pool[i])), VisitsFrom(pool, i + 1, selected, filled), best);
  }

  /** Strictly increasing positions below `hi` are at most `hi` many. */
  lemma {:induction false} IncreasingLength(picks: seq<nat>, hi: nat)
    requires Increasing(picks) && Within(picks, 0, hi)
    ensures |picks| <= hi
  {
    if picks != [] {
      var last := picks[|picks| - 1];
      var front := picks[..|picks| - 1];
      assert last < hi;
      assert Within(front, 0, last) by {
        forall i | 0 <= i < |front|
          ensures front[i] < last
        {
          assert front[i] == picks[i];
        }
      }
      IncreasingLength(front, last);
    }
  }

  /** The search state kept in the variables the recursive `findCombination` closure captures. */
  class Search {
    const pool: seq<Block>
    var bestFitBlocks: seq<nat>
    var maxFilledCells: int

    constructor (pool: seq<Block>)
      ensures this.pool == pool && bestFitBlocks == [] && maxFilledCells == 0
    {
      this.pool := pool;
      bestFitBlocks := [];
      maxFilledCells := 0;
    }

    /** `findCombination(blocks.slice(start), selectedBlocks, filledCells)`: prune above
        capacity, record a strictly better node, then recurse on each later position. */
    method FindCombination(start: nat, selectedBlocks: seq<nat>, filledCells: int)
      requires start <= |pool|
      modifies this
      decreases |pool| - start
      ensures Choice(bestFitBlocks, maxFilledCells) ==
              Fold(Visits(pool, start, selectedBlocks, filledCells), Choice(old(bestFitBlocks), old(maxFilledCells)))
    {
      if filledCells > Capacity {
        return;
      }
      ghost var before := Choice(bestFitBlocks, maxFilledCells);
      if filledCells > maxFilledCells {
        maxFilledCells := filledCells;
        bestFitBlocks := selectedBlocks;
      }
      ghost var entry := Choice(bestFitBlocks, maxFilledCells);
      FoldNode(pool, start, selectedBlocks, filledCells, before);
      for i := start to |pool|
        invariant Fold(VisitsFrom(pool, start, selectedBlocks, filledCells), entry) ==
                  Fold(VisitsFrom(pool, i, selectedBlocks, filledCells), Choice(bestFitBlocks, maxFilledCells))
      {
        ghost var here := Choice(bestFitBlocks, maxFilledCells);
        FindCombination(i + 1, selectedBlocks + [i], filledCells + Area(pool[i]));
        FoldChild(pool, i, selectedBlocks, filledCells, here);
      }
    }
  }

  /** `findOptimalBlocksForSlide`: the positions of the chosen subset. */
  method FindOptimalBlocksForSlide(pool: seq<Block>) returns (picks: seq<nat>)
    ensures picks == OptimalPicks(pool)
  {
    var search := new Search(pool);
    search.FindCombination(0, [], 0);
    picks := search.bestFitBlocks;
  }

  /** A search node `c` reached from the node (`selected`, `filled`): it extends `selected` by
      increasing positions in [lo, |pool|), `filled` grows by their area, and it is not pruned. */
  predicate Extends(pool: seq<Block>, c: Choice, selected: seq<nat>, filled: int, lo: nat)
  {
    c.filled <= Capacity && |selected| <= |c.picks| && c.picks[..|selected|] == selected &&
    Increasing(c.picks[|selected|..]) && Within(c.picks[|selected|..], lo, |pool|) &&
    c.filled == filled + SumArea(pool, c.picks[|selected|..])
  }

  /** The captured best never decreases, ends at least as large as every node's area, and is
      either the initial value or the first node that reaches the final maximum. */
  lemma {:induction false} FoldSpec(nodes: seq<Choice>, best: Choice)
    ensures Fold(nodes, best).filled >= best.filled
    ensures forall k :: 0 <= k < |nodes| ==> nodes[k].filled <= Fold(nodes, best).filled
    ensures Fold(nodes, best) == best ||
            exists k :: 0 <= k < |nodes| && Fold(nodes, best) == nodes[k] && nodes[k].filled > best.filled &&
                        forall j :: 0 <= j < k ==> nodes[j].filled < nodes[k].filled
  {
    if nodes != [] {
      var s := Step(best, nodes[0]);
      FoldSpec(nodes[1..], s);
      var r := Fold(nodes, best);
      forall k | 0 <= k < |nodes|
        ensures nodes[k].filled <= r.filled
      {
        if k > 0 {
          assert nodes[k] == nodes[1..][k - 1];
        }
      }
      if r != best && r != s {
        var k :| 0 <= k < |nodes[1..]| && r == nodes[1..][k] && nodes[1..][k].filled > s.filled &&
                 forall j :: 0 <= j < k ==> nodes[1..][j].filled < nodes[1..][k].filled;
        assert r == nodes[k + 1];
        forall j | 0 <= j < k + 1
          ensures nodes[j].filled < nodes[k + 1].filled
        {
          if j > 0 {
            assert nodes[j] == nodes[1..][j - 1];
          }
        }
      } else if r != best {
        assert r == nodes[0];
      }
    }
  }

  /** Every node the search keeps is an unpruned extension of the node it started from. */
  lemma {:induction false} VisitsSound(pool: seq<Block>, start: nat, selected: seq<nat>, filled: int, k: nat)
    requires start <= |pool| && k < |Visits(pool, start, selected, filled)|
    ensures Extends(pool, Visits(pool, start, selected, filled)[k], selected, filled, start)
    decreases |pool| - start, 1
  {
    var c := Visits(pool, start, selected, filled)[k];
    if k == 0 {
      assert c == Choice(selected, filled);
      assert c.picks[|selected|..] == [];
    } else {
      VisitsFromSound(pool, start, selected, filled, k - 1);
    }
  }

  lemma {:induction false} VisitsFromSound(pool: seq<Block>, i: nat, selected: seq<nat>, filled: int, k: nat)
    requires i <= |pool| && k < |VisitsFrom(pool, i, selected, filled)|
    ensures Extends(pool, VisitsFrom(pool, i, selected, filled)[k], selected, filled, i)
    ensures |VisitsFrom(pool, i, selected, filled)[k].picks| > |selected|
    decreases |pool| - i, 0
  {
    var a := Visits(pool, i + 1, selected + [i], filled + Area(pool[i]));
    var b := VisitsFrom(pool, i + 1, selected, filled);
    if k < |a| {
      VisitsSound(pool, i + 1, selected + [i], filled + Area(pool[i]), k);
      ExtendsCons(pool, a[k], selected, filled, i);
    } else {
      VisitsFromSound(pool, i + 1, selected, filled, k - |a|);
    }
  }

  /** A node below the child that picks position `i` extends the parent by `i` and then by
      positions after `i`. */
  lemma ExtendsCons(pool: seq<Block>, c: Choice, selected: seq<nat>, filled: int, i: nat)
    requires i < |pool| && Extends(pool, c, selected + [i], filled + Area(pool[i]), i + 1)
    ensures Extends(pool, c, selected, filled, i) && |c.picks| > |selected|
  {
    var sel := selected + [i];
    var rest := c.picks[|sel|..];
    var ext := c.picks[|selected|..];
    assert c.picks[..|sel|] == sel;
    assert c.picks[..|selected|] == sel[..|selected|] == selected;
    assert ext == [i] + rest;
    assert ext[1..] == rest;
    assert Within(ext, i, |pool|) by {
      forall j | 0 <= j < |ext|
        ensures i <= ext[j] < |pool|
      {
        if j > 0 {
          assert ext[j] == rest[j - 1];
        }
      }
    }
    assert Increasing(ext) by {
      forall j1, j2 | 0 <= j1 < j2 < |ext|
        ensures ext[j1] < ext[j2]
      {
        assert ext[j2] == rest[j2 - 1];
        if j1 > 0 {
          assert ext[j1] == rest[j1 - 1];
        }
      }
    }
    assert SumArea(pool, ext) == Area(pool[i]) + SumArea(pool, rest);
  }

  lemma {:induction false} SumAreaNonNegative(pool: seq<Block>, picks: seq<nat>)
    requires NonNegative(pool) && Within(picks, 0, |pool|)
    ensures SumArea(pool, picks) >= 0
  {
    if picks != [] {
      SumAreaNonNegative(pool, picks[1..]);
    }
  }

  /** The nodes of iteration `i` of a node's loop are among the nodes of its whole loop. */
  lemma {:induction false} VisitsFromIncludes(pool: seq<Block>, start: nat, i: nat, selected: seq<nat>, filled: int)
    requires start <= i < |pool|
    ensures forall x :: x in Visits(pool, i + 1, selected + [i], filled + Area(pool[i])) ==>
                        x in VisitsFrom(pool, start, selected, filled)
    decreases i - start
  {
    if start < i {
      VisitsFromIncludes(pool, start + 1, i, selected, filled);
    }
  }

  /** The positions after the first of an increasing extension are increasing and lie after it. */
  lemma ExtTail(pool: seq<Block>, ext: seq<nat>, start: nat)
    requires ext != [] && Increasing(ext) && Within(ext, start, |pool|)
    ensures Increasing(ext[1..]) && Within(ext[1..], ext[0] + 1, |pool|)
    ensures SumArea(pool, ext) == Area(pool[ext[0]]) + SumArea(pool, ext[1..])
  {
    var rest := ext[1..];
    forall j | 0 <= j < |rest|
      ensures ext[0] + 1 <= rest[j] < |pool|
    {
      assert rest[j] == ext[j + 1];
    }
  }

  /** With no negative areas, every increasing extension within capacity is visited: the
      pruning never cuts off a subset that fits. */
  lemma {:induction false} VisitsComplete(pool: seq<Block>, start: nat, selected: seq<nat>, filled: int, ext: seq<nat>)
    requires start <= |pool| && NonNegative(pool)
    requires Increasing(ext) && Within(ext, start, |pool|)
    requires filled + SumArea(pool, ext) <= Capacity
    ensures Choice(selected + ext, filled + SumArea(pool, ext)) in Visits(pool, start, selected, filled)
    decreases |ext|
  {
    SumAreaNonNegative(pool, ext);
    if ext == [] {
      assert selected + ext == selected;
      assert Visits(pool, start, selected, filled)[0] == Choice(selected, filled);
    } else {
      var i := ext[0];
      var rest := ext[1..];
      ExtTail(pool, ext, start);
      SumAreaNonNegative(pool, rest);
      VisitsComplete(pool, i + 1, selected + [i], filled + Area(pool[i]), rest);
      assert selected + [i] + rest == selected + ext;
      VisitsFromIncludes(pool, start, i, selected, filled);
    }
  }

  /** The chosen positions are increasing and in the pool, and `maxFilledCells` is their area,
      between 0 and 8. */
  lemma BestSound(pool: seq<Block>)
    ensures Increasing(Best(pool).picks) && Within(Best(pool).picks, 0, |pool|)
    ensures 0 <= Best(pool).filled <= Capacity
    ensures Best(pool).filled == SumArea(pool, Best(pool).picks)
  {
    var nodes := Visits(pool, 0, [], 0);
    FoldSpec(nodes, Choice([], 0));
    var b := Best(pool);
    if b != Choice([], 0) {
      var k :| 0 <= k < |nodes| && b == nodes[k] && nodes[k].filled > 0;
      VisitsSound(pool, 0, [], 0, k);
      assert b.picks[0..] == b.picks;
    }
  }

  /** With no negative areas, no increasing subset that fits one slide fills more cells than
      the chosen one. */
  lemma {:induction false} BestMaximal(pool: seq<Block>, ext: seq<nat>)
    requires NonNegative(pool) && Increasing(ext) && Within(ext, 0, |pool|)
    requires SumArea(pool, ext) <= Capacity
    ensures SumArea(pool, ext) <= Best(pool).filled
  {
    VisitsComplete(pool, 0, [], 0, ext);
    assert [] + ext == ext;
    FoldSpec(Visits(pool, 0, [], 0), Choice([], 0));
  }

  /** `best` is a node with a positive area that no earlier node reaches. */
  predicate FirstMaximalAt(nodes: seq<Choice>, best: Choice)
  {
    exists k :: 0 <= k < |nodes| && nodes[k] == best && best.filled > 0 &&
                forall j :: 0 <= j < k ==> nodes[j].filled < best.filled
  }

  /** Ties keep the earlier node: the result is the first visited node with the maximal area,
      or the empty choice when no node fills a positive number of cells. */
  lemma BestIsFirstMaximal(pool: seq<Block>)
    ensures Best(pool) == Choice([], 0) || FirstMaximalAt(Visits(pool, 0, [], 0), Best(pool))
    ensures Best(pool).filled == 0 <==> Best(pool).picks == []
  {
    var nodes := Visits(pool, 0, [], 0);
    FoldSpec(nodes, Choice([], 0));
    BestSound(pool);
    if Best(pool) != Choice([], 0) {
      var k :| 0 <= k < |nodes| && Best(pool) == nodes[k] && nodes[k].filled > 0 &&
               forall j :: 0 <= j < k ==> nodes[j].filled < nodes[k].filled;
      assert nodes[k] == Best(pool);
    }
  }

  /** Lexicographic order on position sequences: a proper prefix comes first, otherwise the
      first differing position decides. */
  predicate LexLess(a: seq<nat>, b: seq<nat>)
  {
    if a == [] then b != []
    else b != [] && (a[0] < b[0] || (a[0] == b[0] && LexLess(a[1..], b[1..])))
  }

  lemma {:induction false} LexProperPrefix(a: seq<nat>, b: seq<nat>)
    requires |a| < |b| && a == b[..|a|]
    ensures LexLess(a, b)
  {
    if a != [] {
      assert a[0] == b[0];
      assert a[1..] == b[1..][..|a| - 1];
      LexProperPrefix(a[1..], b[1..]);
    }
  }

  lemma {:induction false} LexAt(a: seq<nat>, b: seq<nat>, n: nat)
    requires n < |a| && n < |b| && a[..n] == b[..n] && a[n] < b[n]
    ensures LexLess(a, b)
  {
    if n > 0 {
      assert a[0] == a[..n][0] == b[..n][0] == b[0];
      assert a[1..][..n - 1] == a[..n][1..] == b[..n][1..] == b[1..][..n - 1];
      LexAt(a[1..], b[1..], n - 1);
    }
  }

  /** The search visits its nodes in strictly increasing lexicographic order of their positions. */
  lemma {:induction false} VisitsSorted(pool: seq<Block>, start: nat, selected: seq<nat>, filled: int, j: nat, k: nat)
    requires start <= |pool| && j < k < |Visits(pool, start, selected, filled)|
    ensures LexLess(Visits(pool, start, selected, filled)[j].picks, Visits(pool, start, selected, filled)[k].picks)
    decreases |pool| - start, 1
  {
    var nodes := Visits(pool, start, selected, filled);
    if j == 0 {
      VisitsFromSound(pool, start, selected, filled, k - 1);
      LexProperPrefix(selected, nodes[k].picks);
    } else {
      VisitsFromSorted(pool, start, selected, filled, j - 1, k - 1);
    }
  }

  lemma {:induction false} VisitsFromSorted(pool: seq<Block>, i: nat, selected: seq<nat>, filled: int, j: nat, k: nat)
    requires i <= |pool| && j < k < |VisitsFrom(pool, i, selected, filled)|
    ensures LexLess(VisitsFrom(pool, i, selected, filled)[j].picks, VisitsFrom(pool, i, selected, filled)[k].picks)
    decreases |pool| - i, 0
  {
    var a := Visits(pool, i + 1, selected + [i], filled + Area(pool[i]));
    var b := VisitsFrom(pool, i + 1, selected, filled);
    if k < |a| {
      VisitsSorted(pool, i + 1, selected + [i], filled + Area(pool[i]), j, k);
    } else if |a| <= j {
      VisitsFromSorted(pool, i + 1, selected, filled, j - |a|, k - |a|);
    } else {
      var x := a[j].picks;
      var y := b[k - |a|].picks;
      var n := |selected|;
      VisitsSound(pool, i + 1, selected + [i], filled + Area(pool[i]), j);
      VisitsFromSound(pool, i + 1, selected, filled, k - |a|);
      assert x[..n + 1] == selected + [i];
      assert x[..n] == x[..n + 1][..n] == selected;
      assert x[n] == x[..n + 1][n] == i;
      assert y[n] == y[n..][0] >= i + 1;
      LexAt(x, y, n);
    }
  }

  /** With no negative areas, a subset that fits one slide is visited by the root search, at
      some position `m` of the visiting order. */
  lemma VisitedAt(pool: seq<Block>, ext: seq<nat>) returns (m: nat)
    requires NonNegative(pool) && Increasing(ext) && Within(ext, 0, |pool|)
    requires SumArea(pool, ext) <= Capacity
    ensures m < |Visits(pool, 0, [], 0)| && Visits(pool, 0, [], 0)[m] == Choice(ext, SumArea(pool, ext))
  {
    VisitsComplete(pool, 0, [], 0, ext);
    assert [] + ext == ext;
    var nodes := Visits(pool, 0, [], 0);
    m :| 0 <= m < |nodes| && nodes[m] == Choice(ext, SumArea(pool, ext));
  }

  /** With no negative areas, ties go to the lexicographically first subset: every other
      increasing subset that fills as many cells as the chosen one comes after it. */
  lemma {:induction false} BestIsLexFirst(pool: seq<Block>, ext: seq<nat>)
    requires NonNegative(pool) && Increasing(ext) && Within(ext, 0, |pool|)
    requires SumArea(pool, ext) == Best(pool).filled && ext != Best(pool).picks
    ensures LexLess(Best(pool).picks, ext)
  {
    var nodes := Visits(pool, 0, [], 0);
    BestSound(pool);
    BestIsFirstMaximal(pool);
    if Best(pool) != Choice([], 0) {
      var k :| 0 <= k < |nodes| && nodes[k] == Best(pool) && Best(pool).filled > 0 &&
               forall j :: 0 <= j < k ==> nodes[j].filled < Best(pool).filled;
      var m := VisitedAt(pool, ext);
      assert m != k;
      assert !(m < k);
      VisitsSorted(pool, 0, [], 0, k, m);
    }
  }

  /** A block that fits a slide on its own guarantees a non-empty choice of at least its area. */
  lemma BestNonEmpty(pool: seq<Block>, i: nat)
    requires i < |pool| && 0 < Area(pool[i]) <= Capacity
    ensures OptimalPicks(pool) != [] && Best(pool).filled >= Area(pool[i])
  {
    var nodes := Visits(pool, 0, [], 0);
    var single := Choice([i], Area(pool[i]));
    VisitsFromIncludes(pool, 0, i, [], 0);
    assert [] + [i] == [i];
    assert Visits(pool, i + 1, [i], Area(pool[i]))[0] == single;
    assert single in VisitsFrom(pool, 0, [], 0);
    assert nodes == [Choice([], 0)] + VisitsFrom(pool, 0, [], 0);
    assert single in nodes;
    FoldSpec(nodes, Choice([], 0));
    BestSound(pool);
  }

  /** With no negative areas, if no block fits a slide on its own the choice is empty, so the
      pool never shrinks. */
  lemma StallsWhenNothingFits(pool: seq<Block>)
    requires NonNegative(pool)
    requires forall i :: 0 <= i < |pool| ==> !(0 < Area(pool[i]) <= Capacity)
    ensures OptimalPicks(pool) == []
  {
    BestSound(pool);
    BestIsFirstMaximal(pool);
    var b := Best(pool);
    if b.filled > 0 {
      PositiveSumHasFit(pool, b.picks);
    }
  }

  /** A positive sum of non-negative areas has a member with positive area no larger than the sum. */
  lemma {:induction false} PositiveSumHasFit(pool: seq<Block>, picks: seq<nat>)
    requires NonNegative(pool) && Within(picks, 0, |pool|) && SumArea(pool, picks) > 0
    ensures exists k :: 0 <= k < |picks| && 0 < Area(pool[picks[k]]) <= SumArea(pool, picks)
  {
    SumAreaNonNegative(pool, picks[1..]);
    if Area(pool[picks[0]]) == 0 {
      PositiveSumHasFit(pool, picks[1..]);
      var k :| 0 <= k < |picks[1..]| && 0 < Area(pool[picks[1..][k]]) <= SumArea(pool, picks[1..]);
      assert picks[1..][k] == picks[k + 1];
    }
  }

  /** `includes` on the chosen list, per position: two pick lists naming the same positions
      remove the same blocks. */
  lemma {:induction false} RemoveSamePositions(pool: seq<Block>, a: seq<nat>, b: seq<nat>)
    requires forall j :: 0 <= j < |pool| ==> (j in a <==> j in b)
    ensures Remove(pool, a) == Remove(pool, b)
  {
    if pool != [] {
      RemoveSamePositions(pool[..|pool| - 1], a, b);
    }
  }

  /** The chosen blocks and the remaining ones split the pool: same blocks, same count. */
  lemma {:induction false} SelectRemoveSplit(pool: seq<Block>, picks: seq<nat>)
    requires Increasing(picks) && Within(picks, 0, |pool|)
    ensures multiset(Select(pool, picks)) + multiset(Remove(pool, picks)) == multiset(pool)
    ensures |Remove(pool, picks)| == |pool| - |picks|
    decreases |pool|, 1
  {
    assert picks == [] || 0 <= picks[0] < |pool|;
    if pool == [] {
    } else if picks != [] && picks[|picks| - 1] == |pool| - 1 {
      SplitLastPicked(pool, picks);
    } else {
      SplitLastKept(pool, picks);
    }
  }

  lemma {:induction false} SplitLastPicked(pool: seq<Block>, picks: seq<nat>)
    requires Increasing(picks) && Within(picks, 0, |pool|)
    requires picks != [] && picks[|picks| - 1] == |pool| - 1
    ensures multiset(Select(pool, picks)) + multiset(Remove(pool, picks)) == multiset(pool)
    ensures |Remove(pool, picks)| == |pool| - |picks|
    decreases |pool|, 0
  {
    var q := picks[..|picks| - 1];
    assert picks == q + [|pool| - 1];
    assert Increasing(q);
    assert Within(q, 0, |pool| - 1) by {
      forall j | 0 <= j < |q|
        ensures q[j] < |pool| - 1
      {
        assert q[j] == picks[j];
      }
    }
    SelectRemoveSplit(pool[..|pool| - 1], q);
    JoinLastPicked(pool, q, picks);
  }

  /** The split of the pool without its last block extends to the pool when the last position is picked. */
  lemma {:induction false} JoinLastPicked(pool: seq<Block>, q: seq<nat>, picks: seq<nat>)
    requires pool != [] && Within(q, 0, |pool| - 1)
    requires picks == q + [|pool| - 1] && Within(picks, 0, |pool|)
    requires multiset(Select(pool[..|pool| - 1], q)) + multiset(Remove(pool[..|pool| - 1], q)) == multiset(pool[..|pool| - 1])
    requires |Remove(pool[..|pool| - 1], q)| == |pool| - 1 - |q|
    ensures multiset(Select(pool, picks)) + multiset(Remove(pool, picks)) == multiset(pool)
    ensures |Remove(pool, picks)| == |pool| - |picks|
  {
    var n := |pool|;
    var front := pool[..n - 1];
    var last := pool[n - 1];
    LastSplit(pool);
    RemovePickedLast(pool, q);
    SelectPickedLast(pool, q, picks);
    MultisetSnoc(Select(front, q), last);
  }

  lemma {:induction false} SplitLastKept(pool: seq<Block>, picks: seq<nat>)
    requires Increasing(picks) && Within(picks, 0, |pool|)
    requires pool != [] && !(picks != [] && picks[|picks| - 1] == |pool| - 1)
    ensures multiset(Select(pool, picks)) + multiset(Remove(pool, picks)) == multiset(pool)
    ensures |Remove(pool, picks)| == |pool| - |picks|
    decreases |pool|, 0
  {
    assert Within(picks, 0, |pool| - 1) by {
      forall j | 0 <= j < |picks|
        ensures picks[j] < |pool| - 1
      {
        if j < |picks| - 1 {
          assert picks[j] < picks[|picks| - 1];
        }
      }
    }
    SelectRemoveSplit(pool[..|pool| - 1], picks);
    JoinLastKept(pool, picks);
  }

  /** The split of the pool without its last block extends to the pool when the last block is kept. */
  lemma {:induction false} JoinLastKept(pool: seq<Block>, picks: seq<nat>)
    requires pool != [] && Within(picks, 0, |pool| - 1)
    requires multiset(Select(pool[..|pool| - 1], picks)) + multiset(Remove(pool[..|pool| - 1], picks)) == multiset(pool[..|pool| - 1])
    requires |Remove(pool[..|pool| - 1], picks)| == |pool| - 1 - |picks|
    ensures multiset(Select(pool, picks)) + multiset(Remove(pool, picks)) == multiset(pool)
    ensures |Remove(pool, picks)| == |pool| - |picks|
  {
    var n := |pool|;
    var front := pool[..n - 1];
    var last := pool[n - 1];
    LastSplit(pool);
    assert n - 1 !in picks;
    assert Remove(pool, picks) == Remove(front, picks) + [last];
    assert multiset(Remove(pool, picks)) == multiset(Remove(front, picks)) + multiset{last};
    SelectPrefix(pool, front, picks);
  }

  lemma {:induction false} RemovePickedLast(pool: seq<Block>, q: seq<nat>)
    requires pool != [] && Within(q, 0, |pool| - 1)
    ensures Remove(pool, q + [|pool| - 1]) == Remove(pool[..|pool| - 1], q)
  {
    var picks := q + [|pool| - 1];
    assert |pool| - 1 in picks;
    forall j | 0 <= j < |pool| - 1
      ensures j in picks <==> j in q
    {
      assert picks[..|q|] == q;
    }
    RemoveSamePositions(pool[..|pool| - 1], picks, q);
  }

  lemma {:induction false} SelectPickedLast(pool: seq<Block>, q: seq<nat>, picks: seq<nat>)
    requires pool != [] && Within(q, 0, |pool| - 1)
    requires picks == q + [|pool| - 1] && Within(picks, 0, |pool|)
    ensures Select(pool, picks) == Select(pool[..|pool| - 1], q) + [pool[|pool| - 1]]
  {
    SelectPrefix(pool, pool[..|pool| - 1], q);
    SelectAppend(pool, q, |pool| - 1);
  }

  lemma MultisetSnoc(s: seq<Block>, x: Block)
    ensures multiset(s + [x]) == multiset(s) + multiset{x}
  {
  }

  lemma LastSplit(pool: seq<Block>)
    requires pool != []
    ensures pool == pool[..|pool| - 1] + [pool[|pool| - 1]]
    ensures multiset(pool) == multiset(pool[..|pool| - 1]) + multiset{pool[|pool| - 1]}
  {
    assert pool == pool[..|pool| - 1] + [pool[|pool| - 1]];
  }

  /** Positions inside a prefix of the pool select the same blocks from the prefix. */
  lemma {:induction false} SelectPrefix(pool: seq<Block>, front: seq<Block>, picks: seq<nat>)
    requires |front| <= |pool| && front == pool[..|front|] && Within(picks, 0, |front|)
    ensures Select(pool, picks) == Select(front, picks)
  {
    var a, b := Select(pool, picks), Select(front, picks);
    forall k | 0 <= k < |picks|
      ensures a[k] == b[k]
    {
      assert front[picks[k]] == pool[picks[k]];
    }
  }

  lemma {:induction false} SelectAppend(pool: seq<Block>, picks: seq<nat>, i: nat)
    requires Within(picks, 0, |pool|) && i < |pool|
    ensures Select(pool, picks + [i]) == Select(pool, picks) + [pool[i]]
  {
    var a, b := Select(pool, picks + [i]), Select(pool, picks) + [pool[i]];
    forall k | 0 <= k < |picks| + 1
      ensures a[k] == b[k]
    {
      assert (picks + [i])[k] == if k < |picks| then picks[k] else i;
    }
  }

  /** One round of `createSlides` on a pool where every block fits: the chosen slide is
      non-empty and fills at most 8 cells, and the remaining pool is strictly smaller, still
      fits, and together with the slide holds exactly the blocks of the pool. */
  lemma ChoiceStep(pool: seq<Block>)
    requires AllFit(pool) && pool != []
    ensures var picks := OptimalPicks(pool);
            Within(picks, 0, |pool|) &&
            WellFilled(Select(pool, picks)) &&
            multiset(Select(pool, picks)) + multiset(Remove(pool, picks)) == multiset(pool) &&
            |Remove(pool, picks)| < |pool| && AllFit(Remove(pool, picks))
  {
    var picks := OptimalPicks(pool);
    BestSound(pool);
    assert pool[0] in pool;
    BestNonEmpty(pool, 0);
    SelectRemoveSplit(pool, picks);
    SelectArea(pool, picks);
    forall b | b in Remove(pool, picks)
      ensures 0 < Area(b) <= Capacity
    {
      assert b in multiset(Remove(pool, picks));
      assert b in multiset(pool);
    }
  }

  /** The cells the chosen blocks fill are `maxFilledCells`. */
  lemma {:induction false} SelectArea(pool: seq<Block>, picks: seq<nat>)
    requires Within(picks, 0, |pool|)
    ensures TotalArea(Select(pool, picks)) == SumArea(pool, picks)
  {
    if picks != [] {
      assert Select(pool, picks)[1..] == Select(pool, picks[1..]);
      SelectArea(pool, picks[1..]);
    }
  }

  /** A slide `createSlides` can produce: non-empty, and filling at most the 8 cells. */
  predicate WellFilled(slide: seq<Block>)
  {
    slide != [] && TotalArea(slide) <= Capacity
  }

  /** The slides `createSlides` returns: the optimal subset of the pool, then the slides of
      what is left. Defined where every block fits a slide, which is what makes the loop end. */
  function SlidesOf(pool: seq<Block>): seq<seq<Block>>
    requires AllFit(pool)
    decreases |pool|
  {
    if pool == [] then []
    else
      var picks := OptimalPicks(pool);
      ChoiceStep(pool);
      [Select(pool, picks)] + SlidesOf(Remove(pool, picks))
  }

  function Flatten(slides: seq<seq<Block>>): seq<Block>
  {
    if slides == [] then [] else slides[0] + Flatten(slides[1..])
  }

  lemma {:induction false} FlattenAppend(slides: seq<seq<Block>>, slide: seq<Block>)
    ensures Flatten(slides + [slide]) == Flatten(slides) + slide
  {
    if slides == [] {
      assert [] + [slide] == [slide];
    } else {
      assert (slides + [slide])[1..] == slides[1..] + [slide];
      FlattenAppend(slides[1..], slide);
    }
  }

  /** What `createSlides` has built while `pool` is still available: the slides so far are a
      prefix of the final ones, every block of the input is on a slide or still available,
      and every slide so far is well filled. */
  ghost predicate Progress(blocks: seq<Block>, slides: seq<seq<Block>>, pool: seq<Block>)
  {
    AllFit(blocks) && AllFit(pool) &&
    slides + SlidesOf(pool) == SlidesOf(blocks) &&
    multiset(Flatten(slides)) + multiset(pool) == multiset(blocks) &&
    (forall k :: 0 <= k < |slides| ==> WellFilled(slides[k])) &&
    |slides| + |pool| <= |blocks| &&
    (slides == [] ==> pool == blocks)
  }

  /** One iteration of the `while` loop keeps `Progress` and shrinks the pool. */
  lemma RoundKeepsProgress(blocks: seq<Block>, slides: seq<seq<Block>>, pool: seq<Block>)
    requires Progress(blocks, slides, pool) && pool != []
    ensures var picks := OptimalPicks(pool);
            Within(picks, 0, |pool|) && |Remove(pool, picks)| < |pool| &&
            Progress(blocks, slides + [Select(pool, picks)], Remove(pool, picks))
  {
    var picks := OptimalPicks(pool);
    ChoiceStep(pool);
    var slide := Select(pool, picks);
    var rest := Remove(pool, picks);
    RoundKeepsSlides(blocks, slides, pool);
    RoundKeepsBlocks(blocks, slides, pool);
    WellFilledSnoc(slides, slide);
    ProgressIntro(blocks, slides + [slide], rest);
  }

  lemma WellFilledSnoc(slides: seq<seq<Block>>, slide: seq<Block>)
    requires forall k :: 0 <= k < |slides| ==> WellFilled(slides[k])
    requires WellFilled(slide)
    ensures forall k :: 0 <= k < |slides + [slide]| ==> WellFilled((slides + [slide])[k])
  {
  }

  lemma ProgressIntro(blocks: seq<Block>, slides: seq<seq<Block>>, pool: seq<Block>)
    requires AllFit(blocks) && AllFit(pool)
    requires slides + SlidesOf(pool) == SlidesOf(blocks)
    requires multiset(Flatten(slides)) + multiset(pool) == multiset(blocks)
    requires forall k :: 0 <= k < |slides| ==> WellFilled(slides[k])
    requires |slides| + |pool| <= |blocks| && slides != []
    ensures Progress(blocks, slides, pool)
  {
  }

  lemma RoundKeepsSlides(blocks: seq<Block>, slides: seq<seq<Block>>, pool: seq<Block>)
    requires AllFit(blocks) && AllFit(pool) && pool != [] && slides + SlidesOf(pool) == SlidesOf(blocks)
    ensures AllFit(Remove(pool, OptimalPicks(pool)))
    ensures (slides + [Select(pool, OptimalPicks(pool))]) + SlidesOf(Remove(pool, OptimalPicks(pool))) == SlidesOf(blocks)
  {
    var picks := OptimalPicks(pool);
    SlidesOfUnfold(pool);
    var slide := Select(pool, picks);
    var rest := SlidesOf(Remove(pool, picks));
    assert (slides + [slide]) + rest == slides + ([slide] + rest);
  }

  lemma SlidesOfUnfold(pool: seq<Block>)
    requires AllFit(pool) && pool != []
    ensures AllFit(Remove(pool, OptimalPicks(pool)))
    ensures SlidesOf(pool) == [Select(pool, OptimalPicks(pool))] + SlidesOf(Remove(pool, OptimalPicks(pool)))
  {
    ChoiceStep(pool);
  }

  lemma RoundKeepsBlocks(blocks: seq<Block>, slides: seq<seq<Block>>, pool: seq<Block>)
    requires AllFit(pool) && pool != [] && multiset(Flatten(slides)) + multiset(pool) == multiset(blocks)
    ensures multiset(Flatten(slides + [Select(pool, OptimalPicks(pool))])) + multiset(Remove(pool, OptimalPicks(pool))) ==
            multiset(blocks)
  {
    var picks := OptimalPicks(pool);
    ChoiceStep(pool);
    var slide := Select(pool, picks);
    FlattenAppend(slides, slide);
    assert multiset(Flatten(slides + [slide])) == multiset(Flatten(slides)) + multiset(slide);
  }

  /** `createSlides`: move the optimal subset of the remaining blocks to a new slide until
      none is left. Every block lands on exactly one slide, and every slide is non-empty and
      fills at most 8 cells. */
  method CreateSlides(blocks: seq<Block>) returns (slides: seq<seq<Block>>)
    requires AllFit(blocks)
    ensures slides == SlidesOf(blocks)
    ensures multiset(Flatten(slides)) == multiset(blocks)
    ensures forall k :: 0 <= k < |slides| ==> WellFilled(slides[k])
    ensures |slides| <= |blocks| && (slides == [] <==> blocks == [])
  {
    slides := [];
    var availableBlocks := blocks;
    while |availableBlocks| > 0
      invariant Progress(blocks, slides, availableBlocks)
      decreases |availableBlocks|
    {
      var picks := FindOptimalBlocksForSlide(availableBlocks);
      RoundKeepsProgress(blocks, slides, availableBlocks);
      var bestFitBlocks := Select(availableBlocks, picks);
      slides := slides + [bestFitBlocks];
      availableBlocks := Remove(availableBlocks, picks);
    }
  }
}
