// What the validators let through and the layout engines cannot handle: the add form accepts
// widths up to 2 and heights up to 8, but a slide holds 8 cells in 4 rows.

module Hazards {
  import opened Types
  import AddItem
  import Decimal
  import Grid
  import Partition
  import Placement
  import Slider

  /** Removing no position leaves the pool as it was. */
  lemma {:induction false} RemoveNothing(pool: seq<Block>)
    ensures Partition.Remove(pool, []) == pool
  {
    if pool != [] {
      RemoveNothing(pool[..|pool| - 1]);
      assert pool == pool[..|pool| - 1] + [pool[|pool| - 1]];
    }
  }

  /** When every remaining block claims more than 8 cells, a round of `createSlides` chooses
      nothing and leaves the pool unchanged, so its `while` loop never ends. */
  lemma RoundStalls(pool: seq<Block>)
    requires forall i :: 0 <= i < |pool| ==> Area(pool[i]) > Grid.Capacity
    ensures Partition.OptimalPicks(pool) == []
    ensures Partition.Remove(pool, Partition.OptimalPicks(pool)) == pool
  {
    Partition.StallsWhenNothingFits(pool);
    RemoveNothing(pool);
  }

  /** The add form accepts width "2" and height "5" and adds a 2 x 5 block (10 cells); from
      then on, once it is the only block left, `createSlides` stalls on it. */
  lemma AcceptedBlockStallsSlides(id: int)
    ensures AddItem.Accepts("2", AddItem.MaxWidth) && AddItem.Accepts("5", AddItem.MaxHeight)
    ensures AddItem.NewBlock("2", "5", id) == Some(Block(id, 2, 5))
    ensures Partition.OptimalPicks([Block(id, 2, 5)]) == []
    ensures Partition.Remove([Block(id, 2, 5)], Partition.OptimalPicks([Block(id, 2, 5)])) == [Block(id, 2, 5)]
  {
    assert Decimal.DigitsValue("2") == 2 && Decimal.DigitsValue("5") == 5;
    assert AddItem.FieldOk("2", AddItem.MaxWidth) && AddItem.FieldOk("5", AddItem.MaxHeight);
    assert Area(Block(id, 2, 5)) == 10;
    RoundStalls([Block(id, 2, 5)]);
  }

  /** The add form accepts width "1" and height "6" and adds a 1 x 6 block. */
  lemma TallBlockAccepted(id: int)
    ensures AddItem.Accepts("1", AddItem.MaxWidth) && AddItem.Accepts("6", AddItem.MaxHeight)
    ensures AddItem.NewBlock("1", "6", id) == Some(Block(id, 1, 6))
  {
    assert Decimal.DigitsValue("1") == 1 && Decimal.DigitsValue("6") == 6;
    assert AddItem.FieldOk("1", AddItem.MaxWidth) && AddItem.FieldOk("6", AddItem.MaxHeight);
  }

  /** It fits a slide by area (6 cells), so the partitioner puts it on a slide of its own. */
  lemma TallBlockChosen(id: int)
    ensures Partition.OptimalPicks([Block(id, 1, 6)]) == [0]
  {
    var pool := [Block(id, 1, 6)];
    Partition.BestNonEmpty(pool, 0);
    var picks := Partition.OptimalPicks(pool);
    Partition.IncreasingLength(picks, 1);
  }

  /** But it is taller than the 4 rows: the grid placer drops it, so that slide is rendered
      empty, and the slider drops it too, closing its current slide. */
  lemma TallBlockDropped(id: int, st: Slider.Pager, index: int, cellWidth: int, cellHeight: int)
    ensures Placement.Place([Block(id, 1, 6)]) == []
    ensures Slider.Step(st, Block(id, 1, 6), index, cellWidth, cellHeight) ==
            Slider.Pager(st.slides + [Slider.Slide(Slider.SlideKey(|st.slides|), st.current)], [], [])
  {
    Placement.DroppedBlock([], Block(id, 1, 6));
    assert [] + [Block(id, 1, 6)] == [Block(id, 1, 6)];
    Slider.OversizeDropped(st, Block(id, 1, 6), index, cellWidth, cellHeight);
  }

  /** A block of area 0 (the edit form saves width 0) rides along with a 1-cell block: the
      round takes both and empties the pool, so `createSlides` ends on a pool outside
      `Partition.AllFit`. */
  lemma ZeroAreaPoolEnds()
    ensures Partition.OptimalPicks([Block(1, 0, 1), Block(2, 1, 1)]) == [0, 1]
    ensures Partition.Remove([Block(1, 0, 1), Block(2, 1, 1)], [0, 1]) == []
  {
    var pool := [Block(1, 0, 1), Block(2, 1, 1)];
    assert Area(pool[0]) == 0 && Area(pool[1]) == 1;
    assert [0] + [1] == [0, 1] && [] + [1] == [1] && [] + [0] == [0];
    assert Partition.VisitsFrom(pool, 2, [0, 1], 1) == [] && Partition.VisitsFrom(pool, 2, [1], 1) == [];
    assert Partition.VisitsFrom(pool, 2, [0], 0) == [];
    assert Partition.Visits(pool, 2, [0, 1], 1) == [Partition.Choice([0, 1], 1)];
    assert Partition.Visits(pool, 2, [1], 1) == [Partition.Choice([1], 1)];
    assert Partition.VisitsFrom(pool, 1, [0], 0) == [Partition.Choice([0, 1], 1)];
    assert Partition.Visits(pool, 1, [0], 0) == [Partition.Choice([0], 0), Partition.Choice([0, 1], 1)];
    assert Partition.VisitsFrom(pool, 1, [], 0) == [Partition.Choice([1], 1)];
    assert Partition.Visits(pool, 0, [], 0) ==
           [Partition.Choice([], 0), Partition.Choice([0], 0), Partition.Choice([0, 1], 1), Partition.Choice([1], 1)];
  }
}
