// The alternative paginator of the item slider: items are put one after another at the
// first free row-major position of a 2-column, 4-row grid; an item that does not fit closes
// the slide and is retried once on a fresh grid.

module Slider {
  import opened Types
  import opened Decimal
  import opened Grid

  const HorizontalMargin := 10
  const VerticalMargin := 10

  /** One entry of a slide: `{ id: `${item.id}-${index}`, width, height, item }`. */
  datatype Entry = Entry(id: string, width: int, height: int, item: Block)

  /** `{ key: `slide-${k}`, items }`. */
  datatype Slide = Slide(key: string, items: seq<Entry>)

  /** An item put on the current grid with its top-left cell. Only the proof keeps these; the
      source keeps just the marked grid. */
  datatype Put = Put(item: Block, row: int, col: int)

  /** The variables of the `forEach`: the closed `slides`, `currentSlide`, and the puts that
      produced `currentGrid`. */
  datatype Pager = Pager(slides: seq<Slide>, current: seq<Entry>, puts: seq<Put>)

  function SlideKey(k: int): string
  {
    "slide-" + ToDecimal(k)
  }

  /** The entry pushed for `items[index]`, with integer stand-ins `cellWidth` and `cellHeight`
      for the screen-dependent cell size. */
  function MakeEntry(item: Block, index: int, cellWidth: int, cellHeight: int): Entry
  {
    Entry(ToDecimal(item.id) + "-" + ToDecimal(index),
          item.width * (cellWidth + HorizontalMargin) - HorizontalMargin,
          item.height * (cellHeight + VerticalMargin) - VerticalMargin,
          item)
  }

  /** The mark written into cell (i, j): `${item.id}-${i}-${j}`. */
  function Label(item: Block, i: int, j: int): string
  {
    ToDecimal(item.id) + "-" + ToDecimal(i) + "-" + ToDecimal(j)
  }

  /** The exclusive end `Array.prototype.slice(start, end)` uses on an array of length `len`:
      a negative end counts from the back, and the result is clipped to [0, len]. */
  function SliceEnd(end: int, len: nat): (r: int)
    ensures 0 <= r <= len
    ensures 0 <= end <= len ==> r == end
  {
    if end < 0 then (if len + end < 0 then 0 else len + end)
    else if end > len then len
    else end
  }

  /** The marking loops of a put write cell (i, j). */
  predicate Covers(p: Put, i: int, j: int)
  {
    InRect(p.row, p.col, p.item.width, p.item.height, i, j)
  }

  /** The content of cell (i, j) of `currentGrid` after the marks of `puts`: the label of the
      last put that covers it, or None (`null`). */
  function Occupant(puts: seq<Put>, i: int, j: int): (r: Option<string>)
    ensures r.None? <==> forall k :: 0 <= k < |puts| ==> !Covers(puts[k], i, j)
  {
    if puts == [] then None
    else if Covers(puts[|puts| - 1], i, j) then Some(Label(puts[|puts| - 1].item, i, j))
    else
      assert forall k :: 0 <= k < |puts| - 1 ==> puts[..|puts| - 1][k] == puts[k];
      Occupant(puts[..|puts| - 1], i, j)
  }

  /** The test at (r, c): the item's rectangle ends inside the grid, and every cell of
      `currentGrid.slice(r, r + h)` restricted to `row.slice(c, c + w)` is empty. */
  predicate CanPlace(puts: seq<Put>, item: Block, r: int, c: int)
  {
    r + item.height <= Rows && c + item.width <= Columns &&
    forall i, j :: (r <= i < SliceEnd(r + item.height, Rows) && c <= j < SliceEnd(c + item.width, Columns)) ==>
                   Occupant(puts, i, j).None?
  }

  /** The column loop of row `r`, from column `c` on. */
  function ScanCols(puts: seq<Put>, item: Block, r: int, c: nat): (s: Option<Spot>)
    decreases Columns - c
    ensures s.Some? ==> s.value.row == r && c <= s.value.col < Columns && CanPlace(puts, item, r, s.value.col)
    ensures s.Some? ==> forall cc :: c <= cc < s.value.col ==> !CanPlace(puts, item, r, cc)
    ensures s.None? ==> forall cc :: c <= cc < Columns ==> !CanPlace(puts, item, r, cc)
  {
    if c >= Columns then None
    else if CanPlace(puts, item, r, c) then Some(Spot(r, c))
    else ScanCols(puts, item, r, c + 1)
  }

  /** The row loop, from row `r` on. */
  function ScanRows(puts: seq<Put>, item: Block, r: nat): (s: Option<Spot>)
    decreases Rows - r
    ensures s.Some? ==> r <= s.value.row < Rows && 0 <= s.value.col < Columns &&
                        CanPlace(puts, item, s.value.row, s.value.col)
    ensures s.Some? ==> forall rr, cc :: (r <= rr && 0 <= cc < Columns && Before(rr, cc, s.value.row, s.value.col)) ==>
                                         !CanPlace(puts, item, rr, cc)
    ensures s.None? ==> forall rr, cc :: r <= rr < Rows && 0 <= cc < Columns ==> !CanPlace(puts, item, rr, cc)
  {
    if r >= Rows then None
    else match ScanCols(puts, item, r, 0)
      case Some(s) => Some(s)
      case None => ScanRows(puts, item, r + 1)
  }

  /** The first row-major position where the item passes the test, or None. */
  function FirstSpot(puts: seq<Put>, item: Block): (s: Option<Spot>)
    ensures s.Some? ==> 0 <= s.value.row < Rows && 0 <= s.value.col < Columns &&
                        CanPlace(puts, item, s.value.row, s.value.col)
    ensures s.Some? ==> forall rr, cc :: (0 <= rr && 0 <= cc < Columns && Before(rr, cc, s.value.row, s.value.col)) ==>
                                         !CanPlace(puts, item, rr, cc)
    ensures s.None? <==> forall rr, cc :: 0 <= rr < Rows && 0 <= cc < Columns ==> !CanPlace(puts, item, rr, cc)
  {
    ScanRows(puts, item, 0)
  }

  /** One call of the `forEach` callback on `items[index]`. */
  function Step(st: Pager, item: Block, index: int, cellWidth: int, cellHeight: int): Pager
  {
    var entry := MakeEntry(item, index, cellWidth, cellHeight);
    match FirstSpot(st.puts, item)
    case Some(s) => Pager(st.slides, st.current + [entry], st.puts + [Put(item, s.row, s.col)])
    case None =>
      var closed := st.slides + [Slide(SlideKey(|st.slides|), st.current)];
      match FirstSpot([], item)
      case Some(s) => Pager(closed, [entry], [Put(item, s.row, s.col)])
      case None => Pager(closed, [], [])
  }

  /** The state after the callback has run on every item, in order. */
  function Run(items: seq<Block>, cellWidth: int, cellHeight: int): Pager
  {
    if items == [] then Pager([], [], [])
    else Step(Run(items[..|items| - 1], cellWidth, cellHeight), items[|items| - 1], |items| - 1, cellWidth, cellHeight)
  }

  /** `getSlides`: the closed slides, then the last one if it is not empty. */
  function Paginate(items: seq<Block>, cellWidth: int, cellHeight: int): seq<Slide>
  {
    var st := Run(items, cellWidth, cellHeight);
    if |st.current| > 0 then st.slides + [Slide(SlideKey(|st.slides|), st.current)] else st.slides
  }

  lemma RunSnoc(items: seq<Block>, index: nat, cellWidth: int, cellHeight: int)
    requires index < |items|
    ensures Run(items[..index + 1], cellWidth, cellHeight) ==
            Step(Run(items[..index], cellWidth, cellHeight), items[index], index, cellWidth, cellHeight)
  {
    assert items[..index + 1][..index] == items[..index];
  }

  /** The test of both retry loops at (row, col): the rectangle is inside the grid and the
      grid's slice of it holds no mark. */
  method TestSpot(grid: array2<Option<string>>, item: Block, row: nat, col: nat, ghost puts: seq<Put>)
    returns (fits: bool)
    requires grid.Length0 == Rows && grid.Length1 == Columns
    requires forall i, j :: 0 <= i < Rows && 0 <= j < Columns ==> grid[i, j] == Occupant(puts, i, j)
    ensures fits <==> CanPlace(puts, item, row, col)
  {
    fits := false;
    if row + item.height <= Rows && col + item.width <= Columns {
      fits := RectFree(grid, row, SliceEnd(row + item.height, Rows), col, SliceEnd(col + item.width, Columns));
    }
  }

  /** The scan of both retry loops, on a grid that holds exactly the marks of `puts`. */
  method FindSpot(grid: array2<Option<string>>, item: Block, ghost puts: seq<Put>)
    returns (found: bool, row: int, col: int)
    requires grid.Length0 == Rows && grid.Length1 == Columns
    requires forall i, j :: 0 <= i < Rows && 0 <= j < Columns ==> grid[i, j] == Occupant(puts, i, j)
    ensures found <==> FirstSpot(puts, item).Some?
    ensures found ==> FirstSpot(puts, item) == Some(Spot(row, col))
  {
    row := 0;
    while row < Rows
      invariant 0 <= row <= Rows
      invariant FirstSpot(puts, item) == ScanRows(puts, item, row)
    {
      col := 0;
      while col < Columns
        invariant 0 <= col <= Columns
        invariant ScanCols(puts, item, row, 0) == ScanCols(puts, item, row, col)
      {
        var fits := TestSpot(grid, item, row, col, puts);
        if fits {
          found := true;
          return;
        }
        col := col + 1;
      }
      row := row + 1;
    }
    found, row, col := false, 0, 0;
  }

  /** The marking loops: every cell of the item's rectangle at (row, col) gets its label. */
  method Stamp(grid: array2<Option<string>>, item: Block, row: int, col: int, ghost puts: seq<Put>)
    requires grid.Length0 == Rows && grid.Length1 == Columns
    requires 0 <= row && row + item.height <= Rows && 0 <= col && col + item.width <= Columns
    requires forall i, j :: 0 <= i < Rows && 0 <= j < Columns ==> grid[i, j] == Occupant(puts, i, j)
    modifies grid
    ensures forall i, j :: 0 <= i < Rows && 0 <= j < Columns ==>
              grid[i, j] == Occupant(puts + [Put(item, row, col)], i, j)
  {
    var h, w := item.height, item.width;
    var i := row;
    while i < row + h
      invariant i == row || row < i <= row + h
      invariant forall a, b :: 0 <= a < Rows && 0 <= b < Columns ==>
                  grid[a, b] == if InRect(row, col, w, i - row, a, b) then Some(Label(item, a, b)) else old(grid[a, b])
      decreases row + h - i
    {
      var j := col;
      while j < col + w
        invariant j == col || col < j <= col + w
        invariant forall a, b :: 0 <= a < Rows && 0 <= b < Columns ==>
                    grid[a, b] == if InRect(row, col, w, i - row, a, b) || (a == i && col <= b < j)
                                  then Some(Label(item, a, b)) else old(grid[a, b])
        decreases col + w - j
      {
        grid[i, j] := Some(Label(item, i, j));
        j := j + 1;
      }
      i := i + 1;
    }
    assert (puts + [Put(item, row, col)])[..|puts|] == puts;
  }

  /** The placing half of the callback (used for the first try and for the retry): find the
      first free position and, if there is one, mark it. */
  method TryPut(grid: array2<Option<string>>, item: Block, ghost puts: seq<Put>) returns (placed: bool, ghost puts': seq<Put>)
    requires grid.Length0 == Rows && grid.Length1 == Columns
    requires forall i, j :: 0 <= i < Rows && 0 <= j < Columns ==> grid[i, j] == Occupant(puts, i, j)
    modifies grid
    ensures placed <==> FirstSpot(puts, item).Some?
    ensures puts' == if placed then puts + [Put(item, FirstSpot(puts, item).value.row, FirstSpot(puts, item).value.col)]
                     else puts
    ensures forall i, j :: 0 <= i < Rows && 0 <= j < Columns ==> grid[i, j] == Occupant(puts', i, j)
  {
    var row, col;
    placed, row, col := FindSpot(grid, item, puts);
    puts' := puts;
    if placed {
      Stamp(grid, item, row, col, puts);
      puts' := puts + [Put(item, row, col)];
    }
  }

  /** The `forEach` callback on `items[index]`: put the item on the current grid, or close the
      slide, start a fresh grid and retry once. */
  method Visit(slides: seq<Slide>, currentSlide: seq<Entry>, currentGrid: array2<Option<string>>, ghost puts: seq<Put>,
               item: Block, index: int, cellWidth: int, cellHeight: int)
    returns (slides': seq<Slide>, currentSlide': seq<Entry>, currentGrid': array2<Option<string>>, ghost puts': seq<Put>)
    requires currentGrid.Length0 == Rows && currentGrid.Length1 == Columns
    requires forall i, j :: 0 <= i < Rows && 0 <= j < Columns ==> currentGrid[i, j] == Occupant(puts, i, j)
    modifies currentGrid
    ensures Pager(slides', currentSlide', puts') == Step(Pager(slides, currentSlide, puts), item, index, cellWidth, cellHeight)
    ensures currentGrid' == currentGrid || fresh(currentGrid')
    ensures currentGrid'.Length0 == Rows && currentGrid'.Length1 == Columns
    ensures forall i, j :: 0 <= i < Rows && 0 <= j < Columns ==> currentGrid'[i, j] == Occupant(puts', i, j)
  {
    var entry := MakeEntry(item, index, cellWidth, cellHeight);
    slides', currentSlide', currentGrid' := slides, currentSlide, currentGrid;
    var placed;
    placed, puts' := TryPut(currentGrid, item, puts);
    if placed {
      currentSlide' := currentSlide + [entry];
    } else {
      slides' := slides + [Slide(SlideKey(|slides|), currentSlide)];
      currentSlide' := [];
      currentGrid' := new Option<string>[Rows, Columns]((i, j) => None);
      placed, puts' := TryPut(currentGrid', item, []);
      if placed {
        currentSlide' := [entry];
      }
    }
  }

  /** `getSlides`. */
  method GetSlides(items: seq<Block>, cellWidth: int, cellHeight: int) returns (slides: seq<Slide>)
    ensures slides == Paginate(items, cellWidth, cellHeight)
  {
    slides := [];
    var currentSlide: seq<Entry> := [];
    var currentGrid := new Option<string>[Rows, Columns]((i, j) => None);
    ghost var puts: seq<Put> := [];
    for index := 0 to |items|
      invariant Pager(slides, currentSlide, puts) == Run(items[..index], cellWidth, cellHeight)
      invariant fresh(currentGrid) && currentGrid.Length0 == Rows && currentGrid.Length1 == Columns
      invariant forall i, j :: 0 <= i < Rows && 0 <= j < Columns ==> currentGrid[i, j] == Occupant(puts, i, j)
    {
      RunSnoc(items, index, cellWidth, cellHeight);
      slides, currentSlide, currentGrid, puts :=
        Visit(slides, currentSlide, currentGrid, puts, items[index], index, cellWidth, cellHeight);
    }
    assert items[..|items|] == items;
    if |currentSlide| > 0 {
      slides := slides + [Slide(SlideKey(|slides|), currentSlide)];
    }
  }

  /** A put lies inside the 4 x 2 grid. */
  predicate InGrid(p: Put)
  {
    0 <= p.row && p.row + p.item.height <= Rows && 0 <= p.col && p.col + p.item.width <= Columns
  }

  /** The items put on one slide lie inside the grid and no cell is covered twice. */
  ghost predicate Sound(puts: seq<Put>)
  {
    (forall k :: 0 <= k < |puts| ==> InGrid(puts[k])) &&
    (forall k1, k2, i, j :: 0 <= k1 < k2 < |puts| && Covers(puts[k1], i, j) ==> !Covers(puts[k2], i, j))
  }

  /** Slide `k` has key `slide-k`. */
  predicate Keyed(slides: seq<Slide>)
  {
    forall k :: 0 <= k < |slides| ==> slides[k].key == SlideKey(k)
  }

  /** The current slide's entries are for the items put on the current grid, in order. */
  predicate Matches(current: seq<Entry>, puts: seq<Put>)
  {
    |current| == |puts| && forall k :: 0 <= k < |puts| ==> current[k].item == puts[k].item
  }

  /** A cell the put covers was among the cells the test checked, so it was empty. */
  lemma CoveredWasFree(puts: seq<Put>, item: Block, row: int, col: int, i: int, j: int)
    requires 0 <= row && 0 <= col && CanPlace(puts, item, row, col)
    ensures Covers(Put(item, row, col), i, j) ==> Occupant(puts, i, j).None?
  {
    if Covers(Put(item, row, col), i, j) {
      assert SliceEnd(row + item.height, Rows) == row + item.height;
      assert SliceEnd(col + item.width, Columns) == col + item.width;
    }
  }

  /** Putting an item at its first free position keeps the slide sound: the cells it covers
      are exactly the cells the test found empty. */
  lemma PutKeepsSound(puts: seq<Put>, item: Block)
    requires Sound(puts) && FirstSpot(puts, item).Some?
    ensures Sound(puts + [Put(item, FirstSpot(puts, item).value.row, FirstSpot(puts, item).value.col)])
  {
    var s := FirstSpot(puts, item).value;
    var p := Put(item, s.row, s.col);
    var next := puts + [p];
    forall k1, k2, i, j | 0 <= k1 < k2 < |next| && Covers(next[k1], i, j)
      ensures !Covers(next[k2], i, j)
    {
      assert next[k1] == puts[k1];
      if k2 < |puts| {
        assert next[k2] == puts[k2];
      } else {
        assert next[k2] == p;
        CoveredWasFree(puts, item, s.row, s.col, i, j);
      }
    }
    assert forall k :: 0 <= k < |next| ==> InGrid(next[k]) by {
      forall k | 0 <= k < |next|
        ensures InGrid(next[k])
      {
        if k < |puts| {
          assert next[k] == puts[k];
        }
      }
    }
  }

  /** Closing a slide under the next key keeps the slides keyed. */
  lemma KeyedSnoc(slides: seq<Slide>, items: seq<Entry>)
    requires Keyed(slides)
    ensures Keyed(slides + [Slide(SlideKey(|slides|), items)])
  {
    var next := slides + [Slide(SlideKey(|slides|), items)];
    forall k | 0 <= k < |next|
      ensures next[k].key == SlideKey(k)
    {
      if k < |slides| {
        assert next[k] == slides[k];
      }
    }
  }

  /** One callback keeps the slides keyed and the current grid sound and matched. */
  lemma StepSound(st: Pager, item: Block, index: int, cellWidth: int, cellHeight: int)
    requires Sound(st.puts) && Matches(st.current, st.puts) && Keyed(st.slides)
    ensures var next := Step(st, item, index, cellWidth, cellHeight);
            Sound(next.puts) && Matches(next.current, next.puts) && Keyed(next.slides)
  {
    match FirstSpot(st.puts, item)
    case Some(s) =>
      PutKeepsSound(st.puts, item);
      FitKeepsMatch(st, item, index, cellWidth, cellHeight);
    case None =>
      KeyedSnoc(st.slides, st.current);
      if FirstSpot([], item).Some? {
        PutKeepsSound([], item);
      }
  }

  lemma FitKeepsMatch(st: Pager, item: Block, index: int, cellWidth: int, cellHeight: int)
    requires Matches(st.current, st.puts) && FirstSpot(st.puts, item).Some?
    ensures var next := Step(st, item, index, cellWidth, cellHeight);
            Matches(next.current, next.puts) && next.slides == st.slides
  {
    var next := Step(st, item, index, cellWidth, cellHeight);
    forall k | 0 <= k < |next.puts|
      ensures next.current[k].item == next.puts[k].item
    {
      if k < |st.puts| {
        assert next.current[k] == st.current[k] && next.puts[k] == st.puts[k];
      }
    }
  }

  /** After any prefix of the items: every slide so far is keyed by its position, and the
      current grid is sound and matches the current slide. */
  lemma {:induction false} RunSound(items: seq<Block>, cellWidth: int, cellHeight: int)
    ensures var st := Run(items, cellWidth, cellHeight);
            Sound(st.puts) && Matches(st.current, st.puts) && Keyed(st.slides)
  {
    if items != [] {
      var prefix := items[..|items| - 1];
      RunSound(prefix, cellWidth, cellHeight);
      StepSound(Run(prefix, cellWidth, cellHeight), items[|items| - 1], |items| - 1, cellWidth, cellHeight);
    }
  }

  /** An item of width 1..2 and height 1..4. */
  predicate Normal(item: Block)
  {
    1 <= item.width <= Columns && 1 <= item.height <= Rows
  }

  /** Such an item always fits an empty grid. */
  lemma EmptyGridFits(item: Block)
    requires Normal(item)
    ensures FirstSpot([], item).Some?
  {
    assert CanPlace([], item, 0, 0);
  }

  /** The entry of every item, with its input position. */
  function Expected(items: seq<Block>, cellWidth: int, cellHeight: int): seq<Entry>
  {
    seq(|items|, k requires 0 <= k < |items| => MakeEntry(items[k], k, cellWidth, cellHeight))
  }

  /** The entries of the slides, one slide after another. */
  function Entries(slides: seq<Slide>): seq<Entry>
  {
    if slides == [] then [] else Entries(slides[..|slides| - 1]) + slides[|slides| - 1].items
  }

  lemma ExpectedSnoc(items: seq<Block>, cellWidth: int, cellHeight: int)
    requires items != []
    ensures Expected(items, cellWidth, cellHeight) ==
            Expected(items[..|items| - 1], cellWidth, cellHeight) + [MakeEntry(items[|items| - 1], |items| - 1, cellWidth, cellHeight)]
  {
    var n := |items| - 1;
    var a := Expected(items, cellWidth, cellHeight);
    var b := Expected(items[..n], cellWidth, cellHeight) + [MakeEntry(items[n], n, cellWidth, cellHeight)];
    assert |a| == |b|;
    forall k | 0 <= k < |a|
      ensures a[k] == b[k]
    {
      if k < n {
        assert items[..n][k] == items[k];
      }
    }
  }

  lemma EntriesSnoc(slides: seq<Slide>, slide: Slide)
    ensures Entries(slides + [slide]) == Entries(slides) + slide.items
  {
    assert (slides + [slide])[..|slides|] == slides;
  }

  /** One callback on an item of width 1..2 and height 1..4 appends its entry to the entries
      so far, never closes an empty slide, and leaves the current slide non-empty. */
  lemma StepComplete(st: Pager, item: Block, index: int, cellWidth: int, cellHeight: int)
    requires Normal(item) && Matches(st.current, st.puts)
    requires forall k :: 0 <= k < |st.slides| ==> st.slides[k].items != []
    ensures var next := Step(st, item, index, cellWidth, cellHeight);
            Entries(next.slides) + next.current == Entries(st.slides) + st.current + [MakeEntry(item, index, cellWidth, cellHeight)] &&
            (forall k :: 0 <= k < |next.slides| ==> next.slides[k].items != []) &&
            next.current != []
  {
    EmptyGridFits(item);
    match FirstSpot(st.puts, item)
    case Some(s) =>
    case None =>
      assert st.puts != [];
      var closed := Slide(SlideKey(|st.slides|), st.current);
      EntriesSnoc(st.slides, closed);
      var next := st.slides + [closed];
      forall k | 0 <= k < |next|
        ensures next[k].items != []
      {
        if k < |st.slides| {
          assert next[k] == st.slides[k];
        }
      }
  }

  /** When every item has width 1..2 and height 1..4, no item is dropped: the closed slides
      and the current one hold every item once, in input order, and no closed slide is empty. */
  lemma {:induction false} RunComplete(items: seq<Block>, cellWidth: int, cellHeight: int)
    requires forall k :: 0 <= k < |items| ==> Normal(items[k])
    ensures var st := Run(items, cellWidth, cellHeight);
            Entries(st.slides) + st.current == Expected(items, cellWidth, cellHeight) &&
            (forall k :: 0 <= k < |st.slides| ==> st.slides[k].items != []) &&
            (items != [] ==> st.current != [])
  {
    if items != [] {
      var prefix := items[..|items| - 1];
      var item := items[|items| - 1];
      var index := |items| - 1;
      assert forall k :: 0 <= k < |prefix| ==> prefix[k] == items[k];
      RunComplete(prefix, cellWidth, cellHeight);
      RunSound(prefix, cellWidth, cellHeight);
      ExpectedSnoc(items, cellWidth, cellHeight);
      StepComplete(Run(prefix, cellWidth, cellHeight), item, index, cellWidth, cellHeight);
    }
  }

  /** `getSlides` on items of width 1..2 and height 1..4: the slides hold every item exactly
      once, in input order, each with the id `${item.id}-${index}`; no slide is empty; and
      there are no slides exactly when there are no items. */
  lemma PaginateComplete(items: seq<Block>, cellWidth: int, cellHeight: int)
    requires forall k :: 0 <= k < |items| ==> Normal(items[k])
    ensures Entries(Paginate(items, cellWidth, cellHeight)) == Expected(items, cellWidth, cellHeight)
    ensures forall k :: 0 <= k < |Paginate(items, cellWidth, cellHeight)| ==> Paginate(items, cellWidth, cellHeight)[k].items != []
    ensures Paginate(items, cellWidth, cellHeight) == [] <==> items == []
  {
    RunComplete(items, cellWidth, cellHeight);
    RunSound(items, cellWidth, cellHeight);
    var st := Run(items, cellWidth, cellHeight);
    if |st.current| > 0 {
      EntriesSnoc(st.slides, Slide(SlideKey(|st.slides|), st.current));
    }
  }

  /** Whatever the items, slide `k` has key `slide-k`. */
  lemma PaginateKeyed(items: seq<Block>, cellWidth: int, cellHeight: int)
    ensures Keyed(Paginate(items, cellWidth, cellHeight))
  {
    RunSound(items, cellWidth, cellHeight);
    var st := Run(items, cellWidth, cellHeight);
    if |st.current| > 0 {
      KeyedSnoc(st.slides, st.current);
    }
  }

  /** A slide is closed only when the item fits nowhere on the current grid; the closed slide is
      the current one as it was; and the retry starts from an empty grid, which then holds at
      most this item, at its first free position there. */
  lemma BreakOnlyOnMiss(st: Pager, item: Block, index: int, cellWidth: int, cellHeight: int)
    ensures var next := Step(st, item, index, cellWidth, cellHeight);
            |st.slides| <= |next.slides| <= |st.slides| + 1 && next.slides[..|st.slides|] == st.slides
    ensures var next := Step(st, item, index, cellWidth, cellHeight);
            |next.slides| > |st.slides| <==>
              forall r, c :: 0 <= r < Rows && 0 <= c < Columns ==> !CanPlace(st.puts, item, r, c)
    ensures var next := Step(st, item, index, cellWidth, cellHeight);
            |next.slides| > |st.slides| ==>
              next.slides[|st.slides|].items == st.current &&
              |next.puts| <= 1 &&
              (next.puts != [] ==> next.puts[0].item == item &&
                                   FirstSpot([], item) == Some(Spot(next.puts[0].row, next.puts[0].col)))
  {
  }

  /** An item taller than 4 rows or wider than 2 columns is dropped, and still closes the
      current slide, even an empty one. */
  lemma OversizeDropped(st: Pager, item: Block, index: int, cellWidth: int, cellHeight: int)
    requires item.height > Rows || item.width > Columns
    ensures Step(st, item, index, cellWidth, cellHeight) ==
            Pager(st.slides + [Slide(SlideKey(|st.slides|), st.current)], [], [])
  {
    assert FirstSpot(st.puts, item).None?;
    assert FirstSpot([], item).None?;
  }

  /** An oversize first item pushes an empty slide `slide-0`; the next item starts `slide-1`. */
  lemma EmptySlideExample(cellWidth: int, cellHeight: int)
    ensures Paginate([Block(7, 1, 5), Block(8, 1, 1)], cellWidth, cellHeight) ==
            [Slide("slide-0", []), Slide("slide-1", [MakeEntry(Block(8, 1, 1), 1, cellWidth, cellHeight)])]
  {
    var items := [Block(7, 1, 5), Block(8, 1, 1)];
    assert items[..1] == [Block(7, 1, 5)] && items[..1][..0] == [];
    OversizeDropped(Pager([], [], []), Block(7, 1, 5), 0, cellWidth, cellHeight);
    assert Run(items[..1], cellWidth, cellHeight) == Pager([Slide(SlideKey(0), [])], [], []);
    assert ToDecimal(0) == "0";
    assert ToDecimal(1) == "1";
    EmptyGridFits(Block(8, 1, 1));
    var second := MakeEntry(Block(8, 1, 1), 1, cellWidth, cellHeight);
    assert SlideKey(0) == "slide-0";
    assert Run(items, cellWidth, cellHeight) == Step(Run(items[..1], cellWidth, cellHeight), Block(8, 1, 1), 1, cellWidth, cellHeight);
    assert Run(items, cellWidth, cellHeight).slides == [Slide("slide-0", [])];
    assert Run(items, cellWidth, cellHeight).current == [second];
    assert SlideKey(1) == "slide-1";
  }
}
