# Block grid: a verified model of the slide-packing engine

The app shows user-defined rectangular blocks (width × height in grid cells) on swipeable
slides, each a grid of 4 rows by 2 columns. This project models the logic under the UI:

- **Partition** (`stack/Main.tsx`). `createSlides` repeatedly takes the remaining blocks'
  best subset as the next slide. `findOptimalBlocksForSlide` picks that subset: it is a
  depth-first search over index-ordered combinations. A branch is pruned once its area
  exceeds 8 cells. The search keeps the first subset met with a strictly larger area.
- **Placement** (`stack/Main.tsx`). `arrangeBlocksInSlide` puts each block of a slide at the
  first free row-major position of a 4 × 2 occupancy grid. `calculateSlideHeight` is the
  largest block pixel height plus two margins.
- **Slider** (`frontend/components/Slider.js`). `getSlides` is the alternative first-fit
  paginator. It places items in order on the current grid. When an item does not fit, it
  closes the slide, starts an empty grid and tries once more. `handleDelete` filters items
  by id.
- **BlockStore** (`BlocksContext.tsx`). The store: the initial list, `addBlock`,
  `updateBlock` and `deleteBlock`.
- **AddItem** and **EditItem** (`stack/AddItem.tsx`, `stack/EditItem.tsx`). The two forms'
  input validation. It is built on JavaScript `parseInt` (section 19.2.5 of ECMA-262),
  which is modelled in **Decimal** together with `String(n)` and the `^\d*$` test.
- **Hazards**. Two consequences that hold across modules:
  - The add form accepts a 2 × 5 block, and on such a block `createSlides` never ends.
  - The add form accepts a 1 × 6 block. The partitioner gives it a slide of its own, yet both
    placers drop it.

Each part follows its source:
- `findCombination` is a class `Partition.Search`. Its fields are the variables the closure
  captures, and its recursive method with a `for` loop is proved equal to a fold over the
  search's visiting order (`Partition.Visits`).
- `createSlides`, `arrangeBlocksInSlide` and `getSlides` are methods with loops. The two
  placers write cells of an `array2` grid. Each method is proved equal to a pure function,
  and the properties are lemmas about that function.
- The store operations and `calculateSlideHeight` are functions.
- The add form's two text fields are a class.

In the partition, a block is identified by its position in the pool; see "Left out".

## Model

| member | source | states |
|---|---|---|
| Types.Area | stack/Main.tsx:51 | A block claims `width * height` cells |
| Partition.Visits | stack/Main.tsx:39-53 | Definition of the reference search: the nodes one call visits and does not prune, in visiting order. A node with `filledCells > 8` contributes nothing; otherwise the node itself comes first, then the nodes of its `for` iterations. `VisitsSound`, `VisitsComplete` and `VisitsSorted` state what these nodes are |
| Partition.VisitsFrom | stack/Main.tsx:47-53 | Definition of iterations i, i+1, … of the `for` loop of one node: iteration i recurses on the positions after i, with position i appended to the selection and its area added |
| Partition.Step | stack/Main.tsx:42-45 | Definition of one update of the captured best: a node replaces it only when its area is strictly larger, so ties keep the earlier node. `FoldSpec` states the consequence |
| Partition.Fold | stack/Main.tsx:42-45 | Definition of the captured best after visiting a run of nodes in order. `FoldAppend` and `FoldSpec` state its laws |
| Partition.Best | stack/Main.tsx:35-57 | Definition of the reference result: the fold over the root call's nodes from `bestFitBlocks = []`, `maxFilledCells = 0`. `BestSound`, `BestMaximal`, `BestIsFirstMaximal` and `BestIsLexFirst` characterise it |
| Partition.Remove | stack/Main.tsx:29 | Definition of `availableBlocks.filter(block => !bestFitBlocks.includes(block))` on positions: the pool's blocks not at a chosen position, in order. `SelectRemoveSplit` states that the chosen and the kept blocks together are the pool and that the pool shrinks by the number of picks |
| Partition.SlidesOf | stack/Main.tsx:22-33 | Definition of the reference partition: the optimal slide of the pool, then the slides of what is left, defined where every area lies in (0, 8]. `CreateSlides` returns it |
| Partition.Search.FindCombination | stack/Main.tsx:39-54 | The captured best after the call is the fold of the strict-improvement update over the nodes of the pruned depth-first search, taken in visiting order, from the captured best before the call |
| Partition.Search.constructor | stack/Main.tsx:36-37 | The search starts with `bestFitBlocks = []` and `maxFilledCells = 0` |
| Partition.FindOptimalBlocksForSlide | stack/Main.tsx:35-58 | Returns the positions the reference search chooses (`OptimalPicks`) |
| Partition.OptimalPicks | stack/Main.tsx:47-52 | The chosen subset is a subsequence of the pool in pool order: strictly increasing positions, all inside the pool |
| Partition.FoldAppend | stack/Main.tsx:47-53 | Folding the update over two runs of nodes is folding over the first, then the second, as the loop does in order |
| Partition.FoldSpec | stack/Main.tsx:42-45 | The captured area never decreases and ends at least as large as every visited node's. The result is the start value or the first visited node that reaches the final maximum |
| Partition.VisitsSound | stack/Main.tsx:40-52 | Every visited node extends its selection by increasing positions in the pool. Its area is the sum of their areas and is at most 8 |
| Partition.VisitsComplete | stack/Main.tsx:39-53 | With no negative areas, pruning cuts nothing off: every increasing extension whose total area is at most 8 is visited |
| Partition.BestSound | stack/Main.tsx:40-45 | The chosen positions are increasing and in the pool. `maxFilledCells` is their total area, between 0 and 8 |
| Partition.BestMaximal | stack/Main.tsx:39-57 | With no negative areas, no increasing subset of area at most 8 fills more cells than the chosen one |
| Partition.BestIsFirstMaximal | stack/Main.tsx:42-45 | The result is the empty choice or the first visited node of maximal positive area. Area 0 holds exactly when nothing is chosen |
| Partition.VisitsSorted | stack/Main.tsx:47-52 | The search visits nodes in strictly increasing lexicographic order of their positions |
| Partition.BestIsLexFirst | stack/Main.tsx:42 | With no negative areas, ties go to the lexicographically first subset: any other increasing subset of the same area comes after the chosen one |
| Partition.BestNonEmpty | stack/Main.tsx:39-56 | A block that fits a slide on its own makes the choice non-empty, and at least as large as that block |
| Partition.StallsWhenNothingFits | stack/Main.tsx:36-45 | With no negative areas, if no block has area in (0, 8] the chosen subset is empty |
| Partition.ChoiceStep | stack/Main.tsx:27-29 | When every block has area in (0, 8], one round gives a non-empty slide of at most 8 cells. The remaining pool is strictly smaller, and together with the slide holds exactly the pool's blocks |
| Partition.Select | stack/Main.tsx:28 | The slide lists the pool's blocks at the chosen positions, in order |
| Partition.SelectRemoveSplit | stack/Main.tsx:28-29 | For increasing positions, the chosen blocks and the filtered remainder together are the pool as a multiset. The remainder is shorter by the number of positions |
| Partition.RoundKeepsProgress | stack/Main.tsx:26-30 | One iteration of the loop keeps the loop invariant and shrinks the available blocks |
| Partition.CreateSlides | stack/Main.tsx:22-33 | The slides are the reference partition. Every block lands on exactly one slide (multiset equality). Each slide is non-empty and fills at most 8 cells. No input gives no slides, and there are never more slides than blocks |
| Placement.Owner | stack/Main.tsx:85 | Definition of the occupancy grid after the placements so far: a cell holds the id of the last placement covering it, or null |
| Placement.Fits | stack/Main.tsx:97-106 | Definition of the `canPlace` test: every cell of the w × h rectangle at (row, col) is null |
| Placement.Candidate | stack/Main.tsx:94-96 | Definition of the loop bounds: `0 <= row <= 4 - height` and `0 <= col <= 2 - width` |
| Placement.Place | stack/Main.tsx:92-127 | Definition of the reference placer: each block in input order goes at its first fit, or is skipped when it has none. `PlacedInBounds`, `PlacedDisjoint`, `PlacePrefixStable`, `PlaceSnoc` and `PlacedFromInput` state its properties |
| Placement.PixelSpan | stack/Main.tsx:119-120 | Definition of the pixel extent of n cells: `n * cellSize + (n - 1) * margin` |
| Placement.Render | stack/Main.tsx:115-121 | Definition of the entry pushed for a placement: its id, `left = offsetX + col * (cellSize + margin)`, `top = row * (cellSize + margin)`, and the pixel width and height |
| Placement.ScanCols | stack/Main.tsx:96-106 | The first column from `col` on where the block's rectangle is free, and none of the columns before it. None when no column fits |
| Placement.ScanRows | stack/Main.tsx:94-126 | The first free position in row-major order from a row on, or None when there is none |
| Placement.FirstFit | stack/Main.tsx:94-126 | The position found is a free candidate, and every candidate before it in row-major order is occupied. None exactly when no candidate is free |
| Placement.FindSpot | stack/Main.tsx:94-107 | The nested loops and the `canPlace` test on the occupancy matrix find exactly `FirstFit` |
| Placement.Mark | stack/Main.tsx:108-113 | The block's id is written into exactly the cells of its rectangle. Every other cell is unchanged |
| Placement.ArrangeBlocksInSlide | stack/Main.tsx:84-130 | The output is the rendering of the reference placement, one entry per placed block, in input order |
| Placement.RenderAll | stack/Main.tsx:115-121 | One pushed entry per placement, carrying the block with its pixel position and size |
| Placement.SlideHeight | stack/Main.tsx:132-135 | The result is at least every block's pixel height plus two margins, and equal to one of them. It is None for an empty slide, where `Math.max()` gives minus infinity |
| Placement.PlacedInBounds | stack/Main.tsx:94-96 | Every placed rectangle lies in rows [0, 4) and columns [0, 2) |
| Placement.PlacedDisjoint | stack/Main.tsx:97-113 | No two placed rectangles share a cell |
| Placement.PlacedCellsOwned | stack/Main.tsx:108-113 | Every cell of a placed block's rectangle is marked with that block's id. A cell is unmarked exactly when no placement covers it |
| Placement.CoveredIsMarked | stack/Main.tsx:108-113 | A cell a placement covers is not null |
| Placement.MarkedIsCovered | stack/Main.tsx:108-113 | A non-null cell is covered by some placement and holds that placement's block id |
| Placement.PlaceSnoc | stack/Main.tsx:92-129 | Appending a block that has a first free position adds exactly its placement there, after the earlier placements |
| Placement.PlacePrefixStable | stack/Main.tsx:92-129 | Placing more blocks never moves earlier ones: a prefix's placements are a prefix of the whole list's |
| Placement.PlacedFromInput | stack/Main.tsx:92-121 | Every placement is of a block of the input |
| Placement.Unplaceable | stack/Main.tsx:94-96 | A block taller than 4 rows or wider than 2 columns has no candidate position |
| Placement.DroppedBlock | stack/Main.tsx:92-127 | Appending such a block leaves the placements unchanged: it is silently dropped |
| Placement.FirstFitIs | stack/Main.tsx:94-126 | A free candidate with every earlier candidate occupied is the first fit |
| Placement.FiveBlockExample | stack/Main.tsx:92-129 | The blocks 1×1, 2×1, 1×2, 1×1, 1×1 are placed at (0,0), (1,0), (2,0), (0,1), (2,1) |
| Slider.SlideKey | frontend/components/Slider.js:70 | Definition of the slide key `slide-${slides.length}` |
| Slider.MakeEntry | frontend/components/Slider.js:56-61 | Definition of the entry pushed for `items[index]`: id `${item.id}-${index}`, width `item.width * (cellWidth + 10) - 10`, height `item.height * (cellHeight + 10) - 10`, and the item |
| Slider.Label | frontend/components/Slider.js:53 | Definition of the mark written into cell (i, j): `${item.id}-${i}-${j}` |
| Slider.CanPlace | frontend/components/Slider.js:46-49 | Definition of the fit test: the rectangle is inside the 4 × 2 grid and every cell of the clamped slices is null. `TestSpot` computes it on the grid array |
| Slider.Step | frontend/components/Slider.js:39-98 | Definition of one `forEach` callback: put the item at its first spot on the current slide; otherwise close the slide under key `slide-k`, start a fresh grid and try once more, dropping the item when it fails again. `StepSound` and `StepComplete` state its properties |
| Slider.Run | frontend/components/Slider.js:39-99 | Definition of the pagination state after the callbacks on the items, in input order. `RunSound` and `RunComplete` state its properties |
| Slider.Paginate | frontend/components/Slider.js:27-106 | Definition of `getSlides`: the closed slides, then the current one under the next key when it is not empty. `PaginateComplete` and `PaginateKeyed` state its properties |
| Slider.SliceEnd | frontend/components/Slider.js:49 | The end index `Array.prototype.slice` uses lies in [0, length]. In that range it is the given end |
| Slider.Occupant | frontend/components/Slider.js:51-55 | A grid cell is null exactly when no put item covers it |
| Slider.ScanCols | frontend/components/Slider.js:45-65 | The first column from `c` on that passes the fit test, with every earlier column failing it. None when all fail |
| Slider.ScanRows | frontend/components/Slider.js:44-67 | The first row-major position from a row on that passes the fit test, or None |
| Slider.FirstSpot | frontend/components/Slider.js:44-67 | The position found passes the test, and every earlier one fails it. None exactly when no position passes |
| Slider.TestSpot | frontend/components/Slider.js:46-49 | The bounds test and the `slice(...).every(...)` scan of the grid array succeed exactly when `CanPlace` holds for the puts the grid holds |
| Slider.FindSpot | frontend/components/Slider.js:44-50 | The loops' test on the grid array finds exactly `FirstSpot` |
| Slider.Stamp | frontend/components/Slider.js:51-55 | Each cell of the item's rectangle gets the label `${item.id}-${i}-${j}`. The grid then holds the marks of the puts so far plus this one |
| Slider.TryPut | frontend/components/Slider.js:44-67 | The item is placed exactly when a first spot exists, and the grid records the new put |
| Slider.Visit | frontend/components/Slider.js:39-98 | One `forEach` callback performs the reference step: place, or close the slide and retry on a fresh grid |
| Slider.GetSlides | frontend/components/Slider.js:27-106 | Returns the reference pagination |
| Slider.RunSnoc | frontend/components/Slider.js:39 | The callback runs on the items in input order |
| Slider.PutKeepsSound | frontend/components/Slider.js:44-55 | Putting an item at its first spot keeps every put inside the grid, and no cell covered twice |
| Slider.StepSound | frontend/components/Slider.js:39-98 | One callback keeps the slides keyed and the current grid sound, and its entries match the puts |
| Slider.RunSound | frontend/components/Slider.js:39-99 | After any prefix of items, the rectangles on the current slide are in bounds and pairwise disjoint, and slide `k` has key `slide-k` |
| Slider.EmptyGridFits | frontend/components/Slider.js:74-80 | An item of width 1..2 and height 1..4 always fits the fresh grid the retry uses |
| Slider.StepComplete | frontend/components/Slider.js:39-98 | One callback on an item of width 1..2 and height 1..4 appends exactly its entry to the closed slides followed by the current one, never closes an empty slide, and leaves the current slide non-empty |
| Slider.RunComplete | frontend/components/Slider.js:39-99 | With such items, the closed slides followed by the current one hold every item's entry once, in input order. Closed slides are non-empty |
| Slider.PaginateComplete | frontend/components/Slider.js:27-106 | With such items, concatenating the slides' entries gives each item's entry exactly once, in input order, with id `${item.id}-${index}`. No slide is empty, and there are no slides exactly when there are no items |
| Slider.PaginateKeyed | frontend/components/Slider.js:70-102 | For any items, slide `k` has key `slide-k` |
| Slider.BreakOnlyOnMiss | frontend/components/Slider.js:69-98 | A slide is closed only when the item fits nowhere on the current grid. The closed slide holds the current entries, and the retry starts from an empty grid |
| Slider.OversizeDropped | frontend/components/Slider.js:69-98 | An item taller than 4 rows or wider than 2 columns is dropped, but it still closes the current slide |
| Slider.EmptySlideExample | frontend/components/Slider.js:69-103 | An oversized first item pushes an empty `slide-0`. The next item goes on `slide-1` |
| BlockStore.HasId | stack/EditItem.tsx:20 | Definition of "the store holds a block with this id", the condition under which `blocks.find` returns a block (`FindBlock`) |
| BlockStore.InitialBlocks | BlocksContext.tsx:19-30 | Ten blocks with ids 1..10, each of width and height in 1..2 |
| BlockStore.InitialIdsDistinct | BlocksContext.tsx:19-30 | The initial ids are pairwise distinct |
| BlockStore.AddBlock | BlocksContext.tsx:32-34 | The block goes at the end. Length grows by one and earlier elements are unchanged |
| BlockStore.UpdateBlock | BlocksContext.tsx:36-40 | Length and order are kept. Each element with the updated id becomes the update, and every other element is unchanged |
| BlockStore.UpdateAbsent | BlocksContext.tsx:36-40 | Updating an absent id leaves the list unchanged |
| BlockStore.UpdateWithSelf | BlocksContext.tsx:36-40 | With distinct ids, writing back a block already in the list changes nothing |
| BlockStore.DeleteBlock | BlocksContext.tsx:42-44 | A block stays exactly when it was in the list and its id differs. No remaining block has the id. `handleDelete` (frontend/components/Slider.js:132-133) is the same filter on the slider's items |
| BlockStore.DeleteAppend | BlocksContext.tsx:42-44 | Deleting distributes over concatenation, so the kept blocks keep their relative order, in the store and in `handleDelete` alike |
| BlockStore.DeleteIdempotent | BlocksContext.tsx:42-44 | Deleting twice is deleting once |
| BlockStore.DeleteAbsent | BlocksContext.tsx:42-44 | Deleting an absent id leaves the list unchanged |
| BlockStore.AddThenDelete | BlocksContext.tsx:32-44 | Adding a block, then deleting its id, equals deleting that id from the original list |
| BlockStore.FindBlock | stack/EditItem.tsx:20 | `find` is None exactly when no block has the id. Otherwise it is the first block with that id |
| Decimal.IsWhite | stack/EditItem.tsx:29-30 | Definition of the characters `parseInt` skips first: the ECMAScript white space (tab, vertical tab, form feed, space, no-break space, zero-width no-break space, the Unicode space separators) and line terminators (LF, CR, U+2028, U+2029) |
| Decimal.ParseSigned | stack/EditItem.tsx:29-30 | Definition of what `parseInt(·, 10)` reads after the white space: an optional `-` or `+`, then the longest run of decimal digits. NaN (None) when there are no digits |
| Decimal.ParseInt | stack/EditItem.tsx:29-30 | Definition of `parseInt(text, 10)`: skip the leading white space, then read as `ParseSigned`. `ParseIntOfDigits`, `ParseIntToDecimal`, `ParseIntStopsAtNonDigit`, `ParseIntSkipsWhite`, `ParseIntOfNonDigit` and `ParseIntOfEmpty` state its behaviour |
| Decimal.TrimStart | stack/EditItem.tsx:29-30 | The leading white space `parseInt` skips is removed. It is a suffix of the text, and it does not start with white space |
| Decimal.DigitPrefix | stack/EditItem.tsx:29-30 | The longest prefix made of decimal digits |
| Decimal.ToDigits | stack/EditItem.tsx:23-24 | The digits of a natural number, with no leading zero, denoting that number |
| Decimal.ToDecimal | stack/EditItem.tsx:23-24 | `String(n)` is non-empty, starts with `-` exactly for negative numbers, and is all digits otherwise |
| Decimal.ParseIntOfDigits | stack/AddItem.tsx:45-46 | A non-empty digit string parses to the number it denotes |
| Decimal.ParseIntToDecimal | stack/EditItem.tsx:23-30 | `parseInt(String(n), 10) == n` for every integer |
| Decimal.ParseIntStopsAtNonDigit | stack/EditItem.tsx:29-30 | Reading stops at the first non-digit, so `parseInt("12px") == 12` |
| Decimal.ParseIntSkipsWhite | stack/EditItem.tsx:29-30 | Leading white space does not change what is read |
| Decimal.ParseIntOfNonDigit | stack/EditItem.tsx:29-30 | Text whose first character is not white space, a sign or a digit is NaN |
| Decimal.ParseIntOfEmpty | stack/AddItem.tsx:45-48 | The empty text and a lone `-` are NaN |
| AddItem.FieldValue | stack/AddItem.tsx:20 | Definition of the value a keystroke handler compares: 0 for empty text, otherwise `parseInt(text, 10)` |
| AddItem.Accepts | stack/AddItem.tsx:19-21 | A keystroke's text passes exactly when it is digits only, and its value is within the bound (empty counts as 0) |
| AddItem.NewBlock | stack/AddItem.tsx:44-54 | A block is made only with both parsed values positive, and it carries the given id. From valid fields it has exactly the parsed sizes |
| AddItem.AddItemForm.constructor | stack/AddItem.tsx:14-15 | Both fields start empty and the form invariant holds |
| AddItem.AddItemForm.HandleHeightChange | stack/AddItem.tsx:18-29 | The text is stored exactly when it passes the digits test with bound 8. Otherwise the field is unchanged. The other field is untouched and the invariant is kept |
| AddItem.AddItemForm.HandleWidthChange | stack/AddItem.tsx:31-42 | As above, with bound 2 |
| AddItem.AddItemForm.AddBlockHandler | stack/AddItem.tsx:44-61 | On positive parsed values, the block is appended to the store and both fields reset to `''`. Otherwise the store and fields are unchanged. The invariant is kept |
| AddItem.AddedBlockInRange | stack/AddItem.tsx:44-54 | Every block added from fields that satisfy the form invariant has width 1..2 and height 1..8, so at most 16 cells |
| AddItem.EmptyWidthRejected | stack/AddItem.tsx:45-48 | An empty width field parses to NaN, so the add is rejected whatever the height reads |
| AddItem.EmptyHeightRejected | stack/AddItem.tsx:45-48 | An empty height field parses to NaN, so the add is rejected whatever the width reads |
| EditItem.EditItemForm.constructor | stack/EditItem.tsx:15-17 | Both texts start empty and nothing is selected |
| EditItem.EditItemForm.SyncWithStore | stack/EditItem.tsx:19-26 | When the id is found, that block is selected and the texts become `String` of its width and height. Otherwise nothing changes |
| EditItem.EditItemForm.SetWidthText | stack/EditItem.tsx:15 | Any width text is stored unchecked |
| EditItem.EditItemForm.SetHeightText | stack/EditItem.tsx:16 | Any height text is stored unchecked |
| EditItem.CheckSave | stack/EditItem.tsx:29-45 | The guard chain in order: NaN in either field; then width above 2; then height above 8; otherwise accepted with the parsed values. Each outcome is stated with both directions |
| EditItem.Save | stack/EditItem.tsx:28-51 | The store is updated only on an accepted save with a selected block, and then with that block's id and the parsed sizes. Otherwise it is unchanged |
| EditItem.EditItemForm.HandleSave | stack/EditItem.tsx:28-51 | The store keeps its length and ids, and is unchanged when nothing is selected |
| EditItem.NoLowerBound | stack/EditItem.tsx:37-45 | Zero and negative sizes pass every guard |
| EditItem.EmptyWidthRejected | stack/EditItem.tsx:29-35 | An empty width is not a number, so the save is rejected whatever the height holds |
| EditItem.NaNHeightRejected | stack/EditItem.tsx:29-35 | A height such as `abc` is not a number, so the save is rejected whatever the width holds |
| EditItem.WidthCheckedFirst | stack/EditItem.tsx:37-45 | A width over 2 is reported before any height problem |
| EditItem.UneditedFieldsRoundTrip | stack/EditItem.tsx:23-30 | Saving the fields as the form filled them gives back the block's own width and height |
| EditItem.UneditedSaveKeepsStore | stack/EditItem.tsx:19-48 | With distinct ids, saving unedited fields leaves the store as it was |
| Grid.RectFree | stack/Main.tsx:97-106 | The nested `break` loops report "free" exactly when every cell of the rectangle is null |
| Hazards.RoundStalls | stack/Main.tsx:26-30 | When every block's area exceeds 8, a round chooses nothing and leaves the pool unchanged, so the `while` loop never ends |
| Hazards.AcceptedBlockStallsSlides | stack/AddItem.tsx:18-54 | The add form accepts "2" and "5" and adds a 2×5 block. As the last block in the pool, it stalls `createSlides` |
| Hazards.ZeroAreaPoolEnds | stack/Main.tsx:26-54 | A pool outside (0, 8] can still end: with a 0-area block and a 1-cell block, the first round takes both positions and leaves nothing |
| Hazards.TallBlockAccepted | stack/AddItem.tsx:18-54 | The add form accepts and adds a 1×6 block |
| Hazards.TallBlockChosen | stack/Main.tsx:35-58 | The partitioner gives the 1×6 block a slide of its own |
| Hazards.TallBlockDropped | stack/Main.tsx:94 | Both placers drop the 1×6 block: `arrangeBlocksInSlide` places nothing, and `getSlides` closes its slide without it |

## Left out

- Rendering and UI are not modelled: JSX, styles, Swiper/FlatList paging, modals, `openModal`/`handleEdit`, the viewability callback and navigation (`App.tsx`, `frontend/App.js`). They hold no logic beyond wiring.
- `Alert.alert` messages are modelled only as "rejected, state unchanged".
- Pixel geometry is not computed from the screen. The values from `Dimensions.get` are floats (`cellSize`, `offsetX`, `cellWidth`, `cellHeight`). They become integer parameters (`Placement.Geometry`, the `cellWidth`/`cellHeight` arguments of `Slider`), so both placers are modelled on grid rows and columns.
- `Date.now()` ids are not generated: the id of an added block is a parameter of `AddItem.AddItemForm.AddBlockHandler`.
- JavaScript number precision is not modelled: sizes, areas and parsed values are unbounded integers. `parseInt("-0")` gives JavaScript's `-0`, which the model reads as 0.
- Partition.CreateSlides: requires every block's area to be in (0, 8]. That condition is sufficient for the `while` loop to end, not necessary: some pools with zero or negative areas also end (a 0-area block can ride along with a positive one, and a negative area can bring a larger block under 8), and the model says nothing about them beyond the example `Hazards.ZeroAreaPoolEnds`. A pool whose remaining blocks all have areas above 8 makes the source loop forever; `Hazards.RoundStalls` and `Hazards.AcceptedBlockStallsSlides` state that stall.
- Object identity is not modelled. `bestFitBlocks.includes(block)` compares object references; the model tracks blocks by their position in the pool (`Partition.Remove` drops the chosen positions). The two agree because ids are distinct (1..10 initially, `Date.now()` afterwards), so the pool never holds the same object twice. With duplicate ids they would not: `updateBlock` maps every block with the id to the one updated object, and `includes` would then drop every copy of it in the same round.
- Partition.BestMaximal: assumes no negative areas. The edit form lets negative sizes through (`EditItem.NoLowerBound`); with negative areas, pruning can cut off a better subset.
- Partition.BestIsLexFirst: assumes no negative areas, as above. Its completeness step needs every tied subset to be visited.
- Partition.StallsWhenNothingFits: assumes no negative areas, as above.
- Slider.PaginateComplete: covers only items of width 1..2 and height 1..4. Larger items are dropped (`Slider.OversizeDropped`). Items of size 0 or below are not characterised beyond `Slider.RunSound`.
- Slider items are modelled as `Block` values (id, width, height). `ValueContext` is not part of this model, so the shape of its items is assumed.
- Context plumbing is not modelled: `useBlocks` and its throw outside a provider, React state updates as asynchronous setters, and the `blocks` dependency of `useEffect`. Each handler is modelled as a synchronous step on the current state.
- `Math.max()` of an empty list (minus infinity) is modelled as `None` in `Placement.SlideHeight`.
