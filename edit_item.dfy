// The "edit item" form: two free-text fields filled from the selected block, and the EDIT button.

module EditItem {
  import opened Types
  import opened Decimal
  import BlockStore

  const MaxWidth := 2
  const MaxHeight := 8

  /** Outcome of the guard chain of `handleSave`, in the order it checks. */
  datatype SaveCheck = NotANumber | WidthTooLarge | HeightTooLarge | Accepted(width: int, height: int)

  /** The guard chain of `handleSave`: both fields must parse, then width <= 2, then
      height <= 8. There is no lower bound. */
  function CheckSave(widthText: string, heightText: string): (r: SaveCheck)
    ensures r.NotANumber? <==> ParseInt(widthText).None? || ParseInt(heightText).None?
    ensures r.WidthTooLarge? <==> ParseInt(widthText).Some? && ParseInt(heightText).Some? &&
                                  ParseInt(widthText).value > MaxWidth
    ensures r.Accepted? <==> ParseInt(widthText).Some? && ParseInt(heightText).Some? &&
                             ParseInt(widthText).value <= MaxWidth && ParseInt(heightText).value <= MaxHeight
    ensures r.Accepted? ==> Some(r.width) == ParseInt(widthText) && Some(r.height) == ParseInt(heightText)
  {
    match (ParseInt(widthText), ParseInt(heightText))
    case (Some(w), Some(h)) =>
      if w > MaxWidth then WidthTooLarge
      else if h > MaxHeight then HeightTooLarge
      else Accepted(w, h)
    case _ => NotANumber
  }

  /** The store after `handleSave`: `updateBlock` with the selected block's id and the parsed
      size when every guard passes and a block is selected; otherwise the store unchanged. */
  function Save(widthText: string, heightText: string, selected: Option<Block>, blocks: seq<Block>): (r: seq<Block>)
    ensures |r| == |blocks|
    ensures (CheckSave(widthText, heightText).Accepted? && selected.Some?) || r == blocks
    ensures CheckSave(widthText, heightText).Accepted? && selected.Some? ==>
              forall i :: 0 <= i < |r| ==>
                r[i] == (if blocks[i].id == selected.value.id
                         then Block(selected.value.id, CheckSave(widthText, heightText).width,
                                    CheckSave(widthText, heightText).height)
                         else blocks[i])
  {
    match CheckSave(widthText, heightText)
    case Accepted(w, h) =>
      if selected.Some? then BlockStore.UpdateBlock(blocks, Block(selected.value.id, w, h)) else blocks
    case _ => blocks
  }

  class EditItemForm {
    const selectedBlockId: int
    var blockWidthText: string
    var blockHeightText: string
    var selectedBlock: Option<Block>

    constructor (selectedBlockId: int)
      ensures this.selectedBlockId == selectedBlockId
      ensures blockWidthText == "" && blockHeightText == "" && selectedBlock == None
    {
      this.selectedBlockId := selectedBlockId;
      blockWidthText := "";
      blockHeightText := "";
      selectedBlock := None;
    }

    /** The `useEffect`: when the store holds a block with the selected id, select the first
        such block and show its width and height as decimal text; otherwise change nothing. */
    method SyncWithStore(blocks: seq<Block>)
      modifies this
      ensures match BlockStore.FindBlock(blocks, selectedBlockId)
              case Some(b) =>
                selectedBlock == Some(b) && blockWidthText == ToDecimal(b.width) &&
                blockHeightText == ToDecimal(b.height)
              case None =>
                selectedBlock == old(selectedBlock) && blockWidthText == old(blockWidthText) &&
                blockHeightText == old(blockHeightText)
    {
      var block := BlockStore.FindBlock(blocks, selectedBlockId);
      if block.Some? {
        selectedBlock := block;
        blockWidthText := ToDecimal(block.value.width);
        blockHeightText := ToDecimal(block.value.height);
      }
    }

    /** `onChangeText` of the width field: any text is stored. */
    method SetWidthText(text: string)
      modifies this
      ensures blockWidthText == text
      ensures blockHeightText == old(blockHeightText) && selectedBlock == old(selectedBlock)
    {
      blockWidthText := text;
    }

    /** `onChangeText` of the height field: any text is stored. */
    method SetHeightText(text: string)
      modifies this
      ensures blockHeightText == text
      ensures blockWidthText == old(blockWidthText) && selectedBlock == old(selectedBlock)
    {
      blockHeightText := text;
    }

    /** `handleSave` on the form's current fields: the new store. */
    function HandleSave(blocks: seq<Block>): (r: seq<Block>)
      reads this
      ensures |r| == |blocks| && forall i :: 0 <= i < |r| ==> r[i].id == blocks[i].id
      ensures selectedBlock.None? ==> r == blocks
    {
      Save(blockWidthText, blockHeightText, selectedBlock, blocks)
    }
  }

  /** Zero and negative sizes pass every guard and are saved. */
  lemma NoLowerBound(w: int, h: int)
    requires w <= 0 && h <= 0
    ensures CheckSave(ToDecimal(w), ToDecimal(h)) == Accepted(w, h)
  {
    ParseIntToDecimal(w);
    ParseIntToDecimal(h);
  }

  /** An empty width is not a number, so the save is rejected whatever the height holds. */
  lemma EmptyWidthRejected(text: string)
    ensures CheckSave("", text) == NotANumber
  {
    ParseIntOfEmpty();
    assert ParseInt("").None?;
  }

  /** A height such as "abc" is not a number, so the save is rejected whatever the width holds. */
  lemma NaNHeightRejected(text: string)
    ensures CheckSave(text, "abc") == NotANumber
  {
    ParseIntOfNonDigit("abc");
    assert ParseInt("abc").None?;
  }

  /** Saving the fields exactly as the form filled them in gives back the block's own size. */
  lemma {:induction false} UneditedFieldsRoundTrip(b: Block)
    requires b.width <= MaxWidth && b.height <= MaxHeight
    ensures CheckSave(ToDecimal(b.width), ToDecimal(b.height)) == Accepted(b.width, b.height)
  {
    ParseIntToDecimal(b.width);
    ParseIntToDecimal(b.height);
  }

  /** ... and so, in a store with distinct ids, saving unedited fields leaves the store as it was. */
  lemma UneditedSaveKeepsStore(blocks: seq<Block>, id: int)
    requires BlockStore.DistinctIds(blocks)
    requires BlockStore.FindBlock(blocks, id).Some?
    requires var b := BlockStore.FindBlock(blocks, id).value; b.width <= MaxWidth && b.height <= MaxHeight
    ensures var b := BlockStore.FindBlock(blocks, id).value;
            Save(ToDecimal(b.width), ToDecimal(b.height), Some(b), blocks) == blocks
  {
    var b := BlockStore.FindBlock(blocks, id).value;
    UneditedFieldsRoundTrip(b);
    assert Save(ToDecimal(b.width), ToDecimal(b.height), Some(b), blocks) == BlockStore.UpdateBlock(blocks, b);
    var k :| 0 <= k < |blocks| && blocks[k] == b;
    BlockStore.UpdateWithSelf(blocks, k);
  }

  /** A width over 2 is reported before a height over 8. */
  lemma WidthCheckedFirst(w: int, h: int)
    requires w > MaxWidth
    ensures CheckSave(ToDecimal(w), ToDecimal(h)) == WidthTooLarge
  {
    ParseIntToDecimal(w);
    ParseIntToDecimal(h);
  }
}
