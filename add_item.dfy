// The "add item" form: two text fields gated on every keystroke, and the ADD button.

module AddItem {
  import opened Types
  import opened Decimal
  import BlockStore

  const MaxWidth := 2
  const MaxHeight := 8

  /** The value a keystroke handler compares with its bound: 0 for the empty field,
      otherwise `parseInt(text, 10)`. */
  function FieldValue(text: string): Option<int>
  {
    if text == "" then Some(0) else ParseInt(text)
  }

  /** A field holds digits only and their value is within the bound. */
  predicate FieldOk(text: string, bound: int)
  {
    AllDigits(text) && DigitsValue(text) <= bound
  }

  /** The test of `handleWidthChange` / `handleHeightChange`: the text matches `^\d*$`
      and its value is at most `bound`. */
  function Accepts(text: string, bound: int): (r: bool)
    ensures r <==> FieldOk(text, bound)
  {
    if !AllDigits(text) then false
    else
      assert text != "" ==> ParseInt(text) == Some(DigitsValue(text)) by {
        if text != "" { ParseIntOfDigits(text); }
      }
      match FieldValue(text)
      case Some(v) => v <= bound
      case None => false
  }

  /** The block `addBlockHandler` creates from the two fields, or None when it shows the
      "Please enter valid width and height" alert. An empty field parses to NaN. */
  function NewBlock(widthBox: string, heightBox: string, id: int): (r: Option<Block>)
    ensures r.Some? ==> r.value.id == id && r.value.width > 0 && r.value.height > 0
    ensures FieldOk(widthBox, MaxWidth) && FieldOk(heightBox, MaxHeight) ==>
              (r.Some? <==> widthBox != "" && heightBox != "" &&
                            DigitsValue(widthBox) > 0 && DigitsValue(heightBox) > 0)
    ensures FieldOk(widthBox, MaxWidth) && FieldOk(heightBox, MaxHeight) && r.Some? ==>
              r.value.width == DigitsValue(widthBox) && r.value.height == DigitsValue(heightBox) &&
              1 <= r.value.width <= MaxWidth && 1 <= r.value.height <= MaxHeight
  {
    assert widthBox != "" && AllDigits(widthBox) ==> ParseInt(widthBox) == Some(DigitsValue(widthBox)) by {
      if widthBox != "" && AllDigits(widthBox) { ParseIntOfDigits(widthBox); }
    }
    assert heightBox != "" && AllDigits(heightBox) ==> ParseInt(heightBox) == Some(DigitsValue(heightBox)) by {
      if heightBox != "" && AllDigits(heightBox) { ParseIntOfDigits(heightBox); }
    }
    match (ParseInt(widthBox), ParseInt(heightBox))
    case (Some(w), Some(h)) => if w > 0 && h > 0 then Some(Block(id, w, h)) else None
    case _ => None
  }

  class AddItemForm {
    var heightBox: string
    var widthBox: string

    /** Both fields are digit strings, possibly empty, whose values are within bounds. */
    ghost predicate Valid()
      reads this
    {
      FieldOk(widthBox, MaxWidth) && FieldOk(heightBox, MaxHeight)
    }

    constructor ()
      ensures Valid()
      ensures widthBox == "" && heightBox == ""
    {
      heightBox := "";
      widthBox := "";
    }

    /** `handleHeightChange`: store the text when it passes the gate, otherwise alert and keep the field. */
    method HandleHeightChange(text: string) returns (accepted: bool)
      modifies this
      ensures accepted == Accepts(text, MaxHeight)
      ensures heightBox == (if accepted then text else old(heightBox))
      ensures widthBox == old(widthBox)
      ensures old(Valid()) ==> Valid()
    {
      accepted := Accepts(text, MaxHeight);
      if accepted {
        heightBox := text;
      }
    }

    /** `handleWidthChange`: the same gate with bound 2. */
    method HandleWidthChange(text: string) returns (accepted: bool)
      modifies this
      ensures accepted == Accepts(text, MaxWidth)
      ensures widthBox == (if accepted then text else old(widthBox))
      ensures heightBox == old(heightBox)
      ensures old(Valid()) ==> Valid()
    {
      accepted := Accepts(text, MaxWidth);
      if accepted {
        widthBox := text;
      }
    }

    /** `addBlockHandler`: add the block to the store and clear both fields, or reject
        with the store and the fields unchanged. The `Date.now()` id is the parameter `id`. */
    method AddBlockHandler(id: int, blocks: seq<Block>) returns (added: bool, blocks': seq<Block>)
      modifies this
      ensures added == NewBlock(old(widthBox), old(heightBox), id).Some?
      ensures added ==> blocks' == BlockStore.AddBlock(blocks, NewBlock(old(widthBox), old(heightBox), id).value)
      ensures added ==> widthBox == "" && heightBox == ""
      ensures !added ==> blocks' == blocks && widthBox == old(widthBox) && heightBox == old(heightBox)
      ensures old(Valid()) ==> Valid()
    {
      var block := NewBlock(widthBox, heightBox, id);
      if block.Some? {
        blocks' := BlockStore.AddBlock(blocks, block.value);
        widthBox := "";
        heightBox := "";
        added := true;
      } else {
        blocks' := blocks;
        added := false;
      }
    }
  }

  /** An added block always has 1 <= width <= 2 and 1 <= height <= 8, whatever was typed. */
  lemma AddedBlockInRange(widthBox: string, heightBox: string, id: int)
    requires FieldOk(widthBox, MaxWidth) && FieldOk(heightBox, MaxHeight)
    requires NewBlock(widthBox, heightBox, id).Some?
    ensures var b := NewBlock(widthBox, heightBox, id).value;
            1 <= b.width <= MaxWidth && 1 <= b.height <= MaxHeight && 1 <= Area(b) <= 16
  {
    var b := NewBlock(widthBox, heightBox, id).value;
    if b.width == 1 {
      assert Area(b) == b.height;
    } else {
      assert b.width == 2;
      assert Area(b) == b.height + b.height;
    }
  }

  /** An empty width field parses to NaN, so ADD is rejected however the height reads. */
  lemma EmptyWidthRejected(text: string, id: int)
    ensures NewBlock("", text, id).None?
  {
    ParseIntOfEmpty();
    assert ParseInt("").None?;
  }

  /** An empty height field parses to NaN, so ADD is rejected however the width reads. */
  lemma EmptyHeightRejected(text: string, id: int)
    ensures NewBlock(text, "", id).None?
  {
    ParseIntOfEmpty();
    assert ParseInt("").None?;
  }
}
