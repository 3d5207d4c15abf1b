// Shared value types of the block grid app.

module Types {

  /** An optional value; None stands for JavaScript's `null`/`undefined` and for NaN results. */
  datatype Option<T> = None | Some(value: T)

  /** An item the user collects: an integer id and a size in grid cells. */
  datatype Block = Block(id: int, width: int, height: int)

  /** The number of grid cells a block claims (`width * height`). */
  function Area(b: Block): int
  {
    b.width * b.height
  }
}
