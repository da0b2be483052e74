/** Values shared by every part of the engine: optional values and the colour palette. */
module Common {

  /** A value that may be absent, standing for Python's `None`. */
  datatype Option<+T> = None | Some(value: T)

  /** The five colours a piece may take, in the order of the game's `COLORS` list. */
  datatype Color = Gold | Purple | DeepSkyBlue | LimeGreen | TomatoRed

  function Min(a: int, b: int): int
  {
    if a <= b then a else b
  }
}
