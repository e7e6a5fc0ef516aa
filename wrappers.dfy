/** The optional value used where the game answers "no cell" or "no clue". */
module Wrappers {
  datatype Option<+T> = None | Some(value: T)
}
