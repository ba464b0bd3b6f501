/** The optional-value datatype used for the game's "current disaster" slot,
    which holds either nothing or the disaster last drawn. */
module Wrappers {

  datatype Option<+T> = None | Some(value: T)
}
