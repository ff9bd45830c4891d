/** The optional value used for the single undo slot of the ledger. */
module Wrappers {
  datatype Option<+T> = None | Some(value: T)
}
