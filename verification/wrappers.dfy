/** The optional value used for the editor's selection, which the source keeps as an index or `null`. */
module Wrappers {

  datatype Option<+T> = None | Some(value: T)
}
