/** The optional result that the analyser returns where fix_png_bound.py returns `None`. */
module Wrappers {
  datatype Option<+T> = None | Some(value: T)
}
