/** Optional values: a PDF page or a slide shape that may or may not yield text,
    and a model call that may or may not come back with a reply. */
module Wrappers {

  datatype Option<+T> = None | Some(value: T)
}
