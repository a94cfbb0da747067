/** The usual optional-value datatype, used for search results. */
module Options {

  datatype Option<+T> = None | Some(value: T)
}
